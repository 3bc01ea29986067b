/**
 * Knuth-Morris-Pratt search over arbitrary element sequences, as used to
 * find NAL start codes: the failure table, the scan that reports every
 * (possibly overlapping) occurrence, and a prefix test.
 */
module ArrayUtils {

  // ---------------------------------------------------------------------
  // Specification vocabulary
  // ---------------------------------------------------------------------

  /** `b` is a proper border of the prefix `p[..n]`: the first `b` elements
      of `p[..n]` equal its last `b` elements, and `b < n`. */
  ghost predicate IsBorder<T>(p: seq<T>, n: nat, b: nat)
  {
    b < n <= |p| && p[..b] == p[n - b..n]
  }

  /** `v` is the longest proper border of `p[..n]`. */
  ghost predicate IsLongestBorder<T>(p: seq<T>, n: nat, v: nat)
  {
    IsBorder(p, n, v) && forall b :: v < b < n ==> !IsBorder(p, n, b)
  }

  /** `v` is the KMP failure value at index `k`: the length of the longest
      proper prefix of `p[..k+1]` that is also a suffix of it. */
  ghost predicate IsFailureValue<T>(p: seq<T>, k: nat, v: nat)
  {
    k < |p| && IsLongestBorder(p, k + 1, v)
  }

  /** The last `q` elements of `text[..t]` are the first `q` elements of `pat`. */
  ghost predicate MatchesAt<T>(text: seq<T>, t: nat, pat: seq<T>, q: nat)
  {
    q <= t <= |text| && q <= |pat| && text[t - q..t] == pat[..q]
  }

  /** A partial match of length `q` ending at `t` cannot be extended by `text[t]`. */
  ghost predicate CannotExtend<T>(text: seq<T>, t: nat, pat: seq<T>, q: nat)
  {
    t < |text| && q < |pat| ==> text[t] != pat[q]
  }

  /** Every partial match ending at `t` that is longer than `q` (and shorter
      than the whole pattern) cannot be extended. */
  ghost predicate LongerMatchesStuck<T>(text: seq<T>, t: nat, pat: seq<T>, q: nat)
  {
    forall r :: q < r < |pat| && MatchesAt(text, t, pat, r) ==> CannotExtend(text, t, pat, r)
  }

  /** `pat` occurs in `text` at offset `i`. */
  ghost predicate IsOccurrence<T>(text: seq<T>, pat: seq<T>, i: nat)
  {
    i + |pat| <= |text| && text[i..i + |pat|] == pat
  }

  /** Reference definition: the offsets, in increasing order, of the
      occurrences of `pat` that end at or before position `n` of `text`. */
  ghost function OccurrencesBefore<T>(text: seq<T>, pat: seq<T>, n: nat): seq<nat>
    requires n <= |text|
  {
    if n == 0 then []
    else OccurrencesBefore(text, pat, n - 1)
         + (if |pat| <= n && text[n - |pat|..n] == pat then [n - |pat|] else [])
  }

  /** All occurrences of `pat` in `text`, in increasing order. */
  ghost function Occurrences<T>(text: seq<T>, pat: seq<T>): seq<nat>
  {
    OccurrencesBefore(text, pat, |text|)
  }

  /** Every offset in `matches` is an occurrence of `pat` in `text`. */
  ghost predicate AllAreOccurrences<T>(text: seq<T>, pat: seq<T>, matches: seq<nat>)
  {
    forall k :: 0 <= k < |matches| ==>
      matches[k] + |pat| <= |text| && text[matches[k]..matches[k] + |pat|] == pat
  }

  /** Every occurrence of `pat` in `text` is in `matches`. */
  ghost predicate ContainsAllOccurrences<T>(text: seq<T>, pat: seq<T>, matches: seq<nat>)
  {
    forall i :: 0 <= i && i + |pat| <= |text| && text[i..i + |pat|] == pat ==> i in matches
  }

  ghost predicate StrictlyIncreasing(s: seq<nat>)
  {
    forall i, j :: 0 <= i < j < |s| ==> s[i] < s[j]
  }

  // ---------------------------------------------------------------------
  // The reference definition reports exactly the occurrences, in order
  // ---------------------------------------------------------------------

  lemma {:induction false} OccurrencesBeforeSound<T>(text: seq<T>, pat: seq<T>, n: nat)
    requires n <= |text|
    ensures forall k :: 0 <= k < |OccurrencesBefore(text, pat, n)| ==>
      IsOccurrence(text, pat, OccurrencesBefore(text, pat, n)[k])
         && OccurrencesBefore(text, pat, n)[k] + |pat| <= n
  {
    if n > 0 {
      OccurrencesBeforeSound(text, pat, n - 1);
    }
  }

  lemma {:induction false} OccurrencesBeforeComplete<T>(text: seq<T>, pat: seq<T>, n: nat, i: nat)
    requires n <= |text|
    requires IsOccurrence(text, pat, i) && i + |pat| <= n
    requires |pat| > 0
    ensures i in OccurrencesBefore(text, pat, n)
  {
    if i + |pat| < n {
      OccurrencesBeforeComplete(text, pat, n - 1, i);
    }
  }

  lemma {:induction false} OccurrencesBeforeIncreasing<T>(text: seq<T>, pat: seq<T>, n: nat)
    requires n <= |text|
    requires |pat| > 0
    ensures StrictlyIncreasing(OccurrencesBefore(text, pat, n))
  {
    if n > 0 {
      OccurrencesBeforeIncreasing(text, pat, n - 1);
      OccurrencesBeforeSound(text, pat, n - 1);
    }
  }

  /** Soundness, completeness and ordering of the reference definition. */
  lemma OccurrencesCharacterised<T>(text: seq<T>, pat: seq<T>)
    requires |pat| > 0
    ensures AllAreOccurrences(text, pat, Occurrences(text, pat))
    ensures ContainsAllOccurrences(text, pat, Occurrences(text, pat))
    ensures StrictlyIncreasing(Occurrences(text, pat))
  {
    OccurrencesBeforeSound(text, pat, |text|);
    OccurrencesBeforeIncreasing(text, pat, |text|);
    forall i | 0 <= i && i + |pat| <= |text| && text[i..i + |pat|] == pat
      ensures i in Occurrences(text, pat)
    {
      OccurrencesBeforeComplete(text, pat, |text|, i);
    }
  }

  /** The example `"aaaa"` / `"aa"` reports the overlapping occurrences 0, 1, 2. */
  lemma OverlappingExample()
    ensures Occurrences("aaaa", "aa") == [0, 1, 2]
  {
    assert "aaaa"[0..2] == "aa";
    assert "aaaa"[1..3] == "aa";
    assert "aaaa"[2..4] == "aa";
  }

  // ---------------------------------------------------------------------
  // Facts about borders and partial matches used by both loops
  // ---------------------------------------------------------------------

  /** A border of a border is a border. */
  lemma BorderOfBorder<T>(p: seq<T>, n: nat, m: nat, c: nat)
    requires IsBorder(p, n, m) && IsBorder(p, m, c)
    ensures IsBorder(p, n, c)
  {
    calc {
      p[n - c..n];
      p[n - m..n][m - c..m];
      p[..m][m - c..m];
      p[m - c..m];
      p[..c];
    }
  }

  /** Every border of `p[..n]` longer than `m` fails to extend by `p[n]`. */
  ghost predicate LongerBordersFail<T>(p: seq<T>, n: nat, m: nat)
  {
    n < |p| && forall b :: m < b < n && IsBorder(p, n, b) ==> p[b] != p[n]
  }

  /** One step of the inner loop of the table construction: falling back
      from border `m` to its failure value `f`. */
  lemma BorderFallback<T>(p: seq<T>, n: nat, m: nat, f: nat)
    requires IsBorder(p, n, m) && LongerBordersFail(p, n, m)
    requires 0 < m && p[n] != p[m] && IsFailureValue(p, m - 1, f)
    ensures IsBorder(p, n, f) && LongerBordersFail(p, n, f)
  {
    BorderOfBorder(p, n, m, f);
    forall b | f < b < m
      ensures !IsBorder(p, n, b)
    {
      ShorterBorder(p, n, m, b);
    }
  }

  /** Leaving the inner loop: the next failure value is `m + 1` when `p[m]`
      extends the border and `m` (then 0) otherwise. */
  lemma NextFailureValue<T>(p: seq<T>, n: nat, m: nat)
    requires IsBorder(p, n, m) && LongerBordersFail(p, n, m)
    requires m == 0 || p[n] == p[m]
    ensures IsFailureValue(p, n, if p[m] == p[n] then m + 1 else m)
  {
    var v := if p[m] == p[n] then m + 1 else m;
    if p[m] == p[n] {
      BorderExtend(p, n, m);
    }
    var u := n + 1;
    forall b | v < b < u
      ensures !IsBorder(p, u, b)
    {
      BorderShrink(p, n, b);
    }
  }

  /** A border of `p[..n]` followed by `p[n]` is a border of `p[..n+1]`. */
  lemma BorderExtend<T>(p: seq<T>, n: nat, m: nat)
    requires IsBorder(p, n, m) && n < |p| && p[m] == p[n]
    ensures IsBorder(p, n + 1, m + 1)
  {
    assert p[..m + 1] == p[..m] + [p[m]];
    assert p[n - m..n + 1] == p[n - m..n] + [p[n]];
  }

  /** A border of `p[..n]` shorter than another border `m` is a border of `p[..m]`. */
  lemma ShorterBorder<T>(p: seq<T>, n: nat, m: nat, b: nat)
    requires IsBorder(p, n, m) && b < m
    ensures IsBorder(p, n, b) ==> IsBorder(p, m, b)
  {
    if IsBorder(p, n, b) {
      calc {
        p[m - b..m];
        p[..m][m - b..m];
        p[n - m..n][m - b..m];
        p[n - b..n];
        p[..b];
      }
    }
  }

  /** A non-empty border of `p[..n+1]` is a border of `p[..n]` extended by `p[n]`. */
  lemma BorderShrink<T>(p: seq<T>, n: nat, c: nat)
    ensures c > 0 && IsBorder(p, n + 1, c) ==> IsBorder(p, n, c - 1) && p[c - 1] == p[n]
  {
    if c > 0 && IsBorder(p, n + 1, c) {
      assert p[..c][..c - 1] == p[n + 1 - c..n + 1][..c - 1];
      assert p[..c][c - 1] == p[n + 1 - c..n + 1][c - 1];
    }
  }

  /** Two partial matches ending at the same place: the shorter is a border of the longer. */
  lemma MatchesGiveBorder<T>(text: seq<T>, t: nat, pat: seq<T>, q: nat, r: nat)
    requires MatchesAt(text, t, pat, q) && r < q
    ensures MatchesAt(text, t, pat, r) ==> IsBorder(pat, q, r)
  {
    if MatchesAt(text, t, pat, r) {
      calc {
        pat[q - r..q];
        pat[..q][q - r..q];
        text[t - q..t][q - r..q];
        text[t - r..t];
        pat[..r];
      }
    }
  }

  /** A partial match ending at `t + 1` is a shorter one ending at `t`, extended by `text[t]`. */
  lemma MatchShrink<T>(text: seq<T>, t: nat, pat: seq<T>, len: nat)
    ensures len > 0 && MatchesAt(text, t + 1, pat, len) ==>
      MatchesAt(text, t, pat, len - 1) && text[t] == pat[len - 1]
  {
    if len > 0 && MatchesAt(text, t + 1, pat, len) {
      assert text[t + 1 - len..t + 1][..len - 1] == pat[..len][..len - 1];
      assert text[t + 1 - len..t + 1][len - 1] == pat[..len][len - 1];
    }
  }

  /** Falling back from a partial match of length `q` to its failure value `f`
      (when `q` is complete or cannot be extended) keeps the scan invariant. */
  lemma Fallback<T>(text: seq<T>, t: nat, pat: seq<T>, q: nat, f: nat)
    requires 0 < q <= |pat|
    requires MatchesAt(text, t, pat, q)
    requires LongerMatchesStuck(text, t, pat, q)
    requires q == |pat| || CannotExtend(text, t, pat, q)
    requires IsFailureValue(pat, q - 1, f)
    ensures f < q && MatchesAt(text, t, pat, f)
    ensures LongerMatchesStuck(text, t, pat, f)
  {
    calc {
      text[t - f..t];
      text[t - q..t][q - f..q];
      pat[..q][q - f..q];
      pat[q - f..q];
      pat[..f];
    }
    forall r | f < r < q
      ensures !MatchesAt(text, t, pat, r)
    {
      MatchesGiveBorder(text, t, pat, q, r);
    }
  }

  /** Consuming a matching `text[t]` extends the partial match by one; no
      longer partial match ends at `t + 1`, and the only occurrence that can
      end there is the one this match completes. */
  lemma Advance<T>(text: seq<T>, t: nat, pat: seq<T>, q: nat)
    requires t < |text| && q < |pat| && text[t] == pat[q]
    requires MatchesAt(text, t, pat, q) && LongerMatchesStuck(text, t, pat, q)
    ensures MatchesAt(text, t + 1, pat, q + 1)
    ensures LongerMatchesStuck(text, t + 1, pat, q + 1)
    ensures OccurrencesBefore(text, pat, t + 1) ==
      OccurrencesBefore(text, pat, t) + (if q + 1 == |pat| then [t + 1 - |pat|] else [])
  {
    var u := t + 1;
    assert text[t - q..u] == text[t - q..t] + [text[t]];
    assert pat[..q + 1] == pat[..q] + [pat[q]];
    forall len | q + 1 < len <= |pat|
      ensures !MatchesAt(text, u, pat, len)
    {
      MatchShrink(text, t, pat, len);
    }
    FullMatch(text, u, pat);
  }

  /** Skipping a `text[t]` that does not even start a match keeps the scan invariant. */
  lemma Skip<T>(text: seq<T>, t: nat, pat: seq<T>)
    requires t < |text| && 0 < |pat| && text[t] != pat[0]
    requires LongerMatchesStuck(text, t, pat, 0)
    ensures LongerMatchesStuck(text, t + 1, pat, 0)
    ensures OccurrencesBefore(text, pat, t + 1) == OccurrencesBefore(text, pat, t)
  {
    var u := t + 1;
    forall len | 0 < len <= |pat|
      ensures !MatchesAt(text, u, pat, len)
    {
      MatchShrink(text, t, pat, len);
    }
    FullMatch(text, u, pat);
  }

  /** The invariant of the scan loop when `textIndex == t` and `patternIndex == q`:
      the last `q` elements read match the start of the pattern, no longer
      partial match can still be extended, and `matches` holds exactly the
      occurrences ending at or before `t`. */
  ghost predicate ScanInvariant<T>(text: seq<T>, pat: seq<T>, t: nat, q: nat, matches: seq<nat>)
  {
    && q < |pat| && t <= |text|
    && MatchesAt(text, t, pat, q)
    && LongerMatchesStuck(text, t, pat, q)
    && matches == OccurrencesBefore(text, pat, t)
  }

  /** The scan consumes a matching element and does not complete the pattern. */
  lemma StepExtend<T>(text: seq<T>, pat: seq<T>, t: nat, q: nat, matches: seq<nat>)
    requires ScanInvariant(text, pat, t, q, matches)
    requires t < |text| && text[t] == pat[q] && q + 1 < |pat|
    ensures ScanInvariant(text, pat, t + 1, q + 1, matches)
  {
    Advance(text, t, pat, q);
  }

  /** The scan consumes a matching element that completes an occurrence,
      records it and falls back to the failure value of the whole pattern. */
  lemma StepComplete<T>(text: seq<T>, pat: seq<T>, t: nat, q: nat, matches: seq<nat>, f: nat)
    requires ScanInvariant(text, pat, t, q, matches)
    requires t < |text| && text[t] == pat[q] && q + 1 == |pat|
    requires IsFailureValue(pat, q, f)
    ensures ScanInvariant(text, pat, t + 1, f, matches + [t + 1 - |pat|])
  {
    Advance(text, t, pat, q);
    Fallback(text, t + 1, pat, q + 1, f);
  }

  /** The next element cannot extend the partial match: fall back in the pattern. */
  lemma StepFallback<T>(text: seq<T>, pat: seq<T>, t: nat, q: nat, matches: seq<nat>, f: nat)
    requires ScanInvariant(text, pat, t, q, matches)
    requires 0 < q && CannotExtend(text, t, pat, q) && IsFailureValue(pat, q - 1, f)
    ensures ScanInvariant(text, pat, t, f, matches)
  {
    Fallback(text, t, pat, q, f);
  }

  /** The next element does not start a match: move past it. */
  lemma StepSkip<T>(text: seq<T>, pat: seq<T>, t: nat, matches: seq<nat>)
    requires ScanInvariant(text, pat, t, 0, matches)
    requires t < |text| && text[t] != pat[0]
    ensures ScanInvariant(text, pat, t + 1, 0, matches)
  {
    Skip(text, t, pat);
  }

  lemma FullMatch<T>(text: seq<T>, t: nat, pat: seq<T>)
    requires t <= |text|
    ensures MatchesAt(text, t, pat, |pat|) <==> |pat| <= t && text[t - |pat|..t] == pat
  {
    assert pat[..|pat|] == pat;
  }

  // ---------------------------------------------------------------------
  // The algorithms
  // ---------------------------------------------------------------------

  /** Builds the KMP failure table of `search`. */
  method BuildPattern<T(==)>(search: seq<T>) returns (table: seq<nat>)
    ensures |table| == |search|
    ensures forall k :: 0 <= k < |search| ==> IsFailureValue(search, k, table[k])
  {
    var t: seq<nat> := seq(|search|, _ => 0);
    var maxPrefix: nat := 0;
    var patternIndex: nat := 1;
    while patternIndex < |search|
      invariant |search| == 0 || 1 <= patternIndex <= |search|
      invariant |search| > 0 ==> IsFailureValue(search, patternIndex - 1, maxPrefix)
      invariant |t| == |search|
      invariant forall k :: 0 <= k < patternIndex && k < |search| ==> IsFailureValue(search, k, t[k])
    {
      while maxPrefix > 0 && search[patternIndex] != search[maxPrefix]
        invariant IsBorder(search, patternIndex, maxPrefix)
        invariant LongerBordersFail(search, patternIndex, maxPrefix)
      {
        BorderFallback(search, patternIndex, maxPrefix, t[maxPrefix - 1]);
        maxPrefix := t[maxPrefix - 1];
      }
      NextFailureValue(search, patternIndex, maxPrefix);
      if search[maxPrefix] == search[patternIndex] {
        maxPrefix := maxPrefix + 1;
      }
      t := t[patternIndex := maxPrefix];
      patternIndex := patternIndex + 1;
    }
    table := t;
  }

  /**
   * Returns the start offsets of every occurrence of `search` in `text`,
   * overlapping ones included, in increasing order (what that means is
   * proved of `Occurrences` by `OccurrencesCharacterised`). The needle must be
   * non-empty: with an empty needle and a non-empty text the scan reads
   * `pattern[-1]` and the loop never ends (an empty text gives no matches).
   */
  method SearchPattern<T(==)>(text: seq<T>, search: seq<T>) returns (matches: seq<nat>)
    requires |search| > 0
    ensures matches == Occurrences(text, search)
  {
    var pattern := BuildPattern(search);
    matches := [];
    var textIndex: nat := 0;
    var patternIndex: nat := 0;
    while textIndex < |text|
      invariant ScanInvariant(text, search, textIndex, patternIndex, matches)
      decreases 2 * |text| - 2 * textIndex + patternIndex
    {
      ghost var t0, q0 := textIndex, patternIndex;
      if text[textIndex] == search[patternIndex] {
        if patternIndex + 1 < |search| {
          StepExtend(text, search, textIndex, patternIndex, matches);
        }
        textIndex := textIndex + 1;
        patternIndex := patternIndex + 1;
      }
      if patternIndex == |search| {
        StepComplete(text, search, t0, q0, matches, pattern[patternIndex - 1]);
        matches := matches + [textIndex - patternIndex];
        patternIndex := pattern[patternIndex - 1];
      } else if textIndex == |text| || text[textIndex] != search[patternIndex] {
        if patternIndex == 0 {
          StepSkip(text, search, textIndex, matches);
          textIndex := textIndex + 1;
        } else {
          StepFallback(text, search, textIndex, patternIndex, matches, pattern[patternIndex - 1]);
          patternIndex := pattern[patternIndex - 1];
        }
      }
    }
  }

  /** True exactly when `prefix` is a prefix of `text`. */
  method StartsWith<T(==)>(text: seq<T>, prefix: seq<T>) returns (r: bool)
    ensures r <==> |prefix| <= |text| && text[..|prefix|] == prefix
  {
    var i := 0;
    while i < |prefix|
      invariant 0 <= i <= |prefix|
      invariant i <= |text| && text[..i] == prefix[..i]
    {
      if i >= |text| || text[i] != prefix[i] {
        return false;
      }
      assert text[..i + 1] == text[..i] + [text[i]];
      assert prefix[..i + 1] == prefix[..i] + [prefix[i]];
      i := i + 1;
    }
    assert prefix[..i] == prefix;
    return true;
  }
}
