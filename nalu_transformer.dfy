/**
 * The Annex-B NAL unit splitter `AvcNaluTransformer`: it cuts a chunked
 * byte stream at the start code `00 00 00 01`, keeps the unterminated tail
 * in a carry-over buffer of fragments, and classifies each unit by its
 * header byte (section 7.3.1 of ITU-T H.264).
 */
module NaluTransformer {
  import opened Interfaces
  import ArrayUtils

  /** The header fields read by `parseNalu`. */
  datatype NaluHeader = NaluHeader(naluType: NalUnitType, refIdc: RefIdc)

  /** Reads `nal_unit_type` (bits 0-4) and `nal_ref_idc` (bits 5-6) from the
      first byte. On an empty body JavaScript computes `undefined & mask`,
      which is 0, so both fields are 0. */
  function ParseNalu(payload: seq<byte>): (r: NaluHeader)
    ensures |payload| == 0 ==> r == NaluHeader(0, 0)
    ensures |payload| > 0 ==> r.naluType == payload[0] as int % 32 && r.refIdc == payload[0] as int / 32 % 4
    ensures |payload| > 0 ==> payload[0] as int % 128 == 32 * r.refIdc + r.naluType
  {
    if |payload| == 0 then NaluHeader(0, 0)
    else
      var b := payload[0];
      MaskBits(b);
      LowSevenBits(b as int);
      NaluHeader((b & 0x1F) as int, ((b >> 5) & 0x03) as int)
  }

  /** On a byte, the two masks of `parseNalu` are a remainder and a quotient. */
  lemma MaskBits(b: byte)
    ensures (b & 0x1F) as int == b as int % 32
    ensures ((b >> 5) & 0x03) as int == b as int / 32 % 4
  {
  }

  /** The type and the reference indicator together make up the low seven bits. */
  lemma LowSevenBits(x: nat)
    ensures x % 128 == 32 * (x / 32 % 4) + x % 32
  {
    var q := x / 32;
    assert x == 32 * q + x % 32;
    assert q % 4 == q - 4 * (q / 4);
  }

  /** `subarray(NALU_PREFIX.length)`: the unit without its first four bytes,
      or empty when the unit is shorter than that. */
  function StripPrefix(payload: seq<byte>): (body: seq<byte>)
    ensures |payload| >= |NaluPrefix| ==> payload == payload[..|NaluPrefix|] + body
    ensures |payload| < |NaluPrefix| ==> body == []
  {
    if |payload| >= |NaluPrefix| then payload[|NaluPrefix|..] else []
  }

  /** The unit emitted for a delimited payload. */
  function ToAvcNalu(payload: seq<byte>): (n: AvcNalu)
    ensures n.naluBody == StripPrefix(payload)
    ensures n.naluType == ParseNalu(n.naluBody).naluType && n.refIdc == ParseNalu(n.naluBody).refIdc
  {
    var body := StripPrefix(payload);
    var header := ParseNalu(body);
    AvcNalu(header.naluType, header.refIdc, body)
  }

  /** The type guard on an emitted record tests the low five bits of the
      first byte after the start code; a unit with no such byte reads as
      type 0. */
  lemma TypedUnitHeader(payload: seq<byte>, t: NalUnitType)
    ensures IsTypedNalu(ToAvcNalu(payload), t) <==>
      if |payload| > |NaluPrefix| then payload[|NaluPrefix|] as int % 32 == t else t == 0
  {
    if |payload| > |NaluPrefix| {
      assert StripPrefix(payload)[0] == payload[|NaluPrefix|];
    }
  }

  /** Concatenation of byte fragments, as `new Blob(fragments)` does. */
  function Concat(fragments: seq<seq<byte>>): seq<byte>
  {
    if fragments == [] then []
    else Concat(fragments[..|fragments| - 1]) + fragments[|fragments| - 1]
  }

  lemma ConcatSingle(fragment: seq<byte>)
    ensures Concat([fragment]) == fragment
  {
    var empty: seq<seq<byte>> := [];
    assert [fragment][..0] == empty;
  }

  lemma {:induction false} ConcatAppend(a: seq<seq<byte>>, b: seq<seq<byte>>)
    ensures Concat(a + b) == Concat(a) + Concat(b)
  {
    if b == [] {
      assert a + b == a;
    } else {
      var b' := b[..|b| - 1];
      assert (a + b)[..|a + b| - 1] == a + b';
      ConcatAppend(a, b');
    }
  }

  /** Start offsets in a chunk, strictly increasing and within the chunk. */
  ghost predicate ValidPositions(positions: seq<nat>, n: nat)
  {
    && (forall i, j :: 0 <= i < j < |positions| ==> positions[i] < positions[j])
    && (forall i :: 0 <= i < |positions| ==> positions[i] <= n)
  }

  /** The units between consecutive start codes:
      `positions.slice(0, -1).map((p, i) => chunk.subarray(p, positions[i + 1]))`. */
  function Between(chunk: seq<byte>, positions: seq<nat>): (units: seq<seq<byte>>)
    requires |positions| > 0 && ValidPositions(positions, |chunk|)
    ensures |units| == |positions| - 1
  {
    seq(|positions| - 1, i requires 0 <= i < |positions| - 1 => chunk[positions[i]..positions[i + 1]])
  }

  /** The units between consecutive start codes, put back together, are the
      chunk from the first start code to the last. */
  lemma {:induction false} BetweenTelescopes(chunk: seq<byte>, positions: seq<nat>)
    requires |positions| > 0 && ValidPositions(positions, |chunk|)
    ensures Concat(Between(chunk, positions)) == chunk[positions[0]..positions[|positions| - 1]]
  {
    var k := |positions| - 1;
    if k == 0 {
      assert Between(chunk, positions) == [];
    } else {
      var front := positions[..k];
      var unit := chunk[positions[k - 1]..positions[k]];
      BetweenSnoc(chunk, positions);
      ConcatAppend(Between(chunk, front), [unit]);
      ConcatSingle(unit);
      BetweenTelescopes(chunk, front);
      JoinSlices(chunk, positions[0], positions[k - 1], positions[k]);
    }
  }

  /** Dropping the last position drops the last unit. */
  lemma BetweenSnoc(chunk: seq<byte>, positions: seq<nat>)
    requires |positions| > 1 && ValidPositions(positions, |chunk|)
    ensures ValidPositions(positions[..|positions| - 1], |chunk|)
    ensures Between(chunk, positions)
         == Between(chunk, positions[..|positions| - 1]) + [chunk[positions[|positions| - 2]..positions[|positions| - 1]]]
  {
    var k := |positions| - 1;
    var front := positions[..k];
    assert ValidPositions(front, |chunk|);
    assert Between(chunk, positions) == Between(chunk, front) + [chunk[positions[k - 1]..positions[k]]];
  }

  lemma JoinSlices(s: seq<byte>, i: nat, j: nat, k: nat)
    requires i <= j <= k <= |s|
    ensures s[i..j] + s[j..k] == s[i..k]
  {
  }

  /** Two start codes never overlap: the last byte of one is 1, the first
      three bytes of the other are 0. */
  lemma StartCodesApart(chunk: seq<byte>, p: nat, q: nat)
    requires p < q
    requires ArrayUtils.IsOccurrence(chunk, NaluPrefix, p) && ArrayUtils.IsOccurrence(chunk, NaluPrefix, q)
    ensures p + |NaluPrefix| <= q
  {
    assert chunk[p + 3] == chunk[p..p + 4][3] == 1;
    assert chunk[q] == chunk[q..q + 4][0] == 0;
    assert chunk[q + 1] == chunk[q..q + 4][1] == 0;
    assert chunk[q + 2] == chunk[q..q + 4][2] == 0;
  }

  /** When every position is a start code, every unit between two of them
      begins with the start code. */
  lemma BetweenStartWithPrefix(chunk: seq<byte>, positions: seq<nat>)
    requires |positions| > 0 && ValidPositions(positions, |chunk|)
    requires ArrayUtils.AllAreOccurrences(chunk, NaluPrefix, positions)
    ensures forall i :: 0 <= i < |positions| - 1 ==>
      |Between(chunk, positions)[i]| >= |NaluPrefix|
      && Between(chunk, positions)[i][..|NaluPrefix|] == NaluPrefix
  {
    forall i | 0 <= i < |positions| - 1
      ensures |Between(chunk, positions)[i]| >= |NaluPrefix|
      ensures Between(chunk, positions)[i][..|NaluPrefix|] == NaluPrefix
    {
      var p, q := positions[i], positions[i + 1];
      StartCodesApart(chunk, p, q);
      assert chunk[p..q][..4] == chunk[p..p + 4];
    }
  }

  /** Positions reported by the start-code search are valid cut points. */
  lemma OccurrencesAreValidPositions(chunk: seq<byte>)
    ensures ValidPositions(ArrayUtils.Occurrences(chunk, NaluPrefix), |chunk|)
    ensures ArrayUtils.AllAreOccurrences(chunk, NaluPrefix, ArrayUtils.Occurrences(chunk, NaluPrefix))
  {
    ArrayUtils.OccurrencesCharacterised(chunk, NaluPrefix);
  }

  /** The units a chunk closes, given the carried-over fragments. */
  ghost function SplitUnits(carried: seq<seq<byte>>, chunk: seq<byte>): seq<seq<byte>>
  {
    var positions := ArrayUtils.Occurrences(chunk, NaluPrefix);
    OccurrencesAreValidPositions(chunk);
    if positions == [] then []
    else [Concat(carried) + chunk[..positions[0]]] + Between(chunk, positions)
  }

  /** The fragments carried over after a chunk. */
  ghost function CarryOver(carried: seq<seq<byte>>, chunk: seq<byte>): seq<seq<byte>>
  {
    var positions := ArrayUtils.Occurrences(chunk, NaluPrefix);
    OccurrencesAreValidPositions(chunk);
    if positions == [] then carried + [chunk]
    else [chunk[positions[|positions| - 1]..]]
  }

  /** No byte is lost or duplicated: the emitted units followed by the new
      buffer are the old buffer followed by the chunk. */
  lemma SplitConservesBytes(carried: seq<seq<byte>>, chunk: seq<byte>)
    ensures Concat(SplitUnits(carried, chunk)) + Concat(CarryOver(carried, chunk)) == Concat(carried) + chunk
  {
    var positions := ArrayUtils.Occurrences(chunk, NaluPrefix);
    OccurrencesAreValidPositions(chunk);
    var empty: seq<seq<byte>> := [];
    if positions == [] {
      assert SplitUnits(carried, chunk) == empty;
      ConcatAppend(carried, [chunk]);
      ConcatSingle(chunk);
    } else {
      SplitConservesCut(carried, chunk, positions);
    }
  }

  lemma SplitConservesCut(carried: seq<seq<byte>>, chunk: seq<byte>, positions: seq<nat>)
    requires positions == ArrayUtils.Occurrences(chunk, NaluPrefix) != []
    requires ValidPositions(positions, |chunk|)
    ensures Concat(SplitUnits(carried, chunk)) + Concat(CarryOver(carried, chunk)) == Concat(carried) + chunk
  {
    var first, last := positions[0], positions[|positions| - 1];
    var mids := Between(chunk, positions);
    var head := Concat(carried) + chunk[..first];
    var tail := chunk[last..];
    assert SplitUnits(carried, chunk) == [head] + mids;
    assert CarryOver(carried, chunk) == [tail];
    BetweenTelescopes(chunk, positions);
    ConcatAppend([head], mids);
    ConcatSingle(head);
    ConcatSingle(tail);
    Reassemble(Concat(carried), chunk, first, last, Concat(mids));
  }

  lemma Reassemble(c: seq<byte>, s: seq<byte>, i: nat, j: nat, m: seq<byte>)
    requires i <= j <= |s| && m == s[i..j]
    ensures (c + s[..i]) + m + s[j..] == c + s
  {
    assert s[..i] + s[i..j] + s[j..] == s;
  }

  /** One unit is emitted per start code found in the chunk. */
  lemma SplitUnitCount(carried: seq<seq<byte>>, chunk: seq<byte>)
    ensures |SplitUnits(carried, chunk)| == |ArrayUtils.Occurrences(chunk, NaluPrefix)|
  {
    OccurrencesAreValidPositions(chunk);
  }

  /** After a chunk with a start code the buffer is a single fragment that
      begins with the start code, and every emitted unit but the first
      begins with one too. */
  lemma SplitFraming(carried: seq<seq<byte>>, chunk: seq<byte>)
    requires ArrayUtils.Occurrences(chunk, NaluPrefix) != []
    ensures |CarryOver(carried, chunk)| == 1
    ensures |CarryOver(carried, chunk)[0]| >= |NaluPrefix| && CarryOver(carried, chunk)[0][..|NaluPrefix|] == NaluPrefix
    ensures forall i :: 1 <= i < |SplitUnits(carried, chunk)| ==>
      |SplitUnits(carried, chunk)[i]| >= |NaluPrefix| && SplitUnits(carried, chunk)[i][..|NaluPrefix|] == NaluPrefix
  {
    var positions := ArrayUtils.Occurrences(chunk, NaluPrefix);
    OccurrencesAreValidPositions(chunk);
    BetweenStartWithPrefix(chunk, positions);
    var last := positions[|positions| - 1];
    assert last + 4 <= |chunk| && chunk[last..last + 4] == NaluPrefix;
    assert chunk[last..][..4] == chunk[last..last + 4];
  }

  /** Without a start code the chunk is only carried over. */
  lemma SplitWithoutStartCode(carried: seq<seq<byte>>, chunk: seq<byte>)
    ensures (forall i :: !ArrayUtils.IsOccurrence(chunk, NaluPrefix, i)) ==>
      SplitUnits(carried, chunk) == [] && CarryOver(carried, chunk) == carried + [chunk]
  {
    var positions := ArrayUtils.Occurrences(chunk, NaluPrefix);
    OccurrencesAreValidPositions(chunk);
    if positions != [] {
      assert ArrayUtils.IsOccurrence(chunk, NaluPrefix, positions[0]);
    }
  }

  class AvcNaluTransformer {
    /** Byte fragments of the unit that is not yet terminated. */
    var buffered: seq<seq<byte>>

    constructor ()
      ensures buffered == []
    {
      buffered := [];
    }

    /** Cuts `chunk` at its start codes. Without a start code the chunk is
        carried over and nothing is emitted; otherwise the carried-over bytes
        plus the chunk's head form the first unit (emitted even when empty),
        each later start code closes one more unit, and the tail from the
        last start code becomes the whole new buffer. */
    method ExtractNalus(chunk: seq<byte>) returns (nalus: seq<seq<byte>>)
      modifies this
      ensures nalus == SplitUnits(old(buffered), chunk)
      ensures buffered == CarryOver(old(buffered), chunk)
    {
      var positions := ArrayUtils.SearchPattern(chunk, NaluPrefix);
      OccurrencesAreValidPositions(chunk);

      if |positions| == 0 {
        buffered := buffered + [chunk];
        return [];
      }

      nalus := [Concat(buffered) + chunk[..positions[0]]] + Between(chunk, positions);
      buffered := [chunk[positions[|positions| - 1]..]];
    }

    /** Emits one classified unit per delimited payload of `chunk`. */
    method Transform(chunk: seq<byte>) returns (out: seq<AvcNalu>)
      modifies this
      ensures |out| == |SplitUnits(old(buffered), chunk)|
      ensures forall i :: 0 <= i < |out| ==> out[i] == ToAvcNalu(SplitUnits(old(buffered), chunk)[i])
      ensures buffered == CarryOver(old(buffered), chunk)
    {
      var nalus := ExtractNalus(chunk);
      out := [];
      for i := 0 to |nalus|
        invariant |out| == i
        invariant forall j :: 0 <= j < i ==> out[j] == ToAvcNalu(nalus[j])
      {
        out := out + [ToAvcNalu(nalus[i])];
      }
    }

    /** Emits the whole buffer as the final unit, even when it is empty (an
        empty body then reads as type 0), and clears the buffer. */
    method Flush() returns (last: AvcNalu)
      modifies this
      ensures last == ToAvcNalu(Concat(old(buffered)))
      ensures buffered == []
    {
      var naluPayload := Concat(buffered);
      last := ToAvcNalu(naluPayload);
      buffered := [];
    }
  }
}
