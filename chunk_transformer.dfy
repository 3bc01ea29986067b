/**
 * The fixed-frame-rate timestamper `EncodedVideoChunkTransformer`: it turns
 * each coded-slice unit into a chunk stamped with the next frame time and a
 * constant frame duration, and every other unit into nothing.
 */
module ChunkTransformer {
  import opened Interfaces
  import opened Wrappers

  const OneSecondInMicros: nat := 1000000

  /** The WebCodecs chunk type: `'key'` or `'delta'`. */
  datatype ChunkType = Key | Delta

  /** The fields of the emitted `EncodedVideoChunk` that the model keeps. */
  datatype EncodedVideoChunk = EncodedVideoChunk(kind: ChunkType, timestamp: nat, duration: nat)

  /** `Math.floor(1e6 * seqno / frameRate)`: the largest whole number of
      microseconds not after frame `seqno`. */
  function FrameTimestamp(seqno: nat, frameRate: nat): (ts: nat)
    requires frameRate > 0
    ensures ts * frameRate <= OneSecondInMicros * seqno < ts * frameRate + frameRate
  {
    DivisionBounds(OneSecondInMicros * seqno, frameRate);
    OneSecondInMicros * seqno / frameRate
  }

  /** `Math.floor(1e6 / frameRate)`: the whole microseconds of one frame. */
  function FrameDuration(frameRate: nat): (d: nat)
    requires frameRate > 0
    ensures d * frameRate <= OneSecondInMicros < d * frameRate + frameRate
  {
    DivisionBounds(OneSecondInMicros, frameRate);
    OneSecondInMicros / frameRate
  }

  /** The units that become chunks: coded slices, IDR or not. */
  predicate IsSlice(t: NalUnitType)
  {
    t == CodedSliceIdr || t == CodedSliceNonIdr
  }

  lemma DivisionBounds(a: nat, b: nat)
    requires b > 0
    ensures (a / b) * b <= a < (a / b) * b + b
  {
    var q, r := a / b, a % b;
    assert a == q * b + r && 0 <= r < b;
  }

  /** Cancelling a positive factor: `x*b < y*b + b` means `x <= y`. */
  lemma CancelFactor(x: int, y: int, b: nat)
    requires b > 0 && x * b < y * b + b
    ensures x <= y
  {
    if x > y {
      var d := x - y - 1;
      Distribute(d, y + 1, b);
      Distribute(y, 1, b);
      NonNegativeProduct(d, b);
    }
  }

  lemma NonNegativeProduct(d: nat, b: nat)
    ensures d * b >= 0
  {
  }

  lemma Distribute(x: int, y: int, b: nat)
    ensures (x + y) * b == x * b + y * b
  {
  }

  /** Flooring a sum loses at most one unit against flooring its parts. */
  lemma DivisionOfSum(a: nat, c: nat, b: nat)
    requires b > 0
    ensures a / b + c / b <= (a + c) / b <= a / b + c / b + 1
  {
    var qa, qc, qs := a / b, c / b, (a + c) / b;
    DivisionBounds(a, b);
    DivisionBounds(c, b);
    DivisionBounds(a + c, b);
    Distribute(qa, qc, b);
    Distribute(qa + qc, 1, b);
    CancelFactor(qa + qc, qs, b);
    CancelFactor(qs, qa + qc + 1, b);
  }

  /** Flooring preserves order. */
  lemma DivisionMonotone(a: nat, a': nat, b: nat)
    requires b > 0 && a <= a'
    ensures a / b <= a' / b
  {
    DivisionBounds(a, b);
    DivisionBounds(a', b);
    CancelFactor(a / b, a' / b, b);
  }

  /** Later frames never get earlier timestamps. */
  lemma TimestampMonotone(i: nat, j: nat, frameRate: nat)
    requires frameRate > 0 && i <= j
    ensures FrameTimestamp(i, frameRate) <= FrameTimestamp(j, frameRate)
  {
    DivisionMonotone(OneSecondInMicros * i, OneSecondInMicros * j, frameRate);
  }

  /** Consecutive frames are one duration apart, or one microsecond more
      where the flooring catches up. */
  lemma TimestampSpacing(k: nat, frameRate: nat)
    requires frameRate > 0
    ensures FrameDuration(frameRate) <= FrameTimestamp(k + 1, frameRate) - FrameTimestamp(k, frameRate) <= FrameDuration(frameRate) + 1
  {
    assert OneSecondInMicros * (k + 1) == OneSecondInMicros * k + OneSecondInMicros;
    DivisionOfSum(OneSecondInMicros * k, OneSecondInMicros, frameRate);
  }

  /** Chunks stamped frame by frame from frame 0 with one fixed duration. */
  ghost predicate StampedInOrder(chunks: seq<EncodedVideoChunk>, frameRate: nat)
    requires frameRate > 0
  {
    forall k :: 0 <= k < |chunks| ==>
      chunks[k].timestamp == FrameTimestamp(k, frameRate) && chunks[k].duration == FrameDuration(frameRate)
  }

  /** Chunks stamped frame by frame come out in non-decreasing time order. */
  lemma StampedTimestampsNonDecreasing(chunks: seq<EncodedVideoChunk>, frameRate: nat)
    requires frameRate > 0 && StampedInOrder(chunks, frameRate)
    ensures forall i, j :: 0 <= i <= j < |chunks| ==> chunks[i].timestamp <= chunks[j].timestamp
  {
    forall i, j | 0 <= i <= j < |chunks|
      ensures chunks[i].timestamp <= chunks[j].timestamp
    {
      TimestampMonotone(i, j, frameRate);
    }
  }

  class EncodedVideoChunkTransformer {
    /** Frames per second, a positive whole number in this model. */
    const frameRate: nat
    /** Fixed at construction. */
    const duration: nat
    /** The number of slices stamped so far. */
    var seqno: nat
    /** Every chunk emitted so far, in emission order. */
    ghost var emitted: seq<EncodedVideoChunk>

    ghost predicate Valid()
      reads this
    {
      && frameRate > 0
      && duration == FrameDuration(frameRate)
      && |emitted| == seqno
      && StampedInOrder(emitted, frameRate)
    }

    constructor (frameRate: nat)
      requires frameRate > 0
      ensures Valid()
      ensures this.frameRate == frameRate && seqno == 0 && emitted == []
    {
      this.frameRate := frameRate;
      duration := OneSecondInMicros / frameRate;
      seqno := 0;
      emitted := [];
    }

    /** The timestamp of the current frame; the counter then moves on. */
    method CalculateFrameTimestamp() returns (ts: nat)
      requires frameRate > 0
      modifies this
      ensures ts == FrameTimestamp(old(seqno), frameRate)
      ensures seqno == old(seqno) + 1 && emitted == old(emitted)
    {
      ts := OneSecondInMicros * seqno / frameRate;
      seqno := seqno + 1;
    }

    /** A coded slice becomes a chunk with the next timestamp, `Key` exactly
        for an IDR slice; any other unit yields `None` and leaves the counter
        alone. */
    method Transform(nalu: AvcNalu) returns (chunk: Option<EncodedVideoChunk>)
      requires Valid()
      modifies this
      ensures Valid()
      ensures IsSlice(nalu.naluType) ==>
        && chunk == Some(EncodedVideoChunk(
             if nalu.naluType == CodedSliceIdr then Key else Delta,
             FrameTimestamp(old(seqno), frameRate),
             FrameDuration(frameRate)))
        && seqno == old(seqno) + 1
        && emitted == old(emitted) + [chunk.value]
      ensures !IsSlice(nalu.naluType) ==> chunk == None && seqno == old(seqno) && emitted == old(emitted)
    {
      if nalu.naluType == CodedSliceIdr || nalu.naluType == CodedSliceNonIdr {
        var kind := if nalu.naluType == CodedSliceIdr then Key else Delta;
        var ts := CalculateFrameTimestamp();
        chunk := Some(EncodedVideoChunk(kind, ts, duration));
        emitted := emitted + [chunk.value];
      } else {
        chunk := None;
      }
    }
  }

  /** Whatever a transformer has emitted is in non-decreasing time order. */
  lemma EmittedTimestampsNonDecreasing(t: EncodedVideoChunkTransformer)
    requires t.Valid()
    ensures forall i, j :: 0 <= i <= j < |t.emitted| ==> t.emitted[i].timestamp <= t.emitted[j].timestamp
  {
    StampedTimestampsNonDecreasing(t.emitted, t.frameRate);
  }
}
