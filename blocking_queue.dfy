/**
 * `BlockingQueue<T>`: a bounded FIFO shared by one producer and one
 * consumer. A pull on an empty open queue suspends in the single
 * blocked-pull slot; a push that leaves more than `capacity` values buffered
 * suspends in the single blocked-push slot. Suspensions are explicit state
 * here: `hasBlockedPull` and `hasBlockedPush` say whether the slot holds a
 * resolver, and a resumed caller shows up in the logs.
 */
module BlockingQueue {
  import opened Wrappers

  /** How a push ends when it does not throw. */
  datatype PushOutcome =
    | HandedOff   // a suspended pull received the value directly
    | Buffered    // appended, without suspending
    | Suspended   // appended, and the pusher waits in the blocked-push slot

  /** How a pull ends at once. */
  datatype PullOutcome<T> =
    | Value(value: T)  // the front of the buffer
    | End              // `undefined`: the queue is closed and empty
    | Waiting          // the puller waits in the blocked-pull slot

  /** The whole queue, with two logs beside the fields of the class:
      `accepted` holds every value a push took in, in order, and `delivered`
      every result handed to a puller (`None` for the end marker), whether
      at once or on waking up. */
  datatype QueueState<T> = QueueState(
    capacity: int,
    closed: bool,
    buffered: seq<T>,
    hasBlockedPull: bool,
    hasBlockedPush: bool,
    accepted: seq<T>,
    delivered: seq<Option<T>>)

  const ClosedQueueError: string := "Cannot push into closed queue"

  function CapacityError(capacity: int): string
  {
    "Capacity must be at least 1 (is " + IntToDecimal(capacity) + ")"
  }

  function NatToDecimal(n: nat): (s: string)
    ensures |s| >= 1 && forall i :: 0 <= i < |s| ==> '0' <= s[i] <= '9'
  {
    if n < 10 then ["0123456789"[n]] else NatToDecimal(n / 10) + ["0123456789"[n % 10]]
  }

  function IntToDecimal(i: int): string
  {
    if i < 0 then "-" + NatToDecimal(-i) else NatToDecimal(i)
  }

  /** The values among the results handed to pullers, in order. */
  function Values<T>(results: seq<Option<T>>): seq<T>
  {
    if results == [] then []
    else
      var last := results[|results| - 1];
      Values(results[..|results| - 1]) + (if last.Some? then [last.value] else [])
  }

  lemma ValuesAppend<T>(results: seq<Option<T>>, r: Option<T>)
    ensures Values(results + [r]) == Values(results) + (if r.Some? then [r.value] else [])
  {
    assert (results + [r])[..|results|] == results;
  }

  /** What the fields promise each other between operations. */
  ghost predicate Valid<T>(s: QueueState<T>)
  {
    && s.capacity >= 1
    && Values(s.delivered) + s.buffered == s.accepted
    && (s.hasBlockedPull ==> s.buffered == [])
    && (s.hasBlockedPush ==> |s.buffered| > s.capacity)
  }

  /** `constructor(capacity)`. */
  function Create<T>(capacity: int): (r: Result<QueueState<T>, string>)
    ensures r.Failure? <==> capacity < 1
    ensures r.Failure? ==> r.error == CapacityError(capacity)
    ensures r.Success? ==> Valid(r.value) && r.value.buffered == [] && !r.value.closed
    ensures r.Success? ==> r.value == QueueState(capacity, false, [], false, false, [], [])
  {
    if capacity < 1 then Failure(CapacityError(capacity))
    else Success(QueueState(capacity, false, [], false, false, [], []))
  }

  /** `spareCapacity`: pushes that can still be made without suspending. */
  function SpareCapacityOf<T>(s: QueueState<T>): int
  {
    s.capacity - |s.buffered|
  }

  /** `push(value)`: refused on a closed queue; otherwise handed to a
      suspended pull, or appended and suspended once the buffer exceeds the
      capacity. */
  function PushStep<T>(s: QueueState<T>, v: T): (QueueState<T>, Result<PushOutcome, string>)
  {
    if s.closed then (s, Failure(ClosedQueueError))
    else if s.hasBlockedPull then
      (s.(hasBlockedPull := false, accepted := s.accepted + [v], delivered := s.delivered + [Some(v)]), Success(HandedOff))
    else
      var buffered := s.buffered + [v];
      if |buffered| > s.capacity then
        (s.(buffered := buffered, hasBlockedPush := true, accepted := s.accepted + [v]), Success(Suspended))
      else
        (s.(buffered := buffered, accepted := s.accepted + [v]), Success(Buffered))
  }

  /** `pull()`: takes the front value, always releases a suspended pusher,
      and on an empty buffer returns the end marker once closed or suspends
      while open (replacing any earlier waiting pull). */
  function PullStep<T>(s: QueueState<T>): (QueueState<T>, PullOutcome<T>)
  {
    if s.buffered != [] then
      (s.(buffered := s.buffered[1..], hasBlockedPush := false, delivered := s.delivered + [Some(s.buffered[0])]),
       Value(s.buffered[0]))
    else if s.closed then
      (s.(hasBlockedPush := false, delivered := s.delivered + [None]), End)
    else
      (s.(hasBlockedPush := false, hasBlockedPull := true), Waiting)
  }

  /** `close()`: sets the flag and wakes a waiting pull with the end marker.
      The slot is not cleared; once closed, a resolver left in it has already
      been called and calling it again has no effect. */
  function CloseStep<T>(s: QueueState<T>): QueueState<T>
  {
    var wakes := s.hasBlockedPull && !s.closed;
    s.(closed := true, delivered := if wakes then s.delivered + [None] else s.delivered)
  }

  // ---------------------------------------------------------------------
  // Properties of one step

  lemma PushKeepsValid<T>(s: QueueState<T>, v: T)
    requires Valid(s)
    ensures Valid(PushStep(s, v).0)
  {
    if !s.closed {
      ValuesAppend(s.delivered, Some(v));
    }
  }

  lemma PullKeepsValid<T>(s: QueueState<T>)
    requires Valid(s)
    ensures Valid(PullStep(s).0)
  {
    if s.buffered != [] {
      var front, rest := s.buffered[0], s.buffered[1..];
      var before := Values(s.delivered);
      ValuesAppend(s.delivered, Some(front));
      assert Values(s.delivered + [Some(front)]) == before + [front];
      assert s.buffered == [front] + rest;
      assert (before + [front]) + rest == before + s.buffered;
    } else if s.closed {
      ValuesAppend(s.delivered, None);
    }
  }

  lemma CloseKeepsValid<T>(s: QueueState<T>)
    requires Valid(s)
    ensures Valid(CloseStep(s))
  {
    ValuesAppend(s.delivered, None);
  }

  /** FIFO: the values pullers have received are exactly the oldest
      accepted values, in the order they were pushed. */
  lemma DeliveredInPushOrder<T>(s: QueueState<T>)
    requires Valid(s)
    ensures Values(s.delivered) == s.accepted[..|Values(s.delivered)|]
    ensures s.buffered == s.accepted[|Values(s.delivered)|..]
  {
  }

  /** A pull on a non-empty buffer returns the oldest value not yet delivered. */
  lemma PullReturnsOldest<T>(s: QueueState<T>)
    requires Valid(s) && s.buffered != []
    ensures |Values(s.delivered)| < |s.accepted|
    ensures PullStep(s).1 == Value(s.accepted[|Values(s.delivered)|])
  {
    assert s.accepted[|Values(s.delivered)|] == (Values(s.delivered) + s.buffered)[|Values(s.delivered)|];
  }

  /** A push suspends exactly when it buffers the value and the buffer then
      exceeds the capacity; a suspended pull is never left waiting by a
      push on an open queue. */
  lemma PushSuspendsIffOverCapacity<T>(s: QueueState<T>, v: T)
    ensures PushStep(s, v).1 == Success(Suspended) <==> !s.closed && !s.hasBlockedPull && |s.buffered| + 1 > s.capacity
    ensures !s.closed ==> !PushStep(s, v).0.hasBlockedPull
    ensures PushStep(s, v).1 == Success(HandedOff) ==> PushStep(s, v).0.buffered == s.buffered
  {
  }

  /** The buffer holds at most one value above the capacity, and then only
      while the pusher is suspended. */
  ghost predicate WithinOneOfCapacity<T>(s: QueueState<T>)
  {
    |s.buffered| <= s.capacity || (s.hasBlockedPush && |s.buffered| == s.capacity + 1)
  }

  /** With a single pusher, which does not push again while suspended, the
      buffer never grows beyond `capacity + 1`. */
  lemma SinglePusherBound<T>(s: QueueState<T>, v: T)
    requires Valid(s) && WithinOneOfCapacity(s)
    ensures !s.hasBlockedPush ==> WithinOneOfCapacity(PushStep(s, v).0)
    ensures WithinOneOfCapacity(PullStep(s).0)
    ensures WithinOneOfCapacity(CloseStep(s))
  {
  }

  /** Pushing values one after the other without pulling. */
  function PushAll<T>(s: QueueState<T>, vs: seq<T>): (r: (QueueState<T>, seq<Result<PushOutcome, string>>))
    ensures |r.1| == |vs|
    decreases |vs|
  {
    if vs == [] then (s, [])
    else
      var (s', o) := PushStep(s, vs[0]);
      var (s'', os) := PushAll(s', vs[1..]);
      (s'', [o] + os)
  }

  /** `spareCapacity` means what it says: that many pushes in a row on an
      open queue all succeed and none suspends. */
  lemma {:induction false} PushesWithinSpareCapacity<T>(s: QueueState<T>, vs: seq<T>)
    requires Valid(s) && !s.closed && |vs| <= SpareCapacityOf(s)
    ensures forall i :: 0 <= i < |vs| ==> PushAll(s, vs).1[i].Success? && PushAll(s, vs).1[i].value != Suspended
    decreases |vs|
  {
    if vs != [] {
      var (s', o) := PushStep(s, vs[0]);
      PushKeepsValid(s, vs[0]);
      assert o.Success? && o.value != Suspended;
      assert |vs[1..]| <= SpareCapacityOf(s');
      PushesWithinSpareCapacity(s', vs[1..]);
    }
  }

  /** Pulling `n` times in a row. */
  function PullTimes<T>(s: QueueState<T>, n: nat): (r: (QueueState<T>, seq<PullOutcome<T>>))
    ensures |r.1| == n
    decreases n
  {
    if n == 0 then (s, [])
    else
      var (s', o) := PullStep(s);
      var (s'', os) := PullTimes(s', n - 1);
      (s'', [o] + os)
  }

  /** Closing keeps what is buffered: after `close`, pulls return the
      buffered values in order and then the end marker. */
  lemma {:induction false} DrainAfterClose<T>(s: QueueState<T>)
    requires s.closed
    ensures forall i :: 0 <= i < |s.buffered| ==> PullTimes(s, |s.buffered| + 1).1[i] == Value(s.buffered[i])
    ensures PullTimes(s, |s.buffered| + 1).1[|s.buffered|] == End
    decreases |s.buffered|
  {
    if s.buffered != [] {
      var (s', o) := PullStep(s);
      DrainAfterClose(s');
      assert s'.buffered == s.buffered[1..];
    }
  }

  // ---------------------------------------------------------------------
  // The object

  class BlockingQueue<T> {
    const capacity: int
    var closed: bool
    var buffered: seq<T>
    var hasBlockedPull: bool
    var hasBlockedPush: bool
    ghost var accepted: seq<T>
    ghost var delivered: seq<Option<T>>

    ghost function State(): QueueState<T>
      reads this
    {
      QueueState(capacity, closed, buffered, hasBlockedPull, hasBlockedPush, accepted, delivered)
    }

    constructor (capacity: int)
      requires capacity >= 1
      ensures Create(capacity) == Success(State())
    {
      this.capacity := capacity;
      closed := false;
      buffered := [];
      hasBlockedPull := false;
      hasBlockedPush := false;
      accepted := [];
      delivered := [];
    }

    /** The constructor with its capacity check. */
    static method New(capacity: int) returns (r: Result<BlockingQueue<T>, string>)
      ensures r.Failure? ==> Create<T>(capacity) == Failure(r.error)
      ensures r.Success? ==> fresh(r.value) && Create(capacity) == Success(r.value.State())
    {
      if capacity < 1 {
        return Failure(CapacityError(capacity));
      }
      var q := new BlockingQueue(capacity);
      return Success(q);
    }

    function SpareCapacity(): (n: int)
      reads this
      ensures n == SpareCapacityOf(State())
    {
      capacity - |buffered|
    }

    /** `maybeUnblockPull`: hands `value` to a waiting pull, if there is one. */
    method MaybeUnblockPull(value: T) returns (unblocked: bool)
      modifies this
      ensures unblocked == old(hasBlockedPull) && !hasBlockedPull
      ensures delivered == if unblocked then old(delivered) + [Some(value)] else old(delivered)
      ensures closed == old(closed) && buffered == old(buffered) && hasBlockedPush == old(hasBlockedPush)
      ensures accepted == old(accepted)
    {
      if !hasBlockedPull {
        return false;
      }
      hasBlockedPull := false;
      delivered := delivered + [Some(value)];
      return true;
    }

    /** `maybeUnblockPush`: resumes a waiting push, if there is one. */
    method MaybeUnblockPush()
      modifies this
      ensures !hasBlockedPush
      ensures closed == old(closed) && buffered == old(buffered) && hasBlockedPull == old(hasBlockedPull)
      ensures accepted == old(accepted) && delivered == old(delivered)
    {
      if !hasBlockedPush {
        return;
      }
      hasBlockedPush := false;
    }

    method Push(value: T) returns (r: Result<PushOutcome, string>)
      requires Valid(State())
      modifies this
      ensures (State(), r) == PushStep(old(State()), value)
      ensures Valid(State())
    {
      PushKeepsValid(State(), value);
      if closed {
        return Failure(ClosedQueueError);
      }
      var handedOff := MaybeUnblockPull(value);
      if handedOff {
        accepted := accepted + [value];
        return Success(HandedOff);
      }
      buffered := buffered + [value];
      accepted := accepted + [value];
      if |buffered| > capacity {
        hasBlockedPush := true;
        return Success(Suspended);
      }
      return Success(Buffered);
    }

    method Pull() returns (r: PullOutcome<T>)
      requires Valid(State())
      modifies this
      ensures (State(), r) == PullStep(old(State()))
      ensures Valid(State())
    {
      PullKeepsValid(State());
      var value: Option<T> := None;
      if buffered != [] {
        value := Some(buffered[0]);
        buffered := buffered[1..];
      }
      MaybeUnblockPush();
      if value == None {
        if closed {
          delivered := delivered + [None];
          return End;
        }
        hasBlockedPull := true;
        return Waiting;
      }
      delivered := delivered + [value];
      return Value(value.value);
    }

    method Close()
      requires Valid(State())
      modifies this
      ensures State() == CloseStep(old(State()))
      ensures Valid(State())
    {
      CloseKeepsValid(State());
      var wasClosed := closed;
      closed := true;
      if hasBlockedPull && !wasClosed {
        delivered := delivered + [None];
      }
    }
  }
}
