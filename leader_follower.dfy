/**
 * `LeaderFollowerQueue`: runs enqueued functions one at a time, in the
 * order they were enqueued. Each function receives a `nextCallback`; its
 * first call starts the next waiting function, later calls only warn.
 * Synchronous chaining is bounded by a recursion depth after which the next
 * start is deferred to a timer tick.
 *
 * The callbacks, the deferred `setTimeout` and the timeout timers of
 * `createTimedPromise` are events here: `Callback(k)` is the `nextCallback`
 * handed to the k-th started function, `DeferredTick` is the deferred
 * unwinding, and `SettlePromise`/`TimerFires` are the two ways a timed
 * promise function finishes.
 */
module LeaderFollower {
  import opened Wrappers

  const MaxRecursionDepth: nat := 10
  const DefaultTimeoutMillis: nat := 5000

  /** What the model keeps of an enqueued function: a plain function, or
      the wrapper `createTimedPromise` enqueues with its timeout (0 for no
      timer). */
  datatype EnqueuedFunction = Plain(name: string) | TimedPromise(timeoutMillis: nat)

  datatype FunctionMetadata = FunctionMetadata(id: nat, func: EnqueuedFunction)

  /** One `runFunction` call: the function, the recursion depth it was
      started with, and its own `hasCalledBack` flag. */
  datatype Run = Run(meta: FunctionMetadata, depth: nat, hasCalledBack: bool)

  /** How the promise returned by `createTimedPromise` settled. */
  datatype PromiseResult = Fulfilled | Rejected | TimedOut

  /** The queue. Beside the fields of the class: `runs` is every started
      function in start order (with the state its callback closure holds),
      `pendingTicks` counts deferred unwindings not yet run, `armedTimers`
      and `settled` are run indices whose timeout timer is pending or whose
      inner promise has settled, `results` is how each timed promise ended,
      `advances` lists the runs whose callback moved the queue on, and
      `warnings` counts the repeated-callback warnings. */
  datatype LFState = LFState(
    functionIdSequence: nat,
    queue: seq<FunctionMetadata>,
    running: Option<FunctionMetadata>,
    runs: seq<Run>,
    pendingTicks: nat,
    armedTimers: set<nat>,
    settled: set<nat>,
    results: map<nat, PromiseResult>,
    advances: seq<nat>,
    warnings: nat)

  function Initial(): LFState
  {
    LFState(0, [], None, [], 0, {}, {}, map[], [], 0)
  }

  // ---------------------------------------------------------------------
  // Steps

  /** `runFunction(meta, depth)`: occupy the running slot and call the
      function, which arms its timer when it has a positive timeout. */
  function RunFunctionStep(s: LFState, meta: FunctionMetadata, depth: nat): LFState
  {
    var k := |s.runs|;
    var timed := meta.func.TimedPromise? && meta.func.timeoutMillis > 0;
    s.(running := Some(meta),
       runs := s.runs + [Run(meta, depth, false)],
       armedTimers := if timed then s.armedTimers + {k} else s.armedTimers)
  }

  /** `unwindQueueRecursively(depth)`: start the front of the wait list, or
      clear the running slot when the list is empty. */
  function UnwindQueueRecursivelyStep(s: LFState, depth: nat): LFState
  {
    if s.queue != [] then RunFunctionStep(s.(queue := s.queue[1..]), s.queue[0], depth)
    else s.(running := None)
  }

  /** `processQueueNext(depth)`: unwind synchronously with `depth + 1`, or,
      beyond the maximum depth, defer the unwinding to a timer tick. */
  function ProcessQueueNextStep(s: LFState, depth: nat): LFState
  {
    if depth > MaxRecursionDepth then s.(pendingTicks := s.pendingTicks + 1)
    else UnwindQueueRecursivelyStep(s, depth + 1)
  }

  /** The `nextCallback` of the k-th run: the first call advances the queue,
      any later call only warns. */
  function CallbackStep(s: LFState, k: nat): LFState
    requires k < |s.runs|
  {
    var r := s.runs[k];
    if r.hasCalledBack then s.(warnings := s.warnings + 1)
    else ProcessQueueNextStep(s.(runs := s.runs[k := r.(hasCalledBack := true)], advances := s.advances + [k]), r.depth)
  }

  /** `enqueueFunction(f)`: take the next id; start at once when idle,
      otherwise wait at the back of the list. */
  function EnqueueFunctionStep(s: LFState, f: EnqueuedFunction): LFState
  {
    var meta := FunctionMetadata(s.functionIdSequence, f);
    var s' := s.(functionIdSequence := s.functionIdSequence + 1);
    if s.running.None? then RunFunctionStep(s', meta, 0) else s'.(queue := s.queue + [meta])
  }

  /** The deferred `unwindQueueRecursively(0)` runs. */
  function DeferredTickStep(s: LFState): LFState
    requires s.pendingTicks > 0
  {
    UnwindQueueRecursivelyStep(s.(pendingTicks := s.pendingTicks - 1), 0)
  }

  /** `discardQueued()`: drop every waiting function. */
  function DiscardQueuedStep(s: LFState): LFState
  {
    s.(queue := [])
  }

  /** The inner promise of the k-th run, a timed promise function, settles:
      its timer is cleared, the outer promise takes the outcome unless the
      timeout already rejected it, and `nextCallback` is called. */
  function SettlePromiseStep(s: LFState, k: nat, fulfilled: bool): LFState
    requires k < |s.runs| && k !in s.settled
  {
    var s' := s.(armedTimers := s.armedTimers - {k},
                 settled := s.settled + {k},
                 results := if k in s.results then s.results
                            else s.results[k := if fulfilled then Fulfilled else Rejected]);
    CallbackStep(s', k)
  }

  /** The timeout timer of the k-th run fires: `nextCallback` is called and
      the outer promise is rejected unless it already settled. */
  function TimerFiresStep(s: LFState, k: nat): LFState
    requires k < |s.runs|
  {
    var s' := CallbackStep(s.(armedTimers := s.armedTimers - {k}), k);
    s'.(results := if k in s'.results then s'.results else s'.results[k := TimedOut])
  }

  // ---------------------------------------------------------------------
  // Invariant

  /** Ids of started functions, then of waiting ones, strictly increase, and
      all were handed out already. */
  ghost predicate IdsOrdered(s: LFState)
  {
    IdsIncrease(s.runs, s.queue, s.functionIdSequence)
  }

  ghost predicate IdsIncrease(runs: seq<Run>, queue: seq<FunctionMetadata>, functionIdSequence: nat)
  {
    && (forall i, j :: 0 <= i < j < |runs| ==> runs[i].meta.id < runs[j].meta.id)
    && (forall i, j :: 0 <= i < j < |queue| ==> queue[i].id < queue[j].id)
    && (forall i, j :: 0 <= i < |runs| && 0 <= j < |queue| ==> runs[i].meta.id < queue[j].id)
    && (forall i :: 0 <= i < |runs| ==> runs[i].meta.id < functionIdSequence)
    && (forall j :: 0 <= j < |queue| ==> queue[j].id < functionIdSequence)
  }

  /** The running slot holds the last started function, and only a busy
      queue has waiting functions or a deferred tick. */
  ghost predicate SlotConsistent(s: LFState)
  {
    SlotHoldsLast(s.running, s.runs, s.queue, s.pendingTicks)
  }

  ghost predicate SlotHoldsLast(running: Option<FunctionMetadata>, runs: seq<Run>, queue: seq<FunctionMetadata>, pendingTicks: nat)
  {
    && (running.Some? ==> |runs| > 0 && running.value == runs[|runs| - 1].meta)
    && (running.None? ==> queue == [] && pendingTicks == 0)
  }

  /** Every started function but the running one has called back; the
      running one has called back exactly when its successor's start is
      deferred, and at most one tick is ever pending. */
  ghost predicate CallbacksConsistent(s: LFState)
  {
    OnlyRunningOwesCallback(s.running, s.runs, s.pendingTicks)
  }

  ghost predicate OnlyRunningOwesCallback(running: Option<FunctionMetadata>, runs: seq<Run>, pendingTicks: nat)
  {
    && (forall k :: 0 <= k < |runs| - 1 ==> runs[k].hasCalledBack)
    && (running.None? && |runs| > 0 ==> runs[|runs| - 1].hasCalledBack)
    && pendingTicks <= 1
    && (pendingTicks == 1 <==> running.Some? && |runs| > 0 && runs[|runs| - 1].hasCalledBack)
  }

  /** Runs are started at most one past the maximum recursion depth. */
  ghost predicate DepthBounded(s: LFState)
  {
    DepthsBounded(s.runs)
  }

  ghost predicate DepthsBounded(runs: seq<Run>)
  {
    forall k :: 0 <= k < |runs| ==> runs[k].depth <= MaxRecursionDepth + 1
  }

  /** Each run advanced the queue at most once, and exactly the runs that
      have called back did. */
  ghost predicate AdvancedOnce(s: LFState)
  {
    AdvancesMatchCallbacks(s.advances, s.runs)
  }

  ghost predicate AdvancesMatchCallbacks(advances: seq<nat>, runs: seq<Run>)
  {
    && (forall i, j :: 0 <= i < j < |advances| ==> advances[i] != advances[j])
    && (forall i :: 0 <= i < |advances| ==> advances[i] < |runs| && runs[advances[i]].hasCalledBack)
    && (forall k :: 0 <= k < |runs| && runs[k].hasCalledBack ==> k in advances)
  }

  /** Timers belong to started timed promise functions with a timeout whose
      promise has not been decided; decided promises belong to started runs. */
  ghost predicate TimersOfRuns(s: LFState)
  {
    TimersBelongToRuns(s.armedTimers, s.results, s.runs)
  }

  ghost predicate TimersBelongToRuns(armedTimers: set<nat>, results: map<nat, PromiseResult>, runs: seq<Run>)
  {
    && (forall k :: k in armedTimers ==>
          k < |runs| && runs[k].meta.func.TimedPromise? && runs[k].meta.func.timeoutMillis > 0
          && k !in results)
    && (forall k :: k in results ==> k < |runs|)
  }

  ghost predicate Valid(s: LFState)
  {
    IdsOrdered(s) && SlotConsistent(s) && CallbacksConsistent(s) && DepthBounded(s) && AdvancedOnce(s) && TimersOfRuns(s)
  }

  lemma InitialValid()
    ensures Valid(Initial())
  {
  }

  // ---------------------------------------------------------------------
  // The invariant is kept

  lemma RunFunctionKeepsIds(s: LFState, meta: FunctionMetadata, depth: nat)
    requires IdsOrdered(s) && meta.id < s.functionIdSequence
    requires forall i :: 0 <= i < |s.runs| ==> s.runs[i].meta.id < meta.id
    requires forall j :: 0 <= j < |s.queue| ==> meta.id < s.queue[j].id
    ensures IdsOrdered(RunFunctionStep(s, meta, depth))
  {
  }

  lemma RunFunctionKeepsSlot(s: LFState, meta: FunctionMetadata, depth: nat)
    requires forall k :: 0 <= k < |s.runs| ==> s.runs[k].hasCalledBack
    requires s.pendingTicks == 0 && depth <= MaxRecursionDepth + 1 && DepthBounded(s)
    ensures SlotConsistent(RunFunctionStep(s, meta, depth))
    ensures CallbacksConsistent(RunFunctionStep(s, meta, depth))
    ensures DepthBounded(RunFunctionStep(s, meta, depth))
  {
  }

  lemma RunFunctionKeepsLogs(s: LFState, meta: FunctionMetadata, depth: nat)
    requires AdvancedOnce(s) && TimersOfRuns(s)
    ensures AdvancedOnce(RunFunctionStep(s, meta, depth))
    ensures TimersOfRuns(RunFunctionStep(s, meta, depth))
  {
    var t := RunFunctionStep(s, meta, depth);
    assert forall k :: 0 <= k < |s.runs| ==> t.runs[k] == s.runs[k];
  }

  /** Starting a function on a queue whose every started function has
      called back. */
  lemma RunFunctionKeepsValid(s: LFState, meta: FunctionMetadata, depth: nat)
    requires IdsOrdered(s) && meta.id < s.functionIdSequence
    requires forall i :: 0 <= i < |s.runs| ==> s.runs[i].meta.id < meta.id
    requires forall j :: 0 <= j < |s.queue| ==> meta.id < s.queue[j].id
    requires forall k :: 0 <= k < |s.runs| ==> s.runs[k].hasCalledBack
    requires s.pendingTicks == 0 && depth <= MaxRecursionDepth + 1 && DepthBounded(s)
    requires AdvancedOnce(s) && TimersOfRuns(s)
    ensures Valid(RunFunctionStep(s, meta, depth))
  {
    RunFunctionKeepsIds(s, meta, depth);
    RunFunctionKeepsSlot(s, meta, depth);
    RunFunctionKeepsLogs(s, meta, depth);
  }

  lemma EnqueueWaitingKeepsIds(s: LFState, f: EnqueuedFunction)
    requires IdsOrdered(s)
    ensures IdsOrdered(s.(functionIdSequence := s.functionIdSequence + 1,
                          queue := s.queue + [FunctionMetadata(s.functionIdSequence, f)]))
  {
  }

  lemma EnqueueIdleKeepsValid(s: LFState, f: EnqueuedFunction)
    requires Valid(s) && s.running.None?
    ensures Valid(EnqueueFunctionStep(s, f))
  {
    assert forall k :: 0 <= k < |s.runs| ==> s.runs[k].hasCalledBack;
    RunFunctionKeepsValid(s.(functionIdSequence := s.functionIdSequence + 1), FunctionMetadata(s.functionIdSequence, f), 0);
  }

  lemma EnqueueBusyKeepsValid(s: LFState, f: EnqueuedFunction)
    requires Valid(s) && s.running.Some?
    ensures Valid(EnqueueFunctionStep(s, f))
  {
    EnqueueWaitingKeepsIds(s, f);
  }

  lemma EnqueueKeepsValid(s: LFState, f: EnqueuedFunction)
    requires Valid(s)
    ensures Valid(EnqueueFunctionStep(s, f))
  {
    if s.running.None? {
      EnqueueIdleKeepsValid(s, f);
    } else {
      EnqueueBusyKeepsValid(s, f);
    }
  }

  lemma DropFrontKeepsIds(s: LFState)
    requires IdsOrdered(s) && s.queue != []
    ensures IdsOrdered(s.(queue := s.queue[1..]))
    ensures forall i :: 0 <= i < |s.runs| ==> s.runs[i].meta.id < s.queue[0].id
    ensures forall j :: 0 <= j < |s.queue[1..]| ==> s.queue[0].id < s.queue[1..][j].id
  {
  }

  /** Unwinding once the running function has called back. */
  lemma UnwindKeepsValid(s: LFState, depth: nat)
    requires IdsOrdered(s) && TimersOfRuns(s) && AdvancedOnce(s)
    requires depth <= MaxRecursionDepth + 1 && DepthBounded(s)
    requires s.running.Some? && |s.runs| > 0
    requires forall k :: 0 <= k < |s.runs| ==> s.runs[k].hasCalledBack
    requires s.pendingTicks == 0
    ensures Valid(UnwindQueueRecursivelyStep(s, depth))
  {
    if s.queue != [] {
      DropFrontKeepsIds(s);
      RunFunctionKeepsValid(s.(queue := s.queue[1..]), s.queue[0], depth);
    }
  }

  /** The first callback of the running function marks it and logs the advance. */
  lemma MarkCalledBack(s: LFState, k: nat)
    requires Valid(s) && k < |s.runs| && !s.runs[k].hasCalledBack
    ensures k == |s.runs| - 1 && s.running.Some?
    ensures var t := s.(runs := s.runs[k := s.runs[k].(hasCalledBack := true)], advances := s.advances + [k]);
            && IdsOrdered(t) && TimersOfRuns(t) && AdvancedOnce(t) && DepthBounded(t)
            && (forall i :: 0 <= i < |t.runs| ==> t.runs[i].hasCalledBack)
            && t.running.value == t.runs[|t.runs| - 1].meta && t.pendingTicks == 0
  {
    var t := s.(runs := s.runs[k := s.runs[k].(hasCalledBack := true)], advances := s.advances + [k]);
    assert forall i :: 0 <= i < |s.runs| ==> t.runs[i].meta == s.runs[i].meta && t.runs[i].depth == s.runs[i].depth;
    assert k !in s.advances;
  }

  /** After the first callback: defer, or unwind one level deeper. */
  lemma ProcessQueueNextKeepsValid(s: LFState, depth: nat)
    requires IdsOrdered(s) && TimersOfRuns(s) && AdvancedOnce(s) && DepthBounded(s)
    requires s.running.Some? && |s.runs| > 0 && s.running.value == s.runs[|s.runs| - 1].meta
    requires forall i :: 0 <= i < |s.runs| ==> s.runs[i].hasCalledBack
    requires s.pendingTicks == 0
    ensures Valid(ProcessQueueNextStep(s, depth))
  {
    if depth <= MaxRecursionDepth {
      ProcessQueueNextUnwinds(s, depth);
    } else {
      ProcessQueueNextDefers(s, depth);
    }
  }

  lemma ProcessQueueNextUnwinds(s: LFState, depth: nat)
    requires IdsOrdered(s) && TimersOfRuns(s) && AdvancedOnce(s) && DepthBounded(s)
    requires s.running.Some? && |s.runs| > 0
    requires forall i :: 0 <= i < |s.runs| ==> s.runs[i].hasCalledBack
    requires s.pendingTicks == 0 && depth <= MaxRecursionDepth
    ensures Valid(ProcessQueueNextStep(s, depth))
  {
    UnwindKeepsValid(s, depth + 1);
    assert ProcessQueueNextStep(s, depth) == UnwindQueueRecursivelyStep(s, depth + 1);
  }

  lemma ProcessQueueNextDefers(s: LFState, depth: nat)
    requires IdsOrdered(s) && TimersOfRuns(s) && AdvancedOnce(s) && DepthBounded(s)
    requires s.running.Some? && |s.runs| > 0 && s.running.value == s.runs[|s.runs| - 1].meta
    requires forall i :: 0 <= i < |s.runs| ==> s.runs[i].hasCalledBack
    requires s.pendingTicks == 0 && depth > MaxRecursionDepth
    ensures Valid(ProcessQueueNextStep(s, depth))
  {
    DeferKeepsValid(s);
  }

  lemma DeferKeepsValid(s: LFState)
    requires IdsOrdered(s) && TimersOfRuns(s) && AdvancedOnce(s) && DepthBounded(s)
    requires s.running.Some? && |s.runs| > 0 && s.running.value == s.runs[|s.runs| - 1].meta
    requires forall i :: 0 <= i < |s.runs| ==> s.runs[i].hasCalledBack
    requires s.pendingTicks == 0
    ensures Valid(s.(pendingTicks := s.pendingTicks + 1))
  {
  }

  lemma CallbackKeepsValid(s: LFState, k: nat)
    requires Valid(s) && k < |s.runs|
    ensures Valid(CallbackStep(s, k))
  {
    var r := s.runs[k];
    if !r.hasCalledBack {
      MarkCalledBack(s, k);
      ProcessQueueNextKeepsValid(s.(runs := s.runs[k := r.(hasCalledBack := true)], advances := s.advances + [k]), r.depth);
    }
  }

  lemma DeferredTickKeepsValid(s: LFState)
    requires Valid(s) && s.pendingTicks > 0
    ensures Valid(DeferredTickStep(s))
  {
    UnwindKeepsValid(s.(pendingTicks := s.pendingTicks - 1), 0);
  }

  lemma DiscardKeepsValid(s: LFState)
    requires Valid(s)
    ensures Valid(DiscardQueuedStep(s))
    ensures DiscardQueuedStep(s).running == s.running && DiscardQueuedStep(s).runs == s.runs
  {
  }

  lemma SettleKeepsValid(s: LFState, k: nat, fulfilled: bool)
    requires Valid(s) && k < |s.runs| && k !in s.settled
    ensures Valid(SettlePromiseStep(s, k, fulfilled))
  {
    CallbackKeepsValid(s.(armedTimers := s.armedTimers - {k},
                          settled := s.settled + {k},
                          results := if k in s.results then s.results
                                     else s.results[k := if fulfilled then Fulfilled else Rejected]), k);
  }

  /** A callback arms at most the timer of the run it starts. */
  lemma CallbackArmsOnlyNewRun(s: LFState, k: nat)
    requires k < |s.runs|
    ensures CallbackStep(s, k).armedTimers <= s.armedTimers + {|s.runs|}
  {
  }

  lemma RecordResultKeepsValid(s: LFState, k: nat, result: PromiseResult)
    requires Valid(s) && k < |s.runs| && k !in s.armedTimers
    ensures Valid(s.(results := s.results[k := result]))
  {
  }

  lemma TimerKeepsValid(s: LFState, k: nat)
    requires Valid(s) && k < |s.runs|
    ensures Valid(TimerFiresStep(s, k))
  {
    var s0 := s.(armedTimers := s.armedTimers - {k});
    CallbackKeepsValid(s0, k);
    CallbackArmsOnlyNewRun(s0, k);
    var t := CallbackStep(s0, k);
    if k !in t.results {
      RecordResultKeepsValid(t, k, TimedOut);
    }
  }

  // ---------------------------------------------------------------------
  // What the invariant and the steps promise

  /** Ids are handed out in order: the new function gets the current counter
      value, above every id seen so far. */
  lemma EnqueueTakesNextId(s: LFState, f: EnqueuedFunction)
    requires Valid(s)
    ensures EnqueueFunctionStep(s, f).functionIdSequence == s.functionIdSequence + 1
    ensures s.running.None? ==>
      && EnqueueFunctionStep(s, f).running == Some(FunctionMetadata(s.functionIdSequence, f))
      && EnqueueFunctionStep(s, f).runs == s.runs + [Run(FunctionMetadata(s.functionIdSequence, f), 0, false)]
    ensures s.running.Some? ==>
      && EnqueueFunctionStep(s, f).queue == s.queue + [FunctionMetadata(s.functionIdSequence, f)]
      && EnqueueFunctionStep(s, f).running == s.running
      && EnqueueFunctionStep(s, f).runs == s.runs
  {
  }

  /** Functions start in increasing id order, which is admission order. */
  lemma StartedInAdmissionOrder(s: LFState)
    requires Valid(s)
    ensures forall i, j :: 0 <= i < j < |s.runs| ==> s.runs[i].meta.id < s.runs[j].meta.id
    ensures forall i, j :: 0 <= i < |s.runs| && 0 <= j < |s.queue| ==> s.runs[i].meta.id < s.queue[j].id
  {
  }

  /** Idle means nothing runs and nothing waits, so every function but the
      one in the slot has finished its turn: one function runs at a time. */
  lemma OneAtATime(s: LFState)
    requires Valid(s)
    ensures s.running.None? ==> s.queue == []
    ensures forall k :: 0 <= k < |s.runs| && !s.runs[k].hasCalledBack ==>
      s.running == Some(s.runs[k].meta) && k == |s.runs| - 1
  {
  }

  /** A callback that was already called only warns. */
  lemma RepeatedCallbackIgnored(s: LFState, k: nat)
    requires k < |s.runs| && s.runs[k].hasCalledBack
    ensures CallbackStep(s, k) == s.(warnings := s.warnings + 1)
  {
  }

  /** The first callback of the running function starts the front of the
      wait list one level deeper, or empties the slot, unless the depth is
      past the maximum: then the slot stays occupied, a tick is pending, and
      the list is untouched. */
  lemma FirstCallbackAdvances(s: LFState)
    requires Valid(s) && s.running.Some?
    requires !s.runs[|s.runs| - 1].hasCalledBack
    ensures var k := |s.runs| - 1;
            var d := s.runs[k].depth;
            var t := CallbackStep(s, k);
            && t.advances == s.advances + [k]
            && (d <= MaxRecursionDepth && s.queue != [] ==>
                  t.running == Some(s.queue[0]) && t.queue == s.queue[1..]
                  && t.runs[|t.runs| - 1] == Run(s.queue[0], d + 1, false))
            && (d <= MaxRecursionDepth && s.queue == [] ==> t.running == None)
            && (d > MaxRecursionDepth ==>
                  t.running == s.running && t.queue == s.queue && t.pendingTicks == 1)
  {
  }

  /** While a start is deferred the slot is occupied, so an enqueue waits; the
      tick then resets the depth to 0. */
  lemma DeferralKeepsOrder(s: LFState, f: EnqueuedFunction)
    requires Valid(s) && s.pendingTicks > 0
    ensures EnqueueFunctionStep(s, f).queue == s.queue + [FunctionMetadata(s.functionIdSequence, f)]
    ensures s.queue != [] ==>
      DeferredTickStep(s).running == Some(s.queue[0]) && DeferredTickStep(s).runs[|DeferredTickStep(s).runs| - 1].depth == 0
    ensures s.queue == [] ==> DeferredTickStep(s).running == None
  {
  }

  /** A timed promise function with timeout 0, which `enqueuePromise` uses,
      never arms a timer; a positive timeout arms exactly one. */
  lemma TimerOnlyForPositiveTimeout(s: LFState, meta: FunctionMetadata, depth: nat)
    requires meta.func.TimedPromise?
    ensures meta.func.timeoutMillis == 0 ==> RunFunctionStep(s, meta, depth).armedTimers == s.armedTimers
    ensures meta.func.timeoutMillis > 0 ==> RunFunctionStep(s, meta, depth).armedTimers == s.armedTimers + {|s.runs|}
  {
  }

  /** Timeout and settlement both call `nextCallback`, yet the queue
      advances once: whichever comes second only warns; and the outer
      promise keeps the outcome of whichever came first. */
  lemma TimeoutAndSettleAdvanceOnce(s: LFState, k: nat, fulfilled: bool)
    requires Valid(s) && k < |s.runs| && k in s.armedTimers && k !in s.settled
    ensures var t := TimerFiresStep(s, k);
            var u := SettlePromiseStep(t, k, fulfilled);
            && |u.advances| == |t.advances| && u.warnings == t.warnings + 1
            && u.results[k] == TimedOut
    ensures var t := SettlePromiseStep(s, k, fulfilled);
            && k !in t.armedTimers
            && (k !in s.results ==> t.results[k] == if fulfilled then Fulfilled else Rejected)
  {
    var c := CallbackStep(s.(armedTimers := s.armedTimers - {k}), k);
    CallbackFrame(s.(armedTimers := s.armedTimers - {k}), k);
    var t := TimerFiresStep(s, k);
    assert t == c.(results := c.results[k := TimedOut]);
    var t' := t.(armedTimers := t.armedTimers - {k}, settled := t.settled + {k});
    assert SettlePromiseStep(t, k, fulfilled) == CallbackStep(t', k);
    CallbackFrame(t', k);
  }

  /** A callback touches neither timers nor outcomes, leaves its run marked
      as called back, and advances the queue only the first time. */
  lemma CallbackFrame(s: LFState, k: nat)
    requires k < |s.runs|
    ensures var c := CallbackStep(s, k);
            && c.results == s.results && c.settled == s.settled
            && c.armedTimers >= s.armedTimers
            && k < |c.runs| && c.runs[k].hasCalledBack
            && |c.advances| == |s.advances| + (if s.runs[k].hasCalledBack then 0 else 1)
            && c.warnings == s.warnings + (if s.runs[k].hasCalledBack then 1 else 0)
  {
    var r := s.runs[k];
    if !r.hasCalledBack {
      var m := s.(runs := s.runs[k := r.(hasCalledBack := true)], advances := s.advances + [k]);
      assert CallbackStep(s, k) == ProcessQueueNextStep(m, r.depth);
      if r.depth <= MaxRecursionDepth && m.queue != [] {
        assert CallbackStep(s, k) == RunFunctionStep(m.(queue := m.queue[1..]), m.queue[0], r.depth + 1);
      }
    }
  }

  /** The functions of a wait list, in order. */
  function Funcs(queue: seq<FunctionMetadata>): (fs: seq<EnqueuedFunction>)
    ensures |fs| == |queue| && forall i :: 0 <= i < |fs| ==> fs[i] == queue[i].func
  {
    if queue == [] then [] else [queue[0].func] + Funcs(queue[1..])
  }

  // ---------------------------------------------------------------------
  // The object

  class LeaderFollowerQueue {
    var functionIdSequence: nat
    var queue: seq<FunctionMetadata>
    var runningFunctionMetadata: Option<FunctionMetadata>
    /** The callback closures of the started functions, in start order. */
    var runs: seq<Run>
    /** Deferred `setTimeout` unwindings not yet run. */
    var pendingTicks: nat
    var armedTimers: set<nat>
    var settled: set<nat>
    var results: map<nat, PromiseResult>
    ghost var advances: seq<nat>
    ghost var warnings: nat

    ghost function State(): LFState
      reads this
    {
      LFState(functionIdSequence, queue, runningFunctionMetadata, runs, pendingTicks,
              armedTimers, settled, results, advances, warnings)
    }

    constructor ()
      ensures State() == Initial()
    {
      functionIdSequence := 0;
      queue := [];
      runningFunctionMetadata := None;
      runs := [];
      pendingTicks := 0;
      armedTimers := {};
      settled := {};
      results := map[];
      advances := [];
      warnings := 0;
    }

    function IsIdle(): (idle: bool)
      reads this
      ensures Valid(State()) ==> (idle ==> queue == [] && pendingTicks == 0)
      ensures idle <==> State().running.None?
    {
      runningFunctionMetadata.None?
    }

    /** The functions waiting, front first. */
    function GetEnqueuedFunctions(): (fs: seq<EnqueuedFunction>)
      reads this
      ensures |fs| == |queue| && forall i :: 0 <= i < |fs| ==> fs[i] == queue[i].func
    {
      Funcs(queue)
    }

    method DiscardQueued()
      requires Valid(State())
      modifies this
      ensures State() == DiscardQueuedStep(old(State()))
      ensures Valid(State())
    {
      DiscardKeepsValid(State());
      queue := [];
    }

    method RunFunction(meta: FunctionMetadata, depth: nat)
      modifies this
      ensures State() == RunFunctionStep(old(State()), meta, depth)
    {
      var k := |runs|;
      runningFunctionMetadata := Some(meta);
      runs := runs + [Run(meta, depth, false)];
      if meta.func.TimedPromise? && meta.func.timeoutMillis > 0 {
        armedTimers := armedTimers + {k};
      }
    }

    method UnwindQueueRecursively(depth: nat)
      modifies this
      ensures State() == UnwindQueueRecursivelyStep(old(State()), depth)
    {
      if queue != [] {
        var functionMetadata := queue[0];
        queue := queue[1..];
        RunFunction(functionMetadata, depth);
      } else {
        runningFunctionMetadata := None;
      }
    }

    method ProcessQueueNext(depth: nat)
      modifies this
      ensures State() == ProcessQueueNextStep(old(State()), depth)
    {
      if depth > MaxRecursionDepth {
        pendingTicks := pendingTicks + 1;
      } else {
        UnwindQueueRecursively(depth + 1);
      }
    }

    /** The `nextCallback` handed to the k-th started function. */
    method Callback(k: nat)
      requires k < |runs|
      modifies this
      ensures State() == CallbackStep(old(State()), k)
      ensures old(Valid(State())) ==> Valid(State())
    {
      if Valid(State()) {
        CallbackKeepsValid(State(), k);
      }
      var r := runs[k];
      if r.hasCalledBack {
        warnings := warnings + 1;
      } else {
        runs := runs[k := r.(hasCalledBack := true)];
        advances := advances + [k];
        ProcessQueueNext(r.depth);
      }
    }

    method EnqueueFunction(f: EnqueuedFunction)
      requires Valid(State())
      modifies this
      ensures State() == EnqueueFunctionStep(old(State()), f)
      ensures Valid(State())
    {
      EnqueueKeepsValid(State(), f);
      var newFunctionMetadata := FunctionMetadata(functionIdSequence, f);
      functionIdSequence := functionIdSequence + 1;
      if IsIdle() {
        RunFunction(newFunctionMetadata, 0);
      } else {
        queue := queue + [newFunctionMetadata];
      }
    }

    method DeferredTick()
      requires Valid(State()) && pendingTicks > 0
      modifies this
      ensures State() == DeferredTickStep(old(State()))
      ensures Valid(State())
    {
      DeferredTickKeepsValid(State());
      pendingTicks := pendingTicks - 1;
      UnwindQueueRecursively(0);
    }

    /** `createTimedPromise(callback, timeoutMillis)`. */
    method CreateTimedPromise(timeoutMillis: nat)
      requires Valid(State())
      modifies this
      ensures State() == EnqueueFunctionStep(old(State()), TimedPromise(timeoutMillis))
      ensures Valid(State())
    {
      EnqueueFunction(TimedPromise(timeoutMillis));
    }

    /** `enqueuePromise(callback)`: a timed promise without a timer. */
    method EnqueuePromise()
      requires Valid(State())
      modifies this
      ensures State() == EnqueueFunctionStep(old(State()), TimedPromise(0))
      ensures Valid(State())
    {
      CreateTimedPromise(0);
    }

    /** The inner promise of the k-th run settles. */
    method SettlePromise(k: nat, fulfilled: bool)
      requires Valid(State()) && k < |runs| && runs[k].meta.func.TimedPromise? && k !in settled
      modifies this
      ensures State() == SettlePromiseStep(old(State()), k, fulfilled)
      ensures Valid(State())
    {
      ghost var s0 := State();
      SettleKeepsValid(s0, k, fulfilled);
      armedTimers := armedTimers - {k};
      settled := settled + {k};
      if k !in results {
        results := results[k := if fulfilled then Fulfilled else Rejected];
      }
      ghost var mid := State();
      assert mid == s0.(armedTimers := s0.armedTimers - {k},
                        settled := s0.settled + {k},
                        results := if k in s0.results then s0.results
                                   else s0.results[k := if fulfilled then Fulfilled else Rejected]);
      Callback(k);
      assert State() == CallbackStep(mid, k);
    }

    /** The timeout timer of the k-th run fires. */
    method TimerFires(k: nat)
      requires Valid(State()) && k < |runs| && k in armedTimers
      modifies this
      ensures State() == TimerFiresStep(old(State()), k)
      ensures Valid(State())
    {
      TimerKeepsValid(State(), k);
      armedTimers := armedTimers - {k};
      Callback(k);
      if k !in results {
        results := results[k := TimedOut];
      }
    }
  }
}
