/**
 The mutex-protected part of GuestSliceWorkerPool: the fields, and one member
 for each region of code that runs while the mutex is held.  A slice pointer is
 modelled by the number of the batch whose vector it points into and an index.
 */
module GuestSlicePool {
  import opened Wrappers

  // std::size_t and std::uint64_t wrap at this value.
  const WORD_MODULUS: nat := 0x1_0000_0000_0000_0000

  datatype Shared = Shared(
    slices: Option<nat>,  // the batch whose vector slices_ points to
    sliceCount: nat,
    nextSlice: nat,
    remaining: nat,
    generation: nat,
    stopping: bool)

  /** What a worker does when it next gives up the mutex. */
  datatype Outcome =
    | Work(observed: nat, batch: Option<nat>, slice: nat)
    | Sleep(observed: nat)
    | Exit

  function NextGeneration(generation: nat): (next: nat)
    requires generation < WORD_MODULUS
    ensures next < WORD_MODULUS && next != 0 && next != generation
  {
    if generation + 1 == WORD_MODULUS then 1 else generation + 1
  }

  function Decrement(counter: nat): nat {
    if counter == 0 then WORD_MODULUS - 1 else counter - 1
  }

  function Unclaimed(s: Shared): nat {
    if s.nextSlice < s.sliceCount then s.sliceCount - s.nextSlice else 0
  }

  function OpenBatch(s: Shared, batch: nat, count: nat): Option<Shared>
    requires s.generation < WORD_MODULUS
  {
    if s.remaining != 0 then None
    else Some(Shared(Some(batch), count, 0, count, NextGeneration(s.generation), s.stopping))
  }

  function CloseBatch(s: Shared): Shared {
    s.(slices := None, sliceCount := 0)
  }

  /** The inner claiming loop up to its unlock, or back to the outer wait. */
  function Drain(s: Shared, observed: nat): (Shared, Outcome) {
    if s.nextSlice < s.sliceCount then
      (s.(nextSlice := s.nextSlice + 1), Work(observed, s.slices, s.nextSlice))
    else if s.stopping then (s, Exit)
    else (s, Sleep(s.generation))
  }

  /** A worker that holds the mutex and evaluates the wait predicate. */
  function Round(s: Shared, observed: nat): (Shared, Outcome) {
    if s.stopping then (s, Exit)
    else if s.generation == observed then (s, Sleep(observed))
    else Drain(s, s.generation)
  }

  /** A worker that has retaken the mutex after executing a slice. */
  function Finish(s: Shared, observed: nat): (Shared, Outcome) {
    Drain(s.(remaining := Decrement(s.remaining)), observed)
  }

  class GuestSliceWorkerPool {
    var slices: Option<nat>
    var sliceCount: nat
    var nextSlice: nat
    var remaining: nat
    var generation: nat
    var stopping: bool

    function View(): Shared
      reads this
    {
      Shared(slices, sliceCount, nextSlice, remaining, generation, stopping)
    }

    constructor ()
      ensures View() == Shared(None, 0, 0, 0, 0, false)
    {
      slices, sliceCount, nextSlice := None, 0, 0;
      remaining, generation, stopping := 0, 0, false;
    }

    /** The first locked region of run; false is the logic_error it throws. */
    method Open(batch: nat, count: nat) returns (accepted: bool)
      requires generation < WORD_MODULUS
      modifies this
      ensures accepted == OpenBatch(old(View()), batch, count).Some?
      ensures accepted <==> old(remaining) == 0
      ensures accepted ==> slices == Some(batch) && sliceCount == remaining == count && nextSlice == 0
      ensures accepted ==> generation != old(generation) && generation != 0 && stopping == old(stopping)
      ensures View() == if accepted then OpenBatch(old(View()), batch, count).value else old(View())
    {
      if remaining != 0 {
        return false;
      }
      slices := Some(batch);
      sliceCount := count;
      nextSlice := 0;
      remaining := count;
      generation := (generation + 1) % WORD_MODULUS;
      if generation == 0 {
        generation := generation + 1;
      }
      return true;
    }

    /** The second locked region of run; false sends the caller to sleep. */
    method Close() returns (complete: bool)
      modifies this
      ensures complete == (old(remaining) == 0)
      ensures View() == if complete then CloseBatch(old(View())) else old(View())
    {
      complete := remaining == 0;
      if complete {
        slices := None;
        sliceCount := 0;
      }
    }

    method Stop()
      modifies this
      ensures View() == old(View()).(stopping := true)
    {
      stopping := true;
    }

    /** worker_loop from a wake-up until the mutex is released again. */
    method WorkerRound(observed: nat) returns (outcome: Outcome)
      modifies this
      ensures (View(), outcome) == Round(old(View()), observed)
    {
      if stopping {
        return Exit;
      }
      if generation == observed {
        return Sleep(observed);
      }
      outcome := Claim(generation);
    }

    /** worker_loop after execute until the mutex is released again. */
    method WorkerFinish(observed: nat) returns (outcome: Outcome, notify: bool)
      modifies this
      ensures (View(), outcome) == Finish(old(View()), observed)
      ensures notify == (remaining == 0)
    {
      remaining := if remaining == 0 then WORD_MODULUS - 1 else remaining - 1;
      notify := remaining == 0;
      outcome := Claim(observed);
    }

    method Claim(observed: nat) returns (outcome: Outcome)
      modifies this
      ensures (View(), outcome) == Drain(old(View()), observed)
    {
      if nextSlice < sliceCount {
        outcome := Work(observed, slices, nextSlice);
        nextSlice := nextSlice + 1;
      } else if stopping {
        outcome := Exit;
      } else {
        outcome := Sleep(generation);
      }
    }
  }
}

/**
 Every interleaving of one thread that calls run (and finally the destructor)
 with any number of workers.  Condition variables are modelled by who sleeps in
 them and who has been notified, so a lost wake-up would be a stuck state.
 */
module GuestSliceSchedule {
  import opened Wrappers
  import opened GuestSlicePool

  datatype Worker =
    | Ready(observed: nat)    // awake, about to take the mutex
    | Waiting(observed: nat)  // asleep in work_available_
    | Claimed(observed: nat, batch: Option<nat>, slice: nat)   // unlocked, slice not yet executed
    | Executed(observed: nat, batch: Option<nat>, slice: nat)  // unlocked, slice executed
    | Exited

  datatype Caller =
    | Idle        // outside run
    | Publishing  // batch opened, notify_all still to come
    | Checking    // awake, about to test remaining_ == 0
    | Blocked     // asleep in batch_complete_
    | Stopping    // destructor: flag set, notify_all still to come
    | Joining     // destructor: joining the workers
    | Joined

  datatype System = System(
    shared: Shared,
    workers: seq<Worker>,
    caller: Caller,
    executions: seq<seq<nat>>,  // per batch and slice: how often it has been executed
    violated: bool)             // a dangling slice pointer was used, or run threw

  datatype Step =
    | Run(count: nat)
    | Notify
    | CallerCheck
    | Round(w: nat)
    | Execute(w: nat)
    | Finish(w: nat)
    | Shutdown
    | Join
    | SpuriousWorker(w: nat)
    | SpuriousCaller

  function Init(workerCount: nat): System {
    System(Shared(None, 0, 0, 0, 0, false), seq(workerCount, _ => Ready(0)), Idle, [], false)
  }

  predicate InRun(caller: Caller) {
    caller.Publishing? || caller.Checking? || caller.Blocked?
  }

  predicate Busy(w: Worker) {
    w.Claimed? || w.Executed?
  }

  function CountBusy(workers: seq<Worker>): nat {
    if workers == [] then 0
    else (if Busy(workers[0]) then 1 else 0) + CountBusy(workers[1..])
  }

  function CountReady(workers: seq<Worker>): nat {
    if workers == [] then 0
    else (if workers[0].Ready? then 1 else 0) + CountReady(workers[1..])
  }

  /** The pointer refers to an element of the vector that run was given and still holds. */
  predicate PointerLive(s: System, batch: Option<nat>, slice: nat) {
    && InRun(s.caller)
    && batch.Some?
    && batch.value + 1 == |s.executions|
    && slice < |s.executions[batch.value]|
  }

  predicate Enabled(s: System, step: Step) {
    match step
    case Run(count) => s.caller.Idle? && count < WORD_MODULUS
    case Notify => s.caller.Publishing? || s.caller.Stopping?
    case CallerCheck => s.caller.Checking?
    case Round(w) => w < |s.workers| && s.workers[w].Ready?
    case Execute(w) => w < |s.workers| && s.workers[w].Claimed?
    case Finish(w) => w < |s.workers| && s.workers[w].Executed?
    case Shutdown => s.caller.Idle?
    case Join => s.caller.Joining? && forall w :: 0 <= w < |s.workers| ==> s.workers[w].Exited?
    case SpuriousWorker(w) => w < |s.workers| && s.workers[w].Waiting?
    case SpuriousCaller => s.caller.Blocked?
  }

  function AfterOutcome(outcome: Outcome): Worker {
    match outcome
    case Work(observed, batch, slice) => Claimed(observed, batch, slice)
    case Sleep(observed) => Waiting(observed)
    case Exit => Exited
  }

  function WakeAll(workers: seq<Worker>): (woken: seq<Worker>)
    ensures |woken| == |workers|
  {
    seq(|workers|, i requires 0 <= i < |workers| =>
      if workers[i].Waiting? then Ready(workers[i].observed) else workers[i])
  }

  function RunStep(s: System, count: nat): System
    requires s.shared.generation < WORD_MODULUS
  {
    if count == 0 then s
    else
      match OpenBatch(s.shared, |s.executions|, count)
      case None => s.(violated := true)
      case Some(shared) =>
        s.(shared := shared, caller := Publishing, executions := s.executions + [seq(count, _ => 0)])
  }

  function ExecuteStep(s: System, w: nat): System
    requires Enabled(s, Execute(w))
  {
    var Claimed(observed, batch, slice) := s.workers[w];
    if !PointerLive(s, batch, slice) then s.(violated := true)
    else
      var b := batch.value;
      var counts := s.executions[b];
      s.(workers := s.workers[w := Executed(observed, batch, slice)],
         executions := s.executions[b := counts[slice := counts[slice] + 1]])
  }

  function RoundStep(s: System, w: nat): System
    requires Enabled(s, Round(w))
  {
    var (shared', outcome) := GuestSlicePool.Round(s.shared, s.workers[w].observed);
    s.(shared := shared', workers := s.workers[w := AfterOutcome(outcome)])
  }

  function FinishStep(s: System, w: nat): System
    requires Enabled(s, Finish(w))
  {
    var (shared', outcome) := GuestSlicePool.Finish(s.shared, s.workers[w].observed);
    s.(shared := shared',
       workers := s.workers[w := AfterOutcome(outcome)],
       caller := if shared'.remaining == 0 && s.caller.Blocked? then Checking else s.caller)
  }

  function Next(s: System, step: Step): System
    requires Enabled(s, step) && s.shared.generation < WORD_MODULUS
  {
    match step
    case Run(count) => RunStep(s, count)
    case Notify =>
      s.(workers := WakeAll(s.workers), caller := if s.caller.Publishing? then Checking else Joining)
    case CallerCheck =>
      if s.shared.remaining == 0 then s.(shared := CloseBatch(s.shared), caller := Idle)
      else s.(caller := Blocked)
    case Round(w) => RoundStep(s, w)
    case Execute(w) => ExecuteStep(s, w)
    case Finish(w) => FinishStep(s, w)
    case Shutdown => s.(shared := s.shared.(stopping := true), caller := Stopping)
    case Join => s.(caller := Joined)
    case SpuriousWorker(w) => s.(workers := s.workers[w := Ready(s.workers[w].observed)])
    case SpuriousCaller => s.(caller := Checking)
  }

  // ---------------------------------------------------------------- invariant

  ghost predicate AllOnce(counts: seq<nat>) {
    forall i :: 0 <= i < |counts| ==> counts[i] == 1
  }

  /** Every finished batch: all of them while idle, all but the last inside run. */
  ghost predicate PastBatchesOnce(s: System) {
    forall b :: 0 <= b < |s.executions| - (if InRun(s.caller) then 1 else 0) ==> AllOnce(s.executions[b])
  }

  /** No worker holds a slice, and the pool holds no pointer. */
  ghost predicate Quiet(s: System) {
    && s.shared.slices == None && s.shared.sliceCount == 0 && s.shared.remaining == 0
    && forall w :: 0 <= w < |s.workers| ==> !Busy(s.workers[w])
  }

  ghost predicate Holds(workers: seq<Worker>, w: nat, i: nat) {
    w < |workers| && Busy(workers[w]) && workers[w].slice == i
  }

  /** The batch in progress, slice by slice. */
  ghost predicate BatchOk(s: System)
    requires |s.executions| > 0
  {
    var last := |s.executions| - 1;
    var counts := s.executions[last];
    && s.shared.slices == Some(last)
    && s.shared.sliceCount == |counts| > 0
    && s.shared.nextSlice <= |counts|
    && s.shared.remaining == Unclaimed(s.shared) + CountBusy(s.workers)
    && (forall w :: 0 <= w < |s.workers| && Busy(s.workers[w]) ==>
      && s.workers[w].batch == Some(last)
      && s.workers[w].slice < s.shared.nextSlice
      && s.workers[w].observed == s.shared.generation
      && counts[s.workers[w].slice] == (if s.workers[w].Executed? then 1 else 0))
    && (forall v, w :: 0 <= v < w < |s.workers| && Busy(s.workers[v]) && Busy(s.workers[w]) ==>
      s.workers[v].slice != s.workers[w].slice)
    && (forall i :: 0 <= i < s.shared.nextSlice ==> counts[i] == 1 || exists w :: Holds(s.workers, w, i))
    && (forall i :: s.shared.nextSlice <= i < |counts| ==> counts[i] == 0)
  }

  /** A sleeper has seen the current generation, so it has nothing to do. */
  ghost predicate NoLostWakeup(s: System) {
    && (!s.caller.Publishing? && !s.caller.Stopping? ==>
      forall w :: 0 <= w < |s.workers| && s.workers[w].Waiting? ==>
        s.workers[w].observed == s.shared.generation && !s.shared.stopping)
    && (s.caller.Blocked? ==> s.shared.remaining != 0)
  }

  /** Some worker can still take up the batch, or will be able to take up the next one. */
  ghost predicate Prompt(s: System, w: nat) {
    && w < |s.workers|
    && !s.workers[w].Exited?
    && if Unclaimed(s.shared) > 0 then Busy(s.workers[w]) || s.workers[w].observed != s.shared.generation
       else s.workers[w].observed == s.shared.generation
  }

  ghost predicate Consistent(s: System) {
    && !s.violated
    && s.shared.generation < WORD_MODULUS
    && PastBatchesOnce(s)
    && (InRun(s.caller) ==> |s.executions| > 0 && BatchOk(s) && !s.shared.stopping)
    && (!InRun(s.caller) ==> Quiet(s))
    && NoLostWakeup(s)
    && (s.shared.stopping <==> s.caller.Stopping? || s.caller.Joining? || s.caller.Joined?)
    && (!s.shared.stopping ==> forall w :: 0 <= w < |s.workers| ==> !s.workers[w].Exited?)
  }

  ghost predicate Inv(s: System) {
    Consistent(s) && (|s.workers| > 0 && !s.shared.stopping ==> exists w :: Prompt(s, w))
  }

  // ------------------------------------------------------------ preservation

  lemma {:induction false} CountBusyUpdate(workers: seq<Worker>, w: nat, worker: Worker)
    requires w < |workers|
    ensures CountBusy(workers[w := worker]) + (if Busy(workers[w]) then 1 else 0)
         == CountBusy(workers) + (if Busy(worker) then 1 else 0)
  {
    if w == 0 {
      assert workers[w := worker][1..] == workers[1..];
    } else {
      assert workers[w := worker][1..] == workers[1..][w - 1 := worker];
      CountBusyUpdate(workers[1..], w - 1, worker);
    }
  }

  lemma {:induction false} CountReadyUpdate(workers: seq<Worker>, w: nat, worker: Worker)
    requires w < |workers|
    ensures CountReady(workers[w := worker]) + (if workers[w].Ready? then 1 else 0)
         == CountReady(workers) + (if worker.Ready? then 1 else 0)
  {
    if w == 0 {
      assert workers[w := worker][1..] == workers[1..];
    } else {
      assert workers[w := worker][1..] == workers[1..][w - 1 := worker];
      CountReadyUpdate(workers[1..], w - 1, worker);
    }
  }

  lemma {:induction false} CountReadyBound(workers: seq<Worker>)
    ensures CountReady(workers) <= |workers|
  {
    if workers != [] {
      CountReadyBound(workers[1..]);
    }
  }

  /** The counter is zero exactly when no worker is busy. */
  lemma {:induction false} CountBusyZero(workers: seq<Worker>)
    ensures CountBusy(workers) == 0 <==> forall w :: 0 <= w < |workers| ==> !Busy(workers[w])
  {
    if workers != [] {
      CountBusyZero(workers[1..]);
      assert forall w :: 0 < w < |workers| ==> workers[w] == workers[1..][w - 1];
    }
  }

  lemma {:induction false} WakeAllBusy(workers: seq<Worker>)
    ensures CountBusy(WakeAll(workers)) == CountBusy(workers)
  {
    if workers != [] {
      assert WakeAll(workers)[1..] == WakeAll(workers[1..]);
      WakeAllBusy(workers[1..]);
    }
  }

  lemma InitInv(workerCount: nat)
    ensures Inv(Init(workerCount))
  {
    var s := Init(workerCount);
    if workerCount > 0 {
      assert Prompt(s, 0);
    }
  }

  lemma RunInv(s: System, count: nat)
    requires Inv(s) && s.caller.Idle?
    ensures Inv(RunStep(s, count))
  {
    if count > 0 {
      var s' := RunStep(s, count);
      CountBusyZero(s.workers);
      forall b | 0 <= b < |s'.executions| - 1
        ensures AllOnce(s'.executions[b])
      {
        assert s'.executions[b] == s.executions[b];
      }
      if |s.workers| > 0 {
        var w :| Prompt(s, w);
        assert Prompt(s', w);
      }
    }
  }

  lemma NotifyInv(s: System)
    requires Inv(s) && Enabled(s, Notify)
    ensures Inv(Next(s, Notify))
  {
    hide CountBusy;
    var s' := Next(s, Notify);
    WakeAllBusy(s.workers);
    if InRun(s.caller) {
      assert forall w, i :: Holds(s.workers, w, i) ==> Holds(s'.workers, w, i);
      if |s.workers| > 0 {
        var w :| Prompt(s, w);
        assert Prompt(s', w);
      }
    }
  }

  lemma CallerCheckInv(s: System)
    requires Inv(s) && Enabled(s, CallerCheck)
    ensures Inv(Next(s, CallerCheck))
    ensures Next(s, CallerCheck).caller.Idle? ==> AllOnce(s.executions[|s.executions| - 1])
  {
    var s' := Next(s, CallerCheck);
    CountBusyZero(s.workers);
    if s.shared.remaining == 0 {
      var counts := s.executions[|s.executions| - 1];
      forall i | 0 <= i < |counts| ensures counts[i] == 1 {
        assert !exists w :: Holds(s.workers, w, i);
      }
    } else {
      assert BatchOk(s');
    }
    if |s.workers| > 0 {
      var w :| Prompt(s, w);
      assert Prompt(s', w);
    }
  }

  /** Claiming the next slice, or going back to sleep, keeps the batch consistent. */
  lemma DrainInv(s: System, w: nat, observed: nat)
    requires Consistent(s) && w < |s.workers| && !Busy(s.workers[w]) && !s.shared.stopping
    requires observed == s.shared.generation && !s.workers[w].Exited?
    ensures var (shared', outcome) := Drain(s.shared, observed);
            Inv(s.(shared := shared', workers := s.workers[w := AfterOutcome(outcome)]))
  {
    hide CountBusy;
    var (shared', outcome) := Drain(s.shared, observed);
    var s' := s.(shared := shared', workers := s.workers[w := AfterOutcome(outcome)]);
    CountBusyUpdate(s.workers, w, AfterOutcome(outcome));
    assert Holds(s'.workers, w, s.shared.nextSlice) || !outcome.Work?;
    assert forall v, i :: Holds(s.workers, v, i) ==> Holds(s'.workers, v, i);
    assert Prompt(s', w);
  }

  lemma RoundInv(s: System, w: nat)
    requires Inv(s) && Enabled(s, Round(w))
    ensures Inv(Next(s, Round(w)))
  {
    hide CountBusy;
    var observed := s.workers[w].observed;
    var s' := Next(s, Round(w));
    CountBusyUpdate(s.workers, w, s'.workers[w]);
    if s.shared.stopping {
    } else if observed == s.shared.generation {
      assert forall v, i :: Holds(s.workers, v, i) ==> Holds(s'.workers, v, i);
      var v :| Prompt(s, v);
      assert Prompt(s', v);
    } else {
      DrainInv(s, w, s.shared.generation);
    }
  }

  lemma ExecuteInv(s: System, w: nat)
    requires Inv(s) && Enabled(s, Execute(w))
    ensures PointerLive(s, s.workers[w].batch, s.workers[w].slice)
    ensures Inv(Next(s, Execute(w)))
  {
    hide CountBusy;
    var s' := Next(s, Execute(w));
    CountBusyUpdate(s.workers, w, s'.workers[w]);
    assert forall v, i :: Holds(s.workers, v, i) ==> Holds(s'.workers, v, i);
    forall b | 0 <= b < |s.executions| - 1
      ensures AllOnce(s'.executions[b])
    {
      assert s'.executions[b] == s.executions[b];
    }
    var v :| Prompt(s, v);
    assert Prompt(s', v);
  }

  lemma FinishInv(s: System, w: nat)
    requires Inv(s) && Enabled(s, Finish(w))
    ensures Inv(Next(s, Finish(w)))
  {
    hide CountBusy;
    var observed := s.workers[w].observed;
    CountBusyUpdate(s.workers, w, Waiting(observed));
    var rested := s.(shared := s.shared.(remaining := s.shared.remaining - 1),
                     workers := s.workers[w := Waiting(observed)],
                     caller := if s.shared.remaining == 1 && s.caller.Blocked? then Checking else s.caller);
    var counts := s.executions[|s.executions| - 1];
    forall i | 0 <= i < s.shared.nextSlice
      ensures counts[i] == 1 || exists v :: Holds(rested.workers, v, i)
    {
      if v :| Holds(s.workers, v, i) && v != w {
        assert Holds(rested.workers, v, i);
      }
    }
    assert rested.workers[w := AfterOutcome(Drain(rested.shared, observed).1)]
        == s.workers[w := AfterOutcome(Drain(rested.shared, observed).1)];
    DrainInv(rested, w, observed);
  }

  lemma ShutdownInv(s: System)
    requires Inv(s) && s.caller.Idle?
    ensures Inv(Next(s, Shutdown))
  {
    assert Quiet(Next(s, Shutdown));
  }

  lemma JoinInv(s: System)
    requires Inv(s) && Enabled(s, Join)
    ensures Inv(Next(s, Join))
  {
    assert Quiet(Next(s, Join));
  }

  lemma SpuriousInv(s: System, step: Step)
    requires Inv(s) && Enabled(s, step) && (step.SpuriousWorker? || step.SpuriousCaller?)
    ensures Inv(Next(s, step))
  {
    hide CountBusy;
    var s' := Next(s, step);
    if step.SpuriousWorker? {
      CountBusyUpdate(s.workers, step.w, s'.workers[step.w]);
    }
    assert forall v, i :: Holds(s.workers, v, i) ==> Holds(s'.workers, v, i);
    if |s.workers| > 0 && !s.shared.stopping {
      var v :| Prompt(s, v);
      assert Prompt(s', v);
    }
  }

  lemma StepInv(s: System, step: Step)
    requires Inv(s) && Enabled(s, step)
    ensures Inv(Next(s, step))
  {
    match step
    case Run(count) => RunInv(s, count);
    case Notify => NotifyInv(s);
    case CallerCheck => CallerCheckInv(s);
    case Round(w) => RoundInv(s, w);
    case Execute(w) => ExecuteInv(s, w);
    case Finish(w) => FinishInv(s, w);
    case Shutdown => ShutdownInv(s);
    case Join => JoinInv(s);
    case SpuriousWorker(w) => SpuriousInv(s, step);
    case SpuriousCaller => SpuriousInv(s, step);
  }

  // --------------------------------------------------------- whole executions

  /** s' is reached from s by taking the steps in order. */
  ghost predicate Leads(s: System, steps: seq<Step>, s': System)
    decreases |steps|
  {
    if steps == [] then s == s'
    else
      && Enabled(s, steps[0]) && s.shared.generation < WORD_MODULUS
      && Leads(Next(s, steps[0]), steps[1..], s')
  }

  lemma {:induction false} LeadsInv(s: System, steps: seq<Step>, s': System)
    requires Inv(s) && Leads(s, steps, s')
    ensures Inv(s')
    decreases |steps|
  {
    if steps != [] {
      StepInv(s, steps[0]);
      LeadsInv(Next(s, steps[0]), steps[1..], s');
    }
  }

  /**
   In every interleaving of any number of workers: no dangling slice pointer is
   ever used and run never throws; inside run the outstanding count is the
   unclaimed slices plus those in workers' hands; outside run no worker holds a
   slice and every slice of every batch has been executed exactly once.
   */
  lemma EveryInterleavingIsSafe(workerCount: nat, steps: seq<Step>, s: System)
    requires Leads(Init(workerCount), steps, s)
    ensures !s.violated
    ensures InRun(s.caller) ==> s.shared.remaining == Unclaimed(s.shared) + CountBusy(s.workers)
    ensures !InRun(s.caller) ==>
      && (forall w :: 0 <= w < |s.workers| ==> !Busy(s.workers[w]))
      && (forall b, i :: 0 <= b < |s.executions| && 0 <= i < |s.executions[b]| ==> s.executions[b][i] == 1)
  {
    InitInv(workerCount);
    LeadsInv(Init(workerCount), steps, s);
    if !InRun(s.caller) {
      forall b, i | 0 <= b < |s.executions| && 0 <= i < |s.executions[b]|
        ensures s.executions[b][i] == 1
      {
        assert AllOnce(s.executions[b]);
      }
    }
  }

  // ----------------------------------------------------------------- progress

  /** The steps the scheduler owes the pool: everything but new requests and spurious wake-ups. */
  predicate Owed(step: Step) {
    step.Notify? || step.CallerCheck? || step.Round? || step.Execute? || step.Finish? || step.Join?
  }

  function Measure(s: System): nat {
    var caller := match s.caller
      case Publishing => |s.workers| + 2
      case Stopping => |s.workers| + 2
      case Checking => 1
      case Joining => 1
      case _ => 0;
    caller + CountReady(s.workers) + Weight(s.workers) + 4 * Unclaimed(s.shared)
  }

  /** Three for a slice still to be executed and two for one executed but not yet reported. */
  function Weight(workers: seq<Worker>): nat {
    if workers == [] then 0
    else (if workers[0].Claimed? then 3 else if workers[0].Executed? then 2 else 0) + Weight(workers[1..])
  }

  lemma {:induction false} WeightUpdate(workers: seq<Worker>, w: nat, worker: Worker)
    requires w < |workers|
    ensures Weight(workers[w := worker]) + Weight([workers[w]]) == Weight(workers) + Weight([worker])
  {
    if w == 0 {
      assert workers[w := worker][1..] == workers[1..];
    } else {
      assert workers[w := worker][1..] == workers[1..][w - 1 := worker];
      WeightUpdate(workers[1..], w - 1, worker);
    }
  }

  lemma {:induction false} WakeAllWeight(workers: seq<Worker>)
    ensures Weight(WakeAll(workers)) == Weight(workers)
  {
    if workers != [] {
      assert WakeAll(workers)[1..] == WakeAll(workers[1..]);
      WakeAllWeight(workers[1..]);
    }
  }

  lemma NotifyMeasure(s: System)
    requires Enabled(s, Notify) && s.shared.generation < WORD_MODULUS
    ensures Measure(Next(s, Notify)) < Measure(s)
  {
    CountReadyBound(WakeAll(s.workers));
    WakeAllWeight(s.workers);
  }

  /** What replacing one worker does to the two sums in the measure. */
  lemma WorkerMeasure(s: System, w: nat, worker: Worker)
    requires w < |s.workers|
    ensures var workers' := s.workers[w := worker];
      && CountReady(workers') + (if s.workers[w].Ready? then 1 else 0)
           == CountReady(s.workers) + (if worker.Ready? then 1 else 0)
      && Weight(workers') + Weight([s.workers[w]]) == Weight(s.workers) + Weight([worker])
  {
    CountReadyUpdate(s.workers, w, worker);
    WeightUpdate(s.workers, w, worker);
  }

  lemma RoundMeasure(s: System, w: nat)
    requires Inv(s) && Enabled(s, Round(w))
    ensures Measure(Next(s, Round(w))) < Measure(s)
  {
    WorkerMeasure(s, w, Next(s, Round(w)).workers[w]);
  }

  lemma ExecuteMeasure(s: System, w: nat)
    requires Inv(s) && Enabled(s, Execute(w))
    ensures Measure(Next(s, Execute(w))) < Measure(s)
  {
    ExecuteInv(s, w);
    WorkerMeasure(s, w, Next(s, Execute(w)).workers[w]);
  }

  lemma FinishMeasure(s: System, w: nat)
    requires Inv(s) && Enabled(s, Finish(w))
    ensures Measure(Next(s, Finish(w))) < Measure(s)
  {
    WorkerMeasure(s, w, Next(s, Finish(w)).workers[w]);
  }

  lemma SpuriousMeasure(s: System, step: Step)
    requires Inv(s) && Enabled(s, step) && (step.SpuriousWorker? || step.SpuriousCaller?)
    ensures Measure(Next(s, step)) == Measure(s) + 1
  {
    if step.SpuriousWorker? {
      WorkerMeasure(s, step.w, Ready(s.workers[step.w].observed));
    }
  }

  /** An owed step lowers the measure; a spurious wake-up raises it by one. */
  lemma StepMeasure(s: System, step: Step)
    requires Inv(s) && Enabled(s, step)
    ensures Owed(step) ==> Measure(Next(s, step)) < Measure(s)
    ensures step.SpuriousWorker? || step.SpuriousCaller? ==> Measure(Next(s, step)) == Measure(s) + 1
  {
    match step
    case Run(_) =>
    case Notify => NotifyMeasure(s);
    case CallerCheck =>
    case Round(w) => RoundMeasure(s, w);
    case Execute(w) => ExecuteMeasure(s, w);
    case Finish(w) => FinishMeasure(s, w);
    case Shutdown =>
    case Join =>
    case SpuriousWorker(w) => SpuriousMeasure(s, step);
    case SpuriousCaller => SpuriousMeasure(s, step);
  }

  /** With a worker, neither a batch nor the destructor is ever stuck, even after the generation wraps. */
  lemma NeverStuck(s: System) returns (step: Step)
    requires Inv(s) && |s.workers| > 0
    requires InRun(s.caller) || s.caller.Stopping? || s.caller.Joining?
    ensures Owed(step) && Enabled(s, step)
  {
    if s.caller.Publishing? || s.caller.Stopping? {
      return Notify;
    }
    if s.caller.Checking? {
      return CallerCheck;
    }
    if w :| 0 <= w < |s.workers| && Busy(s.workers[w]) {
      return if s.workers[w].Claimed? then Execute(w) else Finish(w);
    }
    CountBusyZero(s.workers);
    if s.caller.Joining? {
      if w :| 0 <= w < |s.workers| && !s.workers[w].Exited? {
        return Round(w);
      }
      return Join;
    }
    var w :| Prompt(s, w);
    return Round(w);
  }

  function CountOwed(steps: seq<Step>): nat {
    if steps == [] then 0 else (if Owed(steps[0]) then 1 else 0) + CountOwed(steps[1..])
  }

  ghost predicate NoNewRequests(steps: seq<Step>) {
    forall i :: 0 <= i < |steps| ==> !steps[i].Run? && !steps[i].Shutdown?
  }

  lemma {:induction false} OwedBounded(s: System, steps: seq<Step>, s': System)
    requires Inv(s) && Leads(s, steps, s') && NoNewRequests(steps)
    ensures CountOwed(steps) <= Measure(s) + (|steps| - CountOwed(steps))
    decreases |steps|
  {
    if steps != [] {
      StepInv(s, steps[0]);
      StepMeasure(s, steps[0]);
      OwedBounded(Next(s, steps[0]), steps[1..], s');
    }
  }

  /** No step changes how many workers there are. */
  lemma {:induction false} WorkersFixed(s: System, steps: seq<Step>, s': System)
    requires Leads(s, steps, s')
    ensures |s'.workers| == |s.workers|
    decreases |steps|
  {
    if steps != [] {
      WorkersFixed(Next(s, steps[0]), steps[1..], s');
    }
  }

  /**
   Once a batch (or the destructor) has begun, every schedule takes at most
   Measure(s) owed steps plus one for each spurious wake-up, and with at least
   one worker it can only run out of owed steps by returning.
   */
  lemma EveryScheduleFinishes(workerCount: nat, past: seq<Step>, s: System, steps: seq<Step>, s': System)
    requires Leads(Init(workerCount), past, s) && Leads(s, steps, s') && NoNewRequests(steps)
    ensures CountOwed(steps) <= Measure(s) + (|steps| - CountOwed(steps))
    ensures workerCount > 0 && (forall step :: Owed(step) ==> !Enabled(s', step)) ==>
      s'.caller.Idle? || s'.caller.Joined?
  {
    InitInv(workerCount);
    LeadsInv(Init(workerCount), past, s);
    LeadsInv(s, steps, s');
    OwedBounded(s, steps, s');
    WorkersFixed(Init(workerCount), past, s);
    WorkersFixed(s, steps, s');
    if workerCount > 0 && !s'.caller.Idle? && !s'.caller.Joined? {
      var step := NeverStuck(s');
    }
  }

  /** Without workers the condition fails: a batch that was opened is never finished. */
  lemma {:induction false} WithoutWorkersRunNeverReturns(s: System, steps: seq<Step>, s': System)
    requires s.workers == [] && InRun(s.caller) && s.shared.remaining != 0
    requires Leads(s, steps, s')
    ensures InRun(s'.caller) && s'.shared == s.shared
    decreases |steps|
  {
    if steps != [] {
      WithoutWorkersRunNeverReturns(Next(s, steps[0]), steps[1..], s');
    }
  }
}
