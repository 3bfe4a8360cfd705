/**
 The mutex-protected part of RuntimeReaper, one member for each region of code
 that runs while the mutex is held.
 */
module RuntimeReaperRegions {
  import opened Wrappers

  /** What boot hands over: a Runtime, or the execution pool of one. */
  datatype Resource = Runtime(id: nat) | ExecutionPool(id: nat)

  datatype Queue = Queue(pending: seq<Resource>, active: bool, stopping: bool, joined: bool)

  /** What the worker does when it next gives up the mutex. */
  datatype Outcome = Destroy(resource: Resource) | Sleep | Exit

  function Push(q: Queue, resource: Resource): Option<Queue> {
    if q.stopping then None else Some(q.(pending := q.pending + [resource]))
  }

  function Take(q: Queue): (Queue, Outcome) {
    if q.pending != [] then
      (q.(pending := q.pending[1..], active := true), Destroy(q.pending[0]))
    else if q.stopping then (q, Exit)
    else (q, Sleep)
  }

  function Report(q: Queue): (Queue, Outcome) {
    Take(q.(active := false))
  }

  predicate Drained(q: Queue) {
    q.pending == [] && !q.active
  }

  class RuntimeReaper {
    var pending: seq<Resource>
    var active: bool
    var stopping: bool
    var joined: bool

    function View(): Queue
      reads this
    {
      Queue(pending, active, stopping, joined)
    }

    constructor ()
      ensures View() == Queue([], false, false, false)
    {
      pending, active, stopping, joined := [], false, false, false;
    }

    /** retire_resource; false is the logic_error thrown once stopping. */
    method Retire(resource: Resource) returns (accepted: bool)
      modifies this
      ensures accepted == Push(old(View()), resource).Some?
      ensures accepted <==> !old(stopping)
      ensures accepted ==> pending == old(pending) + [resource]
      ensures View() == if accepted then Push(old(View()), resource).value else old(View())
    {
      if stopping {
        return false;
      }
      pending := pending + [resource];
      return true;
    }

    /** worker_loop from the moment it holds the mutex until it releases it. */
    method WorkerTake() returns (outcome: Outcome)
      modifies this
      ensures (View(), outcome) == Take(old(View()))
    {
      if pending == [] {
        return if stopping then Exit else Sleep;
      }
      outcome := Destroy(pending[0]);
      pending := pending[1..];
      active := true;
    }

    /** worker_loop after the destructor has run; it also notifies idle_. */
    method WorkerReport() returns (outcome: Outcome)
      modifies this
      ensures (View(), outcome) == Report(old(View()))
    {
      active := false;
      outcome := WorkerTake();
    }

    /** The first locked region of finish; false when an earlier call has joined already. */
    method BeginFinish() returns (proceed: bool)
      modifies this
      ensures proceed == !old(joined)
      ensures View() == if proceed then old(View()).(stopping := true) else old(View())
    {
      if joined {
        return false;
      }
      stopping := true;
      return true;
    }

    method MarkJoined()
      modifies this
      ensures View() == old(View()).(joined := true)
    {
      joined := true;
    }
  }
}

/**
 Every interleaving of the worker, any number of retiring calls and finish.
 `owed` counts retire calls that have pushed but not yet notified.
 */
module RuntimeReaperSchedule {
  import opened Wrappers
  import opened RuntimeReaperRegions

  datatype Worker = Ready | Waiting | Destroying(resource: Resource) | Destroyed | Exited

  datatype Finisher = Outside | Signalling | Checking | Blocked | Joining | Marking

  datatype System = System(
    queue: Queue,
    worker: Worker,
    finisher: Finisher,
    owed: nat,
    retired: seq<Resource>,    // accepted by retire, in order
    destroyed: seq<Resource>)  // destructor has run, in order

  datatype Step =
    | Retire(resource: Resource)
    | NotifyRetired
    | WorkerTake
    | WorkerDestroy
    | WorkerReport
    | SpuriousWorker
    | BeginFinish
    | SignalStop
    | TestIdle
    | SpuriousFinisher
    | JoinWorker
    | MarkJoined

  const INITIAL := System(Queue([], false, false, false), Ready, Outside, 0, [], [])

  predicate Enabled(s: System, step: Step) {
    match step
    case Retire(_) => true
    case NotifyRetired => s.owed > 0
    case WorkerTake => s.worker.Ready?
    case WorkerDestroy => s.worker.Destroying?
    case WorkerReport => s.worker.Destroyed?
    case SpuriousWorker => s.worker.Waiting?
    case BeginFinish => s.finisher.Outside?
    case SignalStop => s.finisher.Signalling?
    case TestIdle => s.finisher.Checking?
    case SpuriousFinisher => s.finisher.Blocked?
    case JoinWorker => s.finisher.Joining? && s.worker.Exited?
    case MarkJoined => s.finisher.Marking?
  }

  function AfterOutcome(outcome: Outcome): Worker {
    match outcome
    case Destroy(resource) => Destroying(resource)
    case Sleep => Waiting
    case Exit => Exited
  }

  function Woken(worker: Worker): Worker {
    if worker.Waiting? then Ready else worker
  }

  function Next(s: System, step: Step): System
    requires Enabled(s, step)
  {
    match step
    case Retire(resource) =>
      (match Push(s.queue, resource)
       case None => s
       case Some(queue) => s.(queue := queue, owed := s.owed + 1, retired := s.retired + [resource]))
    case NotifyRetired => s.(owed := s.owed - 1, worker := Woken(s.worker))
    case WorkerTake =>
      var (queue, outcome) := Take(s.queue);
      s.(queue := queue, worker := AfterOutcome(outcome),
         finisher := if outcome.Exit? && s.finisher.Blocked? then Checking else s.finisher)
    case WorkerDestroy => s.(worker := Destroyed, destroyed := s.destroyed + [s.worker.resource])
    case WorkerReport =>
      var (queue, outcome) := Report(s.queue);
      s.(queue := queue, worker := AfterOutcome(outcome),
         finisher := if s.finisher.Blocked? then Checking else s.finisher)
    case SpuriousWorker => s.(worker := Ready)
    case BeginFinish =>
      if s.queue.joined then s else s.(queue := s.queue.(stopping := true), finisher := Signalling)
    case SignalStop => s.(finisher := Checking, worker := Woken(s.worker))
    case TestIdle => s.(finisher := if Drained(s.queue) then Joining else Blocked)
    case SpuriousFinisher => s.(finisher := Checking)
    case JoinWorker => s.(finisher := Marking)
    case MarkJoined => s.(finisher := Outside, queue := s.queue.(joined := true))
  }

  function InHand(worker: Worker): seq<Resource> {
    if worker.Destroying? then [worker.resource] else []
  }

  ghost predicate Inv(s: System) {
    && s.retired == s.destroyed + InHand(s.worker) + s.queue.pending
    && (s.queue.active <==> s.worker.Destroying? || s.worker.Destroyed?)
    && (s.worker.Waiting? ==>
          s.owed > 0 || s.finisher.Signalling? || (s.queue.pending == [] && !s.queue.stopping))
    && (s.worker.Exited? ==> s.queue.pending == [] && s.queue.stopping)
    && (s.finisher.Blocked? ==> !Drained(s.queue))
    && (s.finisher.Joining? || s.finisher.Marking? || s.queue.joined ==> Drained(s.queue))
    && (s.finisher.Marking? || s.queue.joined ==> s.worker.Exited?)
    && (s.queue.stopping <==> !s.finisher.Outside? || s.queue.joined)
    && (s.queue.joined ==> s.finisher.Outside?)
  }

  lemma StepInv(s: System, step: Step)
    requires Inv(s) && Enabled(s, step)
    ensures Inv(Next(s, step))
  {
  }

  ghost predicate Leads(s: System, steps: seq<Step>, s': System)
    decreases |steps|
  {
    if steps == [] then s == s'
    else Enabled(s, steps[0]) && Leads(Next(s, steps[0]), steps[1..], s')
  }

  lemma {:induction false} LeadsInv(s: System, steps: seq<Step>, s': System)
    requires Inv(s) && Leads(s, steps, s')
    ensures Inv(s')
    decreases |steps|
  {
    if steps != [] {
      StepInv(s, steps[0]);
      LeadsInv(Next(s, steps[0]), steps[1..], s');
    }
  }

  /**
   Nothing accepted is lost, duplicated or reordered in any interleaving, and
   once finish has returned everything accepted has been destroyed.
   */
  lemma EveryInterleavingConserves(steps: seq<Step>, s: System)
    requires Leads(INITIAL, steps, s)
    ensures s.retired == s.destroyed + InHand(s.worker) + s.queue.pending
    ensures s.queue.joined ==> s.destroyed == s.retired
  {
    LeadsInv(INITIAL, steps, s);
  }

  // ----------------------------------------------------------------- progress

  predicate Owed(step: Step) {
    !step.Retire? && !step.BeginFinish? && !step.SpuriousWorker? && !step.SpuriousFinisher?
  }

  function Measure(s: System): nat {
    var finisher := match s.finisher
      case Outside => 0
      case Signalling => 5
      case Checking => 3
      case Blocked => 2
      case Joining => 2
      case Marking => 1;
    var worker := match s.worker
      case Ready => 1
      case Waiting => 0
      case Destroying(_) => 4
      case Destroyed => 3
      case Exited => 0;
    finisher + worker + 5 * |s.queue.pending| + 2 * s.owed
  }

  lemma StepMeasure(s: System, step: Step)
    requires Inv(s) && Enabled(s, step) && !step.Retire? && !step.BeginFinish?
    ensures if Owed(step) then Measure(Next(s, step)) < Measure(s)
            else Measure(Next(s, step)) == Measure(s) + 1
  {
  }

  /** A finish that has begun is never stuck. */
  lemma NeverStuck(s: System) returns (step: Step)
    requires Inv(s) && !s.finisher.Outside?
    ensures Owed(step) && Enabled(s, step)
  {
    step := if s.finisher.Signalling? then SignalStop
            else if s.finisher.Checking? then TestIdle
            else if s.finisher.Marking? then MarkJoined
            else if s.owed > 0 then NotifyRetired
            else if s.worker.Ready? then WorkerTake
            else if s.worker.Destroying? then WorkerDestroy
            else if s.worker.Destroyed? then WorkerReport
            else JoinWorker;
  }

  function CountOwed(steps: seq<Step>): nat {
    if steps == [] then 0 else (if Owed(steps[0]) then 1 else 0) + CountOwed(steps[1..])
  }

  function CountSpurious(steps: seq<Step>): nat {
    if steps == [] then 0
    else (if steps[0].SpuriousWorker? || steps[0].SpuriousFinisher? then 1 else 0) + CountSpurious(steps[1..])
  }

  /**
   Once finish has begun, whatever is retired, finished or spuriously woken
   afterwards, any schedule takes at most Measure(s) owed steps plus one per
   spurious wake-up, and it runs out of owed steps only when finish has returned
   and everything accepted has been destroyed.
   */
  lemma {:induction false} FinishTerminates(s: System, steps: seq<Step>, s': System)
    requires Inv(s) && s.queue.stopping && Leads(s, steps, s')
    ensures CountOwed(steps) <= Measure(s) + CountSpurious(steps)
    ensures (forall step :: Owed(step) ==> !Enabled(s', step)) ==> s'.queue.joined && s'.destroyed == s'.retired
    decreases |steps|
  {
    if steps == [] {
      if !s.finisher.Outside? {
        var step := NeverStuck(s);
      }
    } else {
      StepInv(s, steps[0]);
      var next := Next(s, steps[0]);
      if steps[0].Retire? || steps[0].BeginFinish? {
        assert next == s;  // refused, or a finish after the one that joined
      } else {
        StepMeasure(s, steps[0]);
      }
      FinishTerminates(next, steps[1..], s');
    }
  }
}

/**
 The part of the boot loop that decides what is retired.  `live` maps each
 Runtime to whether its CpuCluster still has its execution pool.
 */
module RuntimeRetirement {
  import opened RuntimeReaperRegions
  import Schedule = RuntimeReaperSchedule

  datatype Boot = Boot(live: map<nat, bool>, created: set<nat>, retired: seq<Resource>)

  datatype Action =
    | Create(id: nat)
    | Reclaim(id: nat)      // an exited Runtime's pool, after the grace period
    | Collect(id: nat)      // an exited Runtime whose pool is gone
    | CollectAtEnd(id: nat) // every remaining Runtime, pool or not

  predicate Allowed(b: Boot, action: Action) {
    match action
    case Create(id) => id !in b.created
    case Reclaim(id) => id in b.live && b.live[id]
    case Collect(id) => id in b.live && !b.live[id]
    case CollectAtEnd(id) => id in b.live
  }

  function Act(b: Boot, action: Action): Boot
    requires Allowed(b, action)
  {
    match action
    case Create(id) => b.(live := b.live[id := true], created := b.created + {id})
    case Reclaim(id) => b.(live := b.live[id := false], retired := b.retired + [ExecutionPool(id)])
    case Collect(id) => b.(live := b.live - {id}, retired := b.retired + [Runtime(id)])
    case CollectAtEnd(id) => b.(live := b.live - {id}, retired := b.retired + [Runtime(id)])
  }

  ghost predicate Performs(b: Boot, actions: seq<Action>, b': Boot)
    decreases |actions|
  {
    if actions == [] then b == b'
    else Allowed(b, actions[0]) && Performs(Act(b, actions[0]), actions[1..], b')
  }

  ghost predicate Ordered(resources: seq<Resource>) {
    forall i, j | 0 <= i < |resources| && 0 <= j < |resources| ::
      resources[i].ExecutionPool? && resources[j].Runtime? && resources[i].id == resources[j].id ==> i < j
  }

  ghost predicate Inv(b: Boot) {
    && Ordered(b.retired)
    && b.live.Keys <= b.created
    && forall k :: 0 <= k < |b.retired| ==>
         b.retired[k].id in b.created && (b.retired[k].Runtime? ==> b.retired[k].id !in b.live)
  }

  function Count(resources: seq<Resource>, resource: Resource): nat {
    multiset(resources)[resource]
  }

  /** Every Runtime created is live or has been retired once, and so has its pool. */
  ghost predicate Accounted(b: Boot) {
    && b.live.Keys <= b.created
    && forall id: nat ::
         && Count(b.retired, Runtime(id)) == (if id in b.created && id !in b.live then 1 else 0)
         && Count(b.retired, ExecutionPool(id)) <= (if id in b.created then 1 else 0)
         && (id in b.live ==> Count(b.retired, ExecutionPool(id)) == if b.live[id] then 0 else 1)
  }

  lemma CountOneMore(resources: seq<Resource>, last: Resource, resource: Resource)
    ensures Count(resources + [last], resource) == Count(resources, resource) + if last == resource then 1 else 0
  {}

  lemma ActAccounts(b: Boot, action: Action)
    requires Accounted(b) && Allowed(b, action)
    ensures Accounted(Act(b, action))
  {
    var b' := Act(b, action);
    hide Count;
    forall id: nat
      ensures Count(b'.retired, Runtime(id)) == (if id in b'.created && id !in b'.live then 1 else 0)
      ensures Count(b'.retired, ExecutionPool(id)) <= (if id in b'.created then 1 else 0)
      ensures id in b'.live ==> Count(b'.retired, ExecutionPool(id)) == if b'.live[id] then 0 else 1
    {
      if !action.Create? {
        var last := b'.retired[|b.retired|];
        CountOneMore(b.retired, last, Runtime(id));
        CountOneMore(b.retired, last, ExecutionPool(id));
      }
    }
  }

  lemma {:induction false} PerformsAccounts(b: Boot, actions: seq<Action>, b': Boot)
    requires Accounted(b) && Performs(b, actions, b')
    ensures Accounted(b')
    decreases |actions|
  {
    if actions != [] {
      ActAccounts(b, actions[0]);
      PerformsAccounts(Act(b, actions[0]), actions[1..], b');
    }
  }

  /**
   Every Runtime ever created is either live or has been retired exactly once, a
   pool at most once, and while the Runtime lives exactly when it has lost it. Once
   finish has returned, exactly what was retired has been destroyed.
   */
  lemma EveryRuntimeOnce(actions: seq<Action>, b: Boot, steps: seq<Schedule.Step>, s: Schedule.System, id: nat)
    requires Performs(Boot(map[], {}, []), actions, b)
    requires Schedule.Leads(Schedule.INITIAL, steps, s) && s.retired == b.retired
    ensures id in b.live ==> id in b.created
    ensures multiset(b.retired)[Runtime(id)] == if id in b.created && id !in b.live then 1 else 0
    ensures multiset(b.retired)[ExecutionPool(id)] <= 1
    ensures id in b.live ==> (multiset(b.retired)[ExecutionPool(id)] == 1 <==> !b.live[id])
    ensures multiset(s.destroyed)[Runtime(id)] <= multiset(b.retired)[Runtime(id)]
    ensures s.queue.joined ==> multiset(s.destroyed) == multiset(b.retired)
  {
    hide *;
    StartAccounted();
    PerformsAccounts(Boot(map[], {}, []), actions, b);
    AccountedFor(b, id);
    Schedule.EveryInterleavingConserves(steps, s);
    PrefixCounts(s.destroyed, Schedule.InHand(s.worker) + s.queue.pending, s.retired, Runtime(id));
  }

  lemma StartAccounted()
    ensures Accounted(Boot(map[], {}, []))
  {}

  lemma AccountedFor(b: Boot, id: nat)
    requires Accounted(b)
    ensures id in b.live ==> id in b.created
    ensures multiset(b.retired)[Runtime(id)] == if id in b.created && id !in b.live then 1 else 0
    ensures multiset(b.retired)[ExecutionPool(id)] <= 1
    ensures id in b.live ==> (multiset(b.retired)[ExecutionPool(id)] == 1 <==> !b.live[id])
  {
    assert Count(b.retired, Runtime(id)) == multiset(b.retired)[Runtime(id)];
    assert Count(b.retired, ExecutionPool(id)) == multiset(b.retired)[ExecutionPool(id)];
  }

  lemma PrefixCounts(front: seq<Resource>, rest: seq<Resource>, all: seq<Resource>, resource: Resource)
    requires all == front + rest
    ensures multiset(front)[resource] <= multiset(all)[resource]
  {}

  lemma {:induction false} PerformsInv(b: Boot, actions: seq<Action>, b': Boot)
    requires Inv(b) && Performs(b, actions, b')
    ensures Inv(b')
    decreases |actions|
  {
    if actions != [] {
      PerformsInv(Act(b, actions[0]), actions[1..], b');
    }
  }

  /**
   Whatever boot retires and however its reaper is scheduled, a reclaimed
   execution pool is destroyed before the Runtime that owned it.
   */
  lemma PoolsDieBeforeTheirRuntimes(actions: seq<Action>, b: Boot, steps: seq<Schedule.Step>, s: Schedule.System)
    requires Performs(Boot(map[], {}, []), actions, b)
    requires Schedule.Leads(Schedule.INITIAL, steps, s) && s.retired == b.retired
    ensures Ordered(s.destroyed)
    ensures forall id :: Runtime(id) in s.destroyed && ExecutionPool(id) in s.retired ==>
      ExecutionPool(id) in s.destroyed
  {
    PerformsInv(Boot(map[], {}, []), actions, b);
    Schedule.EveryInterleavingConserves(steps, s);
    assert s.destroyed <= s.retired;
  }
}
