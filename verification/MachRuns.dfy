/**
 Whole runs of the Mach operations: membership and links stay inverse, link
 sequences rise, and the generation tells whether a receive source that was
 found empty is still empty.
 */
module MachRuns {
  import opened MachPortSets

  datatype Operation =
    | Create(setObject: Object)
    | Insert(setObject: Object, member: Object)
    | Extract(setObject: Object, member: Object)
    | Withdraw(member: Object)
    | Dissolve(setObject: Object)
    | Remove(port: Object)
    | Send(port: Object, message: Message)
    | LookUp(port: Object)
    | Take(port: Object)
    | Discard(port: Object)
    | Wait

  function Apply(s: State, op: Operation): State {
    match op
    case Create(setObject) => CreateSet(s, setObject).0
    case Insert(setObject, member) => InsertMember(s, setObject, member).0
    case Extract(setObject, member) => ExtractMember(s, setObject, member).0
    case Withdraw(member) => RemoveFromAll(s, member).0
    case Dissolve(setObject) => EraseSet(s, setObject).0
    case Remove(port) => RemovePort(s, port)
    case Send(port, message) => Enqueue(s, port, message)
    case LookUp(port) => Touch(s, port)
    case Take(port) => PopFront(s, port)
    case Discard(port) => EraseQueue(s, port)
    case Wait => s.(nextSequence := Allocate(s.nextSequence).1)
  }

  /** The wait-queue sequences an operation hands out. */
  function Allocations(s: State, op: Operation): nat {
    match op
    case Insert(setObject, member) => if InsertMember(s, setObject, member).1 then 1 else 0
    case Wait => 1
    case _ => 0
  }

  /** The times an operation advances the generation. */
  function Advances(s: State, op: Operation): nat {
    match op
    case Insert(setObject, member) => if InsertMember(s, setObject, member).1 then 1 else 0
    case Extract(setObject, member) => if ExtractMember(s, setObject, member).1 then 1 else 0
    case Withdraw(member) => if RemoveFromAll(s, member).1 then 1 else 0
    case Dissolve(setObject) => if EraseSet(s, setObject).1 then 1 else 0
    case Remove(port) => (if port in s.links then 1 else 0) + (if port in s.portSets then 1 else 0)
    case Send(port, message) => 1
    case _ => 0
  }

  function Run(s: State, ops: seq<Operation>): State
    decreases |ops|
  {
    if ops == [] then s else Run(Apply(s, ops[0]), ops[1..])
  }

  function AllAllocations(s: State, ops: seq<Operation>): nat
    decreases |ops|
  {
    if ops == [] then 0 else Allocations(s, ops[0]) + AllAllocations(Apply(s, ops[0]), ops[1..])
  }

  function AllAdvances(s: State, ops: seq<Operation>): nat
    decreases |ops|
  {
    if ops == [] then 0 else Advances(s, ops[0]) + AllAdvances(Apply(s, ops[0]), ops[1..])
  }

  // ---------- Membership and links ----------

  lemma StepKeepsInverse(s: State, op: Operation)
    requires Inverse(s)
    ensures Inverse(Apply(s, op))
  {
    hide Inverse, CreateSet, InsertMember, ExtractMember, RemoveFromAll, EraseSet;
    match op
    case Create(setObject) => CreateKeepsInverse(s, setObject);
    case Insert(setObject, member) => InsertKeepsInverse(s, setObject, member);
    case Extract(setObject, member) => ExtractKeepsInverse(s, setObject, member);
    case Withdraw(member) => RemoveFromAllKeepsInverse(s, member);
    case Dissolve(setObject) => EraseSetKeepsInverse(s, setObject);
    case Remove(port) =>
      RemoveFromAllKeepsInverse(s, port);
      EraseSetKeepsInverse(RemoveFromAll(s, port).0, port);
      SameTopology(EraseSet(RemoveFromAll(s, port).0, port).0, RemovePort(s, port));
    case _ => SameTopology(s, Apply(s, op));
  }

  lemma SameTopology(s: State, t: State)
    requires Inverse(s) && t.portSets == s.portSets && t.links == s.links
    ensures Inverse(t)
  {
    forall a, b
      ensures Memberships(t, a, b) == LinkCount(t, a, b) <= 1
    {
      assert Memberships(s, a, b) == LinkCount(s, a, b) <= 1;
    }
  }

  /**
   In every reachable state a port is in a set exactly once if it has exactly
   one link to that set, and not at all otherwise; no link list is empty.
   */
  lemma {:induction false} EveryRunIsInverse(s: State, ops: seq<Operation>)
    requires Inverse(s)
    ensures Inverse(Run(s, ops))
    decreases |ops|
  {
    hide Inverse, Apply;
    if ops != [] {
      StepKeepsInverse(s, ops[0]);
      EveryRunIsInverse(Apply(s, ops[0]), ops[1..]);
    }
  }

  // ---------- Link sequences ----------

  /** Sequences rise strictly, from above zero to below a bound. */
  ghost predicate Rising(links: seq<Link>, bound: nat) {
    && (forall i | 0 <= i < |links| :: 0 < links[i].sequence < bound)
    && (forall i, j | 0 <= i < j < |links| :: links[i].sequence < links[j].sequence)
  }

  ghost predicate AllRise(links: map<Object, seq<Link>>, bound: nat) {
    forall member | member in links :: Rising(links[member], bound)
  }

  /** After a number of allocations short of wrapping, the counter and all links agree with it. */
  ghost predicate Ordered(s: State, handedOut: nat) {
    && s.nextSequence == Next(handedOut)
    && AllRise(s.links, handedOut + 1)
  }

  lemma RisingTail(links: seq<Link>, bound: nat)
    requires links != [] && Rising(links, bound)
    ensures Rising(links[1..], bound) && 0 < links[0].sequence < bound
    ensures forall link | link in links[1..] :: links[0].sequence < link.sequence
  {
    var rest := links[1..];
    assert forall i | 0 <= i < |rest| :: rest[i] == links[i + 1];
  }

  lemma RisingCons(first: Link, rest: seq<Link>, bound: nat)
    requires Rising(rest, bound) && 0 < first.sequence < bound
    requires forall link | link in rest :: first.sequence < link.sequence
    ensures Rising([first] + rest, bound)
  {}

  lemma {:induction false} UnlinkedKeepsOnly(links: seq<Link>, gone: Object)
    ensures forall link | link in Unlinked(links, gone) :: link in links
  {
    if links != [] {
      UnlinkedKeepsOnly(links[1..], gone);
      assert links == [links[0]] + links[1..];
    }
  }

  lemma {:induction false} UnlinkedRises(links: seq<Link>, gone: Object, bound: nat)
    requires Rising(links, bound)
    ensures Rising(Unlinked(links, gone), bound)
  {
    hide Rising;
    if links != [] {
      var rest := Unlinked(links[1..], gone);
      RisingTail(links, bound);
      UnlinkedRises(links[1..], gone, bound);
      UnlinkedKeepsOnly(links[1..], gone);
      RisingCons(links[0], rest, bound);
      assert [] + rest == rest;
    }
  }

  lemma RelinkedRises(links: map<Object, seq<Link>>, gone: Object, dissolved: Object, bound: nat)
    requires AllRise(links, bound)
    ensures AllRise(Relinked(links, gone, dissolved), bound)
  {
    hide Rising;
    if gone in links {
      UnlinkedRises(links[gone], dissolved, bound);
    }
  }

  lemma {:induction false} DissolvedRises(
      links: map<Object, seq<Link>>, members: seq<Object>, dissolved: Object, bound: nat)
    requires AllRise(links, bound)
    ensures AllRise(Dissolved(links, members, dissolved), bound)
    decreases |members|
  {
    hide AllRise, Relinked;
    if members != [] {
      RelinkedRises(links, members[0], dissolved, bound);
      DissolvedRises(Relinked(links, members[0], dissolved), members[1..], dissolved, bound);
    }
  }

  lemma Grown(links: map<Object, seq<Link>>, bound: nat)
    requires AllRise(links, bound)
    ensures AllRise(links, bound + 1)
  {}

  lemma InsertKeepsOrder(s: State, setObject: Object, member: Object, handedOut: nat)
    requires Ordered(s, handedOut) && InsertMember(s, setObject, member).1 && handedOut + 1 < WIDTH
    ensures Ordered(InsertMember(s, setObject, member).0, handedOut + 1)
  {
    Grown(s.links, handedOut + 1);
  }

  lemma ExtractKeepsOrder(s: State, setObject: Object, member: Object, handedOut: nat)
    requires Ordered(s, handedOut)
    ensures Ordered(ExtractMember(s, setObject, member).0, handedOut)
  {
    hide AllRise, Relinked;
    RelinkedRises(s.links, member, setObject, handedOut + 1);
  }

  lemma WithdrawKeepsOrder(s: State, member: Object, handedOut: nat)
    requires Ordered(s, handedOut)
    ensures Ordered(RemoveFromAll(s, member).0, handedOut)
  {
    hide Rising, Withdrawn;
  }

  lemma DissolveKeepsOrder(s: State, setObject: Object, handedOut: nat)
    requires Ordered(s, handedOut)
    ensures Ordered(EraseSet(s, setObject).0, handedOut)
  {
    hide AllRise, Dissolved;
    if setObject in s.portSets {
      DissolvedRises(s.links, s.portSets[setObject], setObject, handedOut + 1);
    }
  }

  lemma StepKeepsOrder(s: State, op: Operation, handedOut: nat)
    requires Ordered(s, handedOut) && handedOut + Allocations(s, op) < WIDTH
    ensures Ordered(Apply(s, op), handedOut + Allocations(s, op))
  {
    hide AllRise, InsertMember, ExtractMember, RemoveFromAll, EraseSet;
    match op
    case Insert(setObject, member) =>
      if InsertMember(s, setObject, member).1 {
        InsertKeepsOrder(s, setObject, member, handedOut);
      } else {
        RefusedInsert(s, setObject, member);
      }
    case Extract(setObject, member) => ExtractKeepsOrder(s, setObject, member, handedOut);
    case Withdraw(member) => WithdrawKeepsOrder(s, member, handedOut);
    case Dissolve(setObject) => DissolveKeepsOrder(s, setObject, handedOut);
    case Remove(port) =>
      WithdrawKeepsOrder(s, port, handedOut);
      DissolveKeepsOrder(RemoveFromAll(s, port).0, port, handedOut);
    case Wait => Grown(s.links, handedOut + 1);
    case _ =>
  }

  lemma RefusedInsert(s: State, setObject: Object, member: Object)
    requires !InsertMember(s, setObject, member).1
    ensures InsertMember(s, setObject, member).0 == s
  {}

  /** Short of counter wrap, every member's link sequences are non-zero and rise in insertion order. */
  lemma {:induction false} EveryRunIsOrdered(s: State, ops: seq<Operation>, handedOut: nat)
    requires Ordered(s, handedOut) && handedOut + AllAllocations(s, ops) < WIDTH
    ensures Ordered(Run(s, ops), handedOut + AllAllocations(s, ops))
    decreases |ops|
  {
    hide Ordered, Apply, Allocations;
    if ops != [] {
      StepKeepsOrder(s, ops[0], handedOut);
      EveryRunIsOrdered(Apply(s, ops[0]), ops[1..], handedOut + Allocations(s, ops[0]));
    }
  }

  /** The n-th sequence handed out, counting from one. */
  function Nth(n: nat): nat
    requires n > 0
  {
    Allocate(Counter(n - 1)).0
  }

  /** The counter after a number of allocations. */
  function Counter(n: nat): nat {
    if n == 0 then 1 else Allocate(Counter(n - 1)).1
  }

  /** The counter after k allocations, without recursion. */
  function Cycled(k: nat): nat {
    if k > 0 && k % (WIDTH - 1) == 0 then 0 else k % (WIDTH - 1) + 1
  }

  lemma AllocationCycles(k: nat)
    ensures Allocate(Cycled(k)) == (k % (WIDTH - 1) + 1, Cycled(k + 1))
  {
    Cycle(k);
  }

  lemma Cycle(k: nat)
    ensures (k + 1) % (WIDTH - 1) == if k % (WIDTH - 1) == WIDTH - 2 then 0 else k % (WIDTH - 1) + 1
  {}

  lemma {:induction false} CounterCycles(n: nat)
    ensures Counter(n) == Cycled(n)
  {
    hide Cycled, Allocate;
    if n > 0 {
      CounterCycles(n - 1);
      AllocationCycles(n - 1);
    } else {
      CycleStarts();
    }
  }

  lemma CycleStarts()
    ensures Cycled(0) == 1
  {}

  /** Sequences repeat with period 2^64 - 1 and are never zero. */
  lemma SequencesInClosedForm(n: nat)
    requires n > 0
    ensures Nth(n) == (n - 1) % (WIDTH - 1) + 1
  {
    hide Cycled, Allocate, Counter;
    CounterCycles(n - 1);
    AllocationCycles(n - 1);
  }

  /** Two allocations get the same sequence exactly when a multiple of that period lies between them. */
  lemma SequencesCollideExactly(a: nat, b: nat)
    requires 0 < a <= b
    ensures Nth(a) == Nth(b) <==> (b - a) % (WIDTH - 1) == 0
  {
    hide Nth;
    SequencesInClosedForm(a);
    SequencesInClosedForm(b);
    SameRemainder(a - 1, b - 1);
  }

  lemma SameRemainder(a: nat, b: nat)
    requires a <= b
    ensures a % (WIDTH - 1) == b % (WIDTH - 1) <==> (b - a) % (WIDTH - 1) == 0
  {}

  // ---------- The generation ----------

  /** A message is queued on a port itself, or on a member of the set. */
  predicate Visible(s: State, source: Object) {
    QueueOf(s, source) != []
    || (source in s.portSets && exists i | 0 <= i < |s.portSets[source]| :: QueueOf(s, s.portSets[source][i]) != [])
  }

  lemma StepAdvances(s: State, op: Operation)
    requires s.generation < WIDTH
    ensures Apply(s, op).generation == (s.generation + Advances(s, op)) % WIDTH
  {
    if op.Remove? {
      assert op.port in RemoveFromAll(s, op.port).0.portSets <==> op.port in s.portSets by {
        if op.port in s.links {
          WithdrawnKeys(s.portSets, s.links[op.port], op.port);
        }
      }
    }
  }

  lemma {:induction false} WithdrawnKeys(portSets: map<Object, seq<Object>>, links: seq<Link>, member: Object)
    ensures Withdrawn(portSets, links, member).Keys == portSets.Keys
    decreases |links|
  {
    if links != [] {
      var setObject := links[0].setObject;
      var rest := if setObject in portSets then portSets[setObject := Erased(portSets[setObject], member)]
                  else portSets;
      WithdrawnKeys(rest, links[1..], member);
    }
  }

  lemma {:induction false} RunAdvances(s: State, ops: seq<Operation>)
    requires s.generation < WIDTH
    ensures Run(s, ops).generation == (s.generation + AllAdvances(s, ops)) % WIDTH
    decreases |ops|
  {
    hide Apply, Advances;
    if ops != [] {
      StepAdvances(s, ops[0]);
      RunAdvances(Apply(s, ops[0]), ops[1..]);
    }
  }

  /** What leaves the generation alone makes nothing visible. */
  lemma QuietStepHidesNothingNew(s: State, op: Operation, source: Object)
    requires Advances(s, op) == 0 && !Visible(s, source)
    ensures !Visible(Apply(s, op), source)
  {
    var t := Apply(s, op);
    if source in s.portSets {
      forall i | 0 <= i < |s.portSets[source]|
        ensures QueueOf(t, s.portSets[source][i]) == []
      {
        assert QueueOf(s, s.portSets[source][i]) == [];
      }
    }
  }

  lemma {:induction false} QuietRunHidesNothingNew(s: State, ops: seq<Operation>, source: Object)
    requires AllAdvances(s, ops) == 0 && !Visible(s, source)
    ensures !Visible(Run(s, ops), source)
    decreases |ops|
  {
    hide Apply, Advances, Visible;
    if ops != [] {
      QuietStepHidesNothingNew(s, ops[0], source);
      QuietRunHidesNothingNew(Apply(s, ops[0]), ops[1..], source);
    }
  }

  /** Short of a full turn, a source found empty under the present generation is still empty. */
  lemma ShortOfATurnEmptyMeansEmpty(s: State, ops: seq<Operation>, source: Object)
    requires s.generation < WIDTH && !Visible(s, source)
    requires AllAdvances(s, ops) == 0 || AllAdvances(s, ops) % WIDTH != 0
    requires Run(s, ops).generation == s.generation
    ensures !Visible(Run(s, ops), source)
  {
    RunAdvances(s, ops);
    OnlyFullTurns(s.generation, AllAdvances(s, ops));
    QuietRunHidesNothingNew(s, ops, source);
  }

  lemma OnlyFullTurns(generation: nat, advances: nat)
    requires generation < WIDTH && (generation + advances) % WIDTH == generation
    ensures advances % WIDTH == 0
  {}

  lemma {:induction false} Sends(s: State, port: Object, message: Message, n: nat)
    requires s.generation < WIDTH
    ensures var ops := seq(n, i => Send(port, message));
            && AllAdvances(s, ops) == n
            && Run(s, ops).generation == (s.generation + n) % WIDTH
            && |QueueOf(Run(s, ops), port)| == |QueueOf(s, port)| + n
    decreases n
  {
    var ops := seq(n, i => Send(port, message));
    if n > 0 {
      var t := Apply(s, ops[0]);
      assert ops[1..] == seq(n - 1, i => Send(port, message));
      Sends(t, port, message, n - 1);
    }
    RunAdvances(s, ops);
  }

  /** Whole turns of sends leave the generation where it was and the port full. */
  lemma FullTurnsOfSends(port: Object, message: Message, n: nat)
    requires n > 0 && n % WIDTH == 0
    ensures var ops := seq(n, i => Send(port, message));
            && !Visible(INITIAL, port)
            && AllAdvances(INITIAL, ops) == n
            && Run(INITIAL, ops).generation == INITIAL.generation
            && Visible(Run(INITIAL, ops), port)
  {
    hide Run, AllAdvances;
    Sends(INITIAL, port, message, n);
    WholeTurns(INITIAL.generation, n);
  }

  lemma WholeTurns(generation: nat, n: nat)
    requires generation < WIDTH && n % WIDTH == 0
    ensures (generation + n) % WIDTH == generation
  {}

  /** The source was empty, the generation is what it was then, and yet a message is visible. */
  predicate Misled(s: State, ops: seq<Operation>, source: Object) {
    && s.generation < WIDTH && !Visible(s, source)
    && Run(s, ops).generation == s.generation && Visible(Run(s, ops), source)
  }

  /**
   An unchanged generation proves that a source found empty is still empty,
   whatever happened in between, exactly when the number of advances is zero or
   no multiple of 2^64.
   */
  lemma UnchangedGenerationExactly(n: nat)
    ensures (forall s: State, ops: seq<Operation>, source: Object | AllAdvances(s, ops) == n :: !Misled(s, ops, source))
            <==> n == 0 || n % WIDTH != 0
  {
    hide Run, AllAdvances, Visible;
    if n == 0 || n % WIDTH != 0 {
      forall s: State, ops: seq<Operation>, source: Object | AllAdvances(s, ops) == n
        ensures !Misled(s, ops, source)
      {
        if Misled(s, ops, source) {
          ShortOfATurnEmptyMeansEmpty(s, ops, source);
        }
      }
    } else {
      FullTurnsOfSends(0, 0, n);
      assert Misled(INITIAL, seq(n, i => Send(0, 0)), 0);
    }
  }
}
