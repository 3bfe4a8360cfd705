/**
 The receives a task has pending, one for each processor: which of them a
 message on a port belongs to, when polling one may be skipped, and why no
 queued message is left lying while someone waits for it.
 */
module MachReceive {
  import opened Wrappers
  import opened MachPortSets
  import opened MachRuns

  /** A pending receive on a port or port set. */
  datatype Pending = Pending(source: Object, observed: nat, sequence: nat)

  /** The processors' pending receives, in processor order, beside the shared state. */
  datatype World = World(shared: State, pending: seq<Option<Pending>>)

  // ---------- The preferred receiver ----------

  datatype Candidate = Candidate(portSequence: nat, receiverSequence: nat, processor: nat) {
    predicate Before(other: Candidate) {
      portSequence < other.portSequence
      || (portSequence == other.portSequence && receiverSequence < other.receiverSequence)
    }
  }

  function Consider(selected: Option<Candidate>, candidate: Candidate): Option<Candidate> {
    if selected.None? || candidate.Before(selected.value) then Some(candidate) else selected
  }

  predicate WaitsOn(pending: seq<Option<Pending>>, processor: nat, source: Object) {
    processor < |pending| && pending[processor].Some? && pending[processor].value.source == source
  }

  /** The direct waiters on a port, up to a processor. */
  function Direct(pending: seq<Option<Pending>>, port: Object, count: nat): Option<Candidate>
    requires count <= |pending|
  {
    if count == 0 then None
    else
      var selected := Direct(pending, port, count - 1);
      if WaitsOn(pending, count - 1, port) then
        var sequence := pending[count - 1].value.sequence;
        Consider(selected, Candidate(sequence, sequence, count - 1))
      else selected
  }

  /** The first waiter on a linked set, up to a processor. */
  function SetReceiver(pending: seq<Option<Pending>>, link: Link, count: nat): Option<Candidate>
    requires count <= |pending|
  {
    if count == 0 then None
    else
      var selected := SetReceiver(pending, link, count - 1);
      if WaitsOn(pending, count - 1, link.setObject) then
        var candidate := Candidate(link.sequence, pending[count - 1].value.sequence, count - 1);
        if selected.None? || candidate.receiverSequence < selected.value.receiverSequence then Some(candidate)
        else selected
      else selected
  }

  /** Then every link's set, in link order. */
  function ThroughLinks(pending: seq<Option<Pending>>, links: seq<Link>, count: nat, direct: Option<Candidate>)
    : Option<Candidate>
    requires count <= |links|
  {
    if count == 0 then direct
    else
      var selected := ThroughLinks(pending, links, count - 1, direct);
      var receiver := SetReceiver(pending, links[count - 1], |pending|);
      if receiver.Some? then Consider(selected, receiver.value) else selected
  }

  function Selected(w: World, port: Object): Option<Candidate> {
    var links := LinksOf(w.shared, port);
    ThroughLinks(w.pending, links, |links|, Direct(w.pending, port, |w.pending|))
  }

  function Preferred(w: World, port: Object): Option<nat> {
    match Selected(w, port)
    case None => None
    case Some(candidate) => Some(candidate.processor)
  }

  /** A waiter of the port's compound wait queue: direct, or through one of its links. */
  ghost predicate InQueue(w: World, port: Object, c: Candidate) {
    || (WaitsOn(w.pending, c.processor, port)
        && c.portSequence == c.receiverSequence == w.pending[c.processor].value.sequence)
    || (exists link | link in LinksOf(w.shared, port) :: ThroughLink(w.pending, link, c))
  }

  predicate ThroughLink(pending: seq<Option<Pending>>, link: Link, c: Candidate) {
    && WaitsOn(pending, c.processor, link.setObject)
    && c.portSequence == link.sequence && c.receiverSequence == pending[c.processor].value.sequence
  }

  predicate AtMost(selected: Option<Candidate>, c: Candidate) {
    selected.Some? && !c.Before(selected.value)
  }

  lemma {:induction false} DirectIsFirst(pending: seq<Option<Pending>>, port: Object, count: nat)
    requires count <= |pending|
    ensures var selected := Direct(pending, port, count);
            && (selected.Some? ==>
                 && WaitsOn(pending, selected.value.processor, port)
                 && selected.value.portSequence == selected.value.receiverSequence
                    == pending[selected.value.processor].value.sequence)
            && forall p | 0 <= p < count && WaitsOn(pending, p, port) ::
                 AtMost(selected, Candidate(pending[p].value.sequence, pending[p].value.sequence, p))
  {
    if count > 0 {
      DirectIsFirst(pending, port, count - 1);
    }
  }

  lemma {:induction false} SetReceiverIsFirst(pending: seq<Option<Pending>>, link: Link, count: nat)
    requires count <= |pending|
    ensures var selected := SetReceiver(pending, link, count);
            && (selected.Some? ==> ThroughLink(pending, link, selected.value))
            && forall p | 0 <= p < count && WaitsOn(pending, p, link.setObject) ::
                 AtMost(selected, Candidate(link.sequence, pending[p].value.sequence, p))
  {
    if count > 0 {
      SetReceiverIsFirst(pending, link, count - 1);
    }
  }

  lemma {:induction false} LinksKeepFirst(
      pending: seq<Option<Pending>>, links: seq<Link>, count: nat, direct: Option<Candidate>)
    requires count <= |links|
    ensures var selected := ThroughLinks(pending, links, count, direct);
            && (selected == direct
                || (selected.Some? && exists i | 0 <= i < count :: ThroughLink(pending, links[i], selected.value)))
            && (direct.Some? ==> AtMost(selected, direct.value))
            && forall i, p | 0 <= i < count && 0 <= p < |pending| && WaitsOn(pending, p, links[i].setObject) ::
                 AtMost(selected, Candidate(links[i].sequence, pending[p].value.sequence, p))
  {
    if count > 0 {
      LinksKeepFirst(pending, links, count - 1, direct);
      SetReceiverIsFirst(pending, links[count - 1], |pending|);
    }
  }

  /**
   The preferred receiver is the first of the port's compound wait queue: the
   direct waiters by their own sequence, a set's waiters by the sequence of the
   link and then by their own. There is one exactly when anyone waits.
   */
  lemma PreferredIsFirst(w: World, port: Object)
    ensures var selected := Selected(w, port);
            && (selected.Some? ==> InQueue(w, port, selected.value))
            && forall c: Candidate | InQueue(w, port, c) ::
                 && selected.Some? && selected.value.portSequence <= c.portSequence
                 && (selected.value.portSequence == c.portSequence ==>
                      selected.value.receiverSequence <= c.receiverSequence)
  {
    var links := LinksOf(w.shared, port);
    var direct := Direct(w.pending, port, |w.pending|);
    DirectIsFirst(w.pending, port, |w.pending|);
    LinksKeepFirst(w.pending, links, |links|, direct);
    var selected := Selected(w, port);
    forall c: Candidate | InQueue(w, port, c)
      ensures AtMost(selected, c)
    {
      if link :| link in links && ThroughLink(w.pending, link, c) {
        var i :| 0 <= i < |links| && links[i] == link;
        assert WaitsOn(w.pending, c.processor, links[i].setObject);
      }
    }
  }

  // ---------- Polling ----------

  /** Where a receive looks: the object itself, then the members of the set. */
  function Sources(s: State, source: Object): seq<Object> {
    [source] + if source in s.portSets then s.portSets[source] else []
  }

  /** The first queue with a message that belongs to this processor. */
  function Choose(w: World, processor: nat, ports: seq<Object>): Option<Object> {
    if ports == [] then None
    else if QueueOf(w.shared, ports[0]) != [] && Preferred(w, ports[0]) == Some(processor) then Some(ports[0])
    else Choose(w, processor, ports[1..])
  }

  /** The generation is the one under which this receive last found nothing. */
  predicate Skips(w: World, processor: nat, expired: bool)
    requires processor < |w.pending| && w.pending[processor].Some?
  {
    w.pending[processor].value.observed == w.shared.generation && !expired
  }

  /** One poll of a pending receive; a message too large for its buffer stays queued. */
  function Poll(w: World, processor: nat, expired: bool, tooLarge: bool): (World, Option<Object>) {
    if processor >= |w.pending| || w.pending[processor].None? then (w, None)
    else if Skips(w, processor, expired) then (w, None)
    else
      var receive := w.pending[processor].value;
      var finished := w.pending[processor := None];
      match Choose(w, processor, Sources(w.shared, receive.source))
      case Some(port) =>
        (World(if tooLarge then w.shared else PopFront(w.shared, port), finished), Some(port))
      case None =>
        if expired then (w.(pending := finished), None)
        else if Visible(w.shared, receive.source) then (w, None)
        else (w.(pending := w.pending[processor := Some(receive.(observed := w.shared.generation))]), None)
  }

  /**
   A poll is skipped exactly when the generation is the observed one and the
   deadline has not passed. Otherwise it finishes with the first source, in order,
   that has a message this processor is preferred for, taking the front message
   unless that is too large; without one it finishes when its deadline has passed,
   and else goes on waiting, noting the generation exactly when every source is
   empty.
   */
  lemma PollExactly(w: World, processor: nat, expired: bool, tooLarge: bool)
    requires processor < |w.pending| && w.pending[processor].Some?
    ensures var (t, taken) := Poll(w, processor, expired, tooLarge);
            var receive := w.pending[processor].value;
            var members := if receive.source in w.shared.portSets then w.shared.portSets[receive.source] else [];
            var ports := [receive.source] + members;
            if receive.observed == w.shared.generation && !expired then t == w && taken.None?
            else if taken.Some? then
              && (exists i | 0 <= i < |ports| && ports[i] == taken.value ::
                   forall k | 0 <= k < i :: !Ready(w, processor, ports[k]))
              && Ready(w, processor, taken.value) && t.pending == w.pending[processor := None]
              && t.shared == (if tooLarge then w.shared
                              else w.shared.(queues := w.shared.queues[taken.value :=
                                                                       w.shared.queues[taken.value][1..]]))
            else
              && (forall k | 0 <= k < |ports| :: !Ready(w, processor, ports[k])) && t.shared == w.shared
              && t.pending == w.pending[processor := if expired then None else
                                                     Some(receive.(observed := if AllEmpty(w.shared, ports)
                                                                               then w.shared.generation
                                                                               else receive.observed))]
  {
    hide Preferred;
    var receive := w.pending[processor].value;
    ChooseExactly(w, processor, Sources(w.shared, receive.source));
    VisibleMeansQueued(w.shared, receive.source);
    assert w.pending[processor := w.pending[processor]] == w.pending;
    hide Choose, Visible;
  }

  /** A queue holds a message that belongs to this processor. */
  ghost predicate Ready(w: World, processor: nat, port: Object) {
    port in w.shared.queues && w.shared.queues[port] != [] && Preferred(w, port) == Some(processor)
  }

  ghost predicate AllEmpty(s: State, ports: seq<Object>) {
    forall k | 0 <= k < |ports| :: ports[k] !in s.queues || s.queues[ports[k]] == []
  }

  lemma {:induction false} ChooseExactly(w: World, processor: nat, ports: seq<Object>)
    ensures var chosen := Choose(w, processor, ports);
            if chosen.Some? then
              && (exists i | 0 <= i < |ports| && ports[i] == chosen.value ::
                   forall k | 0 <= k < i :: !Ready(w, processor, ports[k]))
              && Ready(w, processor, chosen.value)
            else forall k | 0 <= k < |ports| :: !Ready(w, processor, ports[k])
  {
    hide Preferred;
    if ports != [] && !Ready(w, processor, ports[0]) {
      ChooseExactly(w, processor, ports[1..]);
      var chosen := Choose(w, processor, ports[1..]);
      if chosen.Some? {
        var i :| 0 <= i < |ports[1..]| && ports[1..][i] == chosen.value
                 && forall k | 0 <= k < i :: !Ready(w, processor, ports[1..][k]);
        assert ports[i + 1] == chosen.value;
        forall k | 0 <= k < i + 1
          ensures !Ready(w, processor, ports[k])
        {
          if k > 0 {
            assert ports[k] == ports[1..][k - 1];
          }
        }
      } else {
        forall k | 0 <= k < |ports|
          ensures !Ready(w, processor, ports[k])
        {
          if k > 0 {
            assert ports[k] == ports[1..][k - 1];
          }
        }
      }
    }
  }

  datatype Event =
    | Kernel(op: Operation)
    | Begin(processor: nat, source: Object)
    | Polled(processor: nat, expired: bool, tooLarge: bool)
    | Cancel(processor: nat)

  function React(w: World, e: Event): World {
    match e
    case Kernel(op) => w.(shared := Apply(w.shared, op))
    case Begin(processor, source) =>
      if processor >= |w.pending| then w
      else
        var (sequence, counter) := Allocate(w.shared.nextSequence);
        World(w.shared.(nextSequence := counter), w.pending[processor := Some(Pending(source, 0, sequence))])
    case Polled(processor, expired, tooLarge) => Poll(w, processor, expired, tooLarge).0
    case Cancel(processor) => if processor >= |w.pending| then w else w.(pending := w.pending[processor := None])
  }

  /** A receive that begins waits behind all others: it gets the next non-zero sequence, and has observed nothing. */
  lemma BeginExactly(w: World, processor: nat, source: Object)
    requires processor < |w.pending|
    ensures var t := React(w, Begin(processor, source));
            var sequence := if w.shared.nextSequence == 0 then 1 else w.shared.nextSequence;
            && t.pending == w.pending[processor := Some(Pending(source, 0, sequence))]
            && t.shared == w.shared.(nextSequence := (sequence + 1) % 0x1_0000_0000_0000_0000)
  {}

  function Play(w: World, events: seq<Event>): World
    decreases |events|
  {
    if events == [] then w else Play(React(w, events[0]), events[1..])
  }

  function EventAdvances(w: World, e: Event): nat {
    if e.Kernel? then Advances(w.shared, e.op) else 0
  }

  function PlayAdvances(w: World, events: seq<Event>): nat
    decreases |events|
  {
    if events == [] then 0 else EventAdvances(w, events[0]) + PlayAdvances(React(w, events[0]), events[1..])
  }

  /** Short of a full turn of the generation, an observed generation is a true report of emptiness. */
  ghost predicate Honest(w: World, advanced: nat) {
    && w.shared.generation == 1 + advanced < WIDTH
    && forall p | 0 <= p < |w.pending| && w.pending[p].Some? ::
         && w.pending[p].value.observed <= w.shared.generation
         && (w.pending[p].value.observed == w.shared.generation ==> !Visible(w.shared, w.pending[p].value.source))
  }

  lemma TakingHidesNothingNew(s: State, port: Object, source: Object)
    requires !Visible(s, source)
    ensures !Visible(PopFront(s, port), source)
  {
    hide Visible;
    QuietStepHidesNothingNew(s, Take(port), source);
  }

  lemma StepStaysHonest(w: World, e: Event, advanced: nat)
    requires Honest(w, advanced) && 1 + advanced + EventAdvances(w, e) < WIDTH
    ensures Honest(React(w, e), advanced + EventAdvances(w, e))
  {
    hide Visible, Apply, Advances, Choose, PopFront, Sources;
    match e
    case Kernel(op) =>
      StepAdvances(w.shared, op);
      forall p | 0 <= p < |w.pending| && w.pending[p].Some?
                 && w.pending[p].value.observed == React(w, e).shared.generation
        ensures !Visible(React(w, e).shared, w.pending[p].value.source)
      {
        QuietStepHidesNothingNew(w.shared, op, w.pending[p].value.source);
      }
    case Polled(processor, expired, tooLarge) =>
      var (t, taken) := Poll(w, processor, expired, tooLarge);
      if taken.Some? && !tooLarge {
        PopKeepsGeneration(w.shared, taken.value);
        forall p | 0 <= p < |t.pending| && t.pending[p].Some? && t.pending[p].value.observed == t.shared.generation
          ensures !Visible(t.shared, t.pending[p].value.source)
        {
          TakingHidesNothingNew(w.shared, taken.value, w.pending[p].value.source);
        }
      }
    case Begin(processor, source) =>
      SameQueues(w.shared, React(w, e).shared);
    case Cancel(processor) =>
  }

  lemma PopKeepsGeneration(s: State, port: Object)
    ensures PopFront(s, port).generation == s.generation
  {}

  lemma SameQueues(s: State, t: State)
    requires t.portSets == s.portSets && t.queues == s.queues
    ensures forall source :: Visible(t, source) == Visible(s, source)
  {
    forall source
      ensures Visible(t, source) == Visible(s, source)
    {
      assert forall port :: QueueOf(t, port) == QueueOf(s, port);
    }
  }

  /** Every run: a receive is only ever skipped while nothing is queued for it. */
  lemma {:induction false} EveryRunIsHonest(w: World, events: seq<Event>, advanced: nat)
    requires Honest(w, advanced) && 1 + advanced + PlayAdvances(w, events) < WIDTH
    ensures Honest(Play(w, events), advanced + PlayAdvances(w, events))
    decreases |events|
  {
    hide Honest, React, EventAdvances;
    if events != [] {
      StepStaysHonest(w, events[0], advanced);
      EveryRunIsHonest(React(w, events[0]), events[1..], advanced + EventAdvances(w, events[0]));
    }
  }

  lemma EventKeepsInverse(w: World, e: Event)
    requires Inverse(w.shared)
    ensures Inverse(React(w, e).shared)
  {
    hide Inverse, Apply, Choose, Preferred;
    if e.Kernel? {
      StepKeepsInverse(w.shared, e.op);
    } else {
      SameTopology(w.shared, React(w, e).shared);
    }
  }

  lemma {:induction false} EveryPlayIsInverse(w: World, events: seq<Event>)
    requires Inverse(w.shared)
    ensures Inverse(Play(w, events).shared)
    decreases |events|
  {
    hide Inverse, React;
    if events != [] {
      EventKeepsInverse(w, events[0]);
      EveryPlayIsInverse(React(w, events[0]), events[1..]);
    }
  }

  // ---------- No lost wake-up ----------

  lemma {:induction false} LinkTimesMeansIn(links: seq<Link>, setObject: Object)
    ensures LinkTimes(links, setObject) > 0 <==> exists link | link in links :: link.setObject == setObject
  {
    if links != [] {
      LinkTimesMeansIn(links[1..], setObject);
      if link :| link in links && link.setObject == setObject && link != links[0] {
        assert link in links[1..];
      }
      assert links[0] in links;
    }
  }

  /** Links and members reach the same ports. */
  lemma LinkedIsMember(s: State, setObject: Object, port: Object)
    requires Inverse(s)
    ensures (exists link | link in LinksOf(s, port) :: link.setObject == setObject)
            <==> setObject in s.portSets && port in s.portSets[setObject]
  {
    assert Memberships(s, setObject, port) == LinkCount(s, setObject, port);
    LinkTimesMeansIn(LinksOf(s, port), setObject);
    if setObject in s.portSets {
      TimesMeansIn(s.portSets[setObject], port);
    }
  }

  lemma {:induction false} ChooseFinds(w: World, processor: nat, ports: seq<Object>, i: nat)
    requires i < |ports| && QueueOf(w.shared, ports[i]) != [] && Preferred(w, ports[i]) == Some(processor)
    ensures Choose(w, processor, ports).Some?
  {
    hide QueueOf, Preferred;
    if i > 0 {
      ChooseFinds(w, processor, ports[1..], i - 1);
    }
  }

  /** The receiver a queued message belongs to sees it. */
  lemma PreferredSees(w: World, port: Object)
    requires Inverse(w.shared) && Preferred(w, port).Some?
    ensures var p := Preferred(w, port).value;
            p < |w.pending| && w.pending[p].Some? && port in Sources(w.shared, w.pending[p].value.source)
  {
    hide Inverse, Selected, LinksOf;
    PreferredIsFirst(w, port);
    var c := Selected(w, port).value;
    if link :| link in LinksOf(w.shared, port) && ThroughLink(w.pending, link, c) {
      LinkedIsMember(w.shared, link.setObject, port);
    }
  }

  /** Whoever sees a port is in its queue, so the port has a preferred receiver. */
  lemma SeerQueues(w: World, processor: nat, port: Object)
    requires Inverse(w.shared) && processor < |w.pending| && w.pending[processor].Some?
    requires port in Sources(w.shared, w.pending[processor].value.source)
    ensures Preferred(w, port).Some?
  {
    hide Inverse, Selected, LinksOf;
    var receive := w.pending[processor].value;
    PreferredIsFirst(w, port);
    if port == receive.source {
      assert InQueue(w, port, Candidate(receive.sequence, receive.sequence, processor));
    } else {
      LinkedIsMember(w.shared, receive.source, port);
      var link :| link in LinksOf(w.shared, port) && link.setObject == receive.source;
      assert ThroughLink(w.pending, link, Candidate(link.sequence, receive.sequence, processor));
      assert InQueue(w, port, Candidate(link.sequence, receive.sequence, processor));
    }
  }

  lemma VisibleMeansQueued(s: State, source: Object)
    ensures Visible(s, source) <==> exists port | port in Sources(s, source) :: QueueOf(s, port) != []
  {
    hide QueueOf;
    if source in s.portSets {
      var members := s.portSets[source];
      assert forall i | 0 <= i < |members| :: members[i] in Sources(s, source);
    }
  }

  /**
   While a message is queued on a port that some receive looks at, the message
   has a preferred receiver, polling that receiver is not skipped, and it
   finishes with a message.
   */
  lemma NoLostWakeUp(w: World, advanced: nat, processor: nat, port: Object, tooLarge: bool)
    requires Honest(w, advanced) && Inverse(w.shared)
    requires processor < |w.pending| && w.pending[processor].Some?
    requires port in Sources(w.shared, w.pending[processor].value.source) && QueueOf(w.shared, port) != []
    ensures Preferred(w, port).Some?
    ensures var p := Preferred(w, port).value;
            && p < |w.pending| && w.pending[p].Some? && !Skips(w, p, false)
            && Poll(w, p, false, tooLarge).1.Some?
  {
    hide Inverse, Preferred, QueueOf, Visible, Choose, PopFront;
    SeerQueues(w, processor, port);
    PreferredSees(w, port);
    var p := Preferred(w, port).value;
    var ports := Sources(w.shared, w.pending[p].value.source);
    VisibleMeansQueued(w.shared, w.pending[p].value.source);
    var i :| 0 <= i < |ports| && ports[i] == port;
    ChooseFinds(w, p, ports, i);
  }

  function Idle(processors: nat): World {
    World(INITIAL, seq(processors, _ => None))
  }

  /** In every reachable state short of a generation wrap, a message someone looks at can be received. */
  lemma EveryQueuedMessageCanBeReceived(
      processors: nat, events: seq<Event>, w: World, processor: nat, port: Object, tooLarge: bool)
    requires w == Play(Idle(processors), events) && 1 + PlayAdvances(Idle(processors), events) < WIDTH
    requires processor < |w.pending| && w.pending[processor].Some?
    requires port in Sources(w.shared, w.pending[processor].value.source) && QueueOf(w.shared, port) != []
    ensures Preferred(w, port).Some?
    ensures var p := Preferred(w, port).value;
            && p < |w.pending| && w.pending[p].Some? && !Skips(w, p, false)
            && Poll(w, p, false, tooLarge).1.Some?
  {
    hide Play, PlayAdvances, Inverse, Poll, Preferred, Sources, QueueOf, Skips;
    InitialInverse();
    EveryPlayIsInverse(Idle(processors), events);
    EveryRunIsHonest(Idle(processors), events, 0);
    NoLostWakeUp(w, PlayAdvances(Idle(processors), events), processor, port, tooLarge);
  }

  // ---------- The loops ----------

  /** preferred_pending_mach_receiver_locked. */
  method FindPreferred(pending: seq<Option<Pending>>, shared: State, port: Object) returns (processor: Option<nat>)
    ensures processor == Preferred(World(shared, pending), port)
  {
    var selected: Option<Candidate> := None;
    for p := 0 to |pending|
      invariant selected == Direct(pending, port, p)
    {
      if WaitsOn(pending, p, port) {
        var sequence := pending[p].value.sequence;
        selected := Consider(selected, Candidate(sequence, sequence, p));
      }
    }
    ghost var direct := selected;
    var links := LinksOf(shared, port);
    for i := 0 to |links|
      invariant selected == ThroughLinks(pending, links, i, direct)
    {
      var receiver: Option<Candidate> := None;
      for p := 0 to |pending|
        invariant receiver == SetReceiver(pending, links[i], p)
      {
        if WaitsOn(pending, p, links[i].setObject) {
          var candidate := Candidate(links[i].sequence, pending[p].value.sequence, p);
          if receiver.None? || candidate.receiverSequence < receiver.value.receiverSequence {
            receiver := Some(candidate);
          }
        }
      }
      if receiver.Some? {
        selected := Consider(selected, receiver.value);
      }
    }
    processor := if selected.None? then None else Some(selected.value.processor);
  }

  /** The walk over a receive's sources. */
  method Walk(w: World, processor: nat) returns (chosen: Option<Object>, visible: bool)
    requires processor < |w.pending| && w.pending[processor].Some?
    ensures chosen == Choose(w, processor, Sources(w.shared, w.pending[processor].value.source))
    ensures chosen.None? ==> visible == Visible(w.shared, w.pending[processor].value.source)
  {
    var ports := Sources(w.shared, w.pending[processor].value.source);
    chosen, visible := None, false;
    for i := 0 to |ports|
      invariant chosen.None?
      invariant Choose(w, processor, ports) == Choose(w, processor, ports[i..])
      invariant visible <==> exists k | 0 <= k < i :: QueueOf(w.shared, ports[k]) != []
    {
      assert ports[i..][0] == ports[i] && ports[i..][1..] == ports[i + 1..];
      if QueueOf(w.shared, ports[i]) != [] {
        visible := true;
        var receiver := FindPreferred(w.pending, w.shared, ports[i]);
        if receiver == Some(processor) {
          chosen := Some(ports[i]);
          return;
        }
      }
    }
    VisibleMeansQueued(w.shared, w.pending[processor].value.source);
  }
}
