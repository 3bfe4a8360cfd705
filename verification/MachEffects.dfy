/**
 What every operation of MachPortSets.dfy does to each list of the state, told
 without the functions that compute it; and that messages leave each queue in
 the order in which they were sent.
 */
module MachEffects {
  import opened Wrappers
  import opened MachPortSets
  import opened MachReceive
  import opened MachRuns

  // ---------- Lists with one element less ----------

  function At<T>(lists: map<Object, seq<T>>, key: Object): seq<T> {
    if key in lists then lists[key] else []
  }

  /** A list without its element at a position. */
  predicate OneLess<T(==)>(after: seq<T>, before: seq<T>, i: nat) {
    i < |before| && after == before[..i] + before[i + 1..]
  }

  /** The same list without its one occurrence of a member, if it has one. */
  ghost predicate Minus(after: seq<Object>, before: seq<Object>, member: Object) {
    if member in before then member !in after && exists i: nat :: OneLess(after, before, i) && before[i] == member
    else after == before
  }

  predicate Linked(links: seq<Link>, setObject: Object) {
    exists i | 0 <= i < |links| :: links[i].setObject == setObject
  }

  /** The same links without the one to a set, if there is one. */
  ghost predicate MinusLink(after: seq<Link>, before: seq<Link>, setObject: Object) {
    if Linked(before, setObject) then
      !Linked(after, setObject) && exists i: nat :: OneLess(after, before, i) && before[i].setObject == setObject
    else after == before
  }

  lemma OneLessBehind<T>(first: T, after: seq<T>, before: seq<T>, i: nat)
    requires OneLess(after, before, i)
    ensures OneLess([first] + after, [first] + before, i + 1)
  {
    assert ([first] + before)[..i + 1] == [first] + before[..i];
    assert ([first] + before)[i + 2..] == before[i + 1..];
  }

  lemma {:induction false} WithoutFirstIs(members: seq<Object>, member: Object)
    requires Times(members, member) == 1
    ensures Minus(WithoutFirst(members, member), members, member)
  {
    TimesMeansIn(members, member);
    TimesWithoutFirst(members, member, member);
    TimesMeansIn(WithoutFirst(members, member), member);
    if members[0] == member {
      assert OneLess(WithoutFirst(members, member), members, 0);
    } else {
      WithoutFirstIs(members[1..], member);
      TimesMeansIn(members[1..], member);
      var rest := WithoutFirst(members[1..], member);
      var i: nat :| OneLess(rest, members[1..], i) && members[1..][i] == member;
      assert members == [members[0]] + members[1..];
      OneLessBehind(members[0], rest, members[1..], i);
    }
  }

  lemma {:induction false} ErasedNothing(members: seq<Object>, member: Object)
    requires member !in members
    ensures Erased(members, member) == members
  {
    if members != [] {
      ErasedNothing(members[1..], member);
      assert members[0] != member;
    }
  }

  lemma {:induction false} ErasedIs(members: seq<Object>, member: Object)
    requires Times(members, member) <= 1
    ensures Minus(Erased(members, member), members, member)
  {
    TimesMeansIn(members, member);
    TimesErased(members, member, member);
    TimesMeansIn(Erased(members, member), member);
    if member !in members {
      ErasedNothing(members, member);
    } else if members[0] == member {
      TimesMeansIn(members[1..], member);
      ErasedNothing(members[1..], member);
      assert OneLess(Erased(members, member), members, 0);
    } else {
      ErasedIs(members[1..], member);
      TimesMeansIn(members[1..], member);
      var rest := Erased(members[1..], member);
      var i: nat :| OneLess(rest, members[1..], i) && members[1..][i] == member;
      assert members == [members[0]] + members[1..];
      OneLessBehind(members[0], rest, members[1..], i);
    }
  }

  lemma {:induction false} LinkedMeansTimes(links: seq<Link>, setObject: Object)
    ensures Linked(links, setObject) <==> LinkTimes(links, setObject) > 0
  {
    if links != [] {
      LinkedMeansTimes(links[1..], setObject);
      assert links == [links[0]] + links[1..];
      assert Linked(links, setObject) <==> links[0].setObject == setObject || Linked(links[1..], setObject);
    }
  }

  lemma {:induction false} UnlinkedNothing(links: seq<Link>, setObject: Object)
    requires !Linked(links, setObject)
    ensures Unlinked(links, setObject) == links
  {
    if links != [] {
      assert forall i | 0 <= i < |links[1..]| :: links[1..][i] == links[i + 1];
      UnlinkedNothing(links[1..], setObject);
      assert links[0].setObject != setObject;
    }
  }

  lemma {:induction false} UnlinkedIs(links: seq<Link>, setObject: Object)
    requires LinkTimes(links, setObject) <= 1
    ensures MinusLink(Unlinked(links, setObject), links, setObject)
  {
    LinkedMeansTimes(links, setObject);
    LinkTimesUnlinked(links, setObject, setObject);
    LinkedMeansTimes(Unlinked(links, setObject), setObject);
    if !Linked(links, setObject) {
      UnlinkedNothing(links, setObject);
    } else if links[0].setObject == setObject {
      LinkedMeansTimes(links[1..], setObject);
      UnlinkedNothing(links[1..], setObject);
      assert OneLess(Unlinked(links, setObject), links, 0);
    } else {
      UnlinkedIs(links[1..], setObject);
      LinkedMeansTimes(links[1..], setObject);
      var rest := Unlinked(links[1..], setObject);
      var i: nat :| OneLess(rest, links[1..], i) && links[1..][i].setObject == setObject;
      assert links == [links[0]] + links[1..];
      OneLessBehind(links[0], rest, links[1..], i);
    }
  }

  // ---------- What changes and what does not ----------

  /** Only these parts may differ. */
  ghost predicate OnlySets(s: State, t: State, changed: Object) {
    forall o: Object | o != changed :: (o in t.portSets <==> o in s.portSets) && At(t.portSets, o) == At(s.portSets, o)
  }

  ghost predicate OnlyLinks(s: State, t: State, changed: Object) {
    forall m: Object | m != changed :: (m in t.links <==> m in s.links) && At(t.links, m) == At(s.links, m)
  }

  function Advanced(generation: nat): nat {
    (generation + 1) % 0x1_0000_0000_0000_0000
  }

  /** A new set is empty, and nothing else changes. */
  lemma CreateExactly(s: State, setObject: Object)
    ensures var (t, created) := CreateSet(s, setObject);
            && (created <==> setObject !in s.portSets) && (!created ==> t == s)
            && setObject in t.portSets && (created ==> t.portSets[setObject] == [])
            && OnlySets(s, t, setObject) && t == s.(portSets := t.portSets)
  {}

  /**
   Insertion is granted exactly for a set that lacks the member. The member is
   then last in the set, and has one new last link to it, with the next non-zero
   sequence.
   */
  lemma InsertExactly(s: State, setObject: Object, member: Object)
    ensures var (t, granted) := InsertMember(s, setObject, member);
            var sequence := if s.nextSequence == 0 then 1 else s.nextSequence;
            && (granted <==> setObject in s.portSets && member !in s.portSets[setObject])
            && (!granted ==> t == s)
            && (granted ==>
                 && setObject in t.portSets && t.portSets[setObject] == s.portSets[setObject] + [member]
                 && OnlySets(s, t, setObject)
                 && member in t.links && t.links[member] == At(s.links, member) + [Link(setObject, sequence)]
                 && OnlyLinks(s, t, member)
                 && t.nextSequence == (sequence + 1) % 0x1_0000_0000_0000_0000
                 && t.generation == Advanced(s.generation) && t.queues == s.queues)
  {}

  /**
   Extraction is granted exactly for a member. It is then gone from the set,
   with its link; the others of the set and of its links keep their order.
   */
  lemma ExtractExactly(s: State, setObject: Object, member: Object)
    requires Inverse(s)
    ensures var (t, granted) := ExtractMember(s, setObject, member);
            && (granted <==> setObject in s.portSets && member in s.portSets[setObject])
            && (!granted ==> t == s)
            && (granted ==>
                 && setObject in t.portSets && member !in t.portSets[setObject]
                 && Minus(t.portSets[setObject], s.portSets[setObject], member) && OnlySets(s, t, setObject)
                 && Linked(At(s.links, member), setObject) && !Linked(At(t.links, member), setObject)
                 && MinusLink(At(t.links, member), At(s.links, member), setObject)
                 && (member in t.links <==> At(t.links, member) != []) && OnlyLinks(s, t, member)
                 && t.nextSequence == s.nextSequence
                 && t.generation == Advanced(s.generation) && t.queues == s.queues)
  {
    hide WithoutFirst, Unlinked, Relinked, Times, LinkTimes, Minus, MinusLink, Linked, Inverse;
    var granted := ExtractMember(s, setObject, member).1;
    if granted {
      CountedOnce(s, setObject, member);
      TimesMeansIn(s.portSets[setObject], member);
      WithoutFirstIs(s.portSets[setObject], member);
      WithoutLacks(s.portSets[setObject], member);
      UnlinkedIs(At(s.links, member), setObject);
      UnlinkedLacks(At(s.links, member), setObject);
      RelinkedExactly(s, member, setObject);
    }
  }

  lemma WithoutLacks(members: seq<Object>, member: Object)
    requires member in members && Minus(WithoutFirst(members, member), members, member)
    ensures member !in WithoutFirst(members, member)
  {}

  lemma UnlinkedLacks(links: seq<Link>, setObject: Object)
    requires Linked(links, setObject) && MinusLink(Unlinked(links, setObject), links, setObject)
    ensures !Linked(Unlinked(links, setObject), setObject)
  {}

  lemma RelinkedExactly(s: State, member: Object, setObject: Object)
    requires Inverse(s)
    ensures var t := s.(links := Relinked(s.links, member, setObject));
            && At(t.links, member) == Unlinked(At(s.links, member), setObject)
            && (member in t.links <==> At(t.links, member) != []) && OnlyLinks(s, t, member)
  {}

  // ---------- Out of all sets ----------

  lemma {:induction false} ErasedTwice(members: seq<Object>, member: Object)
    ensures Erased(Erased(members, member), member) == Erased(members, member)
  {
    TimesErased(members, member, member);
    TimesMeansIn(Erased(members, member), member);
    ErasedNothing(Erased(members, member), member);
  }

  lemma {:induction false} WithdrawnIs(
      portSets: map<Object, seq<Object>>, links: seq<Link>, member: Object, o: Object)
    ensures var t := Withdrawn(portSets, links, member);
            && (o in t <==> o in portSets)
            && At(t, o) == if Linked(links, o) then Erased(At(portSets, o), member) else At(portSets, o)
    decreases |links|
  {
    hide Erased;
    ErasedEmpty(member);
    if links != [] {
      var first := links[0].setObject;
      var rest := if first in portSets then portSets[first := Erased(portSets[first], member)] else portSets;
      WithdrawnIs(rest, links[1..], member, o);
      ErasedTwice(At(portSets, o), member);
      LinkedFirst(links, o);
    }
  }

  lemma ErasedEmpty(member: Object)
    ensures Erased([], member) == []
  {}

  lemma LinkedFirst(links: seq<Link>, o: Object)
    requires links != []
    ensures Linked(links, o) <==> links[0].setObject == o || Linked(links[1..], o)
  {
    assert forall i | 0 <= i < |links[1..]| :: links[1..][i] == links[i + 1];
    assert forall i | 1 <= i < |links| :: links[i] == links[1..][i - 1];
  }

  /** Withdrawal takes a port out of every set it is in, with all its links, and touches nothing else. */
  lemma RemoveFromAllExactly(s: State, member: Object)
    requires Inverse(s)
    ensures var (t, removed) := RemoveFromAll(s, member);
            && (removed <==> member in s.links) && (!removed ==> t == s)
            && (forall o: Object :: (o in t.portSets <==> o in s.portSets)
                                    && Minus(At(t.portSets, o), At(s.portSets, o), member))
            && member !in t.links && OnlyLinks(s, t, member)
            && t.nextSequence == s.nextSequence && t.queues == s.queues
            && t.generation == if removed then Advanced(s.generation) else s.generation
  {
    var (t, removed) := RemoveFromAll(s, member);
    hide Erased, Withdrawn, Times, LinkTimes;
    forall o: Object
      ensures (o in t.portSets <==> o in s.portSets) && Minus(At(t.portSets, o), At(s.portSets, o), member)
    {
      CountedOnce(s, o, member);
      if removed {
        WithdrawnIs(s.portSets, s.links[member], member, o);
        ErasedIs(At(s.portSets, o), member);
      }
    }
  }

  /** In a good state a set has a member at most once, and exactly when the member is linked to it. */
  lemma CountedOnce(s: State, o: Object, member: Object)
    requires Inverse(s)
    ensures Times(At(s.portSets, o), member) == LinkTimes(At(s.links, member), o) <= 1
    ensures member in At(s.portSets, o) <==> Linked(At(s.links, member), o)
  {
    assert Memberships(s, o, member) == LinkCount(s, o, member) <= 1;
    TimesMeansIn(At(s.portSets, o), member);
    LinkedMeansTimes(At(s.links, member), o);
  }

  // ---------- A set dissolved ----------

  lemma UnlinkedTwice(links: seq<Link>, setObject: Object)
    ensures Unlinked(Unlinked(links, setObject), setObject) == Unlinked(links, setObject)
  {
    LinkTimesUnlinked(links, setObject, setObject);
    LinkedMeansTimes(Unlinked(links, setObject), setObject);
    UnlinkedNothing(Unlinked(links, setObject), setObject);
  }

  lemma RelinkedIs(links: map<Object, seq<Link>>, gone: Object, setObject: Object, m: Object)
    requires NoneEmpty(links)
    ensures var t := Relinked(links, gone, setObject);
            && NoneEmpty(t)
            && At(t, m) == if m == gone then Unlinked(At(links, m), setObject) else At(links, m)
  {}

  lemma {:induction false} DissolvedIs(
      links: map<Object, seq<Link>>, members: seq<Object>, setObject: Object, m: Object)
    requires NoneEmpty(links)
    ensures var t := Dissolved(links, members, setObject);
            && NoneEmpty(t)
            && At(t, m) == if m in members then Unlinked(At(links, m), setObject) else At(links, m)
    decreases |members|
  {
    hide Relinked, Unlinked, NoneEmpty, At;
    if members != [] {
      RelinkedIs(links, members[0], setObject, m);
      DissolvedIs(Relinked(links, members[0], setObject), members[1..], setObject, m);
      UnlinkedTwice(At(links, m), setObject);
      assert m in members <==> m == members[0] || m in members[1..];
    }
  }

  lemma InWhenSome(links: map<Object, seq<Link>>, m: Object)
    requires NoneEmpty(links)
    ensures m in links <==> At(links, m) != []
  {}

  /** Dissolving removes a set with every link to it, and touches nothing else. */
  lemma EraseSetExactly(s: State, setObject: Object)
    requires Inverse(s)
    ensures var (t, erased) := EraseSet(s, setObject);
            && (erased <==> setObject in s.portSets) && (!erased ==> t == s)
            && setObject !in t.portSets && OnlySets(s, t, setObject)
            && (forall m: Object :: (m in t.links <==> At(t.links, m) != [])
                                    && MinusLink(At(t.links, m), At(s.links, m), setObject))
            && t.nextSequence == s.nextSequence && t.queues == s.queues
            && t.generation == if erased then Advanced(s.generation) else s.generation
  {
    var (t, erased) := EraseSet(s, setObject);
    hide Unlinked, Dissolved, Times, LinkTimes;
    forall m: Object
      ensures (m in t.links <==> At(t.links, m) != []) && MinusLink(At(t.links, m), At(s.links, m), setObject)
    {
      CountedOnce(s, setObject, m);
      if erased {
        DissolvedIs(s.links, s.portSets[setObject], setObject, m);
        InWhenSome(t.links, m);
        UnlinkedIs(At(s.links, m), setObject);
        UnlinkedNothingTo(At(s.links, m), setObject);
      }
    }
  }

  lemma UnlinkedNothingTo(links: seq<Link>, setObject: Object)
    ensures !Linked(links, setObject) ==> MinusLink(links, links, setObject)
  {}

  /**
   When a port dies it is in no set, has no links, is no set itself and has no
   queue; every other set, link list and queue only loses what mentions it.
   */
  lemma RemovePortExactly(s: State, port: Object)
    requires Inverse(s)
    ensures var t := RemovePort(s, port);
            && port !in t.portSets && port !in t.links && t.queues == s.queues - {port}
            && (forall o: Object | o != port :: (o in t.portSets <==> o in s.portSets)
                                                && Minus(At(t.portSets, o), At(s.portSets, o), port))
            && (forall m: Object | m != port :: (m in t.links <==> At(t.links, m) != [])
                                                && MinusLink(At(t.links, m), At(s.links, m), port))
            && t.nextSequence == s.nextSequence
  {
    hide *;
    var s1 := RemoveFromAll(s, port).0;
    var s2 := EraseSet(s1, port).0;
    RemoveFromAllExactly(s, port);
    RemoveFromAllKeepsInverse(s, port);
    EraseSetExactly(s1, port);
    RemovedIs(s, port);
    RemovedLists(s, s1, s2, port);
  }

  lemma RemovedIs(s: State, port: Object)
    ensures var s2 := EraseSet(RemoveFromAll(s, port).0, port).0;
            RemovePort(s, port) == s2.(queues := s2.queues - {port})
  {
    hide EraseSet, RemoveFromAll;
  }

  /** From the two effects to their composition. */
  lemma RemovedLists(s: State, s1: State, s2: State, port: Object)
    requires forall o: Object :: (o in s1.portSets <==> o in s.portSets)
                                 && Minus(At(s1.portSets, o), At(s.portSets, o), port)
    requires port !in s1.links && OnlyLinks(s, s1, port) && port !in s2.portSets && OnlySets(s1, s2, port)
    requires forall m: Object :: (m in s2.links <==> At(s2.links, m) != [])
                                 && MinusLink(At(s2.links, m), At(s1.links, m), port)
    ensures port !in s2.links
    ensures forall o: Object | o != port :: (o in s2.portSets <==> o in s.portSets)
                                            && Minus(At(s2.portSets, o), At(s.portSets, o), port)
    ensures forall m: Object | m != port :: (m in s2.links <==> At(s2.links, m) != [])
                                            && MinusLink(At(s2.links, m), At(s.links, m), port)
  {
    hide Minus;
    assert At(s1.links, port) == [] && !Linked(At(s1.links, port), port);
    assert MinusLink(At(s2.links, port), At(s1.links, port), port);
  }

  // ---------- First in, first out ----------

  /** The messages an event puts on a port's queue. */
  function Arriving(e: Event, port: Object): seq<Message> {
    if e.Kernel? && e.op.Send? && e.op.port == port then [e.op.message] else []
  }

  /** The messages an event takes off it: the front one, or all of them when the queue is thrown away. */
  function Leaving(w: World, e: Event, port: Object): seq<Message> {
    var queue := At(w.shared.queues, port);
    match e
    case Kernel(Take(taken)) => if taken == port && queue != [] then [queue[0]] else []
    case Kernel(Discard(gone)) => if gone == port then queue else []
    case Kernel(Remove(gone)) => if gone == port then queue else []
    case Polled(processor, expired, tooLarge) =>
      if Poll(w, processor, expired, tooLarge).1 == Some(port) && !tooLarge && queue != [] then [queue[0]] else []
    case _ => []
  }

  function AllArriving(events: seq<Event>, port: Object): seq<Message> {
    if events == [] then [] else Arriving(events[0], port) + AllArriving(events[1..], port)
  }

  function AllLeaving(w: World, events: seq<Event>, port: Object): seq<Message>
    decreases |events|
  {
    if events == [] then [] else Leaving(w, events[0], port) + AllLeaving(React(w, events[0]), events[1..], port)
  }

  lemma OperationMoves(w: World, op: Operation, port: Object)
    ensures At(w.shared.queues, port) + Arriving(Kernel(op), port)
            == Leaving(w, Kernel(op), port) + At(Apply(w.shared, op).queues, port)
  {
    hide InsertMember, ExtractMember, RemoveFromAll, EraseSet, Poll;
    TopologyKeepsQueues(w.shared, op);
  }

  lemma TopologyKeepsQueues(s: State, op: Operation)
    ensures op.Create? || op.Insert? || op.Extract? || op.Withdraw? || op.Dissolve? ==> Apply(s, op).queues == s.queues
    ensures op.Remove? ==> Apply(s, op).queues == s.queues - {op.port}
  {}

  lemma EventMoves(w: World, e: Event, port: Object)
    ensures At(w.shared.queues, port) + Arriving(e, port) == Leaving(w, e, port) + At(React(w, e).shared.queues, port)
  {
    hide Apply, Choose, Preferred, Visible, Skips;
    match e
    case Kernel(op) => OperationMoves(w, op, port);
    case Polled(processor, expired, tooLarge) =>
      var queue := At(w.shared.queues, port);
      if queue != [] {
        assert queue == [queue[0]] + queue[1..];
      }
    case _ =>
  }

  /**
   In every run, from any state, the messages that leave a queue are those that
   were in it and those that were sent to it, in that order, without gaps; what
   is queued at the end is the rest.
   */
  lemma {:induction false} FirstInFirstOut(w: World, events: seq<Event>, port: Object)
    ensures At(w.shared.queues, port) + AllArriving(events, port)
            == AllLeaving(w, events, port) + At(Play(w, events).shared.queues, port)
    decreases |events|
  {
    hide At, Arriving, Leaving, React;
    var before := At(w.shared.queues, port);
    if events == [] {
      assert before + [] == [] + before;
    } else {
      var next, rest := React(w, events[0]), events[1..];
      EventMoves(w, events[0], port);
      FirstInFirstOut(next, rest, port);
      Regroup(before, Arriving(events[0], port), AllArriving(rest, port), Leaving(w, events[0], port),
              At(next.shared.queues, port), AllLeaving(next, rest, port), At(Play(next, rest).shared.queues, port));
    }
  }

  lemma Regroup<T>(before: seq<T>, arriving: seq<T>, later: seq<T>, leaving: seq<T>, middle: seq<T>, gone: seq<T>,
                   after: seq<T>)
    requires before + arriving == leaving + middle && middle + later == gone + after
    ensures before + (arriving + later) == (leaving + gone) + after
  {
    assert before + (arriving + later) == (before + arriving) + later;
    assert (leaving + middle) + later == leaving + (middle + later);
    assert leaving + (gone + after) == (leaving + gone) + after;
  }
}
