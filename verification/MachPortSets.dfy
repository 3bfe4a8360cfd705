/**
 The port sets, their reverse links, the message queues and the queue
 generation that all tasks share: the effect of every operation that runs
 under the Mach mutex.
 */
module MachPortSets {

  /** A global identifier of an IPC object; ports and port sets share one space. */
  type Object = nat

  type Message = nat

  datatype Link = Link(setObject: Object, sequence: nat)

  datatype State = State(
    portSets: map<Object, seq<Object>>,
    links: map<Object, seq<Link>>,
    nextSequence: nat,
    queues: map<Object, seq<Message>>,
    generation: nat)

  const INITIAL := State(map[], map[], 1, map[], 1)

  const WIDTH: nat := 0x1_0000_0000_0000_0000

  /** Unsigned 64-bit increment. */
  function Next(n: nat): nat {
    (n + 1) % WIDTH
  }

  // ---------- Lists ----------

  /** std::erase(members, member). */
  function Erased(members: seq<Object>, member: Object): seq<Object> {
    if members == [] then []
    else (if members[0] == member then [] else [members[0]]) + Erased(members[1..], member)
  }

  /** members.erase(std::find(members, member)). */
  function WithoutFirst(members: seq<Object>, member: Object): seq<Object> {
    if members == [] then []
    else if members[0] == member then members[1..]
    else [members[0]] + WithoutFirst(members[1..], member)
  }

  /** std::erase_if on the links to one set. */
  function Unlinked(links: seq<Link>, setObject: Object): seq<Link> {
    if links == [] then []
    else (if links[0].setObject == setObject then [] else [links[0]]) + Unlinked(links[1..], setObject)
  }

  // ---------- The operations ----------

  /** The wait-queue sequence handed out, and the counter left behind; zero is never handed out. */
  function Allocate(counter: nat): (nat, nat) {
    if counter == 0 then (1, 2) else (counter, Next(counter))
  }

  function CreateSet(s: State, setObject: Object): (State, bool) {
    if setObject in s.portSets then (s, false)
    else (s.(portSets := s.portSets[setObject := []]), true)
  }

  function LinksOf(s: State, member: Object): seq<Link> {
    if member in s.links then s.links[member] else []
  }

  function InsertMember(s: State, setObject: Object, member: Object): (State, bool) {
    if setObject !in s.portSets || member in s.portSets[setObject] then (s, false)
    else
      var (sequence, counter) := Allocate(s.nextSequence);
      (s.(portSets := s.portSets[setObject := s.portSets[setObject] + [member]],
          links := s.links[member := LinksOf(s, member) + [Link(setObject, sequence)]],
          nextSequence := counter,
          generation := Next(s.generation)), true)
  }

  /** Drops a member's links to a set, and its list with the last of them. */
  function Relinked(links: map<Object, seq<Link>>, member: Object, setObject: Object): map<Object, seq<Link>> {
    if member !in links then links
    else
      var rest := Unlinked(links[member], setObject);
      if rest == [] then links - {member} else links[member := rest]
  }

  function ExtractMember(s: State, setObject: Object, member: Object): (State, bool) {
    if setObject !in s.portSets || member !in s.portSets[setObject] then (s, false)
    else
      (s.(portSets := s.portSets[setObject := WithoutFirst(s.portSets[setObject], member)],
          links := Relinked(s.links, member, setObject),
          generation := Next(s.generation)), true)
  }

  /** Erases a member from every set its links name. */
  function Withdrawn(portSets: map<Object, seq<Object>>, links: seq<Link>, member: Object): map<Object, seq<Object>> {
    if links == [] then portSets
    else
      var setObject := links[0].setObject;
      var rest := if setObject in portSets then portSets[setObject := Erased(portSets[setObject], member)]
                  else portSets;
      Withdrawn(rest, links[1..], member)
  }

  function RemoveFromAll(s: State, member: Object): (State, bool) {
    if member !in s.links then (s, false)
    else
      (s.(portSets := Withdrawn(s.portSets, s.links[member], member),
          links := s.links - {member},
          generation := Next(s.generation)), true)
  }

  /** Drops every member's links to a set. */
  function Dissolved(links: map<Object, seq<Link>>, members: seq<Object>, setObject: Object): map<Object, seq<Link>> {
    if members == [] then links else Dissolved(Relinked(links, members[0], setObject), members[1..], setObject)
  }

  function EraseSet(s: State, setObject: Object): (State, bool) {
    if setObject !in s.portSets then (s, false)
    else
      (s.(portSets := s.portSets - {setObject},
          links := Dissolved(s.links, s.portSets[setObject], setObject),
          generation := Next(s.generation)), true)
  }

  function QueueOf(s: State, port: Object): seq<Message> {
    if port in s.queues then s.queues[port] else []
  }

  function Enqueue(s: State, port: Object, message: Message): State {
    s.(queues := s.queues[port := QueueOf(s, port) + [message]], generation := Next(s.generation))
  }

  /** A queue looked up by key comes into being empty. */
  function Touch(s: State, port: Object): State {
    s.(queues := s.queues[port := QueueOf(s, port)])
  }

  /** A receiver or a failed receive takes the front message. */
  function PopFront(s: State, port: Object): State {
    if QueueOf(s, port) == [] then s else s.(queues := s.queues[port := s.queues[port][1..]])
  }

  function EraseQueue(s: State, port: Object): State {
    s.(queues := s.queues - {port})
  }

  /** What the removal of a port does to this state: out of all sets, gone as a set, its messages discarded. */
  function RemovePort(s: State, port: Object): State {
    EraseQueue(EraseSet(RemoveFromAll(s, port).0, port).0, port)
  }

  // ---------- Counting ----------

  function Times(members: seq<Object>, member: Object): nat {
    if members == [] then 0 else (if members[0] == member then 1 else 0) + Times(members[1..], member)
  }

  function LinkTimes(links: seq<Link>, setObject: Object): nat {
    if links == [] then 0 else (if links[0].setObject == setObject then 1 else 0) + LinkTimes(links[1..], setObject)
  }

  /** How often a port is a member of a set. */
  function Memberships(s: State, setObject: Object, member: Object): nat {
    if setObject in s.portSets then Times(s.portSets[setObject], member) else 0
  }

  /** How many links a port has to a set. */
  function LinkCount(s: State, setObject: Object, member: Object): nat {
    LinkTimes(LinksOf(s, member), setObject)
  }

  /** Sets and links are exact inverses, without duplicates and without empty link lists. */
  ghost predicate Inverse(s: State) {
    && (forall setObject, member :: Memberships(s, setObject, member) == LinkCount(s, setObject, member) <= 1)
    && (forall member | member in s.links :: s.links[member] != [])
  }

  lemma {:induction false} TimesMeansIn(members: seq<Object>, member: Object)
    ensures member in members <==> Times(members, member) > 0
  {
    if members != [] {
      TimesMeansIn(members[1..], member);
      assert members == [members[0]] + members[1..];
    }
  }

  lemma {:induction false} TimesAppend(members: seq<Object>, last: Object, member: Object)
    ensures Times(members + [last], member) == Times(members, member) + if last == member then 1 else 0
  {
    if members == [] {
      assert [] + [last] == [last];
    } else {
      TimesAppend(members[1..], last, member);
      assert (members + [last])[1..] == members[1..] + [last];
    }
  }

  lemma {:induction false} TimesErased(members: seq<Object>, gone: Object, member: Object)
    ensures Times(Erased(members, gone), member) == if member == gone then 0 else Times(members, member)
  {
    if members != [] {
      TimesErased(members[1..], gone, member);
      var rest := Erased(members[1..], gone);
      if members[0] != gone {
        assert ([members[0]] + rest)[1..] == rest;
      } else {
        assert [] + rest == rest;
      }
    }
  }

  lemma {:induction false} TimesWithoutFirst(members: seq<Object>, gone: Object, member: Object)
    requires Times(members, gone) > 0
    ensures Times(WithoutFirst(members, gone), member) == Times(members, member) - if member == gone then 1 else 0
  {
    if members[0] != gone {
      TimesWithoutFirst(members[1..], gone, member);
      var rest := WithoutFirst(members[1..], gone);
      assert ([members[0]] + rest)[1..] == rest;
    }
  }

  lemma {:induction false} LinkTimesAppend(links: seq<Link>, last: Link, setObject: Object)
    ensures LinkTimes(links + [last], setObject)
            == LinkTimes(links, setObject) + if last.setObject == setObject then 1 else 0
  {
    if links == [] {
      assert [] + [last] == [last];
    } else {
      LinkTimesAppend(links[1..], last, setObject);
      assert (links + [last])[1..] == links[1..] + [last];
    }
  }

  lemma {:induction false} LinkTimesUnlinked(links: seq<Link>, gone: Object, setObject: Object)
    ensures LinkTimes(Unlinked(links, gone), setObject) == if setObject == gone then 0 else LinkTimes(links, setObject)
  {
    if links != [] {
      LinkTimesUnlinked(links[1..], gone, setObject);
      var rest := Unlinked(links[1..], gone);
      if links[0].setObject != gone {
        assert ([links[0]] + rest)[1..] == rest;
      } else {
        assert [] + rest == rest;
      }
    }
  }

  // ---------- What the composite steps do to the counts ----------

  function CountIn(portSets: map<Object, seq<Object>>, setObject: Object, member: Object): nat {
    if setObject in portSets then Times(portSets[setObject], member) else 0
  }

  function LinkCountIn(links: map<Object, seq<Link>>, member: Object, setObject: Object): nat {
    if member in links then LinkTimes(links[member], setObject) else 0
  }

  predicate NoneEmpty(links: map<Object, seq<Link>>) {
    forall member | member in links :: links[member] != []
  }

  lemma RelinkedCounts(
      links: map<Object, seq<Link>>, gone: Object, dissolved: Object, member: Object, setObject: Object)
    ensures LinkCountIn(Relinked(links, gone, dissolved), member, setObject)
            == if member == gone && setObject == dissolved then 0 else LinkCountIn(links, member, setObject)
    ensures NoneEmpty(links) ==> NoneEmpty(Relinked(links, gone, dissolved))
  {
    if gone in links {
      LinkTimesUnlinked(links[gone], dissolved, setObject);
    }
  }

  lemma {:induction false} DissolvedCounts(
      links: map<Object, seq<Link>>, members: seq<Object>, dissolved: Object, member: Object, setObject: Object)
    ensures LinkCountIn(Dissolved(links, members, dissolved), member, setObject)
            == if member in members && setObject == dissolved then 0 else LinkCountIn(links, member, setObject)
    ensures NoneEmpty(links) ==> NoneEmpty(Dissolved(links, members, dissolved))
    decreases |members|
  {
    hide Relinked, LinkCountIn, NoneEmpty;
    if members != [] {
      RelinkedCounts(links, members[0], dissolved, member, setObject);
      DissolvedCounts(Relinked(links, members[0], dissolved), members[1..], dissolved, member, setObject);
      assert member in members <==> member == members[0] || member in members[1..];
    }
  }

  lemma {:induction false} WithdrawnCounts(
      portSets: map<Object, seq<Object>>, links: seq<Link>, gone: Object, setObject: Object, member: Object)
    ensures CountIn(Withdrawn(portSets, links, gone), setObject, member)
            == if member == gone && LinkTimes(links, setObject) > 0 then 0 else CountIn(portSets, setObject, member)
    decreases |links|
  {
    if links != [] {
      var first := links[0].setObject;
      var rest := if first in portSets then portSets[first := Erased(portSets[first], gone)] else portSets;
      if first in portSets {
        TimesErased(portSets[first], gone, member);
      }
      WithdrawnCounts(rest, links[1..], gone, setObject, member);
    }
  }

  // ---------- Every operation keeps the two directions inverse ----------

  lemma CountsAre(s: State, setObject: Object, member: Object)
    ensures Memberships(s, setObject, member) == CountIn(s.portSets, setObject, member)
    ensures LinkCount(s, setObject, member) == LinkCountIn(s.links, member, setObject)
  {}

  lemma InitialInverse()
    ensures Inverse(INITIAL)
  {}

  lemma CreateKeepsInverse(s: State, setObject: Object)
    requires Inverse(s)
    ensures Inverse(CreateSet(s, setObject).0)
  {
    var t := CreateSet(s, setObject).0;
    forall a, b
      ensures Memberships(t, a, b) == Memberships(s, a, b) && LinkCount(t, a, b) == LinkCount(s, a, b)
    {}
  }

  lemma InsertKeepsInverse(s: State, setObject: Object, member: Object)
    requires Inverse(s)
    ensures Inverse(InsertMember(s, setObject, member).0)
  {
    var (t, inserted) := InsertMember(s, setObject, member);
    if inserted {
      TimesMeansIn(s.portSets[setObject], member);
      forall a, b
        ensures Memberships(t, a, b) == LinkCount(t, a, b) <= 1
      {
        assert Memberships(s, a, b) == LinkCount(s, a, b) <= 1;
        TimesAppend(s.portSets[setObject], member, b);
        LinkTimesAppend(LinksOf(s, member), Link(setObject, Allocate(s.nextSequence).0), a);
      }
    }
  }

  lemma ExtractKeepsInverse(s: State, setObject: Object, member: Object)
    requires Inverse(s)
    ensures Inverse(ExtractMember(s, setObject, member).0)
  {
    var (t, extracted) := ExtractMember(s, setObject, member);
    if extracted {
      TimesMeansIn(s.portSets[setObject], member);
      assert Memberships(s, setObject, member) == LinkCount(s, setObject, member) <= 1;
      forall a, b
        ensures Memberships(t, a, b) == LinkCount(t, a, b) <= 1
      {
        assert Memberships(s, a, b) == LinkCount(s, a, b) <= 1;
        CountsAre(s, a, b);
        CountsAre(t, a, b);
        TimesWithoutFirst(s.portSets[setObject], member, b);
        RelinkedCounts(s.links, member, setObject, b, a);
      }
      RelinkedCounts(s.links, member, setObject, member, setObject);
    }
  }

  lemma RemoveFromAllKeepsInverse(s: State, member: Object)
    requires Inverse(s)
    ensures Inverse(RemoveFromAll(s, member).0)
  {
    var (t, removed) := RemoveFromAll(s, member);
    if removed {
      forall a, b
        ensures Memberships(t, a, b) == LinkCount(t, a, b) <= 1
      {
        assert Memberships(s, a, b) == LinkCount(s, a, b) <= 1;
        CountsAre(s, a, b);
        CountsAre(t, a, b);
        WithdrawnCounts(s.portSets, s.links[member], member, a, b);
      }
    }
  }

  lemma EraseSetKeepsInverse(s: State, setObject: Object)
    requires Inverse(s)
    ensures Inverse(EraseSet(s, setObject).0)
  {
    var (t, erased) := EraseSet(s, setObject);
    if erased {
      forall a, b
        ensures Memberships(t, a, b) == LinkCount(t, a, b) <= 1
      {
        assert Memberships(s, a, b) == LinkCount(s, a, b) <= 1;
        CountsAre(s, a, b);
        CountsAre(t, a, b);
        DissolvedCounts(s.links, s.portSets[setObject], setObject, b, a);
        TimesMeansIn(s.portSets[setObject], b);
      }
      DissolvedCounts(s.links, s.portSets[setObject], setObject, 0, 0);
    }
  }
}
