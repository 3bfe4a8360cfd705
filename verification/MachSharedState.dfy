/** KernelSharedState's port sets in place: the maps of MachPortSets.dfy's functions, mutated by loops. */
module MachSharedState {
  import opened MachPortSets

  /** std::find. */
  method Find(members: seq<Object>, member: Object) returns (index: nat)
    ensures index <= |members| && (index < |members| ==> members[index] == member)
    ensures member !in members[..index]
  {
    index := 0;
    while index < |members| && members[index] != member
      invariant index <= |members| && member !in members[..index]
    {
      index := index + 1;
    }
  }

  lemma {:induction false} FirstFound(members: seq<Object>, member: Object, index: nat)
    requires index < |members| && members[index] == member && member !in members[..index]
    ensures WithoutFirst(members, member) == members[..index] + members[index + 1..]
  {
    if index > 0 {
      assert members[..index][0] == members[0];
      assert members[1..][..index - 1] == members[..index][1..];
      FirstFound(members[1..], member, index - 1);
      assert members[..index] == [members[0]] + members[1..][..index - 1];
      assert members[1..][index..] == members[index + 1..];
    }
  }

  lemma {:induction false} ErasedOneMore(members: seq<Object>, last: Object, member: Object)
    ensures Erased(members + [last], member) == Erased(members, member) + if last == member then [] else [last]
  {
    if members == [] {
      assert [] + [last] == [last];
    } else {
      ErasedOneMore(members[1..], last, member);
      assert (members + [last])[1..] == members[1..] + [last];
    }
  }

  lemma {:induction false} UnlinkedOneMore(links: seq<Link>, last: Link, setObject: Object)
    ensures Unlinked(links + [last], setObject)
            == Unlinked(links, setObject) + if last.setObject == setObject then [] else [last]
  {
    if links == [] {
      assert [] + [last] == [last];
    } else {
      UnlinkedOneMore(links[1..], last, setObject);
      assert (links + [last])[1..] == links[1..] + [last];
    }
  }

  /** std::erase. */
  method Erase(members: seq<Object>, member: Object) returns (rest: seq<Object>)
    ensures rest == Erased(members, member)
  {
    rest := [];
    for i := 0 to |members|
      invariant rest == Erased(members[..i], member)
    {
      hide Erased;
      ErasedOneMore(members[..i], members[i], member);
      assert members[..i + 1] == members[..i] + [members[i]];
      if members[i] != member {
        rest := rest + [members[i]];
      }
    }
    assert members[..|members|] == members;
  }

  /** std::erase_if on the links to a set. */
  method EraseLinks(links: seq<Link>, setObject: Object) returns (rest: seq<Link>)
    ensures rest == Unlinked(links, setObject)
  {
    rest := [];
    for i := 0 to |links|
      invariant rest == Unlinked(links[..i], setObject)
    {
      hide Unlinked;
      UnlinkedOneMore(links[..i], links[i], setObject);
      assert links[..i + 1] == links[..i] + [links[i]];
      if links[i].setObject != setObject {
        rest := rest + [links[i]];
      }
    }
    assert links[..|links|] == links;
  }

  class KernelSharedState {
    var machPortSets: map<Object, seq<Object>>
    var machPortSetLinksByMember: map<Object, seq<Link>>
    var nextMachWaitQueueSequence: nat
    var machQueues: map<Object, seq<Message>>
    var machQueueGeneration: nat

    function View(): State
      reads this
    {
      State(machPortSets, machPortSetLinksByMember, nextMachWaitQueueSequence, machQueues, machQueueGeneration)
    }

    constructor ()
      ensures View() == INITIAL
    {
      machPortSets, machPortSetLinksByMember, nextMachWaitQueueSequence := map[], map[], 1;
      machQueues, machQueueGeneration := map[], 1;
    }

    method AllocateMachWaitQueueSequence() returns (sequence: nat)
      modifies this`nextMachWaitQueueSequence
      ensures (sequence, nextMachWaitQueueSequence) == Allocate(old(nextMachWaitQueueSequence))
    {
      sequence := nextMachWaitQueueSequence;
      nextMachWaitQueueSequence := Next(nextMachWaitQueueSequence);
      if sequence == 0 {
        sequence := 1;
        nextMachWaitQueueSequence := 2;
      }
    }

    method NoteMachQueueTopologyChange()
      modifies this`machQueueGeneration
      ensures machQueueGeneration == Next(old(machQueueGeneration))
    {
      machQueueGeneration := Next(machQueueGeneration);
    }

    method CreateMachPortSet(setObject: Object) returns (created: bool)
      modifies this
      ensures (View(), created) == CreateSet(old(View()), setObject)
    {
      created := setObject !in machPortSets;
      if created {
        machPortSets := machPortSets[setObject := []];
      }
    }

    method InsertMachPortSetMember(setObject: Object, member: Object) returns (inserted: bool)
      modifies this
      ensures (View(), inserted) == InsertMember(old(View()), setObject, member)
    {
      if setObject !in machPortSets {
        return false;
      }
      var index := Find(machPortSets[setObject], member);
      assert member in machPortSets[setObject] <==> index < |machPortSets[setObject]|;
      if index < |machPortSets[setObject]| {
        return false;
      }
      machPortSets := machPortSets[setObject := machPortSets[setObject] + [member]];
      var sequence := AllocateMachWaitQueueSequence();
      var links := if member in machPortSetLinksByMember then machPortSetLinksByMember[member] else [];
      machPortSetLinksByMember := machPortSetLinksByMember[member := links + [Link(setObject, sequence)]];
      NoteMachQueueTopologyChange();
      return true;
    }

    /** The part extract and erase share: a member's links to one set go, and an emptied list with them. */
    method Unlink(member: Object, setObject: Object)
      modifies this`machPortSetLinksByMember
      ensures machPortSetLinksByMember == Relinked(old(machPortSetLinksByMember), member, setObject)
    {
      if member in machPortSetLinksByMember {
        var rest := EraseLinks(machPortSetLinksByMember[member], setObject);
        machPortSetLinksByMember := machPortSetLinksByMember[member := rest];
        if rest == [] {
          machPortSetLinksByMember := machPortSetLinksByMember - {member};
        }
      }
    }

    method ExtractMachPortSetMember(setObject: Object, member: Object) returns (extracted: bool)
      modifies this
      ensures (View(), extracted) == ExtractMember(old(View()), setObject, member)
    {
      if setObject !in machPortSets {
        return false;
      }
      var members := machPortSets[setObject];
      var index := Find(members, member);
      assert member in members <==> index < |members|;
      if index == |members| {
        return false;
      }
      FirstFound(members, member, index);
      machPortSets := machPortSets[setObject := members[..index] + members[index + 1..]];
      Unlink(member, setObject);
      NoteMachQueueTopologyChange();
      return true;
    }

    method RemoveMachPortSetMemberFromAll(member: Object) returns (removed: bool)
      modifies this
      ensures (View(), removed) == RemoveFromAll(old(View()), member)
    {
      if member !in machPortSetLinksByMember {
        return false;
      }
      var links := machPortSetLinksByMember[member];
      for i := 0 to |links|
        invariant machPortSetLinksByMember == old(machPortSetLinksByMember)
        invariant nextMachWaitQueueSequence == old(nextMachWaitQueueSequence)
        invariant machQueues == old(machQueues) && machQueueGeneration == old(machQueueGeneration)
        invariant Withdrawn(machPortSets, links[i..], member) == Withdrawn(old(machPortSets), links, member)
      {
        assert links[i..][1..] == links[i + 1..];
        var setObject := links[i].setObject;
        if setObject in machPortSets {
          var rest := Erase(machPortSets[setObject], member);
          machPortSets := machPortSets[setObject := rest];
        }
      }
      machPortSetLinksByMember := machPortSetLinksByMember - {member};
      NoteMachQueueTopologyChange();
      return true;
    }

    method EraseMachPortSet(setObject: Object) returns (erased: bool)
      modifies this
      ensures (View(), erased) == EraseSet(old(View()), setObject)
    {
      if setObject !in machPortSets {
        return false;
      }
      var members := machPortSets[setObject];
      for i := 0 to |members|
        invariant machPortSets == old(machPortSets) && nextMachWaitQueueSequence == old(nextMachWaitQueueSequence)
        invariant machQueues == old(machQueues) && machQueueGeneration == old(machQueueGeneration)
        invariant Dissolved(machPortSetLinksByMember, members[i..], setObject)
                  == Dissolved(old(machPortSetLinksByMember), members, setObject)
      {
        assert members[i..][1..] == members[i + 1..];
        Unlink(members[i], setObject);
      }
      machPortSets := machPortSets - {setObject};
      NoteMachQueueTopologyChange();
      return true;
    }

    method EnqueueMachMessage(destination: Object, message: Message)
      modifies this
      ensures View() == Enqueue(old(View()), destination, message)
    {
      var queue := if destination in machQueues then machQueues[destination] else [];
      machQueues := machQueues[destination := queue + [message]];
      machQueueGeneration := Next(machQueueGeneration);
    }

    /** The removal of a port object, as far as these fields go. */
    method RemovePortObject(port: Object)
      modifies this
      ensures View() == RemovePort(old(View()), port)
    {
      var removed := RemoveMachPortSetMemberFromAll(port);
      var erased := EraseMachPortSet(port);
      machQueues := machQueues - {port};
    }
  }
}
