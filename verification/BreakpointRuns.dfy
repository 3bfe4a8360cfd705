/** BootGdbTarget's breakpoint methods, and runs that mix them with guest writes, forks and execs. */
module BreakpointRuns {
  import opened Wrappers
  import opened Breakpoints

  // ---------- Forks, and the end of debugging ----------

  /** A fork copies the parent's memory; the copy is then cleared of the parent's traps. */
  function Fork(t: Target, parent: nat, child: nat, places: seq<Place>): Target
    requires parent in t.spaces && forall i | 0 <= i < |places| :: places[i] in t.breakpoints
  {
    var space := t.spaces[parent];
    t.(spaces := t.spaces[child := space.(bytes := RestoreAll(space.bytes, t.breakpoints, places, parent))])
  }

  function RemoveAll(t: Target, places: seq<Place>): Target
    requires forall i | 0 <= i < |places| :: places[i] in t.breakpoints
  {
    t.(spaces := map process | process in t.spaces ::
         t.spaces[process].(bytes := RestoreAll(t.spaces[process].bytes, t.breakpoints, places, process)),
       breakpoints := map[])
  }

  predicate Unrecorded(t: Target, process: nat) {
    forall place | place in t.breakpoints :: place.0 != process
  }

  lemma UnrecordedIsOverlaid(bytes: map<nat, Byte>, breakpoints: map<Place, Record>, process: nat)
    requires WellFormed(breakpoints) && forall place | place in breakpoints :: place.0 != process
    ensures Overlaid(bytes, bytes, breakpoints, process)
  {}

  /** The child of a fork sees the program's own memory only. */
  lemma ForkKeepsOverlay(t: Target, pristine: map<nat, map<nat, Byte>>, parent: nat, child: nat, places: seq<Place>)
    requires Holds(t, pristine) && parent in t.spaces && Unrecorded(t, child) && Enumerates(places, t.breakpoints)
    ensures Fork(t, parent, child, places).spaces[child].bytes == pristine[parent]
    ensures Holds(Fork(t, parent, child, places), pristine[child := pristine[parent]])
  {
    hide Overlaid, RestoreAll, Disjoint, WellFormed;
    RestoringEverythingIsPristine(t.spaces[parent].bytes, pristine[parent], t.breakpoints, places, parent);
    UnrecordedIsOverlaid(pristine[parent], t.breakpoints, child);
  }

  lemma ExecForgets(breakpoints: map<Place, Record>, after: map<Place, Record>, process: nat)
    requires WellFormed(breakpoints) && Disjoint(breakpoints)
    requires after == map place | place in breakpoints && place.0 != process :: breakpoints[place]
    ensures WellFormed(after) && Disjoint(after) && forall place | place in after :: place.0 != process
    ensures forall other: nat | other != process :: SameFor(breakpoints, after, other)
  {}

  lemma ExecKeepsOverlay(t: Target, pristine: map<nat, map<nat, Byte>>, process: nat, image: AddressSpace)
    requires Holds(t, pristine)
    ensures Holds(Exec(t, process, image), pristine[process := image.bytes])
  {
    hide Overlaid, WellFormed, Disjoint, SameFor;
    var u := Exec(t, process, image);
    ExecForgets(t.breakpoints, u.breakpoints, process);
    UnrecordedIsOverlaid(image.bytes, u.breakpoints, process);
    forall other | other in t.spaces && other != process
      ensures Overlaid(t.spaces[other].bytes, pristine[other], u.breakpoints, other)
    {
      OthersStayOverlaid(t.spaces[other].bytes, pristine[other], t.breakpoints, u.breakpoints, other);
    }
  }

  /** Two record maps agree on a process. */
  ghost predicate SameFor(before: map<Place, Record>, after: map<Place, Record>, process: nat) {
    && (forall start: nat :: (process, start) in before <==> (process, start) in after)
    && (forall start: nat | (process, start) in before :: before[(process, start)] == after[(process, start)])
  }

  lemma SameCovers(before: map<Place, Record>, after: map<Place, Record>, process: nat, start: int, x: nat)
    requires SameFor(before, after, process)
    ensures Covers(after, process, start, x) == Covers(before, process, start, x)
  {}

  lemma SameOver(before: map<Place, Record>, after: map<Place, Record>, process: nat, x: nat)
    requires SameFor(before, after, process)
    ensures Over(after, process, x) == Over(before, process, x)
  {
    hide Covers, SameFor;
    SameCovers(before, after, process, x, x);
    SameCovers(before, after, process, x - 1, x);
    SameCovers(before, after, process, x - 2, x);
    SameCovers(before, after, process, x - 3, x);
  }

  lemma SameShown(
      pristine: map<nat, Byte>, before: map<Place, Record>, after: map<Place, Record>, process: nat, x: nat)
    requires WellFormed(before) && WellFormed(after) && SameFor(before, after, process) && x in pristine
    ensures Shown(pristine, after, process, x) == Shown(pristine, before, process, x)
  {
    hide Over, Trap, WellFormed;
    SameOver(before, after, process, x);
    if Over(before, process, x).Some? {
      assert (process, Over(before, process, x).value) in before;
    }
  }

  lemma OthersStayOverlaid(
      bytes: map<nat, Byte>, pristine: map<nat, Byte>, before: map<Place, Record>, after: map<Place, Record>,
      process: nat)
    requires WellFormed(before) && WellFormed(after) && SameFor(before, after, process)
    requires Overlaid(bytes, pristine, before, process)
    ensures Overlaid(bytes, pristine, after, process)
  {
    hide Over, Covers, Shown, Hides;
    forall x | x in pristine
      ensures Shown(pristine, after, process, x) == Shown(pristine, before, process, x)
    {
      SameShown(pristine, before, after, process, x);
    }
  }

  /** Ending the debugging session gives every process back its own memory. */
  lemma RemoveAllRestores(t: Target, pristine: map<nat, map<nat, Byte>>, places: seq<Place>)
    requires Holds(t, pristine) && Enumerates(places, t.breakpoints)
    ensures var u := RemoveAll(t, places);
            && u.breakpoints == map[] && u.spaces.Keys == pristine.Keys
            && forall process | process in u.spaces :: u.spaces[process].bytes == pristine[process]
  {
    hide RestoreAll, Overlaid;
    forall process | process in t.spaces
      ensures RestoreAll(t.spaces[process].bytes, t.breakpoints, places, process) == pristine[process]
    {
      RestoringEverythingIsPristine(t.spaces[process].bytes, pristine[process], t.breakpoints, places, process);
    }
  }

  // ---------- Runs ----------

  datatype Event =
    | Insert(thread: (nat, nat), address: nat, kind: nat)
    | Remove(thread: (nat, nat), address: nat, kind: nat)
    | Write(process: nat, address: nat, data: seq<Byte>)
    | Forked(parent: nat, child: nat, places: seq<Place>)
    | Execed(process: nat, image: AddressSpace)

  /** No overlap: granted new breakpoints and writes keep clear of the breakpoints there are, and a child is new. */
  ghost predicate Allowed(t: Target, e: Event) {
    match e
    case Insert(thread, address, kind) =>
      Accepted(t, thread, address, kind) ==> Clear(t.breakpoints, (thread.0, address), kind)
    case Remove(_, _, _) => true
    case Write(process, address, data) =>
      forall other | other in t.breakpoints :: Apart((process, address), |data|, other, t.breakpoints[other].kind)
    case Forked(parent, child, places) =>
      parent in t.spaces && Unrecorded(t, child) && Enumerates(places, t.breakpoints)
    case Execed(_, _) => true
  }

  ghost function Apply(t: Target, e: Event): Target
    requires Allowed(t, e)
  {
    match e
    case Insert(thread, address, kind) => InsertBreakpoint(t, thread, address, kind).0
    case Remove(thread, address, kind) => RemoveBreakpoint(t, thread, address, kind).0
    case Write(process, address, data) => WriteMemory(t, process, address, data).0
    case Forked(parent, child, places) => Fork(t, parent, child, places)
    case Execed(process, image) => Exec(t, process, image)
  }

  /** The same event in a world without a debugger. */
  ghost function Undebugged(t: Target, pristine: map<nat, map<nat, Byte>>, e: Event): map<nat, map<nat, Byte>>
    requires pristine.Keys == t.spaces.Keys && Allowed(t, e)
  {
    match e
    case Write(process, address, data) =>
      if WriteMemory(t, process, address, data).1 then
        pristine[process := Patched(pristine[process], address, data)]
      else pristine
    case Forked(parent, child, _) => pristine[child := pristine[parent]]
    case Execed(process, image) => pristine[process := image.bytes]
    case _ => pristine
  }

  /** A refused request, or one for a breakpoint that is there, changes nothing. */
  lemma NotAccepted(t: Target, thread: (nat, nat), address: nat, kind: nat)
    requires !Accepted(t, thread, address, kind)
    ensures InsertBreakpoint(t, thread, address, kind).0 == t
  {}

  lemma StepKeepsOverlay(t: Target, pristine: map<nat, map<nat, Byte>>, e: Event)
    requires Holds(t, pristine) && Allowed(t, e)
    ensures Holds(Apply(t, e), Undebugged(t, pristine, e))
  {
    hide Holds, Overlaid, InsertBreakpoint, RemoveBreakpoint, WriteMemory, Exec, Fork, Patched;
    match e
    case Insert(thread, address, kind) =>
      if Accepted(t, thread, address, kind) {
        InsertKeepsOverlay(t, pristine, thread, address, kind);
      } else {
        NotAccepted(t, thread, address, kind);
      }
    case Remove(thread, address, kind) => RemoveKeepsOverlay(t, pristine, thread, address, kind);
    case Write(process, address, data) => WriteKeepsOverlay(t, pristine, process, address, data);
    case Forked(parent, child, places) => ForkKeepsOverlay(t, pristine, parent, child, places);
    case Execed(process, image) => ExecKeepsOverlay(t, pristine, process, image);
  }

  /** Two worlds side by side: with the debugger, and without. */
  ghost predicate Reaches(
      t: Target, pristine: map<nat, map<nat, Byte>>, events: seq<Event>, u: Target, own: map<nat, map<nat, Byte>>)
    decreases |events|
  {
    if events == [] then u == t && own == pristine
    else
      && pristine.Keys == t.spaces.Keys && Allowed(t, events[0])
      && Reaches(Apply(t, events[0]), Undebugged(t, pristine, events[0]), events[1..], u, own)
  }

  /**
   After any run without overlaps, memory is what it would be without a
   debugger, with the traps laid over it at exactly the recorded addresses.
   */
  lemma {:induction false} EveryRunIsAnOverlay(
      t: Target, pristine: map<nat, map<nat, Byte>>, events: seq<Event>, u: Target, own: map<nat, map<nat, Byte>>)
    requires Holds(t, pristine) && Reaches(t, pristine, events, u, own)
    ensures Holds(u, own)
    decreases |events|
  {
    hide Holds, Apply, Undebugged, Allowed;
    if events != [] {
      StepKeepsOverlay(t, pristine, events[0]);
      EveryRunIsAnOverlay(Apply(t, events[0]), Undebugged(t, pristine, events[0]), events[1..], u, own);
    }
  }

  // ---------- The target ----------

  class BootGdbTarget {
    var spaces: map<nat, AddressSpace>
    var threads: set<(nat, nat)>
    var breakpoints: map<Place, Record>

    function View(): Target
      reads this
    {
      Target(spaces, threads, breakpoints)
    }

    constructor (spaces: map<nat, AddressSpace>, threads: set<(nat, nat)>)
      ensures View() == Target(spaces, threads, map[])
    {
      this.spaces, this.threads, breakpoints := spaces, threads, map[];
    }

    method InsertSoftwareBreakpoint(thread: (nat, nat), address: nat, kind: nat) returns (inserted: bool)
      modifies this
      ensures (View(), inserted) == InsertBreakpoint(old(View()), thread, address, kind)
    {
      if thread !in threads || thread.0 !in spaces || (kind != THUMB_SIZE && kind != ARM_SIZE) || address % kind != 0 {
        return false;
      }
      var place := (thread.0, address);
      if place in breakpoints {
        return breakpoints[place].kind == kind;
      }
      var original := ReadBytes(spaces[thread.0], address, kind);
      if original.None? {
        return false;
      }
      var instruction := if kind == THUMB_SIZE then THUMB_BREAKPOINT else ARM_BREAKPOINT;
      var patched := CopyIn(spaces[thread.0], address, instruction);
      if patched.None? {
        return false;
      }
      spaces := spaces[thread.0 := patched.value];
      breakpoints := breakpoints[place := Record(kind, original.value)];
      return true;
    }

    method RemoveSoftwareBreakpoint(thread: (nat, nat), address: nat, kind: nat) returns (removed: bool)
      modifies this
      ensures (View(), removed) == RemoveBreakpoint(old(View()), thread, address, kind)
    {
      var place := (thread.0, address);
      if thread !in threads || thread.0 !in spaces || place !in breakpoints || breakpoints[place].kind != kind {
        return false;
      }
      var patched := CopyIn(spaces[thread.0], address, breakpoints[place].original);
      if patched.None? {
        return false;
      }
      spaces := spaces[thread.0 := patched.value];
      breakpoints := breakpoints - {place};
      return true;
    }

    /**
     Forgets the records of a process whose image is replaced: once the new one
     is loaded, memory is an overlay again.
     */
    method NotifyExec(process: nat)
      modifies this`breakpoints
      ensures forall place :: place in breakpoints <==> place in old(breakpoints) && place.0 != process
      ensures forall place | place in breakpoints :: breakpoints[place] == old(breakpoints)[place]
      ensures forall own, image | Holds(old(View()), own) ::
                Holds(Target(spaces[process := image], threads, breakpoints), own[process := image.bytes])
    {
      var rest := breakpoints.Keys;
      while rest != {}
        invariant rest <= breakpoints.Keys
        invariant forall place :: place in breakpoints
                    <==> place in old(breakpoints) && (place.0 != process || place in rest)
        invariant forall place | place in breakpoints :: breakpoints[place] == old(breakpoints)[place]
      {
        var place :| place in rest;
        rest := rest - {place};
        if place.0 == process {
          breakpoints := breakpoints - {place};
        }
      }
      hide Holds;
      forall own, image | Holds(old(View()), own)
        ensures Holds(Target(spaces[process := image], threads, breakpoints), own[process := image.bytes])
      {
        ExecKeepsOverlay(old(View()), own, process, image);
        assert Exec(old(View()), process, image) == Target(spaces[process := image], threads, breakpoints);
      }
    }

    /** Walks the records in some order, and clears a fresh copy of the parent's memory. */
    method PrepareForkChild(parent: nat, memory: AddressSpace) returns (child: AddressSpace, ghost places: seq<Place>)
      requires WellFormed(breakpoints)
      ensures Enumerates(places, breakpoints)
      ensures child == memory.(bytes := RestoreAll(memory.bytes, breakpoints, places, parent))
      ensures forall own | Overlaid(memory.bytes, own, breakpoints, parent) :: child == memory.(bytes := own)
    {
      child, places := memory, [];
      var rest := breakpoints.Keys;
      while rest != {}
        invariant rest <= breakpoints.Keys
        invariant forall place :: place in places <==> place in breakpoints && place !in rest
        invariant forall i, j | 0 <= i < j < |places| :: places[i] != places[j]
        invariant forall i | 0 <= i < |places| :: places[i] in breakpoints
        invariant child == memory.(bytes := RestoreAll(memory.bytes, breakpoints, places, parent))
      {
        hide RestoreAll;
        var place :| place in rest;
        rest := rest - {place};
        RestoreOneMore(memory.bytes, breakpoints, places, place, parent);
        places := places + [place];
        if place.0 == parent {
          var patched := CopyIn(child, place.1, breakpoints[place].original);
          if patched.Some? {
            child := patched.value;
          }
        }
      }
      hide Overlaid;
      forall own | Overlaid(memory.bytes, own, breakpoints, parent)
        ensures child == memory.(bytes := own)
      {
        RestoringEverythingIsPristine(memory.bytes, own, breakpoints, places, parent);
      }
    }

    /** Restores every process's memory, record by record. */
    method RemoveAllBreakpoints() returns (ghost places: seq<Place>)
      requires WellFormed(breakpoints)
      modifies this
      ensures Enumerates(places, old(breakpoints)) && View() == RemoveAll(old(View()), places)
    {
      places := [];
      var rest := breakpoints.Keys;
      while rest != {}
        invariant rest <= breakpoints.Keys && breakpoints == old(breakpoints) && threads == old(threads)
        invariant forall place :: place in places <==> place in breakpoints && place !in rest
        invariant forall i, j | 0 <= i < j < |places| :: places[i] != places[j]
        invariant forall i | 0 <= i < |places| :: places[i] in breakpoints
        invariant spaces == RemoveAll(old(View()), places).spaces
      {
        hide RestoreAll, RemoveAll;
        var place :| place in rest;
        rest := rest - {place};
        RemoveOneMore(old(View()), places, place);
        places := places + [place];
        if place.0 in spaces {
          CopyInRestores(spaces[place.0], place.1, breakpoints[place]);
          var patched := CopyIn(spaces[place.0], place.1, breakpoints[place].original);
          if patched.Some? {
            spaces := spaces[place.0 := patched.value];
          }
        }
      }
      breakpoints := map[];
    }
  }

  /** Writing back a record's bytes is restoring it, and a range no longer mapped is left alone. */
  lemma CopyInRestores(space: AddressSpace, address: nat, record: Record)
    ensures var patched := CopyIn(space, address, record.original);
            space.(bytes := Restore(space.bytes, address, record)) == if patched.Some? then patched.value else space
  {}

  /** One more record restored changes the memory of its own process only. */
  lemma RemoveOneMore(t: Target, places: seq<Place>, place: Place)
    requires place in t.breakpoints && forall i | 0 <= i < |places| :: places[i] in t.breakpoints
    ensures var spaces := RemoveAll(t, places).spaces;
            && spaces.Keys == t.spaces.Keys
            && RemoveAll(t, places + [place]).spaces
               == if place.0 !in spaces then spaces
                  else
                    var bytes := Restore(spaces[place.0].bytes, place.1, t.breakpoints[place]);
                    spaces[place.0 := spaces[place.0].(bytes := bytes)]
  {
    hide RestoreAll, Restore;
    forall process | process in t.spaces
      ensures RestoreAll(t.spaces[process].bytes, t.breakpoints, places + [place], process)
              == if place.0 == process
                 then Restore(RestoreAll(t.spaces[process].bytes, t.breakpoints, places, process),
                              place.1, t.breakpoints[place])
                 else RestoreAll(t.spaces[process].bytes, t.breakpoints, places, process)
    {
      RestoreOneMore(t.spaces[process].bytes, t.breakpoints, places, place, process);
    }
  }

  lemma RestoreOneMore(
      bytes: map<nat, Byte>, breakpoints: map<Place, Record>, places: seq<Place>, place: Place, process: nat)
    requires place in breakpoints && forall i | 0 <= i < |places| :: places[i] in breakpoints
    ensures RestoreAll(bytes, breakpoints, places + [place], process)
            == if place.0 == process
               then Restore(RestoreAll(bytes, breakpoints, places, process), place.1, breakpoints[place])
               else RestoreAll(bytes, breakpoints, places, process)
  {
    hide Restore;
    assert (places + [place])[..|places|] == places;
  }
}
