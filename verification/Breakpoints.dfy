/**
 Software breakpoints as an overlay: trap instructions stand in guest memory
 at the recorded addresses, and the records hold what they hide.
 */
module Breakpoints {
  import opened Wrappers

  type Byte = n: nat | n < 0x100

  /** A process and an address in it. */
  type Place = (nat, nat)

  /** The bytes of the mapped addresses, and which of them may be read. */
  datatype AddressSpace = AddressSpace(bytes: map<nat, Byte>, readable: set<nat>)

  datatype Record = Record(kind: nat, original: seq<Byte>)

  datatype Target = Target(spaces: map<nat, AddressSpace>, threads: set<(nat, nat)>, breakpoints: map<Place, Record>)

  const THUMB_SIZE: nat := 2
  const ARM_SIZE: nat := 4
  const THUMB_BREAKPOINT: seq<Byte> := [0x00, 0xbe]
  const ARM_BREAKPOINT: seq<Byte> := [0x70, 0x00, 0x20, 0xe1]

  function Trap(kind: nat): (bytes: seq<Byte>)
    ensures |bytes| == if kind == THUMB_SIZE then THUMB_SIZE else ARM_SIZE
  {
    if kind == THUMB_SIZE then THUMB_BREAKPOINT else ARM_BREAKPOINT
  }

  // ---------- Memory ----------

  predicate Mapped(space: AddressSpace, address: nat, size: nat) {
    forall x | address <= x < address + size :: x in space.bytes
  }

  function Slice(bytes: map<nat, Byte>, address: nat, size: nat): (data: seq<Byte>)
    requires forall x | address <= x < address + size :: x in bytes
    ensures |data| == size && forall i | 0 <= i < size :: data[i] == bytes[address + i]
  {
    if size == 0 then [] else Slice(bytes, address, size - 1) + [bytes[address + size - 1]]
  }

  function ReadBytes(space: AddressSpace, address: nat, size: nat): (bytes: Option<seq<Byte>>)
    ensures bytes.Some? ==> |bytes.value| == size
  {
    if Mapped(space, address, size) && forall x | address <= x < address + size :: x in space.readable then
      Some(Slice(space.bytes, address, size))
    else None
  }

  /** The bytes with some of them replaced. */
  function Patched(bytes: map<nat, Byte>, address: nat, data: seq<Byte>): map<nat, Byte> {
    map x | x in bytes :: if address <= x < address + |data| then data[x - address] else bytes[x]
  }

  /** Writing needs the range mapped, not writable. */
  function CopyIn(space: AddressSpace, address: nat, data: seq<Byte>): Option<AddressSpace> {
    if Mapped(space, address, |data|) then Some(space.(bytes := Patched(space.bytes, address, data))) else None
  }

  // ---------- The operations ----------

  function InsertBreakpoint(t: Target, thread: (nat, nat), address: nat, kind: nat): (Target, bool) {
    var place := (thread.0, address);
    if thread !in t.threads || thread.0 !in t.spaces
       || (kind != THUMB_SIZE && kind != ARM_SIZE) || address % kind != 0 then
      (t, false)
    else if place in t.breakpoints then (t, t.breakpoints[place].kind == kind)
    else
      var original := ReadBytes(t.spaces[thread.0], address, kind);
      if original.None? then (t, false)
      else
        var patched := CopyIn(t.spaces[thread.0], address, Trap(kind));
        if patched.None? then (t, false)
        else
          (t.(spaces := t.spaces[thread.0 := patched.value],
              breakpoints := t.breakpoints[place := Record(kind, original.value)]), true)
  }

  function RemoveBreakpoint(t: Target, thread: (nat, nat), address: nat, kind: nat): (Target, bool) {
    var place := (thread.0, address);
    if thread !in t.threads || thread.0 !in t.spaces
       || place !in t.breakpoints || t.breakpoints[place].kind != kind then
      (t, false)
    else
      var patched := CopyIn(t.spaces[thread.0], address, t.breakpoints[place].original);
      if patched.None? then (t, false)
      else (t.(spaces := t.spaces[thread.0 := patched.value], breakpoints := t.breakpoints - {place}), true)
  }

  /** A write by the guest or the debugger. */
  function WriteMemory(t: Target, process: nat, address: nat, data: seq<Byte>): (Target, bool) {
    if process !in t.spaces then (t, false)
    else
      var patched := CopyIn(t.spaces[process], address, data);
      if patched.None? then (t, false) else (t.(spaces := t.spaces[process := patched.value]), true)
  }

  /** A new image replaces a process's memory, and its records go. */
  function Exec(t: Target, process: nat, image: AddressSpace): Target {
    t.(spaces := t.spaces[process := image],
       breakpoints := map place | place in t.breakpoints && place.0 != process :: t.breakpoints[place])
  }

  /** One step of restoring: what a record hides goes back, if its range is still mapped. */
  function Restore(bytes: map<nat, Byte>, address: nat, record: Record): map<nat, Byte> {
    if forall x | address <= x < address + |record.original| :: x in bytes
    then Patched(bytes, address, record.original)
    else bytes
  }

  /** Restores the records of a process in the order of a list of places. */
  function RestoreAll(bytes: map<nat, Byte>, breakpoints: map<Place, Record>, places: seq<Place>, process: nat)
    : map<nat, Byte>
    requires forall i | 0 <= i < |places| :: places[i] in breakpoints
  {
    if places == [] then bytes
    else
      var last := places[|places| - 1];
      var before := RestoreAll(bytes, breakpoints, places[..|places| - 1], process);
      if last.0 == process then Restore(before, last.1, breakpoints[last]) else before
  }

  // ---------- What each operation does ----------

  /** Only the addresses of a range hold something else, namely these bytes. */
  ghost predicate Overwritten(before: AddressSpace, after: AddressSpace, address: nat, data: seq<Byte>) {
    && after.readable == before.readable && after.bytes.Keys == before.bytes.Keys
    && (forall i | 0 <= i < |data| :: address + i in after.bytes && after.bytes[address + i] == data[i])
    && forall x | x in before.bytes && !(address <= x < address + |data|) :: after.bytes[x] == before.bytes[x]
  }

  ghost predicate OnlySpace(t: Target, u: Target, process: nat) {
    && u.threads == t.threads && u.spaces.Keys == t.spaces.Keys
    && forall other | other in t.spaces && other != process :: u.spaces[other] == t.spaces[other]
  }

  /**
   An insertion is granted for a known thread, an aligned address and a size of two
   or four: at a place that has a breakpoint, exactly of the same size and without
   effect; at a new one exactly where memory is mapped and readable, where the trap
   then stands, and the record holds what stood there.
   */
  lemma InsertExactly(t: Target, thread: (nat, nat), address: nat, kind: nat)
    ensures var (u, granted) := InsertBreakpoint(t, thread, address, kind);
            var place := (thread.0, address);
            && (granted <==>
                 && thread in t.threads && thread.0 in t.spaces && kind in {2, 4} && address % kind == 0
                 && if place in t.breakpoints then t.breakpoints[place].kind == kind
                    else forall x | address <= x < address + kind ::
                           x in t.spaces[thread.0].bytes && x in t.spaces[thread.0].readable)
            && (!granted || place in t.breakpoints ==> u == t)
            && (granted && place !in t.breakpoints ==>
                 && u.breakpoints.Keys == t.breakpoints.Keys + {place}
                 && (forall other | other in t.breakpoints :: u.breakpoints[other] == t.breakpoints[other])
                 && u.breakpoints[place].kind == |u.breakpoints[place].original| == kind
                 && (forall i | 0 <= i < kind :: address + i in t.spaces[thread.0].bytes
                       && u.breakpoints[place].original[i] == t.spaces[thread.0].bytes[address + i])
                 && OnlySpace(t, u, thread.0)
                 && Overwritten(t.spaces[thread.0], u.spaces[thread.0], address,
                                if kind == 2 then [0x00, 0xbe] else [0x70, 0x00, 0x20, 0xe1]))
  {}

  /** A removal is granted exactly for a breakpoint of that size whose memory is mapped; its bytes go back. */
  lemma RemoveExactly(t: Target, thread: (nat, nat), address: nat, kind: nat)
    ensures var (u, granted) := RemoveBreakpoint(t, thread, address, kind);
            var place := (thread.0, address);
            && (granted <==>
                 && thread in t.threads && thread.0 in t.spaces
                 && place in t.breakpoints && t.breakpoints[place].kind == kind
                 && forall x | address <= x < address + |t.breakpoints[place].original| ::
                      x in t.spaces[thread.0].bytes)
            && (!granted ==> u == t)
            && (granted ==>
                 && u.breakpoints == t.breakpoints - {place} && OnlySpace(t, u, thread.0)
                 && Overwritten(t.spaces[thread.0], u.spaces[thread.0], address, t.breakpoints[place].original))
  {}

  /** A write is granted exactly where memory is mapped, and changes those bytes only. */
  lemma WriteExactly(t: Target, process: nat, address: nat, data: seq<Byte>)
    ensures var (u, granted) := WriteMemory(t, process, address, data);
            && (granted <==> process in t.spaces
                             && forall x | address <= x < address + |data| :: x in t.spaces[process].bytes)
            && (!granted ==> u == t)
            && (granted ==> u.breakpoints == t.breakpoints && OnlySpace(t, u, process)
                            && Overwritten(t.spaces[process], u.spaces[process], address, data))
  {}

  // ---------- The overlay ----------

  predicate Covers(breakpoints: map<Place, Record>, process: nat, start: int, x: nat) {
    0 <= start <= x && (process, start) in breakpoints && x - start < breakpoints[(process, start)].kind
  }

  /** The start of the breakpoint over an address; none reaches further back than three bytes. */
  function Over(breakpoints: map<Place, Record>, process: nat, x: nat): (start: Option<nat>)
    ensures start.Some? ==> Covers(breakpoints, process, start.value, x)
  {
    if Covers(breakpoints, process, x, x) then Some(x)
    else if Covers(breakpoints, process, x - 1, x) then Some(x - 1)
    else if Covers(breakpoints, process, x - 2, x) then Some(x - 2)
    else if Covers(breakpoints, process, x - 3, x) then Some(x - 3)
    else None
  }

  predicate WellFormed(breakpoints: map<Place, Record>) {
    forall place | place in breakpoints ::
      && (breakpoints[place].kind == THUMB_SIZE || breakpoints[place].kind == ARM_SIZE)
      && |breakpoints[place].original| == breakpoints[place].kind
  }

  predicate Apart(a: Place, kindA: nat, b: Place, kindB: nat) {
    a.0 != b.0 || a.1 + kindA <= b.1 || b.1 + kindB <= a.1
  }

  predicate Disjoint(breakpoints: map<Place, Record>) {
    forall a, b | a in breakpoints && b in breakpoints && a != b ::
      Apart(a, breakpoints[a].kind, b, breakpoints[b].kind)
  }

  /** What stands at an address: a trap byte, or the program's own byte. */
  function Shown(pristine: map<nat, Byte>, breakpoints: map<Place, Record>, process: nat, x: nat): Byte
    requires x in pristine && WellFormed(breakpoints)
  {
    match Over(breakpoints, process, x)
    case Some(start) => Trap(breakpoints[(process, start)].kind)[x - start]
    case None => pristine[x]
  }

  /** A record holds the program's own bytes. */
  predicate Hides(pristine: map<nat, Byte>, start: nat, record: Record)
    requires |record.original| == record.kind
  {
    forall x | start <= x < start + record.kind :: x in pristine && record.original[x - start] == pristine[x]
  }

  /** Memory is the program's own with the traps laid over it, and every record holds what its trap hides. */
  ghost predicate Overlaid(
      bytes: map<nat, Byte>, pristine: map<nat, Byte>, breakpoints: map<Place, Record>, process: nat)
    requires WellFormed(breakpoints)
  {
    && bytes.Keys == pristine.Keys
    && (forall x | x in pristine :: bytes[x] == Shown(pristine, breakpoints, process, x))
    && (forall start | (process, start) in breakpoints :: Hides(pristine, start, breakpoints[(process, start)]))
  }

  ghost predicate Holds(t: Target, pristine: map<nat, map<nat, Byte>>) {
    && WellFormed(t.breakpoints) && Disjoint(t.breakpoints)
    && pristine.Keys == t.spaces.Keys
    && forall process | process in t.spaces ::
         Overlaid(t.spaces[process].bytes, pristine[process], t.breakpoints, process)
  }

  lemma Clash(a: Place, kindA: nat, b: Place, kindB: nat, x: nat)
    requires a.0 == b.0 && a.1 <= x < a.1 + kindA && b.1 <= x < b.1 + kindB
    ensures !Apart(a, kindA, b, kindB)
  {}

  /** Under disjoint breakpoints the one over an address is the only one. */
  lemma OverIsTheOne(breakpoints: map<Place, Record>, process: nat, start: nat, x: nat)
    requires WellFormed(breakpoints) && Disjoint(breakpoints) && Covers(breakpoints, process, start, x)
    ensures Over(breakpoints, process, x) == Some(start)
  {
    var found := Over(breakpoints, process, x).value;
    if found != start {
      Clash((process, found), breakpoints[(process, found)].kind,
            (process, start), breakpoints[(process, start)].kind, x);
    }
  }

  /** A range touches no other breakpoint's. */
  predicate Clear(breakpoints: map<Place, Record>, place: Place, size: nat) {
    forall other | other in breakpoints && other != place :: Apart(place, size, other, breakpoints[other].kind)
  }

  lemma ClearHasNothingOver(breakpoints: map<Place, Record>, place: Place, size: nat, x: nat)
    requires Clear(breakpoints, place, size) && place !in breakpoints && place.1 <= x < place.1 + size
    ensures Over(breakpoints, place.0, x).None?
  {
    if Over(breakpoints, place.0, x).Some? {
      var start := Over(breakpoints, place.0, x).value;
      Clash(place, size, (place.0, start), breakpoints[(place.0, start)].kind, x);
    }
  }

  lemma PlantedOver(breakpoints: map<Place, Record>, place: Place, record: Record, process: nat, x: nat)
    requires WellFormed(breakpoints) && place !in breakpoints && Clear(breakpoints, place, record.kind)
    requires record.kind == THUMB_SIZE || record.kind == ARM_SIZE
    ensures Over(breakpoints[place := record], process, x)
            == if process == place.0 && place.1 <= x < place.1 + record.kind then Some(place.1)
               else Over(breakpoints, process, x)
  {
    var planted := breakpoints[place := record];
    assert forall start: int :: (process, start) != place ==>
        Covers(planted, process, start, x) == Covers(breakpoints, process, start, x);
    if process == place.0 && place.1 <= x < place.1 + record.kind {
      ClearHasNothingOver(breakpoints, place, record.kind, x);
    }
  }

  lemma PlantedShown(
      bytes: map<nat, Byte>, pristine: map<nat, Byte>, breakpoints: map<Place, Record>, place: Place, record: Record,
      process: nat, x: nat)
    requires WellFormed(breakpoints) && WellFormed(breakpoints[place := record])
    requires record.kind == THUMB_SIZE || record.kind == ARM_SIZE
    requires place !in breakpoints && Clear(breakpoints, place, record.kind)
    requires x in pristine && x in bytes && bytes[x] == Shown(pristine, breakpoints, process, x)
    ensures Shown(pristine, breakpoints[place := record], process, x)
            == if process == place.0 && place.1 <= x < place.1 + record.kind then Trap(record.kind)[x - place.1]
               else bytes[x]
  {
    hide Over, Clear, Trap;
    assert breakpoints[place := record][place] == record;
    PlantedOver(breakpoints, place, record, process, x);
  }

  /** Planting a trap and recording what it hides keeps the overlay. */
  lemma PlantKeepsOverlaid(
      bytes: map<nat, Byte>, pristine: map<nat, Byte>, breakpoints: map<Place, Record>, place: Place, record: Record,
      process: nat)
    requires WellFormed(breakpoints) && Overlaid(bytes, pristine, breakpoints, process)
    requires place !in breakpoints && Clear(breakpoints, place, record.kind)
    requires (record.kind == THUMB_SIZE || record.kind == ARM_SIZE) && |record.original| == record.kind
    requires process == place.0 ==>
               forall x | place.1 <= x < place.1 + record.kind :: x in bytes && record.original[x - place.1] == bytes[x]
    ensures WellFormed(breakpoints[place := record])
    ensures var after := if process == place.0 then Patched(bytes, place.1, Trap(record.kind)) else bytes;
            Overlaid(after, pristine, breakpoints[place := record], process)
  {
    hide Over, Clear, Shown, Disjoint;
    assert WellFormed(breakpoints[place := record]);
    forall x | x in pristine
      ensures bytes[x] == Shown(pristine, breakpoints, process, x)
      ensures Shown(pristine, breakpoints[place := record], process, x)
              == if process == place.0 && place.1 <= x < place.1 + record.kind then Trap(record.kind)[x - place.1]
                 else bytes[x]
    {
      PlantedShown(bytes, pristine, breakpoints, place, record, process, x);
    }
    if process == place.0 {
      forall x | place.1 <= x < place.1 + record.kind
        ensures x in pristine && record.original[x - place.1] == pristine[x]
      {
        NothingShownIsPristine(pristine, breakpoints, place, record.kind, x);
      }
    }
  }

  lemma NothingShownIsPristine(
      pristine: map<nat, Byte>, breakpoints: map<Place, Record>, place: Place, size: nat, x: nat)
    requires WellFormed(breakpoints) && Clear(breakpoints, place, size) && place !in breakpoints
    requires place.1 <= x < place.1 + size && x in pristine
    ensures Shown(pristine, breakpoints, place.0, x) == pristine[x]
  {
    ClearHasNothingOver(breakpoints, place, size, x);
  }

  lemma ClearKeepsDisjoint(breakpoints: map<Place, Record>, place: Place, record: Record)
    requires Disjoint(breakpoints) && place !in breakpoints && Clear(breakpoints, place, record.kind)
    ensures Disjoint(breakpoints[place := record])
  {}

  /** A breakpoint whose range is clear of the others leaves the program's own memory as it was. */
  lemma InsertKeepsOverlay(t: Target, pristine: map<nat, map<nat, Byte>>, thread: (nat, nat), address: nat, kind: nat)
    requires Holds(t, pristine) && Clear(t.breakpoints, (thread.0, address), kind)
    ensures Holds(InsertBreakpoint(t, thread, address, kind).0, pristine)
  {
    hide Overlaid, Disjoint, Clear;
    var place := (thread.0, address);
    var u := InsertBreakpoint(t, thread, address, kind).0;
    if place in u.breakpoints && place !in t.breakpoints {
      ClearKeepsDisjoint(t.breakpoints, place, u.breakpoints[place]);
      forall process | process in t.spaces
        ensures Overlaid(u.spaces[process].bytes, pristine[process], u.breakpoints, process)
      {
        PlantKeepsOverlaid(t.spaces[process].bytes, pristine[process], t.breakpoints,
                           place, u.breakpoints[place], process);
      }
    }
  }

  // ---------- Overlaps ----------

  /** What the record of the breakpoint over an address says lies under it is what its trap shows there. */
  predicate Unchanged(breakpoints: map<Place, Record>, process: nat, x: nat)
    requires WellFormed(breakpoints)
  {
    match Over(breakpoints, process, x)
    case None => true
    case Some(start) =>
      breakpoints[(process, start)].original[x - start] == Trap(breakpoints[(process, start)].kind)[x - start]
  }

  lemma ShownIsOwn(
      bytes: map<nat, Byte>, pristine: map<nat, Byte>, breakpoints: map<Place, Record>, process: nat, x: nat)
    requires WellFormed(breakpoints) && Overlaid(bytes, pristine, breakpoints, process) && x in pristine
    ensures bytes[x] == pristine[x] <==> Unchanged(breakpoints, process, x)
  {
    if Over(breakpoints, process, x).Some? {
      var start := Over(breakpoints, process, x).value;
      assert Hides(pristine, start, breakpoints[(process, start)]);
    }
  }

  /** A new place, and a request the target grants. */
  predicate Accepted(t: Target, thread: (nat, nat), address: nat, kind: nat) {
    (thread.0, address) !in t.breakpoints && InsertBreakpoint(t, thread, address, kind).1
  }

  lemma AcceptedInsert(t: Target, thread: (nat, nat), address: nat, kind: nat)
    requires Accepted(t, thread, address, kind)
    ensures var u := InsertBreakpoint(t, thread, address, kind).0;
            && thread.0 in t.spaces && (kind == THUMB_SIZE || kind == ARM_SIZE)
            && (forall x | address <= x < address + kind :: x in t.spaces[thread.0].bytes)
            && u.breakpoints
               == t.breakpoints[(thread.0, address) := Record(kind, Slice(t.spaces[thread.0].bytes, address, kind))]
  {}

  lemma AcceptedBytes(t: Target, thread: (nat, nat), address: nat, kind: nat)
    requires Accepted(t, thread, address, kind)
    ensures var u := InsertBreakpoint(t, thread, address, kind).0;
            && thread.0 in t.spaces && u.spaces.Keys == t.spaces.Keys
            && u.spaces[thread.0].bytes == Patched(t.spaces[thread.0].bytes, address, Trap(kind))
  {}

  /**
   A granted new breakpoint records the program's own bytes exactly when every
   breakpoint its range overlaps already recorded, there, the very bytes its
   trap shows.
   */
  lemma RecordsOwnBytesExactly(
      t: Target, pristine: map<nat, map<nat, Byte>>, thread: (nat, nat), address: nat, kind: nat)
    requires Holds(t, pristine) && Accepted(t, thread, address, kind)
    ensures thread.0 in pristine
    ensures var record := InsertBreakpoint(t, thread, address, kind).0.breakpoints[(thread.0, address)];
            && |record.original| == record.kind
            && (Hides(pristine[thread.0], address, record)
                <==> forall x | address <= x < address + kind :: Unchanged(t.breakpoints, thread.0, x))
  {
    AcceptedInsert(t, thread, address, kind);
    hide InsertBreakpoint, Unchanged, Over, Disjoint;
    var bytes, own := t.spaces[thread.0].bytes, pristine[thread.0];
    forall x | address <= x < address + kind
      ensures x in own && (bytes[x] == own[x] <==> Unchanged(t.breakpoints, thread.0, x))
    {
      ShownIsOwn(bytes, own, t.breakpoints, thread.0, x);
    }
  }

  /** A granted new breakpoint keeps the overlay exactly when its range is clear of the others. */
  lemma InsertKeepsOverlayExactly(
      t: Target, pristine: map<nat, map<nat, Byte>>, thread: (nat, nat), address: nat, kind: nat)
    requires Holds(t, pristine) && Accepted(t, thread, address, kind)
    ensures Holds(InsertBreakpoint(t, thread, address, kind).0, pristine)
            <==> Clear(t.breakpoints, (thread.0, address), kind)
  {
    AcceptedInsert(t, thread, address, kind);
    hide InsertBreakpoint, Overlaid;
    var place, u := (thread.0, address), InsertBreakpoint(t, thread, address, kind).0;
    if Clear(t.breakpoints, place, kind) {
      InsertKeepsOverlay(t, pristine, thread, address, kind);
    } else {
      var other :| other in t.breakpoints && other != place
                   && !Apart(place, kind, other, t.breakpoints[other].kind);
      assert u.breakpoints[other] == t.breakpoints[other] && u.breakpoints[place].kind == kind;
      assert !Disjoint(u.breakpoints);
    }
  }

  // ---------- Removing ----------

  lemma LiftedOver(breakpoints: map<Place, Record>, place: Place, process: nat, x: nat)
    requires WellFormed(breakpoints) && Disjoint(breakpoints) && place in breakpoints
    ensures Over(breakpoints - {place}, process, x)
            == if process == place.0 && place.1 <= x < place.1 + breakpoints[place].kind then None
               else Over(breakpoints, process, x)
  {
    var lifted := breakpoints - {place};
    assert forall start: int :: (process, start) != place ==>
        Covers(lifted, process, start, x) == Covers(breakpoints, process, start, x);
    if process == place.0 && place.1 <= x < place.1 + breakpoints[place].kind {
      forall start: int
        ensures !Covers(lifted, process, start, x)
      {
        NothingElseCovers(breakpoints, place, start, x);
      }
    }
  }

  lemma NothingElseCovers(breakpoints: map<Place, Record>, place: Place, start: int, x: nat)
    requires WellFormed(breakpoints) && Disjoint(breakpoints) && place in breakpoints
    requires place.1 <= x < place.1 + breakpoints[place].kind
    ensures !Covers(breakpoints - {place}, place.0, start, x)
  {
    if Covers(breakpoints, place.0, start, x) {
      OverIsTheOne(breakpoints, place.0, place.1, x);
      OverIsTheOne(breakpoints, place.0, start, x);
    }
  }

  /** Putting back what a record hides, and forgetting the record, keeps the overlay. */
  lemma LiftKeepsOverlaid(
      bytes: map<nat, Byte>, pristine: map<nat, Byte>, breakpoints: map<Place, Record>, place: Place, process: nat)
    requires WellFormed(breakpoints) && Disjoint(breakpoints) && Overlaid(bytes, pristine, breakpoints, process)
    requires place in breakpoints
    ensures WellFormed(breakpoints - {place}) && Disjoint(breakpoints - {place})
    ensures var after := if process == place.0 then Patched(bytes, place.1, breakpoints[place].original) else bytes;
            Overlaid(after, pristine, breakpoints - {place}, process)
  {
    hide Over;
    forall x | x in pristine
      ensures var after := if process == place.0 then Patched(bytes, place.1, breakpoints[place].original) else bytes;
              after[x] == Shown(pristine, breakpoints - {place}, process, x)
    {
      LiftedOver(breakpoints, place, process, x);
      if process == place.0 {
        assert Hides(pristine, place.1, breakpoints[(process, place.1)]);
      }
    }
  }

  /** Removing restores precisely what stood under the trap. */
  lemma RemoveKeepsOverlay(t: Target, pristine: map<nat, map<nat, Byte>>, thread: (nat, nat), address: nat, kind: nat)
    requires Holds(t, pristine)
    ensures Holds(RemoveBreakpoint(t, thread, address, kind).0, pristine)
  {
    hide Overlaid, Disjoint, WellFormed;
    var place := (thread.0, address);
    var (u, removed) := RemoveBreakpoint(t, thread, address, kind);
    if removed {
      forall process | process in t.spaces
        ensures WellFormed(u.breakpoints) && Disjoint(u.breakpoints)
        ensures Overlaid(u.spaces[process].bytes, pristine[process], u.breakpoints, process)
      {
        LiftKeepsOverlaid(t.spaces[process].bytes, pristine[process], t.breakpoints, place, process);
      }
      assert thread.0 in t.spaces;
    }
  }

  /** Inserting and then removing a breakpoint is no change at all. */
  lemma InsertThenRemove(t: Target, thread: (nat, nat), address: nat, kind: nat)
    requires (thread.0, address) !in t.breakpoints
    ensures var (u, inserted) := InsertBreakpoint(t, thread, address, kind);
            inserted ==> RemoveBreakpoint(u, thread, address, kind) == (t, true)
  {
    var (u, inserted) := InsertBreakpoint(t, thread, address, kind);
    if inserted {
      WriteAndBack(t.spaces[thread.0], address, kind);
      hide CopyIn, ReadBytes, Trap;
      assert u.breakpoints - {(thread.0, address)} == t.breakpoints;
      assert u.spaces[thread.0 := t.spaces[thread.0]] == t.spaces;
    }
  }

  lemma WriteAndBack(space: AddressSpace, address: nat, kind: nat)
    requires kind == THUMB_SIZE || kind == ARM_SIZE
    requires ReadBytes(space, address, kind).Some? && CopyIn(space, address, Trap(kind)).Some?
    ensures CopyIn(CopyIn(space, address, Trap(kind)).value, address, ReadBytes(space, address, kind).value)
            == Some(space)
  {
    PatchedBack(space.bytes, address, Trap(kind), Slice(space.bytes, address, kind));
  }

  lemma PatchedBack(bytes: map<nat, Byte>, address: nat, data: seq<Byte>, original: seq<Byte>)
    requires |original| == |data|
    requires forall x | address <= x < address + |data| :: x in bytes
    requires forall i | 0 <= i < |data| :: original[i] == bytes[address + i]
    ensures Patched(Patched(bytes, address, data), address, original) == bytes
  {}

  // ---------- Writing around breakpoints ----------

  /** A write that touches no breakpoint changes memory and the program's own memory alike. */
  lemma WriteKeepsOverlay(t: Target, pristine: map<nat, map<nat, Byte>>, process: nat, address: nat, data: seq<Byte>)
    requires Holds(t, pristine)
    requires forall other | other in t.breakpoints ::
      Apart((process, address), |data|, other, t.breakpoints[other].kind)
    ensures var (u, written) := WriteMemory(t, process, address, data);
            Holds(u, if written then pristine[process := Patched(pristine[process], address, data)] else pristine)
  {
    hide Over;
    var (u, written) := WriteMemory(t, process, address, data);
    if written {
      var own := Patched(pristine[process], address, data);
      assert Overlaid(t.spaces[process].bytes, pristine[process], t.breakpoints, process);
      forall x | x in own
        ensures u.spaces[process].bytes[x] == Shown(own, t.breakpoints, process, x)
      {
        if address <= x < address + |data| && Over(t.breakpoints, process, x).Some? {
          var start := Over(t.breakpoints, process, x).value;
          Clash((process, address), |data|, (process, start), t.breakpoints[(process, start)].kind, x);
        }
      }
      forall start | (process, start) in t.breakpoints
        ensures Hides(own, start, t.breakpoints[(process, start)])
      {
        assert Hides(pristine[process], start, t.breakpoints[(process, start)]);
        assert Apart((process, address), |data|, (process, start), t.breakpoints[(process, start)].kind);
      }
    }
  }

  // ---------- Restoring everything ----------

  /** A list of places that names every record once. */
  ghost predicate Enumerates(places: seq<Place>, breakpoints: map<Place, Record>) {
    && (forall place :: place in places <==> place in breakpoints)
    && (forall i, j | 0 <= i < j < |places| :: places[i] != places[j])
  }

  predicate Under(breakpoints: map<Place, Record>, place: Place, process: nat, x: nat) {
    place.0 == process && place in breakpoints && place.1 <= x < place.1 + breakpoints[place].kind
  }

  ghost predicate Untouched(breakpoints: map<Place, Record>, places: seq<Place>, process: nat, x: nat) {
    forall i | 0 <= i < |places| :: !Under(breakpoints, places[i], process, x)
  }

  /** Memory shows the program's own bytes where places were restored and is unchanged elsewhere. */
  ghost predicate Restored(
      restored: map<nat, Byte>, bytes: map<nat, Byte>, pristine: map<nat, Byte>, breakpoints: map<Place, Record>,
      places: seq<Place>, process: nat)
  {
    && restored.Keys == bytes.Keys == pristine.Keys
    && forall x | x in pristine ::
         restored[x] == pristine[x] || (restored[x] == bytes[x] && Untouched(breakpoints, places, process, x))
  }

  lemma OneMoreRestored(
      before: map<nat, Byte>, bytes: map<nat, Byte>, pristine: map<nat, Byte>, breakpoints: map<Place, Record>,
      places: seq<Place>, last: Place, process: nat)
    requires WellFormed(breakpoints) && last in breakpoints
    requires Restored(before, bytes, pristine, breakpoints, places, process)
    requires last.0 == process ==> Hides(pristine, last.1, breakpoints[last])
    ensures var after := if last.0 == process then Restore(before, last.1, breakpoints[last]) else before;
            Restored(after, bytes, pristine, breakpoints, places + [last], process)
  {
    forall x | x in pristine && Untouched(breakpoints, places, process, x) && !Under(breakpoints, last, process, x)
      ensures Untouched(breakpoints, places + [last], process, x)
    {}
  }

  lemma {:induction false} RestoredSoFar(
      bytes: map<nat, Byte>, pristine: map<nat, Byte>, breakpoints: map<Place, Record>, places: seq<Place>,
      process: nat)
    requires WellFormed(breakpoints) && Overlaid(bytes, pristine, breakpoints, process)
    requires forall i | 0 <= i < |places| :: places[i] in breakpoints
    ensures Restored(RestoreAll(bytes, breakpoints, places, process), bytes, pristine, breakpoints, places, process)
  {
    hide WellFormed, Restore, Hides, Shown;
    if places != [] {
      var n := |places| - 1;
      RestoredSoFar(bytes, pristine, breakpoints, places[..n], process);
      assert places == places[..n] + [places[n]];
      assert places[n].0 == process ==> (process, places[n].1) in breakpoints;
      OneMoreRestored(RestoreAll(bytes, breakpoints, places[..n], process), bytes, pristine, breakpoints,
                      places[..n], places[n], process);
    }
  }

  /**
   Restoring every record of a process, in any order, gives the program's own
   memory: so do removing all breakpoints, and preparing the copy a fork made.
   */
  lemma RestoringEverythingIsPristine(
      bytes: map<nat, Byte>, pristine: map<nat, Byte>, breakpoints: map<Place, Record>, places: seq<Place>,
      process: nat)
    requires WellFormed(breakpoints) && Overlaid(bytes, pristine, breakpoints, process)
    requires Enumerates(places, breakpoints)
    ensures RestoreAll(bytes, breakpoints, places, process) == pristine
  {
    hide RestoreAll, Overlaid, WellFormed, Untouched;
    RestoredSoFar(bytes, pristine, breakpoints, places, process);
    forall x | x in pristine && Untouched(breakpoints, places, process, x)
      ensures bytes[x] == pristine[x]
    {
      UntouchedIsPristine(bytes, pristine, breakpoints, places, process, x);
    }
  }

  lemma UntouchedIsPristine(
      bytes: map<nat, Byte>, pristine: map<nat, Byte>, breakpoints: map<Place, Record>, places: seq<Place>,
      process: nat, x: nat)
    requires WellFormed(breakpoints) && Overlaid(bytes, pristine, breakpoints, process)
    requires Enumerates(places, breakpoints) && x in pristine
    requires Untouched(breakpoints, places, process, x)
    ensures x in bytes && bytes[x] == pristine[x]
  {
    if Over(breakpoints, process, x).Some? {
      var place := (process, Over(breakpoints, process, x).value);
      assert place in places;
      var i :| 0 <= i < |places| && places[i] == place;
      assert Under(breakpoints, places[i], process, x);
    }
  }

// ---------- Restoring an overlap ----------

  /** The order of the records: by address within a process. */
  ghost predicate Ascending(places: seq<Place>) {
    forall i, j | 0 <= i < j < |places| && places[i].0 == places[j].0 :: places[i].1 < places[j].1
  }

  /** The start of the last of the places that lies over an address. */
  function LastOver(breakpoints: map<Place, Record>, places: seq<Place>, process: nat, x: nat): (start: Option<nat>)
    ensures start.Some? ==> Under(breakpoints, (process, start.value), process, x)
  {
    if places == [] then None
    else
      var last := places[|places| - 1];
      if Under(breakpoints, last, process, x) then Some(last.1)
      else LastOver(breakpoints, places[..|places| - 1], process, x)
  }

  lemma {:induction false} LastOverIsHighest(
      breakpoints: map<Place, Record>, places: seq<Place>, process: nat, x: nat)
    requires Ascending(places)
    ensures match LastOver(breakpoints, places, process, x)
            case None => forall place | place in places :: !Under(breakpoints, place, process, x)
            case Some(start) =>
              && (process, start) in places && Under(breakpoints, (process, start), process, x)
              && forall place | place in places && Under(breakpoints, place, process, x) :: place.1 <= start
  {
    hide Under;
    if places != [] {
      var n := |places| - 1;
      var last := places[n];
      LastOverIsHighest(breakpoints, places[..n], process, x);
      assert places == places[..n] + [last];
      UnderMeans(breakpoints, last, process, x);
      forall place | place in places && Under(breakpoints, place, process, x)
        ensures Under(breakpoints, last, process, x) ==> place.1 <= last.1
      {
        UnderMeans(breakpoints, place, process, x);
      }
    }
  }

  lemma UnderMeans(breakpoints: map<Place, Record>, place: Place, process: nat, x: nat)
    ensures Under(breakpoints, place, process, x) ==> place == (process, place.1)
  {}

  /** Every record's range is mapped in its process's memory. */
  ghost predicate RangesMapped(bytes: map<nat, Byte>, breakpoints: map<Place, Record>, process: nat) {
    forall place, x | Under(breakpoints, place, process, x) :: x in bytes
  }

  /** The last record restored over an address decides what is there in the end. */
  lemma {:induction false} LastRestoredStays(
      bytes: map<nat, Byte>, breakpoints: map<Place, Record>, places: seq<Place>, process: nat, x: nat)
    requires WellFormed(breakpoints) && RangesMapped(bytes, breakpoints, process) && x in bytes
    requires forall i | 0 <= i < |places| :: places[i] in breakpoints
    ensures var restored := RestoreAll(bytes, breakpoints, places, process);
            && restored.Keys == bytes.Keys
            && restored[x] == Final(bytes, breakpoints, process, x, LastOver(breakpoints, places, process, x))
  {
    if places != [] {
      var n := |places| - 1;
      LastRestoredStays(bytes, breakpoints, places[..n], process, x);
      RestoreAt(RestoreAll(bytes, breakpoints, places[..n], process), breakpoints, places[n], process, x);
    }
  }

  lemma RestoreAt(
      bytes: map<nat, Byte>, breakpoints: map<Place, Record>, place: Place, process: nat, x: nat)
    requires WellFormed(breakpoints) && RangesMapped(bytes, breakpoints, process) && place in breakpoints && x in bytes
    ensures place.0 == process ==>
              var restored := Restore(bytes, place.1, breakpoints[place]);
              && restored.Keys == bytes.Keys
              && restored[x] == if Under(breakpoints, place, process, x)
                                then breakpoints[place].original[x - place.1] else bytes[x]
  {
    if place.0 == process {
      forall y | place.1 <= y < place.1 + breakpoints[place].kind
        ensures y in bytes
      {
        assert Under(breakpoints, place, process, y);
      }
    }
  }

  /** Breakpoints that begin before the new one are restored before it, and its record is what stays. */
  predicate HarmlessAt(breakpoints: map<Place, Record>, process: nat, address: nat, x: nat)
    requires WellFormed(breakpoints)
  {
    match Over(breakpoints, process, x)
    case None => true
    case Some(start) => start < address ==> Unchanged(breakpoints, process, x)
  }

  lemma UnderIsOver(breakpoints: map<Place, Record>, place: Place, process: nat, x: nat)
    requires WellFormed(breakpoints) && Disjoint(breakpoints) && Under(breakpoints, place, process, x)
    ensures Over(breakpoints, process, x) == Some(place.1)
  {
    OverIsTheOne(breakpoints, process, place.1, x);
  }

  lemma OverIsUnder(breakpoints: map<Place, Record>, process: nat, x: nat)
    requires Over(breakpoints, process, x).Some?
    ensures Under(breakpoints, (process, Over(breakpoints, process, x).value), process, x)
  {}

  lemma UnderAfterInsert(
      breakpoints: map<Place, Record>, place: Place, record: Record, other: Place, process: nat, x: nat)
    requires place !in breakpoints
    ensures Under(breakpoints[place := record], other, process, x)
            <==> if other == place then place.0 == process && place.1 <= x < place.1 + record.kind
                 else Under(breakpoints, other, process, x)
  {}

  /** With one more record, the last over an address is the new one where it covers it and no later one does. */
  lemma LastOverAfterInsert(
      breakpoints: map<Place, Record>, place: Place, record: Record, places: seq<Place>, x: nat)
    requires WellFormed(breakpoints) && Disjoint(breakpoints) && place !in breakpoints
    requires Enumerates(places, breakpoints[place := record]) && Ascending(places)
    ensures LastOver(breakpoints[place := record], places, place.0, x)
            == var over := Over(breakpoints, place.0, x);
               if place.1 <= x < place.1 + record.kind && (over.None? || over.value < place.1)
               then Some(place.1) else over
  {
    var process, after, over := place.0, breakpoints[place := record], Over(breakpoints, place.0, x);
    LastOverIsHighest(after, places, process, x);
    UnderAfterInsert(breakpoints, place, record, place, process, x);
    if over.Some? {
      OverIsUnder(breakpoints, process, x);
      UnderMeans(breakpoints, (process, over.value), process, x);
      UnderIn(breakpoints, (process, over.value), process, x);
      UnderAfterInsert(breakpoints, place, record, (process, over.value), process, x);
    }
    var found := LastOver(after, places, process, x);
    hide Over, Under, LastOver, Ascending, Disjoint;
    if found.Some? && found.value != place.1 {
      UnderAfterInsert(breakpoints, place, record, (process, found.value), process, x);
      UnderIsOver(breakpoints, (process, found.value), process, x);
    }
  }

  lemma UnderIn(breakpoints: map<Place, Record>, place: Place, process: nat, x: nat)
    requires Under(breakpoints, place, process, x)
    ensures place in breakpoints
  {}

  /** A record holds what stands in memory. */
  predicate Records(bytes: map<nat, Byte>, start: nat, record: Record) {
    && |record.original| == record.kind && (record.kind == THUMB_SIZE || record.kind == ARM_SIZE)
    && forall y | start <= y < start + record.kind :: y in bytes && record.original[y - start] == bytes[y]
  }

  /** The byte the last record over an address puts back, or what stands there without one. */
  function Final(after: map<nat, Byte>, breakpoints: map<Place, Record>, process: nat, x: nat, last: Option<nat>): Byte
    requires WellFormed(breakpoints) && x in after
    requires last.Some? ==> Under(breakpoints, (process, last.value), process, x)
  {
    match last
    case None => after[x]
    case Some(start) => breakpoints[(process, start)].original[x - start]
  }

  lemma FinalAfterInsert(
      bytes: map<nat, Byte>, own: map<nat, Byte>, breakpoints: map<Place, Record>, place: Place, record: Record,
      x: nat, last: Option<nat>)
    requires WellFormed(breakpoints) && Overlaid(bytes, own, breakpoints, place.0) && x in own
    requires place !in breakpoints && WellFormed(breakpoints[place := record]) && Records(bytes, place.1, record)
    requires last == var over := Over(breakpoints, place.0, x);
                     if place.1 <= x < place.1 + record.kind && (over.None? || over.value < place.1)
                     then Some(place.1) else over
    requires last.Some? ==> Under(breakpoints[place := record], (place.0, last.value), place.0, x)
    ensures Final(Patched(bytes, place.1, Trap(record.kind)), breakpoints[place := record], place.0, x, last) == own[x]
            <==> (place.1 <= x < place.1 + record.kind ==> HarmlessAt(breakpoints, place.0, place.1, x))
  {
    ShownIsOwn(bytes, own, breakpoints, place.0, x);
    var over := Over(breakpoints, place.0, x);
    assert breakpoints[place := record][place] == record;
    hide Over, Disjoint, Trap, Shown;
    if over.Some? {
      assert Hides(own, over.value, breakpoints[(place.0, over.value)]);
    }
  }

  /** What restoring every record in order leaves at one address after a granted insertion. */
  lemma RestoredAfterInsertAt(
      bytes: map<nat, Byte>, own: map<nat, Byte>, breakpoints: map<Place, Record>, place: Place, record: Record,
      places: seq<Place>, x: nat)
    requires WellFormed(breakpoints) && Disjoint(breakpoints) && Overlaid(bytes, own, breakpoints, place.0)
    requires place !in breakpoints && WellFormed(breakpoints[place := record]) && Records(bytes, place.1, record)
    requires Enumerates(places, breakpoints[place := record]) && Ascending(places) && x in own
    ensures var after := Patched(bytes, place.1, Trap(record.kind));
            var restored := RestoreAll(after, breakpoints[place := record], places, place.0);
            && restored.Keys == own.Keys
            && (restored[x] == own[x]
                <==> (place.1 <= x < place.1 + record.kind ==> HarmlessAt(breakpoints, place.0, place.1, x)))
  {
    hide RestoreAll, LastOver, RangesMapped, Ascending, Disjoint, Over, Under, HarmlessAt, Shown, Trap;
    var after := Patched(bytes, place.1, Trap(record.kind));
    InsertedRangesMapped(bytes, own, breakpoints, place, record);
    LastRestoredStays(after, breakpoints[place := record], places, place.0, x);
    LastOverAfterInsert(breakpoints, place, record, places, x);
    FinalAfterInsert(bytes, own, breakpoints, place, record, x,
                     LastOver(breakpoints[place := record], places, place.0, x));
  }

  lemma InsertedRangesMapped(
      bytes: map<nat, Byte>, own: map<nat, Byte>, breakpoints: map<Place, Record>, place: Place, record: Record)
    requires WellFormed(breakpoints) && Overlaid(bytes, own, breakpoints, place.0)
    requires place !in breakpoints && forall y | place.1 <= y < place.1 + record.kind :: y in bytes
    ensures RangesMapped(Patched(bytes, place.1, Trap(record.kind)), breakpoints[place := record], place.0)
  {
    hide Shown, Over;
    var planted := breakpoints[place := record];
    forall other, x | Under(planted, other, place.0, x)
      ensures x in bytes
    {
      if other != place {
        assert Hides(own, other.1, breakpoints[(place.0, other.1)]);
      }
    }
  }

  /**
   After a granted insertion, restoring every record in order gives the program
   its own memory back exactly when each breakpoint that begins before the new
   one and reaches into it had recorded, there, the very bytes its trap shows.
   */
  lemma RestoresAfterInsertExactly(
      t: Target, pristine: map<nat, map<nat, Byte>>, thread: (nat, nat), address: nat, kind: nat, places: seq<Place>)
    requires Holds(t, pristine) && Accepted(t, thread, address, kind)
    requires Enumerates(places, InsertBreakpoint(t, thread, address, kind).0.breakpoints) && Ascending(places)
    ensures var u := InsertBreakpoint(t, thread, address, kind).0;
            && thread.0 in u.spaces && thread.0 in pristine
            && (RestoreAll(u.spaces[thread.0].bytes, u.breakpoints, places, thread.0) == pristine[thread.0]
                <==> forall x | address <= x < address + kind :: HarmlessAt(t.breakpoints, thread.0, address, x))
  {
    AcceptedInsert(t, thread, address, kind);
    AcceptedBytes(t, thread, address, kind);
    hide InsertBreakpoint, Ascending, HarmlessAt, Over, RestoreAll, Patched, Trap, Shown;
    var bytes, place := t.spaces[thread.0].bytes, (thread.0, address);
    RestoredAfterInsert(bytes, pristine[thread.0], t.breakpoints,
                        place, Record(kind, Slice(bytes, address, kind)), places);
  }

  lemma RestoredAfterInsert(
      bytes: map<nat, Byte>, own: map<nat, Byte>, breakpoints: map<Place, Record>, place: Place, record: Record,
      places: seq<Place>)
    requires WellFormed(breakpoints) && Disjoint(breakpoints) && Overlaid(bytes, own, breakpoints, place.0)
    requires place !in breakpoints && Records(bytes, place.1, record)
    requires Enumerates(places, breakpoints[place := record]) && Ascending(places)
    ensures RestoreAll(Patched(bytes, place.1, Trap(record.kind)), breakpoints[place := record], places, place.0) == own
            <==> forall x | place.1 <= x < place.1 + record.kind :: HarmlessAt(breakpoints, place.0, place.1, x)
  {
    hide Ascending, Disjoint, HarmlessAt, Over, RestoreAll, Shown;
    assert WellFormed(breakpoints[place := record]);
    var after := Patched(bytes, place.1, Trap(record.kind));
    var restored := RestoreAll(after, breakpoints[place := record], places, place.0);
    RestoreKeepsKeys(after, breakpoints[place := record], places, place.0);
    forall x | x in own
      ensures restored[x] == own[x]
              <==> (place.1 <= x < place.1 + record.kind ==> HarmlessAt(breakpoints, place.0, place.1, x))
    {
      RestoredAfterInsertAt(bytes, own, breakpoints, place, record, places, x);
    }
  }

  lemma {:induction false} RestoreKeepsKeys(
      bytes: map<nat, Byte>, breakpoints: map<Place, Record>, places: seq<Place>, process: nat)
    requires forall i | 0 <= i < |places| :: places[i] in breakpoints
    ensures RestoreAll(bytes, breakpoints, places, process).Keys == bytes.Keys
  {
    if places != [] {
      RestoreKeepsKeys(bytes, breakpoints, places[..|places| - 1], process);
    }
  }

  const FOUR_BYTES := AddressSpace(map[0 := 1, 1 := 2, 2 := 3, 3 := 4], {0, 1, 2, 3})

  /** An ARM breakpoint and then a thumb one on its second half. */
  function Overlapping(): Target {
    var t := Target(map[1 := FOUR_BYTES], {(1, 1)}, map[]);
    InsertBreakpoint(InsertBreakpoint(t, (1, 1), 0, 4).0, (1, 1), 2, 2).0
  }

  lemma OverlappingIs()
    ensures Overlapping().breakpoints == map[(1, 0) := Record(4, [1, 2, 3, 4]), (1, 2) := Record(2, [0x20, 0xe1])]
    ensures Overlapping().spaces == map[1 := FOUR_BYTES.(bytes := map[0 := 0x70, 1 := 0, 2 := 0, 3 := 0xbe])]
  {
    var t := Target(map[1 := FOUR_BYTES], {(1, 1)}, map[]);
    var arm := InsertBreakpoint(t, (1, 1), 0, 4).0;
    assert Slice(FOUR_BYTES.bytes, 0, 4) == [1, 2, 3, 4];
    assert arm.spaces[1].bytes == map[0 := 0x70, 1 := 0, 2 := 0x20, 3 := 0xe1];
    assert Slice(arm.spaces[1].bytes, 2, 2) == [0x20, 0xe1];
    assert Overlapping().spaces[1].bytes == map[0 := 0x70, 1 := 0, 2 := 0, 3 := 0xbe];
  }

  /**
   A witness: the thumb breakpoint's record holds half of the ARM trap, and
   restoring both in address order leaves that half in memory.
   */
  lemma OverlapLeavesATrap()
    ensures var t := Overlapping();
            && WellFormed(t.breakpoints) && Enumerates([(1, 0), (1, 2)], t.breakpoints)
            && RestoreAll(t.spaces[1].bytes, t.breakpoints, [(1, 0), (1, 2)], 1)
               == map[0 := 1, 1 := 2, 2 := 0x20, 3 := 0xe1]
  {
    OverlappingIs();
    hide Overlapping, InsertBreakpoint;
    var t := Overlapping();
    var bytes: map<nat, Byte> := map[0 := 0x70, 1 := 0, 2 := 0, 3 := 0xbe];
    ArmRestored(bytes);
    ThumbRestored(map[0 := 1, 1 := 2, 2 := 3, 3 := 4]);
    hide Restore;
    var none: seq<Place> := [];
    var one: seq<Place> := [(1, 0)];
    var two: seq<Place> := [(1, 0), (1, 2)];
    assert two[..1] == one && one[..0] == none;
    assert RestoreAll(bytes, t.breakpoints, one, 1) == map[0 := 1, 1 := 2, 2 := 3, 3 := 4];
  }

  lemma ArmRestored(bytes: map<nat, Byte>)
    requires bytes == map[0 := 0x70, 1 := 0, 2 := 0, 3 := 0xbe]
    ensures Restore(bytes, 0, Record(4, [1, 2, 3, 4])) == map[0 := 1, 1 := 2, 2 := 3, 3 := 4]
  {}

  lemma ThumbRestored(bytes: map<nat, Byte>)
    requires bytes == map[0 := 1, 1 := 2, 2 := 3, 3 := 4]
    ensures Restore(bytes, 2, Record(2, [0x20, 0xe1])) == map[0 := 1, 1 := 2, 2 := 0x20, 3 := 0xe1]
  {}
}
