/**
 The getattrlist buffer, byte by byte: at the position of every requested
 attribute stand the little-endian words that attribute is worth, told without
 the encoders.
 */
module HfsBytes {
  import opened Wrappers
  import opened HfsLayout

  // ---------- What each attribute is worth, in 32-bit words ----------

  /** The low and the high word of a 64-bit number. */
  function Halves(x: nat): seq<nat> {
    [x % 0x1_0000_0000, x / 0x1_0000_0000 % 0x1_0000_0000]
  }

  function Moment(t: Timestamp): seq<nat> {
    [t.seconds % 0x1_0000_0000, t.nanoseconds % 0x1_0000_0000]
  }

  /** A file's or directory's common attributes, but for the name and the Finder information. */
  function RecordCommonWords(m: Metadata, bit: nat): seq<nat> {
    match bit
    case 1 => [1]
    case 2 => [1, 0]
    case 3 => [m.objectType]
    case 4 => [16]
    case 5 => [m.catalogId, 0]
    case 6 => [m.permanentId, 0]
    case 7 => [m.parentCatalogId, 0]
    case 8 => [0]
    case 9 => Moment(m.creationTime)
    case 10 => Moment(m.modificationTime)
    case 11 => Moment(m.changeTime)
    case 12 => Moment(m.accessTime)
    case 13 => Moment(m.backupTime)
    case 15 => [m.owner]
    case 16 => [m.group]
    case 17 => [m.mode]
    case 18 => [m.flags]
    case 21 => [7]
    case _ => []
  }

  function DirectoryWords(m: Metadata, bit: nat): seq<nat> {
    match bit
    case 0 => [m.linkCount]
    case 1 => [m.directoryEntryCount]
    case 2 => [0]
    case _ => []
  }

  function FileWords(m: Metadata, bit: nat): seq<nat> {
    match bit
    case 0 => [m.linkCount]
    case 1 => Halves(m.dataLength + m.resourceLength)
    case 2 => Halves(m.dataAllocationSize + m.resourceAllocationSize)
    case 3 => [4096]
    case 5 => [0]
    case 9 => Halves(m.dataLength)
    case 10 => Halves(m.dataAllocationSize)
    case 12 => Halves(m.resourceLength)
    case 13 => Halves(m.resourceAllocationSize)
    case _ => []
  }

  function RecordWords(m: Metadata, id: nat): seq<nat> {
    if id < 32 then RecordCommonWords(m, id)
    else if m.directory then DirectoryWords(m, id - 32)
    else FileWords(m, id - 32)
  }

  /** A volume has no identifiers and no object type; its times and owner are its root's. */
  function VolumeCommonWords(root: Metadata, v: VolumeMetadata, bit: nat): seq<nat> {
    match bit
    case 1 => [1]
    case 2 => [1, v.filesystemType]
    case 3 => [0]
    case 4 => [16]
    case 5 => [0, 0]
    case 6 => [0, 0]
    case 7 => [0, 0]
    case 8 => [0]
    case 9 => Moment(root.creationTime)
    case 10 => Moment(root.modificationTime)
    case 11 => Moment(root.modificationTime)
    case 12 => Moment(root.accessTime)
    case 13 => Moment(root.backupTime)
    case 15 => [root.owner]
    case 16 => [root.group]
    case 17 => [root.mode]
    case 18 => [root.flags]
    case 21 => [7]
    case _ => []
  }

  /** A volume's own attributes, but for its three strings. */
  function VolumeOwnWords(v: VolumeMetadata, bit: nat): seq<nat> {
    match bit
    case 0 => [v.filesystemType]
    case 1 => [v.signature]
    case 2 => Halves(v.blockSize * v.totalBlocks)
    case 3 => Halves(v.blockSize * v.freeBlocks)
    case 4 => Halves(v.blockSize * v.freeBlocks)
    case 5 => [v.blockSize, 0]
    case 6 => [v.allocationClump, 0]
    case 7 => [v.ioBlockSize]
    case 8 => [(v.fileCount + v.directoryCount) % 0x1_0000_0000]
    case 9 => [v.fileCount]
    case 10 => [v.directoryCount]
    case 11 => [0xffff_ffff]
    case 14 => [v.mountFlags]
    case 16 => Halves(v.encodingsUsed)
    case 17 => [0xf0f, 0x3df, 0, 0, 0xfff, 0x3ff, 0, 0]
    case 30 => [0x3f_ffff, 0xc003_ffff, 7, 0x7fff, 3, 0x3f_ffff, 0xc003_ffff, 7, 0x7fff, 3]
    case _ => []
  }

  function VolumeWords(root: Metadata, v: VolumeMetadata, id: nat): seq<nat> {
    if id < 32 then VolumeCommonWords(root, v, id) else VolumeOwnWords(v, id - 32)
  }

  // ---------- Words in bytes ----------

  predicate WordAt(bytes: seq<Byte>, at: nat, word: nat) {
    && at + 4 <= |bytes|
    && word == bytes[at] as nat + 0x100 * bytes[at + 1] as nat
               + 0x1_0000 * bytes[at + 2] as nat + 0x100_0000 * bytes[at + 3] as nat
  }

  predicate WordsAt(bytes: seq<Byte>, at: nat, words: seq<nat>) {
    forall k | 0 <= k < |words| :: WordAt(bytes, at + 4 * k, words[k])
  }

  lemma WordIn(bytes: seq<Byte>, part: seq<Byte>, at: nat, offset: nat, word: nat)
    requires at + |part| <= |bytes| && bytes[at..at + |part|] == part && WordAt(part, offset, word)
    ensures WordAt(bytes, at + offset, word)
  {
    assert forall j | 0 <= j < |part| :: part[j] == bytes[at + j];
  }

  lemma {:induction false} LittleByte(value: nat, width: nat, k: nat)
    requires k < width
    ensures Little(value, width)[k] == Shifted(value, k) % 256
  {
    if k > 0 {
      LittleByte(value / 256, width - 1, k - 1);
    }
  }

  /** A number without its lowest bytes. */
  function Shifted(value: nat, bytes: nat): nat {
    if bytes == 0 then value else Shifted(value / 256, bytes - 1)
  }

  lemma FourBytes(value: nat) returns (b0: nat, b1: nat, b2: nat, b3: nat, rest: nat)
    ensures b0 == Shifted(value, 0) % 256 && b1 == Shifted(value, 1) % 256
    ensures b2 == Shifted(value, 2) % 256 && b3 == Shifted(value, 3) % 256 && rest == Shifted(value, 4)
    ensures value == b0 + 0x100 * b1 + 0x1_0000 * b2 + 0x100_0000 * b3 + 0x1_0000_0000 * rest
    ensures b0 < 256 && b1 < 256 && b2 < 256 && b3 < 256
  {
    var v1 := value / 256;
    var v2 := v1 / 256;
    var v3 := v2 / 256;
    b0, b1, b2, b3, rest := value % 256, v1 % 256, v2 % 256, v3 % 256, v3 / 256;
    assert Shifted(value, 1) == v1;
    assert Shifted(value, 2) == Shifted(v1, 1) == v2;
    assert Shifted(value, 3) == Shifted(v1, 2) == Shifted(v2, 1) == v3;
    assert Shifted(value, 4) == Shifted(v1, 3) == Shifted(v2, 2) == Shifted(v3, 1) == rest;
  }

  lemma LittleIsWord(value: nat, width: nat)
    requires width >= 4
    ensures WordAt(Little(value, width), 0, value % 0x1_0000_0000)
  {
    LittleByte(value, width, 0);
    LittleByte(value, width, 1);
    LittleByte(value, width, 2);
    LittleByte(value, width, 3);
    hide Little, Shifted;
    var b0, b1, b2, b3, rest := FourBytes(value);
  }

  lemma LittleIsWide(value: nat)
    ensures WordsAt(Little(value, 8), 0, Halves(value))
  {
    LittleIsWord(value, 8);
    var b0, b1, b2, b3, rest := FourBytes(value);
    LittleIsWord(rest, 4);
    LittleBehind(value, 8, 4);
    hide Little, Shifted;
    assert rest == value / 0x1_0000_0000;
    assert Little(value, 8)[4..4 + 4] == Little(rest, 4);
    WordIn(Little(value, 8), Little(rest, 4), 4, 0, rest % 0x1_0000_0000);
  }

  lemma {:induction false} LittleBehind(value: nat, width: nat, k: nat)
    requires k <= width
    ensures Little(value, width)[k..] == Little(Shifted(value, k), width - k)
  {
    if k > 0 {
      LittleBehind(value / 256, width - 1, k - 1);
      assert Little(value, width)[k..] == Little(value / 256, width - 1)[k - 1..];
    }
  }

  /** The words that a value's encoding consists of. */
  function WordsOf(value: Value): seq<nat> {
    match value
    case NumberValues(width, items) =>
      if width == 8 && |items| == 1 then Halves(items[0]) else items
    case _ => []
  }

  /** A 64-bit number, or any count of 32-bit numbers, in range. */
  predicate InWords(value: Value) {
    value.NumberValues?
    && if value.width == 8 then |value.items| == 1
       else value.width == 4 && forall i | 0 <= i < |value.items| :: value.items[i] < 0x1_0000_0000
  }

  lemma OneNumber(width: nat, x: nat)
    ensures EncodeNumbers(width, [x]) == Little(x, width)
  {
    assert [x][1..] == [];
    assert Little(x, width) + [] == Little(x, width);
  }

  lemma {:induction false} EncodedWords(items: seq<nat>, k: nat)
    requires k < |items| && items[k] < 0x1_0000_0000
    ensures WordAt(EncodeNumbers(4, items), 4 * k, items[k])
  {
    var first, rest := Little(items[0], 4), EncodeNumbers(4, items[1..]);
    assert EncodeNumbers(4, items) == first + rest;
    hide EncodeNumbers, Little, WordAt;
    assert (first + rest)[0..0 + 4] == first && (first + rest)[4..4 + |rest|] == rest;
    if k == 0 {
      LittleIsWord(items[0], 4);
      WordIn(first + rest, first, 0, 0, items[0]);
    } else {
      EncodedWords(items[1..], k - 1);
      WordIn(first + rest, rest, 4, 4 * (k - 1), items[k]);
    }
  }

  lemma EncodedInWords(value: Value, distance: int)
    requires InWords(value)
    ensures WordsAt(Encode(value, distance), 0, WordsOf(value))
  {
    hide EncodeNumbers, WordAt, Halves;
    if value.width == 8 {
      OneNumber(8, value.items[0]);
      LittleIsWide(value.items[0]);
      assert value.items == [value.items[0]];
    } else {
      forall k | 0 <= k < |value.items|
        ensures WordAt(EncodeNumbers(4, value.items), 4 * k, value.items[k])
      {
        EncodedWords(value.items, k);
      }
    }
  }

  // ---------- The attributes in the buffer ----------

  /** Where a requested attribute's field begins. */
  function PositionOf(subject: Subject, request: AttributeRequest, id: nat): nat {
    4 + FixedTo(request, subject.Target(), id)
  }

  lemma FieldStands(subject: Subject, request: AttributeRequest, id: nat)
    requires id < 64 && Asked(request, subject.Target(), id) && InWords(FieldOf(subject, id))
    ensures WordsAt(Wire(subject, request), PositionOf(subject, request, id), WordsOf(FieldOf(subject, id)))
  {
    hide *;
    var value := FieldOf(subject, id);
    PositionIs(subject, request, id);
    FieldInWire(subject, request, id);
    CellIs(subject, request, id);
    EncodedInWords(value, Distance(subject, request, id));
    WordsIn(Wire(subject, request), CellOf(subject, request, id), PositionOf(subject, request, id), WordsOf(value));
  }

  lemma PositionIs(subject: Subject, request: AttributeRequest, id: nat)
    ensures PositionOf(subject, request, id) == 4 + FixedTo(request, subject.Target(), id)
  {}

  lemma WordsIn(bytes: seq<Byte>, part: seq<Byte>, at: nat, words: seq<nat>)
    requires at + |part| <= |bytes| && bytes[at..at + |part|] == part && WordsAt(part, 0, words)
    ensures WordsAt(bytes, at, words)
  {
    hide WordAt;
    forall k | 0 <= k < |words|
      ensures WordAt(bytes, at + 4 * k, words[k])
    {
      assert WordAt(part, 0 + 4 * k, words[k]);
      WordIn(bytes, part, at, 4 * k, words[k]);
    }
  }

  /** The attributes that are neither a string nor the Finder information. */
  predicate Numeric(target: Target, id: nat) {
    id != 0 && id != 14 && (target == Volume ==> id !in {44, 45, 47})
  }

  /** A value consists of these words. */
  ghost predicate Reads(value: Value, words: seq<nat>) {
    InWords(value) && WordsOf(value) == words
  }

  lemma WordReads(x: nat)
    requires x < 0x1_0000_0000
    ensures Reads(NumberValues(4, [x]), [x])
  {}

  lemma PairReads(x: nat, y: nat)
    requires x < 0x1_0000_0000 && y < 0x1_0000_0000
    ensures Reads(NumberValues(4, [x, y]), [x, y])
  {}

  lemma MomentReads(t: Timestamp)
    ensures Reads(TimeValue(t), Moment(t))
  {}

  lemma WideReads(x: nat)
    ensures Reads(NumberValues(8, [x]), Halves(x))
  {
    hide Halves;
  }

  lemma HalvesWrap(x: nat)
    ensures Halves(x % 0x1_0000_0000_0000_0000) == Halves(x)
  {
    var q, r := x / 0x1_0000_0000_0000_0000, x % 0x1_0000_0000_0000_0000;
    var high, low := r / 0x1_0000_0000, r % 0x1_0000_0000;
    assert x == 0x1_0000_0000 * (0x1_0000_0000 * q + high) + low;
    assert x % 0x1_0000_0000 == low && x / 0x1_0000_0000 == 0x1_0000_0000 * q + high;
    assert (0x1_0000_0000 * q + high) % 0x1_0000_0000 == high && high % 0x1_0000_0000 == high;
  }

  lemma HalvesOfSmall(x: nat)
    requires x < 0x1_0000_0000
    ensures Halves(x) == [x, 0]
  {}

  lemma RecordCommonReads(m: Metadata, bit: nat)
    requires CommonShape(bit).Some? && bit !in {0, 14}
    ensures Reads(RecordValue(m, bit), RecordCommonWords(m, bit))
  {
    hide Reads, Moment, TimeValue;
    match bit
    case 1 => WordReads(1);
    case 2 => PairReads(1, 0);
    case 3 => WordReads(m.objectType);
    case 4 => WordReads(16);
    case 5 => PairReads(m.catalogId, 0);
    case 6 => PairReads(m.permanentId, 0);
    case 7 => PairReads(m.parentCatalogId, 0);
    case 8 => WordReads(0);
    case 9 => MomentReads(m.creationTime);
    case 10 => MomentReads(m.modificationTime);
    case 11 => MomentReads(m.changeTime);
    case 12 => MomentReads(m.accessTime);
    case 13 => MomentReads(m.backupTime);
    case 15 => WordReads(m.owner);
    case 16 => WordReads(m.group);
    case 17 => WordReads(m.mode);
    case 18 => WordReads(m.flags);
    case _ => WordReads(7);
  }

  lemma DirectoryReads(m: Metadata, bit: nat)
    requires bit < 3
    ensures Reads(DirectoryValue(m, bit), DirectoryWords(m, bit))
  {
    hide Reads;
    WordReads(m.linkCount);
    WordReads(m.directoryEntryCount);
    WordReads(0);
  }

  lemma FileReads(m: Metadata, bit: nat)
    requires GroupShape(File, bit).Some?
    ensures Reads(FileValue(m, bit), FileWords(m, bit))
  {
    hide Reads, Halves;
    match bit
    case 0 => WordReads(m.linkCount);
    case 1 => SumReads(m.dataLength + m.resourceLength);
    case 2 => SumReads(m.dataAllocationSize + m.resourceAllocationSize);
    case 3 => WordReads(4096);
    case 5 => WordReads(0);
    case 9 => WideReads(m.dataLength);
    case 10 => WideReads(m.dataAllocationSize);
    case 12 => WideReads(m.resourceLength);
    case _ => WideReads(m.resourceAllocationSize);
  }

  lemma SumReads(x: nat)
    ensures Reads(WideValue(U64(x)), Halves(x))
  {
    hide Reads, Halves;
    HalvesWrap(x);
    WideReads(U64(x));
  }

  lemma SmallReads(x: Word)
    ensures Reads(WideValue(x), [x, 0])
  {
    hide Reads, Halves;
    WideReads(x);
    HalvesOfSmall(x);
  }

  lemma VolumeCommonReads(root: Metadata, v: VolumeMetadata, bit: nat)
    requires CommonShape(bit).Some? && bit !in {0, 14}
    ensures Reads(VolumeCommonValue(root, v, bit), VolumeCommonWords(root, v, bit))
  {
    hide Reads, Moment, TimeValue;
    match bit
    case 2 => PairReads(1, v.filesystemType);
    case 3 => WordReads(0);
    case 5 => PairReads(0, 0);
    case 6 => PairReads(0, 0);
    case 7 => PairReads(0, 0);
    case 11 => MomentReads(root.modificationTime);
    case _ => RecordCommonReads(root, bit);
  }

  lemma VolumeOwnReads(v: VolumeMetadata, bit: nat)
    requires GroupShape(Volume, bit).Some? && bit !in {12, 13, 15}
    ensures Reads(VolumeValue(v, bit), VolumeOwnWords(v, bit))
  {
    hide Reads, Halves;
    match bit
    case 0 => WordReads(v.filesystemType);
    case 1 => WordReads(v.signature);
    case 2 => SumReads(v.blockSize * v.totalBlocks);
    case 3 => SumReads(v.blockSize * v.freeBlocks);
    case 4 => SumReads(v.blockSize * v.freeBlocks);
    case 5 => SmallReads(v.blockSize);
    case 6 => SmallReads(v.allocationClump);
    case 7 => WordReads(v.ioBlockSize);
    case 8 => WordReads((v.fileCount + v.directoryCount) % 0x1_0000_0000);
    case 9 => WordReads(v.fileCount);
    case 10 => WordReads(v.directoryCount);
    case 11 => WordReads(0xffff_ffff);
    case 14 => WordReads(v.mountFlags);
    case 16 => WideReads(v.encodingsUsed);
    case 17 => TablesRead();
    case 30 => TablesRead();
    case _ => TablesRead();
  }

  lemma TablesRead()
    ensures Reads(NumberValues(4, CAPABILITIES), [0xf0f, 0x3df, 0, 0, 0xfff, 0x3ff, 0, 0])
    ensures Reads(NumberValues(4, ATTRIBUTES + ATTRIBUTES),
                  [0x3f_ffff, 0xc003_ffff, 7, 0x7fff, 3, 0x3f_ffff, 0xc003_ffff, 7, 0x7fff, 3])
    ensures Reads(NumberValues(4, []), [])
  {}

  lemma RecordReads(m: Metadata, id: nat)
    requires ShapeOf(OfRecord(m).Target(), id).Some? && Numeric(OfRecord(m).Target(), id)
    ensures Reads(FieldOf(OfRecord(m), id), RecordWords(m, id))
  {
    hide Reads, CommonShape, RecordValue, FileValue, DirectoryValue, RecordCommonWords, FileWords, DirectoryWords;
    if id < 32 {
      RecordCommonReads(m, id);
    } else if m.directory {
      DirectoryReads(m, id - 32);
    } else {
      FileReads(m, id - 32);
    }
  }

  lemma VolumeReads(root: Metadata, v: VolumeMetadata, id: nat)
    requires ShapeOf(Volume, id).Some? && Numeric(Volume, id)
    ensures Reads(FieldOf(OfVolume(root, v), id), VolumeWords(root, v, id))
  {
    hide Reads, CommonShape, GroupShape, VolumeCommonValue, VolumeValue, VolumeCommonWords, VolumeOwnWords;
    if id < 32 {
      VolumeCommonReads(root, v, id);
    } else {
      VolumeOwnReads(v, id - 32);
    }
  }

  lemma ReadsStand(subject: Subject, request: AttributeRequest, id: nat, words: seq<nat>)
    requires id < 64 && Asked(request, subject.Target(), id) && Reads(FieldOf(subject, id), words)
    ensures WordsAt(Wire(subject, request), PositionOf(subject, request, id), words)
  {
    hide WordsAt, Wire, PositionOf, FieldOf, Asked, InWords, WordsOf;
    FieldStands(subject, request, id);
  }

  lemma AskedIsShaped(request: AttributeRequest, target: Target, id: nat)
    requires Asked(request, target, id)
    ensures ShapeOf(target, id).Some?
  {}

  /** In a record's buffer each requested number stands at its position, word by word, least byte first. */
  lemma RecordInBuffer(m: Metadata, request: AttributeRequest, id: nat)
    requires id < 64 && Asked(request, OfRecord(m).Target(), id) && Numeric(OfRecord(m).Target(), id)
    ensures WordsAt(Wire(OfRecord(m), request), PositionOf(OfRecord(m), request, id), RecordWords(m, id))
  {
    hide *;
    AskedIsShaped(request, OfRecord(m).Target(), id);
    RecordReads(m, id);
    ReadsStand(OfRecord(m), request, id, RecordWords(m, id));
  }

  /** And so in a volume's. */
  lemma VolumeInBuffer(root: Metadata, v: VolumeMetadata, request: AttributeRequest, id: nat)
    requires id < 64 && Asked(request, Volume, id) && Numeric(Volume, id)
    ensures WordsAt(Wire(OfVolume(root, v), request), PositionOf(OfVolume(root, v), request, id),
                    VolumeWords(root, v, id))
  {
    hide *;
    TargetIs(root, v);
    AskedIsShaped(request, Volume, id);
    VolumeReads(root, v, id);
    ReadsStand(OfVolume(root, v), request, id, VolumeWords(root, v, id));
  }

  lemma TargetIs(root: Metadata, v: VolumeMetadata)
    ensures OfVolume(root, v).Target() == Volume
  {}

  /** The Finder information is copied as it is. */
  lemma FinderInfoInBuffer(subject: Subject, request: AttributeRequest)
    requires Asked(request, subject.Target(), 14)
    ensures var at := PositionOf(subject, request, 14);
            var m := if subject.OfRecord? then subject.metadata else subject.root;
            at + 32 <= |Wire(subject, request)| && Wire(subject, request)[at..at + 32] == m.finderInfo
  {
    hide *;
    PositionIs(subject, request, 14);
    FieldInWire(subject, request, 14);
    CellIs(subject, request, 14);
    FinderInfoIs(subject, Distance(subject, request, 14));
  }

  lemma FinderInfoIs(subject: Subject, distance: int)
    ensures var m := if subject.OfRecord? then subject.metadata else subject.root;
            Encode(FieldOf(subject, 14), distance) == m.finderInfo
  {}

  // ---------- Strings and the length ----------

  /** The string an attribute is worth, for those that are strings. */
  function TextOf(subject: Subject, id: nat): seq<Byte> {
    match subject
    case OfRecord(m) => m.name
    case OfVolume(_, v) => if id == 44 then v.mountPoint else if id == 47 then v.mountedDevice else v.name
  }

  lemma TextIs(subject: Subject, id: nat)
    requires ShapeOf(subject.Target(), id).Some? && id != 14 && !Numeric(subject.Target(), id)
    ensures FieldOf(subject, id) == TextValue(TextOf(subject, id))
  {}

  lemma ReferenceWords(text: seq<Byte>, distance: nat)
    requires Representable(text) && distance < 0x1_0000_0000
    ensures WordAt(Encode(TextValue(text), distance), 0, distance)
    ensures WordAt(Encode(TextValue(text), distance), 4, |text| + 1)
  {
    hide Little, WordAt;
    LittleIsWord(distance, 4);
    LittleIsWord(|text| + 1, 4);
    var low, high := Little(distance, 4), Little(|text| + 1, 4);
    assert (low + high)[0..0 + 4] == low && (low + high)[4..4 + 4] == high;
    WordIn(low + high, low, 0, 0, distance);
    WordIn(low + high, high, 4, 0, |text| + 1);
  }

  /**
   A requested string stands, with its terminator, as far behind its field as
   the field's first word says; the second word is its length with the terminator.
   */
  lemma TextInBuffer(subject: Subject, request: AttributeRequest, id: nat) returns (distance: nat)
    requires id < 64 && Asked(request, subject.Target(), id) && id != 14 && !Numeric(subject.Target(), id)
    requires AllRepresentable(subject, request) && |Wire(subject, request)| < 0x1_0000_0000
    ensures var wire, at, text := Wire(subject, request), PositionOf(subject, request, id), TextOf(subject, id);
            && WordAt(wire, at, distance) && WordAt(wire, at + 4, |text| + 1)
            && at + distance + |text| < |wire|
            && wire[at + distance..at + distance + |text|] == text && wire[at + distance + |text|] == 0
  {
    hide *;
    var wire, at, text := Wire(subject, request), PositionOf(subject, request, id), TextOf(subject, id);
    PositionIs(subject, request, id);
    AskedIsShaped(request, subject.Target(), id);
    TextIs(subject, id);
    TextIsRepresentable(subject, request, id);
    FieldInWire(subject, request, id);
    BodyInWire(subject, request, id);
    CellIs(subject, request, id);
    AskedHasShape(subject, request, id);
    TextSize();
    BodyStarts(text);
    distance := Distance(subject, request, id);
    ReferenceWords(text, distance);
    WordIn(wire, CellOf(subject, request, id), at, 0, distance);
    WordIn(wire, CellOf(subject, request, id), at, 4, |text| + 1);
    InsideBody(wire, at + distance, Body(FieldOf(subject, id)), text);
  }

  lemma InsideBody(wire: seq<Byte>, start: nat, body: seq<Byte>, text: seq<Byte>)
    requires start + |body| <= |wire| && wire[start..start + |body|] == body
    requires |text| < |body| && body[..|text|] == text && body[|text|] == 0
    ensures wire[start..start + |text|] == text && wire[start + |text|] == 0
  {
    assert wire[start..start + |text|] == body[..|text|];
  }

  /** The first word is the length of the whole buffer. */
  lemma LengthInBuffer(subject: Subject, request: AttributeRequest)
    ensures WordAt(Wire(subject, request), 0, |Wire(subject, request)| % 0x1_0000_0000)
  {
    hide *;
    WireSplit(subject, request);
    HeadIsPrefix(subject, request, 0, 64);
    LengthFirst(subject, request);
    LittleIsWord(U32(TotalSize(subject, request)), 4);
    var first, wire := HeadTo(subject, request, 0), Wire(subject, request);
    assert HeadTo(subject, request, 64)[..4] == first;
    assert wire[0..0 + |first|] == first;
    WordIn(wire, first, 0, 0, |wire| % 0x1_0000_0000);
  }

  lemma LengthFirst(subject: Subject, request: AttributeRequest)
    ensures HeadTo(subject, request, 0) == Little(U32(TotalSize(subject, request)), 4)
    ensures U32(TotalSize(subject, request)) % 0x1_0000_0000 == TotalSize(subject, request) % 0x1_0000_0000
  {
    hide Little, TotalSize;
  }

  // ---------- Positions ----------

  lemma SizeOfWords(value: Value, shape: Shape)
    requires value.Has(shape) && InWords(value)
    ensures shape.Size() == 4 * |WordsOf(value)|
  {}

  function FieldWords(subject: Subject, id: nat): seq<nat> {
    match subject
    case OfRecord(m) => RecordWords(m, id)
    case OfVolume(root, v) => VolumeWords(root, v, id)
  }

  lemma ShapeSize(subject: Subject, id: nat)
    requires ShapeOf(subject.Target(), id).Some?
    ensures ShapeOf(subject.Target(), id).value.Size()
            == if id == 14 then 32 else if !Numeric(subject.Target(), id) then 8 else 4 * |FieldWords(subject, id)|
  {
    if Numeric(subject.Target(), id) {
      hide *;
      FieldHasShape(subject, id);
      FieldReads(subject, id);
      SizeOfWords(FieldOf(subject, id), ShapeOf(subject.Target(), id).value);
    }
  }

  lemma FieldReads(subject: Subject, id: nat)
    requires ShapeOf(subject.Target(), id).Some? && Numeric(subject.Target(), id)
    ensures InWords(FieldOf(subject, id)) && WordsOf(FieldOf(subject, id)) == FieldWords(subject, id)
  {
    hide ShapeOf, FieldOf, InWords, WordsOf, RecordWords, VolumeWords, Numeric;
    if subject.OfRecord? {
      RecordReads(subject.metadata, id);
    } else {
      VolumeReads(subject.root, subject.volume, id);
    }
  }

  /** The fields follow each other behind the length, lowest attribute first, without gaps. */
  lemma FieldsFollow(subject: Subject, request: AttributeRequest, id: nat)
    ensures PositionOf(subject, request, 0) == 4
    ensures PositionOf(subject, request, id + 1)
            == PositionOf(subject, request, id)
               + if !Asked(request, subject.Target(), id) then 0
                 else if id == 14 then 32
                 else if !Numeric(subject.Target(), id) then 8
                 else 4 * |FieldWords(subject, id)|
  {
    hide ShapeOf, FieldWords, Numeric, IsSet, Shape.Size;
    if Asked(request, subject.Target(), id) {
      ShapeSize(subject, id);
    }
  }
}
