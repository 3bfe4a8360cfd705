/**
 What a getattrlist buffer holds: for every requested attribute, walking each
 bitmap from its lowest bit up, a field of the attribute's shape; strings as a
 self-relative reference into the region behind the fixed part; the total
 length in front.
 */
module HfsLayout {
  import opened Wrappers

  type Byte = n: nat | n < 0x100
  type Word = n: nat | n < 0x1_0000_0000
  type Wide = n: nat | n < 0x1_0000_0000_0000_0000
  type Int32 = n: int | -0x8000_0000 <= n < 0x8000_0000
  type FinderInfo = s: seq<Byte> | |s| == 32 witness seq(32, i => 0)

  datatype AttributeRequest =
    AttributeRequest(common: bv32, volume: bv32, directory: bv32, file: bv32, fork: bv32)

  datatype Timestamp = Timestamp(seconds: Int32, nanoseconds: Int32)

  datatype Metadata = Metadata(
    name: seq<Byte>, catalogId: Word, permanentId: Word, parentCatalogId: Word, objectType: Word,
    mode: Word, owner: Word, group: Word, flags: Word, linkCount: Word, directoryEntryCount: Word,
    dataLength: Wide, dataAllocationSize: Wide, resourceLength: Wide, resourceAllocationSize: Wide,
    creationTime: Timestamp, modificationTime: Timestamp, changeTime: Timestamp,
    accessTime: Timestamp, backupTime: Timestamp, finderInfo: FinderInfo, directory: bool)

  datatype VolumeMetadata = VolumeMetadata(
    name: seq<Byte>, mountPoint: seq<Byte>, mountedDevice: seq<Byte>,
    filesystemType: Word, signature: Word, blockSize: Word, totalBlocks: Word, freeBlocks: Word,
    allocationClump: Word, ioBlockSize: Word, fileCount: Word, directoryCount: Word,
    mountFlags: Word, encodingsUsed: Wide)

  // ---------- Attributes and their shapes ----------

  datatype Target = File | Directory | Volume

  /** What is described: a catalog record, or the mounted volume and its root record. */
  datatype Subject = OfRecord(metadata: Metadata) | OfVolume(root: Metadata, volume: VolumeMetadata) {
    function Target(): Target {
      if OfVolume? then Volume else if metadata.directory then Directory else File
    }
  }

  /** count little-endian numbers of width bytes each, count raw bytes, or a referenced string. */
  datatype Shape = Numbers(width: nat, count: nat) | Raw(count: nat) | Text {
    function Size(): nat {
      match this
      case Numbers(width, count) => width * count
      case Raw(count) => count
      case Text => 8
    }
  }

  datatype Value = NumberValues(width: nat, items: seq<nat>) | RawValue(bytes: seq<Byte>) | TextValue(text: seq<Byte>) {
    predicate Has(shape: Shape) {
      match this
      case NumberValues(width, items) =>
        shape == Numbers(width, |items|) && forall i | 0 <= i < |items| :: items[i] < Power(width)
      case RawValue(bytes) => shape == Raw(|bytes|)
      case TextValue(text) => shape == Text
    }
  }

  const WORD := Numbers(4, 1)
  const WIDE := Numbers(8, 1)
  const PAIR := Numbers(4, 2)

  function CommonShape(bit: nat): Option<Shape> {
    if bit == 0 then Some(Text)
    else if bit == 14 then Some(Raw(32))
    else if bit in {1, 3, 4, 8, 15, 16, 17, 18, 21} then Some(WORD)
    else if bit in {2, 5, 6, 7, 9, 10, 11, 12, 13} then Some(PAIR)
    else None
  }

  function GroupShape(target: Target, bit: nat): Option<Shape> {
    match target
    case File =>
      if bit in {0, 3, 5} then Some(WORD)
      else if bit in {1, 2, 9, 10, 12, 13} then Some(WIDE)
      else None
    case Directory =>
      if bit < 3 then Some(WORD) else None
    case Volume =>
      if bit in {0, 1, 7, 8, 9, 10, 11, 14} then Some(WORD)
      else if bit in {2, 3, 4, 5, 6, 16} then Some(WIDE)
      else if bit in {12, 13, 15} then Some(Text)
      else if bit == 17 then Some(Numbers(4, 8))
      else if bit == 30 then Some(Numbers(4, 10))
      else if bit == 31 then Some(Numbers(4, 0))
      else None
  }

  /** Attributes 0 to 31 are the common bits, 32 to 63 the bits of the target's own group. */
  function ShapeOf(target: Target, id: nat): Option<Shape> {
    if id < 32 then CommonShape(id) else GroupShape(target, id - 32)
  }

  /** The mask with only one bit set. */
  function Flag(bit: nat): bv32 {
    if bit == 0 then 1 else Flag(bit - 1) << 1
  }

  predicate Meets(mask: bv32, flag: bv32) {
    mask & flag != 0
  }

  predicate Has(mask: bv32, bit: nat) {
    Meets(mask, Flag(bit))
  }

  function Bitmap(request: AttributeRequest, target: Target, id: nat): bv32 {
    if id < 32 then request.common
    else match target
      case File => request.file
      case Directory => request.directory
      case Volume => request.volume
  }

  predicate IsSet(request: AttributeRequest, target: Target, id: nat) {
    Has(Bitmap(request, target, id), if id < 32 then id else id - 32)
  }

  predicate Asked(request: AttributeRequest, target: Target, id: nat) {
    ShapeOf(target, id).Some? && IsSet(request, target, id)
  }

  // ---------- Little-endian numbers ----------

  function Power(width: nat): nat {
    if width == 0 then 1 else 256 * Power(width - 1)
  }

  function Little(value: nat, width: nat): (bytes: seq<Byte>)
    ensures |bytes| == width
  {
    if width == 0 then [] else [value % 256] + Little(value / 256, width - 1)
  }

  function Number(bytes: seq<Byte>): nat {
    if bytes == [] then 0 else bytes[0] + 256 * Number(bytes[1..])
  }

  lemma {:induction false} NumberOfLittle(value: nat, width: nat)
    requires value < Power(width)
    ensures Number(Little(value, width)) == value
  {
    if width > 0 {
      NumberOfLittle(value / 256, width - 1);
      assert Little(value, width)[1..] == Little(value / 256, width - 1);
    }
  }

  function EncodeNumbers(width: nat, items: seq<nat>): (bytes: seq<Byte>)
    ensures |bytes| == width * |items|
  {
    if items == [] then []
    else
      LengthStep(width, |items| - 1);
      Little(items[0], width) + EncodeNumbers(width, items[1..])
  }

  lemma LengthStep(width: nat, count: nat)
    ensures width + width * count == width * (count + 1)
  {}

  function DecodeNumbers(width: nat, count: nat, bytes: seq<Byte>): seq<nat>
    requires |bytes| == width * count
  {
    if count == 0 then []
    else
      LengthStep(width, count - 1);
      [Number(bytes[..width])] + DecodeNumbers(width, count - 1, bytes[width..])
  }

  lemma {:induction false} NumbersRoundTrip(width: nat, items: seq<nat>)
    requires forall i | 0 <= i < |items| :: items[i] < Power(width)
    ensures DecodeNumbers(width, |items|, EncodeNumbers(width, items)) == items
  {
    if items != [] {
      var bytes := EncodeNumbers(width, items);
      NumberOfLittle(items[0], width);
      NumbersRoundTrip(width, items[1..]);
      assert bytes[..width] == Little(items[0], width);
      assert bytes[width..] == EncodeNumbers(width, items[1..]);
    }
  }

  // ---------- What every attribute is worth ----------

  function U32(x: int): Word {
    x % 0x1_0000_0000
  }

  function U64(x: int): Wide {
    x % 0x1_0000_0000_0000_0000
  }

  const HFS_DEVICE: Word := 1
  const HFS_VNODE_TAG: Word := 16
  const HFS_BLOCK_SIZE: Word := 4096
  const USER_ACCESS: Word := 7

  function WordValue(x: Word): Value {
    NumberValues(4, [x])
  }

  function WideValue(x: Wide): Value {
    NumberValues(8, [x])
  }

  function PairValue(x: Word, y: Word): Value {
    NumberValues(4, [x, y])
  }

  function TimeValue(t: Timestamp): Value {
    PairValue(U32(t.seconds), U32(t.nanoseconds))
  }

  /** The common attributes of a file or directory. */
  function RecordValue(m: Metadata, bit: nat): Value {
    match bit
    case 0 => TextValue(m.name)
    case 1 => WordValue(HFS_DEVICE)
    case 2 => PairValue(HFS_DEVICE, 0)
    case 3 => WordValue(m.objectType)
    case 4 => WordValue(HFS_VNODE_TAG)
    case 5 => PairValue(m.catalogId, 0)
    case 6 => PairValue(m.permanentId, 0)
    case 7 => PairValue(m.parentCatalogId, 0)
    case 8 => WordValue(0)
    case 9 => TimeValue(m.creationTime)
    case 10 => TimeValue(m.modificationTime)
    case 11 => TimeValue(m.changeTime)
    case 12 => TimeValue(m.accessTime)
    case 13 => TimeValue(m.backupTime)
    case 14 => RawValue(m.finderInfo)
    case 15 => WordValue(m.owner)
    case 16 => WordValue(m.group)
    case 17 => WordValue(m.mode)
    case 18 => WordValue(m.flags)
    case _ => WordValue(USER_ACCESS)
  }

  /** The common attributes of a volume: no object of its own, the root's times and owner. */
  function VolumeCommonValue(root: Metadata, v: VolumeMetadata, bit: nat): Value {
    match bit
    case 0 => TextValue(v.name)
    case 2 => PairValue(HFS_DEVICE, v.filesystemType)
    case 3 => WordValue(0)
    case 5 => PairValue(0, 0)
    case 6 => PairValue(0, 0)
    case 7 => PairValue(0, 0)
    case 11 => TimeValue(root.modificationTime)
    case _ => RecordValue(root, bit)
  }

  function DirectoryValue(m: Metadata, bit: nat): Value {
    match bit
    case 0 => WordValue(m.linkCount)
    case 1 => WordValue(m.directoryEntryCount)
    case _ => WordValue(0)
  }

  function FileValue(m: Metadata, bit: nat): Value {
    match bit
    case 0 => WordValue(m.linkCount)
    case 1 => WideValue(U64(m.dataLength + m.resourceLength))
    case 2 => WideValue(U64(m.dataAllocationSize + m.resourceAllocationSize))
    case 3 => WordValue(HFS_BLOCK_SIZE)
    case 5 => WordValue(0)
    case 9 => WideValue(m.dataLength)
    case 10 => WideValue(m.dataAllocationSize)
    case 12 => WideValue(m.resourceLength)
    case _ => WideValue(m.resourceAllocationSize)
  }

  const CAPABILITIES: seq<nat> := [0xf0f, 0x3df, 0, 0, 0xfff, 0x3ff, 0, 0]
  const ATTRIBUTES: seq<nat> := [0x3f_ffff, 0xc003_ffff, 7, 0x7fff, 3]

  function VolumeValue(v: VolumeMetadata, bit: nat): Value {
    match bit
    case 0 => WordValue(v.filesystemType)
    case 1 => WordValue(v.signature)
    case 2 => WideValue(U64(v.blockSize * v.totalBlocks))
    case 3 => WideValue(U64(v.blockSize * v.freeBlocks))
    case 4 => WideValue(U64(v.blockSize * v.freeBlocks))
    case 5 => WideValue(v.blockSize)
    case 6 => WideValue(v.allocationClump)
    case 7 => WordValue(v.ioBlockSize)
    case 8 => WordValue(U32(v.fileCount + v.directoryCount))
    case 9 => WordValue(v.fileCount)
    case 10 => WordValue(v.directoryCount)
    case 11 => WordValue(0xffff_ffff)
    case 12 => TextValue(v.mountPoint)
    case 13 => TextValue(v.name)
    case 14 => WordValue(v.mountFlags)
    case 15 => TextValue(v.mountedDevice)
    case 16 => WideValue(v.encodingsUsed)
    case 17 => NumberValues(4, CAPABILITIES)
    case 30 => NumberValues(4, ATTRIBUTES + ATTRIBUTES)
    case _ => NumberValues(4, [])
  }

  function FieldOf(subject: Subject, id: nat): Value {
    match subject
    case OfVolume(root, v) => if id < 32 then VolumeCommonValue(root, v, id) else VolumeValue(v, id - 32)
    case OfRecord(m) =>
      if id < 32 then RecordValue(m, id)
      else if m.directory then DirectoryValue(m, id - 32)
      else FileValue(m, id - 32)
  }

  lemma Powers()
    ensures Power(4) == 0x1_0000_0000 && Power(8) == 0x1_0000_0000_0000_0000
  {}

  /** Every attribute's value has the attribute's shape. */
  lemma FieldHasShape(subject: Subject, id: nat)
    requires ShapeOf(subject.Target(), id).Some?
    ensures FieldOf(subject, id).Has(ShapeOf(subject.Target(), id).value)
    ensures FieldOf(subject, id).TextValue? <==> ShapeOf(subject.Target(), id).value == Text
  {
    Powers();
    hide Power;
  }

  lemma AskedHasShape(subject: Subject, request: AttributeRequest, id: nat)
    requires Asked(request, subject.Target(), id)
    ensures ShapeOf(subject.Target(), id).Some?
    ensures FieldOf(subject, id).Has(ShapeOf(subject.Target(), id).value)
    ensures FieldOf(subject, id).TextValue? <==> ShapeOf(subject.Target(), id).value == Text
  {
    hide ShapeOf, FieldOf, Subject.Target, Value.Has;
    FieldHasShape(subject, id);
  }

  // ---------- The buffer ----------

  /** The code masks a 64-bit length with a 32-bit complement. */
  function PaddedSize(length: nat): nat {
    U32(length + 4) / 4 * 4
  }

  /** The sizes for which the padding leaves room for the terminator. */
  predicate Representable(text: seq<Byte>) {
    |text| < 0xffff_fffc
  }

  /** Representable strings are exactly those that leave room for a terminator. */
  lemma RoomExactly(text: seq<Byte>)
    ensures |text| < PaddedSize(|text|) <==> Representable(text)
  {}

  /** Every string that is asked for leaves room for its terminator. */
  predicate AllRepresentable(subject: Subject, request: AttributeRequest) {
    forall id | 0 <= id < 64 && Asked(request, subject.Target(), id) && FieldOf(subject, id).TextValue? ::
      Representable(FieldOf(subject, id).text)
  }

  function Zeros(n: nat): seq<Byte> {
    seq(n, i => 0)
  }

  /** A field's bytes in the fixed part; a string's are its distance and its length with the terminator. */
  function Encode(value: Value, distance: int): (bytes: seq<Byte>) {
    match value
    case NumberValues(width, items) => EncodeNumbers(width, items)
    case RawValue(bytes) => bytes
    case TextValue(text) => Little(U32(distance), 4) + Little(U32(|text| + 1), 4)
  }

  /** A string's bytes in the variable part. */
  function Body(value: Value): seq<Byte> {
    if value.TextValue? && Representable(value.text)
    then value.text + Zeros(PaddedSize(|value.text|) - |value.text|)
    else []
  }

  /** The size of the fields below an attribute. */
  function FixedTo(request: AttributeRequest, target: Target, id: nat): nat
    decreases id
  {
    if id == 0 then 0
    else FixedTo(request, target, id - 1)
         + if Asked(request, target, id - 1) then ShapeOf(target, id - 1).value.Size() else 0
  }

  /** The string bodies of the attributes below one. */
  function TailTo(subject: Subject, request: AttributeRequest, id: nat): seq<Byte> {
    if id == 0 then []
    else TailTo(subject, request, id - 1)
         + if Asked(request, subject.Target(), id - 1) then Body(FieldOf(subject, id - 1)) else []
  }

  function FixedSize(subject: Subject, request: AttributeRequest): nat {
    4 + FixedTo(request, subject.Target(), 64)
  }

  function TotalSize(subject: Subject, request: AttributeRequest): nat {
    FixedSize(subject, request) + |TailTo(subject, request, 64)|
  }

  /** How far the next body lies behind a field's own position. */
  function Distance(subject: Subject, request: AttributeRequest, id: nat): int {
    FixedSize(subject, request) + |TailTo(subject, request, id)| - (4 + FixedTo(request, subject.Target(), id))
  }

  function CellOf(subject: Subject, request: AttributeRequest, id: nat): seq<Byte> {
    if Asked(request, subject.Target(), id) then Encode(FieldOf(subject, id), Distance(subject, request, id)) else []
  }

  /** The length word and the fields below an attribute. */
  function HeadTo(subject: Subject, request: AttributeRequest, id: nat): seq<Byte> {
    if id == 0 then Little(U32(TotalSize(subject, request)), 4)
    else HeadTo(subject, request, id - 1) + CellOf(subject, request, id - 1)
  }

  function Wire(subject: Subject, request: AttributeRequest): seq<Byte> {
    HeadTo(subject, request, 64) + TailTo(subject, request, 64)
  }

  lemma EncodeSize(value: Value, shape: Shape, distance: int)
    requires value.Has(shape)
    ensures |Encode(value, distance)| == shape.Size()
  {}

  lemma CellSize(subject: Subject, request: AttributeRequest, id: nat)
    ensures |CellOf(subject, request, id)|
            == if Asked(request, subject.Target(), id) then ShapeOf(subject.Target(), id).value.Size() else 0
  {
    hide ShapeOf, FieldOf, Encode, Distance, IsSet, Subject.Target, Shape.Size, Value.Has;
    if Asked(request, subject.Target(), id) {
      FieldHasShape(subject, id);
      EncodeSize(FieldOf(subject, id), ShapeOf(subject.Target(), id).value, Distance(subject, request, id));
    }
  }

  /** Every field starts where the sizes of the fields below it say. */
  lemma {:induction false} HeadSize(subject: Subject, request: AttributeRequest, id: nat)
    ensures |HeadTo(subject, request, id)| == 4 + FixedTo(request, subject.Target(), id)
  {
    hide CellOf, Asked, ShapeOf, Subject.Target, TotalSize, Shape.Size;
    if id > 0 {
      HeadSize(subject, request, id - 1);
      CellSize(subject, request, id - 1);
    }
  }

  lemma {:induction false} HeadIsPrefix(subject: Subject, request: AttributeRequest, id: nat, end: nat)
    requires id <= end
    ensures HeadTo(subject, request, id) <= HeadTo(subject, request, end)
  {
    hide CellOf, TotalSize;
    if id < end {
      HeadIsPrefix(subject, request, id, end - 1);
    }
  }

  lemma {:induction false} TailIsPrefix(subject: Subject, request: AttributeRequest, id: nat, end: nat)
    requires id <= end
    ensures TailTo(subject, request, id) <= TailTo(subject, request, end)
  {
    hide Body, FieldOf, Asked, Subject.Target;
    if id < end {
      TailIsPrefix(subject, request, id, end - 1);
    }
  }

  // ---------- The decoder ----------

  function DecodeText(wire: seq<Byte>, at: nat): Option<Value> {
    if at + 8 > |wire| then None
    else
      var start := at + Number(wire[at..at + 4]);
      var length := Number(wire[at + 4..at + 8]);
      if length == 0 || start + length > |wire| || wire[start + length - 1] != 0 then None
      else Some(TextValue(wire[start..start + length - 1]))
  }

  function DecodeValue(shape: Shape, wire: seq<Byte>, at: nat): Option<Value> {
    if at + shape.Size() > |wire| then None
    else
      match shape
      case Numbers(width, count) =>
        Some(NumberValues(width, DecodeNumbers(width, count, wire[at..at + shape.Size()])))
      case Raw(count) => Some(RawValue(wire[at..at + count]))
      case Text => DecodeText(wire, at)
  }

  /** Walks the bitmaps from the lowest bit up; a bit of unknown shape ends it. */
  function DecodeFrom(request: AttributeRequest, target: Target, wire: seq<Byte>, id: nat, at: nat)
    : Option<map<nat, Value>>
    requires id <= 64
    decreases 64 - id
  {
    if id == 64 then Some(map[])
    else if !IsSet(request, target, id) then DecodeFrom(request, target, wire, id + 1, at)
    else if ShapeOf(target, id).None? then None
    else
      var shape := ShapeOf(target, id).value;
      var value := DecodeValue(shape, wire, at);
      var rest := DecodeFrom(request, target, wire, id + 1, at + shape.Size());
      if value.Some? && rest.Some? then Some(rest.value[id := value.value]) else None
  }

  function Decode(request: AttributeRequest, target: Target, wire: seq<Byte>): Option<map<nat, Value>> {
    if |wire| < 4 || Number(wire[..4]) != |wire| then None else DecodeFrom(request, target, wire, 0, 4)
  }

  /** The requested attributes from one on, with their values. */
  function Fields(subject: Subject, request: AttributeRequest, from: nat): map<nat, Value> {
    map id | from <= id < 64 && Asked(request, subject.Target(), id) :: FieldOf(subject, id)
  }

  // ---------- Decoding what was packed ----------

  /** Where a field and its string body lie in the wire. */
  lemma FieldInWire(subject: Subject, request: AttributeRequest, id: nat)
    requires id < 64 && Asked(request, subject.Target(), id)
    ensures var wire := Wire(subject, request);
            var at := 4 + FixedTo(request, subject.Target(), id);
            var cell := CellOf(subject, request, id);
            at + |cell| <= FixedSize(subject, request) <= |wire| && wire[at..at + |cell|] == cell
  {
    hide CellOf, Asked, Subject.Target, TotalSize, TailTo;
    HeadSize(subject, request, id);
    HeadSize(subject, request, id + 1);
    HeadSize(subject, request, 64);
    HeadIsPrefix(subject, request, id + 1, 64);
    var head, cell := HeadTo(subject, request, id), CellOf(subject, request, id);
    assert HeadTo(subject, request, id + 1) == head + cell;
    assert Wire(subject, request)[..|head| + |cell|] == head + cell;
  }

  lemma BodyInWire(subject: Subject, request: AttributeRequest, id: nat)
    requires id < 64 && Asked(request, subject.Target(), id)
    ensures var wire := Wire(subject, request);
            var start := FixedSize(subject, request) + |TailTo(subject, request, id)|;
            var body := Body(FieldOf(subject, id));
            start + |body| <= |wire| && wire[start..start + |body|] == body
  {
    hide *;
    var head, tail, body := HeadTo(subject, request, 64), TailTo(subject, request, id), Body(FieldOf(subject, id));
    TailStep(subject, request, id);
    TailIsPrefix(subject, request, id + 1, 64);
    WireSplit(subject, request);
    Behind(head, tail, body, TailTo(subject, request, 64));
  }

  lemma TailStep(subject: Subject, request: AttributeRequest, id: nat)
    requires Asked(request, subject.Target(), id)
    ensures TailTo(subject, request, id + 1) == TailTo(subject, request, id) + Body(FieldOf(subject, id))
  {
    hide Asked, Body, FieldOf, Subject.Target;
  }

  lemma CellIs(subject: Subject, request: AttributeRequest, id: nat)
    requires Asked(request, subject.Target(), id)
    ensures var at := 4 + FixedTo(request, subject.Target(), id);
            && Distance(subject, request, id) == FixedSize(subject, request) + |TailTo(subject, request, id)| - at
            && CellOf(subject, request, id) == Encode(FieldOf(subject, id), Distance(subject, request, id))
    ensures |CellOf(subject, request, id)| == ShapeOf(subject.Target(), id).value.Size()
  {
    hide Asked, Encode, FieldOf, Subject.Target, FixedTo, TailTo, FixedSize;
    CellSize(subject, request, id);
  }

  lemma WireSplit(subject: Subject, request: AttributeRequest)
    ensures Wire(subject, request) == HeadTo(subject, request, 64) + TailTo(subject, request, 64)
    ensures FixedSize(subject, request) == |HeadTo(subject, request, 64)|
    ensures |Wire(subject, request)| == TotalSize(subject, request)
  {
    hide HeadTo, TailTo, FixedTo;
    HeadSize(subject, request, 64);
  }

  lemma Behind(head: seq<Byte>, before: seq<Byte>, body: seq<Byte>, tail: seq<Byte>)
    requires before + body <= tail
    ensures var start := |head| + |before|;
            start + |body| <= |head + tail| && (head + tail)[start..start + |body|] == body
  {
    assert tail[..|before + body|] == before + body;
    assert tail[|before|..|before| + |body|] == body;
  }

  lemma DecodeOther(value: Value, shape: Shape, wire: seq<Byte>, at: nat, cell: seq<Byte>, distance: int)
    requires value.Has(shape) && shape != Text
    requires cell == Encode(value, distance) && |cell| == shape.Size()
    requires at + |cell| <= |wire| && wire[at..at + |cell|] == cell
    ensures DecodeValue(shape, wire, at) == Some(value)
  {
    hide EncodeNumbers, DecodeNumbers;
    if shape.Numbers? {
      NumbersRoundTrip(shape.width, value.items);
    }
  }

  lemma BodyStarts(text: seq<Byte>)
    requires Representable(text)
    ensures var body := Body(TextValue(text)); |text| < |body| && body[..|text|] == text && body[|text|] == 0
  {}

  lemma ReferenceReads(text: seq<Byte>, distance: nat)
    requires Representable(text) && distance < 0x1_0000_0000
    ensures var cell := Encode(TextValue(text), distance);
            |cell| == 8 && Number(cell[..4]) == distance && Number(cell[4..]) == |text| + 1
  {
    hide Little, Number, Power;
    Powers();
    NumberOfLittle(distance, 4);
    NumberOfLittle(|text| + 1, 4);
    Halves(Little(distance, 4), Little(|text| + 1, 4), Encode(TextValue(text), distance));
  }

  lemma Halves(front: seq<Byte>, back: seq<Byte>, all: seq<Byte>)
    requires |front| == |back| == 4 && all == front + back
    ensures |all| == 8 && all[..4] == front && all[4..] == back
  {}

  lemma DecodeTextField(text: seq<Byte>, wire: seq<Byte>, at: nat, start: nat, body: seq<Byte>)
    requires Representable(text) && |wire| < 0x1_0000_0000 && at + 8 <= start
    requires at + 8 <= |wire| && wire[at..at + 8] == Encode(TextValue(text), start - at)
    requires start + |body| <= |wire| && wire[start..start + |body|] == body == Body(TextValue(text))
    ensures DecodeText(wire, at) == Some(TextValue(text))
  {
    hide Representable, Body, Encode, Number;
    var cell := wire[at..at + 8];
    BodyStarts(text);
    ReferenceReads(text, start - at);
    assert wire[at..at + 4] == cell[..4];
    assert wire[at + 4..at + 8] == cell[4..];
    assert wire[start..start + |text|] == body[..|text|];
    assert wire[start + |text|] == body[|text|];
  }

  lemma TextIsRepresentable(subject: Subject, request: AttributeRequest, id: nat)
    requires AllRepresentable(subject, request)
    requires id < 64 && Asked(request, subject.Target(), id) && FieldOf(subject, id).TextValue?
    ensures Representable(FieldOf(subject, id).text)
  {
    hide Asked, FieldOf, Representable;
  }

  lemma DecodeTextAt(subject: Subject, request: AttributeRequest, id: nat)
    requires id < 64 && Asked(request, subject.Target(), id) && ShapeOf(subject.Target(), id).value == Text
    requires AllRepresentable(subject, request) && TotalSize(subject, request) < 0x1_0000_0000
    ensures DecodeText(Wire(subject, request), 4 + FixedTo(request, subject.Target(), id))
            == Some(FieldOf(subject, id))
  {
    hide *;
    AskedHasShape(subject, request, id);
    TextIsRepresentable(subject, request, id);
    CellIs(subject, request, id);
    TextSize();
    FieldInWire(subject, request, id);
    BodyInWire(subject, request, id);
    WireSplit(subject, request);
    DecodeTextField(FieldOf(subject, id).text, Wire(subject, request), 4 + FixedTo(request, subject.Target(), id),
                    FixedSize(subject, request) + |TailTo(subject, request, id)|, Body(FieldOf(subject, id)));
  }

  lemma TextSize()
    ensures Text.Size() == 8
  {}

  lemma DecodeTextIsValue(wire: seq<Byte>, at: nat)
    requires at + 8 <= |wire|
    ensures DecodeValue(Text, wire, at) == DecodeText(wire, at)
  {}

  lemma DecodeField(subject: Subject, request: AttributeRequest, id: nat)
    requires id < 64 && Asked(request, subject.Target(), id)
    requires AllRepresentable(subject, request) && TotalSize(subject, request) < 0x1_0000_0000
    ensures DecodeValue(ShapeOf(subject.Target(), id).value, Wire(subject, request),
                        4 + FixedTo(request, subject.Target(), id))
            == Some(FieldOf(subject, id))
  {
    hide *;
    AskedHasShape(subject, request, id);
    CellIs(subject, request, id);
    FieldInWire(subject, request, id);
    WireSplit(subject, request);
    if ShapeOf(subject.Target(), id).value == Text {
      DecodeTextAt(subject, request, id);
      TextSize();
      DecodeTextIsValue(Wire(subject, request), 4 + FixedTo(request, subject.Target(), id));
    } else {
      DecodeOther(FieldOf(subject, id), ShapeOf(subject.Target(), id).value, Wire(subject, request),
                  4 + FixedTo(request, subject.Target(), id), CellOf(subject, request, id),
                  Distance(subject, request, id));
    }
  }

  lemma {:induction false} DecodeFields(subject: Subject, request: AttributeRequest, id: nat)
    requires id <= 64
    requires AllRepresentable(subject, request) && TotalSize(subject, request) < 0x1_0000_0000
    requires forall k | 0 <= k < 64 && IsSet(request, subject.Target(), k) :: ShapeOf(subject.Target(), k).Some?
    ensures DecodeFrom(request, subject.Target(), Wire(subject, request), id,
                       4 + FixedTo(request, subject.Target(), id))
            == Some(Fields(subject, request, id))
    decreases 64 - id
  {
    hide ShapeOf, FieldOf, Wire, IsSet, DecodeValue, AllRepresentable, Subject.Target, TotalSize, Shape.Size;
    if id < 64 {
      DecodeFields(subject, request, id + 1);
      FieldsStep(subject, request, id);
      if IsSet(request, subject.Target(), id) {
        DecodeField(subject, request, id);
      }
    }
  }

  lemma FieldsStep(subject: Subject, request: AttributeRequest, id: nat)
    requires id < 64
    ensures Fields(subject, request, id)
            == if Asked(request, subject.Target(), id)
               then Fields(subject, request, id + 1)[id := FieldOf(subject, id)]
               else Fields(subject, request, id + 1)
  {
    hide Asked, FieldOf, Subject.Target;
  }

  // ---------- Requests ----------

  const COMMON_SUPPORTED_MASK: bv32 := 0x0027_ffff
  const VOLUME_VALID_MASK: bv32 := 0xc003_ffff
  const DIRECTORY_SUPPORTED_MASK: bv32 := 0x0000_0007
  const FILE_SUPPORTED_MASK: bv32 := 0x0000_362f
  const VOLUME_INFO: bv32 := 0x8000_0000

  predicate Within(mask: bv32, supported: bv32) {
    mask & !supported == 0
  }

  predicate ValidRequest(request: AttributeRequest) {
    if !Within(request.common, COMMON_SUPPORTED_MASK) || request.fork != 0 then false
    else if request.volume != 0 then
      && Within(request.volume, VOLUME_VALID_MASK)
      && request.volume & VOLUME_INFO != 0
      && request.directory == 0 && request.file == 0
    else
      && Within(request.directory, DIRECTORY_SUPPORTED_MASK)
      && Within(request.file, FILE_SUPPORTED_MASK)
  }

  function SupportedMask(target: Target, id: nat): bv32 {
    if id < 32 then COMMON_SUPPORTED_MASK
    else match target
      case File => FILE_SUPPORTED_MASK
      case Directory => DIRECTORY_SUPPORTED_MASK
      case Volume => VOLUME_VALID_MASK
  }

  /** The supported masks name exactly the attributes that have a shape. */
  lemma MasksMatchShapes(target: Target, bit: nat)
    requires bit < 32
    ensures Has(COMMON_SUPPORTED_MASK, bit) <==> CommonShape(bit).Some?
    ensures Has(SupportedMask(target, 32), bit) <==> GroupShape(target, bit).Some?
  {
    Flags();
  }

  lemma Flags()
    ensures Flag(0) == 0x1 && Flag(1) == 0x2 && Flag(2) == 0x4 && Flag(3) == 0x8
    ensures Flag(4) == 0x10 && Flag(5) == 0x20 && Flag(6) == 0x40 && Flag(7) == 0x80
    ensures Flag(8) == 0x100 && Flag(9) == 0x200 && Flag(10) == 0x400 && Flag(11) == 0x800
    ensures Flag(12) == 0x1000 && Flag(13) == 0x2000 && Flag(14) == 0x4000 && Flag(15) == 0x8000
    ensures Flag(16) == 0x1_0000 && Flag(17) == 0x2_0000 && Flag(18) == 0x4_0000 && Flag(19) == 0x8_0000
    ensures Flag(20) == 0x10_0000 && Flag(21) == 0x20_0000 && Flag(22) == 0x40_0000 && Flag(23) == 0x80_0000
    ensures Flag(24) == 0x100_0000 && Flag(25) == 0x200_0000 && Flag(26) == 0x400_0000 && Flag(27) == 0x800_0000
    ensures Flag(28) == 0x1000_0000 && Flag(29) == 0x2000_0000 && Flag(30) == 0x4000_0000 && Flag(31) == 0x8000_0000
  {}

  lemma NoFlags(mask: bv32)
    requires forall k | 0 <= k < 32 :: !Has(mask, k)
    ensures mask == 0
  {
    Flags();
    assert !Has(mask, 0) && !Has(mask, 1) && !Has(mask, 2) && !Has(mask, 3);
    assert !Has(mask, 4) && !Has(mask, 5) && !Has(mask, 6) && !Has(mask, 7);
    assert !Has(mask, 8) && !Has(mask, 9) && !Has(mask, 10) && !Has(mask, 11);
    assert !Has(mask, 12) && !Has(mask, 13) && !Has(mask, 14) && !Has(mask, 15);
    assert !Has(mask, 16) && !Has(mask, 17) && !Has(mask, 18) && !Has(mask, 19);
    assert !Has(mask, 20) && !Has(mask, 21) && !Has(mask, 22) && !Has(mask, 23);
    assert !Has(mask, 24) && !Has(mask, 25) && !Has(mask, 26) && !Has(mask, 27);
    assert !Has(mask, 28) && !Has(mask, 29) && !Has(mask, 30) && !Has(mask, 31);
  }

  /** A flag is one bit: a mask holds all of it or nothing of it. */
  predicate Single(flag: bv32) {
    flag & (flag - 1) == 0
  }

  lemma {:induction false} FlagIsSingle(bit: nat)
    ensures Single(Flag(bit))
  {
    if bit > 0 {
      FlagIsSingle(bit - 1);
    }
  }

  lemma AllOrNothing(flag: bv32, mask: bv32, supported: bv32)
    requires Single(flag) && (Meets(mask, flag) ==> Meets(supported, flag))
    ensures !Meets(mask & !supported, flag)
  {}

  lemma Outside(mask: bv32, supported: bv32, bit: nat)
    requires Has(mask, bit) ==> Has(supported, bit)
    ensures !Has(mask & !supported, bit)
  {
    hide Flag, Single, Meets;
    FlagIsSingle(bit);
    AllOrNothing(Flag(bit), mask, supported);
  }

  lemma Inside(mask: bv32, supported: bv32, bit: nat)
    requires mask & !supported == 0 && Has(mask, bit)
    ensures Has(supported, bit)
  {
    Kept(mask, supported, Flag(bit));
  }

  lemma Kept(mask: bv32, supported: bv32, flag: bv32)
    requires mask & !supported == 0 && mask & flag != 0
    ensures supported & flag != 0
  {}

  /** A mask stays within another exactly when each of its bits does. */
  lemma SubsetBitByBit(mask: bv32, supported: bv32)
    ensures Within(mask, supported) <==> forall k | 0 <= k < 32 && Has(mask, k) :: Has(supported, k)
  {
    hide Has;
    if mask & !supported == 0 {
      forall k | 0 <= k < 32 && Has(mask, k)
        ensures Has(supported, k)
      {
        Inside(mask, supported, k);
      }
    } else if forall k | 0 <= k < 32 && Has(mask, k) :: Has(supported, k) {
      var outside := mask & !supported;
      forall k | 0 <= k < 32
        ensures !Has(outside, k)
      {
        Outside(mask, supported, k);
      }
      NoFlags(outside);
    }
  }

  /**
   A request is valid exactly when every bit it sets is an attribute with a
   shape, and volume attributes come alone and flagged.
   */
  lemma ValidExactly(request: AttributeRequest)
    ensures ValidRequest(request)
            <==> && request.fork == 0
                 && (forall k | 0 <= k < 32 && Has(request.common, k) :: CommonShape(k).Some?)
                 && if request.volume != 0 then
                      && (forall k | 0 <= k < 32 && Has(request.volume, k) :: GroupShape(Volume, k).Some?)
                      && Has(request.volume, 31) && request.directory == 0 && request.file == 0
                    else
                      && (forall k | 0 <= k < 32 && Has(request.directory, k) :: GroupShape(Directory, k).Some?)
                      && (forall k | 0 <= k < 32 && Has(request.file, k) :: GroupShape(File, k).Some?)
  {
    hide Has, CommonShape, GroupShape, Within;
    CommonBits(request.common);
    GroupBits(request.volume, Volume);
    GroupBits(request.directory, Directory);
    GroupBits(request.file, File);
    InfoBit(request.volume);
  }

  lemma InfoBit(mask: bv32)
    ensures Has(mask, 31) <==> mask & VOLUME_INFO != 0
  {
    Flags();
  }

  lemma CommonBits(mask: bv32)
    ensures Within(mask, COMMON_SUPPORTED_MASK) <==> forall k | 0 <= k < 32 && Has(mask, k) :: CommonShape(k).Some?
  {
    hide Has, CommonShape, GroupShape, Within;
    SubsetBitByBit(mask, COMMON_SUPPORTED_MASK);
    forall k: nat | k < 32
      ensures Has(COMMON_SUPPORTED_MASK, k) <==> CommonShape(k).Some?
    {
      MasksMatchShapes(File, k);
    }
  }

  lemma GroupBits(mask: bv32, target: Target)
    ensures Within(mask, SupportedMask(target, 32))
            <==> forall k | 0 <= k < 32 && Has(mask, k) :: GroupShape(target, k).Some?
  {
    hide Has, CommonShape, GroupShape, Within;
    SubsetBitByBit(mask, SupportedMask(target, 32));
    forall k: nat | k < 32
      ensures Has(SupportedMask(target, 32), k) <==> GroupShape(target, k).Some?
    {
      MasksMatchShapes(target, k);
    }
  }

  // ---------- The main results ----------

  /** Records are packed for requests without volume attributes, the volume for those with. */
  predicate Serves(subject: Subject, request: AttributeRequest) {
    ValidRequest(request) && AllRepresentable(subject, request) && (subject.OfVolume? <==> request.volume != 0)
  }

  lemma SetBitsHaveShapes(subject: Subject, request: AttributeRequest)
    requires Serves(subject, request)
    ensures forall k | 0 <= k < 64 && IsSet(request, subject.Target(), k) :: ShapeOf(subject.Target(), k).Some?
  {
    ValidExactly(request);
    hide ValidRequest, CommonShape, GroupShape, AllRepresentable, Has;
    forall k | 0 <= k < 64 && IsSet(request, subject.Target(), k)
      ensures ShapeOf(subject.Target(), k).Some?
    {
      assert Has(Bitmap(request, subject.Target(), k), if k < 32 then k else k - 32);
    }
  }

  /**
   Walking the bitmaps recovers every requested attribute's value and nothing
   else, exactly when the total fits the 32-bit length word.
   */
  lemma PackedFieldsDecode(subject: Subject, request: AttributeRequest)
    requires Serves(subject, request)
    ensures Decode(request, subject.Target(), Wire(subject, request))
            == if TotalSize(subject, request) < 0x1_0000_0000 then Some(Fields(subject, request, 0)) else None
  {
    hide *;
    SetBitsHaveShapes(subject, request);
    ServesRepresentable(subject, request);
    LengthWord(subject, request);
    DecodeUnfolds(request, subject.Target(), Wire(subject, request));
    if TotalSize(subject, request) < 0x1_0000_0000 {
      DecodeFields(subject, request, 0);
    }
  }

  lemma ServesRepresentable(subject: Subject, request: AttributeRequest)
    requires Serves(subject, request)
    ensures AllRepresentable(subject, request)
  {}

  lemma DecodeUnfolds(request: AttributeRequest, target: Target, wire: seq<Byte>)
    ensures FixedTo(request, target, 0) == 0
    ensures Decode(request, target, wire)
            == if |wire| < 4 || Number(wire[..4]) != |wire| then None else DecodeFrom(request, target, wire, 0, 4)
  {
    hide DecodeFrom, Number;
  }

  /** The first word is the total length, as far as a word can hold it. */
  lemma LengthWord(subject: Subject, request: AttributeRequest)
    ensures var wire := Wire(subject, request);
            |wire| == TotalSize(subject, request) >= 4 && Number(wire[..4]) == |wire| % 0x1_0000_0000
  {
    hide Little, Number, Power, CellOf, TailTo, FixedTo;
    WireSplit(subject, request);
    Powers();
    NumberOfLittle(U32(TotalSize(subject, request)), 4);
    HeadIsPrefix(subject, request, 0, 64);
    var first := HeadTo(subject, request, 0);
    assert HeadTo(subject, request, 64)[..4] == first;
    assert Wire(subject, request)[..4] == first;
  }

  /** String bodies lie behind the fixed part, in attribute order, without overlap, up to the end of the buffer. */
  lemma BodiesTile(subject: Subject, request: AttributeRequest, a: nat, b: nat)
    requires a < b <= 64 && Asked(request, subject.Target(), a)
    ensures |TailTo(subject, request, a)| + |Body(FieldOf(subject, a))| <= |TailTo(subject, request, b)|
    ensures FixedSize(subject, request) + |TailTo(subject, request, 64)| == |Wire(subject, request)|
  {
    hide *;
    TailStep(subject, request, a);
    TailIsPrefix(subject, request, a + 1, b);
    WireSplit(subject, request);
    TotalIs(subject, request);
  }

  lemma TotalIs(subject: Subject, request: AttributeRequest)
    ensures TotalSize(subject, request) == FixedSize(subject, request) + |TailTo(subject, request, 64)|
  {}
}
