/**
 MetadataProvider's packers: straight-line writers that fill a buffer of
 precomputed size through a fixed-part cursor and a string cursor.
 */
module HfsMetadata {
  import opened Wrappers
  import opened HfsLayout
  import opened HfsSizes

  // ---------- Writing into the buffer ----------

  function Splice(content: seq<Byte>, at: nat, bytes: seq<Byte>): (result: seq<Byte>)
    requires at + |bytes| <= |content|
    ensures |result| == |content|
  {
    content[..at] + bytes + content[at + |bytes|..]
  }

  /** value >> (index * 8) */
  function Shifted(value: nat, index: nat): nat {
    if index == 0 then value else Shifted(value / 256, index - 1)
  }

  lemma {:induction false} LittleAt(value: nat, width: nat, index: nat)
    requires index < width
    ensures Little(value, width)[index] == Shifted(value, index) % 256
  {
    if index > 0 {
      LittleAt(value / 256, width - 1, index - 1);
    }
  }

  /** write32 and write64. */
  method Write(bytes: array<Byte>, offset: nat, value: nat, width: nat)
    requires offset + width <= bytes.Length
    modifies bytes
    ensures bytes[..] == Splice(old(bytes[..]), offset, Little(value, width))
  {
    for index := 0 to width
      invariant bytes[..offset] == old(bytes[..offset])
      invariant bytes[offset..offset + index] == Little(value, width)[..index]
      invariant bytes[offset + index..] == old(bytes[..])[offset + index..]
    {
      LittleAt(value, width, index);
      bytes[offset + index] := Shifted(value, index) % 256;
    }
  }

  /** std::copy and std::memcpy. */
  method Copy(bytes: array<Byte>, offset: nat, source: seq<Byte>)
    requires offset + |source| <= bytes.Length
    modifies bytes
    ensures bytes[..] == Splice(old(bytes[..]), offset, source)
  {
    for index := 0 to |source|
      invariant bytes[..offset] == old(bytes[..offset])
      invariant bytes[offset..offset + index] == source[..index]
      invariant bytes[offset + index..] == old(bytes[..])[offset + index..]
    {
      bytes[offset + index] := source[index];
    }
  }

  // ---------- A partly written buffer ----------

  /**
   The fields below one attribute and the string bodies below another are in
   place; the rest of the string region is still zero.
   */
  ghost predicate Written(subject: Subject, request: AttributeRequest, content: seq<Byte>, fields: nat, bodies: nat) {
    && fields <= 64 && bodies <= 64
    && |content| == TotalSize(subject, request)
    && InPlace(content, HeadTo(subject, request, fields), FixedSize(subject, request), TailTo(subject, request, bodies))
  }

  predicate InPlace(content: seq<Byte>, head: seq<Byte>, fixed: nat, tail: seq<Byte>) {
    && fixed <= |content| && head <= content
    && tail <= content[fixed..] && AllZero(content[fixed + |tail|..])
  }

  predicate AllZero(bytes: seq<Byte>) {
    forall i | 0 <= i < |bytes| :: bytes[i] == 0
  }

  /** A complete buffer is the wire. */
  lemma Complete(subject: Subject, request: AttributeRequest, content: seq<Byte>)
    requires Written(subject, request, content, 64, 64)
    ensures content == Wire(subject, request)
  {
    hide HeadTo, TailTo, AllZero, FixedTo;
    WireSplit(subject, request);
    var fixed := FixedSize(subject, request);
    assert content == content[..fixed] + content[fixed..];
  }

  lemma Start(subject: Subject, request: AttributeRequest, content: seq<Byte>)
    requires |content| == TotalSize(subject, request) && AllZero(content)
    ensures 4 <= |content|
    ensures Written(subject, request, Splice(content, 0, Little(U32(|content|), 4)), 0, 0)
  {
    var head := Little(U32(|content|), 4);
    hide Little, FixedTo;
    HeadLands(content, [], head, FixedSize(subject, request), []);
    assert [] + head == head;
  }

  /** The next cell after the head, before the string region. */
  lemma HeadLands(content: seq<Byte>, head: seq<Byte>, cell: seq<Byte>, fixed: nat, tail: seq<Byte>)
    requires InPlace(content, head, fixed, tail) && |head| + |cell| <= fixed
    ensures InPlace(Splice(content, |head|, cell), head + cell, fixed, tail)
  {
    var result := Splice(content, |head|, cell);
    assert result[fixed..] == content[fixed..];
    assert result[fixed + |tail|..] == content[fixed + |tail|..];
  }

  /** The next body after the tail; what is left of its padding is zero already. */
  lemma TailLands(content: seq<Byte>, head: seq<Byte>, fixed: nat, tail: seq<Byte>, text: seq<Byte>, padding: nat)
    requires InPlace(content, head, fixed, tail) && |head| <= fixed
    requires fixed + |tail| + |text| + padding <= |content|
    ensures InPlace(Splice(content, fixed + |tail|, text), head, fixed, tail + (text + Zeros(padding)))
  {
    var at, end := fixed + |tail|, fixed + |tail| + |text| + padding;
    var result := Splice(content, at, text);
    forall k | at <= k < |content|
      ensures content[k] == 0
    {
      assert content[at..][k - at] == 0;
    }
    assert result[fixed..at] == content[fixed..at] == content[fixed..][..|tail|] == tail;
    assert result[at..end] == text + Zeros(padding);
    assert result[fixed..end] == result[fixed..at] + result[at..end];
    assert result[fixed..][..end - fixed] == result[fixed..end];
  }

  /** A requested field goes where the fields below it end, and stays inside the fixed part. */
  lemma FieldLands(subject: Subject, request: AttributeRequest, content: seq<Byte>, id: nat, bodies: nat)
    requires Written(subject, request, content, id, bodies) && id < 64 && Asked(request, subject.Target(), id)
    ensures var at := 4 + FixedTo(request, subject.Target(), id);
            var cell := CellOf(subject, request, id);
            && at + |cell| == 4 + FixedTo(request, subject.Target(), id + 1) <= FixedSize(subject, request) <= |content|
            && Written(subject, request, Splice(content, at, cell), id + 1, bodies)
  {
    hide InPlace, TailTo, CellOf, FixedTo, Asked, Subject.Target, Splice, TotalSize, FixedSize;
    HeadSize(subject, request, id);
    HeadSize(subject, request, id + 1);
    HeadSize(subject, request, 64);
    HeadIsPrefix(subject, request, id + 1, 64);
    FixedIs(subject, request);
    TotalIs(subject, request);
    HeadLands(content, HeadTo(subject, request, id), CellOf(subject, request, id), FixedSize(subject, request),
              TailTo(subject, request, bodies));
  }

  /** An attribute that is not requested takes no room. */
  lemma NothingLands(subject: Subject, request: AttributeRequest, content: seq<Byte>, id: nat, bodies: nat)
    requires Written(subject, request, content, id, bodies) && id < 64 && !Asked(request, subject.Target(), id)
    ensures Written(subject, request, content, id + 1, bodies)
    ensures FixedTo(request, subject.Target(), id + 1) == FixedTo(request, subject.Target(), id)
  {
    hide InPlace, TailTo, Asked, Subject.Target, TotalSize, FixedSize;
    assert HeadTo(subject, request, id + 1) == HeadTo(subject, request, id);
  }

  /** A requested string's body goes behind the bodies before it. */
  lemma BodyLands(
      subject: Subject, request: AttributeRequest, content: seq<Byte>, id: nat, bodies: nat, text: seq<Byte>)
    requires Written(subject, request, content, id, bodies) && bodies < 64
    requires Asked(request, subject.Target(), bodies) && FieldOf(subject, bodies) == TextValue(text)
    requires Representable(text)
    ensures |text| < PaddedSize(|text|)
    ensures |TailTo(subject, request, bodies)| + PaddedSize(|text|) == |TailTo(subject, request, bodies + 1)|
    ensures FixedSize(subject, request) + |TailTo(subject, request, bodies + 1)| <= |content|
    ensures Written(subject, request,
                    Splice(content, FixedSize(subject, request) + |TailTo(subject, request, bodies)|, text),
                    id, bodies + 1)
  {
    hide InPlace, HeadTo, FixedTo, Asked, Subject.Target, Splice, TotalSize, FixedSize, FieldOf, TailTo, Body,
         PaddedSize, Representable;
    BodyIs(text);
    TailStep(subject, request, bodies);
    TailIsPrefix(subject, request, bodies + 1, 64);
    TotalIs(subject, request);
    HeadFits(subject, request, id);
    TailLands(content, HeadTo(subject, request, id), FixedSize(subject, request), TailTo(subject, request, bodies),
              text, PaddedSize(|text|) - |text|);
  }

  lemma HeadFits(subject: Subject, request: AttributeRequest, id: nat)
    requires id <= 64
    ensures |HeadTo(subject, request, id)| <= FixedSize(subject, request)
  {
    hide *;
    FixedIs(subject, request);
    HeadSize(subject, request, 64);
    HeadIsPrefix(subject, request, id, 64);
  }

  lemma BodyIs(text: seq<Byte>)
    requires Representable(text)
    ensures |text| < PaddedSize(|text|)
    ensures Body(TextValue(text)) == text + Zeros(PaddedSize(|text|) - |text|)
    ensures |Body(TextValue(text))| == PaddedSize(|text|)
  {}

  /** An attribute without a string has no body. */
  lemma NoBodyLands(subject: Subject, request: AttributeRequest, content: seq<Byte>, id: nat, bodies: nat)
    requires Written(subject, request, content, id, bodies) && bodies < 64
    requires !Asked(request, subject.Target(), bodies) || !FieldOf(subject, bodies).TextValue?
    ensures Written(subject, request, content, id, bodies + 1)
    ensures TailTo(subject, request, bodies + 1) == TailTo(subject, request, bodies)
  {
    hide InPlace, HeadTo, Asked, Subject.Target, TotalSize, FixedSize, FieldOf;
    assert TailTo(subject, request, bodies + 1) == TailTo(subject, request, bodies);
  }

  lemma FixedIs(subject: Subject, request: AttributeRequest)
    ensures FixedSize(subject, request) == 4 + FixedTo(request, subject.Target(), 64)
  {}

  lemma {:induction false} NothingLandsUpTo(
      subject: Subject, request: AttributeRequest, content: seq<Byte>, id: nat, end: nat, bodies: nat)
    requires Written(subject, request, content, id, bodies) && id <= end <= 64
    requires forall k | id <= k < end :: ShapeOf(subject.Target(), k).None?
    ensures Written(subject, request, content, end, bodies)
    ensures FixedTo(request, subject.Target(), end) == FixedTo(request, subject.Target(), id)
    decreases end - id
  {
    hide Written, ShapeOf, Subject.Target, IsSet, FixedTo;
    if id < end {
      NothingLands(subject, request, content, id, bodies);
      NothingLandsUpTo(subject, request, content, id + 1, end, bodies);
    }
  }

  lemma {:induction false} NoBodyLandsUpTo(
      subject: Subject, request: AttributeRequest, content: seq<Byte>, id: nat, bodies: nat, end: nat)
    requires Written(subject, request, content, id, bodies) && bodies <= end <= 64
    requires forall k | bodies <= k < end :: ShapeOf(subject.Target(), k) != Some(Text)
    ensures Written(subject, request, content, id, end)
    ensures TailTo(subject, request, end) == TailTo(subject, request, bodies)
    decreases end - bodies
  {
    hide Written, ShapeOf, Subject.Target, IsSet, FieldOf, TailTo, Value.Has;
    if bodies < end {
      if Asked(request, subject.Target(), bodies) {
        AskedHasShape(subject, request, bodies);
      }
      NoBodyLands(subject, request, content, id, bodies);
      NoBodyLandsUpTo(subject, request, content, id, bodies + 1, end);
    }
  }

  // ---------- The writer ----------

  class AttributeWriter {
    ghost const subject: Subject
    ghost const request: AttributeRequest
    const result: array<Byte>
    const fixedSize: nat
    var cursor: nat
    var variableCursor: nat

    /** The buffer holds the fields below one attribute and the bodies below another; both cursors stand behind them. */
    ghost predicate At(fields: nat, bodies: nat)
      reads this, result
    {
      && Written(subject, request, result[..], fields, bodies)
      && fixedSize == FixedSize(subject, request)
      && cursor == 4 + FixedTo(request, subject.Target(), fields)
      && variableCursor == fixedSize + |TailTo(subject, request, bodies)|
    }

    constructor (fixedSize: nat, variableSize: nat, ghost subject: Subject, ghost request: AttributeRequest)
      requires fixedSize == FixedSize(subject, request)
      requires variableSize == |TailTo(subject, request, 64)|
      ensures this.subject == subject && this.request == request
      ensures At(0, 0) && fresh(result)
    {
      this.subject, this.request := subject, request;
      result := new Byte[fixedSize + variableSize](i => 0);
      this.fixedSize := fixedSize;
      cursor := 4;
      variableCursor := fixedSize;
      new;
      hide Written, Little, FixedSize;
      TotalIs(subject, request);
      Start(subject, request, result[..]);
      Write(result, 0, U32(result.Length), 4);
    }

    /** word, wide, object_id and timestamp: numbers of one width, one behind the other. */
    method Numbers(width: nat, items: seq<nat>)
      requires cursor + width * |items| <= result.Length
      modifies this`cursor, result
      ensures result[..] == Splice(old(result[..]), old(cursor), EncodeNumbers(width, items))
      ensures cursor == old(cursor) + width * |items|
    {
      hide Little, Splice, EncodeNumbers;
      ghost var before, start := result[..], cursor;
      EncodeNothing(width);
      SpliceNothing(before, start);
      for i := 0 to |items|
        invariant cursor == start + width * i
        invariant |EncodeNumbers(width, items[..i])| == width * i
        invariant start + width * i <= |before| == result.Length
        invariant result[..] == Splice(before, start, EncodeNumbers(width, items[..i]))
      {
        LengthStep(width, i);
        Fits(width, i + 1, |items|);
        assert items[..i + 1] == items[..i] + [items[i]];
        EncodeOneMore(width, items[..i], items[i]);
        SpliceTwice(before, start, EncodeNumbers(width, items[..i]), Little(items[i], width));
        Write(result, cursor, items[i], width);
        cursor := cursor + width;
      }
      assert items[..|items|] == items;
    }

    /** A requested number or byte field. */
    method Field(asked: bool, value: Value, ghost id: nat, ghost bodies: nat)
      requires At(id, bodies) && id < 64
      requires asked == Asked(request, subject.Target(), id)
      requires value == FieldOf(subject, id) && !value.TextValue?
      modifies this`cursor, result
      ensures At(id + 1, bodies)
    {
      hide Written, Asked, FieldOf, FixedTo, CellOf, TailTo, FixedSize, Splice, Subject.Target, TotalSize,
           EncodeNumbers;
      if asked {
        FieldLands(subject, request, result[..], id, bodies);
        CellIs(subject, request, id);
        match value
        case NumberValues(width, items) =>
          Numbers(width, items);
        case RawValue(bytes) =>
          Copy(result, cursor, bytes);
          cursor := cursor + |bytes|;
      } else {
        NothingLands(subject, request, result[..], id, bodies);
      }
    }

    /** A requested string's reference: the distance to its body, and its length with the terminator. */
    method Reference(asked: bool, text: seq<Byte>, ghost id: nat)
      requires At(id, id) && id < 64
      requires asked == Asked(request, subject.Target(), id) && FieldOf(subject, id) == TextValue(text)
      modifies this`cursor, result
      ensures At(id + 1, id)
    {
      hide Written, Asked, FieldOf, FixedTo, CellOf, TailTo, FixedSize, Splice, Subject.Target, TotalSize,
           EncodeNumbers;
      if asked {
        FieldLands(subject, request, result[..], id, id);
        CellIs(subject, request, id);
        ReferenceEncodes(variableCursor - cursor, |text| + 1);
        Numbers(4, [U32(variableCursor - cursor), U32(|text| + 1)]);
      } else {
        NothingLands(subject, request, result[..], id, id);
      }
    }

    /** A requested string: its reference, and its bytes in the string region. */
    method String(asked: bool, text: seq<Byte>, ghost id: nat)
      requires At(id, id) && id < 64
      requires asked == Asked(request, subject.Target(), id) && FieldOf(subject, id) == TextValue(text)
      requires asked ==> Representable(text)
      modifies this, result
      ensures At(id + 1, id + 1)
    {
      hide Written, Asked, FieldOf, FixedTo, TailTo, FixedSize, Splice, Subject.Target, TotalSize, PaddedSize,
           Representable;
      Reference(asked, text, id);
      if asked {
        BodyLands(subject, request, result[..], id + 1, id, text);
        Copy(result, variableCursor, text);
        variableCursor := variableCursor + PaddedSize(|text|);
      } else {
        NoBodyLands(subject, request, result[..], id + 1, id);
      }
    }

    /** Attributes without a shape are passed over. */
    lemma Skip(id: nat, end: nat, bodies: nat)
      requires At(id, bodies) && id <= end <= 64
      requires forall k | id <= k < end :: ShapeOf(subject.Target(), k).None?
      ensures At(end, bodies)
    {
      hide Written, FixedTo, TailTo, FixedSize, Subject.Target;
      NothingLandsUpTo(subject, request, result[..], id, end, bodies);
    }

    /** A requested attribute of no bytes. */
    lemma Empty(id: nat, bodies: nat)
      requires At(id, bodies) && id < 64 && FieldOf(subject, id) == NumberValues(4, [])
      ensures At(id + 1, bodies)
    {
      hide Written, Asked, FieldOf, FixedTo, CellOf, TailTo, FixedSize, Splice, Subject.Target, TotalSize,
           EncodeNumbers;
      if Asked(request, subject.Target(), id) {
        FieldLands(subject, request, result[..], id, bodies);
        CellIs(subject, request, id);
        EncodeNothing(4);
        SpliceNothing(result[..], cursor);
      } else {
        NothingLands(subject, request, result[..], id, bodies);
      }
    }

    lemma IsWritten(fields: nat, bodies: nat)
      requires At(fields, bodies)
      ensures Written(subject, request, result[..], fields, bodies) && fixedSize == FixedSize(subject, request)
    {}

    /** Attributes that are not strings leave the string region alone. */
    lemma SkipBodies(id: nat, bodies: nat, end: nat)
      requires At(id, bodies) && bodies <= end <= 64
      requires forall k | bodies <= k < end :: ShapeOf(subject.Target(), k) != Some(Text)
      ensures At(id, end)
    {
      hide Written, FixedTo, TailTo, FixedSize, Subject.Target;
      NoBodyLandsUpTo(subject, request, result[..], id, bodies, end);
    }
  }

  lemma ReferenceEncodes(distance: int, length: nat)
    ensures EncodeNumbers(4, [U32(distance), U32(length)]) == Little(U32(distance), 4) + Little(U32(length), 4)
  {
    hide Little, U32;
    assert [U32(distance), U32(length)][1..] == [U32(length)];
    assert [U32(length)][1..] == [];
  }

  lemma EncodeNothing(width: nat)
    ensures EncodeNumbers(width, []) == []
  {}

  lemma SpliceNothing(content: seq<Byte>, at: nat)
    requires at <= |content|
    ensures Splice(content, at, []) == content
  {}

  lemma SpliceTwice(content: seq<Byte>, at: nat, first: seq<Byte>, second: seq<Byte>)
    requires at + |first| + |second| <= |content|
    ensures Splice(Splice(content, at, first), at + |first|, second) == Splice(content, at, first + second)
  {}

  lemma {:induction false} EncodeOneMore(width: nat, items: seq<nat>, item: nat)
    ensures EncodeNumbers(width, items + [item]) == EncodeNumbers(width, items) + Little(item, width)
  {
    hide Little;
    if items == [] {
      assert [item] == [item] + [];
    } else {
      EncodeOneMore(width, items[1..], item);
      assert (items + [item])[1..] == items[1..] + [item];
    }
  }

  lemma Fits(width: nat, i: nat, count: nat)
    requires i <= count
    ensures width * i <= width * count
  {
    assert width * count == width * i + width * (count - i);
  }

  // ---------- The packers ----------

  lemma FirstCommonFlags(request: AttributeRequest, target: Target)
    ensures Asked(request, target, 0) == Meets(request.common, COMMON_NAME)
    ensures Asked(request, target, 1) == Meets(request.common, COMMON_DEVICE)
    ensures Asked(request, target, 2) == Meets(request.common, COMMON_FSID)
    ensures Asked(request, target, 3) == Meets(request.common, COMMON_OBJECT_TYPE)
    ensures Asked(request, target, 4) == Meets(request.common, COMMON_OBJECT_TAG)
    ensures Asked(request, target, 5) == Meets(request.common, COMMON_OBJECT_ID)
    ensures Asked(request, target, 6) == Meets(request.common, COMMON_PERMANENT_ID)
  {
    Flags();
    hide Flag, Meets;
  }

  lemma MiddleCommonFlags(request: AttributeRequest, target: Target)
    ensures Asked(request, target, 7) == Meets(request.common, COMMON_PARENT_ID)
    ensures Asked(request, target, 8) == Meets(request.common, COMMON_SCRIPT)
    ensures Asked(request, target, 9) == Meets(request.common, COMMON_CREATION_TIME)
    ensures Asked(request, target, 10) == Meets(request.common, COMMON_MODIFICATION_TIME)
    ensures Asked(request, target, 11) == Meets(request.common, COMMON_CHANGE_TIME)
    ensures Asked(request, target, 12) == Meets(request.common, COMMON_ACCESS_TIME)
    ensures Asked(request, target, 13) == Meets(request.common, COMMON_BACKUP_TIME)
  {
    Flags();
    hide Flag, Meets;
  }

  lemma LastCommonFlags(request: AttributeRequest, target: Target)
    ensures Asked(request, target, 14) == Meets(request.common, COMMON_FINDER_INFO)
    ensures Asked(request, target, 15) == Meets(request.common, COMMON_OWNER_ID)
    ensures Asked(request, target, 16) == Meets(request.common, COMMON_GROUP_ID)
    ensures Asked(request, target, 17) == Meets(request.common, COMMON_ACCESS_MASK)
    ensures Asked(request, target, 18) == Meets(request.common, COMMON_FLAGS)
    ensures Asked(request, target, 21) == Meets(request.common, COMMON_USER_ACCESS)
  {
    Flags();
    hide Flag, Meets;
  }

  lemma CommonGaps(target: Target)
    ensures forall k | 19 <= k < 21 :: ShapeOf(target, k).None?
    ensures forall k | 22 <= k < 32 :: ShapeOf(target, k).None?
  {}

  lemma FirstRecordFields(metadata: Metadata)
    ensures FieldOf(OfRecord(metadata), 0) == TextValue(metadata.name)
    ensures FieldOf(OfRecord(metadata), 1) == WordValue(HFS_DEVICE)
    ensures FieldOf(OfRecord(metadata), 2) == PairValue(HFS_DEVICE, 0)
    ensures FieldOf(OfRecord(metadata), 3) == WordValue(metadata.objectType)
    ensures FieldOf(OfRecord(metadata), 4) == WordValue(HFS_VNODE_TAG)
    ensures FieldOf(OfRecord(metadata), 5) == PairValue(metadata.catalogId, 0)
    ensures FieldOf(OfRecord(metadata), 6) == PairValue(metadata.permanentId, 0)
    ensures forall k | k in {1, 2, 3, 4, 5, 6} :: !FieldOf(OfRecord(metadata), k).TextValue?
  {}

  /** The name's reference, and what identifies a record. */
  method PackFirstRecordFields(writer: AttributeWriter, metadata: Metadata, request: AttributeRequest)
    requires writer.subject == OfRecord(metadata) && writer.request == request
    requires writer.At(0, 0)
    modifies writer`cursor, writer.result
    ensures writer.At(7, 0)
  {
    hide *;
    FirstCommonFlags(request, writer.subject.Target());
    FirstRecordFields(metadata);
    var mask := request.common;
    writer.Reference(Meets(mask, COMMON_NAME), metadata.name, 0);
    writer.Field(Meets(mask, COMMON_DEVICE), WordValue(HFS_DEVICE), 1, 0);
    writer.Field(Meets(mask, COMMON_FSID), PairValue(HFS_DEVICE, 0), 2, 0);
    writer.Field(Meets(mask, COMMON_OBJECT_TYPE), WordValue(metadata.objectType), 3, 0);
    writer.Field(Meets(mask, COMMON_OBJECT_TAG), WordValue(HFS_VNODE_TAG), 4, 0);
    writer.Field(Meets(mask, COMMON_OBJECT_ID), PairValue(metadata.catalogId, 0), 5, 0);
    writer.Field(Meets(mask, COMMON_PERMANENT_ID), PairValue(metadata.permanentId, 0), 6, 0);
  }

  lemma MiddleRecordFields(metadata: Metadata)
    ensures FieldOf(OfRecord(metadata), 7) == PairValue(metadata.parentCatalogId, 0)
    ensures FieldOf(OfRecord(metadata), 8) == WordValue(0)
    ensures FieldOf(OfRecord(metadata), 9) == TimeValue(metadata.creationTime)
    ensures FieldOf(OfRecord(metadata), 10) == TimeValue(metadata.modificationTime)
    ensures FieldOf(OfRecord(metadata), 11) == TimeValue(metadata.changeTime)
    ensures FieldOf(OfRecord(metadata), 12) == TimeValue(metadata.accessTime)
    ensures FieldOf(OfRecord(metadata), 13) == TimeValue(metadata.backupTime)
    ensures forall k | k in {7, 8, 9, 10, 11, 12, 13} :: !FieldOf(OfRecord(metadata), k).TextValue?
  {}

  /** A record's parent, script and times. */
  method PackMiddleRecordFields(writer: AttributeWriter, metadata: Metadata, request: AttributeRequest)
    requires writer.subject == OfRecord(metadata) && writer.request == request
    requires writer.At(7, 0)
    modifies writer`cursor, writer.result
    ensures writer.At(14, 0)
  {
    hide *;
    MiddleCommonFlags(request, writer.subject.Target());
    MiddleRecordFields(metadata);
    var mask := request.common;
    writer.Field(Meets(mask, COMMON_PARENT_ID), PairValue(metadata.parentCatalogId, 0), 7, 0);
    writer.Field(Meets(mask, COMMON_SCRIPT), WordValue(0), 8, 0);
    writer.Field(Meets(mask, COMMON_CREATION_TIME), TimeValue(metadata.creationTime), 9, 0);
    writer.Field(Meets(mask, COMMON_MODIFICATION_TIME), TimeValue(metadata.modificationTime), 10, 0);
    writer.Field(Meets(mask, COMMON_CHANGE_TIME), TimeValue(metadata.changeTime), 11, 0);
    writer.Field(Meets(mask, COMMON_ACCESS_TIME), TimeValue(metadata.accessTime), 12, 0);
    writer.Field(Meets(mask, COMMON_BACKUP_TIME), TimeValue(metadata.backupTime), 13, 0);
  }

  lemma LastRecordFields(metadata: Metadata)
    ensures FieldOf(OfRecord(metadata), 14) == RawValue(metadata.finderInfo)
    ensures FieldOf(OfRecord(metadata), 15) == WordValue(metadata.owner)
    ensures FieldOf(OfRecord(metadata), 16) == WordValue(metadata.group)
    ensures FieldOf(OfRecord(metadata), 17) == WordValue(metadata.mode)
    ensures FieldOf(OfRecord(metadata), 18) == WordValue(metadata.flags)
    ensures FieldOf(OfRecord(metadata), 21) == WordValue(USER_ACCESS)
    ensures forall k | k in {14, 15, 16, 17, 18, 21} :: !FieldOf(OfRecord(metadata), k).TextValue?
  {}

  /** A record's Finder information, owner, mode and flags. */
  method PackLastRecordFields(writer: AttributeWriter, metadata: Metadata, request: AttributeRequest)
    requires writer.subject == OfRecord(metadata) && writer.request == request
    requires writer.At(14, 0)
    modifies writer`cursor, writer.result
    ensures writer.At(32, 0)
  {
    hide *;
    LastCommonFlags(request, writer.subject.Target());
    LastRecordFields(metadata);
    CommonGaps(writer.subject.Target());
    var mask := request.common;
    writer.Field(Meets(mask, COMMON_FINDER_INFO), RawValue(metadata.finderInfo), 14, 0);
    writer.Field(Meets(mask, COMMON_OWNER_ID), WordValue(metadata.owner), 15, 0);
    writer.Field(Meets(mask, COMMON_GROUP_ID), WordValue(metadata.group), 16, 0);
    writer.Field(Meets(mask, COMMON_ACCESS_MASK), WordValue(metadata.mode), 17, 0);
    writer.Field(Meets(mask, COMMON_FLAGS), WordValue(metadata.flags), 18, 0);
    writer.Skip(19, 21, 0);
    writer.Field(Meets(mask, COMMON_USER_ACCESS), WordValue(USER_ACCESS), 21, 0);
    writer.Skip(22, 32, 0);
  }

  lemma DirectoryFlags(request: AttributeRequest)
    ensures Asked(request, Directory, 32) == Meets(request.directory, DIRECTORY_LINK_COUNT)
    ensures Asked(request, Directory, 33) == Meets(request.directory, DIRECTORY_ENTRY_COUNT)
    ensures Asked(request, Directory, 34) == Meets(request.directory, DIRECTORY_MOUNT_STATUS)
  {
    Flags();
    hide Flag, Meets;
  }

  lemma DirectoryFields(metadata: Metadata)
    requires metadata.directory
    ensures FieldOf(OfRecord(metadata), 32) == WordValue(metadata.linkCount)
    ensures FieldOf(OfRecord(metadata), 33) == WordValue(metadata.directoryEntryCount)
    ensures FieldOf(OfRecord(metadata), 34) == WordValue(0)
    ensures forall k | k in {32, 33, 34} :: !FieldOf(OfRecord(metadata), k).TextValue?
  {}

  lemma DirectoryGaps()
    ensures forall k | 35 <= k < 64 :: ShapeOf(Directory, k).None?
  {}

  lemma TargetOf(metadata: Metadata)
    ensures OfRecord(metadata).Target() == if metadata.directory then Directory else File
  {}

  /** The attributes only directories have. */
  method PackDirectoryFields(writer: AttributeWriter, metadata: Metadata, request: AttributeRequest)
    requires writer.subject == OfRecord(metadata) && writer.request == request
    requires metadata.directory
    requires writer.At(32, 0)
    modifies writer`cursor, writer.result
    ensures writer.At(64, 0)
  {
    hide *;
    TargetOf(metadata);
    DirectoryFlags(request);
    DirectoryFields(metadata);
    DirectoryGaps();
    writer.Field(Meets(request.directory, DIRECTORY_LINK_COUNT), WordValue(metadata.linkCount), 32, 0);
    writer.Field(Meets(request.directory, DIRECTORY_ENTRY_COUNT), WordValue(metadata.directoryEntryCount), 33, 0);
    writer.Field(Meets(request.directory, DIRECTORY_MOUNT_STATUS), WordValue(0), 34, 0);
    writer.Skip(35, 64, 0);
  }

  lemma FileFlags(request: AttributeRequest)
    ensures Asked(request, File, 32) == Meets(request.file, FILE_LINK_COUNT)
    ensures Asked(request, File, 33) == Meets(request.file, FILE_TOTAL_SIZE)
    ensures Asked(request, File, 34) == Meets(request.file, FILE_ALLOCATION_SIZE)
    ensures Asked(request, File, 35) == Meets(request.file, FILE_IO_BLOCK_SIZE)
    ensures Asked(request, File, 37) == Meets(request.file, FILE_DEVICE_TYPE)
    ensures Asked(request, File, 41) == Meets(request.file, FILE_DATA_LENGTH)
    ensures Asked(request, File, 42) == Meets(request.file, FILE_DATA_ALLOCATION_SIZE)
    ensures Asked(request, File, 44) == Meets(request.file, FILE_RESOURCE_LENGTH)
    ensures Asked(request, File, 45) == Meets(request.file, FILE_RESOURCE_ALLOCATION_SIZE)
  {
    Flags();
    hide Flag, Meets;
  }

  lemma FileFields(metadata: Metadata)
    requires !metadata.directory
    ensures FieldOf(OfRecord(metadata), 32) == WordValue(metadata.linkCount)
    ensures FieldOf(OfRecord(metadata), 33) == WideValue(U64(metadata.dataLength + metadata.resourceLength))
    ensures FieldOf(OfRecord(metadata), 34)
            == WideValue(U64(metadata.dataAllocationSize + metadata.resourceAllocationSize))
    ensures FieldOf(OfRecord(metadata), 35) == WordValue(HFS_BLOCK_SIZE)
    ensures FieldOf(OfRecord(metadata), 37) == WordValue(0)
    ensures FieldOf(OfRecord(metadata), 41) == WideValue(metadata.dataLength)
    ensures FieldOf(OfRecord(metadata), 42) == WideValue(metadata.dataAllocationSize)
    ensures FieldOf(OfRecord(metadata), 44) == WideValue(metadata.resourceLength)
    ensures FieldOf(OfRecord(metadata), 45) == WideValue(metadata.resourceAllocationSize)
    ensures forall k | k in {32, 33, 34, 35, 37, 41, 42, 44, 45} :: !FieldOf(OfRecord(metadata), k).TextValue?
  {}

  lemma FileGaps()
    ensures forall k | 36 <= k < 37 :: ShapeOf(File, k).None?
    ensures forall k | 38 <= k < 41 :: ShapeOf(File, k).None?
    ensures forall k | 43 <= k < 44 :: ShapeOf(File, k).None?
    ensures forall k | 46 <= k < 64 :: ShapeOf(File, k).None?
  {}

  /** A file's links, combined sizes and device. */
  method PackFileSummary(writer: AttributeWriter, metadata: Metadata, request: AttributeRequest)
    requires writer.subject == OfRecord(metadata) && writer.request == request
    requires !metadata.directory
    requires writer.At(32, 0)
    modifies writer`cursor, writer.result
    ensures writer.At(41, 0)
  {
    hide *;
    TargetOf(metadata);
    FileFlags(request);
    FileFields(metadata);
    FileGaps();
    writer.Field(Meets(request.file, FILE_LINK_COUNT), WordValue(metadata.linkCount), 32, 0);
    var total := WideValue(U64(metadata.dataLength + metadata.resourceLength));
    writer.Field(Meets(request.file, FILE_TOTAL_SIZE), total, 33, 0);
    writer.Field(Meets(request.file, FILE_ALLOCATION_SIZE),
                 WideValue(U64(metadata.dataAllocationSize + metadata.resourceAllocationSize)), 34, 0);
    writer.Field(Meets(request.file, FILE_IO_BLOCK_SIZE), WordValue(HFS_BLOCK_SIZE), 35, 0);
    writer.Skip(36, 37, 0);
    writer.Field(Meets(request.file, FILE_DEVICE_TYPE), WordValue(0), 37, 0);
    writer.Skip(38, 41, 0);
  }

  /** The sizes of a file's two forks. */
  method PackForkSizes(writer: AttributeWriter, metadata: Metadata, request: AttributeRequest)
    requires writer.subject == OfRecord(metadata) && writer.request == request
    requires !metadata.directory
    requires writer.At(41, 0)
    modifies writer`cursor, writer.result
    ensures writer.At(64, 0)
  {
    hide *;
    TargetOf(metadata);
    FileFlags(request);
    FileFields(metadata);
    FileGaps();
    writer.Field(Meets(request.file, FILE_DATA_LENGTH), WideValue(metadata.dataLength), 41, 0);
    writer.Field(Meets(request.file, FILE_DATA_ALLOCATION_SIZE), WideValue(metadata.dataAllocationSize), 42, 0);
    writer.Skip(43, 44, 0);
    writer.Field(Meets(request.file, FILE_RESOURCE_LENGTH), WideValue(metadata.resourceLength), 44, 0);
    writer.Field(Meets(request.file, FILE_RESOURCE_ALLOCATION_SIZE), WideValue(metadata.resourceAllocationSize), 45, 0);
    writer.Skip(46, 64, 0);
  }

  lemma VolumeTexts(root: Metadata, volume: VolumeMetadata)
    ensures OfVolume(root, volume).Target() == Volume
    ensures forall k | 0 <= k < 64 && k !in {0, 44, 45, 47} :: ShapeOf(Volume, k) != Some(Text)
  {}

  lemma VolumeTextsFit(root: Metadata, volume: VolumeMetadata, request: AttributeRequest)
    requires AllRepresentable(OfVolume(root, volume), request)
    ensures Meets(request.common, COMMON_NAME) ==> Representable(volume.name)
    ensures Meets(request.volume, VOLUME_MOUNT_POINT) ==> Representable(volume.mountPoint)
    ensures Meets(request.volume, VOLUME_NAME) ==> Representable(volume.name)
    ensures Meets(request.volume, VOLUME_MOUNTED_DEVICE) ==> Representable(volume.mountedDevice)
  {
    hide *;
    VolumeTexts(root, volume);
    FirstCommonFlags(request, Volume);
    FirstVolumeCommonFields(root, volume);
    MountFlags(request);
    MountFields(root, volume);
    TextFits(OfVolume(root, volume), request, 0, volume.name);
    TextFits(OfVolume(root, volume), request, 44, volume.mountPoint);
    TextFits(OfVolume(root, volume), request, 45, volume.name);
    TextFits(OfVolume(root, volume), request, 47, volume.mountedDevice);
  }

  lemma TextFits(subject: Subject, request: AttributeRequest, id: nat, text: seq<Byte>)
    requires AllRepresentable(subject, request) && id < 64 && FieldOf(subject, id) == TextValue(text)
    ensures Asked(request, subject.Target(), id) ==> Representable(text)
  {
    hide *;
    if Asked(request, subject.Target(), id) {
      TextIsRepresentable(subject, request, id);
    }
  }

  lemma RecordTextFits(metadata: Metadata, request: AttributeRequest)
    requires AllRepresentable(OfRecord(metadata), request)
    ensures Meets(request.common, COMMON_NAME) ==> Representable(metadata.name)
  {
    hide *;
    FirstCommonFlags(request, OfRecord(metadata).Target());
    FirstRecordFields(metadata);
    TextFits(OfRecord(metadata), request, 0, metadata.name);
  }

  lemma FirstVolumeCommonFields(root: Metadata, volume: VolumeMetadata)
    ensures FieldOf(OfVolume(root, volume), 0) == TextValue(volume.name)
    ensures FieldOf(OfVolume(root, volume), 1) == WordValue(HFS_DEVICE)
    ensures FieldOf(OfVolume(root, volume), 2) == PairValue(HFS_DEVICE, volume.filesystemType)
    ensures FieldOf(OfVolume(root, volume), 3) == WordValue(0)
    ensures FieldOf(OfVolume(root, volume), 4) == WordValue(HFS_VNODE_TAG)
    ensures FieldOf(OfVolume(root, volume), 5) == PairValue(0, 0)
    ensures FieldOf(OfVolume(root, volume), 6) == PairValue(0, 0)
    ensures forall k | k in {1, 2, 3, 4, 5, 6} :: !FieldOf(OfVolume(root, volume), k).TextValue?
  {}

  /** The volume's name, and what identifies it. */
  method PackFirstVolumeCommonFields(
      writer: AttributeWriter, root: Metadata, volume: VolumeMetadata, request: AttributeRequest)
    requires writer.subject == OfVolume(root, volume) && writer.request == request
    requires AllRepresentable(writer.subject, request)
    requires writer.At(0, 0)
    modifies writer, writer.result
    ensures writer.At(7, 7)
  {
    hide *;
    VolumeTexts(root, volume);
    VolumeTextsFit(root, volume, request);
    FirstCommonFlags(request, Volume);
    FirstVolumeCommonFields(root, volume);
    var mask := request.common;
    writer.String(Meets(mask, COMMON_NAME), volume.name, 0);
    writer.Field(Meets(mask, COMMON_DEVICE), WordValue(HFS_DEVICE), 1, 1);
    writer.Field(Meets(mask, COMMON_FSID), PairValue(HFS_DEVICE, volume.filesystemType), 2, 1);
    writer.Field(Meets(mask, COMMON_OBJECT_TYPE), WordValue(0), 3, 1);
    writer.Field(Meets(mask, COMMON_OBJECT_TAG), WordValue(HFS_VNODE_TAG), 4, 1);
    writer.Field(Meets(mask, COMMON_OBJECT_ID), PairValue(0, 0), 5, 1);
    writer.Field(Meets(mask, COMMON_PERMANENT_ID), PairValue(0, 0), 6, 1);
    writer.SkipBodies(7, 1, 7);
  }

  lemma MiddleVolumeCommonFields(root: Metadata, volume: VolumeMetadata)
    ensures FieldOf(OfVolume(root, volume), 7) == PairValue(0, 0)
    ensures FieldOf(OfVolume(root, volume), 8) == WordValue(0)
    ensures FieldOf(OfVolume(root, volume), 9) == TimeValue(root.creationTime)
    ensures FieldOf(OfVolume(root, volume), 10) == TimeValue(root.modificationTime)
    ensures FieldOf(OfVolume(root, volume), 11) == TimeValue(root.modificationTime)
    ensures FieldOf(OfVolume(root, volume), 12) == TimeValue(root.accessTime)
    ensures FieldOf(OfVolume(root, volume), 13) == TimeValue(root.backupTime)
    ensures forall k | k in {7, 8, 9, 10, 11, 12, 13} :: !FieldOf(OfVolume(root, volume), k).TextValue?
  {}

  /** No parent and no script; the root's times. */
  method PackMiddleVolumeCommonFields(
      writer: AttributeWriter, root: Metadata, volume: VolumeMetadata, request: AttributeRequest)
    requires writer.subject == OfVolume(root, volume) && writer.request == request
    requires writer.At(7, 7)
    modifies writer, writer.result
    ensures writer.At(14, 14)
  {
    hide *;
    VolumeTexts(root, volume);
    MiddleCommonFlags(request, Volume);
    MiddleVolumeCommonFields(root, volume);
    var mask := request.common;
    writer.Field(Meets(mask, COMMON_PARENT_ID), PairValue(0, 0), 7, 7);
    writer.Field(Meets(mask, COMMON_SCRIPT), WordValue(0), 8, 7);
    writer.Field(Meets(mask, COMMON_CREATION_TIME), TimeValue(root.creationTime), 9, 7);
    writer.Field(Meets(mask, COMMON_MODIFICATION_TIME), TimeValue(root.modificationTime), 10, 7);
    writer.Field(Meets(mask, COMMON_CHANGE_TIME), TimeValue(root.modificationTime), 11, 7);
    writer.Field(Meets(mask, COMMON_ACCESS_TIME), TimeValue(root.accessTime), 12, 7);
    writer.Field(Meets(mask, COMMON_BACKUP_TIME), TimeValue(root.backupTime), 13, 7);
    writer.SkipBodies(14, 7, 14);
  }

  lemma LastVolumeCommonFields(root: Metadata, volume: VolumeMetadata)
    ensures FieldOf(OfVolume(root, volume), 14) == RawValue(root.finderInfo)
    ensures FieldOf(OfVolume(root, volume), 15) == WordValue(root.owner)
    ensures FieldOf(OfVolume(root, volume), 16) == WordValue(root.group)
    ensures FieldOf(OfVolume(root, volume), 17) == WordValue(root.mode)
    ensures FieldOf(OfVolume(root, volume), 18) == WordValue(root.flags)
    ensures FieldOf(OfVolume(root, volume), 21) == WordValue(USER_ACCESS)
    ensures forall k | k in {14, 15, 16, 17, 18, 21} :: !FieldOf(OfVolume(root, volume), k).TextValue?
  {}

  /** The root's Finder information, owner, mode and flags. */
  method PackLastVolumeCommonFields(
      writer: AttributeWriter, root: Metadata, volume: VolumeMetadata, request: AttributeRequest)
    requires writer.subject == OfVolume(root, volume) && writer.request == request
    requires writer.At(14, 14)
    modifies writer, writer.result
    ensures writer.At(32, 32)
  {
    hide *;
    VolumeTexts(root, volume);
    LastCommonFlags(request, Volume);
    LastVolumeCommonFields(root, volume);
    CommonGaps(Volume);
    var mask := request.common;
    writer.Field(Meets(mask, COMMON_FINDER_INFO), RawValue(root.finderInfo), 14, 14);
    writer.Field(Meets(mask, COMMON_OWNER_ID), WordValue(root.owner), 15, 14);
    writer.Field(Meets(mask, COMMON_GROUP_ID), WordValue(root.group), 16, 14);
    writer.Field(Meets(mask, COMMON_ACCESS_MASK), WordValue(root.mode), 17, 14);
    writer.Field(Meets(mask, COMMON_FLAGS), WordValue(root.flags), 18, 14);
    writer.Skip(19, 21, 14);
    writer.Field(Meets(mask, COMMON_USER_ACCESS), WordValue(USER_ACCESS), 21, 14);
    writer.Skip(22, 32, 14);
    writer.SkipBodies(32, 14, 32);
  }

  lemma VolumeGaps()
    ensures forall k | 50 <= k < 62 :: ShapeOf(Volume, k).None?
  {}

  lemma GeometryFlags(request: AttributeRequest)
    ensures Asked(request, Volume, 32) == Meets(request.volume, VOLUME_FILESYSTEM_TYPE)
    ensures Asked(request, Volume, 33) == Meets(request.volume, VOLUME_SIGNATURE)
    ensures Asked(request, Volume, 34) == Meets(request.volume, VOLUME_SIZE)
    ensures Asked(request, Volume, 35) == Meets(request.volume, VOLUME_SPACE_FREE)
    ensures Asked(request, Volume, 36) == Meets(request.volume, VOLUME_SPACE_AVAILABLE)
    ensures Asked(request, Volume, 37) == Meets(request.volume, VOLUME_MINIMUM_ALLOCATION)
    ensures Asked(request, Volume, 38) == Meets(request.volume, VOLUME_ALLOCATION_CLUMP)
  {
    Flags();
    hide Flag, Meets;
  }

  lemma GeometryFields(root: Metadata, volume: VolumeMetadata)
    ensures FieldOf(OfVolume(root, volume), 32) == WordValue(volume.filesystemType)
    ensures FieldOf(OfVolume(root, volume), 33) == WordValue(volume.signature)
    ensures FieldOf(OfVolume(root, volume), 34) == WideValue(U64(volume.blockSize * volume.totalBlocks))
    ensures FieldOf(OfVolume(root, volume), 35) == WideValue(U64(volume.blockSize * volume.freeBlocks))
    ensures FieldOf(OfVolume(root, volume), 36) == WideValue(U64(volume.blockSize * volume.freeBlocks))
    ensures FieldOf(OfVolume(root, volume), 37) == WideValue(volume.blockSize)
    ensures FieldOf(OfVolume(root, volume), 38) == WideValue(volume.allocationClump)
    ensures forall k | k in {32, 33, 34, 35, 36, 37, 38} :: !FieldOf(OfVolume(root, volume), k).TextValue?
  {}

  /** The volume's kind and its sizes. */
  method PackGeometryFields(
      writer: AttributeWriter, root: Metadata, volume: VolumeMetadata, request: AttributeRequest)
    requires writer.subject == OfVolume(root, volume) && writer.request == request
    requires writer.At(32, 32)
    modifies writer, writer.result
    ensures writer.At(39, 39)
  {
    hide *;
    VolumeTexts(root, volume);
    GeometryFlags(request);
    GeometryFields(root, volume);
    var mask := request.volume;
    writer.Field(Meets(mask, VOLUME_FILESYSTEM_TYPE), WordValue(volume.filesystemType), 32, 32);
    writer.Field(Meets(mask, VOLUME_SIGNATURE), WordValue(volume.signature), 33, 32);
    writer.Field(Meets(mask, VOLUME_SIZE), WideValue(U64(volume.blockSize * volume.totalBlocks)), 34, 32);
    writer.Field(Meets(mask, VOLUME_SPACE_FREE), WideValue(U64(volume.blockSize * volume.freeBlocks)), 35, 32);
    writer.Field(Meets(mask, VOLUME_SPACE_AVAILABLE), WideValue(U64(volume.blockSize * volume.freeBlocks)), 36, 32);
    writer.Field(Meets(mask, VOLUME_MINIMUM_ALLOCATION), WideValue(volume.blockSize), 37, 32);
    writer.Field(Meets(mask, VOLUME_ALLOCATION_CLUMP), WideValue(volume.allocationClump), 38, 32);
    writer.SkipBodies(39, 32, 39);
  }

  lemma CountFlags(request: AttributeRequest)
    ensures Asked(request, Volume, 39) == Meets(request.volume, VOLUME_IO_BLOCK_SIZE)
    ensures Asked(request, Volume, 40) == Meets(request.volume, VOLUME_OBJECT_COUNT)
    ensures Asked(request, Volume, 41) == Meets(request.volume, VOLUME_FILE_COUNT)
    ensures Asked(request, Volume, 42) == Meets(request.volume, VOLUME_DIRECTORY_COUNT)
    ensures Asked(request, Volume, 43) == Meets(request.volume, VOLUME_MAX_OBJECT_COUNT)
  {
    Flags();
    hide Flag, Meets;
  }

  lemma CountFields(root: Metadata, volume: VolumeMetadata)
    ensures FieldOf(OfVolume(root, volume), 39) == WordValue(volume.ioBlockSize)
    ensures FieldOf(OfVolume(root, volume), 40) == WordValue(U32(volume.fileCount + volume.directoryCount))
    ensures FieldOf(OfVolume(root, volume), 41) == WordValue(volume.fileCount)
    ensures FieldOf(OfVolume(root, volume), 42) == WordValue(volume.directoryCount)
    ensures FieldOf(OfVolume(root, volume), 43) == WordValue(0xffff_ffff)
    ensures forall k | k in {39, 40, 41, 42, 43} :: !FieldOf(OfVolume(root, volume), k).TextValue?
  {}

  /** The volume's block size and its counts. */
  method PackCountFields(
      writer: AttributeWriter, root: Metadata, volume: VolumeMetadata, request: AttributeRequest)
    requires writer.subject == OfVolume(root, volume) && writer.request == request
    requires writer.At(39, 39)
    modifies writer, writer.result
    ensures writer.At(44, 44)
  {
    hide *;
    VolumeTexts(root, volume);
    CountFlags(request);
    CountFields(root, volume);
    var mask := request.volume;
    writer.Field(Meets(mask, VOLUME_IO_BLOCK_SIZE), WordValue(volume.ioBlockSize), 39, 39);
    writer.Field(Meets(mask, VOLUME_OBJECT_COUNT), WordValue(U32(volume.fileCount + volume.directoryCount)), 40, 39);
    writer.Field(Meets(mask, VOLUME_FILE_COUNT), WordValue(volume.fileCount), 41, 39);
    writer.Field(Meets(mask, VOLUME_DIRECTORY_COUNT), WordValue(volume.directoryCount), 42, 39);
    writer.Field(Meets(mask, VOLUME_MAX_OBJECT_COUNT), WordValue(0xffff_ffff), 43, 39);
    writer.SkipBodies(44, 39, 44);
  }

  lemma MountFlags(request: AttributeRequest)
    ensures Asked(request, Volume, 44) == Meets(request.volume, VOLUME_MOUNT_POINT)
    ensures Asked(request, Volume, 45) == Meets(request.volume, VOLUME_NAME)
    ensures Asked(request, Volume, 46) == Meets(request.volume, VOLUME_MOUNT_FLAGS)
    ensures Asked(request, Volume, 47) == Meets(request.volume, VOLUME_MOUNTED_DEVICE)
    ensures Asked(request, Volume, 48) == Meets(request.volume, VOLUME_ENCODINGS_USED)
  {
    Flags();
    hide Flag, Meets;
  }

  lemma MountFields(root: Metadata, volume: VolumeMetadata)
    ensures FieldOf(OfVolume(root, volume), 44) == TextValue(volume.mountPoint)
    ensures FieldOf(OfVolume(root, volume), 45) == TextValue(volume.name)
    ensures FieldOf(OfVolume(root, volume), 46) == WordValue(volume.mountFlags)
    ensures FieldOf(OfVolume(root, volume), 47) == TextValue(volume.mountedDevice)
    ensures FieldOf(OfVolume(root, volume), 48) == WideValue(volume.encodingsUsed)
    ensures forall k | k in {46, 48} :: !FieldOf(OfVolume(root, volume), k).TextValue?
  {}

  /** Where and how the volume is mounted. */
  method PackMountFields(
      writer: AttributeWriter, root: Metadata, volume: VolumeMetadata, request: AttributeRequest)
    requires writer.subject == OfVolume(root, volume) && writer.request == request
    requires AllRepresentable(writer.subject, request)
    requires writer.At(44, 44)
    modifies writer, writer.result
    ensures writer.At(49, 49)
  {
    hide *;
    VolumeTexts(root, volume);
    VolumeTextsFit(root, volume, request);
    MountFlags(request);
    MountFields(root, volume);
    var mask := request.volume;
    writer.String(Meets(mask, VOLUME_MOUNT_POINT), volume.mountPoint, 44);
    writer.String(Meets(mask, VOLUME_NAME), volume.name, 45);
    writer.Field(Meets(mask, VOLUME_MOUNT_FLAGS), WordValue(volume.mountFlags), 46, 46);
    writer.SkipBodies(47, 46, 47);
    writer.String(Meets(mask, VOLUME_MOUNTED_DEVICE), volume.mountedDevice, 47);
    writer.Field(Meets(mask, VOLUME_ENCODINGS_USED), WideValue(volume.encodingsUsed), 48, 48);
    writer.SkipBodies(49, 48, 49);
  }

  lemma SupportFlags(request: AttributeRequest)
    ensures Asked(request, Volume, 49) == Meets(request.volume, VOLUME_CAPABILITIES)
    ensures Asked(request, Volume, 62) == Meets(request.volume, VOLUME_ATTRIBUTES)
  {
    Flags();
    hide Flag, Meets;
  }

  lemma SupportFields(root: Metadata, volume: VolumeMetadata)
    ensures FieldOf(OfVolume(root, volume), 49) == NumberValues(4, CAPABILITIES)
    ensures FieldOf(OfVolume(root, volume), 62) == NumberValues(4, ATTRIBUTES + ATTRIBUTES)
    ensures forall k | k in {49, 62} :: !FieldOf(OfVolume(root, volume), k).TextValue?
  {}

  /** What the volume supports. */
  method PackSupportFields(
      writer: AttributeWriter, root: Metadata, volume: VolumeMetadata, request: AttributeRequest)
    requires writer.subject == OfVolume(root, volume) && writer.request == request
    requires writer.At(49, 49)
    modifies writer, writer.result
    ensures writer.At(64, 64)
  {
    hide *;
    VolumeTexts(root, volume);
    SupportFlags(request);
    SupportFields(root, volume);
    VolumeGaps();
    InfoIsEmpty(root, volume);
    var mask := request.volume;
    writer.Field(Meets(mask, VOLUME_CAPABILITIES), NumberValues(4, CAPABILITIES), 49, 49);
    writer.Skip(50, 62, 49);
    writer.Field(Meets(mask, VOLUME_ATTRIBUTES), NumberValues(4, ATTRIBUTES + ATTRIBUTES), 62, 49);
    writer.Empty(63, 49);
    writer.SkipBodies(64, 49, 64);
  }

  lemma InfoIsEmpty(root: Metadata, volume: VolumeMetadata)
    ensures FieldOf(OfVolume(root, volume), 63) == NumberValues(4, [])
  {}

  lemma RecordTexts(metadata: Metadata)
    ensures forall k | 1 <= k < 64 :: ShapeOf(OfRecord(metadata).Target(), k) != Some(Text)
  {}

  lemma NoTail(subject: Subject, request: AttributeRequest)
    ensures TailTo(subject, request, 0) == []
  {}

  lemma {:induction false} SameTail(subject: Subject, request: AttributeRequest, id: nat, end: nat)
    requires id <= end <= 64
    requires forall k | id <= k < end :: ShapeOf(subject.Target(), k) != Some(Text)
    ensures TailTo(subject, request, end) == TailTo(subject, request, id)
    decreases end
  {
    hide ShapeOf, Subject.Target, IsSet, FieldOf, Value.Has;
    if id < end {
      SameTail(subject, request, id, end - 1);
      if Asked(request, subject.Target(), end - 1) {
        AskedHasShape(subject, request, end - 1);
      }
    }
  }

  lemma OneMoreBody(subject: Subject, request: AttributeRequest, id: nat, text: seq<Byte>)
    requires FieldOf(subject, id) == TextValue(text)
    requires Asked(request, subject.Target(), id) ==> Representable(text)
    ensures |TailTo(subject, request, id + 1)|
            == |TailTo(subject, request, id)| + When(Asked(request, subject.Target(), id), PaddedSize(|text|))
  {
    hide Asked, FieldOf, Subject.Target, Body, PaddedSize, Representable;
    if Asked(request, subject.Target(), id) {
      BodyIs(text);
    }
  }

  lemma RecordTail(metadata: Metadata, request: AttributeRequest)
    requires AllRepresentable(OfRecord(metadata), request)
    ensures |TailTo(OfRecord(metadata), request, 64)|
            == When(Meets(request.common, COMMON_NAME), PaddedSize(|metadata.name|))
  {
    hide *;
    var subject := OfRecord(metadata);
    FirstCommonFlags(request, subject.Target());
    FirstRecordFields(metadata);
    RecordTexts(metadata);
    RecordTextFits(metadata, request);
    NoTail(subject, request);
    OneMoreBody(subject, request, 0, metadata.name);
    SameTail(subject, request, 1, 64);
  }

  lemma VolumeTail(root: Metadata, volume: VolumeMetadata, request: AttributeRequest)
    requires AllRepresentable(OfVolume(root, volume), request)
    ensures |TailTo(OfVolume(root, volume), request, 64)|
            == When(Meets(request.common, COMMON_NAME), PaddedSize(|volume.name|))
               + When(Meets(request.volume, VOLUME_MOUNT_POINT), PaddedSize(|volume.mountPoint|))
               + When(Meets(request.volume, VOLUME_NAME), PaddedSize(|volume.name|))
               + When(Meets(request.volume, VOLUME_MOUNTED_DEVICE), PaddedSize(|volume.mountedDevice|))
  {
    hide *;
    var subject := OfVolume(root, volume);
    VolumeTexts(root, volume);
    VolumeTextsFit(root, volume, request);
    FirstCommonFlags(request, Volume);
    FirstVolumeCommonFields(root, volume);
    MountFlags(request);
    MountFields(root, volume);
    NoTail(subject, request);
    OneMoreBody(subject, request, 0, volume.name);
    SameTail(subject, request, 1, 44);
    OneMoreBody(subject, request, 44, volume.mountPoint);
    OneMoreBody(subject, request, 45, volume.name);
    SameTail(subject, request, 46, 47);
    OneMoreBody(subject, request, 47, volume.mountedDevice);
    SameTail(subject, request, 48, 64);
  }

  /** Writing the terminator where there already is a zero. */
  lemma Terminated(subject: Subject, request: AttributeRequest, content: seq<Byte>, text: seq<Byte>)
    requires Written(subject, request, content, 64, 0)
    requires FixedSize(subject, request) + |text| < |content|
    ensures Splice(content, FixedSize(subject, request), text + [0])
            == Splice(content, FixedSize(subject, request), text)
  {
    hide HeadTo, TotalSize, FixedSize;
    var fixed := FixedSize(subject, request);
    assert content[fixed..][|text|] == 0;
  }

  /** pack_attributes: one file or directory. */
  method PackAttributes(metadata: Metadata, request: AttributeRequest) returns (result: array<Byte>)
    requires AllRepresentable(OfRecord(metadata), request)
    ensures fresh(result) && result[..] == Wire(OfRecord(metadata), request)
  {
    hide *;
    ghost var subject := OfRecord(metadata);
    TargetOf(metadata);
    FixedIs(subject, request);
    RecordTail(metadata, request);
    var fixedSize := CommonFixedSize(request.common, request, subject.Target());
    fixedSize := 4 + fixedSize;
    if metadata.directory {
      DirectorySizeAgrees(request);
      fixedSize := fixedSize + DirectoryFixedSize(request.directory);
    } else {
      var size := FileFixedSize(request.file, request);
      fixedSize := fixedSize + size;
    }
    var nameSize := When(Meets(request.common, COMMON_NAME), PaddedSize(|metadata.name|));
    var writer := new AttributeWriter(fixedSize, nameSize, subject, request);
    PackFirstRecordFields(writer, metadata, request);
    PackMiddleRecordFields(writer, metadata, request);
    PackLastRecordFields(writer, metadata, request);
    if metadata.directory {
      PackDirectoryFields(writer, metadata, request);
    } else {
      PackFileSummary(writer, metadata, request);
      PackForkSizes(writer, metadata, request);
    }
    PackName(writer, nameSize, metadata, request);
    Complete(subject, request, writer.result[..]);
    result := writer.result;
  }

  /** The name with its terminator, behind the fixed part. */
  method PackName(writer: AttributeWriter, nameSize: nat, metadata: Metadata, request: AttributeRequest)
    requires writer.subject == OfRecord(metadata) && writer.request == request
    requires AllRepresentable(OfRecord(metadata), request)
    requires nameSize == When(Meets(request.common, COMMON_NAME), PaddedSize(|metadata.name|))
    requires writer.At(64, 0)
    modifies writer.result
    ensures Written(writer.subject, request, writer.result[..], 64, 64)
  {
    hide *;
    ghost var subject := writer.subject;
    ghost var content := writer.result[..];
    writer.IsWritten(64, 0);
    FirstCommonFlags(request, subject.Target());
    FirstRecordFields(metadata);
    RecordTexts(metadata);
    RecordTextFits(metadata, request);
    NoTail(subject, request);
    NameIsAsked(nameSize, Meets(request.common, COMMON_NAME), metadata.name);
    if nameSize != 0 {
      BodyLands(subject, request, content, 64, 0, metadata.name);
      Terminated(subject, request, content, metadata.name);
      Copy(writer.result, writer.fixedSize, metadata.name + [0]);
    } else {
      NoBodyLands(subject, request, content, 64, 0);
    }
    NoBodyLandsUpTo(subject, request, writer.result[..], 64, 1, 64);
  }

  lemma NameIsAsked(nameSize: nat, asked: bool, name: seq<Byte>)
    requires nameSize == When(asked, PaddedSize(|name|)) && (asked ==> Representable(name))
    ensures nameSize != 0 <==> asked
  {}

  /** pack_volume_attributes: the mounted volume and its root record. */
  method PackVolumeAttributes(root: Metadata, volume: VolumeMetadata, request: AttributeRequest)
    returns (result: array<Byte>)
    requires AllRepresentable(OfVolume(root, volume), request)
    ensures fresh(result) && result[..] == Wire(OfVolume(root, volume), request)
  {
    hide *;
    ghost var subject := OfVolume(root, volume);
    VolumeTexts(root, volume);
    FixedIs(subject, request);
    VolumeTail(root, volume, request);
    var fixedSize := CommonFixedSize(request.common, request, Volume);
    var size := VolumeFixedSize(request.volume, request);
    fixedSize := 4 + fixedSize + size;
    var variableSize := When(Meets(request.common, COMMON_NAME), PaddedSize(|volume.name|));
    variableSize := variableSize + When(Meets(request.volume, VOLUME_MOUNT_POINT), PaddedSize(|volume.mountPoint|));
    variableSize := variableSize + When(Meets(request.volume, VOLUME_NAME), PaddedSize(|volume.name|));
    variableSize := variableSize
                    + When(Meets(request.volume, VOLUME_MOUNTED_DEVICE), PaddedSize(|volume.mountedDevice|));
    var writer := new AttributeWriter(fixedSize, variableSize, subject, request);
    PackFirstVolumeCommonFields(writer, root, volume, request);
    PackMiddleVolumeCommonFields(writer, root, volume, request);
    PackLastVolumeCommonFields(writer, root, volume, request);
    PackGeometryFields(writer, root, volume, request);
    PackCountFields(writer, root, volume, request);
    PackMountFields(writer, root, volume, request);
    PackSupportFields(writer, root, volume, request);
    writer.IsWritten(64, 64);
    Complete(subject, request, writer.result[..]);
    result := writer.result;
  }
}
