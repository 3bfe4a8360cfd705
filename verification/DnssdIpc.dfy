/**
 The GetAddressInfo messages of the DNS service discovery IPC: big-endian
 words, a terminated host name, and for replies a sized address.
 */
module DnssdIpc {
  import opened Wrappers

  type Byte = n: nat | n < 0x100
  type U16 = n: nat | n < 0x1_0000
  type U32 = n: nat | n < 0x1_0000_0000
  type I32 = n: int | -0x8000_0000 <= n < 0x8000_0000

  const REQUEST_FIXED_SIZE: nat := 12
  const REPLY_PREFIX_SIZE: nat := 12
  const REPLY_SUFFIX_SIZE: nat := 8

  datatype Request = Request(flags: U32, interfaceIndex: U32, protocols: U32, hostname: seq<Byte>)

  datatype ReplyPrefix = ReplyPrefix(flags: U32, interfaceIndex: U32, error: I32)

  datatype Reply = Reply(prefix: ReplyPrefix, hostname: seq<Byte>, recordType: U16, address: seq<Byte>, ttl: U32)

  // ---------- Words ----------

  function EncodeU16(value: U16): (wire: seq<Byte>)
    ensures |wire| == 2
  {
    [value / 0x100, value % 0x100]
  }

  function DecodeU16(bytes: seq<Byte>): U16
    requires |bytes| == 2
  {
    0x100 * bytes[0] as int + bytes[1]
  }

  function EncodeU32(value: U32): (wire: seq<Byte>)
    ensures |wire| == 4
  {
    EncodeU16(value / 0x1_0000) + EncodeU16(value % 0x1_0000)
  }

  function DecodeU32(bytes: seq<Byte>): U32
    requires |bytes| == 4
  {
    0x1_0000 * DecodeU16(bytes[..2]) as int + DecodeU16(bytes[2..])
  }

  /** Conversion of a signed word to unsigned, and back bit for bit. */
  function AsUnsigned(x: I32): U32 {
    if x < 0 then x + 0x1_0000_0000 else x
  }

  function AsSigned(x: U32): I32 {
    if x < 0x8000_0000 then x else x - 0x1_0000_0000
  }

  lemma U16RoundTrip(value: U16)
    ensures DecodeU16(EncodeU16(value)) == value
  {}

  lemma U16WireRoundTrip(bytes: seq<Byte>)
    requires |bytes| == 2
    ensures EncodeU16(DecodeU16(bytes)) == bytes
  {}

  lemma U32RoundTrip(value: U32)
    ensures DecodeU32(EncodeU32(value)) == value
  {
    var wire := EncodeU32(value);
    U16RoundTrip(value / 0x1_0000);
    U16RoundTrip(value % 0x1_0000);
    hide EncodeU16, DecodeU16;
    assert wire[..2] == EncodeU16(value / 0x1_0000) && wire[2..] == EncodeU16(value % 0x1_0000);
  }

  lemma U32WireRoundTrip(bytes: seq<Byte>)
    requires |bytes| == 4
    ensures EncodeU32(DecodeU32(bytes)) == bytes
  {
    U16WireRoundTrip(bytes[..2]);
    U16WireRoundTrip(bytes[2..]);
    hide EncodeU16, DecodeU16;
    Digits(DecodeU16(bytes[..2]), DecodeU16(bytes[2..]));
    assert bytes == bytes[..2] + bytes[2..];
  }

  lemma Digits(high: U16, low: U16)
    ensures (0x1_0000 * high as int + low) / 0x1_0000 == high && (0x1_0000 * high as int + low) % 0x1_0000 == low
  {}

  // ---------- Terminated strings ----------

  predicate ValidCString(value: seq<Byte>) {
    0 !in value
  }

  /** The first zero from a position on. */
  function TerminatorAt(wire: seq<Byte>, start: nat): (index: Option<nat>)
    requires start <= |wire|
    ensures index.Some? ==> start <= index.value < |wire| && wire[index.value] == 0 && 0 !in wire[start..index.value]
    ensures index.None? ==> 0 !in wire[start..]
    decreases |wire| - start
  {
    if start == |wire| then None
    else if wire[start] == 0 then Some(start)
    else
      var rest := TerminatorAt(wire, start + 1);
      assert wire[start..] == [wire[start]] + wire[start + 1..];
      assert rest.Some? ==> wire[start..rest.value] == [wire[start]] + wire[start + 1..rest.value];
      rest
  }

  method FindTerminator(wire: seq<Byte>, start: nat) returns (index: Option<nat>)
    requires start <= |wire|
    ensures index == TerminatorAt(wire, start)
  {
    for i := start to |wire|
      invariant TerminatorAt(wire, start) == TerminatorAt(wire, i)
    {
      if wire[i] == 0 {
        return Some(i);
      }
    }
    return None;
  }

  lemma {:induction false} TerminatorUnique(wire: seq<Byte>, start: nat, index: nat)
    requires start <= index < |wire| && wire[index] == 0 && 0 !in wire[start..index]
    ensures TerminatorAt(wire, start) == Some(index)
    decreases index - start
  {
    if start < index {
      assert wire[start..index][0] == wire[start];
      assert wire[start + 1..index] == wire[start..index][1..];
      TerminatorUnique(wire, start + 1, index);
    }
  }

  // ---------- Requests ----------

  function EncodeRequest(r: Request): Option<seq<Byte>> {
    if !ValidCString(r.hostname) then None
    else Some(EncodeU32(r.flags) + EncodeU32(r.interfaceIndex) + EncodeU32(r.protocols) + r.hostname + [0])
  }

  function DecodeRequest(wire: seq<Byte>): Option<Request> {
    if |wire| < REQUEST_FIXED_SIZE + 1 then None
    else
      var terminator := TerminatorAt(wire, REQUEST_FIXED_SIZE);
      if terminator.None? || terminator.value + 1 != |wire| then None
      else
        Some(Request(DecodeU32(wire[..4]), DecodeU32(wire[4..8]), DecodeU32(wire[8..12]),
                     wire[REQUEST_FIXED_SIZE..terminator.value]))
  }

  /** Every request that encodes decodes to itself. */
  lemma RequestRoundTrip(r: Request)
    requires EncodeRequest(r).Some?
    ensures DecodeRequest(EncodeRequest(r).value) == Some(r)
  {
    var wire := EncodeRequest(r).value;
    U32RoundTrip(r.flags);
    U32RoundTrip(r.interfaceIndex);
    U32RoundTrip(r.protocols);
    hide EncodeU32, DecodeU32;
    assert wire[..4] == EncodeU32(r.flags);
    assert wire[4..8] == EncodeU32(r.interfaceIndex);
    assert wire[8..12] == EncodeU32(r.protocols);
    assert wire[12..12 + |r.hostname|] == r.hostname;
    TerminatorUnique(wire, 12, 12 + |r.hostname|);
  }

  /** Every wire that decodes is the encoding of what it decodes to: none is truncated, trailing or unterminated. */
  lemma RequestWireRoundTrip(wire: seq<Byte>)
    requires DecodeRequest(wire).Some?
    ensures EncodeRequest(DecodeRequest(wire).value) == Some(wire)
  {
    var end := TerminatorAt(wire, REQUEST_FIXED_SIZE).value;
    U32WireRoundTrip(wire[..4]);
    U32WireRoundTrip(wire[4..8]);
    U32WireRoundTrip(wire[8..12]);
    hide EncodeU32, DecodeU32, TerminatorAt;
    assert wire == wire[..4] + wire[4..8] + wire[8..12] + wire[12..end] + [0];
  }

  // ---------- Replies ----------

  function EncodePrefix(p: ReplyPrefix): (wire: seq<Byte>)
    ensures |wire| == REPLY_PREFIX_SIZE
  {
    EncodeU32(p.flags) + EncodeU32(p.interfaceIndex) + EncodeU32(AsUnsigned(p.error))
  }

  function DecodePrefix(wire: seq<Byte>): ReplyPrefix
    requires |wire| == REPLY_PREFIX_SIZE
  {
    ReplyPrefix(DecodeU32(wire[..4]), DecodeU32(wire[4..8]), AsSigned(DecodeU32(wire[8..12])))
  }

  function EncodeReply(r: Reply): Option<seq<Byte>> {
    if !ValidCString(r.hostname) || |r.address| > 0xffff then None
    else
      Some(EncodePrefix(r.prefix) + r.hostname + [0] + EncodeU16(r.recordType) + EncodeU16(|r.address|)
           + r.address + EncodeU32(r.ttl))
  }

  function DecodeReply(wire: seq<Byte>): Option<Reply> {
    if |wire| < REPLY_PREFIX_SIZE + 1 + REPLY_SUFFIX_SIZE then None
    else
      var terminator := TerminatorAt(wire, REPLY_PREFIX_SIZE);
      if terminator.None? then None
      else
        var recordOffset := terminator.value + 1;
        if |wire| < recordOffset + REPLY_SUFFIX_SIZE then None
        else
          var addressSize := DecodeU16(wire[recordOffset + 2..recordOffset + 4]);
          var addressOffset := recordOffset + 4;
          var ttlOffset := addressOffset + addressSize;
          if ttlOffset + 4 != |wire| then None
          else
            Some(Reply(DecodePrefix(wire[..REPLY_PREFIX_SIZE]), wire[REPLY_PREFIX_SIZE..terminator.value],
                       DecodeU16(wire[recordOffset..recordOffset + 2]), wire[addressOffset..ttlOffset],
                       DecodeU32(wire[ttlOffset..ttlOffset + 4])))
  }

  lemma PrefixRoundTrip(p: ReplyPrefix)
    ensures DecodePrefix(EncodePrefix(p)) == p
  {
    var wire := EncodePrefix(p);
    U32RoundTrip(p.flags);
    U32RoundTrip(p.interfaceIndex);
    U32RoundTrip(AsUnsigned(p.error));
    hide EncodeU32, DecodeU32;
    assert wire[..4] == EncodeU32(p.flags);
    assert wire[4..8] == EncodeU32(p.interfaceIndex);
    assert wire[8..12] == EncodeU32(AsUnsigned(p.error));
  }

  lemma PrefixWireRoundTrip(wire: seq<Byte>)
    requires |wire| == REPLY_PREFIX_SIZE
    ensures EncodePrefix(DecodePrefix(wire)) == wire
  {
    U32WireRoundTrip(wire[..4]);
    U32WireRoundTrip(wire[4..8]);
    U32WireRoundTrip(wire[8..12]);
    hide EncodeU32, DecodeU32;
    assert wire == wire[..4] + wire[4..8] + wire[8..12];
  }

  lemma ReplyRoundTrip(r: Reply)
    requires EncodeReply(r).Some?
    ensures DecodeReply(EncodeReply(r).value) == Some(r)
  {
    var wire := EncodeReply(r).value;
    var end := 12 + |r.hostname|;
    PrefixRoundTrip(r.prefix);
    U16RoundTrip(r.recordType);
    U16RoundTrip(|r.address|);
    U32RoundTrip(r.ttl);
    hide EncodeU32, DecodeU32, EncodeU16, DecodeU16, EncodePrefix, DecodePrefix, TerminatorAt;
    Cuts(wire, EncodePrefix(r.prefix), r.hostname, EncodeU16(r.recordType), EncodeU16(|r.address|), r.address,
         EncodeU32(r.ttl));
    TerminatorUnique(wire, 12, end);
    hide ValidCString, EncodeReply;
    assert DecodeU16(wire[end + 3..end + 5]) == |r.address|;
  }

  lemma Cuts(wire: seq<Byte>, prefix: seq<Byte>, host: seq<Byte>, kind: seq<Byte>, size: seq<Byte>, address: seq<Byte>,
             ttl: seq<Byte>)
    requires |prefix| == 12 && |kind| == |size| == 2 && |ttl| == 4
    requires wire == prefix + host + [0] + kind + size + address + ttl
    ensures var end := 12 + |host|;
            && |wire| == end + 9 + |address|
            && wire[..12] == prefix && wire[12..end] == host && wire[end] == 0
            && wire[end + 1..end + 3] == kind && wire[end + 3..end + 5] == size
            && wire[end + 5..end + 5 + |address|] == address && wire[end + 5 + |address|..end + 9 + |address|] == ttl
  {}

  lemma ReplyWireRoundTrip(wire: seq<Byte>)
    requires DecodeReply(wire).Some?
    ensures EncodeReply(DecodeReply(wire).value) == Some(wire)
  {
    var end := TerminatorAt(wire, REPLY_PREFIX_SIZE).value;
    var size := DecodeU16(wire[end + 3..end + 5]);
    PrefixWireRoundTrip(wire[..12]);
    U16WireRoundTrip(wire[end + 1..end + 3]);
    U16WireRoundTrip(wire[end + 3..end + 5]);
    U32WireRoundTrip(wire[end + 5 + size..]);
    hide EncodeU32, DecodeU32, EncodeU16, DecodeU16, EncodePrefix, DecodePrefix, TerminatorAt;
    Pieces(wire, end, size);
  }

  lemma Pieces(wire: seq<Byte>, end: nat, size: nat)
    requires 12 <= end && end + 5 + size <= |wire| && wire[end] == 0
    ensures wire == wire[..12] + wire[12..end] + [0] + wire[end + 1..end + 3] + wire[end + 3..end + 5]
                    + wire[end + 5..end + 5 + size] + wire[end + 5 + size..]
  {
    assert wire[..end] == wire[..12] + wire[12..end];
    assert wire[..end + 1] == wire[..end] + [0];
    assert wire[..end + 3] == wire[..end + 1] + wire[end + 1..end + 3];
    assert wire[..end + 5] == wire[..end + 3] + wire[end + 3..end + 5];
    assert wire[..end + 5 + size] == wire[..end + 5] + wire[end + 5..end + 5 + size];
  }

  // ---------- Exactly the encodings ----------

  /** A wire decodes to a message exactly when the message encodes to the wire. */
  lemma RequestCodecIsABijection(wire: seq<Byte>, r: Request)
    ensures DecodeRequest(wire) == Some(r) <==> EncodeRequest(r) == Some(wire)
  {
    hide EncodeRequest, DecodeRequest;
    if DecodeRequest(wire).Some? {
      RequestWireRoundTrip(wire);
    }
    if EncodeRequest(r).Some? {
      RequestRoundTrip(r);
    }
  }

  lemma ReplyCodecIsABijection(wire: seq<Byte>, r: Reply)
    ensures DecodeReply(wire) == Some(r) <==> EncodeReply(r) == Some(wire)
  {
    hide EncodeReply, DecodeReply;
    if DecodeReply(wire).Some? {
      ReplyWireRoundTrip(wire);
    }
    if EncodeReply(r).Some? {
      ReplyRoundTrip(r);
    }
  }

  // ---------- The bytes on the wire ----------

  /** The words at an offset, most significant byte first. */
  predicate ShortAt(wire: seq<Byte>, at: nat, value: nat) {
    at + 2 <= |wire| && value == 0x100 * wire[at] as nat + wire[at + 1] as nat
  }

  predicate LongAt(wire: seq<Byte>, at: nat, value: nat) {
    && at + 4 <= |wire|
    && value == 0x100_0000 * wire[at] as nat + 0x1_0000 * wire[at + 1] as nat
                + 0x100 * wire[at + 2] as nat + wire[at + 3] as nat
  }

  lemma U16Bytes(value: U16)
    ensures ShortAt(EncodeU16(value), 0, value)
  {}

  lemma U32Bytes(value: U32)
    ensures LongAt(EncodeU32(value), 0, value)
  {
    U16Bytes(value / 0x1_0000);
    U16Bytes(value % 0x1_0000);
  }

  lemma LongIn(wire: seq<Byte>, part: seq<Byte>, at: nat, value: nat)
    requires at + 4 <= |wire| && wire[at..at + 4] == part && LongAt(part, 0, value)
    ensures LongAt(wire, at, value)
  {
    assert forall j | 0 <= j < 4 :: part[j] == wire[at + j];
  }

  lemma ShortIn(wire: seq<Byte>, part: seq<Byte>, at: nat, value: nat)
    requires at + 2 <= |wire| && wire[at..at + 2] == part && ShortAt(part, 0, value)
    ensures ShortAt(wire, at, value)
  {
    assert forall j | 0 <= j < 2 :: part[j] == wire[at + j];
  }

  /** A request encodes unless its name holds a zero: three words, the name, a zero. */
  lemma RequestLayout(r: Request)
    ensures EncodeRequest(r).Some? <==> 0 !in r.hostname
    ensures EncodeRequest(r).Some? ==>
              var wire, end := EncodeRequest(r).value, 12 + |r.hostname|;
              && |wire| == end + 1
              && LongAt(wire, 0, r.flags) && LongAt(wire, 4, r.interfaceIndex) && LongAt(wire, 8, r.protocols)
              && wire[12..end] == r.hostname && wire[end] == 0
  {
    if 0 !in r.hostname {
      hide EncodeU32, LongAt;
      var wire := EncodeRequest(r).value;
      U32Bytes(r.flags);
      U32Bytes(r.interfaceIndex);
      U32Bytes(r.protocols);
      LongIn(wire, EncodeU32(r.flags), 0, r.flags);
      LongIn(wire, EncodeU32(r.interfaceIndex), 4, r.interfaceIndex);
      LongIn(wire, EncodeU32(r.protocols), 8, r.protocols);
    }
  }

  /**
   A reply encodes unless its name holds a zero or its address is too long: flags,
   interface and error code, the name, a zero, record type, address size, address,
   time to live.
   */
  lemma ReplyLayout(r: Reply)
    ensures EncodeReply(r).Some? <==> 0 !in r.hostname && |r.address| <= 0xffff
    ensures EncodeReply(r).Some? ==>
              var wire, end := EncodeReply(r).value, 12 + |r.hostname|;
              && |wire| == end + 9 + |r.address|
              && LongAt(wire, 0, r.prefix.flags) && LongAt(wire, 4, r.prefix.interfaceIndex)
              && LongAt(wire, 8, r.prefix.error % 0x1_0000_0000)
              && wire[12..end] == r.hostname && wire[end] == 0
              && ShortAt(wire, end + 1, r.recordType) && ShortAt(wire, end + 3, |r.address|)
              && wire[end + 5..end + 5 + |r.address|] == r.address && LongAt(wire, end + 5 + |r.address|, r.ttl)
  {
    if 0 !in r.hostname && |r.address| <= 0xffff {
      hide EncodeU32, EncodeU16, LongAt, ShortAt, EncodePrefix;
      var wire, end := EncodeReply(r).value, 12 + |r.hostname|;
      PrefixBytes(r.prefix);
      U16Bytes(r.recordType);
      U16Bytes(|r.address|);
      U32Bytes(r.ttl);
      Cuts(wire, EncodePrefix(r.prefix), r.hostname, EncodeU16(r.recordType), EncodeU16(|r.address|), r.address,
                  EncodeU32(r.ttl));
      PrefixIn(wire, EncodePrefix(r.prefix), r.prefix);
      ShortIn(wire, EncodeU16(r.recordType), end + 1, r.recordType);
      ShortIn(wire, EncodeU16(|r.address|), end + 3, |r.address|);
      LongIn(wire, EncodeU32(r.ttl), end + 5 + |r.address|, r.ttl);
    }
  }

  lemma PrefixBytes(p: ReplyPrefix)
    ensures var wire := EncodePrefix(p);
            && |wire| == 12 && LongAt(wire, 0, p.flags) && LongAt(wire, 4, p.interfaceIndex)
            && LongAt(wire, 8, p.error % 0x1_0000_0000)
  {
    hide EncodeU32, LongAt;
    var wire := EncodePrefix(p);
    U32Bytes(p.flags);
    U32Bytes(p.interfaceIndex);
    U32Bytes(AsUnsigned(p.error));
    LongIn(wire, EncodeU32(p.flags), 0, p.flags);
    LongIn(wire, EncodeU32(p.interfaceIndex), 4, p.interfaceIndex);
    LongIn(wire, EncodeU32(AsUnsigned(p.error)), 8, AsUnsigned(p.error));
  }

  lemma PrefixIn(wire: seq<Byte>, prefix: seq<Byte>, p: ReplyPrefix)
    requires |prefix| == 12 <= |wire| && wire[..12] == prefix
    requires LongAt(prefix, 0, p.flags) && LongAt(prefix, 4, p.interfaceIndex)
             && LongAt(prefix, 8, p.error % 0x1_0000_0000)
    ensures LongAt(wire, 0, p.flags) && LongAt(wire, 4, p.interfaceIndex) && LongAt(wire, 8, p.error % 0x1_0000_0000)
  {
    assert forall j | 0 <= j < 12 :: prefix[j] == wire[j];
  }

  // ---------- The appending encoders ----------

  method EncodeRequestWire(r: Request) returns (wire: Option<seq<Byte>>)
    ensures wire == EncodeRequest(r)
  {
    if 0 in r.hostname {
      return None;
    }
    var output := EncodeU32(r.flags);
    output := output + EncodeU32(r.interfaceIndex);
    output := output + EncodeU32(r.protocols);
    ghost var fixed := output;
    for i := 0 to |r.hostname|
      invariant output == fixed + r.hostname[..i]
    {
      output := output + [r.hostname[i]];
    }
    assert r.hostname[..|r.hostname|] == r.hostname;
    return Some(output + [0]);
  }

  method EncodeReplyWire(r: Reply) returns (wire: Option<seq<Byte>>)
    ensures wire == EncodeReply(r)
  {
    if 0 in r.hostname || |r.address| > 0xffff {
      return None;
    }
    hide EncodePrefix, EncodeU16, EncodeU32;
    var output := EncodePrefix(r.prefix);
    for i := 0 to |r.hostname|
      invariant output == EncodePrefix(r.prefix) + r.hostname[..i]
    {
      output := output + [r.hostname[i]];
    }
    assert r.hostname[..|r.hostname|] == r.hostname;
    output := output + [0];
    output := output + EncodeU16(r.recordType);
    output := output + EncodeU16(|r.address|);
    output := output + r.address;
    output := output + EncodeU32(r.ttl);
    return Some(output);
  }
}
