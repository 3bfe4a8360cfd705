/** GdbRemoteServer: the reading, sending and polling loops, proved against the framing of GdbFraming.dfy. */
module GdbServer {
  import opened Wrappers
  import opened GdbFraming

  const POLL_CHUNK: nat := 256

  /** What one round of reading comes to. */
  datatype Round =
    | Ends(packet: Option<seq<Byte>>, rest: seq<Byte>, sent: seq<Byte>)
    | GoesOn(rest: seq<Byte>, sent: seq<Byte>)

  function RoundOf(input: seq<Byte>, noAck: bool): Round {
    if input == [] then Ends(None, [], [])
    else if input[0] == INTERRUPT then Ends(Some([QUERY]), input[1..], [])
    else if input[0] != DOLLAR then GoesOn(input[1..], [])
    else
      var body := input[1..];
      var n := HashAt(body);
      if n + 2 >= |body| then Ends(None, [], [])
      else if ChecksumMatches(body[..n], body[n + 1], body[n + 2]) then
        Ends(Some(body[..n]), body[n + 3..], Ack(noAck, PLUS))
      else GoesOn(body[n + 3..], Ack(noAck, MINUS))
  }

  lemma ReadByRounds(input: seq<Byte>, noAck: bool)
    ensures Read(input, noAck)
            == match RoundOf(input, noAck)
               case Ends(packet, rest, sent) => Outcome(packet, rest, sent)
               case GoesOn(rest, sent) => Read(rest, noAck).(sent := sent + Read(rest, noAck).sent)
    ensures RoundOf(input, noAck).GoesOn? ==> |RoundOf(input, noAck).rest| < |input|
  {
    hide Frame;
    if input != [] && input[0] != INTERRUPT && input[0] != DOLLAR {
      assert [] + Read(input[1..], noAck).sent == Read(input[1..], noAck).sent;
    }
  }

  class GdbRemoteServer {
    var connected: bool
    var noAck: bool
    var bufferedInput: seq<Byte>
    /** The client's side of the socket: what it will still send before it closes, and what it was sent. */
    var incoming: seq<Byte>
    var outgoing: seq<Byte>

    function Input(): seq<Byte>
      reads this
    {
      bufferedInput + incoming
    }

    constructor (incoming: seq<Byte>)
      ensures connected && !noAck && Input() == incoming && outgoing == []
    {
      connected, noAck, bufferedInput, this.incoming, outgoing := true, false, [], incoming, [];
    }

    method SendAll(bytes: seq<Byte>)
      modifies this`outgoing
      ensures outgoing == old(outgoing) + bytes
    {
      outgoing := outgoing + bytes;
    }

    /** A blocking read: buffered bytes first; none once the client has closed. */
    method ReadByte() returns (value: Option<Byte>)
      modifies this`bufferedInput, this`incoming
      ensures old(Input()) == [] ==> value.None? && Input() == []
      ensures old(Input()) != [] ==> value == Some(old(Input())[0]) && Input() == old(Input())[1..]
    {
      if bufferedInput != [] {
        value := Some(bufferedInput[0]);
        bufferedInput := bufferedInput[1..];
      } else if incoming != [] {
        value := Some(incoming[0]);
        incoming := incoming[1..];
      } else {
        value := None;
      }
    }

    /** The bytes up to the next '#', which is dropped, and their checksum; nothing if the client closes first. */
    method ReadPayload() returns (payload: Option<seq<Byte>>, checksum: Byte)
      modifies this`bufferedInput, this`incoming
      ensures var n := HashAt(old(Input()));
              if n < |old(Input())| then
                && payload == Some(old(Input())[..n]) && checksum == ByteSum(old(Input())[..n]) % 256
                && Input() == old(Input())[n + 1..]
              else payload.None? && Input() == []
    {
      hide ByteSum;
      ghost var all := Input();
      var read: seq<Byte> := [];
      checksum := 0;
      while true
        invariant |read| <= |all| && all[..|read|] == read && all[|read|..] == Input()
        invariant HASH !in read && checksum == Checksum(read)
        decreases |Input()|
      {
        var value := ReadByte();
        if value.None? {
          assert all == read;
          return None, checksum;
        }
        if value.value == HASH {
          HashAtUnique(all, |read|);
          ChecksumIsSum(read);
          return Some(read), checksum;
        }
        ChecksumOneMore(read, value.value);
        read := read + [value.value];
        checksum := (checksum + value.value) % 256;
      }
    }

    /** The two check digits, and the answer to them; nothing if the client closes first. */
    method ReadTrailer(payload: seq<Byte>, checksum: Byte) returns (good: Option<bool>)
      requires checksum == ByteSum(payload) % 256
      modifies this`bufferedInput, this`incoming, this`outgoing
      ensures var input := old(Input());
              if |input| < 2 then good.None? && Input() == [] && outgoing == old(outgoing)
              else
                && good == Some(ChecksumMatches(payload, input[0], input[1])) && Input() == input[2..]
                && outgoing == old(outgoing) + Ack(noAck, if good.value then PLUS else MINUS)
    {
      hide Checksum;
      ChecksumIsSum(payload);
      ghost var input := Input();
      var highCharacter := ReadByte();
      var lowCharacter := ReadByte();
      if highCharacter.None? || lowCharacter.None? {
        return None;
      }
      assert highCharacter.value == input[0] && lowCharacter.value == input[1] && Input() == input[2..];
      var high := DecodeHexDigit(highCharacter.value);
      var low := DecodeHexDigit(lowCharacter.value);
      if high.None? || low.None? || checksum != high.value * 16 + low.value {
        if !noAck {
          SendAll([MINUS]);
        }
        return Some(false);
      }
      if !noAck {
        SendAll([PLUS]);
      }
      return Some(true);
    }

    /** One round of read_packet's loop: an ending, or bytes used up and perhaps a refusal sent. */
    method ReadRound() returns (ended: bool, packet: Option<seq<Byte>>)
      modifies this`bufferedInput, this`incoming, this`outgoing
      ensures var round := RoundOf(old(Input()), noAck);
              && ended == round.Ends? && (ended ==> packet == round.packet)
              && Input() == round.rest && outgoing == old(outgoing) + round.sent
    {
      hide Frame, Read, ChecksumMatches, Checksum, HashAt;
      var start := ReadByte();
      if start.None? {
        return true, None;
      }
      if start.value == PLUS || start.value == MINUS {
        return false, None;
      }
      if start.value == INTERRUPT {
        return true, Some([QUERY]);
      }
      if start.value != DOLLAR {
        return false, None;
      }
      var payload, checksum := ReadPayload();
      if payload.None? {
        return true, None;
      }
      var good := ReadTrailer(payload.value, checksum);
      return good.None? || good.value, if good == Some(true) then payload else None;
    }

    method ReadPacket() returns (packet: Option<seq<Byte>>)
      modifies this`bufferedInput, this`incoming, this`outgoing
      ensures !connected ==> packet.None? && Input() == old(Input()) && outgoing == old(outgoing)
      ensures connected ==>
                var outcome := Read(old(Input()), noAck);
                && packet == outcome.packet && Input() == outcome.rest
                && outgoing == old(outgoing) + outcome.sent
    {
      hide Read, RoundOf;
      if !connected {
        return None;
      }
      ghost var outcome := Read(Input(), noAck);
      ghost var sent: seq<Byte> := [];
      while true
        invariant outgoing == old(outgoing) + sent
        invariant outcome == Read(Input(), noAck).(sent := sent + Read(Input(), noAck).sent)
        decreases |Input()|
      {
        ReadByRounds(Input(), noAck);
        sent := sent + RoundOf(Input(), noAck).sent;
        var ended, found := ReadRound();
        if ended {
          return found;
        }
      }
    }

    method SendPacket(payload: seq<Byte>)
      modifies this`outgoing
      ensures outgoing == old(outgoing) + Frame(payload)
      ensures var sum := ByteSum(payload) % 256;
              outgoing == old(outgoing) + (['$' as nat] + payload
                                           + ['#' as nat, DIGITS[sum / 16] as nat, DIGITS[sum % 16] as nat])
    {
      hide ByteSum;
      var checksum: Byte := 0;
      for i := 0 to |payload|
        invariant checksum == Checksum(payload[..i])
      {
        assert payload[..i + 1][..i] == payload[..i];
        checksum := (checksum + payload[i]) % 256;
      }
      assert payload[..|payload|] == payload;
      var packet := [DOLLAR] + payload + [HASH];
      packet := packet + [HexDigit(checksum / 16)];
      packet := packet + [HexDigit(checksum)];
      assert packet == Frame(payload);
      FrameExactly(payload);
      SendAll(packet);
    }

    /** Keeps what a chunk holds besides interrupts. */
    method Keep(buffer: seq<Byte>) returns (interrupted: bool)
      modifies this`bufferedInput
      ensures interrupted <==> INTERRUPT in buffer
      ensures bufferedInput == old(bufferedInput) + Kept(buffer)
    {
      interrupted := false;
      for index := 0 to |buffer|
        invariant interrupted <==> INTERRUPT in buffer[..index]
        invariant bufferedInput == old(bufferedInput) + Kept(buffer[..index])
      {
        hide Kept;
        assert buffer[..index + 1] == buffer[..index] + [buffer[index]];
        KeptOneMore(buffer[..index], buffer[index]);
        if buffer[index] == INTERRUPT {
          interrupted := true;
        } else {
          bufferedInput := bufferedInput + [buffer[index]];
        }
      }
      assert buffer[..|buffer|] == buffer;
    }

    /** Drains the bytes that have arrived, in chunks, looking for an interrupt. */
    method PollInterrupt(arrived: nat) returns (interrupted: bool)
      requires arrived <= |incoming|
      modifies this`bufferedInput, this`incoming
      ensures !connected ==> !interrupted && Input() == old(Input())
      ensures connected ==>
                var taken := old(incoming)[..arrived];
                && (interrupted <==> INTERRUPT in taken)
                && bufferedInput == old(bufferedInput) + Kept(taken)
                && incoming == old(incoming)[arrived..]
    {
      hide Kept;
      KeptNothing();
      interrupted := false;
      if !connected {
        return;
      }
      ghost var all := incoming;
      var done := 0;
      while done < arrived
        invariant done <= arrived && incoming == all[done..]
        invariant interrupted <==> INTERRUPT in all[..done]
        invariant bufferedInput == old(bufferedInput) + Kept(all[..done])
      {
        var count := if arrived - done < POLL_CHUNK then arrived - done else POLL_CHUNK;
        OneMoreChunk(all, done, count);
        var found := Keep(incoming[..count]);
        interrupted := interrupted || found;
        incoming := incoming[count..];
        done := done + count;
      }
    }
  }

  /** Draining another chunk keeps what is left of it. */
  lemma OneMoreChunk(all: seq<Byte>, done: nat, count: nat)
    requires done + count <= |all|
    ensures Kept(all[..done + count]) == Kept(all[..done]) + Kept(all[done..][..count])
    ensures INTERRUPT in all[..done + count] <==> INTERRUPT in all[..done] || INTERRUPT in all[done..][..count]
    ensures all[done..][count..] == all[done + count..]
  {
    assert all[..done + count] == all[..done] + all[done..][..count];
    KeptAppend(all[..done], all[done..][..count]);
  }

  lemma {:induction false} EncodeOneMore(bytes: seq<Byte>, last: Byte)
    ensures EncodeBytes(bytes + [last]) == EncodeBytes(bytes) + EncodeByte(last)
  {
    hide EncodeByte;
    if bytes == [] {
      assert [] + [last] == [last];
      assert EncodeBytes([last]) == EncodeByte(last) + [];
    } else {
      EncodeOneMore(bytes[1..], last);
      assert (bytes + [last])[1..] == bytes[1..] + [last];
    }
  }

  lemma DecodeUnfolds(text: seq<Byte>)
    requires |text| >= 2
    ensures DecodeBytes(text)
            == if DecodePair(text[0], text[1]).None? || DecodeBytes(text[2..]).None? then None
               else Some([DecodePair(text[0], text[1]).value] + DecodeBytes(text[2..]).value)
  {}

  lemma {:induction false} DecodeOneMore(text: seq<Byte>, high: Byte, low: Byte)
    requires DecodeBytes(text).Some?
    ensures DecodeBytes(text + [high, low])
            == if DecodePair(high, low).None? then None
               else Some(DecodeBytes(text).value + [DecodePair(high, low).value])
    decreases |text|
  {
    hide DecodePair;
    var longer := text + [high, low];
    if text == [] {
      DecodeUnfolds(longer);
      assert longer[2..] == [];
      if DecodePair(high, low).Some? {
        assert [DecodePair(high, low).value] + [] == [] + [DecodePair(high, low).value];
      }
    } else {
      DecodeOneMore(text[2..], high, low);
      assert longer[2..] == text[2..] + [high, low];
      assert longer[0] == text[0] && longer[1] == text[1];
      DecodeUnfolds(longer);
      DecodeUnfolds(text);
      var first, rest := DecodePair(text[0], text[1]).value, DecodeBytes(text[2..]).value;
      if DecodePair(high, low).Some? {
        assert [first] + (rest + [DecodePair(high, low).value]) == [first] + rest + [DecodePair(high, low).value];
      }
    }
  }

  /** encode_bytes. */
  method EncodeText(bytes: seq<Byte>) returns (text: seq<Byte>)
    ensures text == EncodeBytes(bytes)
  {
    text := [];
    for i := 0 to |bytes|
      invariant text == EncodeBytes(bytes[..i])
    {
      hide EncodeBytes;
      EncodeOneMore(bytes[..i], bytes[i]);
      assert bytes[..i + 1] == bytes[..i] + [bytes[i]];
      text := text + [HexDigit(bytes[i] / 16)];
      text := text + [HexDigit(bytes[i])];
    }
    assert bytes[..|bytes|] == bytes;
  }

  lemma DecodeTwoMore(text: seq<Byte>, index: nat)
    requires index + 1 < |text| && DecodeBytes(text[..index]).Some?
    ensures DecodeBytes(text[..index + 2])
            == if DecodePair(text[index], text[index + 1]).None? then None
               else Some(DecodeBytes(text[..index]).value + [DecodePair(text[index], text[index + 1]).value])
  {
    hide DecodeBytes, DecodePair;
    DecodeOneMore(text[..index], text[index], text[index + 1]);
    assert text[..index + 2] == text[..index] + [text[index], text[index + 1]];
  }

  /** decode_bytes. */
  method DecodeText(text: seq<Byte>) returns (bytes: Option<seq<Byte>>)
    ensures bytes == DecodeBytes(text)
  {
    DecodesExactlyHex(text);
    if |text| % 2 != 0 {
      return None;
    }
    var result: seq<Byte> := [];
    var index := 0;
    while index < |text|
      invariant index <= |text| && (|text| - index) % 2 == 0
      invariant DecodeBytes(text[..index]) == Some(result)
    {
      hide DecodeBytes, DecodeHexDigit, IsHex;
      DecodeTwoMore(text, index);
      var high := DecodeHexDigit(text[index]);
      var low := DecodeHexDigit(text[index + 1]);
      if high.None? || low.None? {
        return None;
      }
      result := result + [high.value * 16 + low.value];
      index := index + 2;
    }
    assert text[..index] == text;
    return Some(result);
  }
}
