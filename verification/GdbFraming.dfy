/**
 The framing of the GDB Remote Serial Protocol: '$', payload, '#', two digits
 of checksum; what a reader makes of any stream of bytes.
 */
module GdbFraming {
  import opened Wrappers

  type Byte = n: nat | n < 0x100

  const DOLLAR: Byte := '$' as nat
  const HASH: Byte := '#' as nat
  const PLUS: Byte := '+' as nat
  const MINUS: Byte := '-' as nat
  const QUERY: Byte := '?' as nat
  const INTERRUPT: Byte := 3

  // ---------- Hexadecimal ----------

  function HexDigit(value: nat): Byte {
    var digit := value % 16;
    if digit < 10 then digit + ('0' as nat) else digit - 10 + ('a' as nat)
  }

  function DecodeHexDigit(value: Byte): (digit: Option<nat>)
    ensures digit.Some? ==> digit.value < 16
  {
    if '0' as nat <= value <= '9' as nat then Some(value - ('0' as nat))
    else if 'a' as nat <= value <= 'f' as nat then Some(value - ('a' as nat) + 10)
    else if 'A' as nat <= value <= 'F' as nat then Some(value - ('A' as nat) + 10)
    else None
  }

  lemma DigitRoundTrip(value: nat)
    ensures DecodeHexDigit(HexDigit(value)) == Some(value % 16)
  {}

  function EncodeByte(value: Byte): seq<Byte> {
    [HexDigit(value / 16), HexDigit(value)]
  }

  function DecodePair(high: Byte, low: Byte): Option<Byte> {
    match (DecodeHexDigit(high), DecodeHexDigit(low))
    case (Some(h), Some(l)) => Some(h * 16 + l)
    case _ => None
  }

  lemma PairRoundTrip(value: Byte)
    ensures DecodePair(HexDigit(value / 16), HexDigit(value)) == Some(value)
  {
    DigitRoundTrip(value / 16);
    DigitRoundTrip(value);
  }

  function EncodeBytes(bytes: seq<Byte>): (text: seq<Byte>)
    ensures |text| == 2 * |bytes|
  {
    if bytes == [] then [] else EncodeByte(bytes[0]) + EncodeBytes(bytes[1..])
  }

  function DecodeBytes(text: seq<Byte>): Option<seq<Byte>> {
    if text == [] then Some([])
    else if |text| == 1 then None
    else
      match (DecodePair(text[0], text[1]), DecodeBytes(text[2..]))
      case (Some(byte), Some(rest)) => Some([byte] + rest)
      case _ => None
  }

  /** Memory and register contents survive the trip through hexadecimal. */
  lemma {:induction false} BytesRoundTrip(bytes: seq<Byte>)
    ensures DecodeBytes(EncodeBytes(bytes)) == Some(bytes)
  {
    if bytes != [] {
      PairRoundTrip(bytes[0]);
      BytesRoundTrip(bytes[1..]);
      var text := EncodeBytes(bytes);
      assert text[0] == HexDigit(bytes[0] / 16) && text[1] == HexDigit(bytes[0]);
      assert text[2..] == EncodeBytes(bytes[1..]);
      assert [bytes[0]] + bytes[1..] == bytes;
    }
  }

  predicate IsHex(text: seq<Byte>) {
    forall i | 0 <= i < |text| :: DecodeHexDigit(text[i]).Some?
  }

  /** Decoding accepts exactly the even-length texts of hexadecimal digits, upper case too. */
  lemma {:induction false} DecodesExactlyHex(text: seq<Byte>)
    ensures DecodeBytes(text).Some? <==> |text| % 2 == 0 && IsHex(text)
    ensures DecodeBytes(text).Some? ==> |text| == 2 * |DecodeBytes(text).value|
    decreases |text|
  {
    if |text| >= 2 {
      DecodesExactlyHex(text[2..]);
      assert forall i | 0 <= i < |text[2..]| :: text[2..][i] == text[i + 2];
      if |text| % 2 == 0 && IsHex(text[2..]) && DecodePair(text[0], text[1]).Some? {
        forall i | 0 <= i < |text|
          ensures DecodeHexDigit(text[i]).Some?
        {
          if i >= 2 {
            assert text[i] == text[2..][i - 2];
          }
        }
      }
    }
  }

  // ---------- Frames ----------

  function Checksum(payload: seq<Byte>): Byte {
    if payload == [] then 0 else (Checksum(payload[..|payload| - 1]) + payload[|payload| - 1]) % 256
  }

  function Frame(payload: seq<Byte>): seq<Byte> {
    [DOLLAR] + payload + [HASH] + EncodeByte(Checksum(payload))
  }

  /** How many bytes come before the first '#'. */
  function HashAt(input: seq<Byte>): (n: nat)
    ensures n <= |input| && HASH !in input[..n] && (n < |input| ==> input[n] == HASH)
  {
    if input == [] || input[0] == HASH then 0
    else
      var n := HashAt(input[1..]);
      assert input[..n + 1] == [input[0]] + input[1..][..n];
      n + 1
  }

  lemma {:induction false} HashAtUnique(input: seq<Byte>, n: nat)
    requires n < |input| && HASH !in input[..n] && input[n] == HASH
    ensures HashAt(input) == n
  {
    if n > 0 {
      assert input[..n][0] == input[0];
      assert input[1..][..n - 1] == input[..n][1..];
      HashAtUnique(input[1..], n - 1);
    }
  }

  lemma NoHashToFind(input: seq<Byte>)
    requires HASH !in input
    ensures HashAt(input) == |input|
  {
    if HashAt(input) < |input| {
      assert false;
    }
  }

  predicate ChecksumMatches(payload: seq<Byte>, high: Byte, low: Byte) {
    DecodePair(high, low) == Some(Checksum(payload))
  }

  /** What reading leaves: the packet if one came, the unread rest, and the acknowledgements sent. */
  datatype Outcome = Outcome(packet: Option<seq<Byte>>, rest: seq<Byte>, sent: seq<Byte>)

  function Ack(noAck: bool, byte: Byte): seq<Byte> {
    if noAck then [] else [byte]
  }

  /** What read_packet does with the bytes still to come; the end of the bytes is a disconnect. */
  function Read(input: seq<Byte>, noAck: bool): Outcome
    decreases |input|
  {
    if input == [] then Outcome(None, [], [])
    else if input[0] == INTERRUPT then Outcome(Some([QUERY]), input[1..], [])
    else if input[0] != DOLLAR then Read(input[1..], noAck)
    else
      var body := input[1..];
      var n := HashAt(body);
      if n + 2 >= |body| then Outcome(None, [], [])
      else if ChecksumMatches(body[..n], body[n + 1], body[n + 2]) then
        Outcome(Some(body[..n]), body[n + 3..], Ack(noAck, PLUS))
      else
        var later := Read(body[n + 3..], noAck);
        later.(sent := Ack(noAck, MINUS) + later.sent)
  }

  // ---------- What goes over the wire ----------

  const DIGITS := "0123456789abcdef"
  const CAPITALS := "0123456789ABCDEF"

  /** Two characters stand for a number in hexadecimal, in either case. */
  predicate Spells(high: Byte, low: Byte, number: nat) {
    && number < 256
    && high in [DIGITS[number / 16] as nat, CAPITALS[number / 16] as nat]
    && low in [DIGITS[number % 16] as nat, CAPITALS[number % 16] as nat]
  }

  function ByteSum(bytes: seq<Byte>): nat {
    if bytes == [] then 0 else bytes[0] + ByteSum(bytes[1..])
  }

  lemma {:induction false} ByteSumOneMore(bytes: seq<Byte>, last: Byte)
    ensures ByteSum(bytes + [last]) == ByteSum(bytes) + last
  {
    if bytes == [] {
      assert [] + [last] == [last];
    } else {
      ByteSumOneMore(bytes[1..], last);
      assert (bytes + [last])[1..] == bytes[1..] + [last];
    }
  }

  lemma NothingToSum()
    ensures ByteSum([]) == 0
  {}

  /** The running checksum is the sum of all bytes, reduced once at the end. */
  lemma {:induction false} ChecksumIsSum(payload: seq<Byte>)
    ensures Checksum(payload) == ByteSum(payload) % 256
  {
    hide ByteSum;
    if payload == [] {
      NothingToSum();
    } else {
      var front, last := payload[..|payload| - 1], payload[|payload| - 1];
      ChecksumIsSum(front);
      ByteSumOneMore(front, last);
      assert payload == front + [last];
    }
  }

  lemma HexDigitIs(value: nat)
    ensures HexDigit(value) == DIGITS[value % 16] as nat
  {}

  lemma DecodesWhatIsSpelt(high: Byte, low: Byte, number: Byte)
    ensures DecodePair(high, low) == Some(number) <==> Spells(high, low, number)
  {
    DecodesDigit(high);
    DecodesDigit(low);
    if DecodePair(high, low) == Some(number) {
      var h, l := DecodeHexDigit(high).value, DecodeHexDigit(low).value;
      assert number / 16 == h && number % 16 == l;
    }
  }

  lemma DecodesDigit(character: Byte)
    ensures forall digit: nat | digit < 16 ::
              DecodeHexDigit(character) == Some(digit)
              <==> character in [DIGITS[digit] as nat, CAPITALS[digit] as nat]
  {}

  /** A sent packet: '$', the payload, '#', and the sum of the payload's bytes modulo 256 in two small digits. */
  lemma FrameExactly(payload: seq<Byte>)
    ensures var sum := ByteSum(payload) % 256;
            Frame(payload) == ['$' as nat] + payload + ['#' as nat, DIGITS[sum / 16] as nat, DIGITS[sum % 16] as nat]
  {
    hide Checksum, ByteSum, HexDigit;
    ChecksumIsSum(payload);
    HexDigitIs(Checksum(payload) / 16);
    HexDigitIs(Checksum(payload));
    assert DIGITS[Checksum(payload) / 16 % 16] == DIGITS[Checksum(payload) / 16];
  }

  lemma ChecksumOneMore(payload: seq<Byte>, last: Byte)
    ensures Checksum(payload + [last]) == (Checksum(payload) + last) % 256
  {
    assert (payload + [last])[..|payload|] == payload;
  }

  /**
   A complete frame without another '#' in it is accepted, and answered with
   '+', exactly when its digits spell that sum; else it is answered with '-'
   and reading goes on behind it.
   */
  lemma CompleteFrameReadsExactly(payload: seq<Byte>, high: Byte, low: Byte, rest: seq<Byte>, noAck: bool)
    requires '#' as nat !in payload
    ensures var outcome := Read(['$' as nat] + payload + ['#' as nat, high, low] + rest, noAck);
            var later := Read(rest, noAck);
            if Spells(high, low, ByteSum(payload) % 256)
            then outcome == Outcome(Some(payload), rest, if noAck then [] else ['+' as nat])
            else outcome == later.(sent := (if noAck then [] else ['-' as nat]) + later.sent)
  {
    hide Read, Checksum;
    ChecksumIsSum(payload);
    DecodesWhatIsSpelt(high, low, Checksum(payload));
    FramedReads(payload, high, low, rest, noAck);
  }

  /** An interrupt byte between packets is read as the packet "?"; bytes that begin nothing are passed over. */
  lemma OutsideFrames(first: Byte, rest: seq<Byte>, noAck: bool)
    ensures first == 3 ==> Read([first] + rest, noAck) == Outcome(Some(['?' as nat]), rest, [])
    ensures first != 3 && first != '$' as nat ==> Read([first] + rest, noAck) == Read(rest, noAck)
    ensures Read([], noAck) == Outcome(None, [], [])
  {
    assert ([first] + rest)[1..] == rest;
  }

  /** Until '#' and two more bytes have come, the end of the stream ends reading without a packet. */
  lemma IncompleteFrame(payload: seq<Byte>, tail: seq<Byte>, noAck: bool)
    requires '#' as nat !in payload && |tail| <= 2 && (tail == [] || tail[0] == '#' as nat)
    ensures Read(['$' as nat] + payload + tail, noAck) == Outcome(None, [], [])
  {
    var body := (['$' as nat] + payload + tail)[1..];
    assert body == payload + tail;
    if tail == [] {
      assert body == payload;
      NoHashToFind(body);
    } else {
      assert body[..|payload|] == payload;
      HashAtUnique(body, |payload|);
    }
  }

  /** Each byte is sent as its two small digits, high half first. */
  lemma {:induction false} EncodedDigits(bytes: seq<Byte>, i: nat)
    requires i < |bytes|
    ensures EncodeBytes(bytes)[2 * i] == DIGITS[bytes[i] / 16] as nat
    ensures EncodeBytes(bytes)[2 * i + 1] == DIGITS[bytes[i] % 16] as nat
  {
    hide EncodeBytes;
    EncodedFirst(bytes);
    if i > 0 {
      EncodedDigits(bytes[1..], i - 1);
      ShiftedByTwo([DIGITS[bytes[0] / 16] as nat, DIGITS[bytes[0] % 16] as nat], EncodeBytes(bytes[1..]), 2 * (i - 1));
      ShiftedByTwo([DIGITS[bytes[0] / 16] as nat, DIGITS[bytes[0] % 16] as nat], EncodeBytes(bytes[1..]), 2 * i - 1);
    }
  }

  lemma EncodedFirst(bytes: seq<Byte>)
    requires bytes != []
    ensures EncodeBytes(bytes)
            == [DIGITS[bytes[0] / 16] as nat, DIGITS[bytes[0] % 16] as nat] + EncodeBytes(bytes[1..])
  {
    hide EncodeByte;
    EncodedByte(bytes[0]);
  }

  lemma EncodedByte(value: Byte)
    ensures EncodeByte(value) == [DIGITS[value / 16] as nat, DIGITS[value % 16] as nat]
  {
    hide HexDigit;
    HexDigitIs(value / 16);
    HexDigitIs(value);
  }

  lemma ShiftedByTwo(front: seq<Byte>, rest: seq<Byte>, i: nat)
    requires |front| == 2 && i < |rest|
    ensures (front + rest)[i + 2] == rest[i]
  {}

  /** What is decoded is what the digits spell, pair by pair. */
  lemma {:induction false} DecodedSpelling(text: seq<Byte>, i: nat)
    requires DecodeBytes(text).Some? && i < |DecodeBytes(text).value|
    ensures 2 * i + 1 < |text| && Spells(text[2 * i], text[2 * i + 1], DecodeBytes(text).value[i])
    decreases |text|
  {
    var first := DecodePair(text[0], text[1]).value;
    DecodesWhatIsSpelt(text[0], text[1], first);
    hide DecodePair, Spells;
    if i > 0 {
      DecodedSpelling(text[2..], i - 1);
      assert text[2..][2 * (i - 1)] == text[2 * i] && text[2..][2 * (i - 1) + 1] == text[2 * i + 1];
    }
  }

  // ---------- Reading inverts sending ----------

  predicate Noise(bytes: seq<Byte>) {
    DOLLAR !in bytes && INTERRUPT !in bytes
  }

  lemma {:induction false} NoiseIsSkipped(noise: seq<Byte>, input: seq<Byte>, noAck: bool)
    requires Noise(noise)
    ensures Read(noise + input, noAck) == Read(input, noAck)
  {
    if noise == [] {
      assert noise + input == input;
    } else {
      assert (noise + input)[0] == noise[0] && noise[0] in noise;
      assert (noise + input)[1..] == noise[1..] + input;
      NoiseIsSkipped(noise[1..], input, noAck);
    }
  }

  /** A complete frame, whatever its check digits. */
  function Framed(payload: seq<Byte>, high: Byte, low: Byte): seq<Byte> {
    [DOLLAR] + payload + [HASH, high, low]
  }

  lemma FramedReads(payload: seq<Byte>, high: Byte, low: Byte, rest: seq<Byte>, noAck: bool)
    requires HASH !in payload
    ensures Read(Framed(payload, high, low) + rest, noAck)
            == if ChecksumMatches(payload, high, low) then Outcome(Some(payload), rest, Ack(noAck, PLUS))
               else var later := Read(rest, noAck); later.(sent := Ack(noAck, MINUS) + later.sent)
  {
    var input := Framed(payload, high, low) + rest;
    var body, n := input[1..], |payload|;
    assert body == payload + [HASH, high, low] + rest;
    assert body[..n] == payload;
    HashAtUnique(body, n);
    assert body[n + 3..] == rest;
  }

  lemma FrameIsFramed(payload: seq<Byte>)
    ensures var check := EncodeByte(Checksum(payload)); Frame(payload) == Framed(payload, check[0], check[1])
    ensures var check := EncodeByte(Checksum(payload)); ChecksumMatches(payload, check[0], check[1])
  {
    PairRoundTrip(Checksum(payload));
  }

  /** Bytes that are no frame, then a complete frame with a wrong checksum or no hexadecimal one. */
  datatype Garbled = Garbled(noise: seq<Byte>, payload: seq<Byte>, high: Byte, low: Byte) {
    predicate Valid() {
      Noise(noise) && HASH !in payload && !ChecksumMatches(payload, high, low)
    }

    function Bytes(): seq<Byte> {
      noise + Framed(payload, high, low)
    }
  }

  function AllBytes(garbled: seq<Garbled>): seq<Byte> {
    if garbled == [] then [] else garbled[0].Bytes() + AllBytes(garbled[1..])
  }

  function Refusals(noAck: bool, count: nat): seq<Byte> {
    if count == 0 then [] else Ack(noAck, MINUS) + Refusals(noAck, count - 1)
  }

  /**
   After any noise and any number of complete bad frames the next frame is read
   whole: its payload is returned, the rest of the stream is left, each bad
   frame was refused once and the good one acknowledged.
   */
  lemma {:induction false} NextFrameIsRead(
      garbled: seq<Garbled>, noise: seq<Byte>, payload: seq<Byte>, rest: seq<Byte>, noAck: bool)
    requires (forall i | 0 <= i < |garbled| :: garbled[i].Valid()) && Noise(noise) && HASH !in payload
    ensures Read(AllBytes(garbled) + noise + Frame(payload) + rest, noAck)
            == Outcome(Some(payload), rest, Refusals(noAck, |garbled|) + Ack(noAck, PLUS))
    decreases |garbled|
  {
    hide Read, Frame, Noise, ChecksumMatches, Framed, Ack;
    if garbled == [] {
      assert [] + noise + Frame(payload) + rest == noise + (Frame(payload) + rest);
      NoiseIsSkipped(noise, Frame(payload) + rest, noAck);
      var check := EncodeByte(Checksum(payload));
      FrameIsFramed(payload);
      FramedReads(payload, check[0], check[1], rest, noAck);
      assert [] + Ack(noAck, PLUS) == Ack(noAck, PLUS);
    } else {
      var first := garbled[0];
      var later := AllBytes(garbled[1..]) + noise + Frame(payload) + rest;
      assert AllBytes(garbled) + noise + Frame(payload) + rest
          == first.noise + (Framed(first.payload, first.high, first.low) + later);
      assert first.Valid();
      NoiseIsSkipped(first.noise, Framed(first.payload, first.high, first.low) + later, noAck);
      FramedReads(first.payload, first.high, first.low, later, noAck);
      NextFrameIsRead(garbled[1..], noise, payload, rest, noAck);
      assert Ack(noAck, MINUS) + (Refusals(noAck, |garbled| - 1) + Ack(noAck, PLUS))
          == Refusals(noAck, |garbled|) + Ack(noAck, PLUS);
    }
  }

  /** No packet ever contains '#'. */
  lemma {:induction false} PacketsHaveNoHash(input: seq<Byte>, noAck: bool)
    ensures var packet := Read(input, noAck).packet; packet.Some? ==> HASH !in packet.value
    decreases |input|
  {
    if input != [] && input[0] != INTERRUPT {
      if input[0] != DOLLAR {
        PacketsHaveNoHash(input[1..], noAck);
      } else {
        var body := input[1..];
        var n := HashAt(body);
        if n + 2 < |body| {
          PacketsHaveNoHash(body[n + 3..], noAck);
        }
      }
    }
  }

  /** A payload is read back from its frame exactly when it is free of '#'. */
  lemma ReadBackExactly(payload: seq<Byte>, rest: seq<Byte>, noAck: bool)
    ensures Read(Frame(payload) + rest, noAck).packet == Some(payload) <==> HASH !in payload
  {
    hide Read, Frame;
    PacketsHaveNoHash(Frame(payload) + rest, noAck);
    if HASH !in payload {
      NextFrameIsRead([], [], payload, rest, noAck);
      assert AllBytes([]) + [] + Frame(payload) + rest == Frame(payload) + rest;
    }
  }

  // ---------- The interrupt side channel ----------

  /** The bytes poll_interrupt keeps. */
  function Kept(bytes: seq<Byte>): seq<Byte> {
    if bytes == [] then [] else (if bytes[0] == INTERRUPT then [] else [bytes[0]]) + Kept(bytes[1..])
  }

  lemma {:induction false} KeptOneMore(bytes: seq<Byte>, last: Byte)
    ensures Kept(bytes + [last]) == Kept(bytes) + if last == INTERRUPT then [] else [last]
  {
    if bytes == [] {
      assert [] + [last] == [last];
    } else {
      KeptOneMore(bytes[1..], last);
      assert (bytes + [last])[1..] == bytes[1..] + [last];
    }
  }

  lemma KeptNothing()
    ensures Kept([]) == []
  {}

  lemma KeptHead(bytes: seq<Byte>)
    requires bytes != []
    ensures bytes[0] == INTERRUPT ==> Kept(bytes) == Kept(bytes[1..])
    ensures bytes[0] != INTERRUPT ==> Kept(bytes) == [bytes[0]] + Kept(bytes[1..])
  {}

  lemma {:induction false} KeptAppend(a: seq<Byte>, b: seq<Byte>)
    ensures Kept(a + b) == Kept(a) + Kept(b)
  {
    hide Kept;
    KeptNothing();
    if a == [] {
      assert a + b == b;
    } else {
      KeptAppend(a[1..], b);
      assert (a + b)[1..] == a[1..] + b;
      KeptHead(a);
      KeptHead(a + b);
    }
  }

  /** Only interrupts are removed, and all of them. */
  lemma {:induction false} KeptExactly(bytes: seq<Byte>)
    ensures INTERRUPT !in Kept(bytes)
    ensures Kept(bytes) == bytes <==> INTERRUPT !in bytes
    ensures |Kept(bytes)| <= |bytes|
  {
    if bytes != [] {
      KeptExactly(bytes[1..]);
      assert bytes == [bytes[0]] + bytes[1..];
      if bytes[0] != INTERRUPT {
        assert Kept(bytes)[1..] == Kept(bytes[1..]);
      }
    }
  }

  /** The bytes kept are the ones that came, without the byte 3. */
  lemma {:induction false} KeptCounts(bytes: seq<Byte>)
    ensures multiset(Kept(bytes)) == multiset(bytes)[3 := 0]
  {
    hide Kept;
    KeptNothing();
    if bytes != [] {
      KeptCounts(bytes[1..]);
      KeptHead(bytes);
      assert bytes == [bytes[0]] + bytes[1..];
    }
  }

  function Min(a: nat, b: nat): nat {
    if a <= b then a else b
  }

  /** a - b, or zero where that is less. */
  function Less(a: nat, b: nat): nat {
    if a <= b then 0 else a - b
  }

  /** What is left to read of a stream once a poll has drained its first n bytes. */
  function Polled(stream: seq<Byte>, n: nat): seq<Byte>
    requires n <= |stream|
  {
    Kept(stream[..n]) + stream[n..]
  }

  lemma PolledParts(a: seq<Byte>, b: seq<Byte>, n: nat)
    requires n <= |a + b|
    ensures Polled(a + b, n) == Polled(a, Min(n, |a|)) + Polled(b, Less(n, |a|))
  {
    hide Kept;
    KeptNothing();
    if n <= |a| {
      PolledBefore(a, b, n);
      assert Polled(b, 0) == b;
    } else {
      PolledBeyond(a, b, n - |a|);
      assert a[..|a|] == a && Polled(a, |a|) == Kept(a);
    }
  }

  lemma PolledBefore(a: seq<Byte>, b: seq<Byte>, n: nat)
    requires n <= |a|
    ensures Polled(a + b, n) == Polled(a, n) + b
  {
    hide Kept;
    assert (a + b)[..n] == a[..n] && (a + b)[n..] == a[n..] + b;
  }

  lemma PolledBeyond(a: seq<Byte>, b: seq<Byte>, n: nat)
    requires n <= |b|
    ensures Polled(a + b, |a| + n) == Kept(a) + Polled(b, n)
  {
    hide Kept, Polled;
    var front, back := b[..n], b[n..];
    assert b == front + back;
    Associate(a, front, back);
    PolledIs(b, front, back);
    PolledIs(a + b, a + front, back);
    KeptAppend(a, front);
    Associate(Kept(a), Kept(front), back);
  }

  lemma PolledIs(stream: seq<Byte>, front: seq<Byte>, back: seq<Byte>)
    requires stream == front + back
    ensures Polled(stream, |front|) == Kept(front) + back
  {
    hide Kept;
    assert stream[..|front|] == front && stream[|front|..] == back;
  }

  lemma Associate(a: seq<Byte>, b: seq<Byte>, c: seq<Byte>)
    ensures (a + b) + c == a + (b + c)
  {}

  /** Polling leaves a stretch of the stream alone exactly when the drained part of it holds no interrupt. */
  lemma PolledExactly(bytes: seq<Byte>, n: nat)
    requires n <= |bytes|
    ensures Polled(bytes, n) == bytes <==> INTERRUPT !in bytes[..n]
    ensures HASH !in bytes ==> HASH !in Polled(bytes, n)
  {
    KeptExactly(bytes[..n]);
    assert bytes == bytes[..n] + bytes[n..];
    if HASH !in bytes {
      KeptHasNoHash(bytes[..n]);
    }
    hide Kept;
    if Polled(bytes, n) == bytes {
      assert |Kept(bytes[..n])| == n;
      assert Kept(bytes[..n]) == Polled(bytes, n)[..n];
    }
  }

  /**
   However much of the stream a poll for interrupts has drained, the next frame
   is read whole exactly when the drained part of its payload holds no interrupt
   byte.
   */
  lemma PolledFrameReadsExactly(payload: seq<Byte>, rest: seq<Byte>, n: nat, noAck: bool)
    requires HASH !in payload && n <= |Frame(payload) + rest|
    ensures |Frame(payload)| == |payload| + 4
    ensures Read(Polled(Frame(payload) + rest, n), noAck)
            == Outcome(Some(payload), Polled(rest, Less(n, |payload| + 4)), Ack(noAck, PLUS))
            <==> INTERRUPT !in payload[..Min(|payload|, Less(n, 1))]
  {
    var check := EncodeByte(Checksum(payload));
    var drained, left := Polled(payload, Min(|payload|, Less(n, 1))), Polled(rest, Less(n, |payload| + 4));
    PolledFrame(payload, rest, n);
    PolledExactly(payload, Min(|payload|, Less(n, 1)));
    FrameIsFramed(payload);
    hide Read, Frame, Framed, Checksum, Polled, ChecksumMatches;
    FramedReads(drained, check[0], check[1], left, noAck);
    ReadShrinks(left, noAck);
  }

  /** The framing itself holds no interrupt bytes, so polling changes only the payload and what follows. */
  lemma PolledFrame(payload: seq<Byte>, rest: seq<Byte>, n: nat)
    requires n <= |Frame(payload) + rest|
    ensures |Frame(payload)| == |payload| + 4
    ensures var check := EncodeByte(Checksum(payload));
            Polled(Frame(payload) + rest, n)
            == Framed(Polled(payload, Min(|payload|, Less(n, 1))), check[0], check[1])
               + Polled(rest, Less(n, |payload| + 4))
  {
    hide Frame, Framed, Checksum, EncodeByte, Polled;
    var check := EncodeByte(Checksum(payload));
    FrameParts(payload);
    PolledParts(Frame(payload), rest, n);
    PolledInside([DOLLAR], payload, [HASH, check[0], check[1]], Min(n, |payload| + 4));
    FramedParts(Polled(payload, Min(|payload|, Less(n, 1))), check[0], check[1]);
  }

  lemma FrameParts(payload: seq<Byte>)
    ensures var check := EncodeByte(Checksum(payload));
            && |check| == 2 && Frame(payload) == [DOLLAR] + payload + [HASH, check[0], check[1]]
            && INTERRUPT !in [HASH, check[0], check[1]]
  {
    hide Checksum;
  }

  lemma FramedParts(payload: seq<Byte>, high: Byte, low: Byte)
    ensures Framed(payload, high, low) == [DOLLAR] + payload + [HASH, high, low]
  {}

  /** Polling a stretch between two that hold no interrupts. */
  lemma PolledInside(head: seq<Byte>, middle: seq<Byte>, tail: seq<Byte>, n: nat)
    requires |head| == 1 && INTERRUPT !in head && INTERRUPT !in tail && n <= |head + middle + tail|
    ensures Min(Less(n, 1), |middle|) <= |middle|
    ensures Polled(head + middle + tail, n) == head + Polled(middle, Min(Less(n, 1), |middle|)) + tail
  {
    hide Polled;
    var m := Min(n, |head + middle|);
    PolledParts(head + middle, tail, n);
    PolledParts(head, middle, m);
    PolledExactly(head, Min(m, 1));
    PolledExactly(tail, Less(n, |head + middle|));
    assert Less(m, 1) == Min(Less(n, 1), |middle|);
  }

  /** A packet uses up part of the input. */
  lemma {:induction false} ReadShrinks(input: seq<Byte>, noAck: bool)
    ensures Read(input, noAck).packet.Some? ==> |Read(input, noAck).rest| < |input|
    decreases |input|
  {
    if input != [] && input[0] != INTERRUPT {
      if input[0] != DOLLAR {
        ReadShrinks(input[1..], noAck);
      } else {
        var n := HashAt(input[1..]);
        if n + 2 < |input[1..]| {
          ReadShrinks(input[1..][n + 3..], noAck);
        }
      }
    }
  }

  lemma {:induction false} KeptHasNoHash(bytes: seq<Byte>)
    requires HASH !in bytes
    ensures HASH !in Kept(bytes)
  {
    if bytes != [] {
      KeptHasNoHash(bytes[1..]);
    }
  }
}
