/**
 The control channel's line buffer: reads of at most 4096 bytes, lines cut at
 newlines, and a buffer of at most 64 KiB.
 */
module LiveControls {
  import opened Wrappers

  const READ_BUFFER_SIZE: nat := 4096
  const MAXIMUM_BUFFERED_INPUT: nat := 65536

  datatype Command = Parsed(id: nat) | Error(message: string)

  /** What one poll finds: nothing, an interruption, bytes, the end, or a failure. */
  datatype Event =
    | Nothing
    | PollInterrupted
    | PollFailed
    | Received(bytes: string)
    | EndOfInput
    | ReadFailed
    | HangUp

  datatype State = State(buffered: string, closed: bool)

  // ---------- Lines ----------

  /** How many characters come before the first newline. */
  function NewlineAt(text: string): (n: nat)
    ensures n <= |text| && '\n' !in text[..n] && (n < |text| ==> text[n] == '\n')
  {
    if text == "" || text[0] == '\n' then 0
    else
      var n := NewlineAt(text[1..]);
      assert text[..n + 1] == [text[0]] + text[1..][..n];
      n + 1
  }

  /** The complete lines of a text, and what follows the last newline. */
  function Lines(text: string): (seq<string>, string)
    decreases |text|
  {
    var n := NewlineAt(text);
    if n == |text| then ([], text)
    else
      var (rest, residual) := Lines(text[n + 1..]);
      ([text[..n]] + rest, residual)
  }

  /** The lines with the newlines that end them. */
  function Ended(lines: seq<string>): string {
    if lines == [] then "" else lines[0] + "\n" + Ended(lines[1..])
  }

  /** The lines hold no newlines and, with one behind each, make up the text in front of the residual. */
  lemma {:induction false} LinesExactly(text: string)
    ensures var (lines, residual) := Lines(text);
            && Ended(lines) + residual == text && '\n' !in residual
            && forall i | 0 <= i < |lines| :: '\n' !in lines[i]
    decreases |text|
  {
    hide NewlineAt, Ended, Lines;
    EndedNothing();
    LinesUnfold(text);
    var n := NewlineAt(text);
    if n == |text| {
      assert text[..|text|] == text;
      assert "" + text == text;
    } else {
      LinesExactly(text[n + 1..]);
      var (rest, residual) := Lines(text[n + 1..]);
      EndedFirst(text[..n], rest);
      Glued(text, n, Ended(rest), residual);
    }
  }

  lemma Glued(text: string, n: nat, middle: string, residual: string)
    requires n < |text| && text[n] == '\n' && text[n + 1..] == middle + residual
    ensures text[..n] + "\n" + middle + residual == text
  {
    assert text == text[..n] + "\n" + text[n + 1..];
  }

  lemma EndedNothing()
    ensures Ended([]) == ""
  {}

  lemma EndedFirst(line: string, rest: seq<string>)
    ensures Ended([line] + rest) == line + "\n" + Ended(rest)
  {
    assert ([line] + rest)[1..] == rest;
  }

  function ParseAll(parse: string -> seq<Command>, lines: seq<string>): seq<Command> {
    if lines == [] then [] else parse(lines[0]) + ParseAll(parse, lines[1..])
  }

  // ---------- One poll ----------

  /** Cuts the buffer into lines, or drops it when it has grown too long. */
  function Split(parse: string -> seq<Command>, s: State, commands: seq<Command>): (State, seq<Command>) {
    if |s.buffered| > MAXIMUM_BUFFERED_INPUT then
      (s.(buffered := ""), commands + [Error("control input exceeded 64 KiB")])
    else
      var (lines, residual) := Lines(s.buffered);
      (s.(buffered := residual), commands + ParseAll(parse, lines))
  }

  function Poll(parse: string -> seq<Command>, s: State, e: Event): (State, seq<Command>) {
    if s.closed then (s, [])
    else
      match e
      case Nothing => (s, [])
      case PollInterrupted => (s, [])
      case PollFailed => (s.(closed := true), [Error("stdin polling failed")])
      case Received(bytes) => Split(parse, s.(buffered := s.buffered + bytes), [])
      case EndOfInput => Split(parse, s.(closed := true), [])
      case ReadFailed => Split(parse, s.(closed := true), [Error("stdin read failed")])
      case HangUp => Split(parse, s.(closed := true), [])
  }

  /**
   A closed channel stays as it is. A failed poll closes it; the end, a failed read
   or a hang-up close it too, and what has come is still cut into lines, unless it
   is more than 65536 characters, which are dropped.
   */
  lemma PollExactly(parse: string -> seq<Command>, s: State, e: Event)
    ensures var (next, commands) := Poll(parse, s, e);
            var text := s.buffered + if e.Received? then e.bytes else "";
            var first := if e.ReadFailed? then [Error("stdin read failed")] else [];
            if s.closed || e.Nothing? || e.PollInterrupted? then next == s && commands == []
            else if e.PollFailed? then
              next == State(s.buffered, true) && commands == [Error("stdin polling failed")]
            else
              && next.closed == !e.Received?
              && if |text| > 65536 then
                   next.buffered == "" && commands == first + [Error("control input exceeded 64 KiB")]
                 else next.buffered == Lines(text).1 && commands == first + ParseAll(parse, Lines(text).0)
  {
    hide Lines, ParseAll;
    assert s.buffered + "" == s.buffered;
  }

  // ---------- Reading in pieces ----------

  lemma {:induction false} NewlineAtUnique(text: string, n: nat)
    requires n < |text| && '\n' !in text[..n] && text[n] == '\n'
    ensures NewlineAt(text) == n
  {
    if n > 0 {
      assert text[..n][0] == text[0];
      assert text[1..][..n - 1] == text[..n][1..];
      NewlineAtUnique(text[1..], n - 1);
    }
  }

  lemma NoNewline(text: string)
    requires '\n' !in text
    ensures Lines(text) == ([], text)
  {
    NoNewlineFound(text);
  }

  lemma {:induction false} NoNewlineFound(text: string)
    requires '\n' !in text
    ensures NewlineAt(text) == |text|
  {
    if text != "" {
      NoNewlineFound(text[1..]);
    }
  }

  lemma LinesUnfold(text: string)
    ensures var n := NewlineAt(text);
            if n == |text| then Lines(text) == ([], text)
            else Lines(text) == ([text[..n]] + Lines(text[n + 1..]).0, Lines(text[n + 1..]).1)
  {
    hide NewlineAt;
  }

  lemma {:induction false} ResidualHasNoNewline(text: string)
    ensures '\n' !in Lines(text).1 && |Lines(text).1| <= |text|
    decreases |text|
  {
    hide Lines;
    LinesUnfold(text);
    if NewlineAt(text) == |text| {
      assert text[..|text|] == text;
    } else {
      ResidualHasNoNewline(text[NewlineAt(text) + 1..]);
    }
  }

  /** Cutting a text into lines, then the residual with what comes next, is cutting the whole. */
  lemma {:induction false} LinesJoin(a: string, b: string)
    ensures var (first, residual) := Lines(a);
            var (second, last) := Lines(residual + b);
            Lines(a + b) == (first + second, last)
    decreases |a|
  {
    hide Lines;
    var n := NewlineAt(a);
    LinesUnfold(a);
    if n == |a| {
      assert [] + Lines(a + b).0 == Lines(a + b).0;
    } else {
      var whole := a + b;
      LinesUnfold(whole);
      assert whole[..n] == a[..n];
      NewlineAtUnique(whole, n);
      assert whole[n + 1..] == a[n + 1..] + b;
      LinesJoin(a[n + 1..], b);
      var (first, residual) := Lines(a[n + 1..]);
      var (second, last) := Lines(residual + b);
      assert [a[..n]] + (first + second) == [a[..n]] + first + second;
    }
  }

  lemma {:induction false} ParseAllJoins(parse: string -> seq<Command>, a: seq<string>, b: seq<string>)
    ensures ParseAll(parse, a + b) == ParseAll(parse, a) + ParseAll(parse, b)
  {
    hide ParseAll;
    NothingParsed(parse);
    if a == [] {
      assert a + b == b;
    } else {
      ParseAllJoins(parse, a[1..], b);
      assert (a + b)[0] == a[0] && (a + b)[1..] == a[1..] + b;
      ParseFirst(parse, a);
      ParseFirst(parse, a + b);
    }
  }

  /** The commands are those of each line, in order. */
  lemma ParseAllExactly(parse: string -> seq<Command>, lines: seq<string>, last: string)
    ensures ParseAll(parse, []) == [] && ParseAll(parse, lines + [last]) == ParseAll(parse, lines) + parse(last)
  {
    ParseAllJoins(parse, lines, [last]);
    ParseOne(parse, last);
  }

  lemma NothingParsed(parse: string -> seq<Command>)
    ensures ParseAll(parse, []) == []
  {}

  lemma ParseFirst(parse: string -> seq<Command>, lines: seq<string>)
    requires lines != []
    ensures ParseAll(parse, lines) == parse(lines[0]) + ParseAll(parse, lines[1..])
  {}

  function Concat(chunks: seq<string>): string {
    if chunks == [] then "" else chunks[0] + Concat(chunks[1..])
  }

  /** The polls that receive these chunks one after the other. */
  function ReadAll(parse: string -> seq<Command>, s: State, chunks: seq<string>): (State, seq<Command>)
    decreases |chunks|
  {
    if chunks == [] then (s, [])
    else
      var (next, commands) := Poll(parse, s, Received(chunks[0]));
      var (last, rest) := ReadAll(parse, next, chunks[1..]);
      (last, commands + rest)
  }

  /** No poll finds more than the buffer may hold. */
  ghost predicate Within(s: State, chunks: seq<string>)
    decreases |chunks|
  {
    chunks == [] || (|s.buffered + chunks[0]| <= MAXIMUM_BUFFERED_INPUT
                     && Within(s.(buffered := Lines(s.buffered + chunks[0]).1), chunks[1..]))
  }

  /**
   While the buffer's limit is kept, the commands are those of the lines of the
   whole input in order, however it was cut into reads, and the buffer is the
   text after the last newline.
   */
  lemma {:induction false} ChunkingDoesNotMatter(parse: string -> seq<Command>, s: State, chunks: seq<string>)
    requires !s.closed && '\n' !in s.buffered && Within(s, chunks)
    ensures var (lines, residual) := Lines(s.buffered + Concat(chunks));
            ReadAll(parse, s, chunks) == (State(residual, false), ParseAll(parse, lines))
    decreases |chunks|
  {
    hide Lines, ParseAll;
    if chunks == [] {
      assert s.buffered + Concat(chunks) == s.buffered;
      NoNewline(s.buffered);
      NothingParsed(parse);
    } else {
      var read := s.buffered + chunks[0];
      var (lines, residual) := Lines(read);
      ResidualHasNoNewline(read);
      var next := State(residual, false);
      ChunkingDoesNotMatter(parse, next, chunks[1..]);
      LinesJoin(read, Concat(chunks[1..]));
      assert read + Concat(chunks[1..]) == s.buffered + Concat(chunks);
      ParseAllJoins(parse, lines, Lines(residual + Concat(chunks[1..])).0);
      PollReads(parse, s, chunks[0]);
    }
  }

  lemma PollReads(parse: string -> seq<Command>, s: State, bytes: string)
    requires !s.closed && |s.buffered + bytes| <= MAXIMUM_BUFFERED_INPUT
    ensures var (lines, residual) := Lines(s.buffered + bytes);
            Poll(parse, s, Received(bytes)) == (State(residual, false), ParseAll(parse, lines))
  {
    hide Lines, ParseAll;
    assert [] + ParseAll(parse, Lines(s.buffered + bytes).0) == ParseAll(parse, Lines(s.buffered + bytes).0);
  }

  // ---------- When the limit is kept ----------

  /** The longest line that fits behind a full read. */
  const SAFE_LINE: nat := MAXIMUM_BUFFERED_INPUT - READ_BUFFER_SIZE

  /** No stretch without a newline is longer than a limit. */
  ghost predicate ShortLines(text: string, limit: nat) {
    forall i, j | 0 <= i <= j <= |text| && '\n' !in text[i..j] :: j - i <= limit
  }

  lemma {:induction false} ResidualIsSuffix(text: string)
    ensures |Lines(text).1| <= |text| && text[|text| - |Lines(text).1|..] == Lines(text).1
    decreases |text|
  {
    var n := NewlineAt(text);
    if n < |text| {
      ResidualIsSuffix(text[n + 1..]);
    }
  }

  /** If no line is longer than 61440 characters, no way of reading the input exceeds the buffer. */
  lemma {:induction false} ShortLinesStayWithin(s: State, chunks: seq<string>)
    requires forall i | 0 <= i < |chunks| :: |chunks[i]| <= READ_BUFFER_SIZE
    requires '\n' !in s.buffered && ShortLines(s.buffered + Concat(chunks), SAFE_LINE)
    ensures Within(s, chunks)
    decreases |chunks|
  {
    hide Lines;
    if chunks != [] {
      var text := s.buffered + Concat(chunks);
      assert text[0..|s.buffered|] == s.buffered;
      var read := s.buffered + chunks[0];
      var residual := Lines(read).1;
      ResidualIsSuffix(read);
      ResidualHasNoNewline(read);
      assert text == read + Concat(chunks[1..]);
      SuffixIsShort(text, residual + Concat(chunks[1..]), |read| - |residual|);
      ShortLinesStayWithin(s.(buffered := residual), chunks[1..]);
    }
  }

  lemma SuffixIsShort(text: string, suffix: string, cut: nat)
    requires cut <= |text| && suffix == text[cut..] && ShortLines(text, SAFE_LINE)
    ensures ShortLines(suffix, SAFE_LINE)
  {
    forall i, j | 0 <= i <= j <= |suffix| && '\n' !in suffix[i..j]
      ensures j - i <= SAFE_LINE
    {
      assert suffix[i..j] == text[cut + i..cut + j];
    }
  }

  /** Reads of at most a buffer each, none of whose lines is too long, yield every line of the input in order. */
  lemma ShortLinesAllArrive(parse: string -> seq<Command>, chunks: seq<string>)
    requires forall i | 0 <= i < |chunks| :: |chunks[i]| <= READ_BUFFER_SIZE
    requires ShortLines(Concat(chunks), SAFE_LINE)
    ensures var (lines, residual) := Lines(Concat(chunks));
            ReadAll(parse, State("", false), chunks) == (State(residual, false), ParseAll(parse, lines))
  {
    hide Lines, ReadAll, ParseAll;
    assert "" + Concat(chunks) == Concat(chunks);
    ShortLinesStayWithin(State("", false), chunks);
    ChunkingDoesNotMatter(parse, State("", false), chunks);
  }

  // ---------- And when it is not ----------

  lemma {:induction false} ReadAllJoins(parse: string -> seq<Command>, s: State, a: seq<string>, b: seq<string>)
    ensures var (middle, first) := ReadAll(parse, s, a);
            var (last, second) := ReadAll(parse, middle, b);
            ReadAll(parse, s, a + b) == (last, first + second)
    decreases |a|
  {
    hide Poll;
    if a == [] {
      assert a + b == b;
      assert [] + ReadAll(parse, s, b).1 == ReadAll(parse, s, b).1;
    } else {
      var (next, commands) := Poll(parse, s, Received(a[0]));
      ReadAllJoins(parse, next, a[1..], b);
      assert (a + b)[0] == a[0] && (a + b)[1..] == a[1..] + b;
      var (middle, first) := ReadAll(parse, next, a[1..]);
      var second := ReadAll(parse, middle, b).1;
      assert commands + (first + second) == commands + first + second;
    }
  }

  lemma {:induction false} ConcatJoins(a: seq<string>, b: seq<string>)
    ensures Concat(a + b) == Concat(a) + Concat(b)
  {
    hide Concat;
    ConcatUnfold(a);
    if a == [] {
      assert a + b == b;
      assert "" + Concat(b) == Concat(b);
    } else {
      ConcatJoins(a[1..], b);
      assert (a + b)[0] == a[0] && (a + b)[1..] == a[1..] + b;
      ConcatUnfold(a + b);
    }
  }

  lemma ConcatUnfold(chunks: seq<string>)
    ensures chunks == [] ==> Concat(chunks) == ""
    ensures chunks != [] ==> Concat(chunks) == chunks[0] + Concat(chunks[1..])
  {}

  /** Input that fits the buffer as a whole never exceeds it. */
  lemma {:induction false} TotalWithin(s: State, chunks: seq<string>)
    requires |s.buffered + Concat(chunks)| <= MAXIMUM_BUFFERED_INPUT
    ensures Within(s, chunks)
    decreases |chunks|
  {
    hide Lines;
    if chunks != [] {
      ResidualIsSuffix(s.buffered + chunks[0]);
      TotalWithin(s.(buffered := Lines(s.buffered + chunks[0]).1), chunks[1..]);
    }
  }

  function Repeated(c: char, n: nat): string {
    seq(n, i => c)
  }

  /** Reads of one character each. */
  function OneByOne(c: char, n: nat): seq<string> {
    seq(n, i => [c])
  }

  lemma {:induction false} OneByOneConcat(c: char, n: nat)
    ensures Concat(OneByOne(c, n)) == Repeated(c, n)
  {
    if n > 0 {
      OneByOneConcat(c, n - 1);
      assert OneByOne(c, n)[1..] == OneByOne(c, n - 1);
    }
  }

  /** A line of 61441 characters, and a full read that begins with its newline. */
  function LongLine(): string {
    Repeated('a', SAFE_LINE + 1)
  }

  function FullRead(): string {
    "\n" + Repeated('b', READ_BUFFER_SIZE - 1)
  }

  function LosingReads(): seq<string> {
    OneByOne('a', SAFE_LINE + 1) + [FullRead()]
  }

  lemma LosingInput()
    ensures Concat(LosingReads()) == LongLine() + FullRead()
    ensures forall i | 0 <= i < |LosingReads()| :: |LosingReads()[i]| <= READ_BUFFER_SIZE
    ensures ShortLines(Concat(LosingReads()), SAFE_LINE + 1)
  {
    OneByOneConcat('a', SAFE_LINE + 1);
    ConcatJoins(OneByOne('a', SAFE_LINE + 1), [FullRead()]);
    LastConcat(FullRead());
    var text := LongLine() + FullRead();
    forall i, j | 0 <= i <= j <= |text| && '\n' !in text[i..j]
      ensures j - i <= SAFE_LINE + 1
    {
      if i <= SAFE_LINE + 1 < j {
        SliceHas(text, i, j, SAFE_LINE + 1);
      }
    }
  }

  lemma SliceHas(text: string, i: nat, j: nat, k: nat)
    requires i <= k < j <= |text|
    ensures text[k] in text[i..j]
  {
    assert text[i..j][k - i] == text[k];
  }

  lemma LastConcat(text: string)
    ensures Concat([text]) == text
  {
    assert [text][1..] == [];
  }

  /** A read that takes the buffer over its limit empties it and reports an error. */
  lemma OverflowDropsAll(parse: string -> seq<Command>, s: State, bytes: string)
    requires !s.closed && |s.buffered + bytes| > MAXIMUM_BUFFERED_INPUT
    ensures Poll(parse, s, Received(bytes)) == (State("", false), [Error("control input exceeded 64 KiB")])
  {
    assert [] + [Error("control input exceeded 64 KiB")] == [Error("control input exceeded 64 KiB")];
  }

  /** One character more is too many: the unfinished line is lost, and all of the read behind it. */
  lemma OneCharacterMoreIsLost(parse: string -> seq<Command>)
    ensures ReadAll(parse, State("", false), LosingReads())
            == (State("", false), [Error("control input exceeded 64 KiB")])
  {
    var start, single := State("", false), OneByOne('a', SAFE_LINE + 1);
    assert "" + Concat(single) == Concat(single);
    OneByOneConcat('a', SAFE_LINE + 1);
    assert |LongLine()| == SAFE_LINE + 1 && '\n' !in LongLine() && |FullRead()| == READ_BUFFER_SIZE;
    TotalWithin(start, single);
    ChunkingDoesNotMatter(parse, start, single);
    NoNewline(LongLine());
    NothingParsed(parse);
    ReadAllJoins(parse, start, single, [FullRead()]);
    OverflowDropsAll(parse, State(LongLine(), false), FullRead());
    hide Lines, ParseAll, Poll, ReadAll, Concat;
    ReadOne(parse, State(LongLine(), false), FullRead());
    assert [] + [Error("control input exceeded 64 KiB")] == [Error("control input exceeded 64 KiB")];
  }

  lemma ReadOne(parse: string -> seq<Command>, s: State, bytes: string)
    ensures ReadAll(parse, s, [bytes]) == Poll(parse, s, Received(bytes))
  {
    hide Poll;
    assert [bytes][1..] == [];
    var commands := Poll(parse, s, Received(bytes)).1;
    assert commands + [] == commands;
  }

  /** Every line of the input is parsed in order, and the buffer is left with what follows the last newline. */
  predicate AllArrive(parse: string -> seq<Command>, chunks: seq<string>) {
    var (lines, residual) := Lines(Concat(chunks));
    ReadAll(parse, State("", false), chunks) == (State(residual, false), ParseAll(parse, lines))
  }

  /** Reads of at most a buffer each, of lines of at most so many characters. */
  ghost predicate Ordinary(chunks: seq<string>, limit: nat) {
    (forall i | 0 <= i < |chunks| :: |chunks[i]| <= READ_BUFFER_SIZE) && ShortLines(Concat(chunks), limit)
  }

  /** A line length is safe under every way of reading exactly when it is at most 61440. */
  lemma SafeLengthExactly(parse: string -> seq<Command>, limit: nat)
    ensures (forall chunks | Ordinary(chunks, limit) :: AllArrive(parse, chunks)) <==> limit <= SAFE_LINE
  {
    hide AllArrive, Ordinary;
    if limit <= SAFE_LINE {
      forall chunks | Ordinary(chunks, limit)
        ensures AllArrive(parse, chunks)
      {
        OrdinaryArrives(parse, chunks, limit);
      }
    } else {
      LosingReadsAreOrdinary(parse, limit);
    }
  }

  lemma OrdinaryArrives(parse: string -> seq<Command>, chunks: seq<string>, limit: nat)
    requires Ordinary(chunks, limit) && limit <= SAFE_LINE
    ensures AllArrive(parse, chunks)
  {
    hide Lines, ReadAll, ParseAll, Concat;
    ShortLinesAllArrive(parse, chunks);
  }

  lemma LosingReadsAreOrdinary(parse: string -> seq<Command>, limit: nat)
    requires limit > SAFE_LINE
    ensures Ordinary(LosingReads(), limit) && !AllArrive(parse, LosingReads())
  {
    hide ReadAll, ParseAll, Concat, Lines, LosingReads, LongLine, FullRead;
    LosingInput();
    OneCharacterMoreIsLost(parse);
    SomethingIsLeft();
  }

  /** The losing input ends in an unfinished line. */
  lemma SomethingIsLeft()
    ensures Lines(Concat(LosingReads())).1 != ""
  {
    LosingInput();
    ResidualIsSuffix(LongLine() + FullRead());
    LastLineStays(LongLine() + FullRead());
  }

  lemma {:induction false} LastLineStays(text: string)
    requires text != "" && text[|text| - 1] != '\n'
    ensures Lines(text).1 != ""
    decreases |text|
  {
    hide Lines;
    LinesUnfold(text);
    if NewlineAt(text) < |text| {
      LastLineStays(text[NewlineAt(text) + 1..]);
    }
  }

  // ---------- The loop ----------

  class LiveControl {
    var bufferedInput: string
    var closed: bool
    const parse: string -> seq<Command>

    function View(): State
      reads this
    {
      State(bufferedInput, closed)
    }

    constructor (parse: string -> seq<Command>)
      ensures View() == State("", false) && this.parse == parse
    {
      bufferedInput, closed, this.parse := "", false, parse;
    }

    method FindNewline() returns (newline: nat)
      ensures newline == NewlineAt(bufferedInput)
    {
      newline := 0;
      while newline < |bufferedInput| && bufferedInput[newline] != '\n'
        invariant newline <= |bufferedInput| && '\n' !in bufferedInput[..newline]
      {
        newline := newline + 1;
      }
      if newline < |bufferedInput| {
        NewlineAtUnique(bufferedInput, newline);
      } else {
        assert bufferedInput[..newline] == bufferedInput;
        NoNewlineFound(bufferedInput);
      }
    }

    method PollOnce(event: Event) returns (commands: seq<Command>)
      modifies this
      ensures (View(), commands) == Poll(parse, old(View()), event)
    {
      commands := [];
      if closed {
        return;
      }
      match event {
        case Nothing => return;
        case PollInterrupted => return;
        case PollFailed =>
          closed := true;
          commands := [Error("stdin polling failed")];
          return;
        case Received(bytes) =>
          bufferedInput := bufferedInput + bytes;
        case EndOfInput =>
          closed := true;
        case ReadFailed =>
          closed := true;
          commands := [Error("stdin read failed")];
        case HangUp =>
          closed := true;
      }
      if |bufferedInput| > MAXIMUM_BUFFERED_INPUT {
        bufferedInput := "";
        commands := commands + [Error("control input exceeded 64 KiB")];
        return;
      }
      var parsed := CutLines();
      commands := commands + parsed;
    }

    method CutLines() returns (commands: seq<Command>)
      modifies this`bufferedInput
      ensures bufferedInput == Lines(old(bufferedInput)).1
      ensures commands == ParseAll(parse, Lines(old(bufferedInput)).0)
    {
      hide Lines, ParseAll;
      ghost var (lines, residual) := Lines(bufferedInput);
      ghost var done: seq<string> := [];
      commands := [];
      NothingParsed(parse);
      assert [] + lines == lines;
      var newline := FindNewline();
      while newline < |bufferedInput|
        invariant newline == NewlineAt(bufferedInput)
        invariant commands == ParseAll(parse, done)
        invariant (lines, residual) == (done + Lines(bufferedInput).0, Lines(bufferedInput).1)
        decreases |bufferedInput|
      {
        LinesUnfold(bufferedInput);
        var line := bufferedInput[..newline];
        ParseAllJoins(parse, done, [line]);
        ParseOne(parse, line);
        assert done + ([line] + Lines(bufferedInput[newline + 1..]).0)
            == done + [line] + Lines(bufferedInput[newline + 1..]).0;
        done := done + [line];
        commands := commands + parse(line);
        bufferedInput := bufferedInput[newline + 1..];
        newline := FindNewline();
      }
      LinesUnfold(bufferedInput);
      assert lines == done;
    }
  }

  lemma ParseOne(parse: string -> seq<Command>, line: string)
    ensures ParseAll(parse, [line]) == parse(line)
  {
    assert [line][1..] == [];
  }
}
