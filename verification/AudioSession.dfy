/**
 Whole runs of the sink: play, stop, set_gain and callbacks in any order.  Every
 converted sample gets a position when it is queued, so that what becomes of it
 can be followed.
 */
module AudioSession {
  import opened AudioQueue
  import opened AudioPlayback
  import Division

  datatype Session = Session(
    q: Queue,
    sent: seq<Sample>,     // everything ever queued
    played: seq<nat>,      // positions in `sent`, in the order the callback took them
    pending: seq<nat>,     // positions still queued, in order
    discarded: seq<nat>,   // positions dropped by stop
    mark: nat,             // how much had been sent when the current fade began
    emitted: seq<Sample>,  // everything the callbacks have written
    heard: seq<Sound>)     // what each sample written should be

  /** Silence, or the sample sent at a position, at a level. */
  datatype Sound = Silent | Sounded(position: nat, level: real) {
    function Positions(): seq<nat> {
      if Sounded? then [position] else []
    }
  }

  datatype Step =
    | Callback(n: nat)
    | Play(converted: seq<Sample>, streaming: bool, period: nat)
    | Stop(fadeOut: bool, frequency: nat)
    | SetGain(gain: real)

  function Open(channels: nat): Session {
    Session(Queue([], [], 0, channels, 0, true, 0, 0, 1.0), [], [], [], [], 0, [], [])
  }

  /** Callbacks take whole frames; play queues what the converter returned if it is whole frames. */
  ghost predicate Enabled(s: Session, step: Step) {
    && s.q.channels > 0 && Readable(s.q.chunks)
    && match step
       case Callback(n) => n % s.q.channels == 0
       case Play(converted, _, _) => converted != [] && |converted| % s.q.channels == 0
       case Stop(_, _) => true
       case SetGain(_) => true
  }

  function Positions(from: nat, count: nat): (p: seq<nat>)
    ensures |p| == count && forall i :: 0 <= i < count ==> p[i] == from + i
  {
    seq(count, i requires 0 <= i < count => from + i)
  }

  /** How many unread samples a callback takes: what lead silence leaves, if there is that much. */
  function Taken(s: Session, n: nat): nat {
    Min(n - Min(n, s.q.lead), |s.pending|)
  }

  function Silents(n: nat): (sounds: seq<Sound>)
    ensures |sounds| == n && forall j :: 0 <= j < n ==> sounds[j] == Silent
  {
    seq(n, _ => Silent)
  }

  /** The first positions queued, each at the level of its frame. */
  function Sounding(pending: seq<nat>, q: Queue): (sounds: seq<Sound>)
    requires q.channels > 0
    ensures |sounds| == |pending|
    ensures forall k {:trigger sounds[k]} :: 0 <= k < |pending| ==>
      sounds[k] == Sounded(pending[k], Level(FrameOf(k, q.channels), q.gain, q.fadeRemaining, q.fadeTotal))
  {
    seq(|pending|, k requires 0 <= k < |pending| =>
      Sounded(pending[k], Level(FrameOf(k, q.channels), q.gain, q.fadeRemaining, q.fadeTotal)))
  }

  /** What a callback should write: the lead's silence, the samples it takes, and silence when it runs out. */
  function Due(s: Session, n: nat): seq<Sound>
    requires s.q.channels > 0
  {
    var silent := Min(n, s.q.lead);
    Then(Silents(silent), DueAfterLead(s, n - silent))
  }

  function DueAfterLead(s: Session, n: nat): seq<Sound>
    requires s.q.channels > 0
  {
    var taken := Min(n, |s.pending|);
    Sounding(s.pending[..taken], s.q) + Silents(n - taken)
  }

  function Next(s: Session, step: Step): Session
    requires Enabled(s, step)
  {
    match step
    case Callback(n) =>
      var taken := Taken(s, n);
      s.(q := AudioQueue.Callback(s.q, n).1,
         played := s.played + s.pending[..taken],
         pending := s.pending[taken..],
         emitted := s.emitted + AudioQueue.Callback(s.q, n).0,
         heard := s.heard + Due(s, n))
    case Play(converted, streaming, period) =>
      s.(q := Enqueue(s.q, converted, streaming, period),
         sent := s.sent + converted,
         pending := s.pending + Positions(|s.sent|, |converted|))
    case Stop(fadeOut, frequency) =>
      var q' := AudioQueue.Stop(s.q, fadeOut, frequency);
      var kept := Min(q'.queued, |s.pending|);
      s.(q := q',
         pending := s.pending[..kept],
         discarded := s.discarded + s.pending[kept..],
         mark := if s.q.fadeRemaining == 0 then |s.sent| else s.mark)
    case SetGain(gain) => s.(q := AudioQueue.SetGain(s.q, gain))
  }

  ghost predicate Increasing(p: seq<nat>) {
    forall i, j :: 0 <= i < j < |p| ==> p[i] < p[j]
  }

  /** The queue holds the pending samples, in order. */
  ghost predicate Holds(s: Session) {
    && Valid(s.q) && Aligned(s.q)
    && |s.pending| == s.q.queued == |Flatten(s.q.chunks)|
    && forall k :: 0 <= k < |s.pending| ==>
         s.pending[k] < |s.sent| && Flatten(s.q.chunks)[k] == s.sent[s.pending[k]]
  }

  /** Every sample sent is in exactly one place, and nothing overtakes. */
  ghost predicate Conserved(s: Session) {
    && multiset(s.played) + multiset(s.pending) + multiset(s.discarded) == multiset(Positions(0, |s.sent|))
    && Increasing(s.played + s.pending)
  }

  /** While a fade is in progress it covers exactly the samples sent before the stop that began it. */
  ghost predicate FadeBounded(s: Session) {
    && s.mark <= |s.sent|
    && (s.q.fadeRemaining > 0 ==>
         forall k :: 0 <= k < |s.pending| ==>
           (k < Extent(s.q.fadeRemaining, s.q.channels) <==> s.pending[k] < s.mark))
  }

  /** A sample written is what it should be, and no louder than what was sent. */
  ghost predicate Sounds(sample: Sample, sound: Sound, sent: seq<Sample>) {
    match sound
    case Silent => sample == 0
    case Sounded(position, level) =>
      position < |sent| && 0.0 <= level <= 1.0 && sample == Scale(sent[position], level)
  }

  ghost predicate AllSound(output: seq<Sample>, sounds: seq<Sound>, sent: seq<Sample>) {
    |output| == |sounds| && forall j :: 0 <= j < |output| ==> Sounds(output[j], sounds[j], sent)
  }

  function PlayedIn(sounds: seq<Sound>): seq<nat> {
    if sounds == [] then [] else sounds[0].Positions() + PlayedIn(sounds[1..])
  }

  /** Everything written is what it should be, and what was played is what sounded, in order. */
  ghost predicate Heard(s: Session) {
    AllSound(s.emitted, s.heard, s.sent) && PlayedIn(s.heard) == s.played
  }

  ghost predicate Inv(s: Session) {
    Holds(s) && Conserved(s) && FadeBounded(s) && Heard(s)
  }

  // ------------------------------------------------- callbacks move the list on

  function Less(a: nat, b: nat): nat {
    if b <= a then a - b else 0
  }

  lemma FadeLeft(count: nat, channels: nat, fade: nat, total: nat, fade': nat, total': nat)
    requires channels > 0 && FadeAfter(count, channels, fade, total, fade', total')
    ensures Extent(fade', channels) == Less(Extent(fade, channels), count)
  {
    if Whole(count, channels) {
      var gone := FrameOf(count, channels);
      WholeAdd(count, 0, channels);
      if gone <= fade {
        ExtentOrder(gone, fade, channels);
      } else {
        ExtentOrder(fade, gone, channels);
      }
    }
  }

  /** One turn of the callback's loop, seen from the flattened list and the fade. */
  lemma TurnMoves(q: Queue, n: nat) returns (count: nat, q1: Queue)
    requires Fits(q, n) && n > 0 && q.chunks != []
    ensures 0 < count <= n && q1.channels == q.channels > 0 && Fits(q1, n - count)
    ensures |q1.chunks| < |q.chunks| || (|q1.chunks| == |q.chunks| && n - count < n)
    ensures Readable(q.chunks) && Readable(q1.chunks) && Drain(q, n).1 == Drain(q1, n - count).1
    ensures Flatten(q1.chunks) == Drop(Flatten(q.chunks), count)
    ensures Extent(q1.fadeRemaining, q.channels) == Less(Extent(q.fadeRemaining, q.channels), count)
  {
    count := Min(n, Available(q.chunks[0]));
    q1 := TakeFront(q, count);
    TurnFits(q, n, count, q1);
    hide *;
    DrainUnfolds(q, n, count, q1);
    DropFront(q, count);
    TakeFrontFade(q, count);
    FadeLeft(count, q.channels, q.fadeRemaining, q.fadeTotal, q1.fadeRemaining, q1.fadeTotal);
  }

  lemma DropFront(q: Queue, count: nat)
    requires Valid(q) && q.chunks != [] && count <= Available(q.chunks[0])
    ensures Flatten(TakeFront(q, count).chunks) == Drop(Flatten(q.chunks), count)
  {
    TakeFrontFlattens(q, count);
  }

  lemma DropDrop<T>(s: seq<T>, m: nat, n: nat)
    requires m <= n
    ensures Drop(Drop(s, m), n - m) == Drop(s, n)
  {
  }

  lemma LessLess(a: nat, m: nat, n: nat)
    requires m <= n
    ensures Less(Less(a, m), n - m) == Less(a, n)
  {
  }

  lemma {:induction false} DrainMoves(q: Queue, n: nat)
    requires Fits(q, n)
    ensures q.channels > 0 && Readable(q.chunks)
    ensures Flatten(Drain(q, n).1.chunks) == Drop(Flatten(q.chunks), n)
    ensures Extent(Drain(q, n).1.fadeRemaining, q.channels) == Less(Extent(q.fadeRemaining, q.channels), n)
    decreases |q.chunks|, n
  {
    hide *;
    if n == 0 || q.chunks == [] {
      DrainStays(q, n);
    } else {
      var count, q1 := TurnMoves(q, n);
      DrainMoves(q1, n - count);
      DropDrop(Flatten(q.chunks), count, n);
      LessLess(Extent(q.fadeRemaining, q.channels), count, n);
    }
  }

  lemma DrainStays(q: Queue, n: nat)
    requires Fits(q, n) && (n == 0 || q.chunks == [])
    ensures q.channels > 0 && Readable(q.chunks) && Drain(q, n).1 == q
    ensures Flatten(q.chunks) == Drop(Flatten(q.chunks), n)
    ensures Extent(q.fadeRemaining, q.channels) == Less(Extent(q.fadeRemaining, q.channels), n)
  {
  }

  /** A callback, seen from the flattened list and the fade. */
  lemma CallbackMoves(q: Queue, n: nat) returns (rest: nat, q': Queue)
    requires Fits(q, n)
    ensures Valid(q) && q.channels > 0 && Readable(q.chunks)
    ensures rest == n - Min(n, q.lead) && q' == AudioQueue.Callback(q, n).1
    ensures Flatten(q'.chunks) == Drop(Flatten(q.chunks), rest)
    ensures Extent(q'.fadeRemaining, q.channels) == Less(Extent(q.fadeRemaining, q.channels), rest)
  {
    hide *;
    if n == 0 {
      rest, q' := NothingMoves(q);
    } else {
      var silent, q1 := UseLead(q, n);
      rest := n - silent;
      CallbackUnfolds(q, n, silent, q1);
      DrainRenders(q1, rest);
      q' := Drain(q1, rest).1;
      SettleKeeps(q');
      DrainMoves(q1, rest);
    }
  }

  lemma NothingMoves(q: Queue) returns (rest: nat, q': Queue)
    requires Fits(q, 0)
    ensures Valid(q) && q.channels > 0 && Readable(q.chunks)
    ensures rest == 0 == 0 - Min(0, q.lead) && q' == AudioQueue.Callback(q, 0).1
    ensures Flatten(q'.chunks) == Drop(Flatten(q.chunks), 0)
    ensures Extent(q'.fadeRemaining, q.channels) == Less(Extent(q.fadeRemaining, q.channels), 0)
  {
    rest, q' := 0, q;
  }

  lemma MovingConserves(s: Session, s': Session, taken: nat)
    requires Conserved(s) && taken <= |s.pending| && s'.sent == s.sent && s'.discarded == s.discarded
    requires s'.played == s.played + s.pending[..taken] && s'.pending == s.pending[taken..]
    ensures Conserved(s')
  {
    assert s.pending == s.pending[..taken] + s.pending[taken..];
    assert s'.played + s'.pending == s.played + s.pending;
  }

  lemma DropTaken<T>(s: seq<T>, rest: nat, taken: nat)
    requires taken == Min(rest, |s|)
    ensures Drop(s, rest) == s[taken..]
  {
  }

  lemma CallbackHolds(s: Session, n: nat) returns (taken: nat)
    requires Holds(s) && Enabled(s, Callback(n))
    ensures taken == Taken(s, n) <= |s.pending|
    ensures Holds(Next(s, Callback(n)))
    ensures Extent(Next(s, Callback(n)).q.fadeRemaining, s.q.channels)
         == Less(Extent(s.q.fadeRemaining, s.q.channels), taken)
    ensures Next(s, Callback(n)).q.channels == s.q.channels
  {
    taken := Taken(s, n);
    FramesWhole(n, s.q.channels);
    var rest, q' := CallbackMoves(s.q, n);
    CallbackRenders(s.q, n);
    DropTaken(Flatten(s.q.chunks), rest, taken);
    MovedHolds(s, Next(s, Callback(n)), taken);
    FadeInside(s, rest, taken);
  }

  lemma FadeInside(s: Session, rest: nat, taken: nat)
    requires Holds(s) && taken == Min(rest, |s.pending|)
    ensures Less(Extent(s.q.fadeRemaining, s.q.channels), rest) == Less(Extent(s.q.fadeRemaining, s.q.channels), taken)
  {
  }

  lemma MovedHolds(s: Session, s': Session, taken: nat)
    requires Holds(s) && taken <= |s.pending| && s'.sent == s.sent && s'.pending == s.pending[taken..]
    requires Valid(s'.q) && Aligned(s'.q) && Flatten(s'.q.chunks) == Flatten(s.q.chunks)[taken..]
    ensures Holds(s')
  {
  }

  lemma CallbackInv(s: Session, n: nat)
    requires Inv(s) && Enabled(s, Callback(n))
    ensures Inv(Next(s, Callback(n)))
  {
    var s' := Next(s, Callback(n));
    var taken := CallbackHolds(s, n);
    CallbackHeard(s, n);
    hide Holds, Conserved, FadeBounded, Heard, Due, Positions;
    MovingConserves(s, s', taken);
    MovingBoundsFade(s, s', taken);
  }

  lemma MovingBoundsFade(s: Session, s': Session, taken: nat)
    requires FadeBounded(s) && taken <= |s.pending| && s'.sent == s.sent && s'.pending == s.pending[taken..]
    requires s'.mark == s.mark && s'.q.channels == s.q.channels > 0
    requires Extent(s'.q.fadeRemaining, s.q.channels) == Less(Extent(s.q.fadeRemaining, s.q.channels), taken)
    ensures FadeBounded(s')
  {
    if s'.q.fadeRemaining > 0 {
      assert s.q.fadeRemaining > 0;
      forall k | 0 <= k < |s'.pending|
        ensures k < Extent(s'.q.fadeRemaining, s'.q.channels) <==> s'.pending[k] < s'.mark
      {
        assert s'.pending[k] == s.pending[k + taken];
      }
    }
  }

  // -------------------------------------------------- what callbacks write

  lemma LevelWithin(q: Queue, frame: nat)
    requires Valid(q)
    ensures 0.0 <= Level(frame, q.gain, q.fadeRemaining, q.fadeTotal) <= 1.0
  {
    if frame < q.fadeRemaining {
      EnvelopeShape(q.fadeRemaining - frame, q.fadeTotal);
      ProductWithin(q.gain, Envelope(q.fadeRemaining - frame, q.fadeTotal));
    }
  }

  lemma ProductWithin(a: real, b: real)
    requires 0.0 <= a <= 1.0 && 0.0 <= b <= 1.0
    ensures 0.0 <= a * b <= 1.0
  {
    var x := NonNegative(a, b);
    var rest := NonNegative(a, 1.0 - b);
    assert x + rest == a;
  }

  lemma NonNegative(a: real, b: real) returns (x: real)
    requires 0.0 <= a && 0.0 <= b
    ensures x == a * b && 0.0 <= x
  {
    x := a * b;
  }

  /** The unread samples, played through the gain and the fade, are the pending ones at their levels. */
  lemma TonesSound(s: Session)
    requires Holds(s)
    ensures s.q.channels > 0 && AllSound(Tones(s.q), Sounding(s.pending, s.q), s.sent)
  {
    hide Level, FrameOf, Scale;
    var tones, sounds := Tones(s.q), Sounding(s.pending, s.q);
    forall k | 0 <= k < |tones|
      ensures Sounds(tones[k], sounds[k], s.sent)
    {
      LevelWithin(s.q, FrameOf(k, s.q.channels));
    }
  }

  /** What is taken when the sounds may run out. */
  lemma TakenSound(s: Session, m: nat)
    requires Holds(s)
    ensures s.q.channels > 0 && AllSound(Take(Tones(s.q), m), DueAfterLead(s, m), s.sent)
  {
    var taken := Min(m, |s.pending|);
    TonesSound(s);
    hide Tones, Level, FrameOf, Holds;
    var tones, sounds := Tones(s.q), Sounding(s.pending, s.q);
    assert Sounding(s.pending[..taken], s.q) == sounds[..taken];
    RunningOut(tones, sounds, m, taken, s.sent);
  }

  lemma RunningOut(tones: seq<Sample>, sounds: seq<Sound>, m: nat, taken: nat, sent: seq<Sample>)
    requires AllSound(tones, sounds, sent) && taken == Min(m, |sounds|)
    ensures AllSound(Take(tones, m), sounds[..taken] + Silents(m - taken), sent)
  {
    hide Scale;
  }

  lemma SilenceSounds(n: nat, sent: seq<Sample>)
    ensures AllSound(Silence(n), Silents(n), sent)
  {}

  lemma PartsSound(s: Session, m: nat, silent: nat)
    requires Holds(s)
    ensures s.q.channels > 0
    ensures AllSound(Then(Silence(silent), Take(Tones(s.q), m)), Then(Silents(silent), DueAfterLead(s, m)), s.sent)
  {
    hide *;
    SilenceSounds(silent, s.sent);
    TakenSound(s, m);
    AllSoundJoins(Silence(silent), Take(Tones(s.q), m), Silents(silent), DueAfterLead(s, m), s.sent);
  }

  lemma DueUnfolds(s: Session, n: nat)
    requires s.q.channels > 0
    ensures var silent := Min(n, s.q.lead);
            silent <= n && Due(s, n) == Then(Silents(silent), DueAfterLead(s, n - silent))
  {
    hide Silents, DueAfterLead, Then;
  }

  lemma CallbackSplits(q: Queue, n: nat) returns (silent: nat)
    requires Fits(q, n)
    ensures q.channels > 0 && Readable(q.chunks) && silent == Min(n, q.lead) <= n
    ensures AudioQueue.Callback(q, n).0 == Then(Silence(silent), Take(Tones(q), n - silent))
  {
    hide *;
    var q1;
    silent, q1 := UseLead(q, n);
    CallbackRenders(q, n);
    TonesIgnoreLead(q, q1.lead);
  }

  /**
   A callback writes silence for the lead, then exactly the samples it takes from
   the front, each scaled by the level of its frame, then silence.
   */
  lemma CallbackWrites(s: Session, n: nat)
    requires Holds(s) && Enabled(s, Callback(n))
    ensures AllSound(AudioQueue.Callback(s.q, n).0, Due(s, n), s.sent)
  {
    hide *;
    CallbackFits(s, n);
    var silent := CallbackSplits(s.q, n);
    DueUnfolds(s, n);
    PartsSound(s, n - silent, silent);
  }

  lemma CallbackFits(s: Session, n: nat)
    requires Holds(s) && Enabled(s, Callback(n))
    ensures s.q.channels > 0 && Readable(s.q.chunks) && Fits(s.q, n)
    ensures Min(n, s.q.lead) <= n
  {
    FramesWhole(n, s.q.channels);
  }

  lemma {:induction false} PlayedInJoins(a: seq<Sound>, b: seq<Sound>)
    ensures PlayedIn(a + b) == PlayedIn(a) + PlayedIn(b)
  {
    hide PlayedIn, Sound.Positions;
    PlayedInUnfolds(a);
    if a == [] {
      assert a + b == b;
      assert [] + PlayedIn(b) == PlayedIn(b);
    } else {
      PlayedInJoins(a[1..], b);
      assert (a + b)[0] == a[0] && (a + b)[1..] == a[1..] + b;
      PlayedInUnfolds(a + b);
    }
  }

  lemma PlayedInUnfolds(sounds: seq<Sound>)
    ensures sounds == [] ==> PlayedIn(sounds) == []
    ensures sounds != [] ==> PlayedIn(sounds) == sounds[0].Positions() + PlayedIn(sounds[1..])
  {}

  lemma {:induction false} SilencePlaysNothing(sounds: seq<Sound>)
    requires forall j :: 0 <= j < |sounds| ==> sounds[j] == Silent
    ensures PlayedIn(sounds) == []
  {
    if sounds != [] {
      SilencePlaysNothing(sounds[1..]);
    }
  }

  lemma {:induction false} SoundingPlays(sounds: seq<Sound>, positions: seq<nat>)
    requires |sounds| == |positions|
    requires forall k :: 0 <= k < |sounds| ==> sounds[k].Sounded? && sounds[k].position == positions[k]
    ensures PlayedIn(sounds) == positions
  {
    if sounds != [] {
      SoundingPlays(sounds[1..], positions[1..]);
      assert positions == [positions[0]] + positions[1..];
    }
  }

  /** What sounds in a callback are the samples it takes. */
  lemma DuePlays(s: Session, n: nat)
    requires s.q.channels > 0
    ensures PlayedIn(Due(s, n)) == s.pending[..Taken(s, n)]
  {
    var silent, taken := Min(n, s.q.lead), Taken(s, n);
    var lead, tones, rest := Silents(silent), Sounding(s.pending[..taken], s.q), Silents(n - silent - taken);
    SilencePlaysNothing(lead);
    SoundingPlays(tones, s.pending[..taken]);
    SilencePlaysNothing(rest);
    PlayedInJoins(lead, tones + rest);
    PlayedInJoins(tones, rest);
  }

  lemma AllSoundJoins(a: seq<Sample>, b: seq<Sample>, heard: seq<Sound>, due: seq<Sound>, sent: seq<Sample>)
    requires AllSound(a, heard, sent) && AllSound(b, due, sent)
    ensures AllSound(Then(a, b), Then(heard, due), sent)
  {
    hide Sounds;
  }

  lemma CallbackHeard(s: Session, n: nat)
    requires Holds(s) && Heard(s) && Enabled(s, Callback(n))
    ensures Heard(Next(s, Callback(n)))
  {
    CallbackWrites(s, n);
    DuePlays(s, n);
    PlayedInJoins(s.heard, Due(s, n));
    AllSoundJoins(s.emitted, AudioQueue.Callback(s.q, n).0, s.heard, Due(s, n), s.sent);
  }

  lemma StillHeard(s: Session, s': Session)
    requires Heard(s) && s.sent <= s'.sent
    requires s'.emitted == s.emitted && s'.heard == s.heard && s'.played == s.played
    ensures Heard(s')
  {
    hide Scale, PlayedIn;
    forall j | 0 <= j < |s.emitted|
      ensures Sounds(s'.emitted[j], s'.heard[j], s'.sent)
    {
      assert Sounds(s.emitted[j], s.heard[j], s.sent);
    }
  }

  // --------------------------------------------------------------------- play

  lemma {:induction false} FlattenAppend(chunks: seq<Chunk>, c: Chunk)
    requires Readable(chunks) && c.next == 0
    ensures Flatten(chunks + [c]) == Flatten(chunks) + c.samples
  {
    FlattenNothing();
    FlattenFirst(c, []);
    hide Flatten;
    assert [c] + [] == [c];
    if chunks == [] {
      assert [] + [c] == [c];
    } else {
      FlattenAppend(chunks[1..], c);
      assert chunks == [chunks[0]] + chunks[1..];
      assert chunks + [c] == [chunks[0]] + (chunks[1..] + [c]);
      FlattenFirst(chunks[0], chunks[1..]);
      FlattenFirst(chunks[0], chunks[1..] + [c]);
    }
  }

  lemma LeadWhole(period: nat, channels: nat)
    requires channels > 0
    ensures Whole(period * channels * STREAMING_LEAD_PERIODS, channels)
  {
    FramesProduct(period * STREAMING_LEAD_PERIODS, channels);
    ExtentWhole(period * STREAMING_LEAD_PERIODS, channels);
    assert period * channels * STREAMING_LEAD_PERIODS == (period * STREAMING_LEAD_PERIODS) * channels;
  }

  lemma PlayHolds(s: Session, converted: seq<Sample>, streaming: bool, period: nat)
    requires Holds(s) && Enabled(s, Play(converted, streaming, period))
    ensures Holds(Next(s, Play(converted, streaming, period)))
  {
    FramesWhole(|converted|, s.q.channels);
    FlattenAppend(s.q.chunks, Chunk(converted, 0));
    LeadWhole(period, s.q.channels);
    hide Flatten, Whole, Extent;
  }

  lemma PositionsExtend(sent: nat, more: nat)
    ensures Positions(0, sent + more) == Positions(0, sent) + Positions(sent, more)
  {
  }

  lemma PlayInv(s: Session, converted: seq<Sample>, streaming: bool, period: nat)
    requires Inv(s) && Enabled(s, Play(converted, streaming, period))
    ensures Inv(Next(s, Play(converted, streaming, period)))
  {
    var s' := Next(s, Play(converted, streaming, period));
    PlayHolds(s, converted, streaming, period);
    StillHeard(s, s');
    hide Holds, Heard, Conserved, FadeBounded, Positions;
    PlayConserves(s, s', |converted|);
    PlayBoundsFade(s, s', |converted|);
  }

  lemma PlayConserves(s: Session, s': Session, more: nat)
    requires Conserved(s) && |s'.sent| == |s.sent| + more && s'.played == s.played && s'.discarded == s.discarded
    requires s'.pending == s.pending + Positions(|s.sent|, more)
    ensures Conserved(s')
  {
    PositionsExtend(|s.sent|, more);
    PositionsBelow(s);
    assert s'.played + s'.pending == s.played + s.pending + Positions(|s.sent|, more);
  }

  /** What is queued behind a fade was not sent before it. */
  lemma PlayBoundsFade(s: Session, s': Session, more: nat)
    requires Holds(s) && FadeBounded(s) && |s'.sent| == |s.sent| + more && s'.mark == s.mark
    requires s'.pending == s.pending + Positions(|s.sent|, more)
    requires s'.q.fadeRemaining == s.q.fadeRemaining && s'.q.channels == s.q.channels
    ensures FadeBounded(s')
  {
    hide Flatten, Aligned;
  }

  /** Every position that is accounted for has been sent. */
  lemma PositionsBelow(s: Session)
    requires Conserved(s)
    ensures forall i :: 0 <= i < |s.played + s.pending| ==> (s.played + s.pending)[i] < |s.sent|
  {
    forall i | 0 <= i < |s.played + s.pending|
      ensures (s.played + s.pending)[i] < |s.sent|
    {
      var p := (s.played + s.pending)[i];
      assert p in multiset(s.played) + multiset(s.pending) + multiset(s.discarded);
      assert p in multiset(Positions(0, |s.sent|));
    }
  }

  // --------------------------------------------------------------------- stop

  ghost predicate InFrames(chunks: seq<Chunk>, channels: nat) {
    channels > 0 && Unread(chunks) && forall i :: 0 <= i < |chunks| ==> Whole(Available(chunks[i]), channels)
  }

  /** Trimming keeps a prefix of the flattened list. */
  lemma {:induction false} TrimKeepsPrefix(chunks: seq<Chunk>, keep: nat, channels: nat)
    requires InFrames(chunks, channels) && Whole(keep, channels) && keep <= |Flatten(chunks)|
    ensures Flatten(Trim(chunks, keep).0) == Flatten(chunks)[..keep]
    ensures InFrames(Trim(chunks, keep).0, channels)
  {
    hide Flatten;
    FlattenNothing();
    if chunks != [] {
      var c := chunks[0];
      assert chunks == [c] + chunks[1..];
      FlattenFirst(c, chunks[1..]);
      if keep >= Available(c) {
        WholeAdd(Available(c), keep - Available(c), channels);
        TrimKeepsPrefix(chunks[1..], keep - Available(c), channels);
        FlattenFirst(c, Trim(chunks[1..], keep - Available(c)).0);
      } else if keep != 0 {
        var cut := c.(samples := c.samples[..c.next + keep]);
        assert [cut] + [] == [cut];
        FlattenFirst(cut, []);
        assert cut.samples[cut.next..] == Flatten(chunks)[..keep];
      }
    }
  }

  lemma FlattenNothing()
    ensures Flatten([]) == []
  {}

  lemma FlattenFirst(c: Chunk, rest: seq<Chunk>)
    requires c.next <= |c.samples|
    ensures Flatten([c] + rest) == c.samples[c.next..] + Flatten(rest)
  {
    assert ([c] + rest)[1..] == rest;
  }

  /** What stop does to the list and the fade: it keeps some whole frames from the front. */
  lemma StopKeeps(s: Session, fadeOut: bool, frequency: nat)
    requires Holds(s)
    ensures var q' := AudioQueue.Stop(s.q, fadeOut, frequency);
      && Valid(q') && Aligned(q') && q'.channels == s.q.channels && q'.queued <= s.q.queued
      && Flatten(q'.chunks) == Flatten(s.q.chunks)[..q'.queued]
      && (q'.fadeRemaining > 0 ==> q'.queued == Extent(q'.fadeRemaining, q'.channels))
      && (q'.fadeRemaining > 0 && s.q.fadeRemaining > 0 ==> q'.fadeRemaining == s.q.fadeRemaining)
  {
    var q := s.q;
    var frames := if fadeOut && q.queued != 0 && q.fadeRemaining != 0 then q.fadeRemaining
                  else Min(q.queued / q.channels, frequency * FADE_MILLISECONDS / 1000);
    KeepFits(q, frames);
    if fadeOut && q.queued != 0 && frames != 0 {
      TrimKeepsPrefix(q.chunks, frames * q.channels, q.channels);
    }
  }

  lemma KeepFits(q: Queue, frames: nat)
    requires Valid(q) && (frames == q.fadeRemaining || frames <= q.queued / q.channels)
    ensures frames * q.channels == Extent(frames, q.channels) <= q.queued
    ensures Whole(frames * q.channels, q.channels)
  {
    FramesProduct(frames, q.channels);
    ExtentWhole(frames, q.channels);
    Division.Split(q.queued, q.channels);
    if frames <= q.queued / q.channels {
      Division.Monotone(frames, q.queued / q.channels, q.channels);
    }
  }

  lemma StoppingConserves(s: Session, s': Session, kept: nat)
    requires Conserved(s) && kept <= |s.pending| && s'.sent == s.sent && s'.played == s.played
    requires s'.pending == s.pending[..kept] && s'.discarded == s.discarded + s.pending[kept..]
    ensures Conserved(s')
  {
    assert s.pending == s.pending[..kept] + s.pending[kept..];
    assert s.played + s.pending == (s'.played + s'.pending) + s.pending[kept..];
    IncreasingPrefix(s'.played + s'.pending, s.pending[kept..]);
  }

  lemma IncreasingPrefix(p: seq<nat>, rest: seq<nat>)
    requires Increasing(p + rest)
    ensures Increasing(p)
  {
    forall i, j | 0 <= i < j < |p|
      ensures p[i] < p[j]
    {
      assert (p + rest)[i] == p[i] && (p + rest)[j] == p[j];
    }
  }

  lemma StopInv(s: Session, fadeOut: bool, frequency: nat)
    requires Inv(s)
    ensures Enabled(s, Stop(fadeOut, frequency)) && Inv(Next(s, Stop(fadeOut, frequency)))
  {
    StopKeeps(s, fadeOut, frequency);
    var s' := Next(s, Stop(fadeOut, frequency));
    StillHeard(s, s');
    hide Heard;
    StoppingConserves(s, s', |s'.pending|);
    StoppedHolds(s, s');
    StoppedBoundsFade(s, s');
  }

  lemma StoppedHolds(s: Session, s': Session)
    requires Holds(s) && s'.q.queued <= |s.pending| && s'.sent == s.sent && s'.pending == s.pending[..s'.q.queued]
    requires Valid(s'.q) && Aligned(s'.q) && Flatten(s'.q.chunks) == Flatten(s.q.chunks)[..s'.q.queued]
    ensures Holds(s')
  {
  }

  lemma StoppedBoundsFade(s: Session, s': Session)
    requires Holds(s) && FadeBounded(s)
    requires s'.q.queued <= |s.pending| && s'.sent == s.sent && s'.pending == s.pending[..s'.q.queued]
    requires s'.q.channels == s.q.channels
    requires s'.mark == if s.q.fadeRemaining == 0 then |s.sent| else s.mark
    requires s'.q.fadeRemaining > 0 ==> s'.q.queued == Extent(s'.q.fadeRemaining, s'.q.channels)
    requires s'.q.fadeRemaining > 0 && s.q.fadeRemaining > 0 ==> s'.q.fadeRemaining == s.q.fadeRemaining
    ensures FadeBounded(s')
  {
  }

  // --------------------------------------------------------------- whole runs

  lemma StepInv(s: Session, step: Step)
    requires Inv(s) && Enabled(s, step)
    ensures Inv(Next(s, step))
  {
    match step
    case Callback(n) => CallbackInv(s, n);
    case Play(converted, streaming, period) => PlayInv(s, converted, streaming, period);
    case Stop(fadeOut, frequency) => StopInv(s, fadeOut, frequency);
    case SetGain(gain) => StillHeard(s, Next(s, step));
  }

  ghost predicate Leads(s: Session, steps: seq<Step>, s': Session)
    decreases |steps|
  {
    if steps == [] then s == s'
    else Enabled(s, steps[0]) && Leads(Next(s, steps[0]), steps[1..], s')
  }

  lemma {:induction false} LeadsInv(s: Session, steps: seq<Step>, s': Session)
    requires Inv(s) && Leads(s, steps, s')
    ensures Inv(s')
    decreases |steps|
  {
    if steps != [] {
      StepInv(s, steps[0]);
      LeadsInv(Next(s, steps[0]), steps[1..], s');
    }
  }

  lemma OpenInv(channels: nat)
    requires channels > 0
    ensures Inv(Open(channels))
  {
  }

  /**
   In every run the counters agree with the list, no chunk is empty, the fade fits
   in the queue and never meets a lead, every sample sent is played, queued or
   discarded exactly once, and samples are played in the order they were sent.
   What the callbacks have written is silence and exactly the played samples in
   order, each scaled by a level between zero and one.
   */
  lemma EveryRun(channels: nat, steps: seq<Step>, s: Session)
    requires channels > 0 && Leads(Open(channels), steps, s)
    ensures Valid(s.q) && Aligned(s.q)
    ensures s.q.queued == |s.pending| && |s.sent| == |s.played| + |s.pending| + |s.discarded|
    ensures Conserved(s)
    ensures forall k :: 0 <= k < |s.pending| ==>
      s.pending[k] < |s.sent| && Flatten(s.q.chunks)[k] == s.sent[s.pending[k]]
    ensures AllSound(s.emitted, s.heard, s.sent) && PlayedIn(s.heard) == s.played
  {
    OpenInv(channels);
    LeadsInv(Open(channels), steps, s);
    hide AllSound, PlayedIn;
    assert |multiset(s.played) + multiset(s.pending) + multiset(s.discarded)| == |multiset(Positions(0, |s.sent|))|;
  }

  /** Silence for the lead, then exactly the first pending samples through the gain and the fade, then silence. */
  ghost predicate Writes(s: Session, n: nat, taken: nat, output: seq<Sample>) {
    var silent := Min(n, s.q.lead);
    && s.q.channels > 0 && |output| == n && taken == Min(n - silent, |s.pending|)
    && (forall j :: 0 <= j < silent ==> output[j] == 0)
    && (forall k :: 0 <= k < taken ==> s.pending[k] < |s.sent| && output[silent + k] == At(s, k))
    && (forall j :: silent + taken <= j < n ==> output[j] == 0)
  }

  /** How the k-th pending sample sounds. */
  function At(s: Session, k: nat): Sample
    requires s.q.channels > 0 && k < |s.pending| && s.pending[k] < |s.sent|
  {
    Scale(s.sent[s.pending[k]], Level(k / s.q.channels, s.q.gain, s.q.fadeRemaining, s.q.fadeTotal))
  }

  /** In every run, what a callback writes are exactly the samples it moves to those played. */
  lemma EveryCallback(channels: nat, steps: seq<Step>, s: Session, n: nat, s': Session)
    requires channels > 0 && Leads(Open(channels), steps, s) && Enabled(s, Callback(n)) && s' == Next(s, Callback(n))
    ensures s.emitted <= s'.emitted && Writes(s, n, Taken(s, n), s'.emitted[|s.emitted|..])
    ensures Taken(s, n) <= |s.pending| && s'.played == s.played + s.pending[..Taken(s, n)]
  {
    OpenInv(channels);
    LeadsInv(Open(channels), steps, s);
    CallbackWrites(s, n);
    hide Inv, Holds, Sounds, AllSound, Due, Leads, AudioQueue.Callback, At;
    var output := AudioQueue.Callback(s.q, n).0;
    assert s'.emitted[|s.emitted|..] == output;
    WrittenAsDue(s, n, Taken(s, n), output);
  }

  lemma WrittenAsDue(s: Session, n: nat, taken: nat, output: seq<Sample>)
    requires s.q.channels > 0 && AllSound(output, Due(s, n), s.sent) && |output| == n && taken == Taken(s, n)
    ensures Writes(s, n, taken, output)
  {
    var silent := Min(n, s.q.lead);
    hide Scale, Level, FrameOf;
    forall k | 0 <= k < taken
      ensures s.pending[k] < |s.sent| && output[silent + k] == At(s, k)
    {
      FramesQuotient(k, s.q.channels);
      assert Sounds(output[silent + k], Due(s, n)[silent + k], s.sent);
    }
    forall j | 0 <= j < silent || silent + taken <= j < n
      ensures output[j] == 0
    {
      assert Sounds(output[j], Due(s, n)[j], s.sent);
    }
  }

  /** The envelope touches exactly the samples that were sent before the stop that began the fade. */
  lemma FadeTouchesOnlyEarlierSamples(channels: nat, steps: seq<Step>, s: Session, k: nat)
    requires channels > 0 && Leads(Open(channels), steps, s)
    requires s.q.fadeRemaining > 0 && k < |s.pending|
    ensures s.q.channels > 0
    ensures FrameOf(k, s.q.channels) < s.q.fadeRemaining <==> s.pending[k] < s.mark
  {
    OpenInv(channels);
    LeadsInv(Open(channels), steps, s);
    FrameBefore(k, s.q.fadeRemaining, s.q.channels);
  }

  /** A second fading stop drops exactly what was queued since the first and lets the fade go on. */
  lemma SecondStopDropsWhatCameSince(channels: nat, steps: seq<Step>, s: Session, frequency: nat)
    requires channels > 0 && Leads(Open(channels), steps, s) && s.q.fadeRemaining > 0
    ensures Enabled(s, Stop(true, frequency))
    ensures var s' := Next(s, Stop(true, frequency));
      && s'.q.fadeRemaining == s.q.fadeRemaining && s'.q.fadeTotal == s.q.fadeTotal
      && s'.pending <= s.pending
      && (forall k :: 0 <= k < |s'.pending| ==> s.pending[k] < s.mark)
      && (forall k :: |s'.pending| <= k < |s.pending| ==> s.pending[k] >= s.mark)
      && s'.discarded == s.discarded + s.pending[|s'.pending|..]
  {
    OpenInv(channels);
    LeadsInv(Open(channels), steps, s);
    hide Heard, Leads;
    StopInv(s, true, frequency);
    StopKeeps(s, true, frequency);
    FadeQueued(s.q);
  }

  /** A fade in progress has samples to act on. */
  lemma FadeQueued(q: Queue)
    requires Valid(q) && q.fadeRemaining > 0
    ensures q.queued > 0
  {
  }

  // ------------------------------------------------------------ what stop does

  /** How many samples a new fade keeps: 40 milliseconds, or the whole frames that are there. */
  function FadeFrames(queued: nat, channels: nat, frequency: nat): nat
    requires channels > 0
  {
    Min(queued / channels, frequency * 40 / 1000)
  }

  /**
   Stopping at once leaves nothing.  A fading stop keeps exactly the frames of the
   fade, from the front: those of the fade under way, or up to 40 milliseconds.
   Either way there is no lead, and the next stream starts with one.
   */
  lemma StopExactly(q: Queue, fadeOut: bool, frequency: nat)
    requires Valid(q) && Aligned(q)
    ensures var q' := AudioQueue.Stop(q, fadeOut, frequency);
      var frames := if !fadeOut then 0
                    else if q.fadeRemaining > 0 then q.fadeRemaining
                    else FadeFrames(q.queued, q.channels, frequency);
      && frames * q.channels <= |Flatten(q.chunks)|
      && Flatten(q'.chunks) == Flatten(q.chunks)[..frames * q.channels] && q'.queued == frames * q.channels
      && (frames == 0 ==> q'.chunks == [])
      && q'.fadeRemaining == frames
      && q'.fadeTotal == (if fadeOut && q.fadeRemaining > 0 then q.fadeTotal else frames)
      && q'.lead == 0 && q'.needsLead && q'.retired == []
      && q'.channels == q.channels && q'.gain == q.gain
  {
    var frames := if fadeOut && q.queued != 0 && q.fadeRemaining != 0 then q.fadeRemaining
                  else FadeFrames(q.queued, q.channels, frequency);
    KeepFits(q, frames);
    if fadeOut && q.queued != 0 && frames != 0 {
      TrimKeepsPrefix(q.chunks, frames * q.channels, q.channels);
    }
    if q.fadeRemaining > 0 {
      FadeQueued(q);
    }
  }

  /** In every run, stopping at once discards everything pending, and what is heard next is silence. */
  lemma StoppingAtOnceIsSilent(channels: nat, steps: seq<Step>, s: Session, frequency: nat, s': Session, n: nat)
    requires channels > 0 && Leads(Open(channels), steps, s)
    requires Enabled(s, Stop(false, frequency)) && s' == Next(s, Stop(false, frequency))
    ensures s'.pending == [] && s'.discarded == s.discarded + s.pending && s'.played == s.played
    ensures s'.q.chunks == [] && s'.q.queued == 0 && s'.q.fadeRemaining == 0
    ensures s'.q.channels > 0 && AudioQueue.Callback(s'.q, n).0 == Silence(n)
  {
    OpenInv(channels);
    LeadsInv(Open(channels), steps, s);
    StopExactly(s.q, false, frequency);
    assert s.pending[..0] == [] && s.pending[0..] == s.pending;
    SilentWhenEmpty(s'.q, n);
  }

  lemma SilentWhenEmpty(q: Queue, n: nat)
    requires q.channels > 0 && q.chunks == [] && q.lead == 0
    ensures AudioQueue.Callback(q, n).0 == Silence(n)
  {}

  /** In every run, a first fading stop keeps exactly the fade's samples pending and discards the others. */
  lemma FirstFadingStopKeeps(channels: nat, steps: seq<Step>, s: Session, frequency: nat, s': Session)
    requires channels > 0 && Leads(Open(channels), steps, s) && s.q.fadeRemaining == 0
    requires Enabled(s, Stop(true, frequency)) && s' == Next(s, Stop(true, frequency))
    ensures s.q.channels > 0
    ensures var kept := FadeFrames(|s.pending|, s.q.channels, frequency) * s.q.channels;
      && kept <= |s.pending| && s'.pending == s.pending[..kept] && s'.discarded == s.discarded + s.pending[kept..]
      && s'.q.fadeRemaining == s'.q.fadeTotal == FadeFrames(|s.pending|, s.q.channels, frequency)
  {
    OpenInv(channels);
    LeadsInv(Open(channels), steps, s);
    StopExactly(s.q, true, frequency);
  }

  // ----------------------------------------------------- what the other calls do

  /** A run's last step, and the state it was taken in. */
  lemma {:induction false} LastStep(s: Session, steps: seq<Step>, s': Session) returns (before: Session)
    requires Leads(s, steps, s') && steps != []
    ensures Leads(s, steps[..|steps| - 1], before)
    ensures Enabled(before, steps[|steps| - 1]) && s' == Next(before, steps[|steps| - 1])
    decreases |steps|
  {
    hide Enabled, Next;
    if |steps| == 1 {
      before := s;
    } else {
      before := LastStep(Next(s, steps[0]), steps[1..], s');
      assert steps[1..][..|steps| - 2] == steps[..|steps| - 1][1..];
    }
  }

  predicate Streams(step: Step) {
    step.Play? && step.streaming
  }

  lemma NeedsLeadAfter(s: Session, step: Step)
    requires Enabled(s, step) && Valid(s.q) && Aligned(s.q)
    ensures Next(s, step).q.needsLead == (step.Stop? || (s.q.needsLead && !Streams(step)))
  {
    match step
    case Callback(n) =>
      FramesWhole(n, s.q.channels);
      CallbackKeeps(s.q, n);
    case Stop(fadeOut, frequency) => StopExactly(s.q, fadeOut, frequency);
    case _ =>
  }

  lemma {:induction false} DrainKeeps(q: Queue, n: nat)
    requires q.channels > 0 && Readable(q.chunks)
    ensures var q' := Drain(q, n).1; q'.needsLead == q.needsLead && q'.gain == q.gain
    ensures var q' := Drain(q, n).1;
      q.retired <= q'.retired && |q'.retired| + |q'.chunks| == |q.retired| + |q.chunks|
    decreases |q.chunks|, n
  {
    if n > 0 && q.chunks != [] {
      DrainKeeps(TakeFront(q, Min(n, Available(q.chunks[0]))), n - Min(n, Available(q.chunks[0])));
    }
  }

  /** A callback changes neither gain nor mode, and frees no chunk: what it is done with goes behind those retired. */
  lemma CallbackKeeps(q: Queue, n: nat)
    requires q.channels > 0 && Readable(q.chunks)
    ensures var q' := AudioQueue.Callback(q, n).1; q'.needsLead == q.needsLead && q'.gain == q.gain
    ensures var q' := AudioQueue.Callback(q, n).1;
      q.retired <= q'.retired && |q'.retired| + |q'.chunks| == |q.retired| + |q.chunks|
  {
    DrainKeeps(q.(lead := q.lead - Min(n, q.lead)), n - Min(n, q.lead));
  }

  /** In every run a stream still needs a lead exactly when no stream has been played since the last stop. */
  lemma {:induction false} NeedsLeadExactly(channels: nat, steps: seq<Step>, s: Session)
    requires channels > 0 && Leads(Open(channels), steps, s)
    ensures s.q.needsLead
      <==> forall i :: 0 <= i < |steps| && Streams(steps[i]) ==> exists j :: i < j < |steps| && steps[j].Stop?
    decreases |steps|
  {
    if steps != [] {
      var before := LastStep(Open(channels), steps, s);
      var rest, last := steps[..|steps| - 1], steps[|steps| - 1];
      OpenInv(channels);
      LeadsInv(Open(channels), rest, before);
      NeedsLeadExactly(channels, rest, before);
      NeedsLeadAfter(before, last);
      hide Inv, Enabled, Next, Leads, Streams;
      OneMoreStep(steps, before.q.needsLead);
    }
  }

  lemma OneMoreStep(steps: seq<Step>, needed: bool)
    requires steps != []
    requires var rest := steps[..|steps| - 1];
      needed <==> forall i :: 0 <= i < |rest| && Streams(rest[i]) ==> exists j :: i < j < |rest| && rest[j].Stop?
    ensures var last := steps[|steps| - 1];
      (last.Stop? || (needed && !Streams(last)))
      <==> forall i :: 0 <= i < |steps| && Streams(steps[i]) ==> exists j :: i < j < |steps| && steps[j].Stop?
  {
    var rest, last := steps[..|steps| - 1], steps[|steps| - 1];
    assert steps == rest + [last];
    if last.Stop? {
      assert !Streams(last);
      assert steps[|steps| - 1].Stop?;
    } else if Streams(last) {
      assert Streams(steps[|steps| - 1]);
    } else if needed {
      forall i | 0 <= i < |steps| && Streams(steps[i])
        ensures exists j :: i < j < |steps| && steps[j].Stop?
      {
        assert Streams(rest[i]);
        var j :| i < j < |rest| && rest[j].Stop?;
        assert steps[j].Stop?;
      }
    } else {
      var i :| 0 <= i < |rest| && Streams(rest[i]) && forall j :: i < j < |rest| ==> !rest[j].Stop?;
      assert Streams(steps[i]);
      assert forall j :: i < j < |steps| ==> !steps[j].Stop?;
    }
  }

  /**
   In every run, what is played is queued last; three device periods of silence
   come first exactly when a stream starts, nothing is queued and no silence is left.
   */
  lemma PlayExactly(channels: nat, steps: seq<Step>, s: Session, converted: seq<Sample>, streaming: bool, period: nat,
                    s': Session)
    requires channels > 0 && Leads(Open(channels), steps, s)
    requires Enabled(s, Play(converted, streaming, period)) && s' == Next(s, Play(converted, streaming, period))
    ensures var starts := streaming
              && forall i :: 0 <= i < |steps| && Streams(steps[i]) ==> exists j :: i < j < |steps| && steps[j].Stop?;
      s'.q.lead == if starts && s.pending == [] && s.q.lead == 0 then 3 * period * s.q.channels else s.q.lead
    ensures s'.sent == s.sent + converted && s'.pending == s.pending + Positions(|s.sent|, |converted|)
    ensures Flatten(s'.q.chunks) == Flatten(s.q.chunks) + converted
    ensures s'.q.fadeRemaining == s.q.fadeRemaining && s'.q.fadeTotal == s.q.fadeTotal && s'.q.retired == []
  {
    OpenInv(channels);
    LeadsInv(Open(channels), steps, s);
    NeedsLeadExactly(channels, steps, s);
    FlattenAppend(s.q.chunks, Chunk(converted, 0));
    hide Streams, Leads;
    ThreePeriods(period, s.q.channels);
  }

  lemma ThreePeriods(period: nat, channels: nat)
    ensures period * channels * STREAMING_LEAD_PERIODS == 3 * period * channels
  {}

  lemma GainAfter(s: Session, step: Step)
    requires Enabled(s, step) && Valid(s.q) && Aligned(s.q)
    ensures !step.SetGain? ==> Next(s, step).q.gain == s.q.gain
    ensures step.SetGain? ==> IsClamped(Next(s, step).q.gain, step.gain)
  {
    match step
    case Callback(n) => CallbackKeeps(s.q, n);
    case Stop(fadeOut, frequency) => StopExactly(s.q, fadeOut, frequency);
    case _ =>
  }

  /** The nearest value between zero and one. */
  predicate IsClamped(gain: real, asked: real) {
    0.0 <= gain <= 1.0 && (gain == asked || (gain == 0.0 && asked < 0.0) || (gain == 1.0 && asked > 1.0))
  }

  /** In every run the gain is the one last set, brought between zero and one; at first it is one. */
  lemma {:induction false} GainExactly(channels: nat, steps: seq<Step>, s: Session)
    requires channels > 0 && Leads(Open(channels), steps, s)
    ensures forall i :: 0 <= i < |steps| && steps[i].SetGain? && (forall j :: i < j < |steps| ==> !steps[j].SetGain?)
              ==> IsClamped(s.q.gain, steps[i].gain)
    ensures (forall i :: 0 <= i < |steps| ==> !steps[i].SetGain?) ==> s.q.gain == 1.0
    decreases |steps|
  {
    hide *;
    if steps == [] {
      GainAtFirst(channels, s);
    } else {
      var before := LastStep(Open(channels), steps, s);
      var rest, last := steps[..|steps| - 1], steps[|steps| - 1];
      OpenInv(channels);
      LeadsInv(Open(channels), rest, before);
      QueueInOrder(before);
      GainExactly(channels, rest, before);
      GainAfter(before, last);
      assert forall i :: 0 <= i < |rest| ==> rest[i] == steps[i];
    }
  }

  lemma GainAtFirst(channels: nat, s: Session)
    requires Leads(Open(channels), [], s)
    ensures s.q.gain == 1.0
  {}

  lemma QueueInOrder(s: Session)
    requires Inv(s)
    ensures Valid(s.q) && Aligned(s.q)
  {}
}
