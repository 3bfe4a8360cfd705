/**
 The callback refines a stream: what it plays depends only on the unread samples
 in order, the lead, the fade and the gain, and not on the chunks or on how
 playback is cut into callbacks.
 */
module AudioPlayback {
  import opened AudioQueue
  import Division

  /** What the unread samples will sound like if no producer call intervenes. */
  function TonesOf(pending: seq<Sample>, channels: nat, gain: real, fade: nat, total: nat): (tones: seq<Sample>)
    requires channels > 0
    ensures |tones| == |pending|
    ensures forall j {:trigger tones[j]} :: 0 <= j < |pending| ==>
      tones[j] == Scale(pending[j], Level(FrameOf(j, channels), gain, fade, total))
  {
    seq(|pending|, j requires 0 <= j < |pending| =>
      Scale(pending[j], Level(FrameOf(j, channels), gain, fade, total)))
  }

  function Tones(q: Queue): seq<Sample>
    requires q.channels > 0
  {
    TonesOf(Flatten(q.chunks), q.channels, q.gain, q.fadeRemaining, q.fadeTotal)
  }

  /** The stream: silence for the lead, then the tones. */
  function Stream(q: Queue): seq<Sample>
    requires q.channels > 0
  {
    Then(Silence(q.lead), Tones(q))
  }

  /** The first n samples of a stream that goes on in silence. */
  function Take(s: seq<Sample>, n: nat): seq<Sample> {
    if n <= |s| then s[..n] else s + Silence(n - |s|)
  }

  function Drop<T>(s: seq<T>, n: nat): seq<T> {
    if n <= |s| then s[n..] else []
  }

  /** One stretch of sound after another. */
  function Then<T>(first: seq<T>, second: seq<T>): seq<T> {
    first + second
  }

  /** Callbacks take whole frames, or no fade is in progress. */
  ghost predicate Fits(q: Queue, n: nat) {
    Valid(q) && ((Aligned(q) && Whole(n, q.channels)) || q.fadeRemaining == 0)
  }

  lemma TakeSplit(s: seq<Sample>, m: nat, n: nat)
    requires m <= n
    ensures Take(s, n) == Then(Take(s, m), Take(Drop(s, m), n - m))
    ensures Drop(s, n) == Drop(Drop(s, m), n - m)
  {
    if m <= |s| {
      TakeSplitInside(s, m, n);
    } else {
      assert s + Silence(n - |s|) == s + Silence(m - |s|) + Silence(n - m);
    }
  }

  lemma TakeSplitInside(s: seq<Sample>, m: nat, n: nat)
    requires m <= n && m <= |s|
    ensures Take(s, n) == Then(s[..m], Take(s[m..], n - m))
    ensures Drop(s, n) == Drop(s[m..], n - m)
  {
    if n <= |s| {
      assert s[..n] == s[..m] + s[m..][..n - m];
    } else {
      assert s + Silence(n - |s|) == s[..m] + (s[m..] + Silence(n - |s|));
    }
  }

  // ------------------------------------------------------------ one list chunk

  /** The two ways the callback tells which samples of a chunk are faded agree. */
  lemma FadeBoundary(i: nat, count: nat, fade: nat, channels: nat)
    requires channels > 0 && i < count
    requires Whole(count, channels) || fade == 0
    ensures i / channels == FrameOf(i, channels)
    ensures i < FadeSamples(count, fade, channels) <==> FrameOf(i, channels) < fade
  {
    hide FrameOf, Extent, Whole;
    var fadeFrames := Min(fade, count / channels);
    FramesQuotient(i, channels);
    FramesQuotient(count, channels);
    FramesProduct(fadeFrames, channels);
    FrameBefore(i, fadeFrames, channels);
    if fade > 0 {
      WholeAdd(count, 0, channels);
      FrameBefore(i, FrameOf(count, channels), channels);
    }
  }

  /** Within one chunk the callback's two loops play the stream's tones. */
  lemma PlayOneIsTone(sample: Sample, i: nat, count: nat, q: Queue)
    requires q.channels > 0 && i < count
    requires Whole(count, q.channels) || q.fadeRemaining == 0
    ensures PlayOne(sample, i, count, q)
         == Scale(sample, Level(FrameOf(i, q.channels), q.gain, q.fadeRemaining, q.fadeTotal))
  {
    FullGainIsIdentity(sample);
    FadeBoundary(i, count, q.fadeRemaining, q.channels);
    PlayOneLevel(sample, i, count, q, FrameOf(i, q.channels));
  }

  lemma PlayOneLevel(sample: Sample, i: nat, count: nat, q: Queue, frame: nat)
    requires q.channels > 0 && frame == i / q.channels
    requires i < FadeSamples(count, q.fadeRemaining, q.channels) <==> frame < q.fadeRemaining
    requires Scale(sample, 1.0) == sample
    ensures PlayOne(sample, i, count, q) == Scale(sample, Level(frame, q.gain, q.fadeRemaining, q.fadeTotal))
  {
    hide FadeSamples;
  }

  lemma PlayChunkRenders(q: Queue, count: nat)
    requires q.channels > 0 && count <= |Flatten(q.chunks)|
    requires Whole(count, q.channels) || q.fadeRemaining == 0
    ensures PlayChunk(Flatten(q.chunks)[..count], q) == Tones(q)[..count]
  {
    hide PlayOne, Level;
    var pending := Flatten(q.chunks);
    forall j | 0 <= j < count
      ensures PlayChunk(pending[..count], q)[j] == Tones(q)[j]
    {
      PlayOneIsTone(pending[j], j, count, q);
    }
  }

  /** Taking samples from the front chunk takes them from the flattened queue. */
  lemma TakeFrontFlattens(q: Queue, count: nat)
    requires q.channels > 0 && q.chunks != [] && Unread(q.chunks) && count <= Available(q.chunks[0])
    ensures Unread(TakeFront(q, count).chunks)
    ensures count <= |Flatten(q.chunks)|
    ensures Flatten(TakeFront(q, count).chunks) == Flatten(q.chunks)[count..]
  {
    var c := q.chunks[0];
    var rest := Flatten(q.chunks[1..]);
    if c.next + count == |c.samples| {
      assert Flatten(q.chunks)[count..] == rest;
    } else {
      assert q.chunks[0 := c.(next := c.next + count)][1..] == q.chunks[1..];
      assert Flatten(q.chunks)[count..] == c.samples[c.next + count..] + rest;
    }
  }

  /** The fade still fits in the queue after some of both is gone. */
  lemma FadeFits(fade: nat, channels: nat, queued: nat, count: nat)
    requires channels > 0 && Extent(fade, channels) <= queued && count <= queued
    requires Whole(count, channels) || fade == 0
    ensures Extent(fade - Min(fade, FrameOf(count, channels)), channels) <= queued - count
  {
    if fade > 0 {
      WholeAdd(count, 0, channels);
      ExtentOrder(Min(fade, FrameOf(count, channels)), fade, channels);
    }
  }

  lemma TakeFrontValid(q: Queue, count: nat)
    requires Valid(q) && q.chunks != [] && count <= Available(q.chunks[0])
    requires Whole(count, q.channels) || q.fadeRemaining == 0
    ensures Valid(TakeFront(q, count))
  {
    TakeFrontFlattens(q, count);
    FramesQuotient(count, q.channels);
    FadeFits(q.fadeRemaining, q.channels, q.queued, count);
  }

  lemma TakeFrontAligned(q: Queue, count: nat)
    requires Aligned(q) && q.chunks != [] && count <= Available(q.chunks[0]) && Whole(count, q.channels)
    ensures Aligned(TakeFront(q, count))
  {
    WholeAdd(count, Available(q.chunks[0]) - count, q.channels);
    TakeFrontChunks(q, count);
    hide TakeFront;
    var chunks' := TakeFront(q, count).chunks;
    forall i | 0 <= i < |chunks'|
      ensures Whole(Available(chunks'[i]), q.channels)
    {
      if |chunks'| < |q.chunks| {
        assert chunks'[i] == q.chunks[i + 1];
      } else if i > 0 {
        assert chunks'[i] == q.chunks[i];
      }
    }
  }

  lemma TakeFrontChunks(q: Queue, count: nat)
    requires q.channels > 0 && q.chunks != [] && count <= Available(q.chunks[0])
    ensures var q', c := TakeFront(q, count), q.chunks[0];
      && q'.channels == q.channels && q'.lead == q.lead
      && q'.chunks == if count == Available(c) then q.chunks[1..] else q.chunks[0 := c.(next := c.next + count)]
  {
  }

  /** The fade left over after so many samples. */
  ghost predicate FadeAfter(count: nat, channels: nat, fade: nat, total: nat, fade': nat, total': nat)
    requires channels > 0
  {
    && (Whole(count, channels) || (fade == 0 && total == 0))
    && fade' == fade - Min(fade, FrameOf(count, channels))
    && total' == (if fade' == 0 then 0 else total)
  }

  lemma LevelShift(count: nat, j: nat, channels: nat, gain: real, fade: nat, total: nat, fade': nat, total': nat)
    requires channels > 0 && FadeAfter(count, channels, fade, total, fade', total')
    ensures Level(FrameOf(j, channels), gain, fade', total') == Level(FrameOf(j + count, channels), gain, fade, total)
  {
    if Whole(count, channels) {
      WholeAdd(count, j, channels);
    }
  }

  lemma TonesShift(pending: seq<Sample>, count: nat, channels: nat, gain: real,
                   fade: nat, total: nat, fade': nat, total': nat)
    requires channels > 0 && count <= |pending| && FadeAfter(count, channels, fade, total, fade', total')
    ensures TonesOf(pending[count..], channels, gain, fade', total')
         == TonesOf(pending, channels, gain, fade, total)[count..]
  {
    var after := TonesOf(pending[count..], channels, gain, fade', total');
    hide *;
    forall j | 0 <= j < |pending| - count
      ensures after[j] == TonesOf(pending, channels, gain, fade, total)[j + count]
    {
      LevelShift(count, j, channels, gain, fade, total, fade', total');
    }
  }

  /** One turn's effect on the fade, in frames. */
  lemma TakeFrontFade(q: Queue, count: nat)
    requires Valid(q) && q.chunks != [] && count <= Available(q.chunks[0])
    requires Whole(count, q.channels) || q.fadeRemaining == 0
    ensures var q' := TakeFront(q, count);
      && FadeAfter(count, q.channels, q.fadeRemaining, q.fadeTotal, q'.fadeRemaining, q'.fadeTotal)
      && q'.gain == q.gain && q'.channels == q.channels && q'.lead == q.lead
  {
    FramesQuotient(count, q.channels);
  }

  /** After the front samples are gone the rest of the stream has moved up by as many. */
  lemma TakeFrontShifts(q: Queue, count: nat)
    requires Valid(q) && q.chunks != [] && count <= Available(q.chunks[0])
    requires Whole(count, q.channels) || q.fadeRemaining == 0
    ensures count <= |Tones(q)| && Tones(TakeFront(q, count)) == Tones(q)[count..]
  {
    var q' := TakeFront(q, count);
    TakeFrontFlattens(q, count);
    TakeFrontFade(q, count);
    TonesShift(Flatten(q.chunks), count, q.channels, q.gain, q.fadeRemaining, q.fadeTotal,
               q'.fadeRemaining, q'.fadeTotal);
  }

  // ----------------------------------------------------------------- the loop

  lemma DrainUnfolds(q: Queue, n: nat, count: nat, q1: Queue)
    requires q.channels > 0 && Unread(q.chunks) && q.chunks != []
    requires 0 < n && count == Min(n, Available(q.chunks[0]))
    requires q1 == TakeFront(q, count) && Unread(q1.chunks)
    ensures count <= |Flatten(q.chunks)|
    ensures Drain(q, n).0 == Then(PlayChunk(Flatten(q.chunks)[..count], q), Drain(q1, n - count).0)
    ensures Drain(q, n).1 == Drain(q1, n - count).1
  {
    hide PlayChunk, TakeFront, Flatten;
    FrontSamples(q.chunks, count);
  }

  lemma FrontSamples(chunks: seq<Chunk>, count: nat)
    requires chunks != [] && Unread(chunks) && count <= Available(chunks[0])
    ensures count <= |Flatten(chunks)|
    ensures chunks[0].samples[chunks[0].next..chunks[0].next + count] == Flatten(chunks)[..count]
  {
  }

  /** One turn of the loop keeps the queue in good order and plays the next tones. */
  lemma TurnRenders(q: Queue, n: nat) returns (count: nat, q1: Queue)
    requires Fits(q, n) && n > 0 && q.chunks != []
    ensures 0 < count <= n && q1.channels == q.channels > 0 && q1.lead == q.lead
    ensures Fits(q1, n - count) && Unread(q1.chunks)
    ensures Aligned(q) && Whole(n, q.channels) ==> Aligned(q1) && Whole(n - count, q.channels)
    ensures |q1.chunks| < |q.chunks| || (|q1.chunks| == |q.chunks| && n - count < n)
    ensures Drain(q, n).0 == Then(Take(Tones(q), count), Drain(q1, n - count).0)
    ensures Drain(q, n).1 == Drain(q1, n - count).1
    ensures Tones(q1) == Drop(Tones(q), count)
  {
    count := Min(n, Available(q.chunks[0]));
    q1 := TakeFront(q, count);
    TurnFits(q, n, count, q1);
    SliceOf(Tones(q), count);
    hide *;
    DrainUnfolds(q, n, count, q1);
    TakeFrontShifts(q, count);
    PlayChunkRenders(q, count);
  }

  lemma SliceOf(s: seq<Sample>, n: nat)
    ensures n <= |s| ==> Take(s, n) == s[..n] && Drop(s, n) == s[n..]
  {
  }

  lemma TurnFits(q: Queue, n: nat, count: nat, q1: Queue)
    requires Fits(q, n) && n > 0 && q.chunks != []
    requires count == Min(n, Available(q.chunks[0])) && q1 == TakeFront(q, count)
    ensures Valid(q) && Unread(q.chunks) && 0 < count <= n && count <= Available(q.chunks[0])
    ensures Whole(count, q.channels) || q.fadeRemaining == 0
    ensures Fits(q1, n - count) && Unread(q1.chunks) && q1.channels == q.channels && q1.lead == q.lead
    ensures Aligned(q) && Whole(n, q.channels) ==> Aligned(q1) && Whole(n - count, q.channels)
    ensures |q1.chunks| < |q.chunks| || (|q1.chunks| == |q.chunks| && n - count < n)
  {
    if Aligned(q) && Whole(n, q.channels) {
      WholeAdd(count, n - count, q.channels);
      TakeFrontAligned(q, count);
    }
    TakeFrontValid(q, count);
  }

  lemma DrainEnds(q: Queue, n: nat)
    requires Fits(q, n) && (n == 0 || q.chunks == [])
    ensures Valid(q)
    ensures Drain(q, n).0 == Take(Tones(q), n) && Drain(q, n).1 == q && Drop(Tones(q), n) == Tones(q)
  {
    if q.chunks == [] {
      assert Tones(q) == [];
    }
  }

  /** The loop plays the next n tones and leaves the others. */
  lemma {:induction false} DrainRenders(q: Queue, n: nat)
    requires Fits(q, n)
    ensures Drain(q, n).0 == Take(Tones(q), n)
    ensures Drain(q, n).1.channels == q.channels && Drain(q, n).1.lead == q.lead
    ensures Tones(Drain(q, n).1) == Drop(Tones(q), n)
    ensures Valid(Drain(q, n).1)
    ensures Aligned(q) && Whole(n, q.channels) ==> Aligned(Drain(q, n).1)
    decreases |q.chunks|, n
  {
    hide *;
    if n == 0 || q.chunks == [] {
      DrainEnds(q, n);
    } else {
      var count, q1 := TurnRenders(q, n);
      DrainRenders(q1, n - count);
      TakeSplit(Tones(q), count, n);
    }
  }

  // ------------------------------------------------------------- the callback

  /** The callback's first part: some of the lead silence is used up. */
  lemma UseLead(q: Queue, n: nat) returns (silent: nat, q1: Queue)
    requires Fits(q, n)
    ensures silent == Min(n, q.lead) <= q.lead && silent <= n && q1 == q.(lead := q.lead - silent)
    ensures Valid(q) && q.channels > 0 && Readable(q.chunks) && Readable(q1.chunks)
    ensures Fits(q1, n - silent)
    ensures Aligned(q) && Whole(n, q.channels) ==> Aligned(q1) && Whole(n - silent, q.channels)
    ensures Take(Stream(q), n) == Then(Silence(silent), Take(Tones(q1), n - silent))
    ensures silent < n ==> q1.lead == 0
    ensures Drop(Stream(q), n) == Then(Silence(q1.lead), Drop(Tones(q1), n - silent))
  {
    silent := Min(n, q.lead);
    q1 := q.(lead := q.lead - silent);
    UseLeadFits(q, n, silent, q1);
    TonesIgnoreLead(q, q1.lead);
    StreamOf(q);
    LeadLeft(n, q.lead);
    hide *;
    StreamSplit(q.lead, Tones(q), n, silent);
  }

  lemma LeadLeft(n: nat, lead: nat)
    ensures Min(n, lead) < n ==> Min(n, lead) == lead
  {
  }

  lemma TonesIgnoreLead(q: Queue, lead: nat)
    requires q.channels > 0
    ensures Tones(q.(lead := lead)) == Tones(q)
  {
  }

  lemma UseLeadFits(q: Queue, n: nat, silent: nat, q1: Queue)
    requires Fits(q, n) && silent == Min(n, q.lead) && q1 == q.(lead := q.lead - silent)
    ensures Valid(q) && Unread(q.chunks) && silent <= n && Fits(q1, n - silent)
    ensures Aligned(q) && Whole(n, q.channels) ==> Aligned(q1) && Whole(n - silent, q.channels)
  {
    if Aligned(q) && Whole(n, q.channels) {
      WholeAdd(silent, q.lead - silent, q.channels);
      WholeAdd(silent, n - silent, q.channels);
    }
  }

  lemma StreamSplit(lead: nat, tones: seq<Sample>, n: nat, silent: nat)
    requires silent == Min(n, lead)
    ensures Take(Then(Silence(lead), tones), n) == Then(Silence(silent), Take(tones, n - silent))
    ensures Drop(Then(Silence(lead), tones), n) == Then(Silence(lead - silent), Drop(tones, n - silent))
  {
  }

  /** Emptying the queue resets the fade, which Valid already implies. */
  lemma SettleKeeps(q: Queue)
    requires Valid(q)
    ensures Settle(q) == q
  {
  }

  lemma CallbackUnfolds(q: Queue, n: nat, silent: nat, q1: Queue)
    requires q.channels > 0 && Readable(q.chunks) && n > 0
    requires silent == Min(n, q.lead) && q1 == q.(lead := q.lead - silent)
    ensures Callback(q, n).0 == Then(Silence(silent), Drain(q1, n - silent).0)
    ensures Callback(q, n).1 == Settle(Drain(q1, n - silent).1)
  {
    hide Drain, Settle, Silence;
  }

  lemma CallbackNothing(q: Queue)
    requires Fits(q, 0)
    ensures Valid(q) && Callback(q, 0) == ([], q) && Take(Stream(q), 0) == [] && Drop(Stream(q), 0) == Stream(q)
  {
  }

  lemma StreamOf(q: Queue)
    requires q.channels > 0
    ensures Stream(q) == Then(Silence(q.lead), Tones(q))
  {
  }

  /** Every callback plays the next n samples of the stream and leaves the others. */
  lemma CallbackRenders(q: Queue, n: nat)
    requires Fits(q, n)
    ensures Callback(q, n).0 == Take(Stream(q), n)
    ensures Callback(q, n).1.channels == q.channels
    ensures Stream(Callback(q, n).1) == Drop(Stream(q), n)
    ensures Valid(Callback(q, n).1)
    ensures Aligned(q) && Whole(n, q.channels) ==> Aligned(Callback(q, n).1)
  {
    hide *;
    if n == 0 {
      CallbackNothing(q);
    } else {
      var silent, q1 := UseLead(q, n);
      CallbackUnfolds(q, n, silent, q1);
      DrainRenders(q1, n - silent);
      SettleKeeps(Drain(q1, n - silent).1);
      StreamOf(Callback(q, n).1);
    }
  }

  // ------------------------------------------------------- cutting up playback

  /** Successive callbacks with nothing else in between. */
  ghost predicate PlaysAll(q: Queue, sizes: seq<nat>, output: seq<Sample>, q': Queue)
    decreases |sizes|
  {
    if sizes == [] then output == [] && q' == q
    else
      && q.channels > 0 && Readable(q.chunks) && sizes[0] <= |output|
      && output[..sizes[0]] == Callback(q, sizes[0]).0
      && PlaysAll(Callback(q, sizes[0]).1, sizes[1..], output[sizes[0]..], q')
  }

  function Sum(sizes: seq<nat>): nat {
    if sizes == [] then 0 else sizes[0] + Sum(sizes[1..])
  }

  ghost predicate WholeFrames(sizes: seq<nat>, channels: nat)
    requires channels > 0
  {
    forall i :: 0 <= i < |sizes| ==> sizes[i] % channels == 0
  }

  /**
   However playback is cut into callbacks of whole frames, the listener hears the
   same samples as from one callback: silence for the lead, then the unread
   samples in order through the gain and the fade, then silence.
   */
  lemma {:induction false} CuttingUpPlaybackChangesNothing(
      q: Queue, sizes: seq<nat>, output: seq<Sample>, q': Queue)
    requires Valid(q) && Aligned(q) && PlaysAll(q, sizes, output, q') && WholeFrames(sizes, q.channels)
    ensures Readable(q.chunks) && output == Take(Stream(q), Sum(sizes)) == Callback(q, Sum(sizes)).0
    ensures Valid(q') && Aligned(q') && q'.channels > 0 && Stream(q') == Drop(Stream(q), Sum(sizes))
    decreases |sizes|
  {
    hide *;
    if sizes == [] {
      PlayedNothing(q, output, q');
    } else {
      var m, k, q1 := FirstCallback(q, sizes, output, q');
      CallbackRenders(q, m);
      CuttingUpPlaybackChangesNothing(q1, sizes[1..], output[m..], q');
      TakeSplit(Stream(q), m, k);
      CallbackRenders(q, k);
    }
  }

  lemma PlayedNothing(q: Queue, output: seq<Sample>, q': Queue)
    requires Valid(q) && PlaysAll(q, [], output, q')
    ensures q.channels > 0 && Readable(q.chunks) && Sum([]) == 0 && q' == q
    ensures output == Take(Stream(q), 0) == Callback(q, 0).0 && Drop(Stream(q), 0) == Stream(q)
  {
  }

  lemma FirstCallback(q: Queue, sizes: seq<nat>, output: seq<Sample>, q': Queue) returns (m: nat, k: nat, q1: Queue)
    requires Valid(q) && Aligned(q) && PlaysAll(q, sizes, output, q') && WholeFrames(sizes, q.channels)
    requires sizes != []
    ensures q.channels > 0 && Readable(q.chunks) && m == sizes[0] <= |output|
    ensures k == Sum(sizes) && k - m == Sum(sizes[1..]) && Fits(q, m) && Fits(q, k) && Whole(m, q.channels)
    ensures q1 == Callback(q, m).1 && q1.channels == q.channels && Valid(q1) && Aligned(q1)
    ensures output == Then(Callback(q, m).0, output[m..])
    ensures PlaysAll(q1, sizes[1..], output[m..], q') && WholeFrames(sizes[1..], q1.channels)
  {
    m, k := sizes[0], Sum(sizes);
    q1 := Callback(q, m).1;
    FramesWhole(m, q.channels);
    SumWhole(sizes, q.channels);
    CallbackRenders(q, m);
  }

  lemma {:induction false} SumWhole(sizes: seq<nat>, channels: nat)
    requires channels > 0 && WholeFrames(sizes, channels)
    ensures Whole(Sum(sizes), channels)
  {
    if sizes != [] {
      SumWhole(sizes[1..], channels);
      FramesWhole(sizes[0], channels);
      WholeAdd(sizes[0], Sum(sizes[1..]), channels);
    }
  }

  // -------------------------------------------------------- why whole frames

  /** One chunk that is all fade: the fade's last frame is number m / channels. */
  function AllFading(channels: nat, m: nat): Queue
    requires channels > 0
  {
    var frames := FrameOf(m, channels) + 1;
    Queue([Chunk(seq(Extent(frames, channels), _ => 1000), 0)], [], Extent(frames, channels), channels,
          0, false, frames, frames, 1.0)
  }

  lemma AllFadingValid(channels: nat, m: nat)
    requires channels > 0
    ensures Valid(AllFading(channels, m)) && Aligned(AllFading(channels, m))
    ensures m < |Flatten(AllFading(channels, m).chunks)|
  {
    var frames := FrameOf(m, channels) + 1;
    FrameBefore(m, frames, channels);
    ExtentWhole(frames, channels);
  }

  lemma {:induction false} ExtentWhole(frames: nat, channels: nat)
    requires channels > 0
    ensures Whole(Extent(frames, channels), channels) && FrameOf(Extent(frames, channels), channels) == frames
  {
    if frames > 0 {
      ExtentWhole(frames - 1, channels);
    }
  }

  /** The frame that m ends in starts at i, before m, and is the first the fade loop leaves out. */
  lemma PartialFrame(channels: nat, m: nat, i: nat)
    requires channels > 0 && m % channels != 0 && i == Extent(FrameOf(m, channels), channels)
    ensures i < m && FrameOf(i, channels) == FrameOf(m, channels)
    ensures FadeSamples(m, FrameOf(m, channels) + 1, channels) == i
  {
    var a := FrameOf(m, channels);
    ExtentWhole(a, channels);
    FramesQuotient(m, channels);
    FramesProduct(a, channels);
    Division.Split(m, channels);
  }

  /** A callback that ends inside a frame skips the fade of the samples it takes from that frame. */
  lemma PartialFrameUnfaded(channels: nat, m: nat, i: nat)
    requires channels > 0 && m % channels != 0 && i == Extent(FrameOf(m, channels), channels)
    ensures var q := AllFading(channels, m);
      i < m && i < |Tones(q)| && PlayOne(1000, i, m, q) == 1000 && Tones(q)[i] == 0
  {
    hide FadeSamples, Extent, FrameOf;
    AllFadingValid(channels, m);
    PartialFrame(channels, m, i);
    LastFrameSilent(FrameOf(m, channels));
  }

  lemma LastFrameSilent(a: nat)
    ensures Scale(1000, Level(a, 1.0, a + 1, a + 1)) == 0
  {
    EnvelopeShape(1, a + 1);
    assert Level(a, 1.0, a + 1, a + 1) == 0.0;
    assert Scale(1000, 0.0) == 0;
  }

  /** A callback that stays within the front chunk. */
  lemma CallbackInFront(q: Queue, m: nat, i: nat)
    requires q.channels > 0 && q.lead == 0 && q.chunks != [] && Unread(q.chunks)
    requires i < m <= Available(q.chunks[0])
    ensures Callback(q, m).0[i] == PlayOne(q.chunks[0].samples[q.chunks[0].next + i], i, m, q)
  {
    hide PlayOne, TakeFront;
    TakeFrontFlattens(q, m);
  }

  lemma PartialFrameDiffers(channels: nat, m: nat)
    requires channels > 0 && m % channels != 0
    ensures var q := AllFading(channels, m);
      Valid(q) && Aligned(q) && q.channels == channels && Callback(q, m).0 != Take(Stream(q), m)
  {
    var q, i := AllFading(channels, m), Extent(FrameOf(m, channels), channels);
    AllFadingValid(channels, m);
    PartialFrameUnfaded(channels, m, i);
    hide PlayOne, Callback, TonesOf, Level, Scale, FrameOf, Extent;
    CallbackInFront(q, m, i);
    assert Stream(q) == Tones(q);
    assert Take(Stream(q), m)[i] == 0;
  }

  /**
   Callbacks of m samples play the stream from every queue in good order exactly
   when m is a whole number of frames.
   */
  lemma WholeFramesExactly(channels: nat, m: nat)
    requires channels > 0
    ensures (forall q | Valid(q) && Aligned(q) && q.channels == channels :: Callback(q, m).0 == Take(Stream(q), m))
      <==> m % channels == 0
  {
    if m % channels == 0 {
      forall q | Valid(q) && Aligned(q) && q.channels == channels
        ensures Callback(q, m).0 == Take(Stream(q), m)
      {
        FramesWhole(m, channels);
        CallbackRenders(q, m);
      }
    } else {
      PartialFrameDiffers(channels, m);
    }
  }
}
