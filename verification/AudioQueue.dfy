/**
 The PCM queue behind SdlAudioSink: the chunk list, the lead silence, the fade
 and the counters, as values.  Every function follows one locked region of the
 sink; AudioSink.dfy runs the same regions in place.
 */
module AudioQueue {
  import Division

  type Sample = x: int | -32768 <= x <= 32767

  datatype Chunk = Chunk(samples: seq<Sample>, next: nat)

  datatype Queue = Queue(
    chunks: seq<Chunk>,
    retired: seq<Chunk>,  // spliced out by the callback, freed by the next producer call
    queued: nat,
    channels: nat,
    lead: nat,
    needsLead: bool,
    fadeRemaining: nat,
    fadeTotal: nat,
    gain: real)

  const STREAMING_LEAD_PERIODS: nat := 3
  const FADE_MILLISECONDS: nat := 40

  function Min(a: nat, b: nat): nat {
    if a <= b then a else b
  }

  function Silence(n: nat): (s: seq<Sample>)
    ensures |s| == n && forall i :: 0 <= i < n ==> s[i] == 0
  {
    seq(n, _ => 0)
  }

  // ------------------------------------------------------------------ scaling

  /** std::lround: to nearest, halves away from zero. */
  function Round(x: real): int {
    if x >= 0.0 then (x + 0.5).Floor else -((0.5 - x).Floor)
  }

  function Clamp(x: int): Sample {
    if x < -32768 then -32768 else if x > 32767 then 32767 else x
  }

  function Scale(sample: Sample, factor: real): Sample {
    Clamp(Round(sample as real * factor))
  }

  function Envelope(remaining: nat, total: nat): real
    requires remaining > 0
  {
    if total > 1 then (remaining - 1) as real / (total - 1) as real else 0.0
  }

  /** How much of a sample is played that lies `frame` frames into the queue. */
  function Level(frame: nat, gain: real, fadeRemaining: nat, fadeTotal: nat): real {
    if frame < fadeRemaining then gain * Envelope(fadeRemaining - frame, fadeTotal) else gain
  }

  // ------------------------------------------------------------ the list view

  function Available(c: Chunk): int {
    |c.samples| - c.next
  }

  /** The unread samples in playing order. */
  function Flatten(chunks: seq<Chunk>): seq<Sample> {
    if chunks == [] then []
    else (if chunks[0].next <= |chunks[0].samples| then chunks[0].samples[chunks[0].next..] else [])
         + Flatten(chunks[1..])
  }

  predicate Readable(chunks: seq<Chunk>) {
    forall i :: 0 <= i < |chunks| ==> chunks[i].next <= |chunks[i].samples|
  }

  predicate Unread(chunks: seq<Chunk>) {
    forall i :: 0 <= i < |chunks| ==> chunks[i].next < |chunks[i].samples|
  }

  // Frames, by counting: these keep quotients and products by the channel count
  // out of the proofs about the queue.  Each is the usual operation (see Frames*).

  /** The frame that sample i lies in: i / channels. */
  function FrameOf(i: nat, channels: nat): nat
    requires channels > 0
  {
    if i < channels then 0 else 1 + FrameOf(i - channels, channels)
  }

  /** The samples in so many frames: frames * channels. */
  function Extent(frames: nat, channels: nat): nat {
    if frames == 0 then 0 else channels + Extent(frames - 1, channels)
  }

  /** A whole number of frames: n % channels == 0. */
  predicate Whole(n: int, channels: nat)
    requires channels > 0
    decreases if n < 0 then 0 else n
  {
    n == 0 || (n >= channels && Whole(n - channels, channels))
  }

  /** What the counters say about the list, and the bounds on lead, fade and gain. */
  ghost predicate Valid(q: Queue) {
    && q.channels > 0
    && Unread(q.chunks)
    && q.queued == |Flatten(q.chunks)|
    && Extent(q.fadeRemaining, q.channels) <= q.queued
    && q.fadeRemaining <= q.fadeTotal
    && (q.fadeRemaining == 0 ==> q.fadeTotal == 0)
    && (q.lead > 0 ==> q.fadeRemaining == 0)
    && 0.0 <= q.gain <= 1.0
  }

  /** Whole frames everywhere. */
  ghost predicate Aligned(q: Queue) {
    && q.channels > 0
    && Whole(q.lead, q.channels)
    && forall i :: 0 <= i < |q.chunks| ==> Whole(Available(q.chunks[i]), q.channels)
  }

  // ------------------------------------------------------------- the callback

  /** How many of `count` samples the fade loop writes. */
  function FadeSamples(count: nat, fadeRemaining: nat, channels: nat): nat
    requires channels > 0
  {
    Min(fadeRemaining, count / channels) * channels
  }

  /** What the callback writes for sample `i` of the `count` it takes from one chunk. */
  function PlayOne(sample: Sample, i: nat, count: nat, q: Queue): Sample
    requires q.channels > 0
  {
    if i < FadeSamples(count, q.fadeRemaining, q.channels) && i / q.channels < q.fadeRemaining then
      Scale(sample, q.gain * Envelope(q.fadeRemaining - i / q.channels, q.fadeTotal))
    else if q.gain == 1.0 then sample
    else Scale(sample, q.gain)
  }

  function PlayChunk(source: seq<Sample>, q: Queue): (output: seq<Sample>)
    requires q.channels > 0
    ensures |output| == |source|
  {
    seq(|source|, i requires 0 <= i < |source| => PlayOne(source[i], i, |source|, q))
  }

  /** One turn of the callback's loop: `count` samples leave the front chunk. */
  function TakeFront(q: Queue, count: nat): (q': Queue)
    requires q.channels > 0 && q.chunks != []
    requires count <= Available(q.chunks[0])
  {
    var front := q.chunks[0].(next := q.chunks[0].next + count);
    var remaining := q.fadeRemaining - Min(q.fadeRemaining, count / q.channels);
    var done := front.next == |front.samples|;
    q.(chunks := if done then q.chunks[1..] else q.chunks[0 := front],
       retired := if done then q.retired + [front] else q.retired,
       queued := if count <= q.queued then q.queued - count else 0,
       fadeRemaining := remaining,
       fadeTotal := if remaining == 0 then 0 else q.fadeTotal)
  }

  /** The callback's loop, for any number of samples and any queue contents. */
  function Drain(q: Queue, n: nat): (result: (seq<Sample>, Queue))
    requires q.channels > 0
    requires Readable(q.chunks)
    ensures |result.0| == n
    decreases |q.chunks|, n
  {
    if n == 0 || q.chunks == [] then (Silence(n), q)
    else
      var front := q.chunks[0];
      var count := Min(n, Available(front));
      var source := front.samples[front.next..front.next + count];
      var rest := Drain(TakeFront(q, count), n - count);
      (PlayChunk(source, q) + rest.0, rest.1)
  }

  function Settle(q: Queue): Queue {
    if q.chunks == [] then q.(fadeRemaining := 0, fadeTotal := 0) else q
  }

  function Callback(q: Queue, n: nat): (result: (seq<Sample>, Queue))
    requires q.channels > 0
    requires Readable(q.chunks)
    ensures |result.0| == n
  {
    if n == 0 then ([], q)
    else
      var silent := Min(n, q.lead);
      var drained := Drain(q.(lead := q.lead - silent), n - silent);
      (Silence(silent) + drained.0, Settle(drained.1))
  }

  // ----------------------------------------------------------- producer calls

  /** trim_pending_samples_locked: what stays queued and what is retired. */
  function Trim(chunks: seq<Chunk>, keep: nat): (seq<Chunk>, seq<Chunk>) {
    if chunks == [] then ([], [])
    else if keep >= Available(chunks[0]) then
      var rest := Trim(chunks[1..], if Available(chunks[0]) >= 0 then keep - Available(chunks[0]) else keep);
      ([chunks[0]] + rest.0, rest.1)
    else if keep != 0 then
      ([chunks[0].(samples := chunks[0].samples[..chunks[0].next + keep])], chunks[1..])
    else ([], chunks)
  }

  function TrimPending(q: Queue, sampleCount: nat): Queue {
    var keep := Min(sampleCount, q.queued);
    var split := Trim(q.chunks, keep);
    q.(chunks := split.0, retired := q.retired + split.1, queued := keep)
  }

  function RetireAll(q: Queue): Queue {
    q.(chunks := [], retired := q.retired + q.chunks, queued := 0, lead := 0, fadeRemaining := 0, fadeTotal := 0)
  }

  /** The locked region of play, once conversion has produced whole frames. */
  function Enqueue(q: Queue, converted: seq<Sample>, streaming: bool, period: nat): Queue {
    var startsRun := streaming && q.needsLead;
    q.(retired := [],
       lead := if startsRun && q.queued == 0 && q.lead == 0
               then period * q.channels * STREAMING_LEAD_PERIODS else q.lead,
       needsLead := q.needsLead && !streaming,
       queued := q.queued + |converted|,
       chunks := q.chunks + [Chunk(converted, 0)])
  }

  /** stop; `fadeOut` is AudioStopMode::FadeOut on an open device. */
  function Stop(q: Queue, fadeOut: bool, frequency: nat): Queue
    requires q.channels > 0
  {
    var muted := q.(retired := [], lead := 0, needsLead := true);
    if fadeOut && q.queued != 0 && q.fadeRemaining != 0 then
      TrimPending(muted, q.fadeRemaining * q.channels).(retired := [])
    else
      var fadeFrames := Min(q.queued / q.channels, frequency * FADE_MILLISECONDS / 1000);
      if fadeOut && q.queued != 0 && fadeFrames != 0 then
        TrimPending(muted, fadeFrames * q.channels)
          .(fadeRemaining := fadeFrames, fadeTotal := fadeFrames, retired := [])
      else RetireAll(muted).(retired := [])
  }

  function SetGain(q: Queue, gain: real): Queue {
    q.(gain := if gain < 0.0 then 0.0 else if gain > 1.0 then 1.0 else gain)
  }

  // ------------------------------------------------------------- frame facts

  lemma {:induction false} FramesQuotient(i: nat, channels: nat)
    requires channels > 0
    ensures FrameOf(i, channels) == i / channels
  {
    if i >= channels {
      FramesQuotient(i - channels, channels);
      Division.Shift(i - channels, 1, channels);
    } else {
      Division.Unique(i, channels, 0, i);
    }
  }

  lemma {:induction false} FramesProduct(frames: nat, channels: nat)
    ensures Extent(frames, channels) == frames * channels
  {
    if frames > 0 {
      FramesProduct(frames - 1, channels);
    }
  }

  lemma {:induction false} FramesWhole(n: nat, channels: nat)
    requires channels > 0
    ensures Whole(n, channels) <==> n % channels == 0
  {
    if n >= channels {
      FramesWhole(n - channels, channels);
      Division.Shift(n - channels, 1, channels);
    } else {
      Division.Unique(n, channels, 0, n);
    }
  }

  /** Whole numbers of frames add up, and so do the frames. */
  lemma {:induction false} WholeAdd(m: nat, n: nat, channels: nat)
    requires channels > 0 && Whole(m, channels)
    ensures Whole(m + n, channels) <==> Whole(n, channels)
    ensures FrameOf(m + n, channels) == FrameOf(m, channels) + FrameOf(n, channels)
    ensures m == Extent(FrameOf(m, channels), channels)
  {
    if m > 0 {
      WholeAdd(m - channels, n, channels);
    }
  }

  lemma {:induction false} ExtentOrder(a: nat, b: nat, channels: nat)
    requires a <= b
    ensures Extent(b, channels) == Extent(a, channels) + Extent(b - a, channels)
  {
    if a > 0 {
      ExtentOrder(a - 1, b - 1, channels);
    }
  }

  /** A sample lies before a frame boundary exactly when its frame does. */
  lemma {:induction false} FrameBefore(i: nat, frames: nat, channels: nat)
    requires channels > 0
    ensures FrameOf(i, channels) < frames <==> i < Extent(frames, channels)
  {
    if i >= channels && frames > 0 {
      FrameBefore(i - channels, frames - 1, channels);
    }
  }

  // ------------------------------------------------------------ scaling facts

  lemma Product(sample: Sample, factor: real) returns (x: real, y: real)
    requires 0.0 <= factor <= 1.0
    ensures x == sample as real && y == x * factor
    ensures if sample >= 0 then 0.0 <= y <= x else x <= y <= 0.0
  {
    x := sample as real;
    y := x * factor;
    assert y + x * (1.0 - factor) == x;
  }

  lemma RoundWithin(x: real, bound: Sample)
    requires if bound >= 0 then 0.0 <= x <= bound as real else bound as real <= x <= 0.0
    ensures Clamp(Round(x)) == Round(x)
    ensures if bound >= 0 then 0 <= Round(x) <= bound else bound <= Round(x) <= 0
  {
    var up, down := (x + 0.5).Floor, (0.5 - x).Floor;
    assert up as real <= x + 0.5 < (up + 1) as real;
    assert down as real <= 0.5 - x < (down + 1) as real;
  }

  /** Attenuation never leaves the 16-bit range, so the clamp never acts. */
  lemma ScaleAttenuates(sample: Sample, factor: real)
    requires 0.0 <= factor <= 1.0
    ensures Scale(sample, factor) == Round(sample as real * factor)
    ensures if sample >= 0 then 0 <= Scale(sample, factor) <= sample else sample <= Scale(sample, factor) <= 0
  {
    var x, y := Product(sample, factor);
    RoundWithin(y, sample);
  }

  /** The nearest integer, halves away from zero. */
  lemma RoundIsNearest(x: real)
    ensures -0.5 <= Round(x) as real - x <= 0.5
    ensures Round(x) as real - x == 0.5 ==> x > 0.0
    ensures Round(x) as real - x == -0.5 ==> x < 0.0
  {
    var up, down := (x + 0.5).Floor, (0.5 - x).Floor;
    assert up as real <= x + 0.5 < (up + 1) as real;
    assert down as real <= 0.5 - x < (down + 1) as real;
  }

  /** Attenuated samples are rounded to the nearest integer, halves away from zero. */
  lemma ScaleIsNearest(sample: Sample, factor: real)
    requires 0.0 <= factor <= 1.0
    ensures var exact := sample as real * factor;
            && -0.5 <= Scale(sample, factor) as real - exact <= 0.5
            && (Scale(sample, factor) as real - exact == 0.5 ==> exact > 0.0)
            && (Scale(sample, factor) as real - exact == -0.5 ==> exact < 0.0)
  {
    hide Scale, Round;
    ScaleAttenuates(sample, factor);
    RoundIsNearest(sample as real * factor);
  }

  /** The memcpy taken at full gain plays what scaling by one would. */
  lemma FullGainIsIdentity(sample: Sample)
    ensures Scale(sample, 1.0) == sample
  {
    assert sample as real * 1.0 == sample as real;
  }

  /** The envelope stays within zero and one, starts at one and ends at zero. */
  lemma EnvelopeShape(remaining: nat, total: nat)
    requires 0 < remaining <= total
    ensures 0.0 <= Envelope(remaining, total) <= 1.0
    ensures total > 1 && remaining == total ==> Envelope(remaining, total) == 1.0
    ensures remaining == 1 ==> Envelope(remaining, total) == 0.0
  {
    if total > 1 {
      Quotient((remaining - 1) as real, (total - 1) as real);
    }
  }

  /** The envelope falls by equal steps. */
  lemma EnvelopeExactly(remaining: nat, total: nat)
    requires remaining > 0
    ensures total > 1 ==> Envelope(remaining, total) * (total - 1) as real == (remaining - 1) as real
    ensures total <= 1 ==> Envelope(remaining, total) == 0.0
  {
    if total > 1 {
      QuotientTimes((remaining - 1) as real, (total - 1) as real);
    }
  }

  lemma QuotientTimes(a: real, d: real)
    requires d > 0.0
    ensures a / d * d == a
  {}

  /** Behind the fade a frame is played at the gain; within it, the gain falls to zero by equal steps. */
  lemma LevelExactly(frame: nat, gain: real, remaining: nat, total: nat)
    ensures frame >= remaining ==> Level(frame, gain, remaining, total) == gain
    ensures frame < remaining && total <= 1 ==> Level(frame, gain, remaining, total) == 0.0
    ensures frame < remaining && total > 1 ==>
              Level(frame, gain, remaining, total) * (total - 1) as real == gain * (remaining - 1 - frame) as real
  {
    if frame < remaining {
      hide Envelope;
      EnvelopeExactly(remaining - frame, total);
      if total > 1 {
        ProductsAssociate(gain, Envelope(remaining - frame, total), (total - 1) as real);
      }
    }
  }

  lemma ProductsAssociate(a: real, b: real, c: real)
    ensures a * b * c == a * (b * c)
  {}

  lemma Quotient(a: real, d: real)
    requires 0.0 <= a <= d && d > 0.0
    ensures 0.0 <= a / d <= 1.0
    ensures a == d ==> a / d == 1.0
    ensures a == 0.0 ==> a / d == 0.0
  {
    var x := a / d;
    assert x * d == a;
    assert x > 1.0 ==> x * d > d;
    assert x < 0.0 ==> x * d < 0.0;
  }
}
