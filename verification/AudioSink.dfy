/**
 SdlAudioSink's queue in place: the same locked regions as in AudioQueue.dfy,
 on mutable fields and on the callback's output buffer.
 */
module AudioSink {
  import opened AudioQueue
  import opened AudioPlayback
  import Division

  class SdlAudioSink {
    var queuedChunks: seq<Chunk>
    var retiredChunks: seq<Chunk>
    var queuedSampleCount: nat
    var outputChannelCount: nat
    var leadSilenceSampleCount: nat
    var streamingNeedsLead: bool
    var fadeFramesRemaining: nat
    var fadeFramesTotal: nat
    var gain: real

    function View(): Queue
      reads this
    {
      Queue(queuedChunks, retiredChunks, queuedSampleCount, outputChannelCount, leadSilenceSampleCount,
            streamingNeedsLead, fadeFramesRemaining, fadeFramesTotal, gain)
    }

    constructor (channels: nat)
      ensures View() == Queue([], [], 0, channels, 0, true, 0, 0, 1.0)
    {
      queuedChunks, retiredChunks, queuedSampleCount := [], [], 0;
      outputChannelCount, leadSilenceSampleCount, streamingNeedsLead := channels, 0, true;
      fadeFramesRemaining, fadeFramesTotal, gain := 0, 0, 1.0;
    }

    /** The real-time callback. */
    method Consume(output: array<Sample>)
      requires outputChannelCount > 0 && Readable(queuedChunks)
      modifies this, output
      ensures output[..] == Callback(old(View()), output.Length).0
      ensures View() == Callback(old(View()), output.Length).1
    {
      hide Drain, Then;
      if output.Length == 0 {
        return;
      }
      hide Callback;
      Clear(output);
      var silent := Min(output.Length, leadSilenceSampleCount);
      ghost var q := View();
      leadSilenceSampleCount := leadSilenceSampleCount - silent;
      CallbackUnfolds(q, output.Length, silent, View());
      Fill(output, silent);
      Halves(output[..], silent);
      if queuedChunks == [] {
        fadeFramesRemaining := 0;
        fadeFramesTotal := 0;
      }
    }

    /** The callback's loop over the queued chunks. */
    method Fill(output: array<Sample>, start: nat)
      requires outputChannelCount > 0 && Readable(queuedChunks)
      requires start <= output.Length && output[start..] == Silence(output.Length - start)
      modifies this, output
      ensures output[..start] == old(output[..start])
      ensures output[start..] == Drain(old(View()), output.Length - start).0
      ensures View() == Drain(old(View()), output.Length - start).1
    {
      hide Drain, Silence;
      var offset := start;
      ghost var rest := Silence(output.Length - start);
      ghost var (all, last) := Drain(View(), output.Length - start);
      while offset < output.Length && queuedChunks != []
        invariant start <= offset <= output.Length
        invariant outputChannelCount > 0 && Readable(queuedChunks)
        invariant output[..start] == old(output[..start])
        invariant output[start..offset] == all[..offset - start]
        invariant output[offset..] == rest[offset - start..]
        invariant all[offset - start..] == Drain(View(), output.Length - offset).0
        invariant last == Drain(View(), output.Length - offset).1
        decreases |queuedChunks|, output.Length - offset
      {
        ghost var before := output[..];
        var count := Turn(output, offset);
        Joined(before, output[..], all, rest, start, offset, count);
        offset := offset + count;
      }
      DrainStops(View(), output.Length - offset);
      SilenceTail(output.Length - start, offset - start);
      assert output[start..] == output[start..offset] + output[offset..];
      assert all == all[..offset - start] + all[offset - start..];
    }

    /** One turn of the callback's loop. */
    method Turn(output: array<Sample>, offset: nat) returns (count: nat)
      requires outputChannelCount > 0 && Readable(queuedChunks)
      requires offset < output.Length && queuedChunks != []
      modifies this, output
      ensures offset + count <= output.Length && outputChannelCount > 0 && Readable(queuedChunks)
      ensures output[..offset] == old(output[..])[..offset]
      ensures output[offset + count..] == old(output[..])[offset + count..]
      ensures |queuedChunks| < |old(queuedChunks)| || (|queuedChunks| == |old(queuedChunks)| && count > 0)
      ensures output[offset..offset + count] == Drain(old(View()), output.Length - offset).0[..count]
      ensures Drain(View(), output.Length - offset - count).0 == Drain(old(View()), output.Length - offset).0[count..]
      ensures Drain(View(), output.Length - offset - count).1 == Drain(old(View()), output.Length - offset).1
    {
      hide Drain, PlayChunk, TakeFront;
      var front := queuedChunks[0];
      count := Min(output.Length - offset, Available(front));
      var source := front.samples[front.next..front.next + count];
      DrainTurn(View(), output.Length - offset, count, source);
      WriteChunk(output, offset, source);
      Advance(count);
    }

    /** The state changes of one turn of the callback's loop. */
    method Advance(count: nat)
      requires outputChannelCount > 0 && queuedChunks != [] && count <= Available(queuedChunks[0])
      modifies this
      ensures View() == TakeFront(old(View()), count)
    {
      var front := queuedChunks[0].(next := queuedChunks[0].next + count);
      fadeFramesRemaining := fadeFramesRemaining - Min(fadeFramesRemaining, count / outputChannelCount);
      if fadeFramesRemaining == 0 {
        fadeFramesTotal := 0;
      }
      queuedSampleCount := if count <= queuedSampleCount then queuedSampleCount - count else 0;
      if front.next == |front.samples| {
        retiredChunks := retiredChunks + [front];
        queuedChunks := queuedChunks[1..];
      } else {
        queuedChunks := queuedChunks[0 := front];
      }
    }

    method Clear(output: array<Sample>)
      modifies output
      ensures output[..] == Silence(output.Length)
    {
      var i := 0;
      while i < output.Length
        invariant 0 <= i <= output.Length
        invariant forall j :: 0 <= j < i ==> output[j] == 0
      {
        output[i] := 0;
        i := i + 1;
      }
    }

    /** trim_pending_samples_locked: walk to the cut, shorten that chunk, retire the rest. */
    method TrimPendingSamples(sampleCount: nat)
      requires Readable(queuedChunks)
      modifies this
      ensures View() == TrimPending(old(View()), sampleCount)
    {
      hide Trim;
      var kept := Min(sampleCount, queuedSampleCount);
      var keep: nat, i := kept, 0;
      ghost var chunks := queuedChunks;
      while i < |queuedChunks| && keep >= Available(queuedChunks[i])
        invariant 0 <= i <= |chunks| && View() == old(View())
        invariant i <= |Trim(chunks, kept).0| && Trim(chunks, kept).0[..i] == chunks[..i]
        invariant Trim(chunks, kept).0[i..] == Trim(chunks[i..], keep).0
        invariant Trim(chunks, kept).1 == Trim(chunks[i..], keep).1
      {
        TrimTurn(chunks, i, keep, Trim(chunks, kept).0);
        keep := keep - Available(queuedChunks[i]);
        i := i + 1;
      }
      TrimEnds(chunks, i, keep, Trim(chunks, kept).0);
      if i < |queuedChunks| {
        if keep != 0 {
          var c := queuedChunks[i];
          queuedChunks := queuedChunks[i := c.(samples := c.samples[..c.next + keep])];
          i := i + 1;
        }
        retiredChunks := retiredChunks + queuedChunks[i..];
        queuedChunks := queuedChunks[..i];
      }
      queuedSampleCount := kept;
    }

    method RetireAllChunks()
      modifies this
      ensures View() == RetireAll(old(View()))
    {
      retiredChunks := retiredChunks + queuedChunks;
      queuedChunks := [];
      queuedSampleCount, leadSilenceSampleCount := 0, 0;
      fadeFramesRemaining, fadeFramesTotal := 0, 0;
    }

    /** The locked region of play, after a conversion that yielded whole frames. */
    method Play(converted: seq<Sample>, streaming: bool, formatSamples: nat)
      modifies this
      ensures View() == Enqueue(old(View()), converted, streaming, formatSamples)
    {
      retiredChunks := [];
      if streaming && streamingNeedsLead {
        if queuedSampleCount == 0 && leadSilenceSampleCount == 0 {
          leadSilenceSampleCount := formatSamples * outputChannelCount * STREAMING_LEAD_PERIODS;
        }
        streamingNeedsLead := false;
      }
      queuedSampleCount := queuedSampleCount + |converted|;
      queuedChunks := queuedChunks + [Chunk(converted, 0)];
    }

    method StopPlaying(fadeOut: bool, frequency: nat)
      requires outputChannelCount > 0 && Readable(queuedChunks)
      modifies this
      ensures View() == Stop(old(View()), fadeOut, frequency)
    {
      retiredChunks := [];
      leadSilenceSampleCount := 0;
      streamingNeedsLead := true;
      if fadeOut && queuedSampleCount != 0 {
        var channels := outputChannelCount;
        if fadeFramesRemaining != 0 {
          TrimPendingSamples(fadeFramesRemaining * channels);
          retiredChunks := [];
          return;
        }
        var availableFrames := queuedSampleCount / channels;
        var requestedFrames := frequency * FADE_MILLISECONDS / 1000;
        var fadeFrames := Min(availableFrames, requestedFrames);
        if fadeFrames != 0 {
          TrimPendingSamples(fadeFrames * channels);
          fadeFramesRemaining := fadeFrames;
          fadeFramesTotal := fadeFrames;
          retiredChunks := [];
          return;
        }
      }
      RetireAllChunks();
      retiredChunks := [];
    }

    method ChangeGain(value: real)
      modifies this
      ensures View() == SetGain(old(View()), value)
    {
      gain := if value < 0.0 then 0.0 else if value > 1.0 then 1.0 else value;
    }

    /** The two loops that write one chunk's contribution, fade first. */
    method WriteChunk(output: array<Sample>, offset: nat, source: seq<Sample>)
      requires outputChannelCount > 0 && offset + |source| <= output.Length
      modifies output
      ensures output[..] == old(output[..offset]) + PlayChunk(source, View()) + old(output[offset + |source|..])
    {
      var fadeSamples := WriteFade(output, offset, source);
      var copied := fadeSamples;
      ghost var q := View();
      while copied < |source|
        invariant fadeSamples <= copied <= |source|
        invariant forall j :: offset <= j < offset + copied ==>
          output[j] == PlayOne(source[j - offset], j - offset, |source|, q)
        invariant forall i :: 0 <= i < offset ==> output[i] == old(output[i])
        invariant forall i :: offset + copied <= i < output.Length ==> output[i] == old(output[i])
      {
        output[offset + copied] := if gain == 1.0 then source[copied] else Scale(source[copied], gain);
        copied := copied + 1;
      }
    }

    /** The fade loop, frame by frame. */
    method WriteFade(output: array<Sample>, offset: nat, source: seq<Sample>) returns (fadeSamples: nat)
      requires outputChannelCount > 0 && offset + |source| <= output.Length
      modifies output
      ensures fadeSamples == FadeSamples(|source|, fadeFramesRemaining, outputChannelCount) <= |source|
      ensures forall j :: offset <= j < offset + fadeSamples ==>
        output[j] == PlayOne(source[j - offset], j - offset, |source|, View())
      ensures forall i :: 0 <= i < offset || offset + fadeSamples <= i < output.Length ==> output[i] == old(output[i])
    {
      ghost var q := View();
      hide PlayOne;
      var fadeFrames := Min(fadeFramesRemaining, |source| / outputChannelCount);
      var frame, start := 0, 0;
      while frame < fadeFrames
        invariant 0 <= frame <= fadeFrames && start == Extent(frame, outputChannelCount) <= |source|
        invariant forall j :: offset <= j < offset + start ==>
          output[j] == PlayOne(source[j - offset], j - offset, |source|, q)
        invariant forall i :: 0 <= i < offset || offset + start <= i < output.Length ==> output[i] == old(output[i])
      {
        var envelope := Envelope(fadeFramesRemaining - frame, fadeFramesTotal);
        var level := gain * envelope;
        FadeLoopFrame(source, q, frame, start, level);
        WriteFrame(output, offset + start, source[start..start + outputChannelCount], level);
        start := start + outputChannelCount;
        frame := frame + 1;
      }
      FadeLoopEnds(|source|, q);
      fadeSamples := start;
    }

    /** One frame of the fade loop, channel by channel. */
    method WriteFrame(output: array<Sample>, at: nat, samples: seq<Sample>, level: real)
      requires at + |samples| <= output.Length
      modifies output
      ensures forall j :: at <= j < at + |samples| ==> output[j] == Scale(samples[j - at], level)
      ensures forall i :: 0 <= i < at || at + |samples| <= i < output.Length ==> output[i] == old(output[i])
    {
      var channel := 0;
      while channel < |samples|
        invariant 0 <= channel <= |samples|
        invariant forall j :: at <= j < at + channel ==> output[j] == Scale(samples[j - at], level)
        invariant forall i :: 0 <= i < at || at + channel <= i < output.Length ==> output[i] == old(output[i])
      {
        output[at + channel] := Scale(samples[channel], level);
        channel := channel + 1;
      }
    }
  }

  lemma TrimTurn(chunks: seq<Chunk>, i: nat, keep: nat, whole: seq<Chunk>)
    requires Readable(chunks) && i < |chunks| && keep >= Available(chunks[i])
    requires i <= |whole| && whole[..i] == chunks[..i] && whole[i..] == Trim(chunks[i..], keep).0
    ensures i + 1 <= |whole| && whole[..i + 1] == chunks[..i + 1]
    ensures whole[i + 1..] == Trim(chunks[i + 1..], keep - Available(chunks[i])).0
    ensures Trim(chunks[i..], keep).1 == Trim(chunks[i + 1..], keep - Available(chunks[i])).1
  {
    assert chunks[i..][1..] == chunks[i + 1..];
    assert whole[i..][0] == chunks[i] && whole[i..][1..] == whole[i + 1..];
  }

  lemma TrimEnds(chunks: seq<Chunk>, i: nat, keep: nat, whole: seq<Chunk>)
    requires Readable(chunks) && i <= |chunks| && (i < |chunks| ==> keep < Available(chunks[i]))
    requires i <= |whole| && whole[..i] == chunks[..i] && whole[i..] == Trim(chunks[i..], keep).0
    ensures i == |chunks| ==> whole == chunks && Trim(chunks[i..], keep).1 == []
    ensures i < |chunks| && keep == 0 ==> whole == chunks[..i] && Trim(chunks[i..], keep).1 == chunks[i..]
    ensures i < |chunks| && keep > 0 ==>
      var cut := chunks[i].(samples := chunks[i].samples[..chunks[i].next + keep]);
      && whole == chunks[i := cut][..i + 1]
      && Trim(chunks[i..], keep).1 == chunks[i := cut][i + 1..]
  {
    assert whole == whole[..i] + whole[i..];
    if i < |chunks| {
      assert chunks[i..][1..] == chunks[i + 1..];
    }
  }

  lemma DrainTurn(q: Queue, n: nat, count: nat, source: seq<Sample>)
    requires q.channels > 0 && Readable(q.chunks) && q.chunks != [] && n > 0
    requires count == Min(n, Available(q.chunks[0]))
    requires source == q.chunks[0].samples[q.chunks[0].next..q.chunks[0].next + count]
    ensures TakeFront(q, count).channels == q.channels && Readable(TakeFront(q, count).chunks)
    ensures |TakeFront(q, count).chunks| < |q.chunks| || (|TakeFront(q, count).chunks| == |q.chunks| && count > 0)
    ensures Drain(q, n).0[..count] == PlayChunk(source, q)
    ensures Drain(q, n).0[count..] == Drain(TakeFront(q, count), n - count).0
    ensures Drain(q, n).1 == Drain(TakeFront(q, count), n - count).1
  {
    hide PlayChunk;
    TakeFrontChunks(q, count);
    hide TakeFront;
    var rest := Drain(TakeFront(q, count), n - count);
    assert Drain(q, n) == (PlayChunk(source, q) + rest.0, rest.1);
  }

  /** The output after one more turn, piece by piece. */
  lemma Joined(before: seq<Sample>, after: seq<Sample>, all: seq<Sample>, rest: seq<Sample>,
               start: nat, offset: nat, count: nat)
    requires start <= offset && offset + count <= |before| == |after| && |all| == |rest| == |before| - start
    requires before[start..offset] == all[..offset - start] && before[offset..] == rest[offset - start..]
    requires after[..offset] == before[..offset] && after[offset + count..] == before[offset + count..]
    requires after[offset..offset + count] == all[offset - start..][..count]
    ensures after[..start] == before[..start]
    ensures after[start..offset + count] == all[..offset + count - start]
    ensures after[offset + count..] == rest[offset + count - start..]
    ensures all[offset + count - start..] == all[offset - start..][count..]
  {
    assert after[start..offset] == before[start..offset] by {
      assert after[start..offset] == after[..offset][start..];
      assert before[start..offset] == before[..offset][start..];
    }
    assert after[start..offset + count] == after[start..offset] + after[offset..offset + count];
    assert all[..offset + count - start] == all[..offset - start] + all[offset - start..][..count];
    assert before[offset + count..] == before[offset..][count..];
    assert after[..start] == after[..offset][..start];
    assert before[..start] == before[..offset][..start];
  }

  lemma Halves(s: seq<Sample>, k: nat)
    requires k <= |s|
    ensures Then(s[..k], s[k..]) == s
  {
  }

  lemma SilenceTail(n: nat, m: nat)
    requires m <= n
    ensures Silence(n)[m..] == Silence(n - m)
  {
  }

  lemma DrainStops(q: Queue, n: nat)
    requires q.channels > 0 && Readable(q.chunks) && (n == 0 || q.chunks == [])
    ensures Drain(q, n).0 == Silence(n) && Drain(q, n).1 == q
  {
  }

  lemma FadeLoopEnds(count: nat, q: Queue)
    requires q.channels > 0
    ensures Extent(Min(q.fadeRemaining, count / q.channels), q.channels)
         == FadeSamples(count, q.fadeRemaining, q.channels) <= count
  {
    var fadeFrames := Min(q.fadeRemaining, count / q.channels);
    FramesProduct(fadeFrames, q.channels);
    Division.Split(count, q.channels);
    Division.Monotone(fadeFrames, count / q.channels, q.channels);
  }

  /** What the fade loop owes for one frame. */
  lemma FadeLoopFrame(source: seq<Sample>, q: Queue, frame: nat, start: nat, level: real)
    requires q.channels > 0 && start == Extent(frame, q.channels)
    requires frame < Min(q.fadeRemaining, |source| / q.channels)
    requires level == q.gain * Envelope(q.fadeRemaining - frame, q.fadeTotal)
    ensures start + q.channels == Extent(frame + 1, q.channels) <= |source|
    ensures forall i :: start <= i < start + q.channels ==>
      PlayOne(source[i], i, |source|, q) == Scale(source[i], level)
  {
    var fadeFrames := Min(q.fadeRemaining, |source| / q.channels);
    FadeLoopEnds(|source|, q);
    ExtentOrder(frame + 1, fadeFrames, q.channels);
    forall i | start <= i < start + q.channels
      ensures PlayOne(source[i], i, |source|, q) == Scale(source[i], level)
    {
      FramesProduct(frame, q.channels);
      Division.Unique(i, q.channels, frame, i - start);
      FadeLoopSample(source[i], i, |source|, q, frame);
    }
  }

  lemma FadeLoopSample(sample: Sample, i: nat, count: nat, q: Queue, frame: nat)
    requires q.channels > 0 && i < FadeSamples(count, q.fadeRemaining, q.channels)
    requires i / q.channels == frame < q.fadeRemaining
    ensures PlayOne(sample, i, count, q) == Scale(sample, q.gain * Envelope(q.fadeRemaining - frame, q.fadeTotal))
  {
  }
}
