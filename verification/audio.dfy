/** The audio side of the assistant: the re-chunker that cuts arriving sample
    blocks into fixed analysis frames, and the voice-activity segmenter, a
    two-state machine (idle / speaking) that groups frames into utterance
    segments.  The loudness classifier is abstract: it is the function value
    `isSpeech`. */
module Audio {
  import opened Wrappers

  /** One mono sample.  The capture stream has a single channel, so a row of the
      captured block is one sample and its channel mean is the sample itself. */
  type Sample = real
  type Frame = seq<Sample>
  type Segment = seq<Sample>

  /** The three derived segmenter constants: samples per analysis frame, silent
      frames that end an utterance, and the shortest utterance kept. */
  datatype Config = Config(frameSize: nat, silenceFrameLimit: nat, minSpeechFrames: nat)

  predicate ValidConfig(c: Config)
  {
    c.frameSize >= 1 && c.silenceFrameLimit >= 1
  }

  /** The segmenter's accumulators: the `speaking` flag, the frames of the
      current utterance and the run of silent frames at its end. */
  datatype State = State(speaking: bool, speechBuffer: seq<Frame>, silenceFrames: nat)

  const Idle: State := State(false, [], 0)

  /** The state invariant: idle means nothing is accumulated; speaking means the
      buffer holds the opening speech frame plus fewer than the limit of
      trailing silent frames; every buffered frame is a whole analysis frame. */
  predicate Inv(c: Config, st: State)
  {
    && (!st.speaking ==> st.speechBuffer == [] && st.silenceFrames == 0)
    && (st.speaking ==> st.silenceFrames < |st.speechBuffer| && st.silenceFrames < c.silenceFrameLimit)
    && (forall f :: f in st.speechBuffer ==> |f| == c.frameSize)
  }

  /** Concatenation of frames, in order. */
  function Concat(fs: seq<Frame>): Segment
  {
    if fs == [] then [] else fs[0] + Concat(fs[1..])
  }

  lemma {:induction false} ConcatAppend(a: seq<Frame>, b: seq<Frame>)
    ensures Concat(a + b) == Concat(a) + Concat(b)
  {
    if a == [] {
      assert a + b == b;
    } else {
      assert (a + b)[1..] == a[1..] + b;
      ConcatAppend(a[1..], b);
    }
  }

  /** A concatenation of whole frames is `frameSize` samples per frame. */
  lemma {:induction false} ConcatLength(fs: seq<Frame>, n: nat)
    requires forall f :: f in fs ==> |f| == n
    ensures |Concat(fs)| == n * |fs|
  {
    if fs != [] {
      assert forall f :: f in fs[1..] ==> f in fs;
      ConcatLength(fs[1..], n);
      MulSucc(n, |fs[1..]|);
    }
  }

  lemma MulSucc(n: nat, k: nat)
    ensures n * (k + 1) == n * k + n
  {
  }

  // ---------------------------------------------------------------------------
  // Re-chunking

  /** The whole frames cut, front to back, from a sample buffer. */
  function Chunks(s: seq<Sample>, n: nat): seq<Frame>
    requires n >= 1
    decreases |s|
  {
    if |s| < n then [] else [s[..n]] + Chunks(s[n..], n)
  }

  /** What is left of a sample buffer once every whole frame is cut off. */
  function Remainder(s: seq<Sample>, n: nat): seq<Sample>
    requires n >= 1
    decreases |s|
  {
    if |s| < n then s else Remainder(s[n..], n)
  }

  /** Cutting one frame off a buffer that holds at least one. */
  lemma ChunksStep(s: seq<Sample>, n: nat)
    requires n >= 1 && |s| >= n
    ensures Chunks(s, n) == [s[..n]] + Chunks(s[n..], n)
    ensures Remainder(s, n) == Remainder(s[n..], n)
  {
  }

  /** Re-chunking loses and reorders nothing: the cut frames followed by the
      remainder give back the buffer; every frame is whole; less than one frame
      is carried forward. */
  lemma {:induction false} RechunkConserves(s: seq<Sample>, n: nat)
    requires n >= 1
    ensures Concat(Chunks(s, n)) + Remainder(s, n) == s
    ensures forall f :: f in Chunks(s, n) ==> |f| == n
    ensures |Remainder(s, n)| < n
  {
    if |s| >= n {
      RechunkConserves(s[n..], n);
      var rest := Chunks(s[n..], n);
      assert ([s[..n]] + rest)[1..] == rest;
      assert s == s[..n] + s[n..];
    }
  }

  /** Cutting a buffer in two deliveries gives the same frames, and the same
      carried remainder, as cutting it in one: the capture cadence does not
      matter to the analysis frames. */
  lemma {:induction false} RechunkSplit(s1: seq<Sample>, s2: seq<Sample>, n: nat)
    requires n >= 1
    ensures Chunks(s1 + s2, n) == Chunks(s1, n) + Chunks(Remainder(s1, n) + s2, n)
    ensures Remainder(s1 + s2, n) == Remainder(Remainder(s1, n) + s2, n)
    decreases |s1|
  {
    if |s1| >= n {
      assert (s1 + s2)[..n] == s1[..n];
      assert (s1 + s2)[n..] == s1[n..] + s2;
      RechunkSplit(s1[n..], s2, n);
    }
  }

  // ---------------------------------------------------------------------------
  // The segmenter's transition function

  /** The result of one frame: the next state and the segment queued, if any. */
  datatype Outcome = Outcome(next: State, segment: Option<Segment>)

  /** One frame through the segmenter, `speech` being the classifier's verdict. */
  function Observe(c: Config, st: State, frame: Frame, speech: bool): Outcome
  {
    if speech then
      Outcome(State(true, st.speechBuffer + [frame], 0), None)
    else if !st.speaking then
      Outcome(st, None)
    else
      var buffer := st.speechBuffer + [frame];
      var silence := st.silenceFrames + 1;
      if silence >= c.silenceFrameLimit then
        Outcome(Idle, if |buffer| >= c.minSpeechFrames then Some(Concat(buffer)) else None)
      else
        Outcome(State(true, buffer, silence), None)
  }

  /** Every step keeps the state invariant. */
  lemma ObserveKeepsInvariant(c: Config, st: State, frame: Frame, speech: bool)
    requires ValidConfig(c) && Inv(c, st) && |frame| == c.frameSize
    ensures Inv(c, Observe(c, st, frame, speech).next)
  {
  }

  /** Idle ignores silence: no state change, nothing emitted. */
  lemma IdleIgnoresSilence(c: Config, st: State, frame: Frame)
    requires Inv(c, st) && !st.speaking
    ensures Observe(c, st, frame, false) == Outcome(Idle, None)
  {
  }

  /** A speech frame starts or continues an utterance: it is appended, the
      silence run is reset, and nothing is emitted. */
  lemma SpeechFrameAppends(c: Config, st: State, frame: Frame)
    ensures var o := Observe(c, st, frame, true);
      o.next.speaking && o.next.speechBuffer == st.speechBuffer + [frame] &&
      o.next.silenceFrames == 0 && o.segment == None
  {
  }

  /** A silent frame while speaking is appended and the silence run grows by
      one; the utterance ends exactly when the run reaches the limit. */
  lemma SilenceWhileSpeaking(c: Config, st: State, frame: Frame)
    requires ValidConfig(c) && Inv(c, st) && st.speaking
    ensures var o := Observe(c, st, frame, false);
      && (st.silenceFrames + 1 < c.silenceFrameLimit ==>
            o.next == State(true, st.speechBuffer + [frame], st.silenceFrames + 1) && o.segment == None)
      && (st.silenceFrames + 1 == c.silenceFrameLimit ==> o.next == Idle)
      && (st.silenceFrames + 1 >= c.silenceFrameLimit <==> o.next == Idle)
  {
  }

  /** Finalisation: a segment is queued iff the finishing utterance holds at
      least `minSpeechFrames` frames, trailing silence included; it is every
      frame of the utterance in arrival order, `frameSize` samples per frame. */
  lemma {:induction false} FinalizeEmits(c: Config, st: State, frame: Frame, speech: bool)
    requires ValidConfig(c) && Inv(c, st) && |frame| == c.frameSize
    ensures var o := Observe(c, st, frame, speech);
      && (o.segment.Some? <==>
            st.speaking && !speech && st.silenceFrames + 1 == c.silenceFrameLimit &&
            |st.speechBuffer| + 1 >= c.minSpeechFrames)
      && (o.segment.Some? ==>
            o.segment.value == Concat(st.speechBuffer + [frame]) &&
            |o.segment.value| == c.frameSize * (|st.speechBuffer| + 1) &&
            |o.segment.value| >= c.frameSize * c.minSpeechFrames)
  {
    var o := Observe(c, st, frame, speech);
    if o.segment.Some? {
      var buffer := st.speechBuffer + [frame];
      assert forall f :: f in buffer ==> |f| == c.frameSize;
      ConcatLength(buffer, c.frameSize);
      MulMonotone(c.frameSize, |buffer|, c.minSpeechFrames);
    }
  }

  lemma MulMonotone(n: nat, a: nat, b: nat)
    requires a >= b
    ensures n * a >= n * b
  {
    assert n * a == n * b + n * (a - b);
  }

  /** With a silence limit no smaller than the minimum length, every utterance
      that finishes is emitted: the trailing silence alone is long enough. */
  lemma FinalizedAlwaysEmitted(c: Config, st: State, frame: Frame)
    requires ValidConfig(c) && Inv(c, st) && c.silenceFrameLimit >= c.minSpeechFrames
    requires st.speaking && st.silenceFrames + 1 >= c.silenceFrameLimit
    ensures Observe(c, st, frame, false).segment == Some(Concat(st.speechBuffer + [frame]))
  {
  }

  // ---------------------------------------------------------------------------
  // Runs over frame streams

  /** The final state and the segments queued, in order, over a frame stream. */
  datatype Trace = Trace(final: State, segments: seq<Segment>)

  function Emitted(o: Option<Segment>): seq<Segment>
  {
    if o.Some? then [o.value] else []
  }

  function Run(c: Config, isSpeech: Frame -> bool, st: State, frames: seq<Frame>): Trace
    decreases |frames|
  {
    if frames == [] then Trace(st, [])
    else
      var o := Observe(c, st, frames[0], isSpeech(frames[0]));
      var rest := Run(c, isSpeech, o.next, frames[1..]);
      Trace(rest.final, Emitted(o.segment) + rest.segments)
  }

  /** Running two streams back to back is running their concatenation. */
  lemma {:induction false} RunAppend(c: Config, isSpeech: Frame -> bool, st: State, a: seq<Frame>, b: seq<Frame>)
    ensures var ra := Run(c, isSpeech, st, a);
      var rb := Run(c, isSpeech, ra.final, b);
      Run(c, isSpeech, st, a + b) == Trace(rb.final, ra.segments + rb.segments)
    decreases |a|
  {
    if a == [] {
      assert a + b == b;
    } else {
      assert (a + b)[0] == a[0];
      assert (a + b)[1..] == a[1..] + b;
      var o := Observe(c, st, a[0], isSpeech(a[0]));
      RunAppend(c, isSpeech, o.next, a[1..], b);
    }
  }

  /** Running one more frame extends the trace by that frame's step. */
  lemma RunSnoc(c: Config, isSpeech: Frame -> bool, st: State, frames: seq<Frame>, frame: Frame)
    ensures var r := Run(c, isSpeech, st, frames);
      var o := Observe(c, r.final, frame, isSpeech(frame));
      Run(c, isSpeech, st, frames + [frame]) == Trace(o.next, r.segments + Emitted(o.segment))
  {
    var r := Run(c, isSpeech, st, frames);
    var o := Observe(c, r.final, frame, isSpeech(frame));
    RunAppend(c, isSpeech, st, frames, [frame]);
    assert Run(c, isSpeech, o.next, []) == Trace(o.next, []);
    assert Run(c, isSpeech, r.final, [frame]) == Trace(o.next, Emitted(o.segment));
  }

  /** Over any stream of whole frames the invariant holds throughout, and every
      queued segment has at least `minSpeechFrames` frames' worth of samples. */
  lemma {:induction false} RunKeepsInvariant(c: Config, isSpeech: Frame -> bool, st: State, frames: seq<Frame>)
    requires ValidConfig(c) && Inv(c, st)
    requires forall f :: f in frames ==> |f| == c.frameSize
    ensures Inv(c, Run(c, isSpeech, st, frames).final)
    ensures forall seg :: seg in Run(c, isSpeech, st, frames).segments ==>
      |seg| >= c.frameSize * c.minSpeechFrames
    decreases |frames|
  {
    if frames != [] {
      var o := Observe(c, st, frames[0], isSpeech(frames[0]));
      ObserveKeepsInvariant(c, st, frames[0], isSpeech(frames[0]));
      FinalizeEmits(c, st, frames[0], isSpeech(frames[0]));
      assert forall f :: f in frames[1..] ==> f in frames;
      RunKeepsInvariant(c, isSpeech, o.next, frames[1..]);
    }
  }

  /** An all-silence stream started from idle never emits and stays idle. */
  lemma {:induction false} SilenceFromIdle(c: Config, isSpeech: Frame -> bool, frames: seq<Frame>)
    requires forall i :: 0 <= i < |frames| ==> !isSpeech(frames[i])
    ensures Run(c, isSpeech, Idle, frames) == Trace(Idle, [])
    decreases |frames|
  {
    if frames != [] {
      SilenceFromIdle(c, isSpeech, frames[1..]);
    }
  }

  /** Speech frames only accumulate: from any state they are appended to the
      buffer, the silence run is reset and nothing is emitted. */
  lemma {:induction false} SpeechRun(c: Config, isSpeech: Frame -> bool, st: State, frames: seq<Frame>)
    requires |frames| >= 1
    requires forall i :: 0 <= i < |frames| ==> isSpeech(frames[i])
    ensures Run(c, isSpeech, st, frames) == Trace(State(true, st.speechBuffer + frames, 0), [])
    decreases |frames|
  {
    var next := State(true, st.speechBuffer + [frames[0]], 0);
    if |frames| == 1 {
      assert st.speechBuffer + frames == next.speechBuffer;
    } else {
      SpeechRun(c, isSpeech, next, frames[1..]);
      assert next.speechBuffer + frames[1..] == st.speechBuffer + frames;
    }
  }

  /** From `k` trailing silent frames, exactly `silenceFrameLimit - k` more
      silent frames end the utterance, queueing it when it is long enough. */
  lemma {:induction false} SilenceCountdown(c: Config, isSpeech: Frame -> bool, buffer: seq<Frame>, k: nat, frames: seq<Frame>)
    requires k < c.silenceFrameLimit && |frames| == c.silenceFrameLimit - k
    requires forall i :: 0 <= i < |frames| ==> !isSpeech(frames[i])
    ensures Run(c, isSpeech, State(true, buffer, k), frames) ==
      Trace(Idle, if |buffer| + |frames| >= c.minSpeechFrames then [Concat(buffer + frames)] else [])
    decreases |frames|
  {
    var next := buffer + [frames[0]];
    if |frames| == 1 {
      assert next == buffer + frames;
    } else {
      SilenceCountdown(c, isSpeech, next, k + 1, frames[1..]);
      assert next + frames[1..] == buffer + frames;
    }
  }

  /** A pause shorter than the limit does not end the utterance: from `k`
      trailing silent frames, silent frames that keep the run below the limit
      are appended and counted, and nothing is emitted. */
  lemma {:induction false} SilencePause(c: Config, isSpeech: Frame -> bool, buffer: seq<Frame>, k: nat, frames: seq<Frame>)
    requires k + |frames| < c.silenceFrameLimit
    requires forall i :: 0 <= i < |frames| ==> !isSpeech(frames[i])
    ensures Run(c, isSpeech, State(true, buffer, k), frames) == Trace(State(true, buffer + frames, k + |frames|), [])
    decreases |frames|
  {
    if frames == [] {
      assert buffer + frames == buffer;
    } else {
      var next := buffer + [frames[0]];
      SilencePause(c, isSpeech, next, k + 1, frames[1..]);
      assert next + frames[1..] == buffer + frames;
    }
  }

  /** The utterance scenario: from idle, a run of speech frames followed by at
      least `silenceFrameLimit` silent frames yields exactly one segment (the
      speech plus the silence up to the timeout) when that is at least
      `minSpeechFrames` frames, and none otherwise; the segmenter ends idle. */
  lemma {:induction false} UtteranceScenario(c: Config, isSpeech: Frame -> bool, speech: seq<Frame>, silence: seq<Frame>)
    requires ValidConfig(c)
    requires |speech| >= 1 && forall i :: 0 <= i < |speech| ==> isSpeech(speech[i])
    requires |silence| >= c.silenceFrameLimit && forall i :: 0 <= i < |silence| ==> !isSpeech(silence[i])
    ensures Run(c, isSpeech, Idle, speech + silence) ==
      Trace(Idle,
            if |speech| + c.silenceFrameLimit >= c.minSpeechFrames
            then [Concat(speech + silence[..c.silenceFrameLimit])]
            else [])
  {
    var limit := c.silenceFrameLimit;
    var timeout, after := silence[..limit], silence[limit..];
    assert silence == timeout + after;
    RunAppend(c, isSpeech, Idle, speech, silence);
    SpeechRun(c, isSpeech, Idle, speech);
    assert Idle.speechBuffer + speech == speech;
    RunAppend(c, isSpeech, State(true, speech, 0), timeout, after);
    SilenceCountdown(c, isSpeech, speech, 0, timeout);
    SilenceFromIdle(c, isSpeech, after);
  }

  /** An utterance with a pause in it: from idle, speech, a pause shorter than
      the limit, more speech and then exactly `silenceFrameLimit` silent frames
      yield one segment holding every frame since the utterance began, in
      order (the pause included), when it is long enough, and none otherwise;
      the segmenter ends idle. */
  lemma PausedUtteranceScenario(c: Config, isSpeech: Frame -> bool, s1: seq<Frame>, pause: seq<Frame>, s2: seq<Frame>, timeout: seq<Frame>)
    requires |s1| >= 1 && forall i :: 0 <= i < |s1| ==> isSpeech(s1[i])
    requires |pause| < c.silenceFrameLimit && forall i :: 0 <= i < |pause| ==> !isSpeech(pause[i])
    requires |s2| >= 1 && forall i :: 0 <= i < |s2| ==> isSpeech(s2[i])
    requires |timeout| == c.silenceFrameLimit && forall i :: 0 <= i < |timeout| ==> !isSpeech(timeout[i])
    ensures Run(c, isSpeech, Idle, s1 + pause + s2 + timeout) ==
      Trace(Idle,
            if |s1| + |pause| + |s2| + |timeout| >= c.minSpeechFrames
            then [Concat(s1 + pause + s2 + timeout)]
            else [])
  {
    RunAppend(c, isSpeech, Idle, s1 + pause + s2, timeout);
    RunAppend(c, isSpeech, Idle, s1 + pause, s2);
    RunAppend(c, isSpeech, Idle, s1, pause);
    SpeechRun(c, isSpeech, Idle, s1);
    assert Idle.speechBuffer + s1 == s1;
    SilencePause(c, isSpeech, s1, 0, pause);
    SpeechRun(c, isSpeech, State(true, s1 + pause, |pause|), s2);
    SilenceCountdown(c, isSpeech, s1 + pause + s2, 0, timeout);
  }

  /** The constants as the worker derives them with `int()` (truncation) at
      16000 samples per second: 50 ms frames of 800 samples; 1.2 s / 0.05 s is
      just below 24 in floating point, so 23 silent frames end an utterance;
      0.5 s / 0.05 s gives 10 frames. */
  const SourceConfig: Config := Config(800, 23, 10)

  /** With the worker's constants, 0.6 s of speech (12 frames) followed by
      1.3 s of silence (26 frames) queues exactly one segment: the 12 speech
      frames and the 23 silent frames up to the timeout, 35 * 800 samples. */
  lemma SourceScenario(isSpeech: Frame -> bool, speech: seq<Frame>, silence: seq<Frame>)
    requires |speech| == 12 && forall i :: 0 <= i < |speech| ==> isSpeech(speech[i])
    requires |silence| == 26 && forall i :: 0 <= i < |silence| ==> !isSpeech(silence[i])
    requires forall f :: f in speech + silence ==> |f| == SourceConfig.frameSize
    ensures var r := Run(SourceConfig, isSpeech, Idle, speech + silence);
      && r.final == Idle
      && r.segments == [Concat(speech + silence[..23])]
      && |r.segments[0]| == 35 * 800
  {
    UtteranceScenario(SourceConfig, isSpeech, speech, silence);
    var kept := speech + silence[..23];
    assert forall f :: f in kept ==> f in speech + silence;
    ConcatLength(kept, 800);
  }

  /** With the worker's constants a single speech frame is enough: the 23
      trailing silent frames alone exceed the 10-frame minimum, so every
      utterance that times out is queued. */
  lemma SourceKeepsEveryUtterance(isSpeech: Frame -> bool, speech: seq<Frame>, silence: seq<Frame>)
    requires |speech| >= 1 && forall i :: 0 <= i < |speech| ==> isSpeech(speech[i])
    requires |silence| >= 23 && forall i :: 0 <= i < |silence| ==> !isSpeech(silence[i])
    ensures |Run(SourceConfig, isSpeech, Idle, speech + silence).segments| == 1
  {
    UtteranceScenario(SourceConfig, isSpeech, speech, silence);
  }

  // ---------------------------------------------------------------------------
  // The imperative segmenter

  /** The state of the audio-processing worker: the carried-forward samples and
      the segmenter accumulators, updated in place frame by frame. */
  class AudioProcessor {
    const config: Config
    const isSpeech: Frame -> bool
    var leftover: seq<Sample>
    var speechBuffer: seq<Frame>
    var silenceFrames: nat
    var speaking: bool

    function Current(): State
      reads this
    {
      State(speaking, speechBuffer, silenceFrames)
    }

    ghost predicate ValidSegmenter()
      reads this
    {
      ValidConfig(config) && Inv(config, Current())
    }

    /** Between deliveries less than one frame is carried forward. */
    ghost predicate Valid()
      reads this
    {
      ValidSegmenter() && |leftover| < config.frameSize
    }

    constructor (frameSize: nat, silenceFrameLimit: nat, minSpeechFrames: nat, isSpeech: Frame -> bool)
      requires frameSize >= 1 && silenceFrameLimit >= 1
      ensures Valid()
      ensures config == Config(frameSize, silenceFrameLimit, minSpeechFrames) && this.isSpeech == isSpeech
      ensures Current() == Idle && leftover == []
    {
      config := Config(frameSize, silenceFrameLimit, minSpeechFrames);
      this.isSpeech := isSpeech;
      leftover := [];
      speechBuffer := [];
      silenceFrames := 0;
      speaking := false;
    }

    /** Classifies one frame and updates the accumulators in place. */
    method ObserveFrame(frame: Frame) returns (segment: Option<Segment>)
      requires ValidSegmenter() && |frame| == config.frameSize
      modifies this`speechBuffer, this`silenceFrames, this`speaking
      ensures ValidSegmenter()
      ensures Outcome(Current(), segment) == Observe(config, old(Current()), frame, isSpeech(frame))
    {
      ObserveKeepsInvariant(config, Current(), frame, isSpeech(frame));
      segment := None;
      if isSpeech(frame) {
        if !speaking {
          speaking := true;
        }
        speechBuffer := speechBuffer + [frame];
        silenceFrames := 0;
      } else {
        if speaking {
          silenceFrames := silenceFrames + 1;
          speechBuffer := speechBuffer + [frame];
          if silenceFrames >= config.silenceFrameLimit {
            if |speechBuffer| >= config.minSpeechFrames {
              segment := Some(Concat(speechBuffer));
            }
            speechBuffer := [];
            silenceFrames := 0;
            speaking := false;
          }
        }
      }
    }

    /** One pass of the worker: append every block delivered since the last
        pass, then cut and classify whole frames until less than a frame is
        left.  Returns the segments queued for transcription, in order. */
    method Feed(blocks: seq<seq<Sample>>) returns (segments: seq<Segment>)
      requires Valid()
      modifies this
      ensures Valid()
      ensures leftover == Remainder(old(leftover) + Concat(blocks), config.frameSize)
      ensures Trace(Current(), segments) ==
        Run(config, isSpeech, old(Current()), Chunks(old(leftover) + Concat(blocks), config.frameSize))
    {
      Drain(blocks);
      segments := CutFrames();
    }

    /** The inner drain loop: every delivered block is appended to the
        carried-forward samples, in delivery order. */
    method Drain(blocks: seq<seq<Sample>>)
      modifies this`leftover
      ensures leftover == old(leftover) + Concat(blocks)
    {
      var i := 0;
      while i < |blocks|
        invariant 0 <= i <= |blocks|
        invariant leftover == old(leftover) + Concat(blocks[..i])
      {
        ConcatAppend(blocks[..i], [blocks[i]]);
        assert blocks[..i + 1] == blocks[..i] + [blocks[i]];
        leftover := leftover + blocks[i];
        i := i + 1;
      }
      assert blocks[..i] == blocks;
    }

    /** The inner cutting loop: whole frames are sliced off the front of the
        carried-forward samples and classified one by one. */
    method CutFrames() returns (segments: seq<Segment>)
      requires ValidSegmenter()
      modifies this`leftover, this`speechBuffer, this`silenceFrames, this`speaking
      ensures Valid()
      ensures leftover == Remainder(old(leftover), config.frameSize)
      ensures Trace(Current(), segments) ==
        Run(config, isSpeech, old(Current()), Chunks(old(leftover), config.frameSize))
    {
      var n := config.frameSize;
      ghost var start := Current();
      ghost var arrived := leftover;
      ghost var cut: seq<Frame> := [];
      segments := [];
      while |leftover| >= n
        invariant ValidSegmenter()
        invariant Chunks(arrived, n) == cut + Chunks(leftover, n)
        invariant Remainder(arrived, n) == Remainder(leftover, n)
        invariant Trace(Current(), segments) == Run(config, isSpeech, start, cut)
        decreases |leftover|
      {
        var frame := leftover[..n];
        ChunksStep(leftover, n);
        assert cut + Chunks(leftover, n) == (cut + [frame]) + Chunks(leftover[n..], n);
        leftover := leftover[n..];
        var segment := ObserveFrame(frame);
        RunSnoc(config, isSpeech, start, cut, frame);
        cut := cut + [frame];
        if segment.Some? {
          segments := segments + [segment.value];
        }
      }
      assert Chunks(leftover, n) == [];
      assert cut + [] == cut;
    }
  }
}
