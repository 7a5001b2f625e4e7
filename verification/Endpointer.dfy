/** The energy endpointer of internal/speechengine/stt.go: it cuts the sample stream into
    speech segments after trailing silence or at the window ceiling. Whether a frame is
    loud enough to be speech is a parameter. */
module Endpointer {
  import opened Bytes
  import opened PcmCodec
  import Division
  import opened Wrappers

  /** Nanoseconds, as time.Duration counts them. */
  const SECOND := 1_000_000_000
  const PRE_ROLL := 100_000_000
  const TUNING_MIN := 20_000_000
  const TUNING_MAX := 30 * SECOND

  datatype Config = Config(rate: nat, silenceHang: nat, maxWindow: nat, minSpeech: nat, voiced: seq<Sample> -> bool)

  /** What parseSTTOptions and STTTuning.Validate let through. */
  ghost predicate ValidConfig(c: Config) {
    && 8000 <= c.rate <= 192000
    && TUNING_MIN <= c.silenceHang <= TUNING_MAX
    && TUNING_MIN <= c.maxWindow <= TUNING_MAX
    && TUNING_MIN <= c.minSpeech <= c.maxWindow
  }

  /** A frame is loud enough to be speech. */
  predicate Voiced(c: Config, frame: seq<Sample>) { c.voiced(frame) }

  /** A segment and the number of stream samples before its end. */
  datatype Segment = Segment(pcm: seq<Sample>, endSamples: nat)

  datatype EndpointState = EndpointState(
    buf: seq<Sample>,
    totalSamples: nat,
    voicedRun: nat,
    silenceRun: nat,
    sawSpeech: bool)

  const INITIAL := EndpointState([], 0, 0, 0, false)

  function Duration(c: Config, samples: nat): nat
    requires c.rate > 0
  {
    samples * SECOND / c.rate
  }

  function Reset(s: EndpointState): EndpointState {
    EndpointState([], s.totalSamples, 0, 0, false)
  }

  function TrimPreRoll(c: Config, s: EndpointState): EndpointState {
    if |s.buf| <= Keep(c) then s else s.(buf := s.buf[|s.buf| - Keep(c)..])
  }

  /** appendChunk. */
  function Append(c: Config, s: EndpointState, chunk: seq<Sample>): EndpointState
    requires c.rate > 0
  {
    var grown := s.(buf := s.buf + chunk, totalSamples := s.totalSamples + |chunk|);
    var heard := if Voiced(c, chunk)
                 then grown.(sawSpeech := true, voicedRun := s.voicedRun + Duration(c, |chunk|), silenceRun := 0)
                 else grown.(silenceRun := s.silenceRun + Duration(c, |chunk|));
    if heard.sawSpeech then heard else TrimPreRoll(c, heard)
  }

  predicate EnoughSpeech(c: Config, s: EndpointState) {
    s.sawSpeech && s.voicedRun >= c.minSpeech
  }

  /** cutReady: a segment after enough speech and silence or at the ceiling; a full window
      without enough speech is dropped. */
  function Cut(c: Config, s: EndpointState): (EndpointState, Option<Segment>)
    requires c.rate > 0
  {
    var endpoint := EnoughSpeech(c, s) && s.silenceRun >= c.silenceHang;
    if !endpoint && Duration(c, |s.buf|) < c.maxWindow then (s, None)
    else if !EnoughSpeech(c, s) then (Reset(s), None)
    else (Reset(s), Some(Segment(s.buf, s.totalSamples)))
  }

  function FrameSize(c: Config, n: nat): nat {
    if c.rate / 50 < n then c.rate / 50 else n
  }

  function List(o: Option<Segment>): seq<Segment> {
    if o.Some? then [o.value] else []
  }

  /** push: 20 ms frames, the last one as short as the input left. */
  function Push(c: Config, s: EndpointState, samples: seq<Sample>): (EndpointState, seq<Segment>)
    requires c.rate >= 50
    decreases |samples|
  {
    if samples == [] then (s, []) else
      var take := FrameSize(c, |samples|);
      var (cut, segment) := Cut(c, Append(c, s, samples[..take]));
      var (last, more) := Push(c, cut, samples[take..]);
      (last, List(segment) + more)
  }

  /** flush at the end of the stream. */
  function Flush(c: Config, s: EndpointState): (EndpointState, Option<Segment>) {
    if EnoughSpeech(c, s) then (Reset(s), Some(Segment(s.buf, s.totalSamples))) else (Reset(s), None)
  }

  /** All reads of a session and the flush at its end. */
  function Session(c: Config, s: EndpointState, inputs: seq<seq<Sample>>): (EndpointState, seq<Segment>)
    requires c.rate >= 50
    decreases |inputs|
  {
    if inputs == [] then
      var (last, segment) := Flush(c, s);
      (last, List(segment))
    else
      var (next, segments) := Push(c, s, inputs[0]);
      var (last, more) := Session(c, next, inputs[1..]);
      (last, segments + more)
  }

  // ---- the cuts a stream calls for ----------------------------------------------------

  /** Consecutive frames as the read loop cuts them. */
  type Frames = seq<seq<Sample>>

  /** The 20 ms frames of one read. */
  function FramesOfRead(c: Config, samples: seq<Sample>): Frames
    requires c.rate >= 50
    decreases |samples|
  {
    if samples == [] then [] else
      var take := FrameSize(c, |samples|);
      [samples[..take]] + FramesOfRead(c, samples[take..])
  }

  /** The frames of a session. */
  function FramesOf(c: Config, inputs: seq<seq<Sample>>): Frames
    requires c.rate >= 50
  {
    if inputs == [] then [] else FramesOfRead(c, inputs[0]) + FramesOf(c, inputs[1..])
  }

  function VoicedTime(c: Config, frames: Frames): nat
    requires c.rate > 0
  {
    if frames == [] then 0
    else VoicedTime(c, frames[..|frames| - 1])
         + if Voiced(c, frames[|frames| - 1]) then Duration(c, |frames[|frames| - 1]|) else 0
  }

  /** How long the frames at the end have been quiet. */
  function TrailingSilence(c: Config, frames: Frames): nat
    requires c.rate > 0
  {
    if frames == [] || Voiced(c, frames[|frames| - 1]) then 0
    else TrailingSilence(c, frames[..|frames| - 1]) + Duration(c, |frames[|frames| - 1]|)
  }

  /** How many frames come before the first voiced one. */
  function Lead(c: Config, frames: Frames): (n: nat)
    ensures n <= |frames|
    ensures forall i :: 0 <= i < n ==> !Voiced(c, frames[i])
    ensures n < |frames| ==> Voiced(c, frames[n])
  {
    if frames == [] || Voiced(c, frames[0]) then 0 else 1 + Lead(c, frames[1..])
  }

  /** Samples of pre-roll kept. */
  function Keep(c: Config): nat { PRE_ROLL * c.rate / SECOND }

  function LastOf<T>(s: seq<T>, n: nat): seq<T> {
    if |s| <= n then s else s[|s| - n..]
  }

  /** The audio of a window of frames: the pre-roll of the quiet ones at its start, and
      everything from the first voiced one on. */
  function Window(c: Config, frames: Frames): seq<Sample> {
    LastOf(Flatten(frames[..Lead(c, frames)]), Keep(c)) + Flatten(frames[Lead(c, frames)..])
  }

  /** A window is to be cut: enough speech and then silence, or the ceiling. */
  predicate Ready(c: Config, frames: Frames)
    requires c.rate > 0
  {
    || (VoicedTime(c, frames) >= c.minSpeech && TrailingSilence(c, frames) >= c.silenceHang)
    || Duration(c, |Window(c, frames)|) >= c.maxWindow
  }

  /** No window that starts like these frames is to be cut yet. */
  ghost predicate Waiting(c: Config, frames: Frames)
    requires c.rate > 0
  {
    forall k :: 0 <= k <= |frames| ==> !Ready(c, frames[..k])
  }

  ghost predicate Shortest(c: Config, window: Frames)
    requires c.rate > 0
  {
    window != [] && Ready(c, window) && Waiting(c, window[..|window| - 1])
  }

  /** The frames are windows each cut as soon as it is ready, and a rest that is not. */
  ghost predicate Cuts(c: Config, frames: Frames, windows: seq<Frames>, rest: Frames)
    requires c.rate > 0
  {
    && frames == Flatten(windows) + rest
    && (forall i :: 0 <= i < |windows| ==> Shortest(c, windows[i]))
    && Waiting(c, rest)
  }

  /** What that says of a stream: a window ends at its ceiling or with enough speech and then
      silence, neither was so before its last frame, and neither is in the rest. */
  lemma CutsArePrompt(c: Config, frames: Frames, windows: seq<Frames>, rest: Frames)
    requires c.rate > 0 && Cuts(c, frames, windows, rest)
    ensures forall w :: w in windows ==>
              && w != []
              && (|| (VoicedTime(c, w) >= c.minSpeech && TrailingSilence(c, w) >= c.silenceHang)
                  || Duration(c, |Window(c, w)|) >= c.maxWindow)
              && forall k :: 0 <= k < |w| ==>
                   && (VoicedTime(c, w[..k]) < c.minSpeech || TrailingSilence(c, w[..k]) < c.silenceHang)
                   && Duration(c, |Window(c, w[..k])|) < c.maxWindow
    ensures forall k :: 0 <= k <= |rest| ==>
              && (VoicedTime(c, rest[..k]) < c.minSpeech || TrailingSilence(c, rest[..k]) < c.silenceHang)
              && Duration(c, |Window(c, rest[..k])|) < c.maxWindow
  {
    forall w | w in windows ensures Shortest(c, w)
      ensures forall k :: 0 <= k < |w| ==> !Ready(c, w[..k])
    {
      assert w != [] && Waiting(c, w[..|w| - 1]);
      forall k | 0 <= k < |w| ensures !Ready(c, w[..k]) { assert w[..|w| - 1][..k] == w[..k]; }
    }
  }

  /** A window is the last 100 ms of the quiet frames before the first voiced one, and all
      from there on. */
  lemma WindowMeans(c: Config, quiet: Frames, rest: Frames)
    requires forall frame :: frame in quiet ==> !c.voiced(frame)
    requires rest == [] || c.voiced(rest[0])
    ensures var before := Flatten(quiet);
            Window(c, quiet + rest) == before[if |before| > Keep(c) then |before| - Keep(c) else 0..] + Flatten(rest)
  {
    LeadIsQuiet(c, quiet, rest);
    hide Lead;
    var all := quiet + rest;
    assert all[..|quiet|] == quiet && all[|quiet|..] == rest;
  }

  lemma {:induction false} LeadIsQuiet(c: Config, quiet: Frames, rest: Frames)
    requires forall frame :: frame in quiet ==> !c.voiced(frame)
    requires rest == [] || c.voiced(rest[0])
    ensures Lead(c, quiet + rest) == |quiet|
    decreases |quiet|
  {
    if quiet == [] {
      assert quiet + rest == rest;
    } else {
      assert quiet[0] in quiet && (quiet + rest)[1..] == quiet[1..] + rest;
      LeadIsQuiet(c, quiet[1..], rest);
    }
  }

  /** The segment of a window that ends at the given sample, if enough of it is voiced. */
  function Kept(c: Config, window: Frames, end: nat): seq<Segment>
    requires c.rate > 0
  {
    if VoicedTime(c, window) >= c.minSpeech then [Segment(Window(c, window), end)] else []
  }

  /** The segments of consecutive windows from sample 0 on. */
  function SegmentsOf(c: Config, windows: seq<Frames>): seq<Segment>
    requires c.rate > 0
  {
    if windows == [] then [] else
      SegmentsOf(c, windows[..|windows| - 1])
      + Kept(c, windows[|windows| - 1], |Flatten(Flatten(windows))|)
  }

  /** A read is cut into 20 ms frames, rounded down to a sample, but for a shorter last one. */
  lemma {:induction false} FramesAreTwentyMs(c: Config, samples: seq<Sample>)
    requires c.rate >= 50
    ensures var frames := FramesOfRead(c, samples);
            && (frames == [] <==> samples == [])
            && (forall i :: 0 <= i < |frames| - 1 ==> 50 * |frames[i]| <= c.rate < 50 * (|frames[i]| + 1))
            && (forall i :: 0 <= i < |frames| ==> 0 < |frames[i]| && 50 * |frames[i]| <= c.rate)
    decreases |samples|
  {
    if samples != [] {
      var take := FrameSize(c, |samples|);
      FramesAreTwentyMs(c, samples[take..]);
    }
  }

  /** A duration is that of so many samples in nanoseconds, rounded down, and the pre-roll
      kept is 100 ms, rounded down to a sample. */
  lemma DurationIsTime(c: Config, samples: nat)
    requires c.rate > 0
    ensures Duration(c, samples) * c.rate <= samples * 1_000_000_000 < (Duration(c, samples) + 1) * c.rate
    ensures 10 * Keep(c) <= c.rate < 10 * (Keep(c) + 1)
  {
    var x, d := samples * SECOND, c.rate;
    assert x == (x / d) * d + x % d;
    assert (x / d + 1) * d == (x / d) * d + d;
  }

  lemma VoicedTimeOfOne(c: Config, frame: seq<Sample>)
    requires c.rate > 0
    ensures VoicedTime(c, [frame]) == if c.voiced(frame) then Duration(c, |frame|) else 0
  {
    hide Duration;
    assert [frame][..0] == [];
  }

  /** Voiced time adds up. */
  lemma {:induction false} VoicedTimeAdds(c: Config, a: Frames, b: Frames)
    requires c.rate > 0
    ensures VoicedTime(c, a + b) == VoicedTime(c, a) + VoicedTime(c, b)
    decreases |b|
  {
    if b == [] {
      assert a + b == a;
    } else {
      var n := |b| - 1;
      assert b == b[..n] + [b[n]] && a + b == a + b[..n] + [b[n]];
      VoicedTimeAdds(c, a, b[..n]);
      hide VoicedTime, TrailingSilence;
      TimesSnoc(c, b[..n], b[n]);
      TimesSnoc(c, a + b[..n], b[n]);
    }
  }

  function TotalTime(c: Config, frames: Frames): nat
    requires c.rate > 0
  {
    if frames == [] then 0 else TotalTime(c, frames[..|frames| - 1]) + Duration(c, |frames[|frames| - 1]|)
  }

  /** The silence at the end is the time of the frames since the last voiced one. */
  lemma {:induction false} SilenceIsSinceVoiced(c: Config, before: Frames, quiet: Frames)
    requires c.rate > 0 && forall frame :: frame in quiet ==> !c.voiced(frame)
    requires before == [] || c.voiced(before[|before| - 1])
    ensures TrailingSilence(c, before + quiet) == TotalTime(c, quiet)
    decreases |quiet|
  {
    if quiet == [] {
      assert before + quiet == before;
    } else {
      var n := |quiet| - 1;
      assert before + quiet == before + quiet[..n] + [quiet[n]];
      SilenceIsSinceVoiced(c, before, quiet[..n]);
      TimesSnoc(c, before + quiet[..n], quiet[n]);
      hide TrailingSilence, VoicedTime;
    }
  }

  /** The frames are the stream: reading cuts it, and loses and reorders nothing. */
  lemma {:induction false} FramesAreTheRead(c: Config, samples: seq<Sample>)
    requires c.rate >= 50
    ensures Flatten(FramesOfRead(c, samples)) == samples
    decreases |samples|
  {
    if samples != [] {
      var take := FrameSize(c, |samples|);
      FramesAreTheRead(c, samples[take..]);
      assert samples == samples[..take] + samples[take..];
    }
  }

  lemma {:induction false} FlattenConcat<T>(a: seq<seq<T>>, b: seq<seq<T>>)
    ensures Flatten(a + b) == Flatten(a) + Flatten(b)
  {
    if a == [] {
      assert a + b == b;
    } else {
      assert (a + b)[1..] == a[1..] + b;
      FlattenConcat(a[1..], b);
    }
  }

  lemma {:induction false} FramesAreTheStream(c: Config, inputs: seq<seq<Sample>>)
    requires c.rate >= 50
    ensures Flatten(FramesOf(c, inputs)) == Flatten(inputs)
  {
    if inputs != [] {
      FramesAreTheRead(c, inputs[0]);
      FramesAreTheStream(c, inputs[1..]);
      FlattenConcat(FramesOfRead(c, inputs[0]), FramesOf(c, inputs[1..]));
    }
  }

  /** There is only one way to cut a stream of frames. */
  lemma {:induction false} CutsAreUnique(c: Config, frames: Frames, v: seq<Frames>, x: Frames,
                                         w: seq<Frames>, y: Frames)
    requires c.rate > 0 && Cuts(c, frames, v, x) && Cuts(c, frames, w, y)
    ensures v == w && x == y
    decreases |v|
  {
    hide Ready;
    if v == [] {
      assert frames == x;
      if w != [] { FirstWindow(c, frames, w, y); }
    } else if w == [] {
      assert frames == y;
      FirstWindow(c, frames, v, x);
    } else {
      FirstWindow(c, frames, v, x);
      FirstWindow(c, frames, w, y);
      SameFirst(c, frames, v[0], w[0]);
      SameFirst(c, frames, w[0], v[0]);
      assert v[0] == w[0];
      CutsAreUnique(c, frames[|v[0]|..], v[1..], x, w[1..], y);
      assert v == [v[0]] + v[1..] && w == [w[0]] + w[1..];
    }
  }

  lemma FirstWindow(c: Config, frames: Frames, w: seq<Frames>, rest: Frames)
    requires c.rate > 0 && w != [] && Cuts(c, frames, w, rest)
    ensures Shortest(c, w[0]) && |w[0]| <= |frames| && w[0] == frames[..|w[0]|]
    ensures Cuts(c, frames[|w[0]|..], w[1..], rest)
  {
    hide Ready, Waiting, Shortest;
    assert frames == w[0] + (Flatten(w[1..]) + rest);
  }

  lemma SameFirst(c: Config, frames: Frames, a: Frames, b: Frames)
    requires c.rate > 0 && Shortest(c, a) && Shortest(c, b)
    requires |a| <= |frames| && |b| <= |frames| && a == frames[..|a|] && b == frames[..|b|]
    ensures |a| >= |b|
  {
    hide Ready;
    if |a| < |b| { NotYetReady(c, frames, b, |a|); }
  }

  lemma NotYetReady(c: Config, frames: Frames, window: Frames, k: nat)
    requires c.rate > 0 && Shortest(c, window) && |window| <= |frames| && window == frames[..|window|] && k < |window|
    ensures !Ready(c, frames[..k])
  {
    hide Ready;
    assert window[..|window| - 1][..k] == frames[..k];
  }

  // ---- the state machine makes those cuts ---------------------------------------------

  /** The state's fields are those of the frames since the last cut. */
  ghost predicate Fits(c: Config, s: EndpointState, frames: Frames)
    requires c.rate > 0
  {
    && s.buf == Window(c, frames)
    && s.voicedRun == VoicedTime(c, frames)
    && s.silenceRun == TrailingSilence(c, frames)
    && (s.sawSpeech <==> Lead(c, frames) < |frames|)
  }

  lemma {:induction false} LeadSnoc(c: Config, frames: Frames, chunk: seq<Sample>)
    ensures Lead(c, frames + [chunk]) ==
            if Lead(c, frames) == |frames| && !Voiced(c, chunk) then |frames| + 1 else Lead(c, frames)
  {
    if frames != [] {
      assert (frames + [chunk])[1..] == frames[1..] + [chunk];
      LeadSnoc(c, frames[1..], chunk);
    }
  }

  lemma TimesSnoc(c: Config, frames: Frames, chunk: seq<Sample>)
    requires c.rate > 0
    ensures VoicedTime(c, frames + [chunk])
         == VoicedTime(c, frames) + if Voiced(c, chunk) then Duration(c, |chunk|) else 0
    ensures TrailingSilence(c, frames + [chunk])
         == if Voiced(c, chunk) then 0 else TrailingSilence(c, frames) + Duration(c, |chunk|)
  {
    assert (frames + [chunk])[..|frames|] == frames;
  }

  lemma LastOfGrown<T>(a: seq<T>, x: seq<T>, n: nat)
    ensures LastOf(LastOf(a, n) + x, n) == LastOf(a + x, n)
  {
  }

  lemma WindowSnoc(c: Config, frames: Frames, chunk: seq<Sample>)
    ensures Window(c, frames + [chunk]) ==
            if Lead(c, frames + [chunk]) < |frames| + 1 then Window(c, frames) + chunk
            else LastOf(Window(c, frames) + chunk, Keep(c))
  {
    hide Keep, LastOf, Lead, Flatten;
    LeadSnoc(c, frames, chunk);
    var lead, all := Lead(c, frames), frames + [chunk];
    if Lead(c, all) < |all| {
      assert all[..lead] == frames[..lead] && all[lead..] == frames[lead..] + [chunk];
      FlattenAppend(frames[lead..], chunk);
      assert LastOf(Flatten(frames[..lead]), Keep(c)) + Flatten(frames[lead..]) + chunk
          == LastOf(Flatten(frames[..lead]), Keep(c)) + (Flatten(frames[lead..]) + chunk);
    } else {
      assert frames[..lead] == frames && frames[lead..] == [] && all[..|all|] == all && all[|all|..] == [];
      NothingFlat();
      FlattenAppend(frames, chunk);
      LastOfGrown(Flatten(frames), chunk, Keep(c));
      assert LastOf(Flatten(frames), Keep(c)) + [] == LastOf(Flatten(frames), Keep(c));
    }
  }

  lemma NothingFlat()
    ensures Flatten<Sample>([]) == []
  {
  }

  /** appendChunk adds the chunk to the frames held. */
  lemma AppendFits(c: Config, s: EndpointState, frames: Frames, chunk: seq<Sample>)
    requires c.rate > 0 && Fits(c, s, frames)
    ensures Fits(c, Append(c, s, chunk), frames + [chunk])
  {
    hide Window, VoicedTime, TrailingSilence, Duration;
    LeadSnoc(c, frames, chunk);
    TimesSnoc(c, frames, chunk);
    WindowSnoc(c, frames, chunk);
    TrimIsLastOf(c, s.(buf := s.buf + chunk));
  }

  lemma TrimIsLastOf(c: Config, s: EndpointState)
    ensures TrimPreRoll(c, s).buf == LastOf(s.buf, Keep(c))
  {
  }

  lemma {:induction false} VoicedHasSpeech(c: Config, frames: Frames)
    requires c.rate > 0 && Lead(c, frames) == |frames|
    ensures VoicedTime(c, frames) == 0
    decreases |frames|
  {
    if frames != [] {
      var n := |frames| - 1;
      assert frames == frames[..n] + [frames[n]];
      LeadSnoc(c, frames[..n], frames[n]);
      VoicedHasSpeech(c, frames[..n]);
    }
  }

  lemma EnoughIsVoiced(c: Config, s: EndpointState, frames: Frames)
    requires ValidConfig(c) && Fits(c, s, frames)
    ensures EnoughSpeech(c, s) <==> VoicedTime(c, frames) >= c.minSpeech
  {
    if Lead(c, frames) == |frames| { VoicedHasSpeech(c, frames); }
  }

  lemma NoFrames(c: Config, s: EndpointState)
    requires c.rate > 0
    ensures Fits(c, Reset(s), []) && Fits(c, INITIAL, [])
  {
  }

  lemma NothingReady(c: Config)
    requires ValidConfig(c)
    ensures Waiting(c, [])
  {
    assert Duration(c, 0) == 0;
  }

  /** cutReady cuts exactly the windows that are ready, and keeps those with speech. */
  lemma CutFits(c: Config, s: EndpointState, frames: Frames)
    requires ValidConfig(c) && Fits(c, s, frames)
    ensures var (next, segment) := Cut(c, s);
            if Ready(c, frames) then next == Reset(s) && List(segment) == Kept(c, frames, s.totalSamples)
            else next == s && segment == None
  {
    hide Window, VoicedTime, TrailingSilence, Duration;
    EnoughIsVoiced(c, s, frames);
  }

  /** flush keeps what is left of the stream if enough of it is voiced. */
  lemma FlushFits(c: Config, s: EndpointState, frames: Frames)
    requires ValidConfig(c) && Fits(c, s, frames)
    ensures List(Flush(c, s).1) == Kept(c, frames, s.totalSamples)
  {
    hide Window, VoicedTime, TrailingSilence, Duration;
    EnoughIsVoiced(c, s, frames);
  }

  /** Where a session stands: the frames so far, cut as they call for, and a state that fits
      the frames not cut yet. */
  ghost predicate Stands(c: Config, s: EndpointState, frames: Frames, windows: seq<Frames>, rest: Frames)
    requires c.rate > 0
  {
    Cuts(c, frames, windows, rest) && Fits(c, s, rest) && s.totalSamples == |Flatten(frames)|
  }

  lemma WaitingSnoc(c: Config, frames: Frames, chunk: seq<Sample>)
    requires c.rate > 0 && Waiting(c, frames) && !Ready(c, frames + [chunk])
    ensures Waiting(c, frames + [chunk])
  {
    hide Ready;
    var all := frames + [chunk];
    forall k | 0 <= k <= |all| ensures !Ready(c, all[..k]) {
      if k <= |frames| { assert all[..k] == frames[..k]; } else { assert all[..k] == all; }
    }
  }

  lemma CutsSnoc(c: Config, frames: Frames, windows: seq<Frames>, rest: Frames, chunk: seq<Sample>)
    requires ValidConfig(c) && Cuts(c, frames, windows, rest)
    ensures if Ready(c, rest + [chunk]) then Cuts(c, frames + [chunk], windows + [rest + [chunk]], [])
            else Cuts(c, frames + [chunk], windows, rest + [chunk])
  {
    hide Ready;
    var window := rest + [chunk];
    assert frames + [chunk] == Flatten(windows) + window;
    if Ready(c, window) {
      assert window[..|window| - 1] == rest;
      assert Shortest(c, window);
      NothingReady(c);
      FlattenAppend(windows, window);
      assert Flatten(windows + [window]) + [] == frames + [chunk];
    } else {
      WaitingSnoc(c, rest, chunk);
    }
  }

  lemma SegmentsSnoc(c: Config, windows: seq<Frames>, window: Frames)
    requires c.rate > 0
    ensures SegmentsOf(c, windows + [window])
         == SegmentsOf(c, windows) + Kept(c, window, |Flatten(Flatten(windows) + window)|)
  {
    assert (windows + [window])[..|windows|] == windows;
    FlattenAppend(windows, window);
  }

  /** One 20 ms frame: it joins the window, which is cut exactly when it has become ready. */
  lemma FrameStands(c: Config, s: EndpointState, frames: Frames, windows: seq<Frames>, rest: Frames, chunk: seq<Sample>)
      returns (windows': seq<Frames>, rest': Frames)
    requires ValidConfig(c) && Stands(c, s, frames, windows, rest)
    ensures var (next, segment) := Cut(c, Append(c, s, chunk));
            && Stands(c, next, frames + [chunk], windows', rest')
            && SegmentsOf(c, windows') == SegmentsOf(c, windows) + List(segment)
    ensures if Ready(c, rest + [chunk]) then windows' == windows + [rest + [chunk]] && rest' == []
            else windows' == windows && rest' == rest + [chunk]
  {
    hide Cuts, Fits, Ready, Kept, SegmentsOf, Cut, Append;
    var after := Append(c, s, chunk);
    AppendFits(c, s, rest, chunk);
    CutFits(c, after, rest + [chunk]);
    CutsSnoc(c, frames, windows, rest, chunk);
    FlattenAppend(frames, chunk);
    CountAfter(c, s, chunk);
    if Ready(c, rest + [chunk]) {
      windows', rest' := windows + [rest + [chunk]], [];
      NoFrames(c, after);
      SegmentsSnoc(c, windows, rest + [chunk]);
      assert Flatten(windows) + (rest + [chunk]) == frames + [chunk] by { AllCut(c, frames, windows, rest, chunk); }
    } else {
      windows', rest' := windows, rest + [chunk];
      assert SegmentsOf(c, windows) + [] == SegmentsOf(c, windows);
    }
  }

  lemma CountAfter(c: Config, s: EndpointState, chunk: seq<Sample>)
    requires c.rate > 0
    ensures Append(c, s, chunk).totalSamples == s.totalSamples + |chunk|
  {
  }

  lemma AllCut(c: Config, frames: Frames, windows: seq<Frames>, rest: Frames, chunk: seq<Sample>)
    requires c.rate > 0 && Cuts(c, frames, windows, rest)
    ensures Flatten(windows) + (rest + [chunk]) == frames + [chunk]
  {
  }

  lemma {:induction false} PushStands(c: Config, s: EndpointState, frames: Frames, windows: seq<Frames>, rest: Frames,
                                      samples: seq<Sample>) returns (windows': seq<Frames>, rest': Frames)
    requires ValidConfig(c) && Stands(c, s, frames, windows, rest)
    ensures var (next, segments) := Push(c, s, samples);
            && Stands(c, next, frames + FramesOfRead(c, samples), windows', rest')
            && SegmentsOf(c, windows') == SegmentsOf(c, windows) + segments
    decreases |samples|
  {
    hide Stands, Cut, Append, SegmentsOf, Ready;
    windows', rest' := windows, rest;
    if samples == [] {
      assert frames + FramesOfRead(c, samples) == frames;
    } else {
      var take := FrameSize(c, |samples|);
      var (cut, segment) := Cut(c, Append(c, s, samples[..take]));
      windows', rest' := FrameStands(c, s, frames, windows, rest, samples[..take]);
      windows', rest' := PushStands(c, cut, frames + [samples[..take]], windows', rest', samples[take..]);
      assert frames + [samples[..take]] + FramesOfRead(c, samples[take..]) == frames + FramesOfRead(c, samples);
      var more := Push(c, cut, samples[take..]).1;
      assert SegmentsOf(c, windows) + List(segment) + more == SegmentsOf(c, windows) + (List(segment) + more);
    }
  }

  lemma {:induction false} SessionStands(c: Config, s: EndpointState, frames: Frames, windows: seq<Frames>,
                                         rest: Frames, inputs: seq<seq<Sample>>)
      returns (windows': seq<Frames>, rest': Frames)
    requires ValidConfig(c) && Stands(c, s, frames, windows, rest)
    ensures var all := frames + FramesOf(c, inputs);
            && Cuts(c, all, windows', rest')
            && SegmentsOf(c, windows') + Kept(c, rest', |Flatten(all)|)
               == SegmentsOf(c, windows) + Session(c, s, inputs).1
    decreases |inputs|
  {
    hide Cuts, Fits, SegmentsOf, Kept, Push, Flush;
    if inputs == [] {
      windows', rest' := windows, rest;
      assert frames + FramesOf(c, inputs) == frames;
      FlushFits(c, s, rest);
    } else {
      var read := FramesOfRead(c, inputs[0]);
      var (next, segments) := Push(c, s, inputs[0]);
      windows', rest' := PushStands(c, s, frames, windows, rest, inputs[0]);
      ghost var before := SegmentsOf(c, windows');
      windows', rest' := SessionStands(c, next, frames + read, windows', rest', inputs[1..]);
      assert frames + read + FramesOf(c, inputs[1..]) == frames + FramesOf(c, inputs);
      var more := Session(c, next, inputs[1..]).1;
      assert SegmentsOf(c, windows) + segments + more == SegmentsOf(c, windows) + (segments + more);
    }
  }

  lemma StartStands(c: Config)
    requires ValidConfig(c)
    ensures Stands(c, INITIAL, [], [], []) && SegmentsOf(c, []) == []
  {
    NoFrames(c, INITIAL);
    NothingReady(c);
    NothingFlat();
  }

  /** However the stream is read, the segments that come out are those of the one way to cut
      its 20 ms frames: window after window, each cut as soon as it is ready, the rest at the
      end, and a segment for each in which enough is voiced. */
  lemma SessionMakesTheCuts(c: Config, inputs: seq<seq<Sample>>) returns (windows: seq<Frames>, rest: Frames)
    requires ValidConfig(c)
    ensures Cuts(c, FramesOf(c, inputs), windows, rest)
    ensures Session(c, INITIAL, inputs).1 == SegmentsOf(c, windows) + Kept(c, rest, |Flatten(inputs)|)
  {
    hide Stands, Cuts, SegmentsOf, Kept, Session;
    StartStands(c);
    var none: Frames, noWindows: seq<Frames> := [], [];
    windows, rest := SessionStands(c, INITIAL, none, noWindows, none, inputs);
    assert none + FramesOf(c, inputs) == FramesOf(c, inputs);
    FramesAreTheStream(c, inputs);
    assert SegmentsOf(c, noWindows) + Session(c, INITIAL, inputs).1 == Session(c, INITIAL, inputs).1;
  }

  /** Segment i of these is that of a window with enough voiced time. */
  ghost predicate Spoken(c: Config, windows: seq<Frames>, i: nat, segment: Segment)
    requires c.rate > 0
  {
    && i < |windows| && VoicedTime(c, windows[i]) >= c.minSpeech
    && segment == Segment(Window(c, windows[i]), |Flatten(Flatten(windows[..i + 1]))|)
  }

  lemma SpokenInside(c: Config, windows: seq<Frames>, i: nat, segment: Segment)
    requires c.rate > 0 && Spoken(c, windows, i, segment)
    ensures i < |windows|
  {
  }

  lemma SpokenBefore(c: Config, windows: seq<Frames>, i: nat, segment: Segment)
    requires c.rate > 0 && i < |windows| - 1
    ensures Spoken(c, windows[..|windows| - 1], i, segment) <==> Spoken(c, windows, i, segment)
  {
    hide Window, VoicedTime, Flatten;
    assert windows[..|windows| - 1][..i + 1] == windows[..i + 1];
  }

  lemma SpokenLast(c: Config, windows: seq<Frames>, segment: Segment)
    requires c.rate > 0 && windows != []
    ensures segment in Kept(c, windows[|windows| - 1], |Flatten(Flatten(windows))|)
            <==> Spoken(c, windows, |windows| - 1, segment)
  {
    hide Window, VoicedTime, Flatten;
    assert windows[..|windows| - 1 + 1] == windows;
  }

  /** Every window with enough voiced time is a segment that ends with it, and no other is. */
  lemma {:induction false} SpokenAreSegments(c: Config, windows: seq<Frames>, segment: Segment)
    requires c.rate > 0
    ensures segment in SegmentsOf(c, windows) <==> exists i: nat :: Spoken(c, windows, i, segment)
    decreases |windows|
  {
    hide Window, VoicedTime, Flatten, Spoken, Kept;
    if windows == [] {
      if i: nat :| Spoken(c, windows, i, segment) { SpokenInside(c, windows, i, segment); }
    } else {
      var n := |windows| - 1;
      SpokenAreSegments(c, windows[..n], segment);
      SpokenLast(c, windows, segment);
      if i: nat :| Spoken(c, windows, i, segment) {
        SpokenInside(c, windows, i, segment);
        if i < n { SpokenBefore(c, windows, i, segment); }
      }
      if i: nat :| Spoken(c, windows[..n], i, segment) {
        SpokenInside(c, windows[..n], i, segment);
        SpokenBefore(c, windows, i, segment);
      }
    }
  }

  /** So however a stream is read, what comes out of a session are exactly its windows, and
      its rest, with enough voiced time. */
  lemma SpokenIsHeard(c: Config, inputs: seq<seq<Sample>>) returns (windows: seq<Frames>, rest: Frames)
    requires ValidConfig(c)
    ensures Cuts(c, FramesOf(c, inputs), windows, rest)
    ensures forall segment :: segment in Session(c, INITIAL, inputs).1 <==>
              || (exists i: nat :: Spoken(c, windows, i, segment))
              || (VoicedTime(c, rest) >= c.minSpeech && segment == Segment(Window(c, rest), |Flatten(inputs)|))
  {
    windows, rest := SessionMakesTheCuts(c, inputs);
    hide Session, Cuts, SegmentsOf, Spoken, Window, VoicedTime;
    forall segment ensures segment in SegmentsOf(c, windows) <==> exists i: nat :: Spoken(c, windows, i, segment) {
      SpokenAreSegments(c, windows, segment);
    }
  }

  // ---- the window that is not cut yet -------------------------------------------------

  /** The state after these reads. */
  function PushedAll(c: Config, s: EndpointState, inputs: seq<seq<Sample>>): EndpointState
    requires c.rate >= 50
    decreases |inputs|
  {
    if inputs == [] then s else PushedAll(c, Push(c, s, inputs[0]).0, inputs[1..])
  }

  /** live: the window so far, once it holds speech. */
  function Live(s: EndpointState): seq<Segment> {
    if s.sawSpeech then [Segment(s.buf, s.totalSamples)] else []
  }

  lemma {:induction false} InputsStand(c: Config, s: EndpointState, frames: Frames, windows: seq<Frames>, rest: Frames,
                                       inputs: seq<seq<Sample>>) returns (windows': seq<Frames>, rest': Frames)
    requires ValidConfig(c) && Stands(c, s, frames, windows, rest)
    ensures Stands(c, PushedAll(c, s, inputs), frames + FramesOf(c, inputs), windows', rest')
    decreases |inputs|
  {
    hide Stands, Push;
    if inputs == [] {
      windows', rest' := windows, rest;
      assert frames + FramesOf(c, inputs) == frames;
    } else {
      var read := FramesOfRead(c, inputs[0]);
      windows', rest' := PushStands(c, s, frames, windows, rest, inputs[0]);
      windows', rest' := InputsStand(c, Push(c, s, inputs[0]).0, frames + read, windows', rest', inputs[1..]);
      assert frames + read + FramesOf(c, inputs[1..]) == frames + FramesOf(c, inputs);
    }
  }

  /** After any reads that is the rest of the cuts, as soon as one of its frames is voiced. */
  lemma LiveIsTheRest(c: Config, inputs: seq<seq<Sample>>) returns (windows: seq<Frames>, rest: Frames)
    requires ValidConfig(c)
    ensures Cuts(c, FramesOf(c, inputs), windows, rest)
    ensures Live(PushedAll(c, INITIAL, inputs))
         == if exists frame :: frame in rest && c.voiced(frame) then [Segment(Window(c, rest), |Flatten(inputs)|)]
            else []
  {
    StartStands(c);
    var none: Frames, noWindows: seq<Frames> := [], [];
    windows, rest := InputsStand(c, INITIAL, none, noWindows, none, inputs);
    assert none + FramesOf(c, inputs) == FramesOf(c, inputs);
    FramesAreTheStream(c, inputs);
    var s := PushedAll(c, INITIAL, inputs);
    hide PushedAll, Cuts, Window;
    if Lead(c, rest) < |rest| { assert rest[Lead(c, rest)] in rest; }
  }

  // ---- segments and the stream --------------------------------------------------------

  /** Each segment is the stretch of the stream that ends at its endSamples, and a later one
      starts no earlier than that. */
  ghost predicate InStream(stream: seq<Sample>, segments: seq<Segment>) {
    && (forall i :: 0 <= i < |segments| ==>
          && |segments[i].pcm| <= segments[i].endSamples <= |stream|
          && segments[i].pcm == stream[segments[i].endSamples - |segments[i].pcm|..segments[i].endSamples])
    && (forall i, j :: 0 <= i < j < |segments| ==>
          segments[i].endSamples <= segments[j].endSamples - |segments[j].pcm|)
  }

  ghost predicate Ends<T>(tail: seq<T>, all: seq<T>) {
    |tail| <= |all| && tail == all[|all| - |tail|..]
  }

  lemma EndOfSum<T>(a: seq<T>, b: seq<T>, n: nat)
    ensures Ends(LastOf(a, n) + b, a + b)
  {
  }

  lemma FlattenSplit<T>(chunks: seq<seq<T>>, k: nat)
    requires k <= |chunks|
    ensures Flatten(chunks) == Flatten(chunks[..k]) + Flatten(chunks[k..])
  {
    assert chunks == chunks[..k] + chunks[k..];
    FlattenConcat(chunks[..k], chunks[k..]);
  }

  lemma WindowEnds(c: Config, window: Frames)
    ensures Ends(Window(c, window), Flatten(window))
  {
    hide Keep, Flatten, LastOf, Ends;
    var lead := Lead(c, window);
    FlattenSplit(window, lead);
    EndOfSum(Flatten(window[..lead]), Flatten(window[lead..]), Keep(c));
  }

  lemma InStreamMore(stream: seq<Sample>, segments: seq<Segment>, more: seq<Sample>)
    requires InStream(stream, segments)
    ensures InStream(stream + more, segments)
  {
    forall i | 0 <= i < |segments|
      ensures segments[i].pcm == (stream + more)[segments[i].endSamples - |segments[i].pcm|..segments[i].endSamples]
    {
      assert (stream + more)[..|stream|] == stream;
    }
  }

  lemma WindowInStream(c: Config, stream: seq<Sample>, segments: seq<Segment>, window: Frames)
    requires c.rate > 0 && InStream(stream, segments)
    ensures var all := stream + Flatten(window); InStream(all, segments + Kept(c, window, |all|))
  {
    hide Window, VoicedTime, Flatten;
    var all, pcm := stream + Flatten(window), Window(c, window);
    InStreamMore(stream, segments, Flatten(window));
    WindowEnds(c, window);
    assert pcm == all[|all| - |pcm|..];
  }

  lemma {:induction false} SegmentsInStream(c: Config, windows: seq<Frames>)
    requires c.rate > 0
    ensures InStream(Flatten(Flatten(windows)), SegmentsOf(c, windows))
    decreases |windows|
  {
    hide InStream, Kept;
    if windows == [] {
      NothingInStream(Flatten(Flatten(windows)));
    } else {
      var n := |windows| - 1;
      SegmentsInStream(c, windows[..n]);
      WindowInStream(c, Flatten(Flatten(windows[..n])), SegmentsOf(c, windows[..n]), windows[n]);
      assert windows == windows[..n] + [windows[n]];
      FlattenAppend(windows[..n], windows[n]);
      FlattenConcat(Flatten(windows[..n]), windows[n]);
    }
  }

  lemma NothingInStream(stream: seq<Sample>)
    ensures InStream(stream, [])
  {
  }

  /** However the stream is read, the segments that come out are disjoint stretches of it,
      in order, each where it says. */
  lemma SegmentsAreTheStream(c: Config, inputs: seq<seq<Sample>>)
    requires ValidConfig(c)
    ensures InStream(Flatten(inputs), Session(c, INITIAL, inputs).1)
  {
    hide InStream, Kept, SegmentsOf, Session;
    var windows, rest := SessionMakesTheCuts(c, inputs);
    SegmentsInStream(c, windows);
    WindowInStream(c, Flatten(Flatten(windows)), SegmentsOf(c, windows), rest);
    FlattenConcat(Flatten(windows), rest);
    FramesAreTheStream(c, inputs);
  }

  // ---- what the worker relies on ------------------------------------------------------

  /** The ends of what one push returns grow from the old sample count to the new one. */
  lemma {:induction false} PushEnds(c: Config, s: EndpointState, samples: seq<Sample>)
    requires c.rate >= 50
    ensures var (s', segments) := Push(c, s, samples);
            && s'.totalSamples == s.totalSamples + |samples|
            && (forall i :: 0 <= i < |segments| ==> s.totalSamples <= segments[i].endSamples <= s'.totalSamples)
            && (forall i, j :: 0 <= i < j < |segments| ==> segments[i].endSamples <= segments[j].endSamples)
    decreases |samples|
  {
    if samples != [] {
      var take := FrameSize(c, |samples|);
      PushEnds(c, Cut(c, Append(c, s, samples[..take])).0, samples[take..]);
    }
  }

  // ---- the endpointer itself ----------------------------------------------------------

  class EnergyEndpointer {
    const config: Config
    var buf: seq<Sample>
    var totalSamples: nat
    var voicedRun: nat
    var silenceRun: nat
    var sawSpeech: bool
    /** The frames since the last cut. */
    ghost var window: Frames

    function Now(): EndpointState
      reads this
    {
      EndpointState(buf, totalSamples, voicedRun, silenceRun, sawSpeech)
    }

    ghost predicate Valid()
      reads this
    {
      ValidConfig(config) && Fits(config, Now(), window)
    }

    constructor (config: Config)
      requires ValidConfig(config)
      ensures Valid() && this.config == config && Now() == INITIAL && window == []
    {
      this.config := config;
      buf, totalSamples, voicedRun, silenceRun, sawSpeech := [], 0, 0, 0, false;
      window := [];
      new;
      NoFrames(config, INITIAL);
    }

    method ResetRun()
      requires ValidConfig(config)
      modifies this
      ensures Valid() && window == [] && Now() == Reset(old(Now()))
    {
      buf := [];
      voicedRun, silenceRun, sawSpeech := 0, 0, false;
      window := [];
      NoFrames(config, Now());
    }

    method AppendChunk(chunk: seq<Sample>)
      requires config.rate > 0
      modifies `buf, `totalSamples, `voicedRun, `silenceRun, `sawSpeech
      ensures Now() == Append(config, old(Now()), chunk)
    {
      buf := buf + chunk;
      totalSamples := totalSamples + |chunk|;
      var duration := |chunk| * SECOND / config.rate;
      if Voiced(config, chunk) {
        sawSpeech := true;
        voicedRun := voicedRun + duration;
        silenceRun := 0;
      } else {
        silenceRun := silenceRun + duration;
      }
      if !sawSpeech {
        var keep := Keep(config);
        if |buf| > keep { buf := buf[|buf| - keep..]; }
      }
    }

    /** The chunk joins the frames since the last cut, and every field keeps meaning them. */
    method AppendFrame(chunk: seq<Sample>)
      requires Valid()
      modifies this
      ensures Valid() && window == old(window) + [chunk] && totalSamples == old(totalSamples) + |chunk|
      ensures Now() == Append(config, old(Now()), chunk)
    {
      AppendFits(config, Now(), window, chunk);
      CountAfter(config, Now(), chunk);
      hide Fits, Append;
      AppendChunk(chunk);
      window := window + [chunk];
    }

    /** Cuts the frames held exactly when they are ready; the segment is their audio when
        enough of it is voiced. */
    method CutReady() returns (segment: Option<Segment>)
      requires Valid()
      modifies this
      ensures Valid() && totalSamples == old(totalSamples)
      ensures window == if Ready(config, old(window)) then [] else old(window)
      ensures List(segment) == if Ready(config, old(window)) then Kept(config, old(window), totalSamples) else []
      ensures (Now(), segment) == Cut(config, old(Now()))
    {
      CutFits(config, Now(), window);
      hide Fits, Ready, Kept;
      var bufferDuration := |buf| * SECOND / config.rate;
      var enoughSpeech := sawSpeech && voicedRun >= config.minSpeech;
      var endpoint := enoughSpeech && silenceRun >= config.silenceHang;
      if !endpoint && bufferDuration < config.maxWindow {
        KeptOnlyIfReady(config, Now(), window);
        return None;
      }
      CutOnlyIfReady(config, Now(), window);
      if !enoughSpeech {
        ResetRun();
        return None;
      }
      segment := Some(Segment(buf, totalSamples));
      ResetRun();
    }

    method PushSamples(samples: seq<Sample>) returns (out: seq<Segment>)
      requires Valid()
      modifies this
      ensures Valid() && totalSamples == old(totalSamples) + |samples|
      ensures (Now(), out) == Push(config, old(Now()), samples)
    {
      RateFits(config);
      hide *;
      out := [];
      var rest := samples;
      while |rest| > 0
        invariant Valid() && totalSamples + |rest| == old(totalSamples) + |samples|
        invariant Push(config, old(Now()), samples).0 == Push(config, Now(), rest).0
        invariant Push(config, old(Now()), samples).1 == out + Push(config, Now(), rest).1
        decreases |rest|
      {
        ghost var was := out;
        var ready;
        rest, ready := PushNext(rest);
        out := out + ready;
        JoinedOn(was, ready, Push(config, Now(), rest).1);
      }
      PushNothing(config, Now());
      assert rest == [] && out + [] == out;
    }

    /** One turn of push's loop. */
    method PushNext(samples: seq<Sample>) returns (rest: seq<Sample>, ready: seq<Segment>)
      requires Valid() && samples != []
      modifies this
      ensures Valid() && |rest| < |samples| && totalSamples + |rest| == old(totalSamples) + |samples|
      ensures config.rate >= 50
      ensures Push(config, old(Now()), samples).0 == Push(config, Now(), rest).0
      ensures Push(config, old(Now()), samples).1 == ready + Push(config, Now(), rest).1
    {
      RateFits(config);
      hide Append, Cut, Fits, Ready, Kept, Push, FrameSize, ValidConfig;
      var take := FrameSize(config, |samples|);
      PushFrame(config, Now(), samples);
      AppendFrame(samples[..take]);
      var segment := CutReady();
      rest, ready := samples[take..], List(segment);
    }

    /** What is left of the stream becomes a segment exactly when enough of it is voiced. */
    method FlushAll() returns (segment: Option<Segment>)
      requires Valid()
      modifies this
      ensures Valid() && window == [] && List(segment) == Kept(config, old(window), old(totalSamples))
      ensures (Now(), segment) == Flush(config, old(Now()))
    {
      FlushFits(config, Now(), window);
      hide Fits, Kept;
      segment := if sawSpeech && voicedRun >= config.minSpeech then Some(Segment(buf, totalSamples)) else None;
      ResetRun();
    }
  }

  lemma JoinedOn(a: seq<Segment>, b: seq<Segment>, c: seq<Segment>)
    ensures a + (b + c) == a + b + c
  {
  }

  lemma RateFits(c: Config)
    requires ValidConfig(c)
    ensures c.rate >= 50
  {
  }

  lemma PushNothing(c: Config, s: EndpointState)
    requires c.rate >= 50
    ensures Push(c, s, []) == (s, [])
  {
  }

  lemma PushFrame(c: Config, s: EndpointState, samples: seq<Sample>)
    requires c.rate >= 50 && samples != []
    ensures var take := FrameSize(c, |samples|);
            var (cut, segment) := Cut(c, Append(c, s, samples[..take]));
            && 0 < take <= |samples|
            && Push(c, s, samples).0 == Push(c, cut, samples[take..]).0
            && Push(c, s, samples).1 == List(segment) + Push(c, cut, samples[take..]).1
  {
    hide Cut, Append;
  }

  lemma KeptOnlyIfReady(c: Config, s: EndpointState, window: Frames)
    requires ValidConfig(c) && Fits(c, s, window)
    requires !(EnoughSpeech(c, s) && s.silenceRun >= c.silenceHang) && Duration(c, |s.buf|) < c.maxWindow
    ensures !Ready(c, window)
  {
    hide Window, VoicedTime, TrailingSilence, Duration;
    EnoughIsVoiced(c, s, window);
  }

  lemma CutOnlyIfReady(c: Config, s: EndpointState, window: Frames)
    requires ValidConfig(c) && Fits(c, s, window)
    requires (EnoughSpeech(c, s) && s.silenceRun >= c.silenceHang) || Duration(c, |s.buf|) >= c.maxWindow
    ensures Ready(c, window)
  {
    hide Window, VoicedTime, TrailingSilence, Duration;
    EnoughIsVoiced(c, s, window);
  }

  /** A whole session through one endpointer: the segments of the one way to cut the frames
      that the reads are cut into. */
  method RunSession(config: Config, inputs: seq<seq<Sample>>)
      returns (segments: seq<Segment>, ghost windows: seq<Frames>, ghost rest: Frames)
    requires ValidConfig(config)
    ensures segments == Session(config, INITIAL, inputs).1
    ensures Cuts(config, FramesOf(config, inputs), windows, rest)
    ensures segments == SegmentsOf(config, windows) + Kept(config, rest, |Flatten(inputs)|)
  {
    hide Push, Flush, Fits, Cuts, SegmentsOf, Kept;
    var endpointer := new EnergyEndpointer(config);
    segments := [];
    for k := 0 to |inputs|
      invariant fresh(endpointer) && endpointer.Valid() && endpointer.config == config
      invariant Session(config, INITIAL, inputs).1 == segments + Session(config, endpointer.Now(), inputs[k..]).1
    {
      assert inputs[k..][1..] == inputs[k + 1..];
      var ready := endpointer.PushSamples(inputs[k]);
      ghost var more := Session(config, endpointer.Now(), inputs[k + 1..]).1;
      assert segments + (ready + more) == segments + ready + more;
      segments := segments + ready;
    }
    var last := endpointer.FlushAll();
    segments := segments + List(last);
    windows, rest := SessionMakesTheCuts(config, inputs);
  }
}
