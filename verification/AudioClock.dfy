// Presentation times of captured audio: one wall-clock anchor, then samples counted.
module AudioClock {
  import opened Wrappers
  import opened Numbers
  import opened Bytes

  const BYTES_PER_SAMPLE := 2
  const MICROS := 1_000_000

  function Div(x: nat, d: nat): nat
    requires d > 0
  {
    x / d
  }

  // One buffer of captured audio, the wall clock at that moment, and whether
  // the channel to the encoder has room for the frame.
  datatype Chunk = Chunk(bytes: nat, nowUs: nat, delivered: bool)

  // What the audio server calls back with: a format it settled on, or a buffer.
  datatype Event =
    | ParamChanged(rate: nat, channels: nat)
    | Process(chunk: Chunk)

  // What a frame tells the encoder about itself.
  datatype Frame = Frame(pts: nat, sampleRate: nat, channels: nat)

  // The configured shape, the negotiated one (zero until there is one), and
  // the clock itself.
  datatype Clock = Clock(
    sampleRate: nat, channels: nat, negotiatedRate: nat, negotiatedChannels: nat,
    anchor: Option<nat>, samples: nat)

  function SamplesIn(c: Clock, chunk: Chunk): nat {
    chunk.bytes / BYTES_PER_SAMPLE / Max(c.channels, 1)
  }

  function OffsetUs(samples: nat, sampleRate: nat): nat {
    Div(Min(samples * MICROS, U64_MAX), Max(sampleRate, 1))
  }

  // The presentation time of a chunk that holds samples.
  function Pts(c: Clock, chunk: Chunk): nat {
    match c.anchor
    case Some(anchor) => Min(anchor + OffsetUs(c.samples, c.sampleRate), U64_MAX)
    case None => chunk.nowUs
  }

  function AnnouncedRate(c: Clock): nat {
    if c.negotiatedRate > 0 then c.negotiatedRate else c.sampleRate
  }

  function AnnouncedChannels(c: Clock): nat {
    if c.negotiatedChannels > 0 then c.negotiatedChannels else c.channels
  }

  function FrameOf(c: Clock, chunk: Chunk): Frame {
    Frame(Pts(c, chunk), AnnouncedRate(c), AnnouncedChannels(c))
  }

  function After(c: Clock, e: Event): Clock {
    match e
    case ParamChanged(rate, channels) => c.(negotiatedRate := rate, negotiatedChannels := channels % U16_COUNT)
    case Process(chunk) =>
      var n := SamplesIn(c, chunk);
      if n == 0 then c
      else c.(anchor := if c.anchor.Some? then c.anchor else Some(chunk.nowUs),
              samples := Min(c.samples + n, U64_MAX))
  }

  class UserData {
    const sampleRate: nat
    const channels: nat
    var negotiatedRate: nat
    var negotiatedChannels: nat
    var ptsAnchorUs: Option<nat>
    var samplesSinceAnchor: nat

    ghost function Value(): Clock
      reads this
    {
      Clock(sampleRate, channels, negotiatedRate, negotiatedChannels, ptsAnchorUs, samplesSinceAnchor)
    }

    constructor (sampleRate: nat, channels: nat)
      ensures Value() == Clock(sampleRate, channels, 0, 0, None, 0)
    {
      this.sampleRate, this.channels := sampleRate, channels;
      negotiatedRate, negotiatedChannels := 0, 0;
      ptsAnchorUs, samplesSinceAnchor := None, 0;
    }

    // A raw audio format was settled on; channel counts are kept in 16 bits.
    method HandleParamChanged(rate: nat, channelCount: nat)
      modifies this
      ensures Value() == After(old(Value()), ParamChanged(rate, channelCount))
    {
      negotiatedRate := rate;
      negotiatedChannels := channelCount % U16_COUNT;
    }

    // Handle one buffer. A frame that finds the channel full is dropped, and
    // its samples still count.
    method HandleProcess(chunk: Chunk) returns (sent: Option<Frame>)
      modifies this
      ensures Value() == After(old(Value()), Process(chunk))
      ensures sent == if SamplesIn(old(Value()), chunk) > 0 && chunk.delivered
                      then Some(FrameOf(old(Value()), chunk)) else None
    {
      var n := chunk.bytes / BYTES_PER_SAMPLE / Max(channels, 1);
      if n == 0 {
        return None;
      }
      var pts;
      match ptsAnchorUs {
        case Some(anchor) =>
          var offset := Min(samplesSinceAnchor * MICROS, U64_MAX) / Max(sampleRate, 1);
          pts := Min(anchor + offset, U64_MAX);
        case None =>
          ptsAnchorUs := Some(chunk.nowUs);
          pts := chunk.nowUs;
      }
      samplesSinceAnchor := Min(samplesSinceAnchor + n, U64_MAX);
      var rate := if negotiatedRate > 0 then negotiatedRate else sampleRate;
      var channelCount := if negotiatedChannels > 0 then negotiatedChannels else channels;
      sent := if chunk.delivered then Some(Frame(pts, rate, channelCount)) else None;
    }
  }

  // ---------------------------------------------------------------------
  // Whole runs.
  // ---------------------------------------------------------------------

  function AfterAll(c: Clock, events: seq<Event>): Clock {
    if events == [] then c else After(AfterAll(c, events[..|events| - 1]), events[|events| - 1])
  }

  // The samples a callback brings.
  function Brings(c: Clock, e: Event): nat {
    if e.Process? then SamplesIn(c, e.chunk) else 0
  }

  // All samples captured, delivered or not.
  function Total(c: Clock, events: seq<Event>): nat {
    if events == [] then 0 else Total(c, events[..|events| - 1]) + Brings(c, events[|events| - 1])
  }

  // The wall clock at the first chunk that holds samples.
  function Anchor(c: Clock, events: seq<Event>): Option<nat> {
    if events == [] then None
    else
      var earlier, last := Anchor(c, events[..|events| - 1]), events[|events| - 1];
      if earlier.Some? then earlier else if Brings(c, last) > 0 then Some(last.chunk.nowUs) else None
  }

  // Nothing captured yet; a format may have been settled on.
  predicate Fresh(c: Clock) {
    c.anchor == None && c.samples == 0
  }

  lemma {:induction false} CountsEverything(c: Clock, events: seq<Event>)
    requires Fresh(c)
    ensures var after := AfterAll(c, events);
      && after.anchor == Anchor(c, events) && after.samples == Min(Total(c, events), U64_MAX)
      && after.sampleRate == c.sampleRate && after.channels == c.channels
    ensures Anchor(c, events).None? ==> Total(c, events) == 0
  {
    if events != [] {
      CountsEverything(c, events[..|events| - 1]);
    }
  }

  lemma OffsetMonotone(a: nat, b: nat, sampleRate: nat)
    requires a <= b
    ensures OffsetUs(a, sampleRate) <= OffsetUs(b, sampleRate)
  {
    DivMonotone(Min(a * MICROS, U64_MAX), Min(b * MICROS, U64_MAX), Max(sampleRate, 1));
  }

  lemma DivMonotone(x: nat, y: nat, d: nat)
    requires x <= y && d > 0
    ensures Div(x, d) <= Div(y, d)
  {
    hide Div;
    DivisionBounds(x, d);
    DivisionBounds(y, d);
    FactorOrder(Div(x, d), Div(y, d) + 1, d);
  }

  lemma DivisionBounds(x: nat, d: nat)
    requires d > 0
    ensures Div(x, d) * d <= x < (Div(x, d) + 1) * d
  {
  }

  lemma {:induction false} FactorOrder(a: nat, b: nat, d: nat)
    requires a * d < b * d
    ensures a < b
  {
    if a > 0 && b > 0 {
      assert a * d == (a - 1) * d + d && b * d == (b - 1) * d + d;
      FactorOrder(a - 1, b - 1, d);
    }
  }

  lemma {:induction false} TotalGrows(c: Clock, events: seq<Event>, i: nat, j: nat)
    requires i <= j <= |events|
    ensures Total(c, events[..i]) <= Total(c, events[..j])
    ensures Anchor(c, events[..i]).Some? ==> Anchor(c, events[..j]) == Anchor(c, events[..i])
    decreases j
  {
    if i < j {
      assert events[..j][..j - 1] == events[..j - 1];
      TotalGrows(c, events, i, j - 1);
    }
  }

  // The frame made of the buffer in callback `k` of a run.
  function FrameAt(c: Clock, events: seq<Event>, k: nat): Frame
    requires k < |events| && events[k].Process?
  {
    FrameOf(AfterAll(c, events[..k]), events[k].chunk)
  }

  // Presentation times never go back, over any callbacks whatever: dropped
  // and empty buffers, format changes, and even past the saturation of the
  // counters.
  lemma PtsNeverDecreases(c: Clock, events: seq<Event>, i: nat, j: nat)
    requires Fresh(c) && i < j < |events|
    requires events[i].Process? && events[j].Process? && Brings(c, events[i]) > 0
    requires events[i].chunk.nowUs <= U64_MAX
    ensures FrameAt(c, events, i).pts <= FrameAt(c, events, j).pts
  {
    CountsEverything(c, events[..i]);
    CountsEverything(c, events[..j]);
    CountsEverything(c, events[..i + 1]);
    assert events[..i + 1][..i] == events[..i];
    TotalGrows(c, events, i, i + 1);
    TotalGrows(c, events, i + 1, j);
    OffsetMonotone(Min(Total(c, events[..i]), U64_MAX), Min(Total(c, events[..j]), U64_MAX), c.sampleRate);
  }

  // A frame after the anchor, before anything saturates.
  ghost predicate Measured(c: Clock, events: seq<Event>, k: nat) {
    && k < |events| && Brings(c, events[k]) > 0 && Anchor(c, events[..k]).Some?
    && Anchor(c, events[..k]).value + Total(c, events[..k]) * MICROS <= U64_MAX
  }

  // The time of a frame is less than a microsecond before the anchor plus all
  // samples captured before it at this rate.
  ghost predicate OnRate(c: Clock, events: seq<Event>, k: nat, rate: nat)
    requires Measured(c, events, k)
  {
    var elapsed := FrameAt(c, events, k).pts - Anchor(c, events[..k]).value;
    0 <= elapsed && elapsed * rate <= Total(c, events[..k]) * MICROS < (elapsed + 1) * rate
  }

  // Before saturation every time keeps the configured rate.
  lemma PtsWithinOneMicrosecond(c: Clock, events: seq<Event>, k: nat)
    requires Fresh(c) && Measured(c, events, k)
    ensures OnRate(c, events, k, Max(c.sampleRate, 1))
  {
    hide Total, Anchor, OffsetUs, AfterAll;
    CountsEverything(c, events[..k]);
    OffsetExact(Total(c, events[..k]), Max(c.sampleRate, 1), Anchor(c, events[..k]).value);
    OffsetAtLeastOne(Min(Total(c, events[..k]), U64_MAX), c.sampleRate);
  }

  lemma OffsetAtLeastOne(samples: nat, sampleRate: nat)
    ensures OffsetUs(samples, Max(sampleRate, 1)) == OffsetUs(samples, sampleRate)
  {
  }

  lemma OffsetExact(total: nat, sampleRate: nat, anchor: nat)
    requires sampleRate > 0 && anchor + total * MICROS <= U64_MAX
    ensures var elapsed := Min(anchor + OffsetUs(Min(total, U64_MAX), sampleRate), U64_MAX) - anchor;
      0 <= elapsed && elapsed * sampleRate <= total * MICROS < (elapsed + 1) * sampleRate
  {
    var micros := total * MICROS;
    hide Div;
    assert OffsetUs(Min(total, U64_MAX), sampleRate) == Div(micros, sampleRate);
    DivisionBounds(micros, sampleRate);
    QuotientBelow(micros, sampleRate);
  }

  lemma QuotientBelow(x: nat, d: nat)
    requires d > 0
    ensures Div(x, d) <= x
  {
    hide Div;
    DivisionBounds(x, d);
    Scales(Div(x, d), d);
  }

  lemma {:induction false} Scales(q: nat, d: nat)
    requires d > 0
    ensures q <= q * d
  {
    if q > 0 {
      Scales(q - 1, d);
      assert q * d == (q - 1) * d + d;
    }
  }

  // ---------------------------------------------------------------------
  // The announced rate.
  // ---------------------------------------------------------------------

  // No format is settled on along the way.
  predicate Steady(events: seq<Event>) {
    forall i :: 0 <= i < |events| ==> events[i].Process?
  }

  lemma {:induction false} SteadyAnnounces(c: Clock, events: seq<Event>)
    requires Steady(events)
    ensures AnnouncedRate(AfterAll(c, events)) == AnnouncedRate(c)
  {
    if events != [] {
      SteadyAnnounces(c, events[..|events| - 1]);
    }
  }

  // Equal buffers, one after the other.
  function Uniform(chunk: Chunk, n: nat): (events: seq<Event>)
    ensures |events| == n
  {
    seq(n, _ => Process(chunk))
  }

  lemma {:induction false} UniformTotal(c: Clock, chunk: Chunk, n: nat)
    requires SamplesIn(c, chunk) > 0
    ensures Total(c, Uniform(chunk, n)) == n * SamplesIn(c, chunk)
    ensures Anchor(c, Uniform(chunk, n)) == if n == 0 then None else Some(chunk.nowUs)
  {
    if n > 0 {
      var events := Uniform(chunk, n);
      assert events[..n - 1] == Uniform(chunk, n - 1) && events[n - 1] == Process(chunk);
      UniformTotal(c, chunk, n - 1);
      assert n * SamplesIn(c, chunk) == (n - 1) * SamplesIn(c, chunk) + SamplesIn(c, chunk);
    }
  }

  // One sample in every channel.
  function OneSample(c: Clock): Chunk {
    Chunk(BYTES_PER_SAMPLE * Max(c.channels, 1), 0, true)
  }

  lemma OneSampleHolds(c: Clock)
    ensures SamplesIn(c, OneSample(c)) == 1
  {
    var d := Max(c.channels, 1);
    assert BYTES_PER_SAMPLE * d / BYTES_PER_SAMPLE == d;
  }

  // The run that tells two rates apart: as many samples as the lower rate
  // has in a second, then one more.
  lemma RatesTellApart(c: Clock, rate: nat) returns (events: seq<Event>, k: nat)
    requires Fresh(c) && c.sampleRate <= U32_MAX && rate <= U32_MAX && rate != Max(c.sampleRate, 1)
    ensures Steady(events) && Measured(c, events, k) && !OnRate(c, events, k, rate)
  {
    hide Total, Anchor, AfterAll, SamplesIn;
    var own := Max(c.sampleRate, 1);
    k := Min(own, Max(rate, 1));
    events := Uniform(OneSample(c), k + 1);
    OneSampleHolds(c);
    assert events[..k] == Uniform(OneSample(c), k);
    UniformTotal(c, OneSample(c), k);
    assert events[k] == Process(OneSample(c));
    assert Measured(c, events, k);
    PtsWithinOneMicrosecond(c, events, k);
    SecondDiffers(FrameAt(c, events, k).pts, own, rate, k);
  }

  // A second of the lower rate is no second of the higher one.
  lemma SecondDiffers(elapsed: nat, own: nat, rate: nat, k: nat)
    requires own > 0 && rate != own && k == Min(own, Max(rate, 1))
    requires elapsed * own <= k * MICROS < (elapsed + 1) * own
    ensures !(elapsed * rate <= k * MICROS < (elapsed + 1) * rate)
  {
    if rate == 0 {
      assert (elapsed + 1) * rate == 0;
    } else if own < rate {
      WholeSecond(elapsed, own);
      FactorGrows(own, rate, MICROS);
    } else {
      FactorGrows(rate, own, MICROS);
      FactorOrder(elapsed, MICROS, own);
      FactorKeeps(elapsed + 1, MICROS, rate);
    }
  }

  lemma WholeSecond(elapsed: nat, own: nat)
    requires own > 0 && elapsed * own <= own * MICROS < (elapsed + 1) * own
    ensures elapsed == MICROS
  {
    FactorOrder(MICROS, elapsed + 1, own);
    if elapsed > MICROS {
      FactorKeeps(MICROS + 1, elapsed, own);
    }
  }

  lemma FactorKeeps(a: nat, b: nat, d: nat)
    requires a <= b
    ensures a * d <= b * d
  {
    assert b * d == a * d + (b - a) * d;
  }

  lemma FactorGrows(a: nat, b: nat, d: nat)
    requires a < b && d > 0
    ensures a * d < b * d
  {
    FactorKeeps(a + 1, b, d);
    assert (a + 1) * d == a * d + d;
  }

  // Counting samples as the code does, by the configured channel count: every
  // frame of every run after this moment keeps the rate it announces, until
  // saturation, if and only if that is the configured rate.
  lemma KeepsAnnouncedRate(c: Clock)
    requires Fresh(c) && c.sampleRate <= U32_MAX && c.negotiatedRate <= U32_MAX
    ensures (forall events: seq<Event>, k: nat :: Steady(events) && Measured(c, events, k) ==>
               OnRate(c, events, k, FrameAt(c, events, k).sampleRate))
       <==> AnnouncedRate(c) == Max(c.sampleRate, 1)
  {
    hide OnRate, Measured, AfterAll;
    forall events: seq<Event>, k: nat | Steady(events) && Measured(c, events, k)
      ensures k < |events| && FrameAt(c, events, k).sampleRate == AnnouncedRate(c)
      ensures OnRate(c, events, k, Max(c.sampleRate, 1))
    {
      MeasuredIndex(c, events, k);
      SteadyAnnounces(c, events[..k]);
      PtsWithinOneMicrosecond(c, events, k);
    }
    if AnnouncedRate(c) != Max(c.sampleRate, 1) {
      var events, k := RatesTellApart(c, AnnouncedRate(c));
      assert Steady(events) && Measured(c, events, k) && !OnRate(c, events, k, AnnouncedRate(c));
    }
  }

  lemma MeasuredIndex(c: Clock, events: seq<Event>, k: nat)
    requires Measured(c, events, k)
    ensures k < |events|
  {
  }

  // Twelve seconds of the usual buffers, configured for 48 kHz and settled on
  // 44.1 kHz: the last frame announces 44.1 kHz and is over a second early.
  lemma OneSecondOff()
    ensures var c := After(Clock(48_000, 2, 0, 0, None, 0), ParamChanged(44_100, 2));
      var events := Uniform(Chunk(4096, 0, true), 564);
      && Measured(c, events, 563)
      && FrameAt(c, events, 563).sampleRate == 44_100
      && (FrameAt(c, events, 563).pts - Anchor(c, events[..563]).value + MICROS) * 44_100
         < Total(c, events[..563]) * MICROS
  {
    hide Total, Anchor, AfterAll, OffsetUs;
    var c, chunk := After(Clock(48_000, 2, 0, 0, None, 0), ParamChanged(44_100, 2)), Chunk(4096, 0, true);
    var events := Uniform(chunk, 564);
    assert events[..563] == Uniform(chunk, 563) && events[563] == Process(chunk);
    UniformTotal(c, chunk, 563);
    SteadyAnnounces(c, events[..563]);
    PtsWithinOneMicrosecond(c, events, 563);
  }

  // ---------------------------------------------------------------------
  // The announced format: rate and channel count together.
  // ---------------------------------------------------------------------

  // The samples a consumer finds in the frame made of a buffer, going by the
  // channel count the frame announces.
  function AnnouncedSamples(c: Clock, e: Event): nat {
    if Brings(c, e) > 0 then e.chunk.bytes / BYTES_PER_SAMPLE / Max(AnnouncedChannels(c), 1) else 0
  }

  function AnnouncedTotal(c: Clock, events: seq<Event>): nat {
    if events == [] then 0
    else
      var init := events[..|events| - 1];
      AnnouncedTotal(c, init) + AnnouncedSamples(AfterAll(c, init), events[|events| - 1])
  }

  // The time of a frame is less than a microsecond before the anchor plus all
  // audio of the frames before it, played in the format announced.
  ghost predicate OnFormat(c: Clock, events: seq<Event>, k: nat)
    requires Measured(c, events, k)
  {
    var frame := FrameAt(c, events, k);
    var elapsed := frame.pts - Anchor(c, events[..k]).value;
    && 0 <= elapsed
    && elapsed * frame.sampleRate <= AnnouncedTotal(c, events[..k]) * MICROS < (elapsed + 1) * frame.sampleRate
  }

  // Rate and channel count in force, neither of them zero.
  function OwnRate(c: Clock): nat { Max(c.sampleRate, 1) }

  function OwnChannels(c: Clock): nat { Max(c.channels, 1) }

  function HeardChannels(c: Clock): nat { Max(AnnouncedChannels(c), 1) }

  lemma {:induction false} SteadyShape(c: Clock, events: seq<Event>)
    requires Steady(events)
    ensures var after := AfterAll(c, events);
      && AnnouncedRate(after) == AnnouncedRate(c) && AnnouncedChannels(after) == AnnouncedChannels(c)
      && after.channels == c.channels
  {
    if events != [] {
      SteadyShape(c, events[..|events| - 1]);
    }
  }

  lemma {:induction false} UniformAnnounced(c: Clock, chunk: Chunk, n: nat)
    requires SamplesIn(c, chunk) > 0
    ensures AnnouncedTotal(c, Uniform(chunk, n)) == n * (chunk.bytes / BYTES_PER_SAMPLE / HeardChannels(c))
  {
    hide SamplesIn;
    var q := chunk.bytes / BYTES_PER_SAMPLE / HeardChannels(c);
    if n > 0 {
      var events := Uniform(chunk, n);
      assert events[..n - 1] == Uniform(chunk, n - 1) && events[n - 1] == Process(chunk);
      UniformAnnounced(c, chunk, n - 1);
      SteadyShape(c, Uniform(chunk, n - 1));
      SamplesByChannels(c, AfterAll(c, Uniform(chunk, n - 1)), chunk);
      assert n * q == (n - 1) * q + q;
    }
  }

  lemma SamplesByChannels(c: Clock, d: Clock, chunk: Chunk)
    requires c.channels == d.channels
    ensures SamplesIn(c, chunk) == SamplesIn(d, chunk)
  {
  }

  // Equal buffers of `p` samples as counted and `q` as announced drift off the
  // announced format when `p` at the configured rate and `q` at the announced
  // one do not last equally long.
  lemma BuffersDrift(c: Clock, chunk: Chunk) returns (n: nat)
    requires Fresh(c) && chunk.nowUs == 0
    requires var p, q := SamplesIn(c, chunk), chunk.bytes / BYTES_PER_SAMPLE / HeardChannels(c);
      && p > 0 && (AnnouncedRate(c) == 0 || p * AnnouncedRate(c) != q * OwnRate(c))
      && Max(OwnRate(c), AnnouncedRate(c)) * p * MICROS <= U64_MAX
    ensures Measured(c, Uniform(chunk, n + 1), n) && !OnFormat(c, Uniform(chunk, n + 1), n)
  {
    hide Total, Anchor, AfterAll, SamplesIn, AnnouncedTotal, Measured, Uniform;
    var p, q := SamplesIn(c, chunk), chunk.bytes / BYTES_PER_SAMPLE / HeardChannels(c);
    var r, a := OwnRate(c), AnnouncedRate(c);
    n := if a == 0 then 1 else if p * a < q * r then a else r;
    ProductFits(n, Max(r, a), p);
    UniformMeasured(c, chunk, n);
    UniformAnnounced(c, chunk, n);
    PtsWithinOneMicrosecond(c, Uniform(chunk, n + 1), n);
    Drifts(FrameAt(c, Uniform(chunk, n + 1), n).pts, p, q, r, a, n);
  }

  lemma ProductFits(n: nat, most: nat, p: nat)
    requires n <= most && most * p * MICROS <= U64_MAX
    ensures n * p * MICROS <= U64_MAX
  {
    FactorKeeps(n, most, p);
  }

  // Frame `n` of a run of equal buffers from time zero on.
  lemma UniformMeasured(c: Clock, chunk: Chunk, n: nat)
    requires Fresh(c) && chunk.nowUs == 0 && n > 0 && SamplesIn(c, chunk) > 0
    requires n * SamplesIn(c, chunk) * MICROS <= U64_MAX
    ensures var events := Uniform(chunk, n + 1);
      && events[n] == Process(chunk) && events[..n] == Uniform(chunk, n) && Measured(c, events, n)
      && Total(c, events[..n]) == n * SamplesIn(c, chunk) && Anchor(c, events[..n]) == Some(0)
      && FrameAt(c, events, n).sampleRate == AnnouncedRate(c)
  {
    hide Total, Anchor, AfterAll, SamplesIn;
    var events := Uniform(chunk, n + 1);
    assert events[..n] == Uniform(chunk, n) && events[n] == Process(chunk);
    UniformTotal(c, chunk, n);
    SteadyShape(c, events[..n]);
  }

  lemma Drifts(elapsed: nat, p: nat, q: nat, r: nat, a: nat, n: nat)
    requires r > 0 && (a == 0 || p * a != q * r)
    requires n == if a == 0 then 1 else if p * a < q * r then a else r
    requires elapsed * r <= n * p * MICROS < (elapsed + 1) * r
    ensures !(elapsed * a <= n * q * MICROS < (elapsed + 1) * a)
  {
    if a == 0 {
      assert (elapsed + 1) * a == 0;
    } else if p * a < q * r {
      DriftsEarly(elapsed, p, q, r, a);
    } else {
      DriftsLate(elapsed, p, q, r, a);
    }
  }

  lemma DriftsEarly(elapsed: nat, p: nat, q: nat, r: nat, a: nat)
    requires r > 0 && p * a < q * r && elapsed * r <= a * p * MICROS
    ensures a * q * MICROS >= (elapsed + 1) * a
  {
    FactorGrows(p * a, q * r, MICROS);
    Reorder(a, p);
    Reorder(r, q);
    FactorOrder(elapsed, q * MICROS, r);
    FactorKeeps(elapsed + 1, q * MICROS, a);
    Reorder(a, q);
  }

  lemma DriftsLate(elapsed: nat, p: nat, q: nat, r: nat, a: nat)
    requires r > 0 && q * r < p * a && r * p * MICROS < (elapsed + 1) * r
    ensures r * q * MICROS < elapsed * a
  {
    FactorGrows(q * r, p * a, MICROS);
    Reorder(r, p);
    Reorder(r, q);
    FactorOrder(p * MICROS, elapsed + 1, r);
    FactorKeeps(p * MICROS, elapsed, a);
    Reorder(a, p);
  }

  lemma Reorder(x: nat, y: nat)
    ensures x * y * MICROS == (y * MICROS) * x && x * y * MICROS == y * x * MICROS
  {
  }

  // A buffer of one sample as counted, with room for octets of a second one.
  function Buffer(length: nat): Chunk {
    Chunk(BYTES_PER_SAMPLE * length, 0, true)
  }

  lemma BufferHolds(length: nat, d: nat)
    requires d > 0
    ensures Buffer(length).bytes / BYTES_PER_SAMPLE / d == Div(length, d)
  {
  }

  // The shortest and the longest buffer of one sample tell two channel counts
  // apart, unless both buffers are too short for the other count.
  lemma OneSampleBuffers(own: nat, heard: nat)
    requires own > 0 && heard > 0
    ensures Div(own, own) == 1 && Div(2 * own - 1, own) == 1
    ensures own != heard ==> Div(own, heard) != Div(2 * own - 1, heard) || Div(own, heard) == 0
  {
    hide Div;
    QuotientIs(own, own, 1);
    QuotientIs(2 * own - 1, own, 1);
    if own > heard {
      DivisionBounds(own, heard);
      var q := Div(own, heard);
      assert (q + 1) * heard == q * heard + heard;
      DivisionBounds(2 * own - 1, heard);
      FactorOrder(q + 1, Div(2 * own - 1, heard) + 1, heard);
    } else if own < heard {
      QuotientIs(own, heard, 0);
    }
  }

  lemma QuotientIs(x: nat, d: nat, q: nat)
    requires d > 0 && q * d <= x < (q + 1) * d
    ensures Div(x, d) == q
  {
    hide Div;
    DivisionBounds(x, d);
    FactorOrder(q, Div(x, d) + 1, d);
    FactorOrder(Div(x, d), q + 1, d);
  }

  // Whatever the sizes of the buffers: every frame of every run on one format
  // keeps the format it announces, until saturation, if and only if that is
  // the configured rate and channel count.
  lemma KeepsAnnouncedFormat(c: Clock)
    requires Fresh(c) && c.sampleRate <= U32_MAX && c.negotiatedRate <= U32_MAX
    ensures (forall events: seq<Event>, k: nat :: Steady(events) && Measured(c, events, k) ==> OnFormat(c, events, k))
       <==> AnnouncedRate(c) == OwnRate(c) && HeardChannels(c) == OwnChannels(c)
  {
    hide OnFormat, Measured, AfterAll, SamplesIn, Uniform;
    if AnnouncedRate(c) == OwnRate(c) && HeardChannels(c) == OwnChannels(c) {
      forall events: seq<Event>, k: nat | Steady(events) && Measured(c, events, k) ensures OnFormat(c, events, k) {
        SameShapeKeeps(c, events, k);
      }
    } else {
      var chunk := DriftingBuffer(c);
      var n := BuffersDrift(c, chunk);
      UniformSteady(chunk, n + 1);
    }
  }

  lemma UniformSteady(chunk: Chunk, n: nat)
    ensures Steady(Uniform(chunk, n)) && forall e :: e in Uniform(chunk, n) ==> e == Process(chunk)
  {
  }

  lemma SameShapeKeeps(c: Clock, events: seq<Event>, k: nat)
    requires Fresh(c) && Steady(events) && Measured(c, events, k)
    requires AnnouncedRate(c) == OwnRate(c) && HeardChannels(c) == OwnChannels(c)
    ensures OnFormat(c, events, k)
  {
    hide Total, Anchor, AfterAll, AnnouncedTotal;
    PtsWithinOneMicrosecond(c, events, k);
    SteadyShape(c, events[..k]);
    SameShapeTotal(c, events[..k]);
  }

  lemma {:induction false} SameShapeTotal(c: Clock, events: seq<Event>)
    requires Steady(events) && HeardChannels(c) == OwnChannels(c)
    ensures AnnouncedTotal(c, events) == Total(c, events)
  {
    if events != [] {
      SameShapeTotal(c, events[..|events| - 1]);
      SteadyShape(c, events[..|events| - 1]);
    }
  }

  // Some buffer of one sample that does not last equally long both ways.
  lemma DriftingBuffer(c: Clock) returns (chunk: Chunk)
    requires c.sampleRate <= U32_MAX && c.negotiatedRate <= U32_MAX
    requires !(AnnouncedRate(c) == OwnRate(c) && HeardChannels(c) == OwnChannels(c))
    ensures chunk.nowUs == 0 && SamplesIn(c, chunk) == 1
    ensures AnnouncedRate(c) == 0
         || AnnouncedRate(c) != chunk.bytes / BYTES_PER_SAMPLE / HeardChannels(c) * OwnRate(c)
  {
    hide Div;
    var h, g, r := OwnChannels(c), HeardChannels(c), OwnRate(c);
    OneSampleBuffers(h, g);
    chunk := if AnnouncedRate(c) == Div(h, g) * r then Buffer(2 * h - 1) else Buffer(h);
    BufferHolds(2 * h - 1, h);
    BufferHolds(2 * h - 1, g);
    BufferHolds(h, h);
    BufferHolds(h, g);
    if AnnouncedRate(c) == Div(h, g) * r == Div(2 * h - 1, g) * r && AnnouncedRate(c) > 0 {
      FactorsEqual(Div(h, g), Div(2 * h - 1, g), r);
    }
  }

  lemma FactorsEqual(a: nat, b: nat, d: nat)
    requires a * d == b * d && d > 0
    ensures a == b
  {
    if a < b {
      FactorGrows(a, b, d);
    } else if b < a {
      FactorGrows(b, a, d);
    }
  }

  // Buffers that are whole in the configured and in the announced shape.
  predicate Whole(c: Clock, events: seq<Event>) {
    forall e :: e in events && e.Process? ==>
      && e.chunk.bytes % (BYTES_PER_SAMPLE * OwnChannels(c)) == 0
      && e.chunk.bytes % (BYTES_PER_SAMPLE * HeardChannels(c)) == 0
  }

  lemma WholeBuffer(bytes: nat, d: nat)
    requires d > 0 && bytes % (BYTES_PER_SAMPLE * d) == 0
    ensures bytes / BYTES_PER_SAMPLE / d * d == bytes / BYTES_PER_SAMPLE
  {
    var m := bytes / (BYTES_PER_SAMPLE * d);
    assert bytes == BYTES_PER_SAMPLE * d * m;
    assert bytes == BYTES_PER_SAMPLE * (m * d);
    assert bytes / BYTES_PER_SAMPLE == m * d;
    QuotientIs(m * d, d, m);
  }

  lemma {:induction false} WholeTotals(c: Clock, events: seq<Event>)
    requires Steady(events) && Whole(c, events)
    ensures AnnouncedTotal(c, events) * HeardChannels(c) == Total(c, events) * OwnChannels(c)
  {
    if events != [] {
      hide AfterAll, SamplesIn, AnnouncedSamples, OwnChannels, HeardChannels;
      var init, last := events[..|events| - 1], events[|events| - 1];
      WholeTotals(c, init);
      SteadyShape(c, init);
      assert last in events;
      WholeSamples(c, AfterAll(c, init), last);
      SumsScale(AnnouncedTotal(c, init), AnnouncedSamples(AfterAll(c, init), last), HeardChannels(c),
                Total(c, init), SamplesIn(c, last.chunk), OwnChannels(c));
    }
  }

  lemma SumsScale(a: nat, q: nat, g: nat, t: nat, p: nat, h: nat)
    requires a * g == t * h && q * g == p * h
    ensures (a + q) * g == (t + p) * h
  {
  }

  lemma WholeSamples(c: Clock, d: Clock, e: Event)
    requires e.Process? && d.channels == c.channels && AnnouncedChannels(d) == AnnouncedChannels(c)
    requires e.chunk.bytes % (BYTES_PER_SAMPLE * OwnChannels(c)) == 0
    requires e.chunk.bytes % (BYTES_PER_SAMPLE * HeardChannels(c)) == 0
    ensures AnnouncedSamples(d, e) * HeardChannels(c) == SamplesIn(c, e.chunk) * OwnChannels(c)
  {
    WholeBuffer(e.chunk.bytes, OwnChannels(c));
    WholeBuffer(e.chunk.bytes, HeardChannels(c));
  }

  // Whole buffers keep the announced format when both formats have the same
  // number of values in a second.
  lemma WholeKeeps(c: Clock, events: seq<Event>, k: nat)
    requires Fresh(c) && Steady(events) && Whole(c, events) && Measured(c, events, k)
    requires AnnouncedRate(c) * HeardChannels(c) == OwnRate(c) * OwnChannels(c)
    ensures OnFormat(c, events, k)
  {
    hide Total, Anchor, AfterAll, AnnouncedTotal;
    PtsWithinOneMicrosecond(c, events, k);
    SteadyShape(c, events[..k]);
    WholeTotals(c, events[..k]);
    Rescaled(FrameAt(c, events, k).pts - Anchor(c, events[..k]).value, Total(c, events[..k]),
             AnnouncedTotal(c, events[..k]), OwnRate(c), OwnChannels(c), AnnouncedRate(c), HeardChannels(c));
  }

  lemma Rescaled(elapsed: nat, total: nat, announced: nat, r: nat, h: nat, a: nat, g: nat)
    requires h > 0 && g > 0 && a * g == r * h && announced * g == total * h
    requires elapsed * r <= total * MICROS < (elapsed + 1) * r
    ensures elapsed * a <= announced * MICROS < (elapsed + 1) * a
  {
    FactorKeeps(elapsed * r, total * MICROS, h);
    FactorGrows(total * MICROS, (elapsed + 1) * r, h);
    SameProducts(elapsed, r, h, a, g);
    SameProducts(elapsed + 1, r, h, a, g);
    SameProducts(MICROS, total, h, announced, g);
    FactorOrder(elapsed * a, announced * MICROS + 1, g);
    FactorOrder(announced * MICROS, (elapsed + 1) * a, g);
  }

  lemma SameProducts(x: nat, r: nat, h: nat, a: nat, g: nat)
    requires a * g == r * h
    ensures x * r * h == x * a * g && r * x * h == a * x * g
  {
    assert x * r * h == x * (r * h) && x * a * g == x * (a * g);
    assert r * x * h == x * (r * h) && a * x * g == x * (a * g);
  }

  // Over buffers that are whole both ways: every frame of every run on one
  // format keeps the format it announces, until saturation, if and only if
  // both formats have the same number of values in a second. The bound leaves
  // a run room to show a difference before it saturates.
  lemma KeepsAnnouncedFormatWhole(c: Clock)
    requires Fresh(c)
    requires Max(OwnRate(c), AnnouncedRate(c)) * HeardChannels(c) * MICROS <= U64_MAX
    ensures (forall events: seq<Event>, k: nat :: Steady(events) && Whole(c, events) && Measured(c, events, k) ==>
               OnFormat(c, events, k))
       <==> AnnouncedRate(c) * HeardChannels(c) == OwnRate(c) * OwnChannels(c)
  {
    hide OnFormat, Measured, AfterAll, SamplesIn, Uniform;
    var h, g := OwnChannels(c), HeardChannels(c);
    if AnnouncedRate(c) * g == OwnRate(c) * h {
      forall events: seq<Event>, k: nat | Steady(events) && Whole(c, events) && Measured(c, events, k)
        ensures OnFormat(c, events, k)
      {
        WholeKeeps(c, events, k);
      }
    } else {
      var chunk := Buffer(h * g);
      BothWays(c);
      var n := BuffersDrift(c, chunk);
      UniformSteady(chunk, n + 1);
      assert Whole(c, Uniform(chunk, n + 1));
    }
  }

  lemma BothWays(c: Clock)
    ensures var h, g, chunk := OwnChannels(c), HeardChannels(c), Buffer(OwnChannels(c) * HeardChannels(c));
      && SamplesIn(c, chunk) == g && chunk.bytes / BYTES_PER_SAMPLE / g == h
      && chunk.bytes % (BYTES_PER_SAMPLE * h) == 0 && chunk.bytes % (BYTES_PER_SAMPLE * g) == 0
  {
    hide Buffer;
    WholeIn(OwnChannels(c), HeardChannels(c));
    WholeIn(HeardChannels(c), OwnChannels(c));
    assert OwnChannels(c) * HeardChannels(c) == HeardChannels(c) * OwnChannels(c);
  }

  lemma WholeIn(d: nat, m: nat)
    requires d > 0
    ensures Buffer(d * m).bytes / BYTES_PER_SAMPLE / d == m
    ensures Buffer(d * m).bytes % (BYTES_PER_SAMPLE * d) == 0
  {
    hide Div;
    BufferHolds(d * m, d);
    assert d * m == m * d && m * d < (m + 1) * d;
    QuotientIs(d * m, d, m);
    assert Buffer(d * m).bytes == m * (BYTES_PER_SAMPLE * d);
    Multiple(m, BYTES_PER_SAMPLE * d);
  }

  lemma Multiple(m: nat, d: nat)
    requires d > 0
    ensures (m * d) % d == 0
  {
    hide Div;
    assert m * d < (m + 1) * d;
    QuotientIs(m * d, d, m);
    DivIs(m * d, d);
  }

  lemma DivIs(x: nat, d: nat)
    requires d > 0
    ensures Div(x, d) == x / d
  {
  }

  // Configured for stereo and settled on mono at the same rate: after 63 of
  // the usual buffers a frame is over a second early for its format.
  lemma MonoOneSecondOff()
    ensures var c := After(Clock(48_000, 2, 0, 0, None, 0), ParamChanged(48_000, 1));
      var events := Uniform(Chunk(4096, 0, true), 64);
      && Measured(c, events, 63)
      && FrameAt(c, events, 63).sampleRate == 48_000 && FrameAt(c, events, 63).channels == 1
      && (FrameAt(c, events, 63).pts - Anchor(c, events[..63]).value + MICROS) * 48_000
         < AnnouncedTotal(c, events[..63]) * MICROS
  {
    hide Total, Anchor, AfterAll, OffsetUs, AnnouncedTotal;
    var c, chunk := After(Clock(48_000, 2, 0, 0, None, 0), ParamChanged(48_000, 1)), Chunk(4096, 0, true);
    var events := Uniform(chunk, 64);
    assert events[..63] == Uniform(chunk, 63) && events[63] == Process(chunk);
    UniformTotal(c, chunk, 63);
    UniformAnnounced(c, chunk, 63);
    SteadyShape(c, events[..63]);
    PtsWithinOneMicrosecond(c, events, 63);
  }

  // ---------------------------------------------------------------------
  // Single callbacks.
  // ---------------------------------------------------------------------

  // A buffer of `n` samples of 16 bits in each channel holds `n` samples, also
  // with a few octets too many; no channels count as one.
  lemma SamplesCounted(c: Clock, chunk: Chunk, n: nat, extra: nat)
    requires extra < 2 * OwnChannels(c) && chunk.bytes == 2 * OwnChannels(c) * n + extra
    ensures SamplesIn(c, chunk) == n
  {
    hide Div;
    var h := OwnChannels(c);
    assert chunk.bytes / 2 == n * h + extra / 2;
    assert (n + 1) * h == n * h + h;
    QuotientIs(n * h + extra / 2, h, n);
    DivIs(chunk.bytes / 2, h);
  }

  // After a format is settled on, frames announce it, except for a rate or
  // 16-bit channel count of zero, which leaves the configured one.
  lemma Announces(c: Clock, rate: nat, channels: nat)
    ensures var after := After(c, ParamChanged(rate, channels));
      && AnnouncedRate(after) == (if rate > 0 then rate else c.sampleRate)
      && AnnouncedChannels(after) == (if channels % 0x1_0000 > 0 then channels % 0x1_0000 else c.channels)
      && after.anchor == c.anchor && after.samples == c.samples
      && after.sampleRate == c.sampleRate && after.channels == c.channels
  {
  }

  // The first frame has the wall clock's time, which is the anchor of the rest.
  lemma FirstFrame(c: Clock, events: seq<Event>, k: nat)
    requires Fresh(c) && k < |events| && Brings(c, events[k]) > 0 && Anchor(c, events[..k]).None?
    ensures FrameAt(c, events, k).pts == events[k].chunk.nowUs
    ensures Anchor(c, events[..k + 1]) == Some(events[k].chunk.nowUs)
  {
    CountsEverything(c, events[..k]);
    assert events[..k + 1][..k] == events[..k];
  }
}
