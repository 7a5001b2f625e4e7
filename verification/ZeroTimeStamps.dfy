/** The fabricated device clock of drivers/macos/common/plugin.c: one zero time stamp per
    ring lap since the anchor. Float64 arithmetic is modelled over the reals. */
module ZeroTimeStamps {
  import opened Bytes

  /** Host ticks since the anchor, in the unsigned arithmetic of the host clock. */
  function Since(anchor: u64, now: u64): u64 { (now - anchor) % U64 }

  /** Whole ring laps in that time. */
  function Laps(elapsed: u64, ticksPerRing: real): int
    requires ticksPerRing > 0.0
  {
    (elapsed as real / ticksPerRing).Floor
  }

  /** The length of a number of laps in host ticks. */
  function Span(laps: int, ticksPerRing: real): real { laps as real * ticksPerRing }

  function HostTime(anchor: u64, laps: int, ticksPerRing: real): u64 {
    (anchor + Span(laps, ticksPerRing).Floor) % U64
  }

  lemma RealMulStrict(a: real, b: real, m: real)
    requires a < b && m > 0.0
    ensures a * m < b * m
  {
  }

  lemma RealMulMono(a: real, b: real, m: real)
    requires a <= b && m > 0.0
    ensures a * m <= b * m
  {
  }

  lemma RealSuccessor(k: real, m: real)
    ensures (k + 1.0) * m == k * m + m
  {
  }

  lemma RealQuotient(x: real, m: real)
    requires m > 0.0
    ensures (x / m) * m == x
  {
  }

  lemma NextIsAfter(x: real, m: real, k: real, q: real)
    requires m > 0.0 && q < k + 1.0 && q * m == x
    ensures x < k * m + m
  {
    RealMulStrict(q, k + 1.0, m);
    RealSuccessor(k, m);
  }

  lemma SpanMono(a: int, b: int, ticksPerRing: real)
    requires a <= b && ticksPerRing > 0.0
    ensures Span(a, ticksPerRing) <= Span(b, ticksPerRing)
  {
    RealMulMono(a as real, b as real, ticksPerRing);
  }

  lemma SpanNext(k: int, ticksPerRing: real)
    ensures Span(k + 1, ticksPerRing) == Span(k, ticksPerRing) + ticksPerRing && Span(0, ticksPerRing) == 0.0
  {
    RealSuccessor(k as real, ticksPerRing);
  }

  /** The lap that the elapsed time is in. */
  lemma LapsBracket(elapsed: u64, ticksPerRing: real)
    requires ticksPerRing > 0.0
    ensures var start := Span(Laps(elapsed, ticksPerRing), ticksPerRing);
            start <= elapsed as real < start + ticksPerRing
  {
    var quotient, laps := elapsed as real / ticksPerRing, Laps(elapsed, ticksPerRing) as real;
    RealQuotient(elapsed as real, ticksPerRing);
    RealMulMono(laps, quotient, ticksPerRing);
    NextIsAfter(elapsed as real, ticksPerRing, laps, quotient);
  }

  /** Later calls under one anchor never see an earlier lap. */
  lemma LapsRise(earlier: u64, later: u64, ticksPerRing: real)
    requires ticksPerRing > 0.0 && earlier <= later
    ensures 0 <= Laps(earlier, ticksPerRing) <= Laps(later, ticksPerRing)
  {
    LapsBracket(earlier, ticksPerRing);
    LapsBracket(later, ticksPerRing);
    hide Laps, Span;
    var a, b := Laps(earlier, ticksPerRing), Laps(later, ticksPerRing);
    SpanNext(a, ticksPerRing);
    SpanNext(b, ticksPerRing);
    if b + 1 <= a { SpanMono(b + 1, a, ticksPerRing); }
    if a + 1 <= 0 { SpanMono(a + 1, 0, ticksPerRing); }
  }

  lemma OffsetBack(anchor: u64, offset: u64)
    ensures Since(anchor, (anchor + offset) % U64) == offset
  {
  }

  /** The lap is the one that now is in, and the host time stamped is its start. */
  lemma StampMeans(anchor: u64, now: u64, ticksPerRing: real)
    requires ticksPerRing > 0.0
    ensures var laps := Laps(Since(anchor, now), ticksPerRing);
            && 0 <= laps
            && Span(laps, ticksPerRing) <= Since(anchor, now) as real < Span(laps + 1, ticksPerRing)
            && Since(anchor, HostTime(anchor, laps, ticksPerRing)) == Span(laps, ticksPerRing).Floor
  {
    var elapsed := Since(anchor, now);
    LapsBracket(elapsed, ticksPerRing);
    LapsRise(elapsed, elapsed, ticksPerRing);
    hide Laps, Since, Span;
    var laps := Laps(elapsed, ticksPerRing);
    SpanNext(0, ticksPerRing);
    SpanNext(laps, ticksPerRing);
    SpanMono(0, laps, ticksPerRing);
    OffsetBack(anchor, Span(laps, ticksPerRing).Floor);
  }

  /** The stamp is the start of the lap that now is in: no later than now, and less than a
      lap and a rounded tick before it. */
  lemma StampIsLapStart(anchor: u64, now: u64, ticksPerRing: real)
    requires ticksPerRing > 0.0
    ensures var offset := Since(anchor, HostTime(anchor, Laps(Since(anchor, now), ticksPerRing), ticksPerRing));
            offset <= Since(anchor, now) && Since(anchor, now) as real < offset as real + ticksPerRing + 1.0
  {
    StampMeans(anchor, now, ticksPerRing);
    LapsBracket(Since(anchor, now), ticksPerRing);
  }
}
