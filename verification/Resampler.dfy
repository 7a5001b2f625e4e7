/** The rational resampler of internal/speechengine/wav.go: exact integer positions over an
    opaque filter. */
module Resampler {
  import Division
  import opened PcmCodec

  const RESAMPLE_TAPS := 63
  const RESAMPLE_CENTER := (RESAMPLE_TAPS - 1) / 2

  /** The floating-point side: the weight of a tap at a fractional phase, multiply and
      accumulate, and the final rounding to a sample. */
  datatype Dsp<!W, !A> = Dsp(weight: (int, int) -> W, zero: A, mac: (A, Sample, W) -> A, round: A -> Sample)

  datatype Kernel<!W> = Kernel(rows: seq<W>, step: nat, phases: nat)

  // ---- gcd ----------------------------------------------------------------------------

  function GcdOf(a: nat, b: nat): (g: nat)
    ensures a > 0 || b > 0 ==> g > 0
    decreases b
  {
    if b == 0 then a else GcdOf(b, a % b)
  }

  /** One Euclidean step keeps the common divisors. */
  lemma SameDivisors(a: nat, b: nat, d: nat)
    requires b > 0 && d > 0
    ensures a % d == 0 && b % d == 0 <==> b % d == 0 && (a % b) % d == 0
  {
    var q, r := a / b, a % b;
    assert a == q * b + r;
    if b % d == 0 && r % d == 0 {
      Division.DividesCombination(d, b, r, q);
    }
    if b % d == 0 && a % d == 0 {
      Division.DividesCombination(d, b, a, -q);
      assert -q * b + a == r;
    }
  }

  /** GcdOf divides both numbers, and every common divisor divides it. */
  lemma {:induction false} GcdIsGreatest(a: nat, b: nat)
    requires a > 0 || b > 0
    ensures a % GcdOf(a, b) == 0 && b % GcdOf(a, b) == 0
    ensures forall d: nat :: d > 0 && a % d == 0 && b % d == 0 ==> GcdOf(a, b) % d == 0
    decreases b
  {
    if b > 0 {
      GcdIsGreatest(b, a % b);
      SameDivisors(a, b, GcdOf(b, a % b));
      forall d: nat | d > 0 && a % d == 0 && b % d == 0 ensures GcdOf(a, b) % d == 0 {
        SameDivisors(a, b, d);
      }
    }
  }

  method Gcd(a: nat, b: nat) returns (g: nat)
    ensures g == GcdOf(a, b)
  {
    var x, y := a, b;
    while y != 0
      invariant GcdOf(x, y) == GcdOf(a, b)
      decreases y
    {
      x, y := y, x % y;
    }
    g := x;
  }

  // ---- the kernel and one output sample -----------------------------------------------

  function Clamp(x: int, high: int): (c: int)
    ensures 0 <= x <= high ==> c == x
    ensures x < 0 <= high ==> c == 0
    ensures 0 <= high < x ==> c == high
  {
    if (if x > 0 then x else 0) < high then (if x > 0 then x else 0) else high
  }

  /** The accumulated sum of the first n taps around base: edge samples are held. */
  function TapSum<W, A>(dsp: Dsp<W, A>, input: seq<Sample>, base: int, phase: int, n: nat): A
    requires input != []
  {
    if n == 0 then dsp.zero else
      dsp.mac(TapSum(dsp, input, base, phase, n - 1),
              input[Clamp(base + n - 1 - RESAMPLE_CENTER, |input| - 1)], dsp.weight(phase, n - 1))
  }

  /** The sample nearest to a position: the edge samples are held. */
  function Nearest(input: seq<Sample>, position: int): Sample
    requires input != []
  {
    if position < 0 then input[0]
    else if position < |input| then input[position]
    else input[|input| - 1]
  }

  /** Weighted samples, accumulated in order. */
  function Accumulate<W, A>(dsp: Dsp<W, A>, taps: seq<(Sample, W)>): A {
    if taps == [] then dsp.zero
    else dsp.mac(Accumulate(dsp, taps[..|taps| - 1]), taps[|taps| - 1].0, taps[|taps| - 1].1)
  }

  /** The filter around a position: as many samples to its left as to its right, each with
      the weight of its tap. */
  function Window<W, A>(dsp: Dsp<W, A>, input: seq<Sample>, base: int, phase: int, n: nat): seq<(Sample, W)>
    requires input != []
  {
    seq(n, t requires 0 <= t < n => (Nearest(input, base - 31 + t), dsp.weight(phase, t)))
  }

  function Filtered<W, A>(dsp: Dsp<W, A>, input: seq<Sample>, base: int, phase: int): Sample
    requires input != []
  {
    dsp.round(Accumulate(dsp, Window(dsp, input, base, phase, 63)))
  }

  /** The sum of the first n taps accumulates exactly those. */
  lemma {:induction false} TapSumIsWindow<W, A>(dsp: Dsp<W, A>, input: seq<Sample>, base: int, phase: int, n: nat)
    requires input != []
    ensures TapSum(dsp, input, base, phase, n) == Accumulate(dsp, Window(dsp, input, base, phase, n))
    decreases n
  {
    if n > 0 {
      TapSumIsWindow(dsp, input, base, phase, n - 1);
      var taps := Window(dsp, input, base, phase, n);
      assert taps[..n - 1] == Window(dsp, input, base, phase, n - 1);
      assert taps[n - 1] == (Nearest(input, base - 31 + n - 1), dsp.weight(phase, n - 1));
    }
  }

  /** A row that is one at a single tap and zero elsewhere, over the integers. */
  function Impulse(tap: nat): Dsp<int, int> {
    Dsp((phase, t) => if t == tap then 1 else 0, 0, (sum, sample: Sample, weight) => sum + sample as int * weight,
        (sum: int) => if 0 <= sum < 0x1_0000 then sum else 0)
  }

  lemma {:induction false} ImpulseSum(tap: nat, input: seq<Sample>, base: int, phase: int, n: nat)
    requires input != []
    ensures TapSum(Impulse(tap), input, base, phase, n) == if tap < n then Nearest(input, base - 31 + tap) as int else 0
    decreases n
  {
    if n > 0 {
      ImpulseSum(tap, input, base, phase, n - 1);
    }
  }

  /** Such a row hands on the sample of its tap; at the centre that is the input at base. */
  lemma ImpulseReads(tap: nat, input: seq<Sample>, base: int, phase: int)
    requires input != [] && tap < RESAMPLE_TAPS
    ensures SampleAt(Impulse(tap), input, base, phase) == Nearest(input, base - 31 + tap)
    ensures 0 <= base < |input| && tap == 31 ==> SampleAt(Impulse(tap), input, base, phase) == input[base]
  {
    ImpulseSum(tap, input, base, phase, RESAMPLE_TAPS);
  }

  /** The output sample at input instant base + phase/phases. */
  function SampleAt<W, A>(dsp: Dsp<W, A>, input: seq<Sample>, base: int, phase: int): Sample
    requires input != []
  {
    dsp.round(TapSum(dsp, input, base, phase, RESAMPLE_TAPS))
  }

  /** Row `phase` holds that phase's weights, and every row is there. */
  ghost predicate Filled<W, A>(kernel: Kernel<W>, dsp: Dsp<W, A>) {
    && |kernel.rows| == kernel.phases * RESAMPLE_TAPS
    && forall phase: nat, tap: nat :: phase < kernel.phases && tap < RESAMPLE_TAPS ==>
         Cell(kernel.rows, phase, tap) == [dsp.weight(phase, tap)]
  }

  function Cell<W>(rows: seq<W>, phase: nat, tap: nat): seq<W> {
    if phase * RESAMPLE_TAPS + tap < |rows| then [rows[phase * RESAMPLE_TAPS + tap]] else []
  }

  /** newResampleKernel: one row of weights per phase of the reduced ratio. */
  method NewResampleKernel<W, A>(dsp: Dsp<W, A>, from: nat, to: nat) returns (kernel: Kernel<W>)
    requires from > 0 && to > 0
    ensures kernel.phases > 0 && Filled(kernel, dsp)
    ensures var g := GcdOf(from, to); g > 0 && from == kernel.step * g && to == kernel.phases * g
  {
    var divisor := Gcd(from, to);
    GcdIsGreatest(from, to);
    var phases := to / divisor;
    assert to == phases * divisor && from == (from / divisor) * divisor;
    hide Filled, GcdOf;
    NothingFilled(dsp);
    var rows: seq<W> := [];
    for phase := 0 to phases
      invariant Filled(Kernel(rows, 0, phase), dsp)
    {
      var row := seq(RESAMPLE_TAPS, tap => dsp.weight(phase, tap));
      RowFilled(rows, row, phase, dsp);
      rows := rows + row;
    }
    FilledWhateverStep(rows, from / divisor, phases, dsp);
    kernel := Kernel(rows, from / divisor, phases);
  }

  lemma NothingFilled<W, A>(dsp: Dsp<W, A>)
    ensures Filled(Kernel([], 0, 0), dsp)
  {
  }

  lemma FilledWhateverStep<W, A>(rows: seq<W>, step: nat, phases: nat, dsp: Dsp<W, A>)
    requires Filled(Kernel(rows, 0, phases), dsp)
    ensures Filled(Kernel(rows, step, phases), dsp)
  {
  }

  lemma RowFilled<W, A>(rows: seq<W>, row: seq<W>, phase: nat, dsp: Dsp<W, A>)
    requires Filled(Kernel(rows, 0, phase), dsp)
    requires |row| == RESAMPLE_TAPS && forall t: nat :: t < RESAMPLE_TAPS ==> row[t] == dsp.weight(phase, t)
    ensures Filled(Kernel(rows + row, 0, phase + 1), dsp)
  {
    forall p: nat, t: nat | p < phase + 1 && t < RESAMPLE_TAPS ensures Cell(rows + row, p, t) == [dsp.weight(p, t)] {
      if p < phase {
        assert p * RESAMPLE_TAPS + t < phase * RESAMPLE_TAPS;
        assert Cell(rows, p, t) == [dsp.weight(p, t)];
      }
    }
  }

  /** at: the filter row of one phase over the clamped window. */
  method At<W, A>(kernel: Kernel<W>, dsp: Dsp<W, A>, input: seq<Sample>, base: nat, phase: nat) returns (sample: Sample)
    requires Filled(kernel, dsp) && phase < kernel.phases && input != []
    ensures sample == SampleAt(dsp, input, base, phase)
    ensures sample == Filtered(dsp, input, base, phase)
  {
    TapSumIsWindow(dsp, input, base, phase, RESAMPLE_TAPS);
    hide Accumulate, Window;
    assert (phase + 1) * RESAMPLE_TAPS <= kernel.phases * RESAMPLE_TAPS;
    var row := kernel.rows[phase * RESAMPLE_TAPS..(phase + 1) * RESAMPLE_TAPS];
    var sum := dsp.zero;
    for tap := 0 to RESAMPLE_TAPS
      invariant sum == TapSum(dsp, input, base, phase, tap)
    {
      assert Cell(kernel.rows, phase, tap) == [row[tap]];
      sum := dsp.mac(sum, input[Clamp(base + tap - RESAMPLE_CENTER, |input| - 1)], row[tap]);
    }
    sample := dsp.round(sum);
  }

  // ---- positions ----------------------------------------------------------------------

  /** Reducing the ratio moves no position: base is floor(i*from/to) and phase is the
      fraction that is left, in steps of g/to. */
  lemma ReducedPosition(i: nat, step: nat, phases: nat, g: nat)
    requires phases > 0 && g > 0
    ensures phases * g > 0
    ensures i * step / phases == i * (step * g) / (phases * g)
    ensures (i * step) % phases == (i * (step * g)) % (phases * g) / g
  {
    assert i * (step * g) == (i * step) * g;
    Division.ScaledDivision(i * step, phases, g);
    Division.DivUnique(((i * step) % phases) * g, g, (i * step) % phases, 0);
  }

  /** Every output sample starts inside the input. */
  lemma BaseInside(i: nat, n: nat, from: nat, to: nat)
    requires from > 0 && to > 0 && i < n * to / from
    ensures i * from / to < n
  {
    var total, count := n * to, n * to / from;
    assert total == count * from + total % from;
    Division.MulMono(i + 1, count, from);
    assert i * from < n * to;
    var q := i * from / to;
    assert i * from == q * to + i * from % to;
    if q >= n {
      Division.MulMono(n, q, to);
    }
  }

  /** One step of the phase accumulator. */
  lemma PhaseStep(i: nat, step: nat, phases: nat, base: nat, phase: nat)
    requires phases > 0 && base * phases + phase == i * step && phase < phases
    ensures (base + (phase + step) / phases) * phases + (phase + step) % phases == (i + 1) * step
  {
    var next := phase + step;
    assert next == (next / phases) * phases + next % phases;
  }

  /** Sample i of the output: the filter at input instant i*from/to exactly, which lies
      inside the input. */
  ghost predicate Exact<W, A>(dsp: Dsp<W, A>, input: seq<Sample>, from: nat, to: nat, i: nat, sample: Sample) {
    && from > 0 && to > 0 && i * from / to < |input|
    && sample == Filtered(dsp, input, i * from / to, i * from % to / GcdOf(from, to))
  }

  /** The accumulator stands at output i. */
  ghost predicate Accumulated(i: nat, step: nat, phases: nat, base: nat, phase: nat) {
    phase < phases && base * phases + phase == i * step
  }

  lemma StartAccumulated(step: nat, phases: nat)
    requires phases > 0
    ensures Accumulated(0, step, phases, 0, 0)
  {
  }

  lemma AccumulatedNext(i: nat, step: nat, phases: nat, base: nat, phase: nat)
    requires Accumulated(i, step, phases, base, phase)
    ensures phase < phases && (phase + step) / phases >= 0 && (phase + step) % phases >= 0
    ensures Accumulated(i + 1, step, phases, base + (phase + step) / phases, (phase + step) % phases)
  {
    PhaseStep(i, step, phases, base, phase);
    Division.QuotientNonneg(phase + step, phases);
  }

  lemma AccumulatedIsExact<W, A>(dsp: Dsp<W, A>, input: seq<Sample>, from: nat, to: nat, step: nat, phases: nat,
                                 i: nat, base: nat, phase: nat)
    requires from > 0 && to > 0 && i < |input| * to / from
    requires from == step * GcdOf(from, to) && to == phases * GcdOf(from, to)
    requires Accumulated(i, step, phases, base, phase)
    ensures Exact(dsp, input, from, to, i, SampleAt(dsp, input, base, phase))
  {
    Division.DivUnique(i * step, phases, base, phase);
    ReducedPosition(i, step, phases, GcdOf(from, to));
    BaseInside(i, |input|, from, to);
    TapSumIsWindow(dsp, input, base, phase, RESAMPLE_TAPS);
    hide TapSum, Accumulate, Window;
  }

  /** One turn of resamplePCM's loop. */
  method NextSample<W, A>(kernel: Kernel<W>, dsp: Dsp<W, A>, input: seq<Sample>, from: nat, to: nat, i: nat,
                          base: nat, phase: nat) returns (sample: Sample, nextBase: nat, nextPhase: nat)
    requires from > 0 && to > 0 && input != [] && i < |input| * to / from
    requires from == kernel.step * GcdOf(from, to) && to == kernel.phases * GcdOf(from, to)
    requires Filled(kernel, dsp) && Accumulated(i, kernel.step, kernel.phases, base, phase)
    ensures Exact(dsp, input, from, to, i, sample)
    ensures Accumulated(i + 1, kernel.step, kernel.phases, nextBase, nextPhase)
  {
    hide *;
    AccumulatedIsExact(dsp, input, from, to, kernel.step, kernel.phases, i, base, phase);
    AccumulatedNext(i, kernel.step, kernel.phases, base, phase);
    sample := At(kernel, dsp, input, base, phase);
    nextPhase := phase + kernel.step;
    nextBase := base + nextPhase / kernel.phases;
    nextPhase := nextPhase % kernel.phases;
  }

  method OutputLength(n: nat, from: nat, to: nat) returns (count: nat)
    requires from > 0
    ensures count == n * to / from
  {
    Division.QuotientNonneg(n * to, from);
    count := n * to / from;
  }

  /** resamplePCM: every output sample sits at its exact instant, so no position drifts
      however long the take. */
  method ResamplePCM<W, A>(dsp: Dsp<W, A>, input: seq<Sample>, from: nat, to: nat) returns (output: seq<Sample>)
    requires from > 0 && to > 0
    ensures from == to || input == [] ==> output == input
    ensures from != to && input != [] ==>
              |output| == |input| * to / from
              && forall i: nat :: i < |output| ==> Exact(dsp, input, from, to, i, output[i])
  {
    if from == to || input == [] {
      return input;
    }
    hide *;
    var kernel := NewResampleKernel(dsp, from, to);
    var count := OutputLength(|input|, from, to);
    output := [];
    var base, phase := 0, 0;
    StartAccumulated(kernel.step, kernel.phases);
    for i := 0 to count
      invariant |output| == i && 0 <= base && 0 <= phase
      invariant Accumulated(i, kernel.step, kernel.phases, base, phase)
      invariant forall j: nat :: j < i ==> Exact(dsp, input, from, to, j, output[j])
    {
      var sample;
      sample, base, phase := NextSample(kernel, dsp, input, from, to, i, base, phase);
      output := output + [sample];
    }
  }
}
