/** The n-gram loop detector of internal/speechengine/whisper.go. Words come already split
    and lower-cased. */
module Repetition {
  const MINIMUM_REPETITIONS := 4
  const MINIMUM_REPEATED_WORDS := 16
  const MAXIMUM_PATTERN_WORDS := 64

  /** The blocks start, start+width, ... up to `repetitions` of them are all the same words. */
  ghost predicate Repeats<T>(words: seq<T>, start: nat, width: nat, repetitions: nat) {
    && start + repetitions * width <= |words|
    && forall b :: 0 < b < repetitions ==> Block(words, start, width, b) == Block(words, start, width, 0)
  }

  /** Block number b of a run of blocks of `width` words, empty beyond the end. */
  ghost function Block<T>(words: seq<T>, start: nat, width: nat, b: nat): seq<T> {
    if start + b * width + width <= |words| then words[start + b * width..start + b * width + width] else []
  }

  ghost predicate Witness<T>(words: seq<T>, start: nat, width: nat, repetitions: nat) {
    && 1 <= width <= MAXIMUM_PATTERN_WORDS
    && repetitions >= MINIMUM_REPETITIONS
    && repetitions * width >= MINIMUM_REPEATED_WORDS
    && Repeats(words, start, width, repetitions)
  }

  /** Some stretch of words repeats often enough, and long enough, to be a decoder loop. */
  ghost predicate Pathological<T>(words: seq<T>) {
    exists start: nat, width: nat, repetitions: nat :: Witness(words, start, width, repetitions)
  }

  /** The run of equal blocks from `start` cannot be extended. */
  ghost predicate Maximal<T>(words: seq<T>, start: nat, width: nat, repetitions: nat) {
    && Repeats(words, start, width, repetitions)
    && (start + repetitions * width + width <= |words| ==>
          Block(words, start, width, repetitions) != Block(words, start, width, 0))
  }

  lemma RepeatsFits<T>(words: seq<T>, start: nat, width: nat, longer: nat, b: nat)
    requires Repeats(words, start, width, longer) && b < longer
    ensures start + b * width + width <= |words|
  {
    assert (b + 1) * width <= longer * width;
  }

  /** Greedy counting is exact: no longer run starts at the same place. */
  lemma GreedyIsLongest<T>(words: seq<T>, start: nat, width: nat, greedy: nat, longer: nat)
    requires width > 0 && greedy >= 1
    requires Maximal(words, start, width, greedy) && Repeats(words, start, width, longer)
    ensures longer <= greedy
  {
    if longer > greedy {
      RepeatsFits(words, start, width, longer, greedy);
    }
  }

  /** The inner loop: counts equal blocks until the first difference or the end. */
  method CountRepetitions<T(==)>(words: seq<T>, start: nat, width: nat) returns (repetitions: nat)
    requires width > 0 && start + width <= |words|
    ensures repetitions >= 1 && Maximal(words, start, width, repetitions)
  {
    var pattern := words[start..start + width];
    repetitions := 1;
    var next := start + width;
    while next + width <= |words|
      invariant repetitions >= 1 && next == start + repetitions * width
      invariant Repeats(words, start, width, repetitions)
      invariant pattern == Block(words, start, width, 0)
      decreases |words| - next
    {
      assert Block(words, start, width, repetitions) == words[next..next + width];
      if pattern != words[next..next + width] {
        return;
      }
      assert (repetitions + 1) * width == repetitions * width + width;
      next := next + width;
      repetitions := repetitions + 1;
    }
  }

  /** No loop of this width starts here. */
  ghost predicate Clean<T>(words: seq<T>, start: nat, width: nat) {
    forall r: nat :: !Witness(words, start, width, r)
  }

  lemma ShortRunIsClean<T>(words: seq<T>, start: nat, width: nat, greedy: nat)
    requires width > 0 && greedy >= 1 && Maximal(words, start, width, greedy)
    requires greedy < MINIMUM_REPETITIONS || greedy * width < MINIMUM_REPEATED_WORDS
    ensures Clean(words, start, width)
  {
    forall r: nat ensures !Witness(words, start, width, r) {
      if Repeats(words, start, width, r) {
        GreedyIsLongest(words, start, width, greedy, r);
        assert r * width <= greedy * width;
      }
    }
  }

  /** Four blocks wider than the bound no longer fit. */
  lemma WideIsClean<T>(words: seq<T>, start: nat, width: nat)
    requires width > MAXIMUM_PATTERN_WORDS || start + MINIMUM_REPETITIONS * width > |words|
    ensures Clean(words, start, width)
  {
    forall r: nat ensures !Witness(words, start, width, r) {
      if r >= MINIMUM_REPETITIONS {
        assert MINIMUM_REPETITIONS * width <= r * width;
      }
    }
  }

  /** All widths tried at one start. */
  method RepeatsFrom<T(==)>(words: seq<T>, start: nat) returns (found: bool)
    requires start < |words|
    ensures found ==> Pathological(words)
    ensures !found ==> forall w: nat :: w > 0 ==> Clean(words, start, w)
  {
    var fit := (|words| - start) / MINIMUM_REPETITIONS;
    var maxPattern := if MAXIMUM_PATTERN_WORDS < fit then MAXIMUM_PATTERN_WORDS else fit;
    for width := 1 to maxPattern + 1
      invariant forall w: nat :: 0 < w < width ==> Clean(words, start, w)
    {
      var repetitions := CountRepetitions(words, start, width);
      if repetitions >= MINIMUM_REPETITIONS && repetitions * width >= MINIMUM_REPEATED_WORDS {
        assert Witness(words, start, width, repetitions);
        return true;
      }
      ShortRunIsClean(words, start, width, repetitions);
    }
    forall w: nat | w > maxPattern ensures Clean(words, start, w) {
      WideIsClean(words, start, w);
    }
    return false;
  }

  /** hasPathologicalTokenRepetition: exact, so neither the pattern-length bound nor the
      early stop of the count loses a loop. */
  method HasPathologicalTokenRepetition<T(==)>(words: seq<T>) returns (found: bool)
    ensures found <==> Pathological(words)
  {
    for start := 0 to |words|
      invariant forall s: nat, w: nat :: s < start && w > 0 ==> Clean(words, s, w)
    {
      found := RepeatsFrom(words, start);
      if found {
        return;
      }
    }
    forall s: nat, w: nat | s >= |words| && w > 0 ensures Clean(words, s, w) {
      WideIsClean(words, s, w);
    }
    forall s: nat, w: nat, r: nat ensures !Witness(words, s, w, r) {
      assert w > 0 ==> Clean(words, s, w);
    }
    return false;
  }
}
