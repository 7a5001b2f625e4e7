/** A fixed ring of cells as a cache of an unbounded timeline: the storage side of the
    Windows driver ring and of the macOS play ring. */
module RingCells {
  import Division

  /** Cells of the ring hold the timeline's elements lo..hi, each at its position modulo the
      ring size. */
  ghost predicate Holds<T>(cells: seq<T>, timeline: seq<T>, lo: nat, hi: nat) {
    && |cells| > 0 && lo <= hi <= |timeline| && hi - lo <= |cells|
    && forall k: nat :: lo <= k < hi ==> cells[k % |cells|] == timeline[k]
  }

  lemma StoreNext<T>(cells: seq<T>, timeline: seq<T>, lo: nat, x: T)
    requires Holds(cells, timeline, lo, |timeline|)
    ensures var lo' := if |timeline| + 1 - lo > |cells| then lo + 1 else lo;
            Holds(cells[|timeline| % |cells| := x], timeline + [x], lo', |timeline| + 1)
  {
    var lo' := if |timeline| + 1 - lo > |cells| then lo + 1 else lo;
    var cells' := cells[|timeline| % |cells| := x];
    forall k: nat | lo' <= k < |timeline| ensures cells'[k % |cells|] == timeline[k] {
      Division.ModDistinct(k, |timeline|, |cells|);
    }
  }

  lemma ClearFirst<T>(cells: seq<T>, timeline: seq<T>, lo: nat, hi: nat, blank: T)
    requires Holds(cells, timeline, lo, hi) && lo < hi
    ensures Holds(cells[lo % |cells| := blank], timeline, lo + 1, hi)
  {
    forall k: nat | lo < k < hi ensures cells[lo % |cells| := blank][k % |cells|] == timeline[k] {
      Division.ModDistinct(lo, k, |cells|);
    }
  }

  /** The copy one would write per element: cell (from + k) modulo the size gets xs[k]. */
  function StoreEach<T>(cells: seq<T>, from: nat, xs: seq<T>): (r: seq<T>)
    requires |cells| > 0
    ensures |r| == |cells|
  {
    if xs == [] then cells
    else StoreEach(cells, from, xs[..|xs| - 1])[(from + |xs| - 1) % |cells| := xs[|xs| - 1]]
  }

  function Later(lo: nat, end: nat, size: nat): (r: nat)
    ensures lo <= r && (lo <= end ==> r <= end || size == 0) && end - r <= size
  {
    if end - lo > size then end - size else lo
  }

  /** Appending xs element by element keeps the newest elements that fit. */
  lemma {:induction false} StoreEachHolds<T>(cells: seq<T>, timeline: seq<T>, lo: nat, xs: seq<T>)
    requires Holds(cells, timeline, lo, |timeline|)
    ensures Holds(StoreEach(cells, |timeline|, xs), timeline + xs,
                  Later(lo, |timeline| + |xs|, |cells|), |timeline| + |xs|)
    decreases |xs|
  {
    if xs == [] {
      assert timeline + xs == timeline;
    } else {
      var most, last := xs[..|xs| - 1], xs[|xs| - 1];
      StoreEachHolds(cells, timeline, lo, most);
      StoreNext(StoreEach(cells, |timeline|, most), timeline + most, Later(lo, |timeline| + |most|, |cells|), last);
      assert timeline + xs == timeline + most + [last];
    }
  }

  lemma {:induction false} ClearEachHolds<T>(cells: seq<T>, timeline: seq<T>, lo: nat, hi: nat, blanks: seq<T>)
    requires Holds(cells, timeline, lo, hi) && lo + |blanks| <= hi
    ensures Holds(StoreEach(cells, lo, blanks), timeline, lo + |blanks|, hi)
    decreases |blanks|
  {
    if blanks != [] {
      var most := blanks[..|blanks| - 1];
      ClearEachHolds(cells, timeline, lo, hi, most);
      ClearFirst(StoreEach(cells, lo, most), timeline, lo + |most|, hi, blanks[|blanks| - 1]);
    }
  }

  // ---- two bulk moves split at the wrap -----------------------------------------------

  function Min(a: nat, b: nat): nat {
    if a < b then a else b
  }

  /** The ring after xs is written in two moves: up to the end of the ring, then on from its
      start. */
  function StoreSplit<T>(cells: seq<T>, from: nat, xs: seq<T>): seq<T>
    requires 0 < |cells| && |xs| <= |cells|
  {
    var pos := from % |cells|;
    var first := Min(|xs|, |cells| - pos);
    var once := cells[..pos] + xs[..first] + cells[pos + first..];
    xs[first..] + once[|xs| - first..]
  }

  /** What cell i holds after xs was written from `from` on. */
  function CellAfter<T>(cells: seq<T>, from: nat, xs: seq<T>, i: nat): T
    requires i < |cells|
  {
    var pos := from % |cells|;
    var k := if i >= pos then i - pos else i + |cells| - pos;
    if k < |xs| then xs[k] else cells[i]
  }

  lemma {:induction false} StoreEachAt<T>(cells: seq<T>, from: nat, xs: seq<T>, i: nat)
    requires i < |cells| && |xs| <= |cells|
    ensures StoreEach(cells, from, xs)[i] == CellAfter(cells, from, xs, i)
    decreases |xs|
  {
    if xs != [] {
      StoreEachAt(cells, from, xs[..|xs| - 1], i);
      Division.ModStep(from, |xs| - 1, |cells|);
    }
  }

  /** The two bulk moves are the per-element copy. */
  lemma SplitIsEach<T>(cells: seq<T>, from: nat, xs: seq<T>)
    requires 0 < |cells| && |xs| <= |cells|
    ensures StoreSplit(cells, from, xs) == StoreEach(cells, from, xs)
  {
    forall i | 0 <= i < |cells| ensures StoreSplit(cells, from, xs)[i] == StoreEach(cells, from, xs)[i] {
      StoreEachAt(cells, from, xs, i);
    }
  }

  /** n elements read in two moves. */
  function ReadSplit<T>(cells: seq<T>, from: nat, n: nat): seq<T>
    requires 0 < |cells| && n <= |cells|
  {
    var pos := from % |cells|;
    var first := Min(n, |cells| - pos);
    cells[pos..pos + first] + cells[..n - first]
  }

  lemma ReadSplitIsTimeline<T>(cells: seq<T>, timeline: seq<T>, lo: nat, hi: nat, n: nat)
    requires Holds(cells, timeline, lo, hi) && lo + n <= hi
    ensures ReadSplit(cells, lo, n) == timeline[lo..lo + n]
  {
    forall k: nat | k < n ensures ReadSplit(cells, lo, n)[k] == timeline[lo + k] {
      if k < |cells| {
        Division.ModStep(lo, k, |cells|);
      }
      assert cells[(lo + k) % |cells|] == timeline[lo + k];
    }
  }
}

/** The queue both rings promise: bounded, overwriting the stalest elements. */
module BoundedFifo {
  /** The queue keeps the newest elements that fit. */
  function Push<T>(queue: seq<T>, xs: seq<T>, capacity: nat): seq<T> {
    var all := queue + xs;
    if |all| > capacity then all[|all| - capacity..] else all
  }

  function Count(queue: nat, wanted: nat): nat {
    if wanted < queue then wanted else queue
  }

  /** A push keeps the end of what there was and what comes, as much as fits; a read gets all
      it wants or all there is. */
  lemma NewestThatFit<T>(queue: seq<T>, xs: seq<T>, capacity: nat, wanted: nat)
    ensures var pushed := Push(queue, xs, capacity);
            && |pushed| <= capacity && |pushed| <= |queue + xs|
            && (|pushed| == capacity || |pushed| == |queue + xs|)
            && pushed == (queue + xs)[|queue + xs| - |pushed|..]
    ensures var n := Count(|queue|, wanted); n <= |queue| && n <= wanted && (n == |queue| || n == wanted)
  {
  }

  datatype Op<T> = Write(xs: seq<T>) | Read(wanted: nat)

  /** One read as a span of the timeline: which elements it got, and how many had been
      written by then. */
  datatype Span = Span(from: nat, to: nat, written: nat)

  /** The queue, everything ever written, and what every read returned and which span of
      the timeline it stands for. */
  datatype Log<T> = Log(queue: seq<T>, stream: seq<T>, outputs: seq<seq<T>>, spans: seq<Span>)

  function Step<T>(log: Log<T>, op: Op<T>, capacity: nat): Log<T> {
    match op
    case Write(xs) => log.(queue := Push(log.queue, xs, capacity), stream := log.stream + xs)
    case Read(wanted) =>
      var n := Count(|log.queue|, wanted);
      var from := Unread(log.spans, |log.stream|, capacity);
      Log(log.queue[n..], log.stream, log.outputs + [log.queue[..n]],
          log.spans + [Span(from, from + n, |log.stream|)])
  }

  function After<T>(ops: seq<Op<T>>, capacity: nat): Log<T> {
    if ops == [] then Log([], [], [], []) else Step(After(ops[..|ops| - 1], capacity), ops[|ops| - 1], capacity)
  }

  /** Where the last read ended. */
  function Behind(spans: seq<Span>): nat { if spans == [] then 0 else spans[|spans| - 1].to }

  /** Where the next read starts: behind the last one, or where the overwritten elements
      end if that is later. */
  function Unread(spans: seq<Span>, written: nat, capacity: nat): nat {
    var behind := Behind(spans);
    if written > behind + capacity then written - capacity else behind
  }

  /** The queue is the unread tail of the stream. */
  ghost predicate QueueIsTail<T>(log: Log<T>, capacity: nat) {
    && (log.spans != [] ==> log.spans[|log.spans| - 1].to <= log.spans[|log.spans| - 1].written <= |log.stream|)
    && var unread := Unread(log.spans, |log.stream|, capacity);
       unread <= |log.stream| && log.queue == log.stream[unread..]
  }

  lemma StepKeepsTail<T>(log: Log<T>, op: Op<T>, capacity: nat)
    requires QueueIsTail(log, capacity)
    ensures QueueIsTail(Step(log, op, capacity), capacity)
  {
    var unread := Unread(log.spans, |log.stream|, capacity);
    match op
    case Write(xs) =>
      assert log.queue + xs == (log.stream + xs)[unread..];
    case Read(wanted) =>
      var n := Count(|log.queue|, wanted);
      assert log.queue[n..] == log.stream[unread + n..];
  }

  /** Read i returned its span of the stream, and started behind read i-1, skipping only
      what lay more than `capacity` behind the write end. */
  ghost predicate Delivered<T>(log: Log<T>, capacity: nat, i: nat)
    requires i < |log.spans|
  {
    var span := log.spans[i];
    && i < |log.outputs|
    && span.from <= span.to <= span.written <= |log.stream|
    && log.outputs[i] == log.stream[span.from..span.to]
    && span.from == Unread(log.spans[..i], span.written, capacity)
  }

  ghost predicate AllDelivered<T>(log: Log<T>, capacity: nat) {
    && |log.outputs| == |log.spans|
    && (forall i: nat :: i < |log.spans| ==> Delivered(log, capacity, i))
    && (forall i: nat :: 0 < i < |log.spans| ==> log.spans[i - 1].written <= log.spans[i].written)
  }

  lemma StepDelivers<T>(log: Log<T>, op: Op<T>, capacity: nat)
    requires QueueIsTail(log, capacity) && AllDelivered(log, capacity)
    ensures AllDelivered(Step(log, op, capacity), capacity)
  {
    var next := Step(log, op, capacity);
    forall i: nat | i < |log.spans| ensures Delivered(next, capacity, i) {
      assert Delivered(log, capacity, i);
      assert next.spans[..i] == log.spans[..i];
    }
    if op.Read? {
      assert next.spans[..|log.spans|] == log.spans;
      assert Delivered(next, capacity, |log.spans|);
      if log.spans != [] {
        assert Delivered(log, capacity, |log.spans| - 1);
      }
    }
  }

  /** For every sequence of writes and reads: each read returns a span of the written
      stream, the spans follow one another without overlap, and a read starts exactly
      behind the last one, skipping only what was overwritten. */
  lemma {:induction false} ReadsFollowTheStream<T>(ops: seq<Op<T>>, capacity: nat)
    ensures QueueIsTail(After(ops, capacity), capacity)
    ensures AllDelivered(After(ops, capacity), capacity)
    decreases |ops|
  {
    if ops != [] {
      var before := After(ops[..|ops| - 1], capacity);
      ReadsFollowTheStream(ops[..|ops| - 1], capacity);
      StepKeepsTail(before, ops[|ops| - 1], capacity);
      StepDelivers(before, ops[|ops| - 1], capacity);
    }
  }

  /** In order and disjoint, for any two reads. */
  lemma {:induction false} SpansAreOrdered<T>(log: Log<T>, capacity: nat, i: nat, j: nat)
    requires AllDelivered(log, capacity) && i < j < |log.spans|
    ensures log.spans[i].to <= log.spans[j].from
    decreases j
  {
    assert Delivered(log, capacity, j) && Delivered(log, capacity, j - 1);
    assert log.spans[..j][j - 1] == log.spans[j - 1];
    if i < j - 1 {
      SpansAreOrdered(log, capacity, i, j - 1);
    }
  }

  /** Pushing one more element is pushing them all at once. */
  lemma PushOneMore<T>(queue: seq<T>, xs: seq<T>, x: T, capacity: nat)
    ensures Push(Push(queue, xs, capacity), [x], capacity) == Push(queue, xs + [x], capacity)
  {
    assert queue + xs + [x] == queue + (xs + [x]);
  }
}
