/** The playback ring of drivers/macos/capture/miccapture.swift: power-of-two capacity,
    masked cursors, the stalest samples overwritten. */
module PlayRing {
  import opened Bits
  import BoundedFifo
  import opened RingCells
  import opened PcmCodec

  /** The queue after one sample is stored and the stalest, if the ring is full, is skipped. */
  lemma Appended(cells: seq<Sample>, timeline: seq<Sample>, head: nat, sample: Sample)
    requires Holds(cells, timeline, head, |timeline|)
    ensures var head' := if |timeline| + 1 - head > |cells| then |timeline| + 1 - |cells| else head;
            && Holds(cells[|timeline| % |cells| := sample], timeline + [sample], head', |timeline| + 1)
            && (timeline + [sample])[head'..] == BoundedFifo.Push(timeline[head..], [sample], |cells|)
  {
    StoreNext(cells, timeline, head, sample);
    assert (timeline + [sample])[head..] == timeline[head..] + [sample];
  }

  lemma NoneAppended(queue: seq<Sample>, stream: seq<Sample>, samples: seq<Sample>, capacity: nat)
    requires |queue| <= capacity
    ensures queue == BoundedFifo.Push(queue, samples[..0], capacity) && stream == stream + samples[..0]
  {
  }

  lemma NextAppended(queue: seq<Sample>, stream: seq<Sample>, samples: seq<Sample>, k: nat, capacity: nat)
    requires k < |samples|
    ensures stream + samples[..k] + [samples[k]] == stream + samples[..k + 1]
    ensures BoundedFifo.Push(BoundedFifo.Push(queue, samples[..k], capacity), [samples[k]], capacity)
         == BoundedFifo.Push(queue, samples[..k + 1], capacity)
  {
    assert samples[..k + 1] == samples[..k] + [samples[k]];
    BoundedFifo.PushOneMore(queue, samples[..k], samples[k], capacity);
  }

  class Ring {
    var buf: array<Sample>
    const mask: nat
    var head: nat
    var tail: nat
    /** Every sample ever pushed. */
    ghost var timeline: seq<Sample>

    ghost predicate Valid()
      reads this, buf
    {
      && PowerOfTwo(buf.Length) && mask == buf.Length - 1
      && tail == |timeline|
      && Holds(buf[..], timeline, head, tail)
    }

    ghost function Queue(): seq<Sample>
      requires Valid()
      reads this, buf
    {
      timeline[head..]
    }

    /** Rounds the capacity up to the next power of two. */
    constructor (capacity: nat)
      ensures Valid() && Queue() == [] && fresh(buf)
      ensures buf.Length >= capacity && (buf.Length == 1 || buf.Length < 2 * capacity)
    {
      var size := 1;
      while size < capacity
        invariant PowerOfTwo(size) && (size == 1 || size < 2 * capacity)
        decreases capacity - size
      {
        size := size * 2;
      }
      buf := new Sample[size](_ => 0);
      mask := size - 1;
      head, tail := 0, 0;
      timeline := [];
    }

    method Push(samples: seq<Sample>)
      requires Valid()
      modifies this, buf
      ensures Valid() && buf == old(buf)
      ensures timeline == old(timeline) + samples
      ensures Queue() == BoundedFifo.Push(old(Queue()), samples, buf.Length)
    {
      ghost var start, stream := Queue(), timeline;
      NoneAppended(start, stream, samples, buf.Length);
      hide *;
      for k := 0 to |samples|
        invariant Valid() && buf == old(buf)
        invariant timeline == stream + samples[..k]
        invariant Queue() == BoundedFifo.Push(start, samples[..k], buf.Length)
      {
        PushOne(samples[k]);
        NextAppended(start, stream, samples, k, buf.Length);
      }
      assert samples[..|samples|] == samples;
    }

    /** One turn of push's loop. */
    method PushOne(sample: Sample)
      requires Valid()
      modifies this, buf
      ensures Valid() && buf == old(buf)
      ensures timeline == old(timeline) + [sample]
      ensures Queue() == BoundedFifo.Push(old(Queue()), [sample], buf.Length)
    {
      MaskIsRemainder(tail, buf.Length);
      Appended(buf[..], timeline, head, sample);
      hide PowerOfTwo, And, Holds, BoundedFifo.Push;
      ghost var stored := buf[..][tail % buf.Length := sample];
      buf[And(tail, mask)] := sample;
      assert buf[..] == stored;
      tail := tail + 1;
      timeline := timeline + [sample];
      if tail - head > buf.Length {
        head := tail - buf.Length;
      }
    }

    /** One turn of pop's first loop. */
    method PopOne() returns (sample: Sample)
      requires Valid() && head < tail
      modifies this`head
      ensures Valid() && head == old(head) + 1 && sample == timeline[old(head)]
    {
      MaskIsRemainder(head, buf.Length);
      sample := buf[And(head, mask)];
      head := head + 1;
    }

    /** pop: fills out with up to `count` samples, then zeros, and says how many carried
        audio. The conversion to float is left to the caller. */
    method Pop(out: array<Sample>, count: nat) returns (filled: nat)
      requires Valid() && out != buf && count <= out.Length
      modifies this`head, out
      ensures Valid() && filled == BoundedFifo.Count(|old(Queue())|, count)
      ensures Queue() == old(Queue())[filled..]
      ensures out[..] == old(Queue())[..filled] + seq(count - filled, _ => 0) + old(out[count..])
    {
      filled := Min(count, tail - head);
      hide Holds, PowerOfTwo, And;
      ghost var before, start := out[..], head;
      for i := 0 to filled
        invariant Valid() && head == start + i
        invariant forall j :: 0 <= j < i ==> out[j] == timeline[start + j]
        invariant forall j :: i <= j < out.Length ==> out[j] == before[j]
      {
        var sample := PopOne();
        out[i] := sample;
      }
      for i := filled to count
        invariant Valid() && head == start + filled
        invariant forall j :: 0 <= j < filled ==> out[j] == timeline[start + j]
        invariant forall j :: filled <= j < i ==> out[j] == 0
        invariant forall j :: i <= j < out.Length ==> out[j] == before[j]
      {
        out[i] := 0;
      }
      assert out[..] == old(Queue())[..filled] + seq(count - filled, _ => 0) + before[count..];
    }
  }
}
