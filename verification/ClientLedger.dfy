/** The IO client ledger of drivers/macos/common/plugin.c: a fixed table of clients, the
    count of running ones and the anchor seed, against a map from client id to running. */
module ClientLedger {
  import opened Bytes
  import MacLoopback
  import MacRing
  import MacRingThreads
  import opened ZeroTimeStamps

  const MAX_IO_CLIENTS: nat := 256

  datatype Client = Client(id: u32, occupied: bool, running: bool)

  const EMPTY := Client(0, false, false)

  datatype Status = NoError | IllegalOperation | Unspecified

  // ---- what the calls mean ------------------------------------------------------------

  /** The clients with whether they run, and (history) how often the clock was anchored. */
  datatype Ledger = Ledger(clients: map<u32, bool>, anchors: nat)

  const INITIAL := Ledger(map[], 0)

  datatype Call = Add(id: u32) | Remove(id: u32) | Start(id: u32) | Stop(id: u32)

  function Running(clients: map<u32, bool>): set<u32> { set id | id in clients && clients[id] }

  /** Nobody runs. */
  ghost predicate Idle(clients: map<u32, bool>) { forall id :: id in clients ==> !clients[id] }

  function After(v: Ledger, call: Call): (Ledger, Status) {
    match call
    case Add(id) =>
      if id in v.clients then (v, NoError)
      else if |v.clients| < MAX_IO_CLIENTS then (v.(clients := v.clients[id := false]), NoError)
      else (v, Unspecified)
    case Remove(id) => (v.(clients := v.clients - {id}), NoError)
    case Start(id) =>
      if id !in v.clients then (v, IllegalOperation)
      else (Ledger(v.clients[id := true], v.anchors + if Running(v.clients) == {} then 1 else 0), NoError)
    case Stop(id) =>
      (if id in v.clients then v.(clients := v.clients[id := false]) else v, NoError)
  }

  function AfterAll(calls: seq<Call>): Ledger {
    if calls == [] then INITIAL else After(AfterAll(calls[..|calls| - 1]), calls[|calls| - 1]).0
  }

  /** How often the running set went from empty to nonempty over a trace. */
  function Transitions(calls: seq<Call>): nat {
    if calls == [] then 0 else
      Transitions(calls[..|calls| - 1])
      + if Running(AfterAll(calls[..|calls| - 1]).clients) == {} && Running(AfterAll(calls).clients) != {} then 1 else 0
  }

  /** Over any calls, duplicates included, the clock is anchored exactly when the running
      set goes from empty to nonempty, and no more than the table holds are known. */
  lemma {:induction false} AnchorsCountTransitions(calls: seq<Call>)
    ensures AfterAll(calls).anchors == Transitions(calls)
    ensures |AfterAll(calls).clients| <= MAX_IO_CLIENTS
    decreases |calls|
  {
    if calls != [] {
      var v, call := AfterAll(calls[..|calls| - 1]), calls[|calls| - 1];
      AnchorsCountTransitions(calls[..|calls| - 1]);
      var after := After(v, call).0;
      match call
      case Start(id) => if id in v.clients { assert id in Running(after.clients); }
      case Remove(id) =>
        assert Running(after.clients) <= Running(v.clients);
        SmallerMap(v.clients, id);
      case _ => assert Running(after.clients) <= Running(v.clients);
    }
  }

  lemma SmallerMap(m: map<u32, bool>, id: u32)
    ensures |m - {id}| == if id in m then |m| - 1 else |m|
  {
    assert (m - {id}).Keys == m.Keys - {id};
  }

  // ---- the table as a map -------------------------------------------------------------

  /** No id is in two occupied slots. */
  ghost predicate Distinct(slots: seq<Client>) {
    forall i, j :: 0 <= i < j < |slots| && slots[i].occupied && slots[j].occupied ==> slots[i].id != slots[j].id
  }

  /** Slot i is occupied by id. */
  predicate Holds(slots: seq<Client>, i: nat, id: u32) { i < |slots| && slots[i].occupied && slots[i].id == id }

  /** The clients by id, with whether they run. */
  function Clients(slots: seq<Client>): map<u32, bool> {
    if slots == [] then map[] else
      var last := slots[|slots| - 1];
      var before := Clients(slots[..|slots| - 1]);
      if last.occupied then before[last.id := last.running] else before
  }

  lemma {:induction false} ClientsFrom(slots: seq<Client>, id: u32)
    ensures id in Clients(slots) <==> exists i: nat :: Holds(slots, i, id)
    decreases |slots|
  {
    if slots != [] {
      var n := |slots| - 1;
      ClientsFrom(slots[..n], id);
      if i: nat :| Holds(slots[..n], i, id) { assert Holds(slots, i, id); }
      if i: nat :| Holds(slots, i, id) {
        if i < n { assert Holds(slots[..n], i, id); } else { assert slots[n].id == id; }
      }
      if slots[n].occupied && slots[n].id == id { assert Holds(slots, n, id); }
    }
  }

  lemma {:induction false} ClientsAt(slots: seq<Client>, i: nat)
    requires Distinct(slots) && i < |slots| && slots[i].occupied
    ensures slots[i].id in Clients(slots) && Clients(slots)[slots[i].id] == slots[i].running
    decreases |slots|
  {
    if i < |slots| - 1 {
      ClientsAt(slots[..|slots| - 1], i);
    }
  }

  lemma {:induction false} ClientsAtMost(slots: seq<Client>)
    ensures |Clients(slots)| <= |slots|
    decreases |slots|
  {
    if slots != [] {
      ClientsAtMost(slots[..|slots| - 1]);
    }
  }

  /** A table without a free slot knows as many clients as it has slots. */
  lemma {:induction false} ClientsWhenFull(slots: seq<Client>)
    requires Distinct(slots) && forall i :: 0 <= i < |slots| ==> slots[i].occupied
    ensures |Clients(slots)| == |slots|
    decreases |slots|
  {
    if slots != [] {
      var n := |slots| - 1;
      ClientsWhenFull(slots[..n]);
      ClientsFrom(slots[..n], slots[n].id);
      assert forall i: nat :: i < n ==> slots[..n][i].id != slots[n].id;
    }
  }

  /** A table with a free slot knows fewer. */
  lemma {:induction false} ClientsWhenFree(slots: seq<Client>, k: nat)
    requires k < |slots| && !slots[k].occupied
    ensures |Clients(slots)| < |slots|
    decreases |slots|
  {
    if k < |slots| - 1 {
      ClientsWhenFree(slots[..|slots| - 1], k);
    } else {
      ClientsAtMost(slots[..k]);
    }
  }

  lemma ValueAt(slots: seq<Client>, id: u32, i: nat)
    requires Distinct(slots) && Holds(slots, i, id)
    ensures id in Clients(slots) && Clients(slots)[id] == slots[i].running
  {
    ClientsAt(slots, i);
  }

  /** One slot overwritten: seen at one id. */
  lemma WrittenAt(slots: seq<Client>, k: nat, client: Client, id: u32)
    requires Distinct(slots) && k < |slots| && Distinct(slots[k := client])
    ensures var clients, after := Clients(slots), Clients(slots[k := client]);
            if client.occupied && id == client.id then id in after && after[id] == client.running
            else if slots[k].occupied && id == slots[k].id then id !in after
            else (id in after <==> id in clients) && (id in after ==> after[id] == clients[id])
  {
    hide Clients;
    var after := slots[k := client];
    ClientsFrom(slots, id);
    ClientsFrom(after, id);
    if client.occupied && id == client.id {
      ValueAt(after, id, k);
    } else {
      if i: nat :| Holds(after, i, id) {
        assert i != k && Holds(slots, i, id);
        ValueAt(after, id, i);
        ValueAt(slots, id, i);
      } else if i: nat :| Holds(slots, i, id) {
        assert i != k ==> Holds(after, i, id);
      }
    }
  }

  /** The map after one slot is overwritten, by what it held and what it gets. */
  lemma SlotWritten(slots: seq<Client>, k: nat, client: Client)
    requires Distinct(slots) && k < |slots|
    requires client.occupied ==> forall i: nat :: i != k ==> !Holds(slots, i, client.id)
    ensures Distinct(slots[k := client])
    ensures var rest := if slots[k].occupied then Clients(slots) - {slots[k].id} else Clients(slots);
            Clients(slots[k := client]) == if client.occupied then rest[client.id := client.running] else rest
  {
    hide Clients;
    var after := slots[k := client];
    forall i, j | 0 <= i < j < |after| && after[i].occupied && after[j].occupied ensures after[i].id != after[j].id {
      if i == k { assert !Holds(slots, j, client.id); }
      if j == k { assert !Holds(slots, i, client.id); }
    }
    var rest := if slots[k].occupied then Clients(slots) - {slots[k].id} else Clients(slots);
    var expected := if client.occupied then rest[client.id := client.running] else rest;
    forall id: u32 ensures id in Clients(after) <==> id in expected
      ensures id in expected ==> Clients(after)[id] == expected[id] {
      WrittenAt(slots, k, client, id);
    }
    assert Clients(after) == expected;
  }

  // ---- the running set ----------------------------------------------------------------

  lemma RunningAdd(clients: map<u32, bool>, id: u32)
    requires id in clients && !clients[id]
    ensures |Running(clients[id := true])| == |Running(clients)| + 1
  {
    assert Running(clients[id := true]) == Running(clients) + {id};
  }

  lemma RunningDrop(clients: map<u32, bool>, id: u32)
    requires id in clients && clients[id]
    ensures |Running(clients)| == |Running(clients[id := false])| + 1
  {
    assert Running(clients) == Running(clients[id := false]) + {id};
  }

  lemma RunningAtMost(clients: map<u32, bool>)
    ensures |Running(clients)| <= |clients|
  {
    SubsetSize(Running(clients), clients.Keys);
  }

  lemma SubsetSize(a: set<u32>, b: set<u32>)
    requires a <= b
    ensures |a| <= |b|
  {
    assert b == a + (b - a);
  }

  lemma NobodyYet(slots: seq<Client>)
    requires forall i :: 0 <= i < |slots| ==> slots[i] == EMPTY
    ensures Distinct(slots) && Clients(slots) == map[] && Running(Clients(slots)) == {}
  {
    if id :| id in Clients(slots) { ClientsFrom(slots, id); }
  }

  lemma AddedIdle(clients: map<u32, bool>, id: u32)
    requires id !in clients
    ensures Running(clients[id := false]) == Running(clients)
  {
  }

  lemma OnlySlot(slots: seq<Client>, k: nat)
    requires Distinct(slots) && k < |slots| && slots[k].occupied
    ensures Holds(slots, k, slots[k].id) && forall i: nat :: i != k ==> !Holds(slots, i, slots[k].id)
  {
  }

  lemma SetAgain(clients: map<u32, bool>, id: u32, running: bool)
    ensures (clients - {id})[id := running] == clients[id := running]
  {
  }

  lemma DroppedIdle(clients: map<u32, bool>, id: u32)
    requires id in clients
    ensures clients[id := false] - {id} == clients - {id}
    ensures Running(clients - {id}) == Running(clients[id := false])
  {
  }

  lemma RunsAlready(clients: map<u32, bool>, id: u32)
    requires id in clients && clients[id]
    ensures Running(clients) != {}
  {
    assert id in Running(clients);
  }

  lemma NobodyRuns(clients: map<u32, bool>)
    ensures |Running(clients)| == 0 <==> Running(clients) == {}
    ensures Running(clients) == {} <==> Idle(clients)
  {
    if id :| id in clients && clients[id] { assert id in Running(clients); }
  }

  lemma CountFits(slots: seq<Client>)
    requires |slots| == MAX_IO_CLIENTS
    ensures |Running(Clients(slots))| <= MAX_IO_CLIENTS
  {
    RunningAtMost(Clients(slots));
    ClientsAtMost(slots);
  }

  // ---- the driver ---------------------------------------------------------------------

  class Device {
    const slots: array<Client>
    const ring: MacLoopback.Ring
    var ioCount: u32
    var seed: u64
    var anchorHostTime: u64
    ghost var anchors: nat

    constructor ()
      ensures Valid() && View() == INITIAL && fresh(slots) && fresh(ring) && fresh(ring.words)
    {
      slots := new Client[MAX_IO_CLIENTS](_ => EMPTY);
      ring := new MacLoopback.Ring();
      ioCount, seed, anchorHostTime, anchors := 0, 0, 0, 0;
      new;
      NobodyYet(slots[..]);
    }

    ghost function View(): Ledger
      reads this, slots
    {
      Ledger(Clients(slots[..]), anchors)
    }

    /** The count is the number of running clients, and the seed counts the anchors. */
    ghost predicate Valid()
      reads this, slots, ring
    {
      && slots.Length == MAX_IO_CLIENTS && ring.words.Length == MacRing.WORDS
      && Distinct(slots[..])
      && ioCount == |Running(Clients(slots[..]))|
      && seed == anchors % U64
    }

    method Find(id: u32) returns (found: bool, k: nat)
      ensures found ==> Holds(slots[..], k, id)
      ensures !found ==> forall i: nat :: !Holds(slots[..], i, id)
    {
      k := 0;
      while k < slots.Length
        invariant k <= slots.Length && forall i: nat :: i < k ==> !Holds(slots[..], i, id)
      {
        if slots[k].occupied && slots[k].id == id { return true, k; }
        k := k + 1;
      }
      found := false;
    }

    /** The first free slot gets a client that has none. */
    method Register(id: u32) returns (ok: bool)
      requires Valid()
      modifies slots
      ensures Valid() && View() == After(old(View()), Add(id)).0
      ensures ok == (After(old(View()), Add(id)).1 == NoError)
      ensures ok <==> id in old(Clients(slots[..])) || |old(Clients(slots[..]))| < MAX_IO_CLIENTS
      ensures id in old(Clients(slots[..])) || !ok ==> slots[..] == old(slots[..])
      ensures id !in old(Clients(slots[..])) && ok ==> Clients(slots[..]) == old(Clients(slots[..]))[id := false]
    {
      hide Clients, Running, Distinct;
      ghost var was := slots[..];
      var found, k := Find(id);
      ClientsFrom(was, id);
      if found { return true; }
      k := 0;
      while k < slots.Length
        invariant k <= slots.Length && slots[..] == was && forall i: nat :: i < k ==> was[i].occupied
      {
        if !slots[k].occupied {
          SlotWritten(was, k, Client(id, true, false));
          ClientsWhenFree(was, k);
          slots[k] := Client(id, true, false);
          assert slots[..] == was[k := Client(id, true, false)];
          AddedIdle(Clients(was), id);
          return true;
        }
        k := k + 1;
      }
      ClientsWhenFull(was);
      ok := false;
    }

    /** StopIOClientLocked on a client's slot. */
    method StopClient(k: nat)
      requires Valid() && k < slots.Length && slots[k].occupied
      modifies slots, this`ioCount
      ensures Valid() && View() == After(old(View()), Stop(old(slots[k].id))).0
      ensures Clients(slots[..]) == old(Clients(slots[..]))[old(slots[k].id) := false]
      ensures slots[k].occupied && slots[k].id == old(slots[k].id)
    {
      hide Clients, Running, Distinct;
      ghost var was, client := slots[..], slots[k];
      OnlySlot(was, k);
      ValueAt(was, client.id, k);
      if !slots[k].running { return; }
      SlotWritten(was, k, client.(running := false));
      slots[k] := slots[k].(running := false);
      assert slots[..] == was[k := client.(running := false)];
      SetAgain(Clients(was), client.id, false);
      RunningDrop(Clients(was), client.id);
      if ioCount > 0 { ioCount := ioCount - 1; }
    }

    method StopIO(id: u32)
      requires Valid()
      modifies slots, this`ioCount
      ensures Valid() && View() == After(old(View()), Stop(id)).0
      ensures id in old(Clients(slots[..])) ==> Clients(slots[..]) == old(Clients(slots[..]))[id := false]
      ensures id !in old(Clients(slots[..])) ==> slots[..] == old(slots[..]) && ioCount == old(ioCount)
    {
      var found, k := Find(id);
      ClientsFrom(slots[..], id);
      if found { StopClient(k); }
    }

    method RemoveDeviceClient(id: u32)
      requires Valid()
      modifies slots, this`ioCount
      ensures Valid() && View() == After(old(View()), Remove(id)).0
      ensures Clients(slots[..]) == old(Clients(slots[..])) - {id}
    {
      hide Clients, Running, Distinct;
      ghost var before := Clients(slots[..]);
      var found, k := Find(id);
      ClientsFrom(slots[..], id);
      if found {
        StopClient(k);
        ghost var stopped := slots[..];
        SlotWritten(stopped, k, EMPTY);
        slots[k] := EMPTY;
        assert slots[..] == stopped[k := EMPTY];
        DroppedIdle(before, id);
      } else {
        assert before - {id} == before;
      }
    }

    /** StartIO: the first client to run anchors the clock and clears the ring. */
    method StartIO(id: u32, now: u64) returns (status: Status)
      requires Valid()
      modifies this, slots, ring.words
      ensures Valid() && View() == After(old(View()), Start(id)).0 && status == After(old(View()), Start(id)).1
      ensures id in old(Clients(slots[..])) ==>
                status == NoError && Clients(slots[..]) == old(Clients(slots[..]))[id := true]
      ensures id !in old(Clients(slots[..])) ==>
                status == IllegalOperation && slots[..] == old(slots[..]) && ioCount == old(ioCount)
      ensures if id in old(Clients(slots[..])) && Idle(old(Clients(slots[..])))
              then && (forall i :: 0 <= i < ring.words.Length ==> ring.words[i] == 0)
                   && ring.words[..] == MacRingThreads.Start(0).words
                   && anchorHostTime == now && seed == (old(seed) as int + 1) % U64 && anchors == old(anchors) + 1
              else && ring.words[..] == old(ring.words[..]) && anchorHostTime == old(anchorHostTime)
                   && seed == old(seed) && anchors == old(anchors)
    {
      hide Clients, Running, Distinct, Idle;
      ghost var was := slots[..];
      var found, k := Find(id);
      ClientsFrom(was, id);
      if !found { return IllegalOperation; }
      ValueAt(was, id, k);
      OnlySlot(was, k);
      if slots[k].running {
        assert Clients(was)[id := true] == Clients(was);
        RunsAlready(Clients(was), id);
        NobodyRuns(Clients(was));
        return NoError;
      }
      NobodyRuns(Clients(was));
      if ioCount == 0 {
        anchorHostTime := now;
        seed := (seed + 1) % U64;
        anchors := anchors + 1;
        ring.Clear();
      }
      ghost var client := slots[k];
      SlotWritten(was, k, client.(running := true));
      RunningAdd(Clients(was), id);
      CountFits(was);
      slots[k] := slots[k].(running := true);
      assert slots[..] == was[k := client.(running := true)];
      SetAgain(Clients(was), id, true);
      ioCount := (ioCount + 1) % U32;
      status := NoError;
    }

    /** GetZeroTimeStamp: the last lap boundary that has passed, in samples and in host
        time since the anchor, under the anchor's seed. */
    method GetZeroTimeStamp(now: u64, ticksPerFrame: real)
        returns (sampleTime: real, hostTime: u64, stamp: u64, ghost laps: nat)
      requires ticksPerFrame > 0.0
      ensures sampleTime == (laps * MacRing.RING_FRAMES) as real
      ensures var ticksPerRing := ticksPerFrame * MacRing.RING_FRAMES as real;
              && Span(laps, ticksPerRing) <= Since(anchorHostTime, now) as real < Span(laps + 1, ticksPerRing)
              && Since(anchorHostTime, hostTime) == Span(laps, ticksPerRing).Floor
      ensures stamp == seed
    {
      var ticksPerRing := ticksPerFrame * MacRing.RING_FRAMES as real;
      StampMeans(anchorHostTime, now, ticksPerRing);
      var elapsed := (now - anchorHostTime) % U64;
      var whole := (elapsed as real / ticksPerRing).Floor;
      laps := whole;
      sampleTime := (whole * MacRing.RING_FRAMES) as real;
      hostTime := (anchorHostTime + Span(whole, ticksPerRing).Floor) % U64;
      stamp := seed;
    }

    /** Any of the four calls; now is the host time it is made at. */
    method Perform(call: Call, now: u64) returns (status: Status)
      requires Valid()
      modifies this, slots, ring.words
      ensures Valid() && View() == After(old(View()), call).0 && status == After(old(View()), call).1
    {
      status := NoError;
      match call
      case Add(id) =>
        var ok := Register(id);
        status := if ok then NoError else Unspecified;
      case Remove(id) => RemoveDeviceClient(id);
      case Start(id) => status := StartIO(id, now);
      case Stop(id) => StopIO(id);
    }
  }

  /** The table driven by any calls: it is the map, the count is the number of running
      clients, and the seed the number of times someone began to run alone. */
  method Replay(calls: seq<Call>, times: seq<u64>) returns (device: Device, statuses: seq<Status>)
    requires |times| == |calls|
    ensures fresh(device) && device.Valid()
    ensures device.View() == AfterAll(calls)
    ensures device.seed == Transitions(calls) % U64
    ensures device.ioCount == |Running(AfterAll(calls).clients)|
    ensures |statuses| == |calls|
    ensures forall k :: 0 <= k < |calls| ==> statuses[k] == After(AfterAll(calls[..k]), calls[k]).1
  {
    hide After;
    device := new Device();
    statuses := [];
    for n := 0 to |calls|
      invariant fresh(device) && fresh(device.slots) && fresh(device.ring) && fresh(device.ring.words)
      invariant device.Valid() && device.View() == AfterAll(calls[..n])
      invariant |statuses| == n
      invariant forall k :: 0 <= k < n ==> statuses[k] == After(AfterAll(calls[..k]), calls[k]).1
    {
      assert calls[..n + 1][..n] == calls[..n];
      var status := device.Perform(calls[n], times[n]);
      statuses := statuses + [status];
    }
    assert calls[..|calls|] == calls;
    AnchorsCountTransitions(calls);
  }
}
