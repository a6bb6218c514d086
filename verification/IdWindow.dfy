/** How many packets an association can send before the sixteen-bit packet id may confuse the
    receiver. */
module IdWindow {
  import opened Bytes
  import opened Target
  import opened Fragmentation
  import opened Sender
  import opened EndToEnd
  import opened Delivery
  import opened RoundTrip

  /** Sends on a new association and an arrival of their datagrams, none twice. */
  ghost predicate Run(a: uint16, id: uint16, ops: seq<SendOp>, ss: Sessions, evs: seq<NetEvent>) {
    && AllRunnable(ops) && (forall n :: 0 <= n < |ops| ==> Faithful(ops[n]))
    && AllPossible(Traffic(a, SendRun(id, ops)), evs) && AtMostOnce(evs)
    && a in ss && ss[a] == NEW_STREAM
  }

  ghost predicate OnlySent(a: uint16, id: uint16, ops: seq<SendOp>, ss: Sessions, evs: seq<NetEvent>)
    requires Run(a, id, ops, ss, evs)
  {
    multiset(Received(Traffic(a, SendRun(id, ops)), ss, evs)) <= multiset(Accepted(ops))
  }

  /** Whatever `n` packets are sent, and however their datagrams arrive, only they are received. */
  ghost predicate SafeFor(n: nat) {
    forall a: uint16, id: uint16, ops, ss, evs ::
      Run(a, id, ops, ss, evs) && |SendRun(id, ops)| == n ==> OnlySent(a, id, ops, ss, evs)
  }

  ghost predicate AllAt(ops: seq<SendOp>, d: nat) {
    forall n :: 0 <= n < |ops| ==> ops[n].d == d
  }

  /** The same with the datagram limit at `d` throughout. */
  ghost predicate SafeAt(d: nat, n: nat) {
    forall a: uint16, id: uint16, ops, ss, evs ::
      Run(a, id, ops, ss, evs) && AllAt(ops, d) && |SendRun(id, ops)| == n ==> OnlySent(a, id, ops, ss, evs)
  }

  // ---------------------------------------------------------------- one packet too many

  /** The destination with the shortest header, 14 bytes in all. */
  const DEST: TargetAddr := Domain([], 53)

  const SMALLEST: nat := 14

  function Rep(b: uint8, n: nat): (s: bytes) {
    seq(n, _ => b)
  }

  /** Equal bytes, one more than two datagrams hold under the limit `d`. */
  function Triple(d: nat, b: uint8): (op: SendOp)
    requires d >= SMALLEST
  {
    SendOp(d, DEST, Rep(b, 2 * d - 24), 3)
  }

  function Thirds(d: nat, b: uint8): (chunks: seq<bytes>)
    requires d >= SMALLEST
  {
    [Rep(b, d - 14), Rep(b, d - 11), [b]]
  }

  lemma TripleTakeoff(d: nat, b: uint8)
    requires SMALLEST <= d <= 0xFFFF
    ensures Runnable(Triple(d, b)) && Faithful(Triple(d, b))
    ensures Takeoff(Triple(d, b)) == Some(Flight(UdpPacket(None, DEST, Rep(b, 2 * d - 24)), Thirds(d, b), 3))
  {
    var payload := Rep(b, 2 * d - 24);
    DivCeilUnique(d - 10, d - 11, 2);
    assert FragmentCount(d, DEST, |payload|) == 3;
    ThirdSlices(d, b);
  }

  lemma ThirdSlices(d: nat, b: uint8)
    requires SMALLEST <= d
    ensures Slices(d, DEST, Rep(b, 2 * d - 24), 3) == Thirds(d, b)
  {
    var payload := Rep(b, 2 * d - 24);
    assert Capacity(d, DEST, 1) == d - 14 && Capacity(d, DEST, 2) == 2 * d - 25;
    assert Capacity(d, DEST, 3) >= 2 * d - 24;
    assert Slice(d, DEST, payload, 0) == Rep(b, d - 14);
    assert Slice(d, DEST, payload, 1) == Rep(b, d - 11);
    assert Slice(d, DEST, payload, 2) == [b];
  }

  /** If every packet takes off, the k-th gets the k-th id. */
  lemma {:induction false} NumberAll(id: uint16, fs: seq<Option<Flight>>)
    requires forall n :: 0 <= n < |fs| ==> fs[n].Some?
    ensures |Number(id, fs)| == |fs|
    ensures forall n :: 0 <= n < |fs| ==> Number(id, fs)[n] == LaunchOf(CounterAfter(id, n), fs[n].value)
    decreases |fs|
  {
    if fs != [] {
      NumberAll(NextId(id), fs[1..]);
      forall n | 1 <= n < |fs|
        ensures Number(id, fs)[n] == LaunchOf(CounterAfter(id, n), fs[n].value)
      {
        NextIdShift(id, n - 1);
      }
    }
  }

  /** The first packet is zeros, the others are ones. */
  function Bit(k: nat): (b: uint8) {
    if k == 0 then 0 else 1
  }

  function Triples(d: nat, n: nat): (ops: seq<SendOp>)
    requires d >= SMALLEST
  {
    seq(n, k requires 0 <= k < n => Triple(d, Bit(k)))
  }

  function TripleLaunch(d: nat, k: nat): (l: Launch)
    requires d >= SMALLEST
  {
    Launch(k % 0x1_0000, DEST, Thirds(d, Bit(k)), 3)
  }

  lemma TriplesLaunch(d: nat, n: nat)
    requires SMALLEST <= d <= 0xFFFF
    ensures AllRunnable(Triples(d, n)) && forall k :: 0 <= k < n ==> Faithful(Triples(d, n)[k])
    ensures SendRun(0, Triples(d, n)) == seq(n, k requires 0 <= k < n => TripleLaunch(d, k))
  {
    TripleTakeoff(d, 0);
    TripleTakeoff(d, 1);
    NumberAll(0, Takeoffs(Triples(d, n)));
  }

  /** A run of deliveries is the receiving loop at work. */
  lemma {:induction false} DeliveriesAreHandled(t: Traffic, ss: Sessions, evs: seq<NetEvent>, arrivals: seq<Arrival>)
    requires AllPossible(t, evs) && |arrivals| == |evs|
    requires forall n :: 0 <= n < |evs| ==>
      evs[n].Deliver? && arrivals[n] == Arrival(WireOf(t.a, t.sent[evs[n].i], evs[n].j), evs[n].now, evs[n].shed)
    ensures NetRun(t, ss, evs) == Handle(ss, arrivals)
    decreases |evs|
  {
    if evs != [] {
      DeliveriesAreHandled(t, ss, evs[..|evs| - 1], arrivals[..|evs| - 1]);
    }
  }

  /** Two pieces of the first packet and the third of the packet that gets its id again. */
  const OVERLAP: seq<NetEvent> := seq(3, (n: nat) => Deliver(if n < 2 then 0 else 0x1_0000, n, 0, {}))

  lemma OverlapMixes(t: Traffic, d: nat, ss: Sessions)
    requires t.a in ss && ss[t.a] == NEW_STREAM && AllPossible(t, OVERLAP) && d >= SMALLEST
    requires |t.sent| > 0x1_0000 && t.sent[0] == TripleLaunch(d, 0) && t.sent[0x1_0000] == TripleLaunch(d, 0x1_0000)
    ensures Received(t, ss, OVERLAP) == [PacketOf(Mixture(t.sent[0], t.sent[0x1_0000], 2))]
  {
    var arrivals := Overlapping(t.a, t.sent[0], t.sent[0x1_0000]);
    DeliveriesAreHandled(t, ss, OVERLAP, arrivals);
    ReusedIdMixes(t.a, t.sent[0], t.sent[0x1_0000], 2, ss, [0, 1, 2], arrivals);
  }

  function Overlapping(a: uint16, l0: Launch, l1: Launch): (arrivals: seq<Arrival>)
    requires WellMade(l0) && WellMade(l1) && |l0.chunks| == |l1.chunks| == 3
    ensures |arrivals| == 3
    ensures forall n :: 0 <= n < 3 ==> arrivals[n] == Arrival(WireOf(a, if n < 2 then l0 else l1, n), 0, {})
  {
    seq(3, n requires 0 <= n < 3 => Arrival(WireOf(a, if n < 2 then l0 else l1, n), 0, {}))
  }

  lemma OverlapIsPossible(t: Traffic, d: nat)
    requires Proper(t) && d >= SMALLEST
    requires |t.sent| > 0x1_0000 && t.sent[0] == TripleLaunch(d, 0) && t.sent[0x1_0000] == TripleLaunch(d, 0x1_0000)
    ensures AllPossible(t, OVERLAP) && AtMostOnce(OVERLAP)
  {
  }

  lemma FlattenTwo(x: bytes, y: bytes)
    ensures Flatten([x, y]) == x + y
  {
    FlattenSnoc([x], y);
    FlattenSnoc([], x);
    assert [x] + [y] == [x, y] && [] + [x] == [x] && Flatten([]) + x == x;
  }

  lemma FlattenThirds(d: nat, b: uint8)
    requires d >= SMALLEST
    ensures Flatten(Thirds(d, b)[..2]) == Rep(b, 2 * d - 25) && Flatten(Thirds(d, b)[2..]) == [b]
  {
    FlattenTwo(Rep(b, d - 14), Rep(b, d - 11));
    assert Thirds(d, b)[..2] == [Rep(b, d - 14), Rep(b, d - 11)];
    assert Rep(b, d - 14) + Rep(b, d - 11) == Rep(b, 2 * d - 25);
    FlattenSnoc([], [b]);
    assert Thirds(d, b)[2..] == [] + [[b]] && [] + [b] == [b];
  }

  lemma NobodySentIt(d: nat, k: nat)
    requires d >= SMALLEST
    ensures PacketOf(Mixture(TripleLaunch(d, 0), TripleLaunch(d, 0x1_0000), 2)) != PacketOf(TripleLaunch(d, k))
  {
    var l0, l1 := TripleLaunch(d, 0), TripleLaunch(d, 0x1_0000);
    FlattenThirds(d, 0);
    FlattenThirds(d, 1);
    assert Rep(0, 2 * d - 25)[0] != Rep(1, 2 * d - 25)[0];
    MixtureIsNew(l0, l1, 2);
    assert PacketOf(TripleLaunch(d, k)) == PacketOf(if k == 0 then l0 else l1);
  }

  lemma MixtureNotAccepted(d: nat, n: nat)
    requires SMALLEST <= d <= 0xFFFF && AllRunnable(Triples(d, n))
    ensures PacketOf(Mixture(TripleLaunch(d, 0), TripleLaunch(d, 0x1_0000), 2)) !in Accepted(Triples(d, n))
  {
    TriplesLaunch(d, n);
    LaunchesAreAccepted(0, Triples(d, n));
    forall k | 0 <= k < n
      ensures Accepted(Triples(d, n))[k] != PacketOf(Mixture(TripleLaunch(d, 0), TripleLaunch(d, 0x1_0000), 2))
    {
      NobodySentIt(d, k);
    }
  }

  lemma Unsafe(d: nat, n: nat, ops: seq<SendOp>, ss: Sessions)
    requires n > 0x1_0000 && d >= SMALLEST && Run(0, 0, ops, ss, OVERLAP) && AllAt(ops, d) && |SendRun(0, ops)| == n
    requires SendRun(0, ops)[0] == TripleLaunch(d, 0) && SendRun(0, ops)[0x1_0000] == TripleLaunch(d, 0x1_0000)
    requires PacketOf(Mixture(TripleLaunch(d, 0), TripleLaunch(d, 0x1_0000), 2)) !in Accepted(ops)
    ensures !SafeAt(d, n)
  {
    var t := Traffic(0, SendRun(0, ops));
    OverlapMixes(t, d, ss);
    assert Received(t, ss, OVERLAP)[0] in multiset(Received(t, ss, OVERLAP));
    assert !OnlySent(0, 0, ops, ss, OVERLAP);
  }

  lemma OneTooMany(d: nat, n: nat)
    requires n > 0x1_0000 && SMALLEST <= d <= 0xFFFF
    ensures !SafeAt(d, n)
  {
    var ops := Triples(d, n);
    TriplesLaunch(d, n);
    LaunchesWellMade(0, ops);
    OverlapIsPossible(Traffic(0, SendRun(0, ops)), d);
    MixtureNotAccepted(d, n);
    Unsafe(d, n, ops, map[0 := NEW_STREAM]);
  }

  // ---------------------------------------------------------------- limits that never cut

  /** Below 14 bytes no header fits, the unchecked subtraction wraps round, and every packet goes out
      whole. */
  lemma NeverCut(id: uint16, ops: seq<SendOp>, d: nat)
    requires AllRunnable(ops) && AllAt(ops, d) && d < SMALLEST
    ensures forall n :: 0 <= n < |SendRun(id, ops)| ==> |SendRun(id, ops)[n].chunks| == 1
  {
    var fs := Takeoffs(ops);
    forall n, i: uint16 | 0 <= n < |fs| && fs[n].Some?
      ensures |LaunchOf(i, fs[n].value).chunks| == 1
    {
      assert FitsSingle(ops[n].d, ops[n].target, ops[n].payload);
    }
    NumberKeeps(id, fs, (l: Launch) => |l.chunks| == 1);
  }

  lemma {:induction false} UnarrivedIsUndropped(t: Traffic, evs: seq<NetEvent>, i: nat)
    requires i < |t.sent| && Arrived(evs, i) == {}
    ensures Undropped(t, evs, i)
    decreases |evs|
  {
    if evs != [] {
      UnarrivedIsUndropped(t, evs[..|evs| - 1], i);
    }
  }

  lemma {:induction false} WholeIsFinished(t: Traffic, evs: seq<NetEvent>, i: nat)
    requires AllPossible(t, evs) && AtMostOnce(evs) && i < |t.sent| && |t.sent[i].chunks| == 1
    ensures Finished(t, evs, i) && Arrived(evs, i) <= All(t.sent[i])
    ensures Arrived(evs, i) == {} ==> Dormant(t, evs, i)
    decreases |evs|
  {
    if evs != [] {
      var init, e := evs[..|evs| - 1], evs[|evs| - 1];
      WholeIsFinished(t, init, i);
      assert All(t.sent[i]) == {0};
      if e.Deliver? && e.i == i {
        NotYetArrived(t, evs);
        assert Arrived(init, i) == {};
        UnarrivedIsUndropped(t, init, i);
      }
    }
  }

  lemma {:induction false} WholeIsSeparate(t: Traffic, evs: seq<NetEvent>)
    requires AllPossible(t, evs) && AtMostOnce(evs) && forall n :: 0 <= n < |t.sent| ==> |t.sent[n].chunks| == 1
    ensures Separate(t, evs)
    decreases |evs|
  {
    if evs != [] {
      var init := evs[..|evs| - 1];
      WholeIsSeparate(t, init);
      forall i | 0 <= i < |t.sent|
        ensures Finished(t, init, i)
      {
        WholeIsFinished(t, init, i);
      }
    }
  }

  // ---------------------------------------------------------------- the bound

  /** With the datagram limit at `d`, `n` packets are safe, whatever they are and however they arrive,
      exactly if there are at most 65536 of them, or the limit is so small that none is ever cut. */
  lemma SafeAtIff(d: nat, n: nat)
    requires d <= 0xFFFF
    ensures SafeAt(d, n) <==> n <= 0x1_0000 || d < SMALLEST
  {
    if n > 0x1_0000 && d >= SMALLEST {
      OneTooMany(d, n);
    } else {
      forall a: uint16, id: uint16, ops, ss, evs | Run(a, id, ops, ss, evs) && AllAt(ops, d) && |SendRun(id, ops)| == n
        ensures OnlySent(a, id, ops, ss, evs)
      {
        if n > 0x1_0000 {
          NeverCut(id, ops, d);
          WholeIsSeparate(Traffic(a, SendRun(id, ops)), evs);
        }
        EndToEndDelivery(a, id, ops, ss, evs);
      }
    }
  }

  /** Whatever the limits, 65536 packets are safe and one more is not. */
  lemma SafeForIff(n: nat)
    ensures SafeFor(n) <==> n <= 0x1_0000
  {
    if n > 0x1_0000 {
      SafeAtIff(1200, n);
    } else {
      forall a: uint16, id: uint16, ops, ss, evs | Run(a, id, ops, ss, evs) && |SendRun(id, ops)| == n
        ensures OnlySent(a, id, ops, ss, evs)
      {
        EndToEndDelivery(a, id, ops, ss, evs);
      }
    }
  }
}
