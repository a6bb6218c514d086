/** What the receiver's refinement of the ideal machine is worth: nothing is delivered that was not
    sent, nothing twice, and everything whose datagrams arrive. */
module Delivery {
  import opened Bytes
  import opened Target
  import opened Sender
  import opened EndToEnd

  // ---------------------------------------------------------------- what arrived

  /** The pieces of launch `i` that have arrived. */
  ghost function Arrived(evs: seq<NetEvent>, i: nat): (s: set<uint8>) {
    if evs == [] then {}
    else
      var e := evs[|evs| - 1];
      var before := Arrived(evs[..|evs| - 1], i);
      if e.Deliver? && e.i == i && e.j < 0x100 then
        var piece: uint8 := e.j;
        before + {piece}
      else before
  }

  lemma {:induction false} ArrivedByEvent(evs: seq<NetEvent>, i: nat, j: uint8)
    requires j in Arrived(evs, i)
    ensures exists n :: 0 <= n < |evs| && evs[n].Deliver? && evs[n].i == i && evs[n].j == j
    decreases |evs|
  {
    var init, e := evs[..|evs| - 1], evs[|evs| - 1];
    if !(e.Deliver? && e.i == i && e.j == j) {
      ArrivedByEvent(init, i, j);
      var n :| 0 <= n < |init| && init[n].Deliver? && init[n].i == i && init[n].j == j;
      assert evs[n] == init[n];
    }
  }

  /** No datagram arrives twice. */
  ghost predicate AtMostOnce(evs: seq<NetEvent>) {
    forall m, n :: 0 <= m < n < |evs| && evs[m].Deliver? && evs[n].Deliver? ==>
      evs[m].i != evs[n].i || evs[m].j != evs[n].j
  }

  /** The launch and piece of every datagram that arrives, in order. */
  ghost function Deliveries(evs: seq<NetEvent>): (ds: seq<(nat, nat)>) {
    if evs == [] then []
    else
      var init, e := Deliveries(evs[..|evs| - 1]), evs[|evs| - 1];
      if e.Deliver? then init + [(e.i, e.j)] else init
  }

  ghost predicate Distinct(ds: seq<(nat, nat)>) {
    forall m, n :: 0 <= m < n < |ds| ==> ds[m] != ds[n]
  }

  lemma {:induction false} DeliveriesAre(evs: seq<NetEvent>, d: (nat, nat))
    ensures d in Deliveries(evs) <==> exists n :: 0 <= n < |evs| && evs[n].Deliver? && (evs[n].i, evs[n].j) == d
    decreases |evs|
  {
    if evs != [] {
      var init := evs[..|evs| - 1];
      DeliveriesAre(init, d);
      assert forall n :: 0 <= n < |init| ==> init[n] == evs[n];
    }
  }

  /** That no datagram arrives twice is a matter of the deliveries alone. */
  lemma {:induction false} OnceIsDistinct(evs: seq<NetEvent>)
    ensures AtMostOnce(evs) <==> Distinct(Deliveries(evs))
    decreases |evs|
  {
    if evs != [] {
      var init, e := evs[..|evs| - 1], evs[|evs| - 1];
      OnceIsDistinct(init);
      OnceSnoc(init, e);
      assert evs == init + [e];
      if e.Deliver? {
        DeliveriesAre(init, (e.i, e.j));
        DistinctSnoc(Deliveries(init), (e.i, e.j));
      }
    }
  }

  lemma OnceSnoc(evs: seq<NetEvent>, e: NetEvent)
    ensures AtMostOnce(evs + [e]) <==>
      && AtMostOnce(evs)
      && (e.Deliver? ==> !exists n :: 0 <= n < |evs| && evs[n].Deliver? && (evs[n].i, evs[n].j) == (e.i, e.j))
  {
    var all := evs + [e];
    assert all[|evs|] == e && forall n :: 0 <= n < |evs| ==> all[n] == evs[n];
  }

  lemma DistinctSnoc(ds: seq<(nat, nat)>, d: (nat, nat))
    ensures Distinct(ds + [d]) <==> Distinct(ds) && d !in ds
  {
    var all := ds + [d];
    assert all[|ds|] == d && forall n :: 0 <= n < |ds| ==> all[n] == ds[n];
  }

  ghost function PiecesIn(ds: seq<(nat, nat)>, i: nat): (s: set<uint8>) {
    if ds == [] then {}
    else
      var d := ds[|ds| - 1];
      var before := PiecesIn(ds[..|ds| - 1], i);
      if d.0 == i && d.1 < 0x100 then
        var piece: uint8 := d.1;
        before + {piece}
      else before
  }

  /** So is which pieces of a launch have arrived. */
  lemma {:induction false} ArrivedIsDelivered(evs: seq<NetEvent>, i: nat)
    ensures Arrived(evs, i) == PiecesIn(Deliveries(evs), i)
    decreases |evs|
  {
    if evs != [] {
      ArrivedIsDelivered(evs[..|evs| - 1], i);
      var init, e := Deliveries(evs[..|evs| - 1]), evs[|evs| - 1];
      if e.Deliver? {
        assert (init + [(e.i, e.j)])[..|init|] == init;
      }
    }
  }

  /** Once a piece of launch `i` has arrived, the caches drop nothing under its key. What they drop
      before, such as a stale entry of an older launch with its id, does not matter. */
  ghost predicate Undropped(t: Traffic, evs: seq<NetEvent>, i: nat)
    requires i < |t.sent|
  {
    evs == [] ||
    (var init, e := evs[..|evs| - 1], evs[|evs| - 1];
     && Undropped(t, init, i)
     && (e.Drop? && e.assoc == t.a && KeyIn(t, i) in e.keys ==> Arrived(init, i) == {}))
  }

  // ---------------------------------------------------------------- the ideal machine

  /** What is held is some but not all of what arrived, of launches not done; what is done arrived
      in full, and is done once. */
  ghost predicate Sound(t: Traffic, evs: seq<NetEvent>, x: Ideal)
    requires Proper(t)
  {
    && (forall i :: i in x.held ==>
          i < |t.sent| && x.held[i] != {} && x.held[i] < All(t.sent[i]) && x.held[i] <= Arrived(evs, i) && i !in x.done)
    && (forall i :: i in x.done ==> i < |t.sent| && All(t.sent[i]) <= Arrived(evs, i))
    && Positions(x.done, |t.sent|)
  }

  lemma SoundDeliver(t: Traffic, evs: seq<NetEvent>, e: NetEvent, x: Ideal)
    requires AllPossible(t, evs + [e]) && AllPossible(t, evs) && Possible(t, e) && e.Deliver?
    requires Sound(t, evs, x) && Legal(t, x, e)
    ensures Sound(t, evs + [e], IdealStep(t, x, e))
  {
    var evs' := evs + [e];
    assert evs'[..|evs|] == evs;
    var j: uint8 := e.j;
    var h := HeldOf(x, e.i) + {j};
    assert h <= All(t.sent[e.i]);
    assert Arrived(evs', e.i) == Arrived(evs, e.i) + {j};
    assert h <= Arrived(evs', e.i);
    assert forall i: nat :: Arrived(evs, i) <= Arrived(evs', i);
  }

  lemma SoundOther(t: Traffic, evs: seq<NetEvent>, e: NetEvent, x: Ideal)
    requires AllPossible(t, evs + [e]) && AllPossible(t, evs) && Possible(t, e) && !e.Deliver?
    requires Sound(t, evs, x)
    ensures Sound(t, evs + [e], IdealStep(t, x, e))
  {
    assert (evs + [e])[..|evs|] == evs;
    assert forall i: nat :: Arrived(evs + [e], i) == Arrived(evs, i);
  }

  lemma {:induction false} IdealSound(t: Traffic, evs: seq<NetEvent>)
    requires AllPossible(t, evs) && LegalRun(t, evs)
    ensures Sound(t, evs, IdealRun(t, evs))
    decreases |evs|
  {
    if evs != [] {
      var init, e := evs[..|evs| - 1], evs[|evs| - 1];
      IdealSound(t, init);
      assert evs == init + [e];
      if e.Deliver? {
        SoundDeliver(t, init, e, IdealRun(t, init));
      } else {
        SoundOther(t, init, e, IdealRun(t, init));
      }
    }
  }

  /** If the caches spare launch `i`, it is done or all that arrived of it is held. */
  lemma {:induction false} NothingForgotten(t: Traffic, evs: seq<NetEvent>, i: nat)
    requires AllPossible(t, evs) && LegalRun(t, evs) && i < |t.sent| && Undropped(t, evs, i)
    ensures i in IdealRun(t, evs).done || HeldOf(IdealRun(t, evs), i) == Arrived(evs, i)
    decreases |evs|
  {
    if evs != [] {
      NothingForgotten(t, evs[..|evs| - 1], i);
    }
  }

  /** A launch all of whose datagrams arrive, and whose entry is not dropped once one of them has, is done. */
  lemma ArrivedIsDone(t: Traffic, evs: seq<NetEvent>, i: nat)
    requires AllPossible(t, evs) && LegalRun(t, evs) && i < |t.sent| && Undropped(t, evs, i)
    requires Arrived(evs, i) == All(t.sent[i])
    ensures i in IdealRun(t, evs).done
  {
    NothingForgotten(t, evs, i);
    IdealSound(t, evs);
    var zero: uint8 := 0;
    assert zero in All(t.sent[i]);
  }

  // ---------------------------------------------------------------- reused ids

  /** Since a piece of launch `i` last arrived, the caches have dropped what was waiting of it. */
  ghost predicate Dormant(t: Traffic, evs: seq<NetEvent>, i: nat)
    requires i < |t.sent|
  {
    if evs == [] then true
    else
      var e := evs[|evs| - 1];
      if e.Deliver? && e.i == i then false
      else (e.Drop? && e.assoc == t.a && KeyIn(t, i) in e.keys) || Dormant(t, evs[..|evs| - 1], i)
  }

  lemma {:induction false} HeldIsNotDormant(t: Traffic, evs: seq<NetEvent>, i: nat)
    requires AllPossible(t, evs) && i < |t.sent| && i in IdealRun(t, evs).held
    ensures !Dormant(t, evs, i)
    decreases |evs|
  {
    if evs != [] {
      var e := evs[|evs| - 1];
      if !(e.Deliver? && e.i == i) {
        HeldIsNotDormant(t, evs[..|evs| - 1], i);
      }
    }
  }

  /** Nothing of launch `i` is waiting: it is dormant, or it arrived in full and was spared. */
  ghost predicate Finished(t: Traffic, evs: seq<NetEvent>, i: nat)
    requires i < |t.sent| && Sized(t.sent[i])
  {
    Dormant(t, evs, i) || (Arrived(evs, i) == All(t.sent[i]) && Undropped(t, evs, i))
  }

  /** Whenever a piece of a launch arrives, every other launch with its packet id is finished. */
  ghost predicate Separate(t: Traffic, evs: seq<NetEvent>)
    requires forall n :: 0 <= n < |t.sent| ==> Sized(t.sent[n])
  {
    evs == [] ||
    (var init, e := evs[..|evs| - 1], evs[|evs| - 1];
     && Separate(t, init)
     && (e.Deliver? && e.i < |t.sent| ==>
           forall i :: 0 <= i < |t.sent| && i != e.i && t.sent[i].id == t.sent[e.i].id ==> Finished(t, init, i)))
  }

  lemma {:induction false} DistinctIsSeparate(t: Traffic, evs: seq<NetEvent>)
    requires AllPossible(t, evs)
    requires forall i, k :: 0 <= i < k < |t.sent| ==> t.sent[i].id != t.sent[k].id
    ensures Separate(t, evs)
    decreases |evs|
  {
    if evs != [] {
      DistinctIsSeparate(t, evs[..|evs| - 1]);
    }
  }

  lemma FinishedIsNotHeld(t: Traffic, evs: seq<NetEvent>, i: nat)
    requires AllPossible(t, evs) && LegalRun(t, evs) && i < |t.sent| && Finished(t, evs, i)
    ensures i !in IdealRun(t, evs).held
  {
    IdealSound(t, evs);
    if Dormant(t, evs, i) {
      if i in IdealRun(t, evs).held {
        HeldIsNotDormant(t, evs, i);
      }
    } else {
      ArrivedIsDone(t, evs, i);
    }
  }

  /** When no datagram arrives twice and launches that share an id keep apart, the run is legal. */
  lemma {:induction false} OnceIsLegal(t: Traffic, evs: seq<NetEvent>)
    requires AllPossible(t, evs) && AtMostOnce(evs) && Separate(t, evs)
    ensures LegalRun(t, evs)
    decreases |evs|
  {
    if evs != [] {
      var init, e := evs[..|evs| - 1], evs[|evs| - 1];
      OnceIsLegal(t, init);
      IdealSound(t, init);
      if e.Deliver? {
        NotYetArrived(t, evs);
        forall k | k in IdealRun(t, init).held && k < |t.sent| && k != e.i
          ensures t.sent[k].id != t.sent[e.i].id
        {
          if t.sent[k].id == t.sent[e.i].id {
            FinishedIsNotHeld(t, init, k);
          }
        }
      }
    }
  }

  lemma NotYetArrived(t: Traffic, evs: seq<NetEvent>)
    requires AllPossible(t, evs) && AtMostOnce(evs) && evs != [] && evs[|evs| - 1].Deliver?
    ensures AllPossible(t, evs[..|evs| - 1])
    ensures var e := evs[|evs| - 1];
            e.j !in Arrived(evs[..|evs| - 1], e.i) && e.j in All(t.sent[e.i])
  {
    var init, e := evs[..|evs| - 1], evs[|evs| - 1];
    if e.j in Arrived(init, e.i) {
      ArrivedByEvent(init, e.i, e.j);
    }
  }

  // ---------------------------------------------------------------- counting packets

  /** Distinct positions in a list of the given length. */
  ghost predicate Positions(ix: seq<nat>, len: nat) {
    && (forall m :: 0 <= m < |ix| ==> ix[m] < len)
    && (forall m, n :: 0 <= m < n < |ix| ==> ix[m] != ix[n])
  }

  ghost function Pick(all: seq<UdpPacket>, ix: seq<nat>): (s: seq<UdpPacket>)
    requires Positions(ix, |all|)
  {
    seq(|ix|, n requires 0 <= n < |ix| => all[ix[n]])
  }

  ghost function Without(ix: seq<nat>, p: nat): (r: seq<nat>)
    requires p < |ix|
  {
    ix[..p] + ix[p + 1..]
  }

  lemma OneOut(a: seq<UdpPacket>, x: UdpPacket, b: seq<UdpPacket>)
    ensures multiset(a + [x] + b) == multiset(a + b) + multiset{x}
  {
  }

  lemma PickWithout(all: seq<UdpPacket>, ix: seq<nat>, p: nat)
    requires Positions(ix, |all|) && p < |ix| && ix[p] == |all| - 1
    ensures Positions(Without(ix, p), |all| - 1)
    ensures multiset(Pick(all, ix)) == multiset(Pick(all[..|all| - 1], Without(ix, p))) + multiset{all[ix[p]]}
  {
    var s, r := Pick(all, ix), Pick(all[..|all| - 1], Without(ix, p));
    assert s == s[..p] + [s[p]] + s[p + 1..];
    assert r == s[..p] + s[p + 1..];
    OneOut(s[..p], s[p], s[p + 1..]);
  }

  lemma OthersRemain(ix: seq<nat>, p: nat, n: nat)
    requires p < |ix| && n in ix && n != ix[p]
    ensures n in Without(ix, p)
  {
  }

  /** Picking distinct positions takes no packet more often than it is there; picking all of them
      takes every packet. */
  lemma {:induction false} PickCounts(all: seq<UdpPacket>, ix: seq<nat>)
    requires Positions(ix, |all|)
    ensures multiset(Pick(all, ix)) <= multiset(all)
    ensures (forall n :: 0 <= n < |all| ==> n in ix) ==> multiset(Pick(all, ix)) == multiset(all)
    decreases |all|
  {
    if all != [] {
      var last := |all| - 1;
      assert all == all[..last] + [all[last]];
      if p :| 0 <= p < |ix| && ix[p] == last {
        PickWithout(all, ix, p);
        PickCounts(all[..last], Without(ix, p));
        forall n | 0 <= n < last && n in ix
          ensures n in Without(ix, p)
        {
          OthersRemain(ix, p, n);
        }
      } else {
        PickCounts(all[..last], ix);
        assert Pick(all, ix) == Pick(all[..last], ix);
        assert last !in ix;
      }
    }
  }

  // ---------------------------------------------------------------- the theorems

  ghost function PacketsOf(ls: seq<Launch>): (ps: seq<UdpPacket>) {
    seq(|ls|, n requires 0 <= n < |ls| => PacketOf(ls[n]))
  }

  ghost function Received(t: Traffic, ss: Sessions, evs: seq<NetEvent>): (r: seq<UdpPacket>)
    requires AllPossible(t, evs)
  {
    var r := NetRun(t, ss, evs);
    if r.Some? && t.a in r.value then r.value[t.a].received else []
  }

  /** Over every legal run: the task does not panic, the packets delivered are among those sent
      and none is delivered more often than it was sent; a launch whose datagrams all arrived and
      whose entry was not dropped is delivered. */
  lemma LegalDelivery(t: Traffic, ss: Sessions, evs: seq<NetEvent>)
    requires AllPossible(t, evs) && LegalRun(t, evs) && t.a in ss && ss[t.a] == NEW_STREAM
    ensures NetRun(t, ss, evs).Some?
    ensures multiset(Received(t, ss, evs)) <= multiset(PacketsOf(t.sent))
    ensures (forall i :: 0 <= i < |t.sent| ==> Arrived(evs, i) == All(t.sent[i]) && Undropped(t, evs, i))
            ==> multiset(Received(t, ss, evs)) == multiset(PacketsOf(t.sent))
    ensures forall i :: (0 <= i < |t.sent| && Arrived(evs, i) == All(t.sent[i]) && Undropped(t, evs, i)
                         ==> PacketOf(t.sent[i]) in Received(t, ss, evs))
  {
    Refinement(t, ss, evs);
    IdealSound(t, evs);
    var x := IdealRun(t, evs);
    assert Received(t, ss, evs) == Pick(PacketsOf(t.sent), x.done);
    PickCounts(PacketsOf(t.sent), x.done);
    forall i | 0 <= i < |t.sent| && Arrived(evs, i) == All(t.sent[i]) && Undropped(t, evs, i)
      ensures i in x.done && PacketOf(t.sent[i]) in Received(t, ss, evs)
    {
      ArrivedIsDone(t, evs, i);
      PickedIsThere(PacketsOf(t.sent), x.done, i);
    }
  }

  lemma PickedIsThere(all: seq<UdpPacket>, ix: seq<nat>, i: nat)
    requires Positions(ix, |all|) && i in ix
    ensures all[i] in Pick(all, ix)
  {
    var n :| 0 <= n < |ix| && ix[n] == i;
    assert Pick(all, ix)[n] == all[i];
  }

  /** End to end. Any sequence of sends on one association, refused and failed ones included; any
      order of arrival, with losses, of the datagrams that went out, each at most once; any other
      traffic and any dropping of cache entries in between; and either at most 65536 packet ids, or
      any number of them if packets that share an id keep apart. The packets received are a
      sub-multiset of those accepted for sending, and all of them if every datagram arrives and no
      entry is dropped. */
  lemma EndToEndDelivery(a: uint16, id: uint16, ops: seq<SendOp>, ss: Sessions, evs: seq<NetEvent>)
    requires AllRunnable(ops) && forall n :: 0 <= n < |ops| ==> Faithful(ops[n])
    requires forall n :: 0 <= n < |evs| ==> Possible(Traffic(a, SendRun(id, ops)), evs[n])
    requires AtMostOnce(evs)
    requires |SendRun(id, ops)| <= 0x1_0000 || Separate(Traffic(a, SendRun(id, ops)), evs)
    requires a in ss && ss[a] == NEW_STREAM
    ensures var t := Traffic(a, SendRun(id, ops));
            && AllPossible(t, evs)
            && NetRun(t, ss, evs).Some?
            && multiset(Received(t, ss, evs)) <= multiset(Accepted(ops))
            && ((forall i :: 0 <= i < |t.sent| ==> Arrived(evs, i) == All(t.sent[i]) && Undropped(t, evs, i))
                ==> multiset(Received(t, ss, evs)) == multiset(Accepted(ops)))
  {
    var t := Traffic(a, SendRun(id, ops));
    LaunchesWellMade(id, ops);
    if |t.sent| <= 0x1_0000 {
      forall i, k | 0 <= i < k < |t.sent|
        ensures t.sent[i].id != t.sent[k].id
      {
        IdsFresh(id, ops, i, k);
      }
      DistinctIsSeparate(t, evs);
    }
    OnceIsLegal(t, evs);
    LegalDelivery(t, ss, evs);
    LaunchesAreAccepted(id, ops);
  }

  /** What is handed over comes out. If every packet's size goes through, the connection takes the first
      datagram of those that are only one, every datagram arrives and no entry is dropped, then the
      packets received are those that the application handed over, each as often as it did. */
  lemma HandedOverIsReceived(a: uint16, id: uint16, ops: seq<SendOp>, ss: Sessions, evs: seq<NetEvent>)
    requires AllRunnable(ops) && forall n :: 0 <= n < |ops| ==> Faithful(ops[n]) && Passes(ops[n])
    requires forall n :: 0 <= n < |evs| ==> Possible(Traffic(a, SendRun(id, ops)), evs[n])
    requires AtMostOnce(evs)
    requires |SendRun(id, ops)| <= 0x1_0000 || Separate(Traffic(a, SendRun(id, ops)), evs)
    requires forall i :: 0 <= i < |SendRun(id, ops)| ==>
      && Arrived(evs, i) == All(SendRun(id, ops)[i])
      && Undropped(Traffic(a, SendRun(id, ops)), evs, i)
    requires a in ss && ss[a] == NEW_STREAM
    ensures AllPossible(Traffic(a, SendRun(id, ops)), evs)
    ensures multiset(Received(Traffic(a, SendRun(id, ops)), ss, evs)) == multiset(HandedOver(ops))
  {
    EndToEndDelivery(a, id, ops, ss, evs);
    AcceptedIsHandedOver(ops);
  }

  lemma LaunchesAreAccepted(id: uint16, ops: seq<SendOp>)
    requires AllRunnable(ops)
    ensures PacketsOf(SendRun(id, ops)) == Accepted(ops)
  {
    LaunchesCarryPackets(id, ops, 0);
    forall n | 0 <= n < |SendRun(id, ops)|
      ensures PacketsOf(SendRun(id, ops))[n] == Accepted(ops)[n]
    {
      LaunchesCarryPackets(id, ops, n);
    }
  }
}
