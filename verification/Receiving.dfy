/** The receiving loop with the collector at work, on values: what it does with each datagram, and
    which run of the network that amounts to. */
module Receiving {
  import opened Bytes
  import opened Target
  import opened Codec
  import opened Reassembly
  import opened ReassemblyBuffer
  import opened Sender
  import opened EndToEnd
  import opened Delivery

  /** A datagram as it arrives, with what the caches do while it is handled. */
  datatype Arriving = Arriving(datagram: bytes, now: nat, shed: set<uint8>, gc: Collection)

  // ---------------------------------------------------------------- one datagram

  /** One parsed fragment for an open association. */
  function OnPiece(st: Stream, c: Command, target: TargetAddr, payload: bytes, now: nat, shed: set<uint8>,
                   gc: Collection): (r: Stream)
    requires c.Packet?
  {
    if c.fragTotal > 1 then
      var info := FragmentInfo(c.assocId, c.pktId, c.fragTotal, c.fragId, None, target);
      var added := AddCollected(st.buf, info, payload, now, shed, gc);
      Stream(added.buf, Deliverable(st, added.out))
    else
      Stream(st.buf, st.received + [UdpPacket(None, target, payload)])
  }

  /** The datagram branch of `start_poll`; `None` when the polling task panics. */
  function OnArrival(ss: Sessions, g: Arriving): (r: Option<Sessions>) {
    match Parse(g.datagram)
    case Overrun(_) => None
    case Fragment(c, a, payload) =>
      Some(if c.assocId in ss
           then ss[c.assocId := OnPiece(ss[c.assocId], c, TargetOf(a), payload, g.now, g.shed, g.gc)]
           else ss)
    case NotPacket(_) => Some(ss)
    case Malformed => Some(ss)
  }

  function OnArrivals(ss: Sessions, gs: seq<Arriving>): (r: Option<Sessions>) {
    if gs == [] then Some(ss)
    else
      var init := OnArrivals(ss, gs[..|gs| - 1]);
      if init.None? then None else OnArrival(init.value, gs[|gs| - 1])
  }

  // ---------------------------------------------------------------- as events of the network

  function Evicted(st: Stream, keys: set<Key>): (r: Stream) {
    st.(buf := st.buf - keys)
  }

  function Evicting(ss: Sessions, a: uint16, keys: set<Key>): (r: Sessions) {
    if a in ss then ss[a := Evicted(ss[a], keys)] else ss
  }

  const UNTOUCHED: Account := Account(false, {}, {})

  /** The association a datagram is for, and what is evicted from its buffer before and after. */
  function Evictions(g: Arriving): (r: (uint16, Account)) {
    match Parse(g.datagram)
    case Fragment(c, _, _) =>
      (c.assocId, if c.fragTotal > 1 then AccountOf((c.assocId, c.pktId), c.fragTotal, g.gc) else UNTOUCHED)
    case _ => (0, UNTOUCHED)
  }

  lemma PieceBetween(st: Stream, c: Command, target: TargetAddr, payload: bytes, now: nat, shed: set<uint8>,
                     gc: Collection)
    requires c.Packet?
    ensures var x := if c.fragTotal > 1 then AccountOf((c.assocId, c.pktId), c.fragTotal, gc) else UNTOUCHED;
            OnPiece(st, c, target, payload, now, shed, gc)
            == Evicted(OnFragment(Evicted(st, x.before), c, target, payload, now, shed), x.after)
  {
    if c.fragTotal <= 1 {
      NoDrop(st.buf);
    }
  }

  /** Handling a datagram is a step of the receiving loop between two evictions. */
  lemma ArrivalBetween(ss: Sessions, g: Arriving)
    ensures var (a, x) := Evictions(g);
            var r := OnDatagram(Evicting(ss, a, x.before), g.datagram, g.now, g.shed);
            OnArrival(ss, g) == if r.None? then None else Some(Evicting(r.value, a, x.after))
  {
    match Parse(g.datagram)
    case Fragment(c, addr, payload) =>
      if c.assocId in ss {
        FragmentBetween(ss, g, c, addr, payload);
      }
    case Overrun(_) =>
    case NotPacket(_) => NothingEvicted(ss);
    case Malformed => NothingEvicted(ss);
  }

  lemma NothingEvicted(ss: Sessions)
    ensures Evicting(ss, 0, {}) == ss
  {
    if 0 in ss {
      NoDrop(ss[0].buf);
    }
  }

  lemma FragmentBetween(ss: Sessions, g: Arriving, c: Command, addr: Address, payload: bytes)
    requires Parse(g.datagram) == Fragment(c, addr, payload) && c.assocId in ss
    ensures var x := Evictions(g).1;
            OnDatagram(Evicting(ss, c.assocId, x.before), g.datagram, g.now, g.shed).Some?
    ensures var x := Evictions(g).1;
            var r := OnDatagram(Evicting(ss, c.assocId, x.before), g.datagram, g.now, g.shed);
            OnArrival(ss, g) == Some(Evicting(r.value, c.assocId, x.after))
  {
    var a, x := c.assocId, Evictions(g).1;
    var st := Evicted(ss[a], x.before);
    var st' := OnFragment(st, c, TargetOf(addr), payload, g.now, g.shed);
    PieceBetween(ss[a], c, TargetOf(addr), payload, g.now, g.shed, g.gc);
    Replace(ss, a, st, st');
    Replace(ss, a, st', Evicted(st', x.after));
    assert OnDatagram(ss[a := st], g.datagram, g.now, g.shed) == Some(ss[a := st']);
  }

  /** The event that an arriving datagram is: a piece of a launch, or anything else. */
  ghost predicate StandsFor(t: Traffic, e: NetEvent, g: Arriving)
    requires Proper(t) && Possible(t, e)
  {
    match e
    case Deliver(i, j, now, shed) => g.datagram == WireOf(t.a, t.sent[i], j) && g.now == now && g.shed == shed
    case Other(d, now, shed) => g.datagram == d && g.now == now && g.shed == shed
    case _ => false
  }

  ghost predicate AllStandFor(t: Traffic, marks: seq<NetEvent>, arrivals: seq<Arriving>) {
    && AllPossible(t, marks) && |marks| == |arrivals|
    && forall n :: 0 <= n < |marks| ==> StandsFor(t, marks[n], arrivals[n])
  }

  /** What is evicted around a piece of a launch, and around anything else. */
  lemma EvictionsFor(t: Traffic, e: NetEvent, g: Arriving)
    requires Proper(t) && Possible(t, e) && StandsFor(t, e, g)
    ensures !Parse(g.datagram).Overrun?
    ensures e.Deliver? ==> Evictions(g).0 == t.a && Evictions(g).1.before + Evictions(g).1.after <= g.gc.Keys()
    ensures !e.Deliver? ==> Evictions(g).0 != t.a || Evictions(g).1 == UNTOUCHED
  {
    if e.Deliver? {
      var l := t.sent[e.i];
      DatagramRoundTrip(t.a, l.id, |l.chunks|, e.j, if e.j == 0 then Addr(l.target) else NoAddress, l.chunks[e.j]);
    }
  }

  /** A run and then what handling one more datagram amounts to. */
  ghost function Along(evs: seq<NetEvent>, e: NetEvent, g: Arriving): (r: seq<NetEvent>) {
    var (a, x) := Evictions(g);
    evs + [Drop(a, x.before)] + [e] + [Drop(a, x.after)]
  }

  /** The run of the network that handling these datagrams amounts to. */
  ghost function RunOf(marks: seq<NetEvent>, arrivals: seq<Arriving>): (evs: seq<NetEvent>)
    requires |marks| == |arrivals|
  {
    if marks == [] then []
    else
      var n := |marks| - 1;
      Along(RunOf(marks[..n], arrivals[..n]), marks[n], arrivals[n])
  }

  lemma OneMoreNetEvent(t: Traffic, ss: Sessions, evs: seq<NetEvent>, e: NetEvent)
    requires AllPossible(t, evs) && Possible(t, e)
    ensures AllPossible(t, evs + [e]) && NetRun(t, ss, evs + [e]) == NetStep(t, NetRun(t, ss, evs), e)
    ensures Deliveries(evs + [e]) == Deliveries(evs) + if e.Deliver? then [(e.i, e.j)] else []
  {
    assert (evs + [e])[..|evs|] == evs;
  }

  lemma DropStep(t: Traffic, ss: Sessions, a: uint16, keys: set<Key>)
    requires Proper(t)
    ensures NetStep(t, Some(ss), Drop(a, keys)) == Some(Evicting(ss, a, keys))
  {
  }

  lemma DatagramStep(t: Traffic, ss: Sessions, e: NetEvent, g: Arriving)
    requires Proper(t) && Possible(t, e) && StandsFor(t, e, g)
    ensures NetStep(t, Some(ss), e) == OnDatagram(ss, g.datagram, g.now, g.shed)
  {
  }

  lemma OneMoreArrival(t: Traffic, ss: Sessions, evs: seq<NetEvent>, ss1: Sessions, e: NetEvent, g: Arriving)
    requires AllPossible(t, evs) && NetRun(t, ss, evs) == Some(ss1) && Possible(t, e) && StandsFor(t, e, g)
    ensures AllPossible(t, Along(evs, e, g)) && NetRun(t, ss, Along(evs, e, g)) == OnArrival(ss1, g)
    ensures OnArrival(ss1, g).Some?
    ensures Deliveries(Along(evs, e, g)) == Deliveries(evs) + if e.Deliver? then [(e.i, e.j)] else []
  {
    EvictionsFor(t, e, g);
    ArrivalBetween(ss1, g);
    var (a, x) := Evictions(g);
    var mid := Evicting(ss1, a, x.before);
    var r := OnDatagram(mid, g.datagram, g.now, g.shed);
    DropStep(t, ss1, a, x.before);
    OneMoreNetEvent(t, ss, evs, Drop(a, x.before));
    DatagramStep(t, mid, e, g);
    OneMoreNetEvent(t, ss, evs + [Drop(a, x.before)], e);
    DropStep(t, r.value, a, x.after);
    OneMoreNetEvent(t, ss, evs + [Drop(a, x.before)] + [e], Drop(a, x.after));
  }

  /** Handling these datagrams is a run of the network in which just they arrive. */
  lemma {:induction false} ArrivalsRun(t: Traffic, ss: Sessions, marks: seq<NetEvent>, arrivals: seq<Arriving>)
    requires AllStandFor(t, marks, arrivals)
    ensures OnArrivals(ss, arrivals).Some?
    ensures AllPossible(t, RunOf(marks, arrivals))
    ensures NetRun(t, ss, RunOf(marks, arrivals)) == OnArrivals(ss, arrivals)
    ensures Deliveries(RunOf(marks, arrivals)) == Deliveries(marks)
    decreases |marks|
  {
    if marks != [] {
      var n := |marks| - 1;
      ArrivalsRun(t, ss, marks[..n], arrivals[..n]);
      var evs, ss1 := RunOf(marks[..n], arrivals[..n]), OnArrivals(ss, arrivals[..n]).value;
      OneMoreArrival(t, ss, evs, ss1, marks[n], arrivals[n]);
    }
  }

  // ---------------------------------------------------------------- what the collector may take

  /** From the time a piece of launch `i` has arrived, the collector takes nothing under its key while
      datagrams of the association are handled. */
  ghost predicate Spared(t: Traffic, marks: seq<NetEvent>, arrivals: seq<Arriving>, i: nat)
    requires i < |t.sent| && |marks| == |arrivals|
  {
    marks == [] ||
    (var n := |marks| - 1;
     && Spared(t, marks[..n], arrivals[..n], i)
     && (marks[n].Deliver? && KeyIn(t, i) in arrivals[n].gc.Keys() ==> Arrived(marks, i) == {}))
  }

  lemma ArrivedSnoc(evs: seq<NetEvent>, e: NetEvent, i: nat)
    ensures Arrived(evs, i) <= Arrived(evs + [e], i)
    ensures !e.Deliver? ==> Arrived(evs + [e], i) == Arrived(evs, i)
  {
    assert (evs + [e])[..|evs|] == evs;
  }

  lemma UndroppedSnoc(t: Traffic, evs: seq<NetEvent>, e: NetEvent, i: nat)
    requires i < |t.sent| && Undropped(t, evs, i)
    requires e.Drop? && e.assoc == t.a && KeyIn(t, i) in e.keys ==> Arrived(evs, i) == {}
    ensures Undropped(t, evs + [e], i)
  {
    assert (evs + [e])[..|evs|] == evs;
  }

  lemma SameArrived(evs: seq<NetEvent>, marks: seq<NetEvent>, i: nat)
    requires Deliveries(evs) == Deliveries(marks)
    ensures Arrived(evs, i) == Arrived(marks, i)
  {
    ArrivedIsDelivered(evs, i);
    ArrivedIsDelivered(marks, i);
  }

  lemma UndroppedAlong(t: Traffic, evs: seq<NetEvent>, e: NetEvent, g: Arriving, i: nat)
    requires AllPossible(t, evs) && Possible(t, e) && StandsFor(t, e, g) && i < |t.sent| && Undropped(t, evs, i)
    requires e.Deliver? && KeyIn(t, i) in g.gc.Keys() ==> Arrived(Along(evs, e, g), i) == {}
    ensures Undropped(t, Along(evs, e, g), i)
  {
    EvictionsFor(t, e, g);
    var (a, x) := Evictions(g);
    var e1, e3 := Drop(a, x.before), Drop(a, x.after);
    ArrivedSnoc(evs, e1, i);
    ArrivedSnoc(evs + [e1], e, i);
    ArrivedSnoc(evs + [e1] + [e], e3, i);
    UndroppedSnoc(t, evs, e1, i);
    UndroppedSnoc(t, evs + [e1], e, i);
    UndroppedSnoc(t, evs + [e1] + [e], e3, i);
  }

  lemma {:induction false} SparedIsUndropped(t: Traffic, marks: seq<NetEvent>, arrivals: seq<Arriving>, i: nat)
    requires AllStandFor(t, marks, arrivals) && i < |t.sent| && Spared(t, marks, arrivals, i)
    ensures Undropped(t, RunOf(marks, arrivals), i)
    decreases |marks|
  {
    if marks != [] {
      var n := |marks| - 1;
      SparedIsUndropped(t, marks[..n], arrivals[..n], i);
      ArrivalsRun(t, map[], marks[..n], arrivals[..n]);
      ArrivalsRun(t, map[], marks, arrivals);
      SameArrived(RunOf(marks, arrivals), marks, i);
      UndroppedAlong(t, RunOf(marks[..n], arrivals[..n]), marks[n], arrivals[n], i);
    }
  }

  /** Whenever a piece of a launch arrives, every other launch with its packet id has not begun to
      arrive, or has arrived in full and was spared. */
  ghost predicate KeptApart(t: Traffic, marks: seq<NetEvent>, arrivals: seq<Arriving>)
    requires Proper(t) && |marks| == |arrivals|
  {
    marks == [] ||
    (var n := |marks| - 1;
     && KeptApart(t, marks[..n], arrivals[..n])
     && (marks[n].Deliver? && marks[n].i < |t.sent| ==>
           forall i :: 0 <= i < |t.sent| && i != marks[n].i && t.sent[i].id == t.sent[marks[n].i].id ==>
             Past(t, marks[..n], arrivals[..n], i)))
  }

  ghost predicate Past(t: Traffic, marks: seq<NetEvent>, arrivals: seq<Arriving>, i: nat)
    requires Proper(t) && |marks| == |arrivals| && i < |t.sent|
  {
    Arrived(marks, i) == {} || (Arrived(marks, i) == All(t.sent[i]) && Spared(t, marks, arrivals, i))
  }

  lemma {:induction false} UnarrivedIsDormant(t: Traffic, evs: seq<NetEvent>, i: nat)
    requires AllPossible(t, evs) && i < |t.sent| && Arrived(evs, i) == {}
    ensures Dormant(t, evs, i)
    decreases |evs|
  {
    if evs != [] {
      UnarrivedIsDormant(t, evs[..|evs| - 1], i);
    }
  }

  /** What is past stays finished when the collector takes something more. */
  lemma PastIsFinished(t: Traffic, marks: seq<NetEvent>, arrivals: seq<Arriving>, i: nat, a: uint16, keys: set<Key>)
    requires AllStandFor(t, marks, arrivals) && i < |t.sent| && Past(t, marks, arrivals, i)
    ensures Finished(t, RunOf(marks, arrivals) + [Drop(a, keys)], i)
  {
    var evs, e := RunOf(marks, arrivals), Drop(a, keys);
    ArrivalsRun(t, map[], marks, arrivals);
    SameArrived(evs, marks, i);
    ArrivedSnoc(evs, e, i);
    assert (evs + [e])[..|evs|] == evs;
    if Arrived(marks, i) == {} {
      UnarrivedIsDormant(t, evs, i);
    } else {
      SparedIsUndropped(t, marks, arrivals, i);
    }
  }

  lemma SeparateSnoc(t: Traffic, evs: seq<NetEvent>, e: NetEvent)
    requires Proper(t) && Separate(t, evs)
    requires e.Deliver? && e.i < |t.sent| ==>
      forall i :: 0 <= i < |t.sent| && i != e.i && t.sent[i].id == t.sent[e.i].id ==> Finished(t, evs, i)
    ensures Separate(t, evs + [e])
  {
    assert (evs + [e])[..|evs|] == evs;
  }

  lemma {:induction false} ApartIsSeparate(t: Traffic, marks: seq<NetEvent>, arrivals: seq<Arriving>)
    requires AllStandFor(t, marks, arrivals) && KeptApart(t, marks, arrivals)
    ensures Separate(t, RunOf(marks, arrivals))
    decreases |marks|
  {
    if marks != [] {
      var n := |marks| - 1;
      var evs, e := RunOf(marks[..n], arrivals[..n]), marks[n];
      var (a, x) := Evictions(arrivals[n]);
      ApartIsSeparate(t, marks[..n], arrivals[..n]);
      SeparateSnoc(t, evs, Drop(a, x.before));
      forall i | 0 <= i < |t.sent| && Past(t, marks[..n], arrivals[..n], i)
        ensures Finished(t, evs + [Drop(a, x.before)], i)
      {
        PastIsFinished(t, marks[..n], arrivals[..n], i, a, x.before);
      }
      SeparateSnoc(t, evs + [Drop(a, x.before)], e);
      SeparateSnoc(t, evs + [Drop(a, x.before)] + [e], Drop(a, x.after));
    }
  }

  // ---------------------------------------------------------------- end to end

  lemma {:induction false} KeysKept(ss: Sessions, gs: seq<Arriving>)
    ensures OnArrivals(ss, gs).Some? ==> OnArrivals(ss, gs).value.Keys == ss.Keys
    decreases |gs|
  {
    if gs != [] {
      KeysKept(ss, gs[..|gs| - 1]);
    }
  }

  /** Sends, and an arrival of their datagrams, at most once each, with at most 65536 packet ids or with
      packets that share an id kept apart. */
  ghost predicate Scenario(a: uint16, id: uint16, ops: seq<SendOp>, marks: seq<NetEvent>, arrivals: seq<Arriving>) {
    && AllRunnable(ops) && (forall n :: 0 <= n < |ops| ==> Faithful(ops[n])) && AtMostOnce(marks)
    && var t := Traffic(a, SendRun(id, ops));
       AllStandFor(t, marks, arrivals) && (|t.sent| <= 0x1_0000 || KeptApart(t, marks, arrivals))
  }

  /** Every datagram arrives and the collector spares them all. */
  ghost predicate Complete(a: uint16, id: uint16, ops: seq<SendOp>, marks: seq<NetEvent>, arrivals: seq<Arriving>)
    requires Scenario(a, id, ops, marks, arrivals)
  {
    var t := Traffic(a, SendRun(id, ops));
    forall i :: 0 <= i < |t.sent| ==> Arrived(marks, i) == All(t.sent[i]) && Spared(t, marks, arrivals, i)
  }

  /** What was sent, what arrived of it and when the collector took what decide what an association is
      offered: a sub-multiset of the packets accepted for sending, and all of them if every datagram
      arrives and the collector spares them. */
  lemma OfferedSent(a: uint16, id: uint16, ops: seq<SendOp>, ss: Sessions, marks: seq<NetEvent>,
                    arrivals: seq<Arriving>)
    requires Scenario(a, id, ops, marks, arrivals) && a in ss && ss[a] == NEW_STREAM
    ensures OnArrivals(ss, arrivals).Some? && a in OnArrivals(ss, arrivals).value
    ensures var got := OnArrivals(ss, arrivals).value[a].received;
            && multiset(got) <= multiset(Accepted(ops))
            && (Complete(a, id, ops, marks, arrivals) ==> multiset(got) == multiset(Accepted(ops)))
  {
    var t, evs := Traffic(a, SendRun(id, ops)), RunOf(marks, arrivals);
    ArrivalsRun(t, ss, marks, arrivals);
    KeysKept(ss, arrivals);
    OnceIsDistinct(marks);
    OnceIsDistinct(evs);
    if |t.sent| > 0x1_0000 {
      ApartIsSeparate(t, marks, arrivals);
    }
    EndToEndDelivery(a, id, ops, ss, evs);
    forall i | 0 <= i < |t.sent| && Spared(t, marks, arrivals, i)
      ensures Arrived(evs, i) == Arrived(marks, i) && Undropped(t, evs, i)
    {
      SameArrived(evs, marks, i);
      SparedIsUndropped(t, marks, arrivals, i);
    }
  }
}
