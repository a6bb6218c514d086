/** From `send_packet` on one side to the receive channel on the other: the receiving loop, an
    ideal machine that only keeps track of which pieces are held, and the proof that the receiver
    does what the ideal machine does, over every run. */
module EndToEnd {
  import opened Bytes
  import opened Target
  import opened Codec
  import opened Fragmentation
  import opened Reassembly
  import opened Sender

  // ---------------------------------------------------------------- the receiving loop

  /** An association at the receiver: its reassembly buffer and what went to its channel. */
  datatype Stream = Stream(buf: Buffer, received: seq<UdpPacket>)

  type Sessions = map<uint16, Stream>

  const NEW_STREAM: Stream := Stream(map[], [])

  function TargetOf(a: Address): (t: TargetAddr) {
    if a.Addr? then a.addr else PLACEHOLDER
  }

  function Deliverable(st: Stream, p: Option<UdpPacket>): (r: seq<UdpPacket>) {
    if p.Some? then st.received + [p.value] else st.received
  }

  /** One parsed fragment for an open association: packets of one piece bypass the buffer. */
  function OnFragment(st: Stream, c: Command, target: TargetAddr, payload: bytes, now: nat, shed: set<uint8>)
    : (r: Stream)
    requires c.Packet?
  {
    if c.fragTotal > 1 then
      var info := FragmentInfo(c.assocId, c.pktId, c.fragTotal, c.fragId, None, target);
      var added := AddFragment(st.buf, info, payload, now, shed);
      Stream(added.buf, Deliverable(st, added.out))
    else
      Stream(st.buf, st.received + [UdpPacket(None, target, payload)])
  }

  /** The datagram branch of `start_poll`; `None` when the polling task panics. */
  function OnDatagram(ss: Sessions, datagram: bytes, now: nat, shed: set<uint8>): (r: Option<Sessions>) {
    match Parse(datagram)
    case Overrun(_) => None
    case Fragment(c, a, payload) =>
      Some(if c.assocId in ss
           then ss[c.assocId := OnFragment(ss[c.assocId], c, TargetOf(a), payload, now, shed)]
           else ss)
    case NotPacket(_) => Some(ss)
    case Malformed => Some(ss)
  }

  lemma Replace(ss: Sessions, a: uint16, st: Stream, st': Stream)
    ensures ss[a := st][a := st'] == ss[a := st']
  {
  }

  // ---------------------------------------------------------------- runs

  /** What can happen: a datagram of launch `i` arrives, any other datagram arrives, a stream's
      cache drops entries, an association is opened or forgotten. */
  datatype NetEvent =
    | Deliver(i: nat, j: nat, now: nat, shed: set<uint8>)
    | Other(datagram: bytes, now: nat, shed: set<uint8>)
    | Drop(assoc: uint16, keys: set<Key>)
    | Open(assoc: uint16)
    | Forget(assoc: uint16)

  /** One association's traffic: its id and its launches. */
  datatype Traffic = Traffic(a: uint16, sent: seq<Launch>)

  ghost predicate Proper(t: Traffic) {
    forall i :: 0 <= i < |t.sent| ==> WellMade(t.sent[i])
  }

  /** The event makes sense: only emitted datagrams arrive, other datagrams are not of this
      association and do not overrun, and the association itself stays open. */
  ghost predicate Possible(t: Traffic, e: NetEvent) {
    match e
    case Deliver(i, j, _, _) => i < |t.sent| && j < t.sent[i].emitted
    case Other(d, _, _) => var p := Parse(d); !p.Overrun? && !(p.Fragment? && p.command.assocId == t.a)
    case Drop(_, _) => true
    case Open(b) => b != t.a
    case Forget(b) => b != t.a
  }

  ghost predicate AllPossible(t: Traffic, evs: seq<NetEvent>) {
    Proper(t) && forall n :: 0 <= n < |evs| ==> Possible(t, evs[n])
  }

  function WireOf(a: uint16, l: Launch, j: nat): (d: bytes)
    requires WellMade(l) && j < |l.chunks|
  {
    Wire(a, l.id, l.target, l.chunks)[j]
  }

  ghost function NetStep(t: Traffic, ss: Option<Sessions>, e: NetEvent): (r: Option<Sessions>)
    requires Proper(t) && Possible(t, e)
  {
    if ss.None? then None
    else
      match e
      case Deliver(i, j, now, shed) => OnDatagram(ss.value, WireOf(t.a, t.sent[i], j), now, shed)
      case Other(d, now, shed) => OnDatagram(ss.value, d, now, shed)
      case Drop(b, keys) =>
        Some(if b in ss.value then ss.value[b := ss.value[b].(buf := ss.value[b].buf - keys)] else ss.value)
      case Open(b) => Some(ss.value[b := NEW_STREAM])
      case Forget(b) => Some(ss.value - {b})
  }

  ghost function NetRun(t: Traffic, ss: Sessions, evs: seq<NetEvent>): (r: Option<Sessions>)
    requires AllPossible(t, evs)
  {
    if evs == [] then Some(ss) else NetStep(t, NetRun(t, ss, evs[..|evs| - 1]), evs[|evs| - 1])
  }

  // ---------------------------------------------------------------- the ideal machine

  /** Which pieces of which launches are held, and which launches are done, in order. */
  datatype Ideal = Ideal(held: map<nat, set<uint8>>, done: seq<nat>)

  const NOTHING: Ideal := Ideal(map[], [])

  function KeyIn(t: Traffic, i: nat): (k: Key)
    requires i < |t.sent|
  {
    (t.a, t.sent[i].id)
  }

  function HeldOf(x: Ideal, i: nat): (h: set<uint8>) {
    if i in x.held then x.held[i] else {}
  }

  function Except(held: map<nat, set<uint8>>, i: nat): (r: map<nat, set<uint8>>) {
    map k | k in held && k != i :: held[k]
  }

  function All(l: Launch): (s: set<uint8>)
    requires |l.chunks| <= MAX_FRAGMENTS
  {
    Indices(|l.chunks|)
  }

  ghost function IdealStep(t: Traffic, x: Ideal, e: NetEvent): (r: Ideal)
    requires Proper(t) && Possible(t, e)
  {
    match e
    case Deliver(i, j, _, _) =>
      var piece: uint8 := j;
      var h := HeldOf(x, i) + {piece};
      if h == All(t.sent[i]) then Ideal(Except(x.held, i), x.done + [i]) else Ideal(x.held[i := h], x.done)
    case Drop(b, keys) =>
      if b == t.a then x.(held := map i | i in x.held && !(i < |t.sent| && KeyIn(t, i) in keys) :: x.held[i]) else x
    case _ => x
  }

  ghost function IdealRun(t: Traffic, evs: seq<NetEvent>): (x: Ideal)
    requires AllPossible(t, evs)
  {
    if evs == [] then NOTHING else IdealStep(t, IdealRun(t, evs[..|evs| - 1]), evs[|evs| - 1])
  }

  /** A datagram arrives for a launch that is not done, and no other launch with the same packet id
      has pieces waiting. */
  ghost predicate Legal(t: Traffic, x: Ideal, e: NetEvent)
    requires Possible(t, e)
  {
    e.Deliver? ==>
      && e.i !in x.done
      && forall k :: k in x.held && k < |t.sent| && k != e.i ==> t.sent[k].id != t.sent[e.i].id
  }

  ghost predicate LegalRun(t: Traffic, evs: seq<NetEvent>)
    requires AllPossible(t, evs)
  {
    evs == [] ||
    (LegalRun(t, evs[..|evs| - 1]) && Legal(t, IdealRun(t, evs[..|evs| - 1]), evs[|evs| - 1]))
  }

  // ---------------------------------------------------------------- refinement

  function PacketOf(l: Launch): (p: UdpPacket) {
    UdpPacket(None, l.target, Flatten(l.chunks))
  }

  /** The entry holds exactly these pieces of the launch, and its destination once piece 0 is in. */
  ghost predicate Matches(l: Launch, h: set<uint8>, m: Meta)
    requires WellMade(l)
  {
    && m.total == |l.chunks|
    && m.frags.Keys == h
    && (forall j :: j in h ==> j < |l.chunks| && m.frags[j] == l.chunks[j])
    && m.source == None
    && m.target == if 0 in h then l.target else PLACEHOLDER
  }

  ghost predicate HeldWell(t: Traffic, st: Stream, x: Ideal, i: nat)
    requires Proper(t) && i in x.held
  {
    && i < |t.sent|
    && x.held[i] != {}
    && x.held[i] < All(t.sent[i])
    && KeyIn(t, i) in st.buf
    && Matches(t.sent[i], x.held[i], st.buf[KeyIn(t, i)])
  }

  ghost predicate Owned(t: Traffic, x: Ideal, k: Key) {
    exists i :: i in x.held && i < |t.sent| && KeyIn(t, i) == k
  }

  ghost predicate Outputs(t: Traffic, st: Stream, x: Ideal) {
    && |st.received| == |x.done|
    && forall n :: 0 <= n < |x.done| ==> x.done[n] < |t.sent| && st.received[n] == PacketOf(t.sent[x.done[n]])
  }

  ghost predicate Entries(t: Traffic, st: Stream, x: Ideal)
    requires Proper(t)
  {
    && (forall i :: i in x.held ==> HeldWell(t, st, x, i))
    && (forall k :: k in st.buf ==> Owned(t, x, k))
  }

  ghost predicate DistinctIds(t: Traffic, x: Ideal) {
    forall i, k :: i in x.held && k in x.held && i < |t.sent| && k < |t.sent| && i != k ==> t.sent[i].id != t.sent[k].id
  }

  /** The stream is in the state the ideal machine prescribes. */
  ghost predicate Refines(t: Traffic, st: Stream, x: Ideal)
    requires Proper(t)
  {
    Outputs(t, st, x) && Entries(t, st, x) && DistinctIds(t, x)
  }

  function InfoOf(a: uint16, l: Launch, j: nat): (info: FragmentInfo)
    requires WellMade(l) && j < |l.chunks|
  {
    FragmentInfo(a, l.id, |l.chunks|, j, None, if j == 0 then l.target else PLACEHOLDER)
  }

  /** The receiver sees in a datagram exactly what the sender meant by it. */
  lemma ReceiveWire(ss: Sessions, a: uint16, l: Launch, j: nat, now: nat, shed: set<uint8>)
    requires WellMade(l) && j < |l.chunks| && a in ss
    ensures OnDatagram(ss, WireOf(a, l, j), now, shed)
         == Some(ss[a := if |l.chunks| > 1 then
                           var r := AddFragment(ss[a].buf, InfoOf(a, l, j), l.chunks[j], now, shed);
                           Stream(r.buf, Deliverable(ss[a], r.out))
                         else Stream(ss[a].buf, ss[a].received + [UdpPacket(None, l.target, l.chunks[0])])])
  {
    DatagramRoundTrip(a, l.id, |l.chunks|, j, if j == 0 then Addr(l.target) else NoAddress, l.chunks[j]);
    SizeSurvivesIff(l.chunks[j]);
    assert l.chunks[j] in l.chunks;
  }

  lemma AssembleMatches(l: Launch, m: Meta)
    requires WellMade(l) && Matches(l, All(l), m)
    ensures Assemble(m) == Some(PacketOf(l))
  {
    assert forall i: uint8 :: i < |l.chunks| ==> i in All(l);
    assert InOrder(m.frags, m.total) == l.chunks;
  }

  /** Storing a piece in an entry, or in a fresh one. */
  lemma StorePiece(a: uint16, l: Launch, h: set<uint8>, m: Meta, j: uint8, now: nat, shed: set<uint8>)
    requires WellMade(l) && j < |l.chunks|
    requires (h < All(l) && Matches(l, h, m)) || (h == {} && m == Fresh(InfoOf(a, l, j), now))
    ensures var m' := Stored(m, InfoOf(a, l, j), l.chunks[j], now, shed);
            && Matches(l, h + {j}, m')
            && (|m'.frags| == m'.total <==> h + {j} == All(l))
  {
    var frags := m.frags[j := l.chunks[j]];
    assert frags.Keys == h + {j};
    assert h + {j} <= All(l);
    CountIsIndexTest(frags, |l.chunks|);
    assert HasAll(frags, |l.chunks|) <==> All(l) <= frags.Keys;
  }

  /** The heart of the matter: one more piece into an entry that holds some of them, in any order,
      new or repeated. On the last missing one the packet comes out and the entry is gone. */
  lemma AddPiece(a: uint16, l: Launch, h: set<uint8>, b: Buffer, j: uint8, now: nat, shed: set<uint8>)
    requires WellMade(l) && j < |l.chunks|
    requires if (a, l.id) in b then h < All(l) && Matches(l, h, b[(a, l.id)]) else h == {}
    ensures var r, k := AddFragment(b, InfoOf(a, l, j), l.chunks[j], now, shed), (a, l.id);
            if h + {j} == All(l) then
              r.out == Some(PacketOf(l)) && r.buf == b - {k}
            else
              r.out == None && k in r.buf && r.buf == b[k := r.buf[k]] && Matches(l, h + {j}, r.buf[k])
  {
    var k, info := (a, l.id), InfoOf(a, l, j);
    StorePiece(a, l, h, if k in b then b[k] else Fresh(info, now), j, now, shed);
    var m := EntryAfter(b, info, l.chunks[j], now, shed);
    if h + {j} == All(l) {
      AssembleMatches(l, m);
    }
  }

  lemma OwnEntry(t: Traffic, st: Stream, x: Ideal, e: NetEvent)
    requires Proper(t) && Possible(t, e) && e.Deliver? && Legal(t, x, e) && Refines(t, st, x)
    ensures KeyIn(t, e.i) in st.buf <==> e.i in x.held
    ensures e.i in x.held ==> HeldWell(t, st, x, e.i)
  {
  }

  /** No other launch that has pieces waiting uses this launch's packet id. */
  ghost predicate SoleOwner(t: Traffic, x: Ideal, i: nat) {
    i < |t.sent| && forall k :: k in x.held && k < |t.sent| && k != i ==> t.sent[k].id != t.sent[i].id
  }

  lemma OwnedStill(t: Traffic, x: Ideal, x': Ideal, i: nat, k: Key)
    requires Owned(t, x, k) && i < |t.sent| && k != KeyIn(t, i)
    requires forall o :: o in x.held && o != i ==> o in x'.held
    ensures Owned(t, x', k)
  {
  }

  lemma HeldStill(t: Traffic, st: Stream, x: Ideal, i: nat, st': Stream, x': Ideal, k: nat)
    requires Proper(t) && k in x.held && HeldWell(t, st, x, k) && SoleOwner(t, x, i) && k != i
    requires k in x'.held && x'.held[k] == x.held[k]
    requires KeyIn(t, k) != KeyIn(t, i) ==> KeyIn(t, k) in st'.buf && st'.buf[KeyIn(t, k)] == st.buf[KeyIn(t, k)]
    ensures HeldWell(t, st', x', k)
  {
  }

  lemma OwnedWithout(t: Traffic, st: Stream, x: Ideal, i: nat, k: Key)
    requires Proper(t) && Entries(t, st, x) && i < |t.sent| && k in st.buf - {KeyIn(t, i)}
    ensures Owned(t, Ideal(Except(x.held, i), x.done + [i]), k)
  {
  }

  lemma EntriesWithout(t: Traffic, st: Stream, x: Ideal, i: nat, st': Stream)
    requires Proper(t) && Entries(t, st, x) && SoleOwner(t, x, i)
    requires st'.buf == st.buf - {KeyIn(t, i)}
    ensures Entries(t, st', Ideal(Except(x.held, i), x.done + [i]))
  {
    var x' := Ideal(Except(x.held, i), x.done + [i]);
    forall k | k in x'.held
      ensures HeldWell(t, st', x', k)
    {
      assert HeldWell(t, st, x, k);
      HeldWithout(t, st, x, i, st', x', k);
    }
    forall k | k in st'.buf
      ensures Owned(t, x', k)
    {
      OwnedWithout(t, st, x, i, k);
    }
  }

  lemma HeldWithout(t: Traffic, st: Stream, x: Ideal, i: nat, st': Stream, x': Ideal, k: nat)
    requires Proper(t) && k in x.held && HeldWell(t, st, x, k) && SoleOwner(t, x, i) && k != i
    requires k in x'.held && x'.held[k] == x.held[k] && st'.buf == st.buf - {KeyIn(t, i)}
    ensures HeldWell(t, st', x', k)
  {
    assert KeyIn(t, k) != KeyIn(t, i);
  }

  lemma EntriesWith(t: Traffic, st: Stream, x: Ideal, i: nat, h: set<uint8>, m: Meta, st': Stream, x': Ideal)
    requires Proper(t) && Entries(t, st, x) && SoleOwner(t, x, i)
    requires h != {} && h < All(t.sent[i]) && Matches(t.sent[i], h, m)
    requires st'.buf == st.buf[KeyIn(t, i) := m] && x'.held == x.held[i := h]
    ensures Entries(t, st', x')
  {
    forall k | k in x'.held
      ensures HeldWell(t, st', x', k)
    {
      if k != i {
        assert HeldWell(t, st, x, k);
        HeldStill(t, st, x, i, st', x', k);
      }
    }
    assert i in x'.held;
    forall k | k in st'.buf
      ensures Owned(t, x', k)
    {
      if k != KeyIn(t, i) {
        OwnedStill(t, x, x', i, k);
      }
    }
  }

  /** The launch is complete: its packet is delivered and its entry is gone. */
  lemma RefineDone(t: Traffic, st: Stream, x: Ideal, i: nat, st': Stream)
    requires Proper(t) && Refines(t, st, x) && SoleOwner(t, x, i)
    requires st' == Stream(st.buf - {KeyIn(t, i)}, st.received + [PacketOf(t.sent[i])])
    ensures Refines(t, st', Ideal(Except(x.held, i), x.done + [i]))
  {
    EntriesWithout(t, st, x, i, st');
  }

  /** The launch still lacks pieces: its entry holds one more. */
  lemma RefineHeld(t: Traffic, st: Stream, x: Ideal, i: nat, h: set<uint8>, m: Meta)
    requires Proper(t) && Refines(t, st, x) && SoleOwner(t, x, i)
    requires h != {} && h < All(t.sent[i]) && Matches(t.sent[i], h, m)
    ensures Refines(t, Stream(st.buf[KeyIn(t, i) := m], st.received), Ideal(x.held[i := h], x.done))
  {
    EntriesWith(t, st, x, i, h, m, Stream(st.buf[KeyIn(t, i) := m], st.received), Ideal(x.held[i := h], x.done));
  }

  lemma RefineDrop(t: Traffic, st: Stream, x: Ideal, keys: set<Key>)
    requires Proper(t) && Refines(t, st, x)
    ensures Refines(t, st.(buf := st.buf - keys), IdealStep(t, x, Drop(t.a, keys)))
  {
    var st', x' := st.(buf := st.buf - keys), IdealStep(t, x, Drop(t.a, keys));
    forall k | k in x'.held
      ensures HeldWell(t, st', x', k)
    {
      assert HeldWell(t, st, x, k);
    }
    forall k | k in st'.buf
      ensures Owned(t, x', k)
    {
      var o :| o in x.held && o < |t.sent| && KeyIn(t, o) == k;
      assert o in x'.held;
    }
  }

  lemma FlattenOne(c: bytes)
    ensures Flatten([c]) == c
  {
  }

  /** A piece of a launch of several. */
  lemma RefinePiece(t: Traffic, st: Stream, x: Ideal, e: NetEvent)
    requires Proper(t) && Possible(t, e) && e.Deliver? && Legal(t, x, e) && Refines(t, st, x)
    ensures var l := t.sent[e.i];
            var r := AddFragment(st.buf, InfoOf(t.a, l, e.j), l.chunks[e.j], e.now, e.shed);
            Refines(t, Stream(r.buf, Deliverable(st, r.out)), IdealStep(t, x, e))
  {
    var l, h := t.sent[e.i], HeldOf(x, e.i);
    var j: uint8 := e.j;
    OwnEntry(t, st, x, e);
    AddPiece(t.a, l, h, st.buf, j, e.now, e.shed);
    var r := AddFragment(st.buf, InfoOf(t.a, l, j), l.chunks[j], e.now, e.shed);
    assert h + {j} <= All(l);
    RefineAdded(t, st, x, e.i, h + {j}, r);
  }

  lemma RefineAdded(t: Traffic, st: Stream, x: Ideal, i: nat, h: set<uint8>, r: Added)
    requires Proper(t) && Refines(t, st, x) && SoleOwner(t, x, i) && h != {} && h <= All(t.sent[i])
    requires if h == All(t.sent[i]) then r.out == Some(PacketOf(t.sent[i])) && r.buf == st.buf - {KeyIn(t, i)}
             else r.out == None && KeyIn(t, i) in r.buf && r.buf == st.buf[KeyIn(t, i) := r.buf[KeyIn(t, i)]]
                  && Matches(t.sent[i], h, r.buf[KeyIn(t, i)])
    ensures Refines(t, Stream(r.buf, Deliverable(st, r.out)),
                    if h == All(t.sent[i]) then Ideal(Except(x.held, i), x.done + [i])
                    else Ideal(x.held[i := h], x.done))
  {
    if h == All(t.sent[i]) {
      RefineDone(t, st, x, i, Stream(r.buf, Deliverable(st, r.out)));
    } else {
      RefineHeld(t, st, x, i, h, r.buf[KeyIn(t, i)]);
    }
  }

  /** A launch of one piece. */
  lemma RefineWhole(t: Traffic, st: Stream, x: Ideal, e: NetEvent)
    requires Proper(t) && Possible(t, e) && e.Deliver? && Legal(t, x, e) && Refines(t, st, x)
    requires |t.sent[e.i].chunks| == 1
    ensures var l := t.sent[e.i];
            Refines(t, Stream(st.buf, st.received + [UdpPacket(None, l.target, l.chunks[0])]), IdealStep(t, x, e))
  {
    var l, h := t.sent[e.i], HeldOf(x, e.i);
    FlattenOne(l.chunks[0]);
    assert l.chunks == [l.chunks[0]];
    OwnEntry(t, st, x, e);
    assert All(l) == {0};
    assert h == {};
    assert st.buf - {KeyIn(t, e.i)} == st.buf;
    RefineDone(t, st, x, e.i, Stream(st.buf, st.received + [PacketOf(l)]));
  }

  lemma RefineDeliver(t: Traffic, ss: Sessions, x: Ideal, e: NetEvent)
    requires Proper(t) && Possible(t, e) && e.Deliver? && Legal(t, x, e)
    requires t.a in ss && Refines(t, ss[t.a], x)
    ensures var r := NetStep(t, Some(ss), e);
            r.Some? && t.a in r.value && Refines(t, r.value[t.a], IdealStep(t, x, e))
  {
    var l := t.sent[e.i];
    ReceiveWire(ss, t.a, l, e.j, e.now, e.shed);
    if |l.chunks| > 1 {
      RefinePiece(t, ss[t.a], x, e);
    } else {
      RefineWhole(t, ss[t.a], x, e);
    }
  }

  lemma RefineStep(t: Traffic, ss: Sessions, x: Ideal, e: NetEvent)
    requires Proper(t) && Possible(t, e) && Legal(t, x, e)
    requires t.a in ss && Refines(t, ss[t.a], x)
    ensures var r := NetStep(t, Some(ss), e);
            r.Some? && t.a in r.value && Refines(t, r.value[t.a], IdealStep(t, x, e))
  {
    match e
    case Deliver(_, _, _, _) => RefineDeliver(t, ss, x, e);
    case Drop(b, keys) =>
      if b == t.a {
        RefineDrop(t, ss[t.a], x, keys);
      }
    case Other(_, _, _) =>
    case Open(_) =>
    case Forget(_) =>
  }

  /** Over every legal run the association's stream does what the ideal machine does, whatever
      other datagrams arrive, whichever caches drop entries, and the polling task does not panic. */
  lemma {:induction false} Refinement(t: Traffic, ss: Sessions, evs: seq<NetEvent>)
    requires AllPossible(t, evs) && LegalRun(t, evs)
    requires t.a in ss && ss[t.a] == NEW_STREAM
    ensures var r := NetRun(t, ss, evs);
            r.Some? && t.a in r.value && Refines(t, r.value[t.a], IdealRun(t, evs))
    decreases |evs|
  {
    if evs != [] {
      var init := evs[..|evs| - 1];
      Refinement(t, ss, init);
      RefineStep(t, NetRun(t, ss, init).value, IdealRun(t, init), evs[|evs| - 1]);
    }
  }
}
