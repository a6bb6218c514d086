/** One packet through the receiving loop: any order, any repetition before completion. And what
    goes wrong when an id comes round again while pieces are still waiting. */
module RoundTrip {
  import opened Bytes
  import opened Target
  import opened Codec
  import opened Fragmentation
  import opened Reassembly
  import opened Sender
  import opened EndToEnd

  /** Datagrams handled one after the other. */
  datatype Arrival = Arrival(datagram: bytes, now: nat, shed: set<uint8>)

  function Handle(ss: Sessions, arrivals: seq<Arrival>): (r: Option<Sessions>) {
    if arrivals == [] then Some(ss)
    else
      var before := Handle(ss, arrivals[..|arrivals| - 1]);
      var last := arrivals[|arrivals| - 1];
      if before.None? then None else OnDatagram(before.value, last.datagram, last.now, last.shed)
  }

  lemma HandleLast(ss: Sessions, arrivals: seq<Arrival>, mid: Sessions, r: Option<Sessions>)
    requires arrivals != [] && Handle(ss, arrivals[..|arrivals| - 1]) == Some(mid)
    requires var last := arrivals[|arrivals| - 1]; OnDatagram(mid, last.datagram, last.now, last.shed) == r
    ensures Handle(ss, arrivals) == r
  {
  }

  // ---------------------------------------------------------------- associations keep apart

  /** A datagram touches at most the association it names. */
  lemma DispatchLocal(ss: Sessions, datagram: bytes, now: nat, shed: set<uint8>, b: uint16)
    requires b in ss && OnDatagram(ss, datagram, now, shed).Some?
    requires var p := Parse(datagram); p.Fragment? ==> p.command.assocId != b
    ensures var r := OnDatagram(ss, datagram, now, shed).value;
            r.Keys == ss.Keys && r[b] == ss[b]
  {
  }

  /** What a packet does to its association, whatever bytes follow it: one that says it is a single piece
      is delivered as it is, to 0.0.0.0:0 if it has no address. */
  lemma SingleDispatched(ss: Sessions, c: Command, a: Address, chunk: bytes, tail: bytes, now: nat, shed: set<uint8>)
    requires c.Packet? && c.size == |chunk| && EncodableAddress(a) && c.assocId in ss && c.fragTotal <= 1
    ensures var p := UdpPacket(None, if a.Addr? then a.addr else IPv4([0, 0, 0, 0], 0), chunk);
            var st := ss[c.assocId];
            OnDatagram(ss, Datagram(c.assocId, c.pktId, c.fragTotal, c.fragId, a, chunk) + tail, now, shed)
            == Some(ss[c.assocId := Stream(st.buf, st.received + [p])])
  {
    DatagramFollowed(c.assocId, c.pktId, c.fragTotal, c.fragId, a, chunk, tail);
  }

  /** The others go into the buffer, and what comes out of it is delivered. */
  lemma FragmentDispatched(ss: Sessions, c: Command, a: Address, chunk: bytes, tail: bytes, now: nat, shed: set<uint8>)
    requires c.Packet? && c.size == |chunk| && EncodableAddress(a) && c.assocId in ss && c.fragTotal > 1
    ensures var st := ss[c.assocId];
            var info := FragmentInfo(c.assocId, c.pktId, c.fragTotal, c.fragId, None,
                                     if a.Addr? then a.addr else IPv4([0, 0, 0, 0], 0));
            var r := AddFragment(st.buf, info, chunk, now, shed);
            OnDatagram(ss, Datagram(c.assocId, c.pktId, c.fragTotal, c.fragId, a, chunk) + tail, now, shed)
            == Some(ss[c.assocId := Stream(r.buf, if r.out.Some? then st.received + [r.out.value] else st.received)])
  {
    DatagramFollowed(c.assocId, c.pktId, c.fragTotal, c.fragId, a, chunk, tail);
  }

  /** Anything that is no packet of an open association changes nothing, and the loop dies exactly on a
      packet that is short of its size field. */
  lemma OthersIgnored(ss: Sessions, datagram: bytes, now: nat, shed: set<uint8>)
    ensures OnDatagram(ss, datagram, now, shed) == None <==> IsShort(datagram)
    ensures !IsPacket(datagram) && !IsShort(datagram) ==> OnDatagram(ss, datagram, now, shed) == Some(ss)
  {
    OverrunIff(datagram);
    MalformedIff(datagram);
    if Parse(datagram).Fragment? {
      var junk := ParseSound(datagram);
    }
  }

  lemma UnknownIgnored(ss: Sessions, c: Command, a: Address, chunk: bytes, tail: bytes, now: nat, shed: set<uint8>)
    requires c.Packet? && c.size == |chunk| && EncodableAddress(a) && c.assocId !in ss
    ensures OnDatagram(ss, Datagram(c.assocId, c.pktId, c.fragTotal, c.fragId, a, chunk) + tail, now, shed) == Some(ss)
  {
    DatagramFollowed(c.assocId, c.pktId, c.fragTotal, c.fragId, a, chunk, tail);
  }

  /** Every stream holds entries of its own association only. */
  ghost predicate OwnKeys(ss: Sessions) {
    forall a, k :: a in ss && k in ss[a].buf ==> k.0 == a
  }

  /** Whatever datagrams arrive, a stream reached by dispatch never holds another association's
      fragments, no association appears or disappears, and the loop stops only at a datagram
      whose size field exceeds what is left of it. */
  lemma {:induction false} DispatchOwnKeys(ss: Sessions, arrivals: seq<Arrival>)
    requires OwnKeys(ss)
    ensures Handle(ss, arrivals).None? <==> exists n :: 0 <= n < |arrivals| && Parse(arrivals[n].datagram).Overrun?
    ensures Handle(ss, arrivals).Some? ==>
      OwnKeys(Handle(ss, arrivals).value) && Handle(ss, arrivals).value.Keys == ss.Keys
    decreases |arrivals|
  {
    if arrivals != [] {
      var init, last := arrivals[..|arrivals| - 1], arrivals[|arrivals| - 1];
      DispatchOwnKeys(ss, init);
      assert forall n :: 0 <= n < |init| ==> init[n] == arrivals[n];
      if Handle(ss, init).Some? {
        DispatchOwnKey(Handle(ss, init).value, last);
      }
    }
  }

  lemma DispatchOwnKey(ss: Sessions, g: Arrival)
    requires OwnKeys(ss)
    ensures var r := OnDatagram(ss, g.datagram, g.now, g.shed);
            && (r.None? <==> Parse(g.datagram).Overrun?)
            && (r.Some? ==> OwnKeys(r.value) && r.value.Keys == ss.Keys)
  {
    var p := Parse(g.datagram);
    if p.Fragment? && p.command.assocId in ss {
      var a := p.command.assocId;
      FragmentOwnKey(ss[a], p.command, TargetOf(p.address), p.payload, g.now, g.shed);
    }
  }

  lemma FragmentOwnKey(st: Stream, c: Command, target: TargetAddr, payload: bytes, now: nat, shed: set<uint8>)
    requires c.Packet? && forall k :: k in st.buf ==> k.0 == c.assocId
    ensures forall k :: k in OnFragment(st, c, target, payload, now, shed).buf ==> k.0 == c.assocId
  {
  }

  // ---------------------------------------------------------------- one launch

  /** The arrivals are datagrams of this launch, `js` the pieces they carry. */
  ghost predicate Carries(a: uint16, l: Launch, js: seq<uint8>, arrivals: seq<Arrival>)
    requires Encodable(l.target) && |l.chunks| <= MAX_FRAGMENTS
  {
    && |js| == |arrivals|
    && forall n :: 0 <= n < |js| ==>
         js[n] < |l.chunks| && arrivals[n].datagram == Wire(a, l.id, l.target, l.chunks)[js[n]]
  }

  function PieceSet(js: seq<uint8>): (s: set<uint8>) {
    set j | j in js
  }

  lemma PieceSetSnoc(js: seq<uint8>)
    requires js != []
    ensures PieceSet(js) == PieceSet(js[..|js| - 1]) + {js[|js| - 1]}
  {
  }

  /** `st'` is `st` with pieces `h` of the launch waiting. */
  ghost predicate Waiting(a: uint16, l: Launch, h: set<uint8>, st: Stream, st': Stream)
    requires WellMade(l)
  {
    && st'.received == st.received
    && st'.buf - {(a, l.id)} == st.buf
    && if (a, l.id) in st'.buf then h < All(l) && Matches(l, h, st'.buf[(a, l.id)]) else h == {}
  }

  /** What one more piece makes of a stream. */
  ghost predicate Advanced(a: uint16, l: Launch, h: set<uint8>, st: Stream, st': Stream)
    requires WellMade(l)
  {
    if h == All(l) then st' == Stream(st.buf, st.received + [PacketOf(l)]) else Waiting(a, l, h, st, st')
  }

  lemma AdvancedBy(a: uint16, l: Launch, h: set<uint8>, h': set<uint8>, st: Stream, st': Stream, r: Added)
    requires WellMade(l) && Waiting(a, l, h, st, st') && h' <= All(l)
    requires var k := (a, l.id);
             if h' == All(l) then r.out == Some(PacketOf(l)) && r.buf == st'.buf - {k}
             else r.out == None && k in r.buf && r.buf == st'.buf[k := r.buf[k]] && Matches(l, h', r.buf[k])
    ensures Advanced(a, l, h', st, Stream(r.buf, Deliverable(st', r.out)))
  {
  }

  lemma StreamAdvances(a: uint16, l: Launch, h: set<uint8>, st: Stream, st': Stream, j: uint8, now: nat,
                       shed: set<uint8>)
    requires WellMade(l) && j < |l.chunks| && Waiting(a, l, h, st, st')
    ensures var r := AddFragment(st'.buf, InfoOf(a, l, j), l.chunks[j], now, shed);
            Advanced(a, l, h + {j}, st, Stream(r.buf, Deliverable(st', r.out)))
  {
    AddPiece(a, l, h, st'.buf, j, now, shed);
    assert h + {j} <= All(l);
    AdvancedBy(a, l, h, h + {j}, st, st', AddFragment(st'.buf, InfoOf(a, l, j), l.chunks[j], now, shed));
  }

  lemma OneArrival(a: uint16, l: Launch, h: set<uint8>, ss: Sessions, mid: Stream, j: uint8, now: nat, shed: set<uint8>)
    returns (st: Stream)
    requires WellMade(l) && |l.chunks| > 1 && j < |l.chunks| && a in ss && Waiting(a, l, h, ss[a], mid)
    ensures OnDatagram(ss[a := mid], WireOf(a, l, j), now, shed) == Some(ss[a := st])
    ensures Advanced(a, l, h + {j}, ss[a], st)
  {
    ReceiveWire(ss[a := mid], a, l, j, now, shed);
    StreamAdvances(a, l, h, ss[a], mid, j, now, shed);
    var r := AddFragment(mid.buf, InfoOf(a, l, j), l.chunks[j], now, shed);
    st := Stream(r.buf, Deliverable(mid, r.out));
    Replace(ss, a, mid, st);
  }

  lemma {:induction false} Incomplete(a: uint16, l: Launch, ss: Sessions, js: seq<uint8>, arrivals: seq<Arrival>)
    returns (st: Stream)
    requires WellMade(l) && |l.chunks| > 1 && a in ss && (a, l.id) !in ss[a].buf
    requires Carries(a, l, js, arrivals) && PieceSet(js) != All(l)
    ensures Handle(ss, arrivals) == Some(ss[a := st]) && Waiting(a, l, PieceSet(js), ss[a], st)
    decreases |js|
  {
    if js == [] {
      st := ss[a];
      assert st.buf - {(a, l.id)} == st.buf;
      assert ss[a := st] == ss;
    } else {
      var n := |js| - 1;
      PieceSetSnoc(js);
      assert PieceSet(js[..n]) <= PieceSet(js) <= All(l);
      var mid := Incomplete(a, l, ss, js[..n], arrivals[..n]);
      st := OneArrival(a, l, PieceSet(js[..n]), ss, mid, js[n], arrivals[n].now, arrivals[n].shed);
      HandleLast(ss, arrivals, ss[a := mid], Some(ss[a := st]));
    }
  }

  /** Round trip: the datagrams of one packet in any order, any of them repeated, the last of them
      the first to make the set complete. Nothing is delivered before it; with it the packet is,
      with its own destination and payload, and the buffer is as it was before. */
  lemma PacketRoundTrip(a: uint16, l: Launch, ss: Sessions, js: seq<uint8>, arrivals: seq<Arrival>)
    requires WellMade(l) && |l.chunks| > 1 && a in ss && (a, l.id) !in ss[a].buf
    requires Carries(a, l, js, arrivals) && js != [] && PieceSet(js[..|js| - 1]) != All(l) && PieceSet(js) == All(l)
    ensures Handle(ss, arrivals[..|js| - 1]).Some? && a in Handle(ss, arrivals[..|js| - 1]).value
    ensures Handle(ss, arrivals[..|js| - 1]).value[a].received == ss[a].received
    ensures Handle(ss, arrivals) == Some(ss[a := Stream(ss[a].buf, ss[a].received + [PacketOf(l)])])
  {
    var n := |js| - 1;
    PieceSetSnoc(js);
    var mid := Incomplete(a, l, ss, js[..n], arrivals[..n]);
    var st := OneArrival(a, l, PieceSet(js[..n]), ss, mid, js[n], arrivals[n].now, arrivals[n].shed);
    HandleLast(ss, arrivals, ss[a := mid], Some(ss[a := st]));
  }

  lemma OneIsEnough(js: seq<uint8>)
    requires |js| > 1 && PieceSet(js) == {0}
    ensures PieceSet(js[..|js| - 1]) == {0}
  {
    PieceSetSnoc(js);
    assert js[0] in PieceSet(js[..|js| - 1]);
  }

  /** The same for a packet as the application hands it over, whatever the datagram limit. */
  lemma SendReceive(a: uint16, id: uint16, op: SendOp, ss: Sessions, js: seq<uint8>, arrivals: seq<Arrival>)
    requires Runnable(op) && Faithful(op) && Launched(id, op).Some?
    requires a in ss && (a, id) !in ss[a].buf
    requires Carries(a, Launched(id, op).value, js, arrivals)
    requires var all := All(Launched(id, op).value);
             js != [] && PieceSet(js[..|js| - 1]) != all && PieceSet(js) == all
    ensures Handle(ss, arrivals)
         == Some(ss[a := Stream(ss[a].buf, ss[a].received + [UdpPacket(None, op.target, op.payload)])])
  {
    LaunchWellMade(id, op);
    var l := Launched(id, op).value;
    PlanExact(op.d, op.target, op.payload);
    if |l.chunks| > 1 {
      PacketRoundTrip(a, l, ss, js, arrivals);
    } else {
      assert All(l) == {0};
      if |js| > 1 {
        OneIsEnough(js);
      }
      ReceiveWire(ss, a, l, js[0], arrivals[0].now, arrivals[0].shed);
      FlattenOne(l.chunks[0]);
      assert l.chunks == [l.chunks[0]];
      assert arrivals[..0] == [];
    }
  }

  // ---------------------------------------------------------------- reused ids

  /** The first `k` pieces of one launch and the rest of another. */
  function Mixture(l0: Launch, l1: Launch, k: nat): (l: Launch)
    requires 0 < k < |l0.chunks| == |l1.chunks|
  {
    Launch(l0.id, l0.target, l0.chunks[..k] + l1.chunks[k..], |l0.chunks|)
  }

  /** Two launches with one id and equally many pieces, the first `k` pieces of one waiting when the
      rest of the other arrives: the receiver delivers a packet that nobody sent. So the condition
      that no other launch with the same id has pieces waiting cannot be dropped. */
  lemma ReusedIdMixes(a: uint16, l0: Launch, l1: Launch, k: nat, ss: Sessions, js: seq<uint8>, arrivals: seq<Arrival>)
    requires WellMade(l0) && WellMade(l1) && l0.id == l1.id && 0 < k < |l0.chunks| == |l1.chunks|
    requires a in ss && (a, l0.id) !in ss[a].buf
    requires |js| == |arrivals| == |l0.chunks| && forall n :: 0 <= n < |js| ==> js[n] == n
    requires forall n :: 0 <= n < |js| ==> arrivals[n].datagram == WireOf(a, if n < k then l0 else l1, n)
    ensures Handle(ss, arrivals)
         == Some(ss[a := Stream(ss[a].buf, ss[a].received + [PacketOf(Mixture(l0, l1, k))])])
  {
    var l := Mixture(l0, l1, k);
    forall n | 0 <= n < |js|
      ensures arrivals[n].datagram == WireOf(a, l, js[n])
    {
      SamePiece(a, l0, l1, k, n);
    }
    PiecesInOrder(l, js);
    PacketRoundTrip(a, l, ss, js, arrivals);
  }

  lemma SamePiece(a: uint16, l0: Launch, l1: Launch, k: nat, n: nat)
    requires WellMade(l0) && WellMade(l1) && l0.id == l1.id && 0 < k < |l0.chunks| == |l1.chunks| && n < |l0.chunks|
    ensures WellMade(Mixture(l0, l1, k))
    ensures WireOf(a, Mixture(l0, l1, k), n) == WireOf(a, if n < k then l0 else l1, n)
  {
    assert Mixture(l0, l1, k).chunks[n] == (if n < k then l0 else l1).chunks[n];
  }

  lemma PiecesInOrder(l: Launch, js: seq<uint8>)
    requires 0 < |js| == |l.chunks| <= MAX_FRAGMENTS && forall n :: 0 <= n < |js| ==> js[n] == n
    ensures PieceSet(js[..|js| - 1]) != All(l) && PieceSet(js) == All(l)
  {
    var m := |js| - 1;
    var last: uint8 := m;
    assert last !in PieceSet(js[..m]) && last in All(l);
    forall j: uint8 | j < |l.chunks|
      ensures j in PieceSet(js)
    {
      assert js[j] == j;
    }
  }

  /** It is neither of the two if both their beginnings, of one length, and their ends differ. */
  lemma MixtureIsNew(l0: Launch, l1: Launch, k: nat)
    requires 0 < k < |l0.chunks| == |l1.chunks|
    requires |Flatten(l0.chunks[..k])| == |Flatten(l1.chunks[..k])|
    requires Flatten(l0.chunks[..k]) != Flatten(l1.chunks[..k]) && Flatten(l0.chunks[k..]) != Flatten(l1.chunks[k..])
    ensures PacketOf(Mixture(l0, l1, k)) != PacketOf(l0) && PacketOf(Mixture(l0, l1, k)) != PacketOf(l1)
  {
    var n := |Flatten(l0.chunks[..k])|;
    FlattenAppend(l0.chunks[..k], l1.chunks[k..]);
    FlattenAppend(l0.chunks[..k], l0.chunks[k..]);
    FlattenAppend(l1.chunks[..k], l1.chunks[k..]);
    assert l0.chunks == l0.chunks[..k] + l0.chunks[k..] && l1.chunks == l1.chunks[..k] + l1.chunks[k..];
    var p, p0, p1 := Flatten(Mixture(l0, l1, k).chunks), Flatten(l0.chunks), Flatten(l1.chunks);
    assert p[..n] == Flatten(l0.chunks[..k]) && p1[..n] == Flatten(l1.chunks[..k]);
    assert p[n..] == Flatten(l1.chunks[k..]) && p0[n..] == Flatten(l0.chunks[k..]);
  }
}
