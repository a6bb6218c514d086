/** The reading task of `handle_udp`: where a received buffer goes, and how one that holds several
    coalesced datagrams is cut up again. */
module Gro {
  import opened Bytes
  import opened Target
  import opened Fragmentation
  import opened SocksUdp

  // ---------------------------------------------------------------- segments

  /** The cuts the loop makes, in closed form. */
  function Segments(data: bytes, stride: nat): (s: seq<bytes>) {
    if stride > 0 && |data| > stride then
      seq(DivCeil(|data|, stride), i requires 0 <= i < DivCeil(|data|, stride) => SegmentAt(data, stride, i))
    else [data]
  }

  function SegmentAt(data: bytes, stride: nat, i: nat): (s: bytes)
    requires stride > 0 && i < DivCeil(|data|, stride)
  {
    SegmentBounds(|data|, stride, i);
    data[i * stride..Min(i * stride + stride, |data|)]
  }

  lemma SegmentBounds(len: nat, stride: nat, i: nat)
    requires stride > 0 && i < DivCeil(len, stride)
    ensures i * stride < len
    ensures i < DivCeil(len, stride) - 1 ==> i * stride + stride < len
    ensures i == DivCeil(len, stride) - 1 ==> len <= i * stride + stride
  {
    DivCeilBounds(len, stride);
    var q := DivCeil(len, stride);
    Times(i, q - 1, stride);
    assert (i + 1) * stride == i * stride + stride;
    if i < q - 1 {
      Times(i + 1, q - 1, stride);
    }
  }

  /** The reference: cut a stride off the front as long as more than a stride is left. */
  function Chop(data: bytes, stride: nat): (s: seq<bytes>)
    requires stride > 0
  {
    if |data| <= stride then [data] else [data[..stride]] + Chop(data[stride..], stride)
  }

  lemma DivCeilStep(n: nat, d: nat)
    requires d > 0 && n > d
    ensures DivCeil(n, d) == 1 + DivCeil(n - d, d)
  {
    DivCeilBounds(n - d, d);
    var r := DivCeil(n - d, d);
    assert (r + 1) * d == r * d + d && (r - 1) * d == r * d - d;
    DivCeilUnique(n, d, r + 1);
  }

  lemma SegmentIs(data: bytes, stride: nat, i: nat, lo: nat, hi: nat)
    requires stride > 0 && i < DivCeil(|data|, stride) && lo == i * stride && hi == Min(lo + stride, |data|)
    ensures lo <= hi && SegmentAt(data, stride, i) == data[lo..hi]
  {
    SegmentBounds(|data|, stride, i);
  }

  lemma SegmentShift(data: bytes, stride: nat, i: nat)
    requires stride > 0 && |data| > stride && 1 <= i < DivCeil(|data|, stride)
    requires DivCeil(|data|, stride) == 1 + DivCeil(|data| - stride, stride)
    ensures SegmentAt(data, stride, i) == SegmentAt(data[stride..], stride, i - 1)
  {
    var lo := i * stride;
    var hi := Min(lo + stride, |data|);
    assert (i - 1) * stride == lo - stride;
    Times(1, i, stride);
    SegmentIs(data, stride, i, lo, hi);
    SegmentIs(data[stride..], stride, i - 1, lo - stride, hi - stride);
    Shift(data, stride, lo, hi);
  }

  lemma Shift(data: bytes, d: nat, lo: nat, hi: nat)
    requires d <= lo <= hi <= |data|
    ensures data[lo..hi] == data[d..][lo - d..hi - d]
  {
  }

  lemma {:induction false} SegmentsAreChops(data: bytes, stride: nat)
    requires stride > 0
    ensures Segments(data, stride) == Chop(data, stride)
    decreases |data|
  {
    if |data| > stride {
      var rest := data[stride..];
      SegmentsAreChops(rest, stride);
      DivCeilStep(|data|, stride);
      DivCeilBounds(|data|, stride);
      assert SegmentAt(data, stride, 0) == data[..stride];
      if |rest| <= stride {
        DivCeilBounds(|rest|, stride);
        OneSegment(rest, stride);
      }
      forall i | 1 <= i < DivCeil(|data|, stride)
        ensures Segments(data, stride)[i] == Chop(data, stride)[i]
      {
        SegmentShift(data, stride, i);
      }
    }
  }

  lemma OneSegment(data: bytes, stride: nat)
    requires stride > 0 && 0 < |data| <= stride
    ensures DivCeil(|data|, stride) == 1 && SegmentAt(data, stride, 0) == data
  {
  }

  lemma {:induction false} ChopsFlatten(data: bytes, stride: nat)
    requires stride > 0
    ensures Flatten(Chop(data, stride)) == data
    decreases |data|
  {
    if |data| <= stride {
      assert Flatten([data]) == data + Flatten([data][1..]);
    } else {
      ChopsFlatten(data[stride..], stride);
      assert data == data[..stride] + data[stride..];
      assert Chop(data, stride)[1..] == Chop(data[stride..], stride);
    }
  }

  lemma {:induction false} ChopSizes(data: bytes, stride: nat, i: nat)
    requires stride > 0 && i < |Chop(data, stride)|
    ensures i < |Chop(data, stride)| - 1 ==> |Chop(data, stride)[i]| == stride
    ensures i == |Chop(data, stride)| - 1 ==>
      |Chop(data, stride)[i]| <= stride && (data != [] ==> |Chop(data, stride)[i]| >= 1)
    decreases |data|
  {
    if |data| > stride && i > 0 {
      ChopSizes(data[stride..], stride, i - 1);
    } else if |data| > stride {
      assert |Chop(data[stride..], stride)| >= 1;
    }
  }

  /** The segments put together are the buffer; all but the last are one stride long, and the last
      is between one byte and a stride. */
  lemma SegmentsPartition(data: bytes, stride: nat)
    ensures Flatten(Segments(data, stride)) == data
    ensures stride > 0 && |data| > 0 ==>
      var s := Segments(data, stride);
      s != [] && 1 <= |s[|s| - 1]| <= stride && forall i :: 0 <= i < |s| - 1 ==> |s[i]| == stride
    ensures Segments(data, stride) == [data] <==> stride == 0 || |data| <= stride
  {
    if stride > 0 {
      SegmentsAreChops(data, stride);
      ChopsFlatten(data, stride);
      var s := Chop(data, stride);
      forall i | 0 <= i < |s|
        ensures if i < |s| - 1 then |s[i]| == stride else |s[i]| <= stride && (data != [] ==> |s[i]| >= 1)
      {
        ChopSizes(data, stride, i);
      }
    } else {
      assert Flatten([data]) == data + Flatten([data][1..]);
    }
  }

  // ---------------------------------------------------------------- destination

  function FromSocket(a: SocketAddr): (t: TargetAddr) {
    match a
    case V4(ip, port) => IPv4(ip, port)
    case V6(ip, port) => IPv6(ip, port)
  }

  /** A domain cannot be turned into a socket address; the sender's address is used instead. */
  function ForwardTarget(m: RecvMeta): (t: TargetAddr) {
    match m.destination
    case Some(IPv4(ip, port)) => FromSocket(V4(ip, port))
    case Some(IPv6(ip, port)) => FromSocket(V6(ip, port))
    case Some(Domain(_, _)) => FromSocket(m.addr)
    case None => FromSocket(m.addr)
  }

  /** Without a destination, or with a domain for one, the packet goes to the sender itself. */
  lemma ForwardTargetIs(m: RecvMeta)
    ensures ForwardTarget(m)
         == match m.destination
            case Some(IPv4(ip, port)) => IPv4(ip, port)
            case Some(IPv6(ip, port)) => IPv6(ip, port)
            case _ => if m.addr.V4? then IPv4(m.addr.ip4, m.addr.port) else IPv6(m.addr.ip6, m.addr.port)
  {
  }

  /** The destination a request names survives exactly when it is an IP address. */
  lemma DestinationKeptIff(m: RecvMeta)
    requires m.destination.Some?
    ensures ForwardTarget(m) == m.destination.value <==> !m.destination.value.Domain?
  {
  }

  // ---------------------------------------------------------------- forwarding

  function Forwarded(data: bytes, m: RecvMeta): (ps: seq<UdpPacket>) {
    var s := Segments(data, m.stride);
    seq(|s|, i requires 0 <= i < |s| => UdpPacket(None, ForwardTarget(m), s[i]))
  }

  /** Every packet has no source, the same destination and its segment for a payload, in order. */
  lemma ForwardedIs(data: bytes, m: RecvMeta)
    ensures |Forwarded(data, m)| == |Segments(data, m.stride)|
    ensures forall i :: 0 <= i < |Forwarded(data, m)| ==>
      Forwarded(data, m)[i] == UdpPacket(None, ForwardTarget(m), Segments(data, m.stride)[i])
    ensures Flatten(PayloadsIn(Forwarded(data, m))) == data
  {
    SegmentsPartition(data, m.stride);
    assert PayloadsIn(Forwarded(data, m)) == Segments(data, m.stride);
  }

  /** The channel to the sending task. It is closed once it has taken `room` more packets. */
  class Channel {
    var queue: seq<UdpPacket>
    var room: nat

    constructor (room: nat)
      ensures queue == [] && this.room == room
    {
      queue, this.room := [], room;
    }

    method Send(p: UdpPacket) returns (ok: bool)
      modifies this
      ensures ok <==> old(room) > 0
      ensures if ok then queue == old(queue) + [p] && room == old(room) - 1 else queue == old(queue) && room == 0
    {
      ok := room > 0;
      if ok {
        queue, room := queue + [p], room - 1;
      }
    }
  }

  /** One received buffer: every segment becomes a packet until the channel is closed. */
  method ForwardBuffer(buf: array<uint8>, m: RecvMeta, ch: Channel) returns (ok: bool)
    requires m.len <= buf.Length
    modifies ch
    ensures Took(old(ch.queue), old(ch.room), Forwarded(buf[..m.len], m), ch.queue, ch.room)
    ensures ok <==> old(ch.room) >= |Forwarded(buf[..m.len], m)|
  {
    ghost var data := buf[..m.len];
    ghost var packets := Forwarded(data, m);
    var target := ForwardTarget(m);
    if m.stride > 0 && m.len > m.stride {
      var numSegments := DivCeil(m.len, m.stride);
      for i := 0 to numSegments
        invariant ch.queue == old(ch.queue) + packets[..i] && i + ch.room == old(ch.room)
        invariant buf[..m.len] == data
      {
        SegmentBounds(m.len, m.stride, i);
        var start := i * m.stride;
        var end := Min(start + m.stride, m.len);
        var payload := buf[start..end];
        assert payload == data[start..end] == Segments(data, m.stride)[i];
        var taken := ch.Send(UdpPacket(None, target, payload));
        if !taken {
          return false;
        }
        assert packets[..i + 1] == packets[..i] + [packets[i]];
      }
      return true;
    } else {
      ok := ch.Send(UdpPacket(None, target, buf[..m.len]));
    }
  }

  /** The channel took these packets in order as long as it had room. */
  ghost predicate Took(queue: seq<UdpPacket>, room: nat, ps: seq<UdpPacket>, queue': seq<UdpPacket>, room': nat) {
    && queue' == queue + ps[..Min(room, |ps|)]
    && room' == room - Min(room, |ps|)
  }

  // ---------------------------------------------------------------- with the SOCKS5 socket

  lemma ParsePrefix(r: Request, tail: bytes)
    requires Expressible(r.target)
    ensures ParseRequest(EncodeRequest(r) + tail) == Some(r.(payload := r.payload + tail))
  {
    var r' := r.(payload := r.payload + tail);
    ParseEncoded(r');
    var head := RequestHeader(r.frag, r.target);
    assert (head + r.payload) + tail == head + (r.payload + tail);
  }

  /** One request in a buffer comes out as one packet with its payload and, for an IP address,
      its destination. */
  lemma RequestForwarded(lossy: Lossy, r: Request, f: Filled)
    requires Expressible(r.target) && Sane(f) && f.buf[..f.meta.len] == EncodeRequest(r)
    requires f.meta.stride == 0 || f.meta.len <= f.meta.stride
    ensures var s := Strip(lossy, f);
            var p := Forwarded(s.payload, s.meta);
            && |p| == 1 && p[0].payload == r.payload
            && (r.target.Ip? ==> p[0].target == FromSocket(r.target.addr))
            && (r.target.Name? ==> p[0].target == FromSocket(f.meta.addr))
  {
    ParseEncoded(r);
    assert |r.payload| <= |EncodeRequest(r)| == f.meta.len;
    SegmentsPartition(r.payload, f.meta.stride);
    var s := Strip(lossy, f);
    assert s.payload == r.payload && s.meta.destination == Some(Destination(lossy, r.target));
    assert Segments(s.payload, s.meta.stride) == [r.payload];
    assert Forwarded(s.payload, s.meta) == [UdpPacket(None, ForwardTarget(s.meta), r.payload)];
  }

  // ---------------------------------------------------------------- coalesced requests

  predicate AllExpressible(rs: seq<Request>) {
    forall i :: 0 <= i < |rs| ==> Expressible(rs[i].target)
  }

  function EncodeAll(rs: seq<Request>): (b: bytes)
    requires AllExpressible(rs)
  {
    if rs == [] then [] else EncodeRequest(rs[0]) + EncodeAll(rs[1..])
  }

  function PayloadsOf(rs: seq<Request>): (s: seq<bytes>) {
    seq(|rs|, i requires 0 <= i < |rs| => rs[i].payload)
  }

  lemma {:induction false} HeadersCost(rs: seq<Request>)
    requires AllExpressible(rs)
    ensures |EncodeAll(rs)| >= |Flatten(PayloadsOf(rs))| + |rs|
    decreases |rs|
  {
    if rs != [] {
      HeadersCost(rs[1..]);
      assert PayloadsOf(rs)[1..] == PayloadsOf(rs[1..]);
    }
  }

  /** Any number of requests in one buffer: only the first header is stripped, so what is forwarded
      is their payloads exactly if there is one of them. */
  lemma CoalescedHeaderLeaks(lossy: Lossy, rs: seq<Request>, f: Filled)
    requires rs != [] && AllExpressible(rs) && Sane(f) && f.buf[..f.meta.len] == EncodeAll(rs)
    ensures var s := Strip(lossy, f);
            var out := Flatten(Segments(s.payload, s.meta.stride));
            && out == rs[0].payload + EncodeAll(rs[1..])
            && (|rs| > 1 ==> |out| > |Flatten(PayloadsOf(rs))|)
            && (out == Flatten(PayloadsOf(rs)) <==> |rs| == 1)
  {
    var rest := EncodeAll(rs[1..]);
    ParsePrefix(rs[0], rest);
    SegmentsPartition(rs[0].payload + rest, f.meta.stride);
    HeadersCost(rs[1..]);
    assert PayloadsOf(rs)[1..] == PayloadsOf(rs[1..]);
    assert Flatten(PayloadsOf(rs)) == rs[0].payload + Flatten(PayloadsOf(rs[1..]));
  }

  /** What the kernel may coalesce: every datagram but the last one stride long, the last at most. */
  predicate Coalesced(rs: seq<Request>, stride: nat) {
    && rs != [] && AllExpressible(rs)
    && (forall i :: 0 <= i < |rs| - 1 ==> |EncodeRequest(rs[i])| == stride)
    && |EncodeRequest(rs[|rs| - 1])| <= stride
  }

  lemma CoalescedLength(rs: seq<Request>, stride: nat)
    requires Coalesced(rs, stride)
    ensures |EncodeAll(rs)| <= stride <==> |rs| == 1
  {
    if |rs| > 1 {
      HeadersCost(rs[1..]);
    } else {
      assert EncodeAll(rs) == EncodeRequest(rs[0]) + [];
    }
  }

  /** What section 7 of RFC 1928 asks of a relay that does not support fragments: every request with
      FRAG 0 goes to its destination, the others are dropped. */
  function Conforming(lossy: Lossy, rs: seq<Request>): (ps: seq<UdpPacket>) {
    if rs == [] then []
    else
      var rest := Conforming(lossy, rs[1..]);
      if rs[0].frag == 0 then [UdpPacket(None, Destination(lossy, rs[0].target), rs[0].payload)] + rest else rest
  }

  function PayloadsIn(ps: seq<UdpPacket>): (s: seq<bytes>) {
    seq(|ps|, i requires 0 <= i < |ps| => ps[i].payload)
  }

  lemma {:induction false} ConformingLength(lossy: Lossy, rs: seq<Request>)
    ensures |Flatten(PayloadsIn(Conforming(lossy, rs)))| <= |Flatten(PayloadsOf(rs))|
    decreases |rs|
  {
    if rs != [] {
      ConformingLength(lossy, rs[1..]);
      assert PayloadsOf(rs)[1..] == PayloadsOf(rs[1..]);
      if rs[0].frag == 0 {
        assert PayloadsIn(Conforming(lossy, rs))[1..] == PayloadsIn(Conforming(lossy, rs[1..]));
      }
    }
  }

  /** A buffer of coalesced requests comes out as their payloads one by one exactly if it is no longer
      than a stride. It is relayed as the RFC asks exactly if besides the request is not a fragment
      and names an IP address. */
  lemma ConformsIff(lossy: Lossy, rs: seq<Request>, f: Filled)
    requires Sane(f) && Coalesced(rs, f.meta.stride) && f.buf[..f.meta.len] == EncodeAll(rs)
    ensures var s := Strip(lossy, f);
            var p := Forwarded(s.payload, s.meta);
            && (PayloadsIn(p) == PayloadsOf(rs) <==> f.meta.len <= f.meta.stride)
            && (p == Conforming(lossy, rs) <==> f.meta.len <= f.meta.stride && rs[0].frag == 0 && rs[0].target.Ip?)
  {
    var s := Strip(lossy, f);
    var p := Forwarded(s.payload, s.meta);
    CoalescedLength(rs, f.meta.stride);
    CoalescedHeaderLeaks(lossy, rs, f);
    ConformingLength(lossy, rs);
    assert PayloadsIn(p) == Segments(s.payload, s.meta.stride);
    if |rs| == 1 {
      assert EncodeAll(rs) == EncodeRequest(rs[0]) + [];
      RequestForwarded(lossy, rs[0], f);
      assert PayloadsOf(rs) == [rs[0].payload];
      OneRequest(lossy, rs[0]);
      assert rs == [rs[0]];
    }
  }

  lemma OneRequest(lossy: Lossy, r: Request)
    ensures Conforming(lossy, [r])
         == if r.frag == 0 then [UdpPacket(None, Destination(lossy, r.target), r.payload)] else []
  {
    assert [r][1..] == [];
  }

  // ---------------------------------------------------------------- the reading task

  /** Up to the first empty datagram. */
  function Live(inputs: seq<Filled>): (n: nat)
    ensures n <= |inputs| && forall i :: 0 <= i < n ==> inputs[i].meta.len > 0
    ensures n < |inputs| ==> inputs[n].meta.len == 0
    ensures n == |inputs| <==> forall i :: 0 <= i < |inputs| ==> inputs[i].meta.len > 0
  {
    if inputs == [] || inputs[0].meta.len == 0 then 0 else 1 + Live(inputs[1..])
  }

  function ForwardedOf(lossy: Lossy, f: Filled): (ps: seq<UdpPacket>)
    requires Sane(f)
  {
    var s := Strip(lossy, f);
    Forwarded(s.payload, s.meta)
  }

  /** What each datagram gives. */
  function EachForwarded(lossy: Lossy, inputs: seq<Filled>): (pss: seq<seq<UdpPacket>>)
    requires forall i :: 0 <= i < |inputs| ==> Sane(inputs[i])
    ensures |pss| == |inputs| && forall i :: 0 <= i < |inputs| ==> pss[i] == ForwardedOf(lossy, inputs[i])
  {
    seq(|inputs|, i requires 0 <= i < |inputs| => ForwardedOf(lossy, inputs[i]))
  }

  function Concat(pss: seq<seq<UdpPacket>>): (ps: seq<UdpPacket>) {
    if pss == [] then [] else Concat(pss[..|pss| - 1]) + pss[|pss| - 1]
  }

  lemma ConcatSnoc(pss: seq<seq<UdpPacket>>, i: nat)
    requires i < |pss|
    ensures Concat(pss[..i + 1]) == Concat(pss[..i]) + pss[i]
  {
    assert pss[..i + 1][..i] == pss[..i];
  }

  lemma {:induction false} ConcatGrows(pss: seq<seq<UdpPacket>>, i: nat, j: nat)
    requires i <= j <= |pss|
    ensures Concat(pss[..i]) <= Concat(pss[..j])
    decreases j
  {
    if i < j {
      ConcatGrows(pss, i, j - 1);
      ConcatSnoc(pss, j - 1);
    }
  }

  /** One turn: `recv` must give exactly one datagram, which is then forwarded. A closed channel ends
      the task only if there was one segment. */
  method ReadOne(lossy: Lossy, f: Filled, socket: Socks5UdpSocket, buf: array<uint8>, ch: Channel) returns (go: bool)
    requires Sane(f) && |f.buf| == buf.Length
    modifies socket, buf, ch
    ensures f.meta.len == 0 ==> !go && ch.queue == old(ch.queue) && ch.room == old(ch.room)
    ensures f.meta.len > 0 ==> Took(old(ch.queue), old(ch.room), ForwardedOf(lossy, f), ch.queue, ch.room)
    ensures f.meta.len > 0 && !go ==> old(ch.room) < |ForwardedOf(lossy, f)|
  {
    var meta := new RecvMeta[1](_ => RecvMeta(V4([0, 0, 0, 0], 0), 0, 0, None));
    var count := socket.PollRecv(lossy, [f], [buf], meta);
    if count != 1 {
      return false;
    }
    ghost var s := Strip(lossy, f);
    assert StripAll(lossy, [f]) == [s];
    var m := meta[0];
    assert m == s.meta && buf[..m.len] == s.payload;
    var ok := ForwardBuffer(buf, m, ch);
    go := ok || (m.stride > 0 && m.len > m.stride);
  }

  /** The task that reads from the SOCKS5 socket. What it hands on is the packets before the first empty
      datagram, all of them or as many as the channel takes before it is closed. */
  method ReadTask(lossy: Lossy, inputs: seq<Filled>, socket: Socks5UdpSocket, buf: array<uint8>, ch: Channel)
    requires forall i :: 0 <= i < |inputs| ==> Sane(inputs[i]) && |inputs[i].buf| == buf.Length
    modifies socket, buf, ch
    ensures Took(old(ch.queue), old(ch.room), Concat(EachForwarded(lossy, inputs)[..Live(inputs)]), ch.queue, ch.room)
  {
    ghost var queue, room, pss, live := ch.queue, ch.room, EachForwarded(lossy, inputs), Live(inputs);
    var i := 0;
    while i < |inputs|
      invariant i <= live && Took(queue, room, Concat(pss[..i]), ch.queue, ch.room)
    {
      var go := ReadNext(lossy, inputs[i], socket, buf, ch, queue, room, pss, i, live);
      if !go {
        return;
      }
      i := i + 1;
    }
    assert live == i;
  }

  method ReadNext(lossy: Lossy, f: Filled, socket: Socks5UdpSocket, buf: array<uint8>, ch: Channel,
                  ghost queue: seq<UdpPacket>, ghost room: nat, ghost pss: seq<seq<UdpPacket>>,
                  ghost i: nat, ghost live: nat)
    returns (go: bool)
    requires Sane(f) && |f.buf| == buf.Length && i <= live <= |pss| && i < |pss|
    requires pss[i] == ForwardedOf(lossy, f) && (f.meta.len > 0 <==> i < live)
    requires Took(queue, room, Concat(pss[..i]), ch.queue, ch.room)
    modifies socket, buf, ch
    ensures go ==> i < live && Took(queue, room, Concat(pss[..i + 1]), ch.queue, ch.room)
    ensures !go ==> Took(queue, room, Concat(pss[..live]), ch.queue, ch.room)
  {
    ghost var queue1, room1 := ch.queue, ch.room;
    go := ReadOne(lossy, f, socket, buf, ch);
    if f.meta.len > 0 {
      ConcatSnoc(pss, i);
      TookMore(queue, room, Concat(pss[..i]), queue1, room1, pss[i], ch.queue, ch.room);
      if !go {
        ConcatGrows(pss, i + 1, live);
        ClosedForGood(queue, room, Concat(pss[..i + 1]), Concat(pss[..live]), ch.queue, ch.room);
      }
    }
  }

  /** Taking some packets and then some more. */
  lemma TookMore(queue: seq<UdpPacket>, room: nat, ps: seq<UdpPacket>, queue1: seq<UdpPacket>, room1: nat,
                 more: seq<UdpPacket>, queue2: seq<UdpPacket>, room2: nat)
    requires Took(queue, room, ps, queue1, room1) && Took(queue1, room1, more, queue2, room2)
    ensures Took(queue, room, ps + more, queue2, room2)
    ensures room1 < |more| ==> room < |ps + more|
  {
    var all := ps + more;
    if room1 == 0 {
      assert all[..Min(room, |all|)] == ps[..Min(room, |ps|)];
    } else {
      assert all[..Min(room, |all|)] == ps + more[..Min(room1, |more|)];
    }
  }

  /** A channel that has been closed takes nothing of what the rest would give. */
  lemma ClosedForGood(queue: seq<UdpPacket>, room: nat, ps: seq<UdpPacket>, all: seq<UdpPacket>,
                      queue': seq<UdpPacket>, room': nat)
    requires ps <= all && room <= |ps| && Took(queue, room, ps, queue', room')
    ensures Took(queue, room, all, queue', room')
  {
    assert all[..room] == ps[..room];
  }
}
