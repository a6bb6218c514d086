/** The SOCKS5 UDP request header (section 7 of RFC 1928) and the socket that strips it. */
module SocksUdp {
  import opened Bytes
  import opened Target

  datatype SocketAddr = V4(ip4: octets4, port: uint16) | V6(ip6: octets16, port: uint16)

  /** A parsed request. `name` has the bytes of a domain as they stand in the header. */
  datatype SocksAddr = Ip(addr: SocketAddr) | Name(name: bytes, port: uint16)

  datatype Request = Request(frag: uint8, target: SocksAddr, payload: bytes)

  const ATYP_V4: uint8 := 1
  const ATYP_NAME: uint8 := 3
  const ATYP_V6: uint8 := 4

  // ---------------------------------------------------------------- the header

  predicate Expressible(a: SocksAddr) {
    a.Name? ==> |a.name| <= 255
  }

  /** The header as RFC 1928 lays it out: two reserved bytes, FRAG, ATYP, address, port. */
  function RequestHeader(frag: uint8, target: SocksAddr): (b: bytes)
    requires Expressible(target)
    ensures |b| > 0
  {
    [0, 0, frag] + match target
                   case Ip(V4(ip, port)) => [ATYP_V4] + ip + BE16(port)
                   case Ip(V6(ip, port)) => [ATYP_V6] + ip + BE16(port)
                   case Name(name, port) => [ATYP_NAME, |name|] + name + BE16(port)
  }

  function EncodeRequest(r: Request): (b: bytes)
    requires Expressible(r.target)
  {
    RequestHeader(r.frag, r.target) + r.payload
  }

  ghost predicate IsRequest(data: bytes) {
    exists r: Request :: Expressible(r.target) && EncodeRequest(r) == data
  }

  /** Every request byte by byte: ATYP is 1 for IPv4, 3 for a domain name and 4 for IPv6. */
  lemma RequestLayout(frag: uint8, target: SocksAddr, payload: bytes)
    requires Expressible(target)
    ensures var e := EncodeRequest(Request(frag, target, payload));
            && |e| >= 7 && e[0] == 0 && e[1] == 0 && e[2] == frag
            && match target
               case Ip(V4(ip, port)) =>
                 e[3] == 0x01 && e[4..8] == ip && 0x100 * (e[8] as int) + e[9] as int == port && e[10..] == payload
               case Ip(V6(ip, port)) =>
                 && |e| >= 22 && e[3] == 0x04 && e[4..20] == ip
                 && 0x100 * (e[20] as int) + e[21] as int == port && e[22..] == payload
               case Name(name, port) =>
                 && |e| >= 7 + |name| && e[3] == 0x03 && e[4] == |name| && e[5..5 + |name|] == name
                 && 0x100 * (e[5 + |name|] as int) + e[6 + |name|] as int == port && e[7 + |name|..] == payload
  {
  }

  function ParseRequest(data: bytes): (r: Option<Request>) {
    if |data| < 4 || data[0] != 0 || data[1] != 0 then None
    else if data[3] == ATYP_V4 then
      if |data| < 10 then None
      else Some(Request(data[2], Ip(V4(data[4..8], FromBE16(data[8], data[9]))), data[10..]))
    else if data[3] == ATYP_NAME then
      var n: int := if |data| < 5 then 0 else data[4];
      if |data| < 5 || |data| < 7 + n then None
      else Some(Request(data[2], Name(data[5..5 + n], FromBE16(data[5 + n], data[6 + n])), data[7 + n..]))
    else if data[3] == ATYP_V6 then
      if |data| < 22 then None
      else Some(Request(data[2], Ip(V6(data[4..20], FromBE16(data[20], data[21]))), data[22..]))
    else None
  }

  lemma ParseEncoded(r: Request)
    requires Expressible(r.target)
    ensures ParseRequest(EncodeRequest(r)) == Some(r)
  {
    var d := EncodeRequest(r);
    match r.target
    case Ip(V4(ip, port)) => assert d[4..8] == ip; assert d[10..] == r.payload;
    case Ip(V6(ip, port)) => assert d[4..20] == ip; assert d[22..] == r.payload;
    case Name(name, port) =>
      var n := |name|;
      assert d[4] == n && d[5 + n] == BE16(port)[0] && d[6 + n] == BE16(port)[1];
      assert d[5..5 + n] == name;
      assert d[7 + n..] == r.payload;
  }

  /** What the parser makes of the three kinds of requests, and of an address type it does not know. */
  lemma ParseLayout(frag: uint8, ip4: octets4, ip6: octets16, name: bytes, port: uint16, payload: bytes)
    ensures ParseRequest([0, 0, frag, 0x01] + ip4 + BE16(port) + payload)
         == Some(Request(frag, Ip(V4(ip4, port)), payload))
    ensures ParseRequest([0, 0, frag, 0x04] + ip6 + BE16(port) + payload)
         == Some(Request(frag, Ip(V6(ip6, port)), payload))
    ensures |name| <= 255 ==>
      ParseRequest([0, 0, frag, 0x03, |name|] + name + BE16(port) + payload)
      == Some(Request(frag, Name(name, port), payload))
    ensures forall atyp: uint8 :: atyp !in {1, 3, 4} ==> ParseRequest([0, 0, frag, atyp] + payload) == None
  {
    ParseV4Layout(frag, ip4, port, payload);
    ParseV6Layout(frag, ip6, port, payload);
    if |name| <= 255 {
      ParseNameLayout(frag, name, port, payload);
    }
  }

  lemma ParseV4Layout(frag: uint8, ip: octets4, port: uint16, payload: bytes)
    ensures ParseRequest([0, 0, frag, 0x01] + ip + BE16(port) + payload)
         == Some(Request(frag, Ip(V4(ip, port)), payload))
  {
    ParseEncoded(Request(frag, Ip(V4(ip, port)), payload));
    assert [0, 0, frag] + ([ATYP_V4] + ip + BE16(port)) == [0, 0, frag, 0x01] + ip + BE16(port);
  }

  lemma ParseV6Layout(frag: uint8, ip: octets16, port: uint16, payload: bytes)
    ensures ParseRequest([0, 0, frag, 0x04] + ip + BE16(port) + payload)
         == Some(Request(frag, Ip(V6(ip, port)), payload))
  {
    ParseEncoded(Request(frag, Ip(V6(ip, port)), payload));
    assert [0, 0, frag] + ([ATYP_V6] + ip + BE16(port)) == [0, 0, frag, 0x04] + ip + BE16(port);
  }

  lemma ParseNameLayout(frag: uint8, name: bytes, port: uint16, payload: bytes)
    requires |name| <= 255
    ensures ParseRequest([0, 0, frag, 0x03, |name|] + name + BE16(port) + payload)
         == Some(Request(frag, Name(name, port), payload))
  {
    ParseEncoded(Request(frag, Name(name, port), payload));
    assert [0, 0, frag] + ([ATYP_NAME, |name|] + name + BE16(port)) == [0, 0, frag, 0x03, |name|] + name + BE16(port);
  }

  lemma EncodeParsed(data: bytes)
    requires ParseRequest(data).Some?
    ensures Expressible(ParseRequest(data).value.target)
    ensures EncodeRequest(ParseRequest(data).value) == data
  {
  }

  /** The parser accepts exactly the well-formed requests, and reads out what was written in. */
  lemma ParserIsExact(data: bytes)
    ensures ParseRequest(data).Some? <==> IsRequest(data)
  {
    if ParseRequest(data).Some? {
      EncodeParsed(data);
    }
    if IsRequest(data) {
      var r: Request :| Expressible(r.target) && EncodeRequest(r) == data;
      ParseEncoded(r);
    }
  }

  /** `parse_udp_request_sync`, moving an offset through the packet. */
  method ParseUdpRequest(data: bytes) returns (r: Option<Request>)
    ensures r == ParseRequest(data)
  {
    if |data| < 4 {
      return None;
    }
    if data[0] != 0x00 || data[1] != 0x00 {
      return None;
    }
    var frag, atyp := data[2], data[3];
    var offset := 4;
    var target;
    if atyp == ATYP_V4 {
      if |data| < offset + 6 {
        return None;
      }
      var ip := data[offset..offset + 4];
      var port := FromBE16(data[offset + 4], data[offset + 5]);
      offset := offset + 6;
      target := Ip(V4(ip, port));
    } else if atyp == ATYP_NAME {
      if |data| < offset + 1 {
        return None;
      }
      var domainLen: nat := data[offset];
      offset := offset + 1;
      if |data| < offset + domainLen + 2 {
        return None;
      }
      var name := data[offset..offset + domainLen];
      offset := offset + domainLen;
      var port := FromBE16(data[offset], data[offset + 1]);
      offset := offset + 2;
      target := Name(name, port);
    } else if atyp == ATYP_V6 {
      if |data| < offset + 18 {
        return None;
      }
      var ip := data[offset..offset + 16];
      var port := FromBE16(data[offset + 16], data[offset + 17]);
      offset := offset + 18;
      target := Ip(V6(ip, port));
    } else {
      return None;
    }
    return Some(Request(frag, target, data[offset..]));
  }

  // ---------------------------------------------------------------- the receive loop

  /** What the kernel reports for one buffer, and what the socket passes on. */
  datatype RawMeta = RawMeta(addr: SocketAddr, len: nat, stride: nat)
  datatype RecvMeta = RecvMeta(addr: SocketAddr, len: nat, stride: nat, destination: Option<TargetAddr>)

  /** One filled temporary buffer. */
  datatype Filled = Filled(buf: bytes, meta: RawMeta)

  predicate Sane(f: Filled) {
    f.meta.len <= |f.buf|
  }

  /** `String::from_utf8_lossy` is a parameter: any function into well-formed strings. */
  type Lossy = bytes -> utf8

  function Destination(lossy: Lossy, a: SocksAddr): (t: TargetAddr) {
    match a
    case Ip(V4(ip, port)) => IPv4(ip, port)
    case Ip(V6(ip, port)) => IPv6(ip, port)
    case Name(name, port) => Domain(lossy(name), port)
  }

  /** One datagram as the application should see it: the header stripped, or as it is. */
  datatype Stripped = Stripped(payload: bytes, meta: RecvMeta)

  function Strip(lossy: Lossy, f: Filled): (s: Stripped)
    requires Sane(f)
    ensures |s.payload| <= f.meta.len
  {
    var data := f.buf[..f.meta.len];
    match ParseRequest(data)
    case Some(r) =>
      Stripped(r.payload, RecvMeta(f.meta.addr, |r.payload|, f.meta.stride, Some(Destination(lossy, r.target))))
    case None => Stripped(data, RecvMeta(f.meta.addr, |data|, f.meta.stride, None))
  }

  /** A request loses its header and gets its destination; anything else is left as it is. The sender
      and the stride go through in either case. */
  lemma StripIs(lossy: Lossy, f: Filled)
    requires Sane(f)
    ensures var m := Strip(lossy, f).meta;
            m.addr == f.meta.addr && m.len == |Strip(lossy, f).payload| && m.stride == f.meta.stride
    ensures !IsRequest(f.buf[..f.meta.len]) ==>
      Strip(lossy, f).payload == f.buf[..f.meta.len] && Strip(lossy, f).meta.destination == None
    ensures forall r: Request :: Expressible(r.target) && EncodeRequest(r) == f.buf[..f.meta.len] ==>
      && Strip(lossy, f).payload == r.payload
      && Strip(lossy, f).meta.destination
         == match r.target
            case Ip(V4(ip, port)) => Some(IPv4(ip, port))
            case Ip(V6(ip, port)) => Some(IPv6(ip, port))
            case Name(name, port) => Some(Domain(lossy(name), port))
  {
    ParserIsExact(f.buf[..f.meta.len]);
    forall r: Request | Expressible(r.target) && EncodeRequest(r) == f.buf[..f.meta.len]
      ensures ParseRequest(f.buf[..f.meta.len]) == Some(r)
    {
      ParseEncoded(r);
    }
  }

  function StripAll(lossy: Lossy, batch: seq<Filled>): (s: seq<Stripped>)
    requires forall i :: 0 <= i < |batch| ==> Sane(batch[i])
    ensures |s| <= |batch|
  {
    if batch == [] then []
    else
      var last := batch[|batch| - 1];
      var init := StripAll(lossy, batch[..|batch| - 1]);
      if last.meta.len > 0 then init + [Strip(lossy, last)] else init
  }

  function LastSource(batch: seq<Filled>, addr: SocketAddr): (a: SocketAddr) {
    if batch == [] then addr
    else if batch[|batch| - 1].meta.len > 0 then batch[|batch| - 1].meta.addr
    else LastSource(batch[..|batch| - 1], addr)
  }

  /** What comes of two batches one after the other is what comes of each; one datagram gives one, and
      an empty one none. */
  lemma {:induction false} StripAllAppend(lossy: Lossy, xs: seq<Filled>, ys: seq<Filled>, f: Filled)
    requires (forall i :: 0 <= i < |xs| ==> Sane(xs[i])) && forall i :: 0 <= i < |ys| ==> Sane(ys[i])
    ensures StripAll(lossy, xs + ys) == StripAll(lossy, xs) + StripAll(lossy, ys)
    ensures Sane(f) ==> StripAll(lossy, [f]) == if f.meta.len == 0 then [] else [Strip(lossy, f)]
    decreases |ys|
  {
    if ys == [] {
      assert xs + ys == xs;
    } else {
      var init := ys[..|ys| - 1];
      assert (xs + ys)[..|xs + ys| - 1] == xs + init;
      StripAllAppend(lossy, xs, init, f);
    }
  }

  /** The last datagram that is not empty decides, if there is one. */
  lemma {:induction false} LastSourceIs(batch: seq<Filled>, addr: SocketAddr, k: nat)
    requires k <= |batch| && forall i :: k <= i < |batch| ==> batch[i].meta.len == 0
    ensures k == 0 ==> LastSource(batch, addr) == addr
    ensures k > 0 && batch[k - 1].meta.len > 0 ==> LastSource(batch, addr) == batch[k - 1].meta.addr
    decreases |batch|
  {
    if k < |batch| {
      LastSourceIs(batch[..|batch| - 1], addr, k);
    }
  }

  /** Nothing is cut when no buffer is larger than an earlier one: a datagram moves forward only. */
  lemma {:induction false} NothingCut(lossy: Lossy, batch: seq<Filled>, sizes: seq<nat>, k: nat)
    requires |batch| <= |sizes| && forall i, j :: 0 <= i < j < |sizes| ==> sizes[i] >= sizes[j]
    requires forall i :: 0 <= i < |batch| ==> Sane(batch[i]) && batch[i].meta.len <= sizes[i]
    requires k < |StripAll(lossy, batch)|
    ensures var out := StripAll(lossy, batch)[k]; out.meta.len == |out.payload| <= sizes[k]
    decreases |batch|
  {
    var init := batch[..|batch| - 1];
    if k < |StripAll(lossy, init)| {
      NothingCut(lossy, init, sizes, k);
    }
  }

  /** Entry `k` of the output is what datagram number `k` of the non-empty ones should become, cut
      to the room there is. */
  ghost predicate Holds(out: Stripped, buf: array<uint8>, meta: RecvMeta)
    reads buf
  {
    var n := if |out.payload| <= buf.Length then |out.payload| else buf.Length;
    buf[..n] == out.payload[..n] && meta == out.meta.(len := n)
  }

  /** Entry `k` of the output with nothing cut off. */
  ghost predicate Whole(out: Stripped, buf: array<uint8>, meta: RecvMeta)
    reads buf
  {
    |out.payload| <= buf.Length && buf[..|out.payload|] == out.payload && meta == out.meta && meta.len == |out.payload|
  }

  class Socks5UdpSocket {
    var sourceAddr: SocketAddr

    constructor ()
      ensures sourceAddr == V4([0, 0, 0, 0], 0)
    {
      sourceAddr := V4([0, 0, 0, 0], 0);
    }

    /** Parse one datagram and copy what is left of it to its place in the output. */
    method Place(lossy: Lossy, f: Filled, buf: array<uint8>, meta: array<RecvMeta>, k: nat)
      requires k < meta.Length && Sane(f)
      modifies buf, meta
      ensures Holds(Strip(lossy, f), buf, meta[k])
      ensures forall j :: 0 <= j < meta.Length && j != k ==> meta[j] == old(meta[j])
    {
      var data := f.buf[..f.meta.len];
      var parsed := ParseUdpRequest(data);
      match parsed {
        case Some(r) =>
          var n := if |r.payload| <= buf.Length then |r.payload| else buf.Length;
          forall x | 0 <= x < n {
            buf[x] := r.payload[x];
          }
          meta[k] := RecvMeta(f.meta.addr, n, f.meta.stride, Some(Destination(lossy, r.target)));
        case None =>
          var n := if f.meta.len <= buf.Length then f.meta.len else buf.Length;
          forall x | 0 <= x < n {
            buf[x] := data[x];
          }
          meta[k] := RecvMeta(f.meta.addr, n, f.meta.stride, None);
      }
    }

    /** The loop of `poll_recv` over the buffers that were filled: empty datagrams are skipped and
        the rest are compacted to the front. */
    method Compact(lossy: Lossy, batch: seq<Filled>, bufs: seq<array<uint8>>, meta: array<RecvMeta>)
      returns (count: nat)
      requires |batch| <= |bufs| && |batch| <= meta.Length
      requires forall i :: 0 <= i < |batch| ==> Sane(batch[i])
      requires forall i, j :: 0 <= i < j < |bufs| ==> bufs[i] != bufs[j]
      modifies this, meta, set b | b in bufs
      ensures count == |StripAll(lossy, batch)|
      ensures forall k :: 0 <= k < count ==> Holds(StripAll(lossy, batch)[k], bufs[k], meta[k])
      ensures forall k :: count <= k < meta.Length ==> meta[k] == old(meta[k])
      ensures forall k :: count <= k < |bufs| ==> bufs[k][..] == old(bufs[k][..])
      ensures sourceAddr == LastSource(batch, old(sourceAddr))
    {
      count := 0;
      ghost var done: seq<Stripped> := [];
      assert batch[..0] == [];
      for i := 0 to |batch|
        invariant done == StripAll(lossy, batch[..i]) && count == |done|
        invariant forall k :: 0 <= k < count ==> Holds(done[k], bufs[k], meta[k])
        invariant forall k :: count <= k < meta.Length ==> meta[k] == old(meta[k])
        invariant forall k :: count <= k < |bufs| ==> bufs[k][..] == old(bufs[k][..])
        invariant sourceAddr == LastSource(batch[..i], old(sourceAddr))
      {
        OneMore(lossy, batch, i, old(sourceAddr));
        if batch[i].meta.len > 0 {
          sourceAddr := batch[i].meta.addr;
          Place(lossy, batch[i], bufs[count], meta, count);
          done := done + [Strip(lossy, batch[i])];
          count := count + 1;
        }
      }
      assert batch[..|batch|] == batch;
    }

    /** `poll_recv` once the kernel has filled temporary buffers, each as long as the caller's. When
        no buffer is larger than an earlier one, every datagram arrives whole. With one buffer there
        is one datagram, or none exactly if it was empty. */
    method PollRecv(lossy: Lossy, batch: seq<Filled>, bufs: seq<array<uint8>>, meta: array<RecvMeta>)
      returns (count: nat)
      requires |batch| <= |bufs| && |batch| <= meta.Length
      requires forall i :: 0 <= i < |batch| ==> Sane(batch[i]) && |batch[i].buf| == bufs[i].Length
      requires forall i, j :: 0 <= i < j < |bufs| ==> bufs[i] != bufs[j]
      modifies this, meta, set b | b in bufs
      ensures count == |StripAll(lossy, batch)| && sourceAddr == LastSource(batch, old(sourceAddr))
      ensures forall k :: 0 <= k < count ==> Holds(StripAll(lossy, batch)[k], bufs[k], meta[k])
      ensures (forall i, j :: 0 <= i < j < |bufs| ==> bufs[i].Length >= bufs[j].Length) ==>
        forall k :: 0 <= k < count ==> Whole(StripAll(lossy, batch)[k], bufs[k], meta[k])
      ensures |batch| == 1 ==> (count == 1 <==> batch[0].meta.len > 0)
    {
      count := Compact(lossy, batch, bufs, meta);
      if forall i, j :: 0 <= i < j < |bufs| ==> bufs[i].Length >= bufs[j].Length {
        ghost var sizes := seq(|bufs|, i requires 0 <= i < |bufs| => bufs[i].Length);
        forall k | 0 <= k < count
          ensures Whole(StripAll(lossy, batch)[k], bufs[k], meta[k])
        {
          NothingCut(lossy, batch, sizes, k);
        }
      }
    }
  }

  lemma OneMore(lossy: Lossy, batch: seq<Filled>, i: nat, addr: SocketAddr)
    requires i < |batch| && forall i :: 0 <= i < |batch| ==> Sane(batch[i])
    ensures StripAll(lossy, batch[..i + 1])
         == StripAll(lossy, batch[..i]) + if batch[i].meta.len > 0 then [Strip(lossy, batch[i])] else []
    ensures LastSource(batch[..i + 1], addr)
         == if batch[i].meta.len > 0 then batch[i].meta.addr else LastSource(batch[..i], addr)
  {
    assert batch[..i + 1][..i] == batch[..i];
  }
}
