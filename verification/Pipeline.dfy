/** The whole way of a datagram: from the application's SOCKS5 request to the receive channel. */
module Pipeline {
  import opened Bytes
  import opened Target
  import opened SocksUdp
  import opened Gro
  import opened Sender
  import opened EndToEnd
  import opened RoundTrip

  /** A SOCKS5 request to an IP address, alone in its buffer: the header is stripped, the payload
      forwarded, sent whole or in fragments, and whatever order its datagrams arrive in, exactly its
      destination and its payload come out at the other end. */
  lemma RequestDelivered(lossy: Lossy, r: Request, f: Filled, op: SendOp, a: uint16, id: uint16,
                         ss: Sessions, js: seq<uint8>, arrivals: seq<Arrival>)
    requires Expressible(r.target) && r.target.Ip? && Sane(f) && f.buf[..f.meta.len] == EncodeRequest(r)
    requires f.meta.stride == 0 || f.meta.len <= f.meta.stride
    requires var s := Strip(lossy, f); Forwarded(s.payload, s.meta) == [UdpPacket(None, op.target, op.payload)]
    requires Runnable(op) && Faithful(op) && Launched(id, op).Some? && a in ss && (a, id) !in ss[a].buf
    requires Carries(a, Launched(id, op).value, js, arrivals)
    requires var all := All(Launched(id, op).value);
             js != [] && PieceSet(js[..|js| - 1]) != all && PieceSet(js) == all
    ensures Handle(ss, arrivals)
         == Some(ss[a := Stream(ss[a].buf, ss[a].received + [UdpPacket(None, FromSocket(r.target.addr), r.payload)])])
  {
    RequestForwarded(lossy, r, f);
    SendReceive(a, id, op, ss, js, arrivals);
  }
}
