/** The codecs as they run: reading from and appending to a growable byte buffer in
    place, each proved to do what the functions of `Codec` say. */
module WireBuffer {
  import opened Bytes
  import opened Target
  import opened Codec

  class BytesMut {
    var data: bytes

    constructor (contents: bytes)
      ensures data == contents
    {
      data := contents;
    }

    method Advance(n: nat)
      requires n <= |data|
      modifies this
      ensures data == old(data)[n..]
    {
      data := data[n..];
    }

    method GetU8() returns (b: uint8)
      requires |data| >= 1
      modifies this
      ensures b == old(data)[0] && data == old(data)[1..]
    {
      b := data[0];
      data := data[1..];
    }

    method GetU16() returns (v: uint16)
      requires |data| >= 2
      modifies this
      ensures v == FromBE16(old(data)[0], old(data)[1]) && data == old(data)[2..]
    {
      v := FromBE16(data[0], data[1]);
      data := data[2..];
    }

    method CopyToSlice(n: nat) returns (s: bytes)
      requires n <= |data|
      modifies this
      ensures s == old(data)[..n] && data == old(data)[n..]
    {
      s := data[..n];
      data := data[n..];
    }

    method PutU8(b: uint8)
      modifies this
      ensures data == old(data) + [b]
    {
      data := data + [b];
    }

    method PutU16(v: uint16)
      modifies this
      ensures data == old(data) + BE16(v)
    {
      data := data + BE16(v);
    }

    method PutSlice(s: bytes)
      modifies this
      ensures data == old(data) + s
    {
      data := data + s;
    }
  }

  // ---------------------------------------------------------------- decoding

  method ReadHeader(src: BytesMut) returns (out: Outcome<Header>)
    modifies src
    ensures Decoded(out, src.data) == DecodeHeader(old(src.data))
  {
    if |src.data| < 2 {
      return NeedMore;
    }
    var ver := src.GetU8();
    if ver != VER {
      return Error(VersionDismatch(VER, ver));
    }
    var b := src.GetU8();
    var cmd := CmdTypeOf(b);
    if cmd.OtherType? {
      return Error(UnknownCommandType(CmdTypeByte(cmd)));
    }
    return Item(Header(VER, cmd));
  }

  method ReadCommand(t: CmdType, src: BytesMut) returns (out: Outcome<Command>)
    modifies src
    ensures Decoded(out, src.data) == DecodeCommand(t, old(src.data))
  {
    match t {
      case AuthType =>
        if |src.data| < 16 + 32 {
          return NeedMore;
        }
        var uuid := src.CopyToSlice(16);
        var token := src.CopyToSlice(32);
        assert token == old(src.data)[16..48] && src.data == old(src.data)[48..];
        return Item(Auth(uuid, token));
      case ConnectType => return Item(Connect);
      case PacketType =>
        if |src.data| < 8 {
          return NeedMore;
        }
        var assocId := src.GetU16();
        var pktId := src.GetU16();
        var fragTotal := src.GetU8();
        var fragId := src.GetU8();
        var size := src.GetU16();
        return Item(Packet(assocId, pktId, fragTotal, fragId, size));
      case DissociateType =>
        if |src.data| < 2 {
          return NeedMore;
        }
        var assocId := src.GetU16();
        return Item(Dissociate(assocId));
      case HeartbeatType => return Item(Heartbeat);
      case OtherType(v) => return Error(UnknownCommandType(v));
    }
  }

  method ReadDomain(src: BytesMut) returns (out: Outcome<Address>)
    requires src.data != [] && src.data[0] == DOMAIN_TYPE
    modifies src
    ensures Decoded(out, src.data) == DecodeAddress(old(src.data))
  {
    if |src.data| < 2 {
      return NeedMore;
    }
    var n: nat := src.data[1];
    if |src.data| < 1 + 1 + n + 2 {
      return NeedMore;
    }
    ghost var s := src.data;
    src.Advance(2);
    var name := src.data[..n];
    assert name == s[2..2 + n];
    if !ValidUtf8(name) {
      return Error(FailParseDomain(name));
    }
    src.Advance(n);
    var port := src.GetU16();
    assert src.data == s[4 + n..];
    return Item(Addr(Domain(name, port)));
  }

  method ReadAddress(src: BytesMut) returns (out: Outcome<Address>)
    modifies src
    ensures Decoded(out, src.data) == DecodeAddress(old(src.data))
  {
    if src.data == [] {
      return NeedMore;
    }
    var addrType := src.data[0];
    if addrType == NONE_TYPE {
      src.Advance(1);
      return Item(NoAddress);
    } else if addrType == IPV4_TYPE {
      if |src.data| < 1 + 4 + 2 {
        return NeedMore;
      }
      src.Advance(1);
      var ip := src.CopyToSlice(4);
      var port := src.GetU16();
      assert ip == old(src.data)[1..5] && src.data == old(src.data)[7..];
      return Item(Addr(IPv4(ip, port)));
    } else if addrType == IPV6_TYPE {
      if |src.data| < 1 + 16 + 2 {
        return NeedMore;
      }
      src.Advance(1);
      var ip := src.CopyToSlice(16);
      var port := src.GetU16();
      assert ip == old(src.data)[1..17] && src.data == old(src.data)[19..];
      return Item(Addr(IPv6(ip, port)));
    } else if addrType == DOMAIN_TYPE {
      out := ReadDomain(src);
    } else {
      return Error(UnknownAddressType(addrType));
    }
  }

  /** The decoding part of the datagram branch of `start_poll`. */
  method ReadDatagram(datagram: bytes) returns (p: Parsed)
    ensures p == Parse(datagram)
  {
    var buf := new BytesMut(datagram);
    var header := ReadHeader(buf);
    if !header.Item? {
      return Malformed;
    }
    var cmd := ReadCommand(header.value.command, buf);
    if !cmd.Item? {
      return Malformed;
    }
    if !cmd.value.Packet? {
      return NotPacket(cmd.value);
    }
    var addr := ReadAddress(buf);
    if !addr.Item? {
      return Malformed;
    }
    if cmd.value.size > |buf.data| {
      return Overrun(cmd.value);
    }
    var payload := buf.CopyToSlice(cmd.value.size);
    return Fragment(cmd.value, addr.value, payload);
  }

  // ---------------------------------------------------------------- encoding

  method WriteHeader(h: Header, dst: BytesMut)
    modifies dst
    ensures dst.data == old(dst.data) + EncodeHeader(h)
  {
    dst.PutU8(h.version);
    dst.PutU8(CmdTypeByte(h.command));
  }

  method WriteCommand(c: Command, dst: BytesMut)
    modifies dst
    ensures dst.data == old(dst.data) + EncodeCommand(c)
  {
    match c {
      case Auth(uuid, token) =>
        dst.PutSlice(uuid);
        dst.PutSlice(token);
      case Connect =>
      case Packet(assocId, pktId, fragTotal, fragId, size) =>
        dst.PutU16(assocId);
        dst.PutU16(pktId);
        dst.PutU8(fragTotal);
        dst.PutU8(fragId);
        dst.PutU16(size);
      case Dissociate(assocId) =>
        dst.PutU16(assocId);
      case Heartbeat =>
    }
  }

  /** A domain of more than 255 bytes is refused and nothing is written. */
  method WriteAddress(a: Address, dst: BytesMut) returns (error: Option<ProtoError>)
    modifies dst
    ensures error.None? <==> EncodableAddress(a)
    ensures EncodableAddress(a) ==> dst.data == old(dst.data) + EncodeAddress(a)
    ensures !EncodableAddress(a) ==> error == Some(DomainTooLong(a.addr.name)) && dst.data == old(dst.data)
  {
    match a {
      case NoAddress =>
        dst.PutU8(NONE_TYPE);
      case Addr(IPv4(ip, port)) =>
        dst.PutU8(IPV4_TYPE);
        dst.PutSlice(ip);
        dst.PutU16(port);
      case Addr(IPv6(ip, port)) =>
        dst.PutU8(IPV6_TYPE);
        dst.PutSlice(ip);
        dst.PutU16(port);
      case Addr(Domain(name, port)) =>
        if |name| > 0xFF {
          return Some(DomainTooLong(name));
        }
        dst.PutU8(DOMAIN_TYPE);
        dst.PutU8(|name|);
        dst.PutSlice(name);
        dst.PutU16(port);
    }
    return None;
  }

  /** One datagram: header, command and address in a fresh buffer, then the payload. */
  method WriteDatagram(assocId: uint16, pktId: uint16, fragTotal: uint8, fragId: uint8, a: Address, chunk: bytes)
    returns (datagram: bytes)
    requires EncodableAddress(a)
    ensures datagram == Datagram(assocId, pktId, fragTotal, fragId, a, chunk)
  {
    var buf := new BytesMut([]);
    WriteHeader(Header(VER, PacketType), buf);
    WriteCommand(Packet(assocId, pktId, fragTotal, fragId, AsU16(|chunk|)), buf);
    var error := WriteAddress(a, buf);
    datagram := buf.data + chunk;
  }
}
