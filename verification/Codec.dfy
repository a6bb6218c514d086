/** The TUIC v5 wire format: header, command and address, as functions on byte
    strings. A decoder returns what it found together with the bytes it leaves in
    the buffer, on errors too, because the source consumes some bytes before it
    notices them. */
module Codec {
  import opened Bytes
  import opened Target

  const VER: uint8 := 5

  datatype ProtoError =
    | VersionDismatch(expected: uint8, current: uint8)
    | UnknownCommandType(value: uint8)
    | UnknownAddressType(value: uint8)
    | FailParseDomain(raw: bytes)
    | DomainTooLong(domain: bytes)
    | BytesRemaining

  /** `Ok(None)`, `Ok(Some(item))` or `Err(error)`. */
  datatype Outcome<+T> = NeedMore | Item(value: T) | Error(error: ProtoError)

  datatype Decoded<+T> = Decoded(out: Outcome<T>, rest: bytes)

  /** `decode_eof`: a decoder that wants more bytes at the end of input fails. */
  function AtEof<T>(out: Outcome<T>): (r: Outcome<T>)
    ensures !r.NeedMore?
    ensures r == Error(BytesRemaining) <==> out.NeedMore? || out == Error(BytesRemaining)
  {
    if out.NeedMore? then Error(BytesRemaining) else out
  }

  // ---------------------------------------------------------------- header

  datatype CmdType =
    | AuthType | ConnectType | PacketType | DissociateType | HeartbeatType
    | OtherType(value: uint8)

  datatype Header = Header(version: uint8, command: CmdType)

  function CmdTypeByte(c: CmdType): (b: uint8) {
    match c
    case AuthType => 0
    case ConnectType => 1
    case PacketType => 2
    case DissociateType => 3
    case HeartbeatType => 4
    case OtherType(v) => v
  }

  function CmdTypeOf(b: uint8): (c: CmdType)
    ensures CmdTypeByte(c) == b
    ensures c.OtherType? <==> b > 4
  {
    if b == 0 then AuthType
    else if b == 1 then ConnectType
    else if b == 2 then PacketType
    else if b == 3 then DissociateType
    else if b == 4 then HeartbeatType
    else OtherType(b)
  }

  function EncodeHeader(h: Header): (b: bytes) {
    [h.version, CmdTypeByte(h.command)]
  }

  function DecodeHeader(src: bytes): (d: Decoded<Header>) {
    if |src| < 2 then Decoded(NeedMore, src)
    else if src[0] != VER then Decoded(Error(VersionDismatch(VER, src[0])), src[1..])
    else if src[1] > 4 then Decoded(Error(UnknownCommandType(src[1])), src[2..])
    else Decoded(Item(Header(VER, CmdTypeOf(src[1]))), src[2..])
  }

  /** The header codec is a bijection between the headers it can carry and the two-byte
      strings it accepts. */
  lemma HeaderRoundTrip(h: Header, tail: bytes)
    ensures DecodeHeader(EncodeHeader(h) + tail) == Decoded(Item(h), tail)
       <==> h.version == VER && !h.command.OtherType?
  {
  }

  lemma HeaderReencode(src: bytes)
    requires DecodeHeader(src).out.Item?
    ensures src == EncodeHeader(DecodeHeader(src).out.value) + DecodeHeader(src).rest
  {
  }

  /** The two bytes of every header, as the TUIC specification numbers the commands, read
      and written. */
  lemma HeaderLayout(tail: bytes)
    ensures EncodeHeader(Header(VER, AuthType)) == [0x05, 0x00]
    ensures EncodeHeader(Header(VER, ConnectType)) == [0x05, 0x01]
    ensures EncodeHeader(Header(VER, PacketType)) == [0x05, 0x02]
    ensures EncodeHeader(Header(VER, DissociateType)) == [0x05, 0x03]
    ensures EncodeHeader(Header(VER, HeartbeatType)) == [0x05, 0x04]
    ensures DecodeHeader([0x05, 0x00] + tail) == Decoded(Item(Header(5, AuthType)), tail)
    ensures DecodeHeader([0x05, 0x01] + tail) == Decoded(Item(Header(5, ConnectType)), tail)
    ensures DecodeHeader([0x05, 0x02] + tail) == Decoded(Item(Header(5, PacketType)), tail)
    ensures DecodeHeader([0x05, 0x03] + tail) == Decoded(Item(Header(5, DissociateType)), tail)
    ensures DecodeHeader([0x05, 0x04] + tail) == Decoded(Item(Header(5, HeartbeatType)), tail)
  {
    forall b: uint8
      ensures ([0x05, b] + tail)[2..] == tail
    {
    }
  }

  /** A wrong version is refused with the command byte still in the buffer, an unknown command with
      both bytes gone. */
  lemma HeaderRefused(version: uint8, command: uint8, tail: bytes)
    ensures version != 5 ==>
      DecodeHeader([version, command] + tail) == Decoded(Error(VersionDismatch(5, version)), [command] + tail)
    ensures version == 5 && command > 4 ==>
      DecodeHeader([version, command] + tail) == Decoded(Error(UnknownCommandType(command)), tail)
  {
    assert ([version, command] + tail)[1..] == [command] + tail;
    assert ([version, command] + tail)[2..] == tail;
  }

  // ---------------------------------------------------------------- command

  type octets32 = s: bytes | |s| == 32 witness seq(32, _ => 0)

  datatype Command =
    | Auth(uuid: octets16, token: octets32)
    | Connect
    | Packet(assocId: uint16, pktId: uint16, fragTotal: uint8, fragId: uint8, size: uint16)
    | Dissociate(assocId: uint16)
    | Heartbeat

  function TypeOf(c: Command): (t: CmdType)
    ensures !t.OtherType?
  {
    match c
    case Auth(_, _) => AuthType
    case Connect => ConnectType
    case Packet(_, _, _, _, _) => PacketType
    case Dissociate(_) => DissociateType
    case Heartbeat => HeartbeatType
  }

  function EncodeCommand(c: Command): (b: bytes) {
    match c
    case Auth(uuid, token) => uuid + token
    case Connect => []
    case Packet(assocId, pktId, fragTotal, fragId, size) =>
      BE16(assocId) + BE16(pktId) + [fragTotal, fragId] + BE16(size)
    case Dissociate(assocId) => BE16(assocId)
    case Heartbeat => []
  }

  function DecodeCommand(t: CmdType, src: bytes): (d: Decoded<Command>) {
    match t
    case AuthType =>
      if |src| < 48 then Decoded(NeedMore, src)
      else Decoded(Item(Auth(src[..16], src[16..48])), src[48..])
    case ConnectType => Decoded(Item(Connect), src)
    case PacketType =>
      if |src| < 8 then Decoded(NeedMore, src)
      else Decoded(Item(Packet(FromBE16(src[0], src[1]), FromBE16(src[2], src[3]), src[4], src[5],
                               FromBE16(src[6], src[7]))), src[8..])
    case DissociateType =>
      if |src| < 2 then Decoded(NeedMore, src)
      else Decoded(Item(Dissociate(FromBE16(src[0], src[1]))), src[2..])
    case HeartbeatType => Decoded(Item(Heartbeat), src)
    case OtherType(v) => Decoded(Error(UnknownCommandType(v)), src)
  }

  lemma CommandRoundTrip(c: Command, t: CmdType, tail: bytes)
    ensures t == TypeOf(c) ==> DecodeCommand(t, EncodeCommand(c) + tail) == Decoded(Item(c), tail)
    ensures t != TypeOf(c) ==> DecodeCommand(t, EncodeCommand(c) + tail).out != Item(c)
  {
    if t == TypeOf(c) {
      OwnType(c, tail);
    } else if DecodeCommand(t, EncodeCommand(c) + tail).out.Item? {
      CommandReencode(t, EncodeCommand(c) + tail);
    }
  }

  lemma OwnType(c: Command, tail: bytes)
    ensures DecodeCommand(TypeOf(c), EncodeCommand(c) + tail) == Decoded(Item(c), tail)
  {
    var e := EncodeCommand(c);
    var s := e + tail;
    assert s[|e|..] == tail;
    if c.Auth? {
      assert s[..16] == c.uuid && s[16..48] == c.token;
    }
  }

  /** The body of every command, byte by byte. */
  lemma CommandLayout(c: Command)
    ensures var e := EncodeCommand(c);
            match c
            case Auth(uuid, token) => |e| == 48 && e[..16] == uuid && e[16..] == token
            case Connect => e == []
            case Packet(assocId, pktId, fragTotal, fragId, size) =>
              && |e| == 8 && 0x100 * (e[0] as int) + e[1] as int == assocId
              && 0x100 * (e[2] as int) + e[3] as int == pktId && e[4] == fragTotal && e[5] == fragId
              && 0x100 * (e[6] as int) + e[7] as int == size
            case Dissociate(assocId) => |e| == 2 && 0x100 * (e[0] as int) + e[1] as int == assocId
            case Heartbeat => e == []
  {
  }

  lemma CommandReencode(t: CmdType, src: bytes)
    requires DecodeCommand(t, src).out.Item?
    ensures TypeOf(DecodeCommand(t, src).out.value) == t
    ensures src == EncodeCommand(DecodeCommand(t, src).out.value) + DecodeCommand(t, src).rest
  {
    if t.AuthType? {
      assert src == src[..16] + src[16..48] + src[48..];
    } else if t.PacketType? {
      assert src == [src[0], src[1]] + [src[2], src[3]] + [src[4], src[5]] + [src[6], src[7]] + src[8..];
    } else if t.DissociateType? {
      assert src == [src[0], src[1]] + src[2..];
    }
  }

  // ---------------------------------------------------------------- address

  datatype Address = NoAddress | Addr(addr: TargetAddr)

  const NONE_TYPE: uint8 := 0xFF
  const DOMAIN_TYPE: uint8 := 0
  const IPV4_TYPE: uint8 := 1
  const IPV6_TYPE: uint8 := 2

  /** The length byte of a domain name has room for 255. */
  predicate Encodable(t: TargetAddr) {
    t.Domain? ==> |t.name| <= 255
  }

  predicate EncodableAddress(a: Address) {
    a.Addr? ==> Encodable(a.addr)
  }

  function EncodeAddress(a: Address): (b: bytes)
    requires EncodableAddress(a)
  {
    match a
    case NoAddress => [NONE_TYPE]
    case Addr(IPv4(ip, port)) => [IPV4_TYPE] + ip + BE16(port)
    case Addr(IPv6(ip, port)) => [IPV6_TYPE] + ip + BE16(port)
    case Addr(Domain(name, port)) => [DOMAIN_TYPE, |name|] + name + BE16(port)
  }

  function DecodeAddress(src: bytes): (d: Decoded<Address>) {
    if src == [] then Decoded(NeedMore, src)
    else if src[0] == NONE_TYPE then Decoded(Item(NoAddress), src[1..])
    else if src[0] == IPV4_TYPE then
      if |src| < 7 then Decoded(NeedMore, src)
      else Decoded(Item(Addr(IPv4(src[1..5], FromBE16(src[5], src[6])))), src[7..])
    else if src[0] == IPV6_TYPE then
      if |src| < 19 then Decoded(NeedMore, src)
      else Decoded(Item(Addr(IPv6(src[1..17], FromBE16(src[17], src[18])))), src[19..])
    else if src[0] == DOMAIN_TYPE then
      var n: int := if |src| < 2 then 0 else src[1];
      if |src| < 2 || |src| < 4 + n then Decoded(NeedMore, src)
      else
        if ValidUtf8(src[2..2 + n]) then
          Decoded(Item(Addr(Domain(src[2..2 + n], FromBE16(src[2 + n], src[3 + n])))), src[4 + n..])
        else
          Decoded(Error(FailParseDomain(src[2..2 + n])), src[2..])
    else Decoded(Error(UnknownAddressType(src[0])), src)
  }

  lemma DomainRoundTrip(name: utf8, port: uint16, tail: bytes)
    requires |name| <= 255
    ensures DecodeAddress(EncodeAddress(Addr(Domain(name, port))) + tail)
         == Decoded(Item(Addr(Domain(name, port))), tail)
  {
    var s := EncodeAddress(Addr(Domain(name, port))) + tail;
    var n := |name|;
    assert s[0] == DOMAIN_TYPE && s[1] == n && s[2 + n] == BE16(port)[0] && s[3 + n] == BE16(port)[1];
    assert s[2..2 + n] == name;
    assert s[4 + n..] == tail;
  }

  lemma AddressRoundTrip(a: Address, tail: bytes)
    requires EncodableAddress(a)
    ensures DecodeAddress(EncodeAddress(a) + tail) == Decoded(Item(a), tail)
  {
    match a
    case NoAddress =>
      assert ([NONE_TYPE] + tail)[1..] == tail;
    case Addr(IPv4(ip, port)) =>
      var s := EncodeAddress(a) + tail;
      assert s[1..5] == ip && s[7..] == tail;
    case Addr(IPv6(ip, port)) =>
      var s := EncodeAddress(a) + tail;
      assert s[1..17] == ip && s[19..] == tail;
    case Addr(Domain(name, port)) => DomainRoundTrip(name, port, tail);
  }

  lemma DomainReencode(src: bytes, n: nat)
    requires |src| >= 2 && src[0] == DOMAIN_TYPE && src[1] == n && |src| >= 4 + n && ValidUtf8(src[2..2 + n])
    ensures src == EncodeAddress(Addr(Domain(src[2..2 + n], FromBE16(src[2 + n], src[3 + n])))) + src[4 + n..]
  {
  }

  lemma AddressReencode(src: bytes)
    requires DecodeAddress(src).out.Item?
    ensures EncodableAddress(DecodeAddress(src).out.value)
    ensures src == EncodeAddress(DecodeAddress(src).out.value) + DecodeAddress(src).rest
  {
    if src[0] == NONE_TYPE {
      assert src == [src[0]] + src[1..];
    } else if src[0] == IPV4_TYPE {
      assert src == [src[0]] + src[1..5] + [src[5], src[6]] + src[7..];
    } else if src[0] == IPV6_TYPE {
      assert src == [src[0]] + src[1..17] + [src[17], src[18]] + src[19..];
    } else {
      DomainReencode(src, src[1]);
    }
  }

  /** An unknown address type is refused with nothing consumed. */
  lemma UnknownAddressRefused(b: uint8, tail: bytes)
    requires 3 <= b <= 254
    ensures DecodeAddress([b] + tail) == Decoded(Error(UnknownAddressType(b)), [b] + tail)
  {
  }

  /** A name that is not UTF-8 is refused with its type and length byte gone. */
  lemma BadNameRefused(name: bytes, tail: bytes)
    requires |name| <= 255 && !ValidUtf8(name) && |tail| >= 2
    ensures DecodeAddress([0x00, |name|] + name + tail) == Decoded(Error(FailParseDomain(name)), name + tail)
  {
    var s := [0x00, |name|] + name + tail;
    NameWithin(name, tail);
    assert s[0] == 0 && s[1] == |name| && |s| >= 4 + |name|;
  }

  lemma NameWithin(name: bytes, tail: bytes)
    requires |name| <= 255
    ensures var s := [0x00, |name|] + name + tail; s[2..2 + |name|] == name && s[2..] == name + tail
  {
  }

  /** The rule of the TUIC specification for domain names: 1 to 255 bytes. */
  predicate MeetsLengthRule(a: Address) {
    a.Addr? && a.addr.Domain? ==> 1 <= |a.addr.name| <= 255
  }

  /** The decoder does not check that rule: an accepted address keeps it exactly if it is not a domain
      with length byte 0. */
  lemma LengthRuleIff(src: bytes)
    requires DecodeAddress(src).out.Item?
    ensures MeetsLengthRule(DecodeAddress(src).out.value) <==> !(src[0] == DOMAIN_TYPE && src[1] == 0)
  {
  }

  lemma EmptyDomainAccepted(port: uint16, tail: bytes)
    ensures DecodeAddress([DOMAIN_TYPE, 0] + BE16(port) + tail) == Decoded(Item(Addr(Domain([], port))), tail)
  {
    DomainRoundTrip([], port, tail);
    assert [DOMAIN_TYPE, 0] + [] + BE16(port) == [DOMAIN_TYPE, 0] + BE16(port);
  }

  // ---------------------------------------------------------------- whole messages

  /** What `send_udp` and `send_fragmented_packet` put in one datagram. */
  function Datagram(assocId: uint16, pktId: uint16, fragTotal: uint8, fragId: uint8, a: Address, chunk: bytes)
    : (b: bytes)
    requires EncodableAddress(a)
  {
    EncodeHeader(Header(VER, PacketType))
    + EncodeCommand(Packet(assocId, pktId, fragTotal, fragId, AsU16(|chunk|)))
    + EncodeAddress(a)
    + chunk
  }

  /** Every byte of a datagram where sections 5.3 and 6.3 of the specification put it. */
  lemma DatagramLayout(assocId: uint16, pktId: uint16, fragTotal: uint8, fragId: uint8, a: Address, chunk: bytes)
    requires EncodableAddress(a)
    ensures var d := Datagram(assocId, pktId, fragTotal, fragId, a, chunk);
            && |d| >= 11 && d[0] == 0x05 && d[1] == 0x02
            && 0x100 * (d[2] as int) + d[3] as int == assocId && 0x100 * (d[4] as int) + d[5] as int == pktId
            && d[6] == fragTotal && d[7] == fragId
            && 0x100 * (d[8] as int) + d[9] as int == |chunk| % 0x1_0000
            && d[10..] == EncodeAddress(a) + chunk
  {
    var d := Datagram(assocId, pktId, fragTotal, fragId, a, chunk);
    var head := EncodeHeader(Header(VER, PacketType))
                + EncodeCommand(Packet(assocId, pktId, fragTotal, fragId, AsU16(|chunk|)));
    assert d == head + (EncodeAddress(a) + chunk);
    assert |head| == 10;
  }

  lemma AddressLayout(a: Address)
    requires EncodableAddress(a)
    ensures var e := EncodeAddress(a);
            match a
            case NoAddress => e == [0xFF]
            case Addr(IPv4(ip, port)) =>
              |e| == 7 && e[0] == 0x01 && e[1..5] == ip && 0x100 * (e[5] as int) + e[6] as int == port
            case Addr(IPv6(ip, port)) =>
              |e| == 19 && e[0] == 0x02 && e[1..17] == ip && 0x100 * (e[17] as int) + e[18] as int == port
            case Addr(Domain(name, port)) =>
              && |e| == 4 + |name| && e[0] == 0x00 && e[1] == |name| && e[2..2 + |name|] == name
              && 0x100 * (e[2 + |name|] as int) + e[3 + |name|] as int == port
  {
  }

  /** The examples in appendix A of the TUIC specification: a Connect to 192.0.2.1:80, and after the header
      [5, 2] the command and address of two fragments of packet 0x42, the first for 203.0.113.1:53. */
  lemma SpecificationExamples()
    ensures EncodeHeader(Header(VER, ConnectType)) + EncodeAddress(Addr(IPv4([192, 0, 2, 1], 80)))
         == [0x05, 0x01, 0x01, 0xc0, 0x00, 0x02, 0x01, 0x00, 0x50]
    ensures EncodeCommand(Packet(0x0001, 0x0042, 2, 0, 1183)) == [0x00, 0x01, 0x00, 0x42, 0x02, 0x00, 0x04, 0x9f]
    ensures EncodeAddress(Addr(IPv4([203, 0, 113, 1], 53))) == [0x01, 0xcb, 0x00, 0x71, 0x01, 0x00, 0x35]
    ensures EncodeCommand(Packet(0x0001, 0x0042, 2, 1, 500)) == [0x00, 0x01, 0x00, 0x42, 0x02, 0x01, 0x01, 0xf4]
    ensures EncodeAddress(NoAddress) == [0xff]
  {
  }

  /** What the receiving loop of `start_poll` makes of a datagram. `Overrun` is
      `copy_to_bytes` asked for more bytes than are left, which panics. */
  datatype Parsed =
    | Malformed
    | NotPacket(command: Command)
    | Overrun(command: Command)
    | Fragment(command: Command, address: Address, payload: bytes)

  function Parse(src: bytes): (p: Parsed)
    ensures p.Fragment? ==> p.command.Packet? && |p.payload| == p.command.size
  {
    var h := DecodeHeader(src);
    if !h.out.Item? then Malformed
    else
      var c := DecodeCommand(h.out.value.command, h.rest);
      if !c.out.Item? then Malformed
      else if !c.out.value.Packet? then NotPacket(c.out.value)
      else
        var a := DecodeAddress(c.rest);
        if !a.out.Item? then Malformed
        else if c.out.value.size > |a.rest| then Overrun(c.out.value)
        else Fragment(c.out.value, a.out.value, a.rest[..c.out.value.size])
  }

  /** What each decoder found and left is what is parsed. */
  lemma ParseSteps(src: bytes, c: Command, a: Address, r1: bytes, r2: bytes, r3: bytes)
    requires DecodeHeader(src) == Decoded(Item(Header(VER, PacketType)), r1)
    requires DecodeCommand(PacketType, r1) == Decoded(Item(c), r2) && c.Packet? && c.size <= |r3|
    requires DecodeAddress(r2) == Decoded(Item(a), r3)
    ensures Parse(src) == Fragment(c, a, r3[..c.size])
  {
  }

  /** The size field cuts nothing off exactly when the length survives the cast to sixteen bits. */
  lemma SizeSurvivesIff(chunk: bytes)
    ensures chunk[..AsU16(|chunk|)] == chunk <==> |chunk| < 0x1_0000
  {
  }

  /** A datagram parses back to its fields, its payload as far as the size field reaches. */
  lemma DatagramRoundTrip(assocId: uint16, pktId: uint16, fragTotal: uint8, fragId: uint8, a: Address, chunk: bytes)
    requires EncodableAddress(a)
    ensures Parse(Datagram(assocId, pktId, fragTotal, fragId, a, chunk))
         == Fragment(Packet(assocId, pktId, fragTotal, fragId, AsU16(|chunk|)), a, chunk[..AsU16(|chunk|)])
  {
    var c := Packet(assocId, pktId, fragTotal, fragId, AsU16(|chunk|));
    var h := Header(VER, PacketType);
    var r2 := EncodeAddress(a) + chunk;
    var r1 := EncodeCommand(c) + r2;
    Nest(EncodeHeader(h), EncodeCommand(c), EncodeAddress(a), chunk);
    HeaderRoundTrip(h, r1);
    CommandRoundTrip(c, PacketType, r2);
    AddressRoundTrip(a, chunk);
    ParseSteps(EncodeHeader(h) + r1, c, a, r1, r2, chunk);
  }

  /** The same with anything after it, for a payload that the size field can carry. */
  lemma DatagramFollowed(assocId: uint16, pktId: uint16, fragTotal: uint8, fragId: uint8, a: Address, chunk: bytes,
                         tail: bytes)
    requires EncodableAddress(a) && |chunk| < 0x1_0000
    ensures var c, src := Packet(assocId, pktId, fragTotal, fragId, |chunk|),
                          Datagram(assocId, pktId, fragTotal, fragId, a, chunk) + tail;
            && DecodeHeader(src).out == Item(Header(VER, PacketType))
            && DecodeCommand(PacketType, DecodeHeader(src).rest).out == Item(c)
            && Parse(src) == Fragment(c, a, chunk)
  {
    var c := Packet(assocId, pktId, fragTotal, fragId, |chunk|);
    var r3 := chunk + tail;
    var r2 := EncodeAddress(a) + r3;
    var r1 := EncodeCommand(c) + r2;
    assert r3[..|chunk|] == chunk;
    Followed(c, a, chunk, tail);
    FollowedSteps(EncodeHeader(Header(VER, PacketType)) + r1, c, a, r1, r2, r3);
  }

  lemma Followed(c: Command, a: Address, chunk: bytes, tail: bytes)
    requires c.Packet? && EncodableAddress(a) && c.size == |chunk|
    ensures Datagram(c.assocId, c.pktId, c.fragTotal, c.fragId, a, chunk) + tail
         == EncodeHeader(Header(VER, PacketType)) + (EncodeCommand(c) + (EncodeAddress(a) + (chunk + tail)))
  {
    var h := EncodeHeader(Header(VER, PacketType));
    Nest(h, EncodeCommand(c), EncodeAddress(a), chunk + tail);
    Regroup(h + EncodeCommand(c) + EncodeAddress(a), chunk, tail);
  }

  lemma FollowedSteps(src: bytes, c: Command, a: Address, r1: bytes, r2: bytes, r3: bytes)
    requires c.Packet? && EncodableAddress(a) && c.size <= |r3|
    requires src == EncodeHeader(Header(VER, PacketType)) + r1
    requires r1 == EncodeCommand(c) + r2 && r2 == EncodeAddress(a) + r3
    ensures DecodeHeader(src) == Decoded(Item(Header(VER, PacketType)), r1)
    ensures DecodeCommand(PacketType, r1).out == Item(c)
    ensures Parse(src) == Fragment(c, a, r3[..c.size])
  {
    HeaderRoundTrip(Header(VER, PacketType), r1);
    CommandRoundTrip(c, PacketType, r2);
    AddressRoundTrip(a, r3);
    ParseSteps(src, c, a, r1, r2, r3);
  }

  lemma Regroup(a: bytes, b: bytes, c: bytes)
    ensures a + b + c == a + (b + c)
  {
  }

  lemma Nest(a: bytes, b: bytes, c: bytes, d: bytes)
    ensures a + b + c + d == a + (b + (c + d))
  {
  }

  /** A message put together again from what each decoder consumed and left. */
  lemma Layout(c: Command, a: Address, payload: bytes, junk: bytes, r1: bytes, r2: bytes, r3: bytes)
    requires c.Packet? && EncodableAddress(a) && c.size == AsU16(|payload|)
    requires r1 == EncodeCommand(c) + r2 && r2 == EncodeAddress(a) + r3 && r3 == payload + junk
    ensures EncodeHeader(Header(VER, PacketType)) + r1
         == Datagram(c.assocId, c.pktId, c.fragTotal, c.fragId, a, payload) + junk
  {
  }

  /** Conversely, an accepted datagram is the encoding of what was parsed, followed by
      trailing bytes that the receiver ignores. */
  lemma ParseSound(src: bytes) returns (junk: bytes)
    requires Parse(src).Fragment?
    ensures var p := Parse(src);
            EncodableAddress(p.address)
            && src == Datagram(p.command.assocId, p.command.pktId, p.command.fragTotal, p.command.fragId,
                               p.address, p.payload) + junk
  {
    var h := DecodeHeader(src);
    var c := DecodeCommand(h.out.value.command, h.rest);
    var a := DecodeAddress(c.rest);
    HeaderReencode(src);
    CommandReencode(h.out.value.command, h.rest);
    AddressReencode(c.rest);
    junk := SplitPayload(c.out.value, a.rest);
    Layout(c.out.value, a.out.value, a.rest[..c.out.value.size], junk, h.rest, c.rest, a.rest);
  }

  /** A message other than a packet is recognised as what it is, whatever follows. */
  lemma OtherParsed(c: Command, tail: bytes)
    requires !c.Packet?
    ensures Parse(EncodeHeader(Header(VER, TypeOf(c))) + EncodeCommand(c) + tail) == NotPacket(c)
  {
    var h, r := Header(VER, TypeOf(c)), EncodeCommand(c) + tail;
    assert EncodeHeader(h) + EncodeCommand(c) + tail == EncodeHeader(h) + r;
    HeaderRoundTrip(h, r);
    CommandRoundTrip(c, TypeOf(c), tail);
    OtherSteps(EncodeHeader(h) + r, c, r, tail);
  }

  lemma OtherSteps(src: bytes, c: Command, r1: bytes, r2: bytes)
    requires DecodeHeader(src) == Decoded(Item(Header(VER, TypeOf(c))), r1)
    requires DecodeCommand(TypeOf(c), r1) == Decoded(Item(c), r2) && !c.Packet?
    ensures Parse(src) == NotPacket(c)
  {
  }

  /** A packet with fewer bytes after its address than its size field says. */
  ghost predicate ShortOf(src: bytes, c: Command, a: Address, rest: bytes) {
    && c.Packet? && EncodableAddress(a) && |rest| < c.size
    && src == EncodeHeader(Header(VER, PacketType)) + EncodeCommand(c) + EncodeAddress(a) + rest
  }

  ghost predicate IsShort(src: bytes) {
    exists c: Command, a: Address, rest: bytes :: ShortOf(src, c, a, rest)
  }

  /** The receiver panics exactly on packets whose size field exceeds what is left. */
  lemma OverrunIff(src: bytes)
    ensures Parse(src).Overrun? <==> IsShort(src)
  {
    if Parse(src).Overrun? {
      OverrunIsShort(src);
    }
    if c: Command, a: Address, rest: bytes :| ShortOf(src, c, a, rest) {
      ShortIsOverrun(src, c, a, rest);
    }
  }

  ghost predicate IsPacket(src: bytes) {
    exists assocId: uint16, pktId: uint16, fragTotal: uint8, fragId: uint8, a: Address, chunk: bytes, tail: bytes ::
      && EncodableAddress(a) && |chunk| < 0x1_0000
      && src == Datagram(assocId, pktId, fragTotal, fragId, a, chunk) + tail
  }

  ghost predicate IsOther(src: bytes) {
    exists c: Command, tail: bytes ::
      !c.Packet? && src == EncodeHeader(Header(VER, TypeOf(c))) + EncodeCommand(c) + tail
  }

  /** The receiver takes for malformed exactly what is neither a packet, nor short of one, nor another
      message. */
  lemma MalformedIff(src: bytes)
    ensures Parse(src).Malformed? <==> !IsPacket(src) && !IsShort(src) && !IsOther(src)
  {
    OverrunIff(src);
    if Parse(src).Fragment? {
      var junk := ParseSound(src);
    }
    if Parse(src).NotPacket? {
      var h := DecodeHeader(src);
      var c := DecodeCommand(h.out.value.command, h.rest);
      HeaderReencode(src);
      CommandReencode(h.out.value.command, h.rest);
      assert src == EncodeHeader(h.out.value) + EncodeCommand(c.out.value) + c.rest;
    }
    if assocId: uint16, pktId: uint16, fragTotal: uint8, fragId: uint8, a: Address, chunk: bytes, tail: bytes :|
      && EncodableAddress(a) && |chunk| < 0x1_0000
      && src == Datagram(assocId, pktId, fragTotal, fragId, a, chunk) + tail
    {
      DatagramFollowed(assocId, pktId, fragTotal, fragId, a, chunk, tail);
    }
    if c: Command, tail: bytes :|
      !c.Packet? && src == EncodeHeader(Header(VER, TypeOf(c))) + EncodeCommand(c) + tail
    {
      OtherParsed(c, tail);
    }
  }

  lemma OverrunIsShort(src: bytes)
    requires Parse(src).Overrun?
    ensures IsShort(src)
  {
    var h := DecodeHeader(src);
    var c := DecodeCommand(h.out.value.command, h.rest);
    var a := DecodeAddress(c.rest);
    HeaderReencode(src);
    CommandReencode(h.out.value.command, h.rest);
    AddressReencode(c.rest);
    Nest(EncodeHeader(h.out.value), EncodeCommand(c.out.value), EncodeAddress(a.out.value), a.rest);
    assert ShortOf(src, c.out.value, a.out.value, a.rest);
  }

  lemma ShortIsOverrun(src: bytes, c: Command, a: Address, rest: bytes)
    requires ShortOf(src, c, a, rest)
    ensures Parse(src) == Overrun(c)
  {
    var h := Header(VER, PacketType);
    Nest(EncodeHeader(h), EncodeCommand(c), EncodeAddress(a), rest);
    HeaderRoundTrip(h, EncodeCommand(c) + (EncodeAddress(a) + rest));
    CommandRoundTrip(c, PacketType, EncodeAddress(a) + rest);
    AddressRoundTrip(a, rest);
  }

  lemma SplitPayload(c: Command, rest: bytes) returns (junk: bytes)
    requires c.Packet? && c.size <= |rest|
    ensures rest == rest[..c.size] + junk && AsU16(|rest[..c.size]|) == c.size
  {
    junk := rest[c.size..];
  }
}
