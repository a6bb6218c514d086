/** One connection at the server: authentication, and what is let through before and after it. */
module Inbound {
  import opened Bytes
  import opened Target
  import opened Codec
  import opened WireBuffer

  type Uuid = octets16

  /** What the connection has done on the client's behalf. */
  datatype Action =
    | Authenticated(user: Uuid, token: octets32)
    | TcpConnect(target: TargetAddr)
    | DatagramPacket(assocId: uint16, target: TargetAddr, payload: bytes)
    | StreamPacket(assocId: uint16, target: TargetAddr, payload: bytes)
    | Dissociated(assocId: uint16)

  /** How a handler ends: normally, with an error that is logged, or in a panic. */
  datatype Ending = Fine | Failed | Panicked

  /** What can happen on the connection. */
  datatype Incoming = UniStream(data: bytes) | BiStream(data: bytes) | QuicDatagram(data: bytes) | AuthTimeout

  /** The longest address a bidirectional stream may carry, and the longest uni stream that is read. */
  const MAX_CONNECT: nat := 512
  const MAX_UNI: nat := 65536

  /** The token a user must present, from the exporter of the TLS session. */
  type Exporter = (Uuid, bytes) -> octets32

  /** A known user presented the right token. */
  predicate Rightful(users: map<Uuid, bytes>, exporter: Exporter, a: Action) {
    a.Authenticated? && a.user in users && a.token == exporter(a.user, users[a.user])
  }

  /** TCP relays and UDP packets from datagrams come after a rightful authentication, and there are
      no others. */
  ghost predicate Guarded(users: map<Uuid, bytes>, exporter: Exporter, log: seq<Action>) {
    && (forall n :: 0 <= n < |log| && (log[n].TcpConnect? || log[n].DatagramPacket?) ==> HasLogin(log[..n]))
    && (forall n :: 0 <= n < |log| && log[n].Authenticated? ==> Rightful(users, exporter, log[n]))
  }

  ghost predicate HasLogin(log: seq<Action>) {
    exists m :: 0 <= m < |log| && log[m].Authenticated?
  }

  lemma GuardedSnoc(users: map<Uuid, bytes>, exporter: Exporter, log: seq<Action>, a: Action)
    requires Guarded(users, exporter, log)
    requires a.TcpConnect? || a.DatagramPacket? ==> HasLogin(log)
    requires a.Authenticated? ==> Rightful(users, exporter, a)
    ensures Guarded(users, exporter, log + [a])
    ensures HasLogin(log + [a]) <==> HasLogin(log) || a.Authenticated?
  {
    var log' := log + [a];
    assert log'[..|log|] == log;
    forall n | 0 <= n < |log'| && (log'[n].TcpConnect? || log'[n].DatagramPacket?)
      ensures HasLogin(log'[..n])
    {
      if n < |log| {
        assert log'[..n] == log[..n];
      }
    }
    if HasLogin(log) {
      var m :| 0 <= m < |log| && log[m].Authenticated?;
      assert log'[m].Authenticated?;
    }
    if a.Authenticated? {
      assert log'[|log|].Authenticated?;
    }
  }

  /** What a datagram or a uni stream with a packet turns into. */
  function PacketAction(p: Parsed, datagram: bool): (a: Option<Action>) {
    if p.Fragment? && p.command.Packet? && p.address.Addr? then
      Some(if datagram then DatagramPacket(p.command.assocId, p.address.addr, p.payload)
           else StreamPacket(p.command.assocId, p.address.addr, p.payload))
    else None
  }

  function Actions(a: Option<Action>): (s: seq<Action>) {
    if a.Some? then [a.value] else []
  }

  /** What a uni stream leads to: a login by a rightful Auth, a packet with a real address, or a
      dissociation. */
  function UniAction(users: map<Uuid, bytes>, exporter: Exporter, data: bytes): (a: Option<Action>)
    ensures a.Some? ==> !a.value.TcpConnect? && !a.value.DatagramPacket?
  {
    if |data| > MAX_UNI then None
    else
      var h := DecodeHeader(data);
      if !h.out.Item? then None
      else
        match DecodeCommand(h.out.value.command, h.rest).out
        case Item(Auth(user, token)) =>
          if Rightful(users, exporter, Authenticated(user, token)) then Some(Authenticated(user, token)) else None
        case Item(Packet(_, _, _, _, _)) => PacketAction(Parse(data), false)
        case Item(Dissociate(assocId)) => Some(Dissociated(assocId))
        case _ => None
  }

  /** What a bidirectional stream asks for. */
  function ConnectTarget(data: bytes): (t: Option<TargetAddr>) {
    if |data| < 2 || |data| - 2 > MAX_CONNECT then None
    else
      var h := DecodeHeader(data[..2]);
      if h.out.Item? && h.out.value.command.ConnectType? then
        var a := DecodeAddress(data[2..]);
        if a.out.Item? && a.out.value.Addr? then Some(a.out.value.addr) else None
      else None
  }

  /** The connection as a value. */
  datatype Conn = Conn(uuid: Option<Uuid>, open: bool, log: seq<Action>)

  /** What one event makes of the connection. */
  function OnIncoming(users: map<Uuid, bytes>, exporter: Exporter, c: Conn, e: Incoming): (r: Conn) {
    match e
    case UniStream(data) =>
      var act := UniAction(users, exporter, data);
      Conn(if act.Some? && act.value.Authenticated? then Some(act.value.user) else c.uuid, c.open, c.log + Actions(act))
    case BiStream(data) =>
      var target := ConnectTarget(data);
      c.(log := c.log + if c.uuid.Some? && target.Some? then [TcpConnect(target.value)] else [])
    case QuicDatagram(data) =>
      c.(log := c.log + if c.uuid.Some? then Actions(PacketAction(Parse(data), true)) else [])
    case AuthTimeout => c.(open := c.open && c.uuid.Some?)
  }

  function OnAll(users: map<Uuid, bytes>, exporter: Exporter, events: seq<Incoming>): (c: Conn) {
    if events == [] then Conn(None, true, [])
    else OnIncoming(users, exporter, OnAll(users, exporter, events[..|events| - 1]), events[|events| - 1])
  }

  /** The event makes its handler panic. */
  predicate Panics(c: Conn, e: Incoming) {
    match e
    case UniStream(data) => |data| <= MAX_UNI && Parse(data).Overrun?
    case QuicDatagram(data) => c.uuid.Some? && Parse(data).Overrun?
    case _ => false
  }

  // ---------------------------------------------------------------- what a message asks for

  /** The bytes of the message, as the specification lays them out, ask for this action. */
  ghost predicate Asks(e: Incoming, a: Action) {
    match a
    case Authenticated(user, token) =>
      e.UniStream? && |e.data| <= 65536 && exists tail: bytes :: e.data == [0x05, 0x00] + user + token + tail
    case Dissociated(assocId) =>
      e.UniStream? && |e.data| <= 65536 && exists tail: bytes :: e.data == [0x05, 0x03] + BE16(assocId) + tail
    case StreamPacket(assocId, target, payload) =>
      e.UniStream? && |e.data| <= 65536 && Carries(e.data, assocId, target, payload)
    case DatagramPacket(assocId, target, payload) =>
      e.QuicDatagram? && Carries(e.data, assocId, target, payload)
    case TcpConnect(target) =>
      && e.BiStream? && |e.data| <= 514 && Encodable(target)
      && exists tail: bytes :: e.data == [0x05, 0x01] + EncodeAddress(Addr(target)) + tail
  }

  ghost predicate Carries(data: bytes, assocId: uint16, target: TargetAddr, payload: bytes) {
    && Encodable(target) && |payload| < 0x1_0000
    && exists pktId: uint16, fragTotal: uint8, fragId: uint8, tail: bytes ::
         data == Datagram(assocId, pktId, fragTotal, fragId, Addr(target), payload) + tail
  }

  lemma UniSteps(users: map<Uuid, bytes>, exporter: Exporter, data: bytes, c: Command, r1: bytes, r2: bytes)
    requires |data| <= MAX_UNI && DecodeHeader(data) == Decoded(Item(Header(VER, TypeOf(c))), r1)
    requires DecodeCommand(TypeOf(c), r1) == Decoded(Item(c), r2)
    ensures UniAction(users, exporter, data)
         == match c
            case Auth(user, token) =>
              if Rightful(users, exporter, Authenticated(user, token)) then Some(Authenticated(user, token)) else None
            case Packet(_, _, _, _, _) => PacketAction(Parse(data), false)
            case Dissociate(assocId) => Some(Dissociated(assocId))
            case _ => None
  {
  }

  lemma AuthAsked(users: map<Uuid, bytes>, exporter: Exporter, user: Uuid, token: octets32, tail: bytes)
    requires |tail| <= 65486
    ensures var a := Authenticated(user, token);
            UniAction(users, exporter, [0x05, 0x00] + user + token + tail)
            == if Rightful(users, exporter, a) then Some(a) else None
  {
    var data := [0x05, 0x00] + (user + token + tail);
    assert [0x05, 0x00] + user + token + tail == data;
    HeaderLayout(user + token + tail);
    CommandRoundTrip(Auth(user, token), AuthType, tail);
    UniSteps(users, exporter, data, Auth(user, token), user + token + tail, tail);
  }

  lemma DissociateAsked(users: map<Uuid, bytes>, exporter: Exporter, assocId: uint16, tail: bytes)
    requires |tail| <= 65532
    ensures UniAction(users, exporter, [0x05, 0x03] + BE16(assocId) + tail) == Some(Dissociated(assocId))
  {
    var data := [0x05, 0x03] + (BE16(assocId) + tail);
    assert [0x05, 0x03] + BE16(assocId) + tail == data;
    HeaderLayout(BE16(assocId) + tail);
    CommandRoundTrip(Dissociate(assocId), DissociateType, tail);
    UniSteps(users, exporter, data, Dissociate(assocId), BE16(assocId) + tail, tail);
  }

  lemma PacketAsked(data: bytes, assocId: uint16, target: TargetAddr, payload: bytes)
    requires Carries(data, assocId, target, payload)
    ensures DecodeHeader(data).out == Item(Header(VER, PacketType))
    ensures DecodeCommand(PacketType, DecodeHeader(data).rest).out.Item?
    ensures PacketAction(Parse(data), true) == Some(DatagramPacket(assocId, target, payload))
    ensures PacketAction(Parse(data), false) == Some(StreamPacket(assocId, target, payload))
  {
    var pktId: uint16, fragTotal: uint8, fragId: uint8, tail: bytes :|
      data == Datagram(assocId, pktId, fragTotal, fragId, Addr(target), payload) + tail;
    DatagramFollowed(assocId, pktId, fragTotal, fragId, Addr(target), payload, tail);
  }

  lemma ConnectAsked(target: TargetAddr, tail: bytes)
    requires Encodable(target) && |EncodeAddress(Addr(target)) + tail| <= 512
    ensures ConnectTarget([0x05, 0x01] + EncodeAddress(Addr(target)) + tail) == Some(target)
  {
    var data := [0x05, 0x01] + EncodeAddress(Addr(target)) + tail;
    assert data[..2] == [0x05, 0x01] + [];
    assert data[2..] == EncodeAddress(Addr(target)) + tail;
    HeaderLayout([]);
    AddressRoundTrip(Addr(target), tail);
  }

  /** Conversely, what is done was asked for. */
  lemma UniWasAsked(users: map<Uuid, bytes>, exporter: Exporter, data: bytes)
    requires UniAction(users, exporter, data).Some?
    ensures Asks(UniStream(data), UniAction(users, exporter, data).value)
  {
    var h := DecodeHeader(data);
    var c := DecodeCommand(h.out.value.command, h.rest);
    HeaderReencode(data);
    CommandReencode(h.out.value.command, h.rest);
    HeaderLayout([]);
    match c.out.value
    case Auth(user, token) => assert data == [0x05, 0x00] + user + token + c.rest;
    case Dissociate(assocId) => assert data == [0x05, 0x03] + BE16(assocId) + c.rest;
    case Packet(_, _, _, _, _) => PacketWasAsked(data);
  }

  lemma PacketWasAsked(data: bytes)
    requires var p := Parse(data); p.Fragment? && p.address.Addr?
    ensures var p := Parse(data); Carries(data, p.command.assocId, p.address.addr, p.payload)
  {
    var junk := ParseSound(data);
  }

  lemma ConnectWasAsked(data: bytes)
    requires ConnectTarget(data).Some?
    ensures Asks(BiStream(data), TcpConnect(ConnectTarget(data).value))
  {
    var target := ConnectTarget(data).value;
    HeaderReencode(data[..2]);
    HeaderLayout([]);
    AddressReencode(data[2..]);
    var tail := DecodeAddress(data[2..]).rest;
    assert data == data[..2] + data[2..];
    assert data == [0x05, 0x01] + EncodeAddress(Addr(target)) + tail;
  }

  // ---------------------------------------------------------------- what becomes of it

  /** What the connection grants: a login to a known user with the right token, relaying after a login,
      and the rest to anyone. */
  predicate Grants(users: map<Uuid, bytes>, exporter: Exporter, loggedIn: bool, a: Action) {
    match a
    case Authenticated(user, token) => user in users && token == exporter(user, users[user])
    case TcpConnect(_) => loggedIn
    case DatagramPacket(_, _, _) => loggedIn
    case _ => true
  }

  /** What a message asks for is done exactly if it is granted. */
  lemma AskedIsDone(users: map<Uuid, bytes>, exporter: Exporter, c: Conn, e: Incoming, a: Action)
    requires Asks(e, a)
    ensures var r, granted := OnIncoming(users, exporter, c, e), Grants(users, exporter, c.uuid.Some?, a);
            && r.log == c.log + (if granted then [a] else [])
            && r.uuid == (if granted && a.Authenticated? then Some(a.user) else c.uuid)
            && r.open == c.open
  {
    match a
    case Authenticated(user, token) =>
      var tail: bytes :| e.data == [0x05, 0x00] + user + token + tail;
      AuthAsked(users, exporter, user, token, tail);
    case Dissociated(assocId) =>
      var tail: bytes :| e.data == [0x05, 0x03] + BE16(assocId) + tail;
      DissociateAsked(users, exporter, assocId, tail);
    case StreamPacket(assocId, target, payload) =>
      PacketAsked(e.data, assocId, target, payload);
      var r1 := DecodeHeader(e.data).rest;
      CommandReencode(PacketType, r1);
      var d := DecodeCommand(PacketType, r1);
      UniSteps(users, exporter, e.data, d.out.value, r1, d.rest);
    case DatagramPacket(assocId, target, payload) =>
      PacketAsked(e.data, assocId, target, payload);
    case TcpConnect(target) =>
      var tail: bytes :| e.data == [0x05, 0x01] + EncodeAddress(Addr(target)) + tail;
      ConnectAsked(target, tail);
  }

  /** What is done was asked for, and was granted. */
  lemma DoneWasAsked(users: map<Uuid, bytes>, exporter: Exporter, c: Conn, e: Incoming)
    requires forall a: Action :: Asks(e, a) ==> !Grants(users, exporter, c.uuid.Some?, a)
    ensures OnIncoming(users, exporter, c, e).log == c.log && OnIncoming(users, exporter, c, e).uuid == c.uuid
  {
    match e
    case UniStream(data) =>
      if UniAction(users, exporter, data).Some? {
        UniWasAsked(users, exporter, data);
      }
    case BiStream(data) =>
      if ConnectTarget(data).Some? {
        ConnectWasAsked(data);
      }
    case QuicDatagram(data) =>
      if PacketAction(Parse(data), true).Some? {
        PacketWasAsked(data);
        assert Asks(e, PacketAction(Parse(data), true).value);
      }
    case AuthTimeout =>
  }

  /** A handler panics exactly on a packet that is shorter than its size field says: on a uni stream that
      is read at all, or in a datagram once there is a user. */
  lemma PanicsIff(c: Conn, e: Incoming)
    ensures Panics(c, e)
       <==> ((e.UniStream? && |e.data| <= 65536) || (e.QuicDatagram? && c.uuid.Some?)) && IsShort(e.data)
  {
    if !e.AuthTimeout? {
      OverrunIff(e.data);
    }
  }

  /** Some event was a rightful login. */
  ghost predicate Login(users: map<Uuid, bytes>, exporter: Exporter, e: Incoming) {
    exists a: Action :: a.Authenticated? && Asks(e, a) && Grants(users, exporter, false, a)
  }

  ghost predicate LoggedIn(users: map<Uuid, bytes>, exporter: Exporter, events: seq<Incoming>) {
    exists n :: 0 <= n < |events| && Login(users, exporter, events[n])
  }

  lemma LoginStep(users: map<Uuid, bytes>, exporter: Exporter, c: Conn, e: Incoming)
    ensures OnIncoming(users, exporter, c, e).uuid.Some? <==> c.uuid.Some? || Login(users, exporter, e)
  {
    if a: Action :| a.Authenticated? && Asks(e, a) && Grants(users, exporter, false, a) {
      AskedIsDone(users, exporter, c, e, a);
    } else if a: Action :| Asks(e, a) {
      AskedIsDone(users, exporter, c, e, a);
    } else {
      DoneWasAsked(users, exporter, c, e);
    }
  }

  /** Over any events: there is a user exactly if some event was a rightful login. */
  lemma {:induction false} LoggedInIff(users: map<Uuid, bytes>, exporter: Exporter, events: seq<Incoming>)
    ensures OnAll(users, exporter, events).uuid.Some? <==> LoggedIn(users, exporter, events)
    decreases |events|
  {
    if events != [] {
      var n := |events| - 1;
      LoggedInIff(users, exporter, events[..n]);
      LoginStep(users, exporter, OnAll(users, exporter, events[..n]), events[n]);
      var now := Login(users, exporter, events[n]);
      assert LoggedIn(users, exporter, events) <==> LoggedIn(users, exporter, events[..n]) || now;
    }
  }

  /** The timeout came before any rightful login. */
  ghost predicate TimedOut(users: map<Uuid, bytes>, exporter: Exporter, events: seq<Incoming>) {
    exists n :: 0 <= n < |events| && events[n] == AuthTimeout && !LoggedIn(users, exporter, events[..n])
  }

  /** Over any events: the connection is closed exactly if the timeout came before any rightful login. */
  lemma {:induction false} TimedOutIff(users: map<Uuid, bytes>, exporter: Exporter, events: seq<Incoming>)
    ensures !OnAll(users, exporter, events).open <==> TimedOut(users, exporter, events)
    decreases |events|
  {
    if events != [] {
      var n := |events| - 1;
      TimedOutIff(users, exporter, events[..n]);
      LoggedInIff(users, exporter, events[..n]);
      TimedOutSnoc(users, exporter, events, n);
    }
  }

  lemma TimedOutSnoc(users: map<Uuid, bytes>, exporter: Exporter, events: seq<Incoming>, n: nat)
    requires |events| == n + 1
    ensures var now := events[n] == AuthTimeout && !LoggedIn(users, exporter, events[..n]);
            TimedOut(users, exporter, events) <==> (TimedOut(users, exporter, events[..n]) || now)
  {
    assert forall m :: 0 <= m < n ==> events[..n][..m] == events[..m] && events[..n][m] == events[m];
  }

  /** Over any events: what message `n` asks for is done exactly if it is granted to whoever has logged in
      before it. */
  lemma EventDone(users: map<Uuid, bytes>, exporter: Exporter, events: seq<Incoming>, n: nat, a: Action)
    requires n < |events| && Asks(events[n], a)
    ensures OnAll(users, exporter, events[..n + 1]).log
         == OnAll(users, exporter, events[..n]).log
            + if Grants(users, exporter, LoggedIn(users, exporter, events[..n]), a) then [a] else []
  {
    OnAllSnoc(users, exporter, events, n);
    LoggedInIff(users, exporter, events[..n]);
    AskedIsDone(users, exporter, OnAll(users, exporter, events[..n]), events[n], a);
  }

  /** And nothing else is done. */
  lemma NothingElseDone(users: map<Uuid, bytes>, exporter: Exporter, events: seq<Incoming>, n: nat)
    requires n < |events| && forall a: Action :: !Asks(events[n], a)
    ensures OnAll(users, exporter, events[..n + 1]).log == OnAll(users, exporter, events[..n]).log
  {
    OnAllSnoc(users, exporter, events, n);
    DoneWasAsked(users, exporter, OnAll(users, exporter, events[..n]), events[n]);
  }

  lemma OnAllSnoc(users: map<Uuid, bytes>, exporter: Exporter, events: seq<Incoming>, n: nat)
    requires n < |events|
    ensures OnAll(users, exporter, events[..n + 1])
         == OnIncoming(users, exporter, OnAll(users, exporter, events[..n]), events[n])
  {
    assert events[..n + 1][..n] == events[..n];
  }

  /** None of the first `n` events has made its handler panic. */
  ghost predicate Calm(users: map<Uuid, bytes>, exporter: Exporter, events: seq<Incoming>, n: nat)
    requires n <= |events|
  {
    n > 0 ==> Calm(users, exporter, events, n - 1) && !Panics(OnAll(users, exporter, events[..n - 1]), events[n - 1])
  }

  /** Nothing has been relayed without a login, and a closed connection has none. */
  ghost predicate Quiet(c: Conn) {
    && (!c.open ==> c.uuid.None?)
    && (c.uuid.None? ==>
          forall n :: 0 <= n < |c.log| ==>
            !c.log[n].TcpConnect? && !c.log[n].DatagramPacket? && !c.log[n].Authenticated?)
  }

  lemma QuietStep(users: map<Uuid, bytes>, exporter: Exporter, c: Conn, e: Incoming)
    requires Quiet(c) && c.open
    ensures Quiet(OnIncoming(users, exporter, c, e))
  {
  }

  class InboundCtx {
    const users: map<Uuid, bytes>
    const exporter: Exporter
    var uuid: Option<Uuid>
    var open: bool
    ghost var log: seq<Action>

    ghost predicate Valid()
      reads this
    {
      && (uuid.Some? <==> HasLogin(log))
      && (uuid.Some? ==> uuid.value in users)
      && Guarded(users, exporter, log)
    }

    constructor (users: map<Uuid, bytes>, exporter: Exporter)
      ensures Valid() && log == [] && open && this.users == users && this.exporter == exporter
    {
      this.users := users;
      this.exporter := exporter;
      uuid := None;
      open := true;
      log := [];
    }

    ghost method Record(a: Action)
      requires Valid()
      requires a.TcpConnect? || a.DatagramPacket? ==> uuid.Some?
      requires !a.Authenticated?
      modifies this`log
      ensures Valid() && log == old(log) + [a]
    {
      GuardedSnoc(users, exporter, log, a);
      log := log + [a];
    }

    method HandleAuth(user: Uuid, token: octets32) returns (ending: Ending)
      requires Valid()
      modifies this
      ensures Valid() && open == old(open)
      ensures ending != Panicked && (ending == Fine <==> user in users && token == exporter(user, users[user]))
      ensures ending == Fine ==> log == old(log) + [Authenticated(user, token)] && uuid == Some(user)
      ensures ending != Fine ==> log == old(log) && uuid == old(uuid)
    {
      if user !in users {
        return Failed;
      }
      var expected := exporter(user, users[user]);
      if token != expected {
        return Failed;
      }
      uuid := Some(user);
      GuardedSnoc(users, exporter, log, Authenticated(user, token));
      log := log + [Authenticated(user, token)];
      return Fine;
    }

    /** A bidirectional stream is relayed exactly when the connection is authenticated and the
        stream carries a well-formed Connect with a real address. */
    method HandleBiStream(data: bytes) returns (ending: Ending)
      requires Valid()
      modifies this
      ensures Valid() && open == old(open) && uuid == old(uuid) && ending != Panicked
      ensures log
           == old(log) + if uuid.Some? && ConnectTarget(data).Some? then [TcpConnect(ConnectTarget(data).value)] else []
    {
      if uuid.None? {
        return Fine;
      }
      if |data| < 2 {
        return Failed;
      }
      var buf := new BytesMut(data[..2]);
      var header := ReadHeader(buf);
      if !header.Item? {
        return Failed;
      }
      if !header.value.command.ConnectType? {
        return Fine;
      }
      if |data| - 2 > MAX_CONNECT {
        return Failed;
      }
      var addrBuf := new BytesMut(data[2..]);
      var addr := ReadAddress(addrBuf);
      if !addr.Item? || addr.value.NoAddress? {
        return Failed;
      }
      Record(TcpConnect(addr.value.addr));
      return Fine;
    }

    /** A datagram is handled exactly when the connection is authenticated and it is a packet with a
        real address. */
    method HandleDatagram(data: bytes) returns (ending: Ending)
      requires Valid()
      modifies this
      ensures Valid() && open == old(open) && uuid == old(uuid)
      ensures ending == Panicked <==> uuid.Some? && Parse(data).Overrun?
      ensures log == old(log) + if uuid.Some? then Actions(PacketAction(Parse(data), true)) else []
    {
      if uuid.None? {
        return Fine;
      }
      var buf := new BytesMut(data);
      var header := ReadHeader(buf);
      if !header.Item? {
        return Failed;
      }
      if !header.value.command.PacketType? {
        return Fine;
      }
      var cmd := ReadCommand(PacketType, buf);
      if !cmd.Item? {
        return Failed;
      }
      var addr := ReadAddress(buf);
      if !addr.Item? {
        return Failed;
      }
      if cmd.value.size > |buf.data| {
        return Panicked;
      }
      var payload := buf.CopyToSlice(cmd.value.size);
      if addr.value.NoAddress? {
        return Failed;
      }
      Record(DatagramPacket(cmd.value.assocId, addr.value.addr, payload));
      return Fine;
    }

    /** A packet on a uni stream, once its command has been read. */
    method HandleStreamPacket(c: Command, buf: BytesMut, ghost data: bytes) returns (ending: Ending)
      requires Valid() && DecodeHeader(data).out.Item? && c.Packet?
      requires var h := DecodeHeader(data); DecodeCommand(h.out.value.command, h.rest) == Decoded(Item(c), buf.data)
      modifies this, buf
      ensures Valid() && open == old(open) && uuid == old(uuid)
      ensures log == old(log) + Actions(PacketAction(Parse(data), false))
      ensures ending == Panicked <==> Parse(data).Overrun?
    {
      var addr := ReadAddress(buf);
      if !addr.Item? {
        return Failed;
      }
      if c.size > |buf.data| {
        return Panicked;
      }
      var payload := buf.CopyToSlice(c.size);
      if addr.value.NoAddress? {
        return Failed;
      }
      Record(StreamPacket(c.assocId, addr.value.addr, payload));
      return Fine;
    }

    /** Authentication, and the commands that the code handles on uni streams without asking for it. */
    method HandleUniStream(data: bytes) returns (ending: Ending)
      requires Valid()
      modifies this
      ensures Valid() && open == old(open)
      ensures var act := UniAction(users, exporter, data);
              && log == old(log) + Actions(act)
              && uuid == if act.Some? && act.value.Authenticated? then Some(act.value.user) else old(uuid)
      ensures ending == Panicked <==> |data| <= MAX_UNI && Parse(data).Overrun?
      ensures |data| > MAX_UNI ==> ending == Failed
    {
      if |data| > MAX_UNI {
        return Failed;
      }
      var buf := new BytesMut(data);
      var header := ReadHeader(buf);
      if !header.Item? {
        return Failed;
      }
      var cmd := ReadCommand(header.value.command, buf);
      if !cmd.Item? {
        return Failed;
      }
      match cmd.value {
        case Auth(user, token) =>
          ending := HandleAuth(user, token);
        case Packet(_, _, _, _, _) =>
          ending := HandleStreamPacket(cmd.value, buf, data);
        case Dissociate(assocId) =>
          Record(Dissociated(assocId));
          return Fine;
        case Heartbeat => return Fine;
        case Connect => return Fine;
      }
    }

    /** The timeout task closes a connection that is not authenticated by then. */
    method Timeout()
      requires Valid()
      modifies this`open
      ensures Valid() && open == (old(open) && uuid.Some?)
    {
      if uuid.None? {
        open := false;
      }
    }

    ghost function Value(): (c: Conn)
      reads this
    {
      Conn(uuid, open, log)
    }

    /** One event. */
    method HandleOne(e: Incoming) returns (ending: Ending)
      requires Valid()
      modifies this
      ensures Valid() && Value() == OnIncoming(users, exporter, old(Value()), e)
      ensures ending == Panicked <==> Panics(old(Value()), e)
    {
      ending := Fine;
      match e {
        case UniStream(data) => ending := HandleUniStream(data);
        case BiStream(data) => ending := HandleBiStream(data);
        case QuicDatagram(data) => ending := HandleDatagram(data);
        case AuthTimeout => Timeout();
      }
    }

    /** The connection's event loop: it handles events until the connection is closed or a handler
        panics. Over every run nothing is relayed before a known user has presented the right token,
        and a connection that times out first relays nothing at all. */
    method Serve(events: seq<Incoming>) returns (n: nat)
      requires Valid() && log == [] && open && uuid.None?
      modifies this
      ensures n <= |events| && Value() == OnAll(users, exporter, events[..n]) && Guarded(users, exporter, log)
      ensures n < |events| ==> !open || (n > 0 && Panics(OnAll(users, exporter, events[..n - 1]), events[n - 1]))
      ensures !open <==> TimedOut(users, exporter, events[..n])
      ensures n > 0 ==> !TimedOut(users, exporter, events[..n - 1]) && Calm(users, exporter, events, n - 1)
      ensures uuid.Some? <==> LoggedIn(users, exporter, events[..n])
      ensures !open ==> forall a :: a in log ==> !a.TcpConnect? && !a.DatagramPacket?
      ensures uuid.None? ==> forall a :: a in log ==> !a.TcpConnect? && !a.DatagramPacket? && !a.Authenticated?
    {
      var panicked;
      n, panicked := ServeUntil(events);
      LoggedInIff(users, exporter, events[..n]);
      TimedOutIff(users, exporter, events[..n]);
      if n > 0 {
        TimedOutIff(users, exporter, events[..n - 1]);
      }
    }

    /** The loop itself, saying also whether a handler panicked. */
    method ServeUntil(events: seq<Incoming>) returns (n: nat, panicked: bool)
      requires Valid() && log == [] && open && uuid.None?
      modifies this
      ensures Valid() && Quiet(Value()) && n <= |events| && Value() == OnAll(users, exporter, events[..n])
      ensures n < |events| && open ==> panicked
      ensures panicked ==> n > 0 && Panics(OnAll(users, exporter, events[..n - 1]), events[n - 1])
      ensures n > 0 ==> OnAll(users, exporter, events[..n - 1]).open && Calm(users, exporter, events, n - 1)
    {
      n, panicked := 0, false;
      assert events[..0] == [];
      while n < |events| && open
        invariant n <= |events|
        invariant Valid()
        invariant Value() == OnAll(users, exporter, events[..n])
        invariant Quiet(Value())
        invariant n > 0 ==> OnAll(users, exporter, events[..n - 1]).open && Calm(users, exporter, events, n - 1)
        invariant Calm(users, exporter, events, n)
      {
        var ending := HandleNext(events, n);
        n := n + 1;
        if ending == Panicked {
          return n, true;
        }
      }
    }

    /** One more event of the run. */
    method HandleNext(events: seq<Incoming>, n: nat) returns (ending: Ending)
      requires Valid() && n < |events| && open && Quiet(Value()) && Value() == OnAll(users, exporter, events[..n])
      requires Calm(users, exporter, events, n)
      modifies this
      ensures Valid() && Quiet(Value()) && Value() == OnAll(users, exporter, events[..n + 1])
      ensures ending == Panicked ==> Panics(OnAll(users, exporter, events[..n]), events[n])
      ensures ending != Panicked ==> Calm(users, exporter, events, n + 1)
    {
      OnAllSnoc(users, exporter, events, n);
      QuietStep(users, exporter, Value(), events[n]);
      ending := HandleOne(events[n]);
    }
  }
}
