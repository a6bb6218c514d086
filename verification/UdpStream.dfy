/** A UDP association as it runs: the connection, the id counter, the reassembly buffer and the
    receive channel, and the client's receiving loop over all associations. */
module UdpStreams {
  import opened Bytes
  import opened Target
  import opened Codec
  import opened Fragmentation
  import opened Reassembly
  import opened ReassemblyBuffer
  import opened Sender
  import opened EndToEnd
  import opened Receiving
  import opened WireBuffer

  // ---------------------------------------------------------------- what the connection takes

  /** Which datagrams the connection takes, by their number. */
  type Verdict = nat -> bool

  /** How many datagrams in a row it takes from number `from` on, up to `most`. */
  function Streak(v: Verdict, from: nat, most: nat): (n: nat)
    ensures n <= most
    decreases most
  {
    if most == 0 || !v(from) then 0 else 1 + Streak(v, from + 1, most - 1)
  }

  /** All of these are taken, and the next one, if it is still one of them, is refused. */
  lemma {:induction false} StreakIs(v: Verdict, from: nat, most: nat)
    ensures forall k :: from <= k < from + Streak(v, from, most) ==> v(k)
    ensures Streak(v, from, most) < most ==> !v(from + Streak(v, from, most))
    decreases most
  {
    if most > 0 && v(from) {
      StreakIs(v, from + 1, most - 1);
    }
  }

  lemma {:induction false} StreakUpTo(v: Verdict, from: nat, n: nat, most: nat)
    requires n <= most
    ensures Streak(v, from, n) == Min(n, Streak(v, from, most))
    decreases n
  {
    if n > 0 && v(from) {
      StreakUpTo(v, from + 1, n - 1, most - 1);
    }
  }

  /** How many datagrams a packet is cut into; none if it is refused. */
  function Planned(op: SendOp): (n: nat)
    requires Runnable(op)
  {
    match PlanSend(op.d, op.target, op.payload)
    case Refused(_) => 0
    case Pieces(chunks) => |chunks|
  }

  function Counts(queue: seq<SendOp>): (ns: seq<nat>)
    requires AllRunnable(queue)
    ensures |ns| == |queue|
  {
    if queue == [] then [] else Counts(queue[..|queue| - 1]) + [Planned(queue[|queue| - 1])]
  }

  /** Where the connection stands after packets of so many datagrams: the one it refuses counts too. */
  function After(counts: seq<nat>, v: Verdict, from: nat): (n: nat) {
    if counts == [] then from
    else
      var n := After(counts[..|counts| - 1], v, from);
      n + Offers(counts[|counts| - 1], Streak(v, n, MAX_FRAGMENTS))
  }

  function Offers(count: nat, quota: nat): (n: nat) {
    if quota < count then quota + 1 else count
  }

  /** A send as it goes when the connection stands at datagram number `from`. */
  function Faced(q: SendOp, v: Verdict, from: nat): (op: SendOp) {
    q.(quota := Streak(v, from, MAX_FRAGMENTS))
  }

  /** The sends of a queue as they go, one after the other. */
  function AllFaced(queue: seq<SendOp>, v: Verdict, from: nat): (ops: seq<SendOp>)
    requires AllRunnable(queue)
    ensures |ops| == |queue| && AllRunnable(ops)
  {
    if queue == [] then []
    else
      var init := queue[..|queue| - 1];
      AllFaced(init, v, from) + [Faced(queue[|queue| - 1], v, After(Counts(init), v, from))]
  }

  lemma FacedSnoc(queue: seq<SendOp>, i: nat, v: Verdict, from: nat)
    requires AllRunnable(queue) && i < |queue|
    ensures AllFaced(queue[..i + 1], v, from)
         == AllFaced(queue[..i], v, from) + [Faced(queue[i], v, After(Counts(queue[..i]), v, from))]
    ensures var n := After(Counts(queue[..i]), v, from);
            After(Counts(queue[..i + 1]), v, from) == n + Offers(Planned(queue[i]), Streak(v, n, MAX_FRAGMENTS))
  {
    assert queue[..i + 1][..i] == queue[..i];
    var counts := Counts(queue[..i]);
    assert (counts + [Planned(queue[i])])[..i] == counts;
  }

  /** A connection that takes every datagram gets every packet whose size goes through: what is accepted
      of a queue is all of it, in order, if and only if there is no other. */
  lemma WillingTakesAll(queue: seq<SendOp>, v: Verdict, from: nat)
    requires AllRunnable(queue) && forall n :: v(n)
    ensures Accepted(AllFaced(queue, v, from)) == HandedOver(queue)
       <==> forall n :: 0 <= n < |queue| ==> Fits(queue[n].d, queue[n].target, |queue[n].payload|)
  {
    var ops := AllFaced(queue, v, from);
    AcceptedIsHandedOver(ops);
    forall n | 0 <= n < |queue|
      ensures ops[n] == queue[n].(quota := MAX_FRAGMENTS)
    {
      FacedWilling(queue, v, from, n);
    }
    assert HandedOver(ops) == HandedOver(queue);
    assert forall n :: 0 <= n < |queue| ==>
      (Passes(ops[n]) <==> Fits(queue[n].d, queue[n].target, |queue[n].payload|));
  }

  lemma {:induction false} FacedWilling(queue: seq<SendOp>, v: Verdict, from: nat, n: nat)
    requires AllRunnable(queue) && n < |queue| && forall n :: v(n)
    ensures AllFaced(queue, v, from)[n] == queue[n].(quota := MAX_FRAGMENTS)
    decreases |queue|
  {
    var last := |queue| - 1;
    if n == last {
      WillingStreak(v, After(Counts(queue[..last]), v, from));
    } else {
      FacedWilling(queue[..last], v, from, n);
    }
  }

  lemma WillingStreak(v: Verdict, from: nat)
    requires forall n :: v(n)
    ensures Streak(v, from, MAX_FRAGMENTS) == MAX_FRAGMENTS
  {
    StreakIs(v, from, MAX_FRAGMENTS);
  }

  /** The three ways a send can go. */
  lemma LaunchedIs(id: uint16, op: SendOp)
    requires Runnable(op)
    ensures !Fits(op.d, op.target, |op.payload|) ==> Launched(id, op).None? && Planned(op) == 0
    ensures Fits(op.d, op.target, |op.payload|) && FitsOne(op.d, op.target, |op.payload|) ==>
      && Planned(op) == 1
      && Launched(id, op) == if op.quota == 0 then None else Some(Launch(id, op.target, [op.payload], 1))
    ensures Fits(op.d, op.target, |op.payload|) && !FitsOne(op.d, op.target, |op.payload|) ==> Launched(id, op).Some?
  {
    TakeoffIff(op);
    if Passes(op) {
      TakeoffIs(op);
    }
  }

  lemma OneDatagram(assocId: uint16, l: Launch)
    requires Sized(l) && |l.chunks| == 1 && l.emitted == 1
    ensures Emitted(assocId, l) == [Datagram(assocId, l.id, 1, 0, Addr(l.target), l.chunks[0])]
  {
  }

  lemma Regroup(a: seq<bytes>, b: seq<bytes>, c: seq<bytes>)
    ensures a + b + c == a + (b + c)
  {
  }

  /** What one more launch, or none, adds to what a run has put on the wire, and to its counter. */
  lemma OneMoreLaunch(assocId: uint16, log: seq<bytes>, id: uint16, ls: seq<Launch>, l: Option<Launch>)
    requires (forall n :: 0 <= n < |ls| ==> Sized(ls[n])) && (l.Some? ==> Sized(l.value))
    ensures l.Some? ==>
      && NextId(CounterAfter(id, |ls|)) == CounterAfter(id, |ls + [l.value]|)
      && (forall n :: 0 <= n < |ls + [l.value]| ==> Sized((ls + [l.value])[n]))
      && log + AllEmitted(assocId, ls) + Emitted(assocId, l.value) == log + AllEmitted(assocId, ls + [l.value])
  {
    if l.Some? {
      EmittedSnoc(assocId, ls, l.value);
      NextIdShift(id, |ls|);
      Regroup(log, AllEmitted(assocId, ls), Emitted(assocId, l.value));
    }
  }

  /** A connection: the datagrams it has taken, and how many it was offered. */
  class Connection {
    const verdict: Verdict
    var log: seq<bytes>
    var offered: nat

    constructor (verdict: Verdict)
      ensures this.verdict == verdict && log == [] && offered == 0
    {
      this.verdict := verdict;
      log, offered := [], 0;
    }

    method SendDatagram(datagram: bytes) returns (ok: bool)
      modifies this
      ensures ok == verdict(old(offered)) && offered == old(offered) + 1
      ensures log == if ok then old(log) + [datagram] else old(log)
    {
      ok := verdict(offered);
      offered := offered + 1;
      if ok {
        log := log + [datagram];
      }
    }
  }

  class UdpStream {
    const conn: Connection
    const assocId: uint16
    const buffer: FragmentReassemblyBuffer
    var nextPktId: uint16
    /** The receive channel, which its reader closes after `capacity` packets, and what came too late. */
    const capacity: nat
    var received: seq<UdpPacket>
    ghost var refused: seq<UdpPacket>

    ghost predicate Valid()
      reads this, buffer
    {
      && buffer.Valid() && buffer.owner == assocId
      && |received| <= capacity && (refused != [] ==> |received| == capacity)
    }

    constructor (conn: Connection, assocId: uint16, capacity: nat)
      ensures this.conn == conn && this.assocId == assocId && this.capacity == capacity && nextPktId == 0
      ensures fresh(buffer) && Valid() && buffer.entries == map[] && Value() == NEW_STREAM
    {
      this.conn := conn;
      this.assocId := assocId;
      this.capacity := capacity;
      buffer := new FragmentReassemblyBuffer(assocId);
      nextPktId := 0;
      received, refused := [], [];
    }

    /** The receiving side as `EndToEnd` sees it: what is waiting, and what the channel was offered. */
    ghost function Value(): (st: Stream)
      reads this, buffer, buffer.entries.Values
    {
      Stream(buffer.Value(), received + refused)
    }

    /** The metadata in use is what it was or new. */
    twostate predicate Kept()
      reads buffer
    {
      forall k :: k in buffer.entries ==>
        (k in old(buffer.entries) && buffer.entries[k] == old(buffer.entries[k])) || fresh(buffer.entries[k])
    }

    twostate lemma Undisturbed()
      requires old(Valid()) && unchanged(this) && unchanged(buffer) && unchanged(buffer.entries.Values)
      ensures Valid() && Value() == old(Value()) && Kept()
    {
    }

    /** `receive_packet`: fails, and the packet is lost, when the channel is closed. */
    method ReceivePacket(p: UdpPacket) returns (ok: bool)
      requires Valid()
      modifies this`received, this`refused
      ensures Valid() && buffer.Value() == old(buffer.Value())
      ensures received + refused == old(received + refused) + [p]
      ensures ok == (|old(received)| < capacity) && received == old(received) + if ok then [p] else []
    {
      ok := |received| < capacity;
      if ok {
        received := received + [p];
      } else {
        refused := refused + [p];
      }
      assert forall k :: k in buffer.entries ==> buffer.entries[k].Value() == old(buffer.entries[k].Value());
    }

    /** `process_fragment` for packets of several pieces, then `receive_packet`. */
    method Dispatch(c: Command, target: TargetAddr, payload: bytes, now: nat, shed: set<uint8>, gc: Collection)
      requires c.Packet? && Valid()
      modifies this`received, this`refused, buffer, buffer.entries.Values
      ensures Valid() && Kept()
      ensures Value() == OnPiece(old(Value()), c, target, payload, now, shed, gc)
    {
      var p;
      if c.fragTotal > 1 {
        var info := FragmentInfo(c.assocId, c.pktId, c.fragTotal, c.fragId, None, target);
        p := buffer.AddFragment(info, payload, now, shed, gc);
      } else {
        p := Some(UdpPacket(None, target, payload));
      }
      if p.Some? {
        var _ := ReceivePacket(p.value);
      }
    }

    /** `send_packet`, with `d` the datagram limit while it runs. The outcome is that of `Launched` for
        the number of datagrams that the connection takes in a row. */
    method SendPacket(d: nat, target: TargetAddr, payload: bytes) returns (ok: bool)
      requires Machine(d, payload)
      modifies this`nextPktId, conn
      ensures var op := Faced(SendOp(d, target, payload, 0), conn.verdict, old(conn.offered));
              && conn.offered == old(conn.offered) + Offers(Planned(op), op.quota)
              && match Launched(old(nextPktId), op)
                 case None => !ok && nextPktId == old(nextPktId) && conn.log == old(conn.log)
                 case Some(l) =>
                   && nextPktId == NextId(old(nextPktId))
                   && conn.log == old(conn.log) + Emitted(assocId, l)
                   && (ok <==> l.emitted == |l.chunks|)
      ensures !Fits(d, target, |payload|) ==>
        !ok && nextPktId == old(nextPktId) && conn.log == old(conn.log) && conn.offered == old(conn.offered)
      ensures Fits(d, target, |payload|) && FitsOne(d, target, |payload|) ==>
        && ok == conn.verdict(old(conn.offered)) && conn.offered == old(conn.offered) + 1
        && nextPktId == (if ok then (old(nextPktId) + 1) % 0x1_0000 else old(nextPktId))
        && conn.log == old(conn.log)
                       + if ok then [Datagram(assocId, old(nextPktId), 1, 0, Addr(target), payload)] else []
      ensures Fits(d, target, |payload|) && !FitsOne(d, target, |payload|) ==>
        nextPktId == (old(nextPktId) + 1) % 0x1_0000
    {
      ghost var id, op := nextPktId, Faced(SendOp(d, target, payload, 0), conn.verdict, conn.offered);
      LaunchedIs(id, op);
      if Fits(d, target, |payload|) && FitsOne(d, target, |payload|) && op.quota > 0 {
        OneDatagram(assocId, Launched(id, op).value);
      }
      ok := SendAsPlanned(d, target, payload);
    }

    /** The body of `send_packet`. */
    method SendAsPlanned(d: nat, target: TargetAddr, payload: bytes) returns (ok: bool)
      requires Machine(d, payload)
      modifies this`nextPktId, conn
      ensures var op := Faced(SendOp(d, target, payload, 0), conn.verdict, old(conn.offered));
              && conn.offered == old(conn.offered) + Offers(Planned(op), op.quota)
              && match Launched(old(nextPktId), op)
                 case None => !ok && nextPktId == old(nextPktId) && conn.log == old(conn.log)
                 case Some(l) =>
                   && nextPktId == NextId(old(nextPktId))
                   && conn.log == old(conn.log) + Emitted(assocId, l)
                   && (ok <==> l.emitted == |l.chunks|)
    {
      var addrSize: nat;
      match target {
        case IPv4(_, _) => addrSize := 1 + 4 + 2;
        case IPv6(_, _) => addrSize := 1 + 16 + 2;
        case Domain(name, _) =>
          if |name| > 255 {
            return false;
          }
          addrSize := 1 + 1 + |name| + 2;
      }
      if |payload| <= WrapSub(d, 10 + addrSize) {
        ok := SendWhole(target, payload);
        return;
      }
      ok := SendFragmentedPacket(d, target, payload);
      if FragmentCount(d, target, |payload|) <= MAX_FRAGMENTS {
        StreakUpTo(conn.verdict, old(conn.offered), FragmentCount(d, target, |payload|), MAX_FRAGMENTS);
      }
    }

    /** `send_udp` for a packet that fits, and the next id if it was taken. */
    method SendWhole(target: TargetAddr, payload: bytes) returns (ok: bool)
      requires Encodable(target)
      modifies this`nextPktId, conn
      ensures ok == conn.verdict(old(conn.offered)) && conn.offered == old(conn.offered) + 1
      ensures nextPktId == if ok then NextId(old(nextPktId)) else old(nextPktId)
      ensures conn.log
           == old(conn.log) + if ok then Wire(assocId, old(nextPktId), target, [payload])[..1] else []
    {
      var datagram := WriteDatagram(assocId, nextPktId, 1, 0, Addr(target), payload);
      assert Wire(assocId, nextPktId, target, [payload])[..1] == [datagram];
      ok := conn.SendDatagram(datagram);
      if ok {
        nextPktId := (nextPktId + 1) % 0x1_0000;
      }
    }

    /** A run of sends from the given counter has put its datagrams on the wire after `log`. */
    ghost predicate Sent(log: seq<bytes>, id: uint16, ops: seq<SendOp>)
      reads this, conn
    {
      && AllRunnable(ops)
      && conn.log == log + AllEmitted(assocId, SendRun(id, ops))
      && nextPktId == CounterAfter(id, |SendRun(id, ops)|)
    }

    /** So far in the queue, from datagram number `from`. */
    ghost predicate Progress(queue: seq<SendOp>, log: seq<bytes>, id: uint16, from: nat)
      requires AllRunnable(queue)
      reads this, conn
    {
      Sent(log, id, AllFaced(queue, conn.verdict, from)) && conn.offered == After(Counts(queue), conn.verdict, from)
    }

    /** The sending task: every packet of the queue is sent, a failure is logged and the next one
        taken. What reaches the connection is the run of `SendRun`, which the end-to-end theorem
        starts from, on the sends as the connection's verdicts make them go. */
    method SendQueue(queue: seq<SendOp>)
      requires AllRunnable(queue)
      modifies this`nextPktId, conn
      ensures Progress(queue, old(conn.log), old(nextPktId), old(conn.offered))
    {
      ghost var log, id, from := conn.log, nextPktId, conn.offered;
      var i := 0;
      while i < |queue|
        invariant i <= |queue|
        invariant Progress(queue[..i], log, id, from)
      {
        SendNext(queue, i, log, id, from);
        i := i + 1;
      }
      assert queue[..i] == queue;
    }

    /** One turn of the sending task. */
    method SendNext(queue: seq<SendOp>, i: nat, ghost log: seq<bytes>, ghost id: uint16, ghost from: nat)
      requires AllRunnable(queue) && i < |queue| && Progress(queue[..i], log, id, from)
      modifies this`nextPktId, conn
      ensures Progress(queue[..i + 1], log, id, from)
    {
      FacedSnoc(queue, i, conn.verdict, from);
      SendTo(queue[i], log, id, AllFaced(queue[..i], conn.verdict, from));
    }

    method SendTo(q: SendOp, ghost log: seq<bytes>, ghost id: uint16, ghost ops: seq<SendOp>)
      requires Runnable(q) && Sent(log, id, ops)
      modifies this`nextPktId, conn
      ensures var op := Faced(q, conn.verdict, old(conn.offered));
              Sent(log, id, ops + [op]) && conn.offered == old(conn.offered) + Offers(Planned(q), op.quota)
    {
      ghost var op := Faced(q, conn.verdict, conn.offered);
      ghost var l := Launched(nextPktId, op);
      SendRunSnoc(id, ops, op);
      OneMoreLaunch(assocId, log, id, SendRun(id, ops), l);
      var ok := SendPacket(q.d, q.target, q.payload);
    }

    method SendFragmentedPacket(d: nat, target: TargetAddr, payload: bytes) returns (ok: bool)
      requires SubsequentMax(d) > 0 && Encodable(target)
      modifies this`nextPktId, conn
      ensures var n := FragmentCount(d, target, |payload|);
              if n > MAX_FRAGMENTS then
                && !ok && nextPktId == old(nextPktId) && conn.log == old(conn.log) && conn.offered == old(conn.offered)
              else
                var taken := Streak(conn.verdict, old(conn.offered), n);
                && nextPktId == NextId(old(nextPktId)) && (ok <==> taken == n)
                && conn.offered == old(conn.offered) + (if taken < n then taken + 1 else n)
                && conn.log == old(conn.log)
                               + Wire(assocId, old(nextPktId), target, Slices(d, target, payload, n))[..taken]
    {
      var payloadLen := |payload|;
      var firstMax := FirstMax(d, target);
      var subsequentMax := SubsequentMax(d);
      var fragmentCount := if payloadLen <= firstMax then 1 else 1 + DivCeil(payloadLen - firstMax, subsequentMax);
      if fragmentCount > MAX_FRAGMENTS {
        return false;
      }
      var pktId := nextPktId;
      nextPktId := (nextPktId + 1) % 0x1_0000;
      ok := SendFragments(d, target, payload, pktId, fragmentCount);
    }

    /** So far `k` datagrams of `wire` have been taken, from datagram number `from`, of at most `n`. */
    ghost predicate Taken(log: seq<bytes>, wire: seq<bytes>, from: nat, k: nat, n: nat)
      requires k <= n <= |wire|
      reads conn
    {
      && conn.log == log + wire[..k] && conn.offered == from + k
      && Streak(conn.verdict, from, n) == k + Streak(conn.verdict, from + k, n - k)
    }

    /** The loop: cut the payload and send a datagram for each piece until one is not taken. */
    method SendFragments(d: nat, target: TargetAddr, payload: bytes, pktId: uint16, fragmentCount: nat)
      returns (ok: bool)
      requires Encodable(target) && fragmentCount <= MAX_FRAGMENTS
      modifies conn
      ensures var taken := Streak(conn.verdict, old(conn.offered), fragmentCount);
              && (ok <==> taken == fragmentCount)
              && conn.offered == old(conn.offered) + (if ok then fragmentCount else taken + 1)
              && conn.log == old(conn.log)
                             + Wire(assocId, pktId, target, Slices(d, target, payload, fragmentCount))[..taken]
    {
      ghost var wire := Wire(assocId, pktId, target, Slices(d, target, payload, fragmentCount));
      ghost var log, from := conn.log, conn.offered;
      var offset := 0;
      var fragId := 0;
      while fragId < fragmentCount
        invariant fragId <= fragmentCount
        invariant offset == Offset(d, target, |payload|, fragId)
        invariant Taken(log, wire, from, fragId, fragmentCount)
      {
        var accepted;
        accepted, offset := SendSlice(d, target, payload, pktId, fragmentCount, fragId, offset, log, wire, from);
        if !accepted {
          return false;
        }
        fragId := fragId + 1;
      }
      return true;
    }

    method SendSlice(d: nat, target: TargetAddr, payload: bytes, pktId: uint16, fragmentCount: uint8, fragId: uint8,
                     offset: nat, ghost log: seq<bytes>, ghost wire: seq<bytes>, ghost from: nat)
      returns (ok: bool, end: nat)
      requires Encodable(target) && fragId < fragmentCount && offset == Offset(d, target, |payload|, fragId)
      requires wire == Wire(assocId, pktId, target, Slices(d, target, payload, fragmentCount))
      requires Taken(log, wire, from, fragId, fragmentCount)
      modifies conn
      ensures end == Offset(d, target, |payload|, fragId + 1)
      ensures if ok then Taken(log, wire, from, fragId + 1, fragmentCount)
              else
                && conn.log == log + wire[..fragId] && conn.offered == from + fragId + 1
                && Streak(conn.verdict, from, fragmentCount) == fragId
    {
      var maxFragPayload := if fragId == 0 then FirstMax(d, target) else SubsequentMax(d);
      var remaining := |payload| - offset;
      end := offset + Min(remaining, maxFragPayload);
      NextOffset(d, target, |payload|, fragId);
      OneMorePiece(assocId, pktId, d, target, payload, fragmentCount, fragId);
      ok := SendPiece(target, pktId, fragmentCount, fragId, payload[offset..end], log, wire, from);
    }

    method SendPiece(target: TargetAddr, pktId: uint16, fragTotal: uint8, fragId: uint8, piece: bytes,
                     ghost log: seq<bytes>, ghost wire: seq<bytes>, ghost from: nat)
      returns (ok: bool)
      requires Encodable(target) && fragId < fragTotal <= |wire| && Taken(log, wire, from, fragId, fragTotal)
      requires wire[..fragId + 1] == wire[..fragId] + [PieceDatagram(assocId, pktId, target, fragTotal, fragId, piece)]
      modifies conn
      ensures if ok then Taken(log, wire, from, fragId + 1, fragTotal)
              else
                && conn.log == log + wire[..fragId] && conn.offered == from + fragId + 1
                && Streak(conn.verdict, from, fragTotal) == fragId
    {
      var address := if fragId == 0 then Addr(target) else NoAddress;
      var datagram := WriteDatagram(assocId, pktId, fragTotal, fragId, address, piece);
      ok := conn.SendDatagram(datagram);
    }
  }

  /** The client: its open associations. */
  class TuicOutbound {
    var sessions: map<uint16, UdpStream>
    var assocCounter: uint16
    /** The associations as `EndToEnd` sees them. */
    ghost var view: Sessions

    constructor ()
      ensures Valid() && view == map[] && assocCounter == 0
    {
      sessions := map[];
      assocCounter := 0;
      view := map[];
    }

    ghost function Buffers(): (bs: set<FragmentReassemblyBuffer>)
      reads this
    {
      set a | a in sessions :: sessions[a].buffer
    }

    ghost function Metas(): (ms: set<FragmentMetadata>)
      reads this, sessions.Values, Buffers()
    {
      set a, k | a in sessions && k in sessions[a].buffer.entries :: sessions[a].buffer.entries[k]
    }

    /** Every stream is under its own id, so associations share neither buffers nor metadata. */
    ghost predicate Valid()
      reads this, sessions.Values, Buffers(), Metas()
    {
      && (forall a :: a in sessions <==> a in view)
      && (forall a :: a in sessions ==>
            sessions[a].assocId == a && sessions[a].Valid() && sessions[a].Value() == view[a])
    }

    /** The start of `handle_udp`: the next association id and a new stream under it. After 65536
        associations the ids come round and a new stream takes the place of an old one. */
    method OpenAssociation(conn: Connection, capacity: nat) returns (s: UdpStream)
      requires Valid()
      modifies this
      ensures Valid() && fresh(s) && fresh(s.buffer) && s.assocId == old(assocCounter) && s.capacity == capacity
      ensures assocCounter == NextId(old(assocCounter)) && sessions == old(sessions)[old(assocCounter) := s]
      ensures view == old(view)[s.assocId := NEW_STREAM]
    {
      var id := assocCounter;
      assocCounter := (assocCounter + 1) % 0x1_0000;
      s := new UdpStream(conn, id, capacity);
      sessions := sessions[id := s];
      view := view[id := NEW_STREAM];
    }

    /** All metadata in use is what it was or new. */
    twostate predicate AllKept()
      reads this, sessions.Values, Buffers()
    {
      sessions == old(sessions) && forall a :: a in sessions ==> sessions[a].Kept()
    }

    twostate lemma Undisturbed()
      requires old(Valid()) && unchanged(this) && unchanged(sessions.Values)
      requires unchanged(Buffers()) && unchanged(Metas())
      ensures Valid() && Buffers() == old(Buffers()) && Metas() == old(Metas())
    {
    }

    /** The datagram branch of `start_poll`: decode, find the association, dispatch. It panics
        exactly on a datagram whose size field exceeds what is left of it. */
    method HandleDatagram(g: Arriving) returns (panicked: bool)
      requires Valid()
      modifies this`view, Buffers(), Metas(), sessions.Values`received, sessions.Values`refused
      ensures Valid() && AllKept()
      ensures panicked <==> Parse(g.datagram).Overrun?
      ensures OnArrival(old(view), g) == if panicked then None else Some(view)
      ensures panicked ==> view == old(view)
    {
      var parsed := ReadDatagram(g.datagram);
      Undisturbed();
      panicked := HandleParsed(parsed, g);
    }

    method HandleParsed(parsed: Parsed, g: Arriving) returns (panicked: bool)
      requires Valid() && parsed == Parse(g.datagram)
      modifies this`view, Buffers(), Metas(), sessions.Values`received, sessions.Values`refused
      ensures Valid() && AllKept()
      ensures panicked <==> parsed.Overrun?
      ensures OnArrival(old(view), g) == if panicked then None else Some(view)
      ensures panicked ==> view == old(view)
    {
      if parsed.Overrun? {
        return true;
      }
      if parsed.Fragment? && parsed.command.assocId in sessions {
        ArrivalDispatched(view, g, parsed);
        DispatchTo(parsed.command, TargetOf(parsed.address), parsed.payload, g);
      } else {
        ArrivalIgnored(view, g, parsed);
      }
      return false;
    }

    method DispatchTo(c: Command, target: TargetAddr, payload: bytes, g: Arriving)
      requires Valid() && c.Packet? && c.assocId in sessions
      modifies this`view, Buffers(), Metas(), sessions.Values`received, sessions.Values`refused
      ensures Valid() && AllKept()
      ensures view == old(view)[c.assocId := OnPiece(old(view)[c.assocId], c, target, payload, g.now, g.shed, g.gc)]
    {
      ghost var st := DispatchAlone(c, target, payload, g);
      SetView(c.assocId, st);
    }

    ghost method SetView(a: uint16, st: Stream)
      requires a in sessions && forall b :: b in sessions <==> b in view
      requires forall b :: b in sessions ==>
        sessions[b].assocId == b && sessions[b].Valid() && sessions[b].Value() == if b == a then st else view[b]
      modifies this`view
      ensures Valid() && view == old(view)[a := st]
    {
      view := view[a := st];
      forall b | b in sessions
        ensures sessions[b].Valid() && sessions[b].Value() == view[b]
      {
        sessions[b].Undisturbed();
      }
    }

    /** Dispatching to one association leaves every other as it was. */
    method DispatchAlone(c: Command, target: TargetAddr, payload: bytes, g: Arriving) returns (ghost st: Stream)
      requires Valid() && c.Packet? && c.assocId in sessions
      modifies Buffers(), Metas(), sessions.Values`received, sessions.Values`refused
      ensures AllKept() && forall b :: b in sessions ==> sessions[b].Valid()
      ensures forall b :: b in sessions ==> sessions[b].Value() == if b == c.assocId then st else view[b]
      ensures st == OnPiece(view[c.assocId], c, target, payload, g.now, g.shed, g.gc)
    {
      var s := sessions[c.assocId];
      s.Dispatch(c, target, payload, g.now, g.shed, g.gc);
      st := s.Value();
      forall b | b in sessions && b != c.assocId
        ensures sessions[b].Valid() && sessions[b].Value() == view[b] && sessions[b].Kept()
      {
        sessions[b].Undisturbed();
      }
    }

    /** The receiving loop from datagram `i` on, as a tail call. Whatever every step of the loop on
        values keeps, a panic included, holds of the objects. */
    method ReceiveFrom(arrivals: seq<Arriving>, i: nat, ghost inv: Invariant) returns (panicked: bool, n: nat)
      requires Valid() && i <= |arrivals| && inv(i, Some(view)) && Inductive(arrivals, inv)
      modifies this`view, Buffers(), Metas(), sessions.Values`received, sessions.Values`refused
      ensures Valid() && i <= n <= |arrivals| && (!panicked ==> n == |arrivals|)
      ensures inv(n, if panicked then None else Some(view))
      decreases |arrivals| - i
    {
      if i == |arrivals| {
        return false, i;
      }
      panicked := ReceiveOne(arrivals, i, inv);
      if panicked {
        return true, i + 1;
      }
      panicked, n := ReceiveFrom(arrivals, i + 1, inv);
    }

    method ReceiveOne(arrivals: seq<Arriving>, i: nat, ghost inv: Invariant) returns (panicked: bool)
      requires Valid() && i < |arrivals| && inv(i, Some(view)) && Inductive(arrivals, inv)
      modifies this`view, Buffers(), Metas(), sessions.Values`received, sessions.Values`refused
      ensures Valid() && AllKept() && inv(i + 1, if panicked then None else Some(view))
    {
      assert inv(i + 1, OnArrival(view, arrivals[i]));
      panicked := HandleDatagram(arrivals[i]);
    }

    /** So the loop does with the objects what `OnArrivals` does with values, and panics where that does. */
    method ReceiveAll(arrivals: seq<Arriving>) returns (panicked: bool)
      requires Valid()
      modifies this`view, Buffers(), Metas(), sessions.Values`received, sessions.Values`refused
      ensures Valid() && OnArrivals(old(view), arrivals) == if panicked then None else Some(view)
    {
      ghost var ss := view;
      HandledIsInductive(ss, arrivals);
      var n;
      panicked, n := ReceiveFrom(arrivals, 0, HandledTo(ss, arrivals));
      HandledAll(ss, arrivals, n, if panicked then None else Some(view));
    }

    /** The end-to-end theorem for the objects: whatever was sent, however its datagrams arrive, at most
        once each, and whatever the collector takes, the channel of the association holds a
        sub-multiset of the packets accepted for sending. It holds all of them if every datagram
        arrives, the collector spares them and the channel does not close before, and these are all
        that were handed over if every one of them passes. */
    method ReceiveSent(arrivals: seq<Arriving>, ghost a: uint16, ghost id: uint16, ghost ops: seq<SendOp>,
                       ghost marks: seq<NetEvent>)
      requires Valid() && a in sessions && view[a] == NEW_STREAM && Scenario(a, id, ops, marks, arrivals)
      modifies this`view, Buffers(), Metas(), sessions.Values`received, sessions.Values`refused
      ensures Valid() && a in sessions && multiset(sessions[a].received) <= multiset(Accepted(ops))
      ensures Complete(a, id, ops, marks, arrivals) && sessions[a].capacity >= |Accepted(ops)| ==>
        multiset(sessions[a].received) == multiset(Accepted(ops))
      ensures Complete(a, id, ops, marks, arrivals) && sessions[a].capacity >= |ops|
              && (forall n :: 0 <= n < |ops| ==> Passes(ops[n])) ==>
        multiset(sessions[a].received) == multiset(HandedOver(ops))
    {
      AcceptedIsHandedOver(ops);
      OfferedSent(a, id, ops, view, marks, arrivals);
      var panicked := ReceiveAll(arrivals);
      ChannelHolds(sessions[a].received, sessions[a].refused, sessions[a].capacity, Accepted(ops));
    }
  }

  // ---------------------------------------------------------------- the loop on values

  lemma ArrivalDispatched(ss: Sessions, g: Arriving, p: Parsed)
    requires p == Parse(g.datagram) && p.Fragment? && p.command.assocId in ss
    ensures OnArrival(ss, g)
         == Some(ss[p.command.assocId := OnPiece(ss[p.command.assocId], p.command, TargetOf(p.address), p.payload,
                                                 g.now, g.shed, g.gc)])
  {
  }

  lemma ArrivalIgnored(ss: Sessions, g: Arriving, p: Parsed)
    requires p == Parse(g.datagram) && !p.Overrun? && !(p.Fragment? && p.command.assocId in ss)
    ensures OnArrival(ss, g) == Some(ss)
  {
  }

  /** A property of the client's state after so many datagrams; `None` is a task that has panicked. */
  type Invariant = (nat, Option<Sessions>) -> bool

  /** Every step of the loop keeps the property. */
  ghost predicate Inductive(arrivals: seq<Arriving>, inv: Invariant) {
    forall i, ss {:trigger inv(i + 1, OnArrival(ss, arrivals[i]))} ::
      0 <= i < |arrivals| && inv(i, Some(ss)) ==> inv(i + 1, OnArrival(ss, arrivals[i]))
  }

  ghost function HandledTo(ss: Sessions, arrivals: seq<Arriving>): (inv: Invariant) {
    (n: nat, r: Option<Sessions>) => n <= |arrivals| && r == OnArrivals(ss, arrivals[..n])
  }

  lemma HandledIsInductive(ss: Sessions, arrivals: seq<Arriving>)
    ensures HandledTo(ss, arrivals)(0, Some(ss)) && Inductive(arrivals, HandledTo(ss, arrivals))
  {
    assert arrivals[..0] == [] && OnArrivals(ss, []) == Some(ss);
    var inv := HandledTo(ss, arrivals);
    forall i, ss1 | 0 <= i < |arrivals| && inv(i, Some(ss1))
      ensures inv(i + 1, OnArrival(ss1, arrivals[i]))
    {
      ArrivalsSnoc(ss, arrivals, i);
    }
    assert inv(0, Some(ss));
    assert Inductive(arrivals, inv);
  }

  lemma HandledAll(ss: Sessions, arrivals: seq<Arriving>, n: nat, r: Option<Sessions>)
    requires HandledTo(ss, arrivals)(n, r) && n <= |arrivals| && (r.Some? ==> n == |arrivals|)
    ensures r == OnArrivals(ss, arrivals)
  {
    assert arrivals[..|arrivals|] == arrivals;
    if r.None? {
      PanicIsFinal(ss, arrivals, n, |arrivals|);
    }
  }

  lemma ArrivalsSnoc(ss: Sessions, gs: seq<Arriving>, i: nat)
    requires i < |gs|
    ensures OnArrivals(ss, gs[..i + 1])
         == var init := OnArrivals(ss, gs[..i]); if init.None? then None else OnArrival(init.value, gs[i])
  {
    assert gs[..i + 1][..i] == gs[..i];
  }

  lemma {:induction false} PanicIsFinal(ss: Sessions, gs: seq<Arriving>, i: nat, j: nat)
    requires i <= j <= |gs| && OnArrivals(ss, gs[..i]).None?
    ensures OnArrivals(ss, gs[..j]).None?
    decreases j
  {
    if i < j {
      PanicIsFinal(ss, gs, i, j - 1);
      assert gs[..j][..|gs[..j]| - 1] == gs[..j - 1];
      PanicStays(ss, gs[..j]);
    }
  }

  lemma PanicStays(ss: Sessions, gs: seq<Arriving>)
    requires gs != [] && OnArrivals(ss, gs[..|gs| - 1]).None?
    ensures OnArrivals(ss, gs).None?
  {
  }

  /** A channel that takes as many packets as there are refuses none. */
  lemma ChannelHolds(got: seq<UdpPacket>, late: seq<UdpPacket>, capacity: nat, sent: seq<UdpPacket>)
    requires multiset(got + late) <= multiset(sent) && (late != [] ==> |got| == capacity)
    ensures multiset(got) <= multiset(sent)
    ensures capacity >= |sent| ==> late == [] && got + late == got
  {
    assert multiset(got + late) == multiset(got) + multiset(late);
    SubmultisetSize(multiset(got + late), multiset(sent));
    assert |multiset(got + late)| == |got| + |late| && |multiset(sent)| == |sent|;
  }

  lemma {:induction false} SubmultisetSize(x: multiset<UdpPacket>, y: multiset<UdpPacket>)
    requires x <= y
    ensures |x| <= |y|
    decreases |x|
  {
    assert y == x + (y - x);
  }
}
