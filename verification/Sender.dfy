/** The sending half of a UDP association: packet ids, the two ways of sending, and what any
    sequence of sends puts on the wire. */
module Sender {
  import opened Bytes
  import opened Target
  import opened Codec
  import opened Fragmentation

  /** One call of `send_packet`: the connection's datagram limit at the time, the packet, and how
      many datagrams the connection takes before it refuses one. */
  datatype SendOp = SendOp(d: nat, target: TargetAddr, payload: bytes, quota: nat)

  /** A packet that takes off: its pieces, and how many of them go out. */
  datatype Flight = Flight(packet: UdpPacket, chunks: seq<bytes>, emitted: nat)

  /** The same with the id it was given. */
  datatype Launch = Launch(id: uint16, target: TargetAddr, chunks: seq<bytes>, emitted: nat)

  predicate Runnable(op: SendOp) {
    Machine(op.d, op.payload)
  }

  function NextId(id: uint16): (r: uint16) {
    (id + 1) % 0x1_0000
  }

  predicate Sized(l: Launch) {
    Encodable(l.target) && 1 <= |l.chunks| <= MAX_FRAGMENTS && l.emitted <= |l.chunks|
  }

  function LaunchOf(id: uint16, f: Flight): (l: Launch) {
    Launch(id, f.packet.target, f.chunks, f.emitted)
  }

  /** A refused packet does not take off, and neither does one that failed to go out whole. */
  function Takeoff(op: SendOp): (f: Option<Flight>)
    requires Runnable(op)
    ensures f.Some? ==> Sized(LaunchOf(0, f.value)) && f.value.packet == UdpPacket(None, op.target, op.payload)
  {
    match PlanSend(op.d, op.target, op.payload)
    case Refused(_) => None
    case Pieces(chunks) =>
      if FitsSingle(op.d, op.target, op.payload) && op.quota == 0 then None
      else Some(Flight(UdpPacket(None, op.target, op.payload), chunks, Min(op.quota, |chunks|)))
  }

  function Launched(id: uint16, op: SendOp): (l: Option<Launch>)
    requires Runnable(op)
    ensures l.Some? ==> Sized(l.value) && l.value.id == id
  {
    match Takeoff(op)
    case None => None
    case Some(f) => Some(LaunchOf(id, f))
  }

  /** The sizes that go through: the domain fits its length byte, and the payload 255 fragments. A limit
      too small for the first header lets every payload through, because the subtraction wraps. */
  predicate Fits(d: nat, t: TargetAddr, size: nat) {
    && (t.Domain? ==> |t.name| <= 255)
    && (d < Overhead(t) || size <= (d - Overhead(t)) + 254 * (d - 11))
  }

  /** The sizes that go in one datagram. */
  predicate FitsOne(d: nat, t: TargetAddr, size: nat) {
    d < Overhead(t) || size <= d - Overhead(t)
  }

  /** A packet takes off exactly if its size goes through and, when it is one datagram, the connection
      takes that. */
  predicate Passes(op: SendOp) {
    && Fits(op.d, op.target, |op.payload|)
    && (FitsOne(op.d, op.target, |op.payload|) ==> op.quota > 0)
  }

  lemma TakeoffIff(op: SendOp)
    requires Runnable(op)
    ensures Takeoff(op).Some? <==> Passes(op)
  {
    if Encodable(op.target) && Overhead(op.target) <= op.d {
      AcceptedIff(op.d, op.target, op.payload);
    }
  }

  /** What takes off is the packet, in one piece or in the fewest fragments, and of these as many go out
      as the connection takes. */
  lemma TakeoffIs(op: SendOp)
    requires Runnable(op) && Passes(op)
    ensures Takeoff(op).Some?
    ensures var f := Takeoff(op).value;
            && f.packet == UdpPacket(None, op.target, op.payload) && Flatten(f.chunks) == op.payload
            && (FitsOne(op.d, op.target, |op.payload|) ==> f.chunks == [op.payload])
            && (!FitsOne(op.d, op.target, |op.payload|) ==>
                  |f.chunks| > 1 && |op.payload| > (op.d - Overhead(op.target)) + (|f.chunks| - 2) * (op.d - 11))
            && (op.quota <= |f.chunks| ==> f.emitted == op.quota)
            && (op.quota >= |f.chunks| ==> f.emitted == |f.chunks|)
  {
    TakeoffIff(op);
    PlanExact(op.d, op.target, op.payload);
    if !FitsOne(op.d, op.target, |op.payload|) {
      CountIsLeast(op.d, op.target, |op.payload|);
    }
  }

  /** The datagrams of a launch that reached the connection. */
  function Emitted(assocId: uint16, l: Launch): (w: seq<bytes>)
    requires Sized(l)
  {
    Wire(assocId, l.id, l.target, l.chunks)[..l.emitted]
  }

  // ---------------------------------------------------------------- ids over a run

  /** Ids for a sequence of sends, starting from the given counter: one for each that takes off. */
  function Number(id: uint16, fs: seq<Option<Flight>>): (ls: seq<Launch>)
    decreases |fs|
  {
    if fs == [] then []
    else if fs[0].None? then Number(id, fs[1..])
    else [LaunchOf(id, fs[0].value)] + Number(NextId(id), fs[1..])
  }

  /** The packets that took off, in order. */
  function Packets(fs: seq<Option<Flight>>): (ps: seq<UdpPacket>) {
    if fs == [] then []
    else if fs[0].None? then Packets(fs[1..])
    else [fs[0].value.packet] + Packets(fs[1..])
  }

  function CounterAfter(id: uint16, launches: nat): (r: uint16) {
    (id + launches) % 0x1_0000
  }

  lemma NextIdShift(id: uint16, k: nat)
    ensures CounterAfter(NextId(id), k) == CounterAfter(id, k + 1)
    ensures NextId(CounterAfter(id, k)) == CounterAfter(id, k + 1)
  {
    if id == 0xFFFF {
      assert (0x1_0000 + k) % 0x1_0000 == k % 0x1_0000;
    }
  }

  lemma {:induction false} NumberIds(id: uint16, fs: seq<Option<Flight>>, k: nat)
    requires k < |Number(id, fs)|
    ensures Number(id, fs)[k].id == CounterAfter(id, k)
    decreases |fs|
  {
    if fs[0].None? {
      NumberIds(id, fs[1..], k);
    } else if k > 0 {
      NumberIds(NextId(id), fs[1..], k - 1);
      NextIdShift(id, k - 1);
    }
  }

  lemma {:induction false} NumberSnoc(id: uint16, fs: seq<Option<Flight>>, f: Option<Flight>)
    ensures Number(id, fs + [f])
         == if f.Some? then Number(id, fs) + [LaunchOf(CounterAfter(id, |Number(id, fs)|), f.value)] else Number(id, fs)
    decreases |fs|
  {
    var all := fs + [f];
    if fs == [] {
      assert all[1..] == [];
    } else {
      assert all[1..] == fs[1..] + [f];
      if fs[0].None? {
        NumberSnoc(id, fs[1..], f);
      } else {
        NumberSnoc(NextId(id), fs[1..], f);
        NextIdShift(id, |Number(NextId(id), fs[1..])|);
      }
    }
  }

  lemma {:induction false} NumberPackets(id: uint16, fs: seq<Option<Flight>>, k: nat)
    requires forall n :: 0 <= n < |fs| && fs[n].Some? ==>
      Flatten(fs[n].value.chunks) == fs[n].value.packet.payload && fs[n].value.packet.source == None
    ensures |Number(id, fs)| == |Packets(fs)|
    ensures k < |Packets(fs)| ==>
      var l := Number(id, fs)[k];
      Packets(fs)[k] == UdpPacket(None, l.target, Flatten(l.chunks))
    decreases |fs|
  {
    if fs != [] {
      if fs[0].None? {
        NumberPackets(id, fs[1..], k);
      } else {
        NumberPackets(NextId(id), fs[1..], if k == 0 then 0 else k - 1);
      }
    }
  }

  /** Numbering passes on whatever holds of each flight under any id. */
  lemma {:induction false} NumberKeeps(id: uint16, fs: seq<Option<Flight>>, good: Launch -> bool)
    requires forall n, i: uint16 :: 0 <= n < |fs| && fs[n].Some? ==> good(LaunchOf(i, fs[n].value))
    ensures forall n :: 0 <= n < |Number(id, fs)| ==> good(Number(id, fs)[n])
    decreases |fs|
  {
    if fs != [] {
      NumberKeeps(if fs[0].None? then id else NextId(id), fs[1..], good);
    }
  }

  // ---------------------------------------------------------------- runs of sends

  predicate AllRunnable(ops: seq<SendOp>) {
    forall n :: 0 <= n < |ops| ==> Runnable(ops[n])
  }

  function Takeoffs(ops: seq<SendOp>): (fs: seq<Option<Flight>>)
    requires AllRunnable(ops)
    ensures |fs| == |ops| && forall n :: 0 <= n < |ops| ==> fs[n] == Takeoff(ops[n])
  {
    seq(|ops|, n requires 0 <= n < |ops| => Takeoff(ops[n]))
  }

  /** The launches of a sequence of sends, starting from the given counter. */
  function SendRun(id: uint16, ops: seq<SendOp>): (ls: seq<Launch>)
    requires AllRunnable(ops)
    ensures forall n :: 0 <= n < |ls| ==> Sized(ls[n])
  {
    NumberKeeps(id, Takeoffs(ops), l => Sized(l));
    Number(id, Takeoffs(ops))
  }

  /** The packets that were given an id, in the order they were handed over. */
  function Accepted(ops: seq<SendOp>): (ps: seq<UdpPacket>)
    requires AllRunnable(ops)
  {
    Packets(Takeoffs(ops))
  }

  lemma {:induction false} PacketsSnoc(fs: seq<Option<Flight>>, f: Option<Flight>)
    ensures Packets(fs + [f]) == Packets(fs) + if f.Some? then [f.value.packet] else []
    decreases |fs|
  {
    var all := fs + [f];
    if fs == [] {
      assert all[1..] == [];
    } else {
      assert all[1..] == fs[1..] + [f];
      PacketsSnoc(fs[1..], f);
    }
  }

  /** One more packet is accepted exactly if it passes, and comes after those accepted before. */
  lemma AcceptedSnoc(ops: seq<SendOp>, op: SendOp)
    requires AllRunnable(ops) && Runnable(op)
    ensures AllRunnable(ops + [op])
    ensures Accepted(ops + [op]) == Accepted(ops) + if Passes(op) then [UdpPacket(None, op.target, op.payload)] else []
  {
    assert Takeoffs(ops + [op]) == Takeoffs(ops) + [Takeoff(op)];
    PacketsSnoc(Takeoffs(ops), Takeoff(op));
    TakeoffIff(op);
  }

  /** The packets handed over, in order. */
  function HandedOver(ops: seq<SendOp>): (ps: seq<UdpPacket>) {
    seq(|ops|, n requires 0 <= n < |ops| => UdpPacket(None, ops[n].target, ops[n].payload))
  }

  lemma {:induction false} PacketsAll(fs: seq<Option<Flight>>)
    ensures |Packets(fs)| <= |fs|
    ensures |Packets(fs)| == |fs| <==> forall n :: 0 <= n < |fs| ==> fs[n].Some?
    ensures |Packets(fs)| == |fs| ==> forall n :: 0 <= n < |fs| ==> Packets(fs)[n] == fs[n].value.packet
    decreases |fs|
  {
    if fs != [] {
      PacketsAll(fs[1..]);
      assert forall n :: 0 < n < |fs| ==> fs[n] == fs[1..][n - 1];
      assert forall n :: 0 <= n < |fs| - 1 ==> fs[1..][n] == fs[n + 1];
    }
  }

  /** A run accepts exactly the packets handed over, in order, if and only if every one of them passes. */
  lemma AcceptedIsHandedOver(ops: seq<SendOp>)
    requires AllRunnable(ops)
    ensures Accepted(ops) == HandedOver(ops) <==> forall n :: 0 <= n < |ops| ==> Passes(ops[n])
  {
    var fs := Takeoffs(ops);
    PacketsAll(fs);
    forall n | 0 <= n < |ops|
      ensures fs[n].Some? <==> Passes(ops[n])
      ensures fs[n].Some? ==> fs[n].value.packet == HandedOver(ops)[n]
    {
      TakeoffIff(ops[n]);
    }
  }

  lemma SameRemainder(x: nat, y: nat, m: nat)
    requires m > 0 && x <= y
    ensures x % m == y % m <==> (y - x) % m == 0
  {
    var c := y / m - x / m - (y - x) / m;
    assert c * m == (y / m) * m - (x / m) * m - ((y - x) / m) * m;
    assert c * m == (y - x) % m - (y % m - x % m);
    if x % m == y % m || (y - x) % m == 0 {
      OnlyMultiple(c, m);
    }
  }

  /** Whatever is refused or fails in between, ids are handed out one after the other: the k-th launch
      has the k-th id modulo 65536, and two launches share an id exactly when they lie a multiple of
      65536 launches apart. */
  lemma IdsFresh(id: uint16, ops: seq<SendOp>, j: nat, k: nat)
    requires AllRunnable(ops) && j < k < |SendRun(id, ops)|
    ensures SendRun(id, ops)[k].id == (id + k) % 0x1_0000
    ensures SendRun(id, ops)[j].id == SendRun(id, ops)[k].id <==> (k - j) % 0x1_0000 == 0
    ensures k - j < 0x1_0000 ==> SendRun(id, ops)[j].id != SendRun(id, ops)[k].id
  {
    NumberIds(id, Takeoffs(ops), j);
    NumberIds(id, Takeoffs(ops), k);
    SameId(id, j, k);
  }

  lemma SameId(id: uint16, j: nat, k: nat)
    requires j < k
    ensures CounterAfter(id, j) == CounterAfter(id, k) <==> (k - j) % 0x1_0000 == 0
    ensures k - j < 0x1_0000 ==> CounterAfter(id, j) != CounterAfter(id, k)
  {
    SameRemainder(id + j, id + k, 0x1_0000);
  }

  /** Everything a sequence of launches put on the wire, in order. */
  function AllEmitted(assocId: uint16, ls: seq<Launch>): (w: seq<bytes>)
    requires forall n :: 0 <= n < |ls| ==> Sized(ls[n])
  {
    if ls == [] then [] else AllEmitted(assocId, ls[..|ls| - 1]) + Emitted(assocId, ls[|ls| - 1])
  }

  lemma EmittedSnoc(assocId: uint16, ls: seq<Launch>, l: Launch)
    requires Sized(l) && forall n :: 0 <= n < |ls| ==> Sized(ls[n])
    ensures AllEmitted(assocId, ls + [l]) == AllEmitted(assocId, ls) + Emitted(assocId, l)
  {
  }

  /** One more send continues the run from the counter where it stands. */
  lemma SendRunSnoc(id: uint16, ops: seq<SendOp>, op: SendOp)
    requires AllRunnable(ops) && Runnable(op)
    ensures AllRunnable(ops + [op])
    ensures var ls := SendRun(id, ops);
            var l := Launched(CounterAfter(id, |ls|), op);
            SendRun(id, ops + [op]) == if l.Some? then ls + [l.value] else ls
  {
    assert Takeoffs(ops + [op]) == Takeoffs(ops) + [Takeoff(op)];
    NumberSnoc(id, Takeoffs(ops), Takeoff(op));
  }

  /** The pieces of every launch make up the packet that was handed over. */
  lemma LaunchesCarryPackets(id: uint16, ops: seq<SendOp>, k: nat)
    requires AllRunnable(ops)
    ensures |SendRun(id, ops)| == |Accepted(ops)|
    ensures k < |Accepted(ops)| ==>
      var l := SendRun(id, ops)[k];
      Accepted(ops)[k] == UdpPacket(None, l.target, Flatten(l.chunks))
  {
    var fs := Takeoffs(ops);
    forall n | 0 <= n < |fs| && fs[n].Some?
      ensures Flatten(fs[n].value.chunks) == fs[n].value.packet.payload
    {
      PlanExact(ops[n].d, ops[n].target, ops[n].payload);
    }
    NumberPackets(id, fs, k);
  }

  /** The limit has room for the first header, or the payload fits the sixteen-bit size field. */
  predicate Faithful(op: SendOp) {
    Overhead(op.target) <= op.d || |op.payload| < 0x1_0000
  }

  /** What the receiver may rely on for each launch. */
  predicate WellMade(l: Launch) {
    && Sized(l)
    && forall c <- l.chunks :: |c| < 0x1_0000
  }

  lemma LaunchWellMade(id: uint16, op: SendOp)
    requires Runnable(op) && Faithful(op) && Launched(id, op).Some?
    ensures WellMade(Launched(id, op).value)
  {
    var l := Launched(id, op).value;
    forall j | 0 <= j < |l.chunks|
      ensures |l.chunks[j]| < 0x1_0000
    {
      if Overhead(op.target) <= op.d {
        FragmentLengths(op.d, op.target, op.payload, 0, 0, j);
      }
    }
  }

  lemma LaunchesWellMade(id: uint16, ops: seq<SendOp>)
    requires AllRunnable(ops) && forall n :: 0 <= n < |ops| ==> Faithful(ops[n])
    ensures forall n :: 0 <= n < |SendRun(id, ops)| ==> WellMade(SendRun(id, ops)[n])
  {
    var fs := Takeoffs(ops);
    forall n, i: uint16 | 0 <= n < |fs| && fs[n].Some?
      ensures WellMade(LaunchOf(i, fs[n].value))
    {
      LaunchWellMade(i, ops[n]);
    }
    NumberKeeps(id, fs, l => WellMade(l));
  }

  /** The running offset of the loop is the closed form. */
  lemma NextOffset(d: nat, t: TargetAddr, len: nat, j: nat)
    ensures var o := Offset(d, t, len, j);
            Offset(d, t, len, j + 1) == o + Min(len - o, if j == 0 then FirstMax(d, t) else SubsequentMax(d))
  {
    if j > 0 {
      assert (j - 1) * SubsequentMax(d) + SubsequentMax(d) == j * SubsequentMax(d);
    }
  }

  /** The piece cut off by the loop is the next slice, and its datagram the next on the wire. */
  lemma OneMorePiece(assocId: uint16, pktId: uint16, d: nat, t: TargetAddr, payload: bytes, n: nat, j: nat)
    requires Encodable(t) && j < n <= MAX_FRAGMENTS
    ensures var wire := Wire(assocId, pktId, t, Slices(d, t, payload, n));
            wire[..j + 1] == wire[..j] + [PieceDatagram(assocId, pktId, t, n, j, Slice(d, t, payload, j))]
  {
  }
}
