/** How a packet is cut into datagrams (sections 7.4 and 8.2 to 8.7 of the TUIC
    specification): the sizes, the number of fragments, the slices and their limits. */
module Fragmentation {
  import opened Bytes
  import opened Target
  import opened Codec

  const MAX_FRAGMENTS: nat := 255

  /** The number of `usize` values on a 64-bit machine, and the longest buffer it can hold. */
  const USIZE_RANGE: nat := 0x1_0000_0000_0000_0000
  const MAX_BUFFER: nat := 0x7FFF_FFFF_FFFF_FFFF

  function AddrSize(t: TargetAddr): (n: nat) {
    match t
    case IPv4(_, _) => 1 + 4 + 2
    case IPv6(_, _) => 1 + 16 + 2
    case Domain(name, _) => 1 + 1 + |name| + 2
  }

  function Overhead(t: TargetAddr): (n: nat) {
    10 + AddrSize(t)
  }

  /** The overheads the sender reckons with are the lengths the encoders really write. */
  lemma DatagramLength(assocId: uint16, pktId: uint16, fragTotal: uint8, fragId: uint8, a: Address, chunk: bytes)
    requires EncodableAddress(a)
    ensures |Datagram(assocId, pktId, fragTotal, fragId, a, chunk)|
         == (if a.Addr? then Overhead(a.addr) else 11) + |chunk|
  {
  }

  // ---------------------------------------------------------------- capacities and count

  function SatSub(x: nat, y: nat): (r: nat) {
    if x >= y then x - y else 0
  }

  /** Subtraction of `usize` without overflow check, as a release build does it. */
  function WrapSub(x: nat, y: nat): (r: nat)
    requires x < USIZE_RANGE && y <= USIZE_RANGE
  {
    if x >= y then x - y else USIZE_RANGE + x - y
  }

  function FirstMax(d: nat, t: TargetAddr): (n: nat) {
    SatSub(d, Overhead(t))
  }

  function SubsequentMax(d: nat): (n: nat) {
    SatSub(d, 11)
  }

  function DivCeil(n: nat, d: nat): (q: nat)
    requires d > 0
  {
    if n % d > 0 then n / d + 1 else n / d
  }

  lemma DivCeilBounds(n: nat, d: nat)
    requires d > 0 && n > 0
    ensures DivCeil(n, d) > 0
    ensures (DivCeil(n, d) - 1) * d < n <= DivCeil(n, d) * d
  {
  }

  lemma OnlyMultiple(c: int, m: int)
    requires -m < c * m < m
    ensures c == 0
  {
  }

  lemma DivCeilUnique(n: nat, d: nat, q: nat)
    requires d > 0 && n > 0 && (q - 1) * d < n <= q * d
    ensures q == DivCeil(n, d)
  {
    DivCeilBounds(n, d);
    var c := DivCeil(n, d);
    assert (q - 1) * d == q * d - d && (c - 1) * d == c * d - d;
    assert (q - c) * d == q * d - c * d;
    OnlyMultiple(q - c, d);
  }

  function FragmentCount(d: nat, t: TargetAddr, len: nat): (n: nat)
    requires SubsequentMax(d) > 0
    ensures n >= 1
  {
    if len <= FirstMax(d, t) then 1 else 1 + DivCeil(len - FirstMax(d, t), SubsequentMax(d))
  }

  /** What `n` fragments can hold. */
  function Capacity(d: nat, t: TargetAddr, n: nat): (c: nat) {
    if n == 0 then 0 else FirstMax(d, t) + (n - 1) * SubsequentMax(d)
  }

  lemma Times(x: nat, y: nat, z: nat)
    requires x <= y
    ensures x * z <= y * z
  {
  }

  lemma CapacityMonotone(d: nat, t: TargetAddr, m: nat, n: nat)
    requires m <= n
    ensures Capacity(d, t, m) <= Capacity(d, t, n)
  {
    if m > 0 {
      Times(m - 1, n - 1, SubsequentMax(d));
    }
  }

  lemma CountIsLeast(d: nat, t: TargetAddr, len: nat)
    requires SubsequentMax(d) > 0
    ensures len <= Capacity(d, t, FragmentCount(d, t, len))
    ensures FragmentCount(d, t, len) > 1 ==> Capacity(d, t, FragmentCount(d, t, len) - 1) < len
  {
    if len > FirstMax(d, t) {
      DivCeilBounds(len - FirstMax(d, t), SubsequentMax(d));
    }
  }

  lemma CountAtMost(d: nat, t: TargetAddr, len: nat, n: nat)
    requires SubsequentMax(d) > 0 && n >= 1
    ensures FragmentCount(d, t, len) <= n <==> len <= Capacity(d, t, n)
  {
    CountIsLeast(d, t, len);
    var c := FragmentCount(d, t, len);
    if c <= n {
      CapacityMonotone(d, t, c, n);
    } else {
      CapacityMonotone(d, t, n, c - 1);
    }
  }

  lemma {:induction false} PiecesWithinCapacity(d: nat, t: TargetAddr, pieces: seq<bytes>)
    requires pieces != [] && |pieces[0]| <= FirstMax(d, t)
    requires forall i :: 1 <= i < |pieces| ==> |pieces[i]| <= SubsequentMax(d)
    ensures |Flatten(pieces)| <= Capacity(d, t, |pieces|)
    decreases |pieces|
  {
    var last := |pieces| - 1;
    FlattenSnoc(pieces[..last], pieces[last]);
    assert pieces[..last] + [pieces[last]] == pieces;
    if last > 0 {
      PiecesWithinCapacity(d, t, pieces[..last]);
      assert (last - 1) * SubsequentMax(d) + SubsequentMax(d) == last * SubsequentMax(d);
    } else {
      assert pieces[..last] == [];
    }
  }

  /** No way of cutting the payload under the same two capacities takes fewer fragments. */
  lemma CountIsOptimal(d: nat, t: TargetAddr, payload: bytes, pieces: seq<bytes>)
    requires SubsequentMax(d) > 0 && pieces != [] && Flatten(pieces) == payload
    requires |pieces[0]| <= FirstMax(d, t)
    requires forall i :: 1 <= i < |pieces| ==> |pieces[i]| <= SubsequentMax(d)
    ensures FragmentCount(d, t, |payload|) <= |pieces|
  {
    PiecesWithinCapacity(d, t, pieces);
    CountAtMost(d, t, |payload|, |pieces|);
  }

  // ---------------------------------------------------------------- slices

  function Min(x: nat, y: nat): (m: nat) {
    if x <= y then x else y
  }

  /** Where fragment `j` starts, in closed form. */
  function Offset(d: nat, t: TargetAddr, len: nat, j: nat): (o: nat)
    ensures o <= len
  {
    Min(len, Capacity(d, t, j))
  }

  function Slice(d: nat, t: TargetAddr, payload: bytes, j: nat): (s: bytes) {
    CapacityMonotone(d, t, j, j + 1);
    payload[Offset(d, t, |payload|, j)..Offset(d, t, |payload|, j + 1)]
  }

  function Slices(d: nat, t: TargetAddr, payload: bytes, n: nat): (s: seq<bytes>)
    ensures |s| == n
    ensures forall j :: 0 <= j < n ==> s[j] == Slice(d, t, payload, j)
  {
    seq(n, j requires 0 <= j < n => Slice(d, t, payload, j))
  }

  lemma Glue(s: bytes, i: nat, j: nat)
    requires i <= j <= |s|
    ensures s[..i] + s[i..j] == s[..j]
  {
  }

  lemma {:induction false} SlicesPrefix(d: nat, t: TargetAddr, payload: bytes, n: nat)
    ensures Flatten(Slices(d, t, payload, n)) == payload[..Offset(d, t, |payload|, n)]
    decreases n
  {
    if n > 0 {
      SlicesPrefix(d, t, payload, n - 1);
      assert Slices(d, t, payload, n) == Slices(d, t, payload, n - 1) + [Slice(d, t, payload, n - 1)];
      FlattenSnoc(Slices(d, t, payload, n - 1), Slice(d, t, payload, n - 1));
      CapacityMonotone(d, t, n - 1, n);
      Glue(payload, Offset(d, t, |payload|, n - 1), Offset(d, t, |payload|, n));
    }
  }

  /** The slices put together are the payload: nothing lost, repeated or reordered. */
  lemma SlicesExact(d: nat, t: TargetAddr, payload: bytes)
    requires SubsequentMax(d) > 0
    ensures Flatten(Slices(d, t, payload, FragmentCount(d, t, |payload|))) == payload
  {
    CountIsLeast(d, t, |payload|);
    SlicesPrefix(d, t, payload, FragmentCount(d, t, |payload|));
  }

  /** No slice exceeds its capacity, all but the last are full, and the last of several is not empty. */
  lemma SliceSizes(d: nat, t: TargetAddr, payload: bytes, j: nat)
    requires SubsequentMax(d) > 0 && j < FragmentCount(d, t, |payload|)
    ensures var room := if j == 0 then FirstMax(d, t) else SubsequentMax(d);
            && |Slice(d, t, payload, j)| <= room
            && (j < FragmentCount(d, t, |payload|) - 1 ==> |Slice(d, t, payload, j)| == room)
            && (j > 0 ==> |Slice(d, t, payload, j)| > 0)
  {
    var n := FragmentCount(d, t, |payload|);
    CountIsLeast(d, t, |payload|);
    if j > 0 {
      assert (j - 1) * SubsequentMax(d) + SubsequentMax(d) == j * SubsequentMax(d);
      CapacityMonotone(d, t, j, n - 1);
    }
    if j < n - 1 {
      CapacityMonotone(d, t, j + 1, n - 1);
    }
  }

  // ---------------------------------------------------------------- the decision

  datatype Refusal = DomainNameTooLong | TooManyFragments

  /** What `send_packet` decides to do: refuse, or send these pieces in this order. */
  datatype Plan = Refused(why: Refusal) | Pieces(chunks: seq<bytes>)

  /** The inputs on which the arithmetic of `send_packet` is that of this model. */
  predicate Machine(d: nat, payload: bytes) {
    d <= 0xFFFF && |payload| <= MAX_BUFFER
  }

  predicate FitsSingle(d: nat, t: TargetAddr, payload: bytes)
    requires Machine(d, payload) && Encodable(t)
  {
    |payload| <= WrapSub(d, Overhead(t))
  }

  function PlanSend(d: nat, t: TargetAddr, payload: bytes): (p: Plan)
    requires Machine(d, payload)
    ensures p.Pieces? ==> 1 <= |p.chunks| <= MAX_FRAGMENTS && Encodable(t)
  {
    if !Encodable(t) then Refused(DomainNameTooLong)
    else if FitsSingle(d, t, payload) then Pieces([payload])
    else if FragmentCount(d, t, |payload|) > MAX_FRAGMENTS then Refused(TooManyFragments)
    else Pieces(Slices(d, t, payload, FragmentCount(d, t, |payload|)))
  }

  /** The datagram of piece `j` out of `n`: only the first carries the address. */
  function PieceDatagram(assocId: uint16, pktId: uint16, t: TargetAddr, n: uint8, j: uint8, chunk: bytes): (b: bytes)
    requires Encodable(t)
  {
    Datagram(assocId, pktId, n, j, if j == 0 then Addr(t) else NoAddress, chunk)
  }

  function Wire(assocId: uint16, pktId: uint16, t: TargetAddr, chunks: seq<bytes>): (w: seq<bytes>)
    requires Encodable(t) && |chunks| <= MAX_FRAGMENTS
    ensures |w| == |chunks|
  {
    seq(|chunks|, j requires 0 <= j < |chunks| => PieceDatagram(assocId, pktId, t, |chunks|, j, chunks[j]))
  }

  /** When the datagram limit leaves room for the first header, sending in one piece is the
      case of one fragment, and the pieces are always the slices. */
  lemma PlanIsSlices(d: nat, t: TargetAddr, payload: bytes)
    requires Machine(d, payload) && Overhead(t) <= d && PlanSend(d, t, payload).Pieces?
    ensures PlanSend(d, t, payload).chunks == Slices(d, t, payload, FragmentCount(d, t, |payload|))
  {
    if FitsSingle(d, t, payload) {
      assert payload[0..|payload|] == payload;
    }
  }

  /** The plan's pieces are the payload, whatever the limit. */
  lemma PlanExact(d: nat, t: TargetAddr, payload: bytes)
    requires Machine(d, payload) && PlanSend(d, t, payload).Pieces?
    ensures Flatten(PlanSend(d, t, payload).chunks) == payload
  {
    if FitsSingle(d, t, payload) {
      FlattenSnoc([], payload);
      assert [] + [payload] == [payload];
    } else {
      SlicesExact(d, t, payload);
    }
  }

  /** A packet is accepted exactly up to the capacity of 255 fragments. */
  lemma AcceptedIff(d: nat, t: TargetAddr, payload: bytes)
    requires Machine(d, payload) && Encodable(t) && Overhead(t) <= d
    ensures PlanSend(d, t, payload).Pieces? <==> |payload| <= (d - Overhead(t)) + 254 * (d - 11)
  {
    CountAtMost(d, t, |payload|, MAX_FRAGMENTS);
  }

  /** Every datagram of the plan keeps within the limit. */
  ghost predicate WithinLimit(d: nat, t: TargetAddr, payload: bytes, assocId: uint16, pktId: uint16)
    requires Machine(d, payload) && PlanSend(d, t, payload).Pieces?
  {
    forall w <- Wire(assocId, pktId, t, PlanSend(d, t, payload).chunks) :: |w| <= d
  }

  /** Of several datagrams all but the last are exactly as long as the limit. */
  lemma FragmentLengths(d: nat, t: TargetAddr, payload: bytes, assocId: uint16, pktId: uint16, j: nat)
    requires Machine(d, payload) && PlanSend(d, t, payload).Pieces? && Overhead(t) <= d
    requires j < |PlanSend(d, t, payload).chunks|
    ensures var w := Wire(assocId, pktId, t, PlanSend(d, t, payload).chunks);
            && |w[j]| <= d
            && (j < |w| - 1 ==> |w[j]| == d)
            && |PlanSend(d, t, payload).chunks[j]| <= d - 11
  {
    var chunks := PlanSend(d, t, payload).chunks;
    PlanIsSlices(d, t, payload);
    SliceSizes(d, t, payload, j);
    DatagramLength(assocId, pktId, |chunks|, j, if j == 0 then Addr(t) else NoAddress, chunks[j]);
  }

  /** The datagrams keep within the limit exactly when it has room for the first header. Below
      that the unchecked subtraction wraps round and the packet goes out whole. */
  lemma WithinLimitIff(d: nat, t: TargetAddr, payload: bytes, assocId: uint16, pktId: uint16)
    requires Machine(d, payload) && PlanSend(d, t, payload).Pieces?
    ensures WithinLimit(d, t, payload, assocId, pktId) <==> Overhead(t) <= d
  {
    var w := Wire(assocId, pktId, t, PlanSend(d, t, payload).chunks);
    if Overhead(t) <= d {
      forall j | 0 <= j < |w|
        ensures |w[j]| <= d
      {
        FragmentLengths(d, t, payload, assocId, pktId, j);
      }
    } else {
      DatagramLength(assocId, pktId, 1, 0, Addr(t), payload);
      assert w[0] in w && |w[0]| > d;
    }
  }

  // ---------------------------------------------------------------- every UDP payload

  ghost predicate Sendable(d: nat, t: TargetAddr, payload: bytes) {
    && Machine(d, payload)
    && PlanSend(d, t, payload).Pieces?
    && forall assocId: uint16, pktId: uint16 :: WithinLimit(d, t, payload, assocId, pktId)
  }

  /** Every payload a UDP datagram can have goes to every destination. */
  ghost predicate SendsEverything(d: nat) {
    forall t: TargetAddr, payload: bytes :: Encodable(t) && |payload| <= 0xFFFF ==> Sendable(d, t, payload)
  }

  /** A datagram limit of 270 bytes is what it takes, and it suffices. */
  lemma SendsEverythingIff(d: nat)
    requires d <= 0xFFFF
    ensures SendsEverything(d) <==> d >= 270
  {
    if d >= 270 {
      forall t: TargetAddr, payload: bytes | Encodable(t) && |payload| <= 0xFFFF
        ensures Sendable(d, t, payload)
      {
        AcceptedIff(d, t, payload);
        forall assocId: uint16, pktId: uint16
          ensures WithinLimit(d, t, payload, assocId, pktId)
        {
          WithinLimitIff(d, t, payload, assocId, pktId);
        }
      }
    } else {
      var name: bytes := seq(255, _ => 97);
      AsciiIsUtf8(name);
      var t := Domain(name, 53);
      var payload: bytes := seq(0xFFFF, _ => 0);
      if Overhead(t) <= d {
        AcceptedIff(d, t, payload);
      } else if PlanSend(d, t, payload).Pieces? {
        WithinLimitIff(d, t, payload, 0, 0);
      }
      assert !Sendable(d, t, payload);
    }
  }
}
