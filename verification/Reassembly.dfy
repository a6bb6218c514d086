/** The reassembly buffer as a value: one step of `add_fragment`, and what holds over every
    sequence of steps and evictions. */
module Reassembly {
  import opened Bytes
  import opened Target

  /** (association, packet). */
  type Key = (uint16, uint16)

  datatype FragmentInfo = FragmentInfo(assocId: uint16, pktId: uint16, fragTotal: uint8, fragId: uint8,
                                       source: Option<TargetAddr>, target: TargetAddr)

  datatype Meta = Meta(total: uint8, frags: map<uint8, bytes>, updated: nat,
                       source: Option<TargetAddr>, target: TargetAddr)

  type Buffer = map<Key, Meta>

  /** Clock readings are nanoseconds since the first one; metadata keeps whole seconds. */
  const SECOND: nat := 1_000_000_000
  const FRAGMENT_TIMEOUT: nat := 30 * SECOND

  function KeyOf(info: FragmentInfo): (k: Key) {
    (info.assocId, info.pktId)
  }

  predicate IsPlaceholder(t: TargetAddr) {
    t.IPv4? && t.v4 == [0, 0, 0, 0] && t.port == 0
  }

  /** Insertion into a cache of the given capacity. Only an overfull cache sheds entries, and
      which ones is the cache's own choice. */
  function Insert(frags: map<uint8, bytes>, id: uint8, payload: bytes, capacity: nat, shed: set<uint8>)
    : (r: map<uint8, bytes>)
  {
    var full := frags[id := payload];
    if |full| <= capacity then full else full - shed
  }

  function Fresh(info: FragmentInfo, now: nat): (m: Meta) {
    Meta(info.fragTotal, map[], now / SECOND, info.source, info.target)
  }

  /** The first fragment settles the destination, unless it names the placeholder. */
  function Touched(m: Meta, info: FragmentInfo, now: nat): (r: Meta) {
    m.(target := if info.fragId == 0 && !IsPlaceholder(info.target) then info.target else m.target,
       updated := now / SECOND)
  }

  function Stored(m: Meta, info: FragmentInfo, payload: bytes, now: nat, shed: set<uint8>): (r: Meta) {
    Touched(m, info, now).(frags := Insert(m.frags, info.fragId, payload, m.total, shed))
  }

  function EntryAfter(b: Buffer, info: FragmentInfo, payload: bytes, now: nat, shed: set<uint8>): (m: Meta) {
    Stored(if KeyOf(info) in b then b[KeyOf(info)] else Fresh(info, now), info, payload, now, shed)
  }

  // ---------------------------------------------------------------- putting fragments together

  predicate HasAll(frags: map<uint8, bytes>, n: nat)
    requires n <= 0x100
  {
    forall i: uint8 :: i < n ==> i in frags
  }

  function InOrder(frags: map<uint8, bytes>, n: nat): (s: seq<bytes>)
    requires n <= 0x100 && HasAll(frags, n)
    ensures |s| == n && forall i: uint8 :: i < n ==> s[i] == frags[i]
  {
    seq(n, i requires 0 <= i < n => frags[i])
  }

  function Assemble(m: Meta): (p: Option<UdpPacket>) {
    if HasAll(m.frags, m.total) then Some(UdpPacket(m.source, m.target, Flatten(InOrder(m.frags, m.total)))) else None
  }

  datatype Added = Added(buf: Buffer, out: Option<UdpPacket>)

  function AddFragment(b: Buffer, info: FragmentInfo, payload: bytes, now: nat, shed: set<uint8>): (r: Added) {
    var m := EntryAfter(b, info, payload, now, shed);
    if |m.frags| == m.total then Added(b - {KeyOf(info)}, Assemble(m))
    else Added(b[KeyOf(info) := m], None)
  }

  // ---------------------------------------------------------------- the count test

  function Indices(n: nat): (s: set<uint8>)
    requires n <= 0x100
    ensures forall i: uint8 :: i in s <==> i < n
  {
    if n == 0 then {} else Indices(n - 1) + {n - 1}
  }

  lemma {:induction false} IndicesSize(n: nat)
    requires n <= 0x100
    ensures |Indices(n)| == n
  {
    if n > 0 {
      IndicesSize(n - 1);
      var last: uint8 := n - 1;
      assert last !in Indices(n - 1);
    }
  }

  lemma {:induction false} SubsetSize(s: set<uint8>, t: set<uint8>)
    requires s <= t
    ensures |s| <= |t|
    ensures |s| == |t| ==> s == t
  {
    if s != {} {
      var x :| x in s;
      SubsetSize(s - {x}, t - {x});
    }
  }

  /** Counting entries is as good as looking for every index, by the pigeonhole principle,
      when no index is out of range. */
  lemma CountIsIndexTest(frags: map<uint8, bytes>, n: uint8)
    requires frags.Keys <= Indices(n)
    ensures |frags| <= n
    ensures |frags| == n <==> HasAll(frags, n)
  {
    IndicesSize(n);
    SubsetSize(frags.Keys, Indices(n));
    assert |frags| == |frags.Keys|;
    if HasAll(frags, n) {
      assert frags.Keys == Indices(n);
    } else {
      var i: uint8 :| i < n && i !in frags;
      assert i in Indices(n) && i !in frags.Keys;
    }
  }

  // ---------------------------------------------------------------- runs

  /** A fragment arrives, or the cache drops entries: by timeout, by capacity, at will. */
  datatype Event =
    | Add(info: FragmentInfo, payload: bytes, now: nat, shed: set<uint8>)
    | Evict(keys: set<Key>)

  /** The buffer and the packets it has produced, each with the key of the call that did. */
  datatype State = State(buf: Buffer, outs: seq<(Key, UdpPacket)>)

  function Step(s: State, e: Event): (s': State) {
    match e
    case Add(info, payload, now, shed) =>
      var r := AddFragment(s.buf, info, payload, now, shed);
      State(r.buf, if r.out.Some? then s.outs + [(KeyOf(info), r.out.value)] else s.outs)
    case Evict(keys) => s.(buf := s.buf - keys)
  }

  function Run(s: State, evs: seq<Event>): (s': State) {
    if evs == [] then s else Step(Run(s, evs[..|evs| - 1]), evs[|evs| - 1])
  }

  const INITIAL: State := State(map[], [])

  // ---------------------------------------------------------------- non-interference

  function Only(b: Buffer, k: Key): (r: Buffer) {
    if k in b then map[k := b[k]] else map[]
  }

  function OutsOf(outs: seq<(Key, UdpPacket)>, k: Key): (r: seq<(Key, UdpPacket)>) {
    if outs == [] then []
    else
      var init := OutsOf(outs[..|outs| - 1], k);
      if outs[|outs| - 1].0 == k then init + [outs[|outs| - 1]] else init
  }

  /** The events that concern one key. */
  function EventsOf(evs: seq<Event>, k: Key): (r: seq<Event>) {
    if evs == [] then []
    else
      var init := EventsOf(evs[..|evs| - 1], k);
      match evs[|evs| - 1]
      case Add(info, _, _, _) => if KeyOf(info) == k then init + [evs[|evs| - 1]] else init
      case Evict(keys) => if k in keys then init + [Evict({k})] else init
  }

  function Projected(s: State, k: Key): (r: State) {
    State(Only(s.buf, k), OutsOf(s.outs, k))
  }

  lemma OutsSnoc(outs: seq<(Key, UdpPacket)>, o: (Key, UdpPacket), k: Key)
    ensures OutsOf(outs + [o], k) == if o.0 == k then OutsOf(outs, k) + [o] else OutsOf(outs, k)
  {
  }

  lemma ProjectStep(s: State, e: Event, k: Key)
    requires e.Add? ==> KeyOf(e.info) == k
    requires e.Evict? ==> k in e.keys
    ensures Projected(Step(s, e), k) == Step(Projected(s, k), if e.Evict? then Evict({k}) else e)
  {
    if e.Add? {
      ProjectAdd(s.buf, e, k);
      var r := AddFragment(s.buf, e.info, e.payload, e.now, e.shed);
      if r.out.Some? {
        OutsSnoc(s.outs, (k, r.out.value), k);
      }
    } else {
      assert Only(s.buf - e.keys, k) == Only(s.buf, k) - {k};
    }
  }

  lemma ProjectAdd(b: Buffer, e: Event, k: Key)
    requires e.Add? && KeyOf(e.info) == k
    ensures var r, r' := AddFragment(b, e.info, e.payload, e.now, e.shed),
                         AddFragment(Only(b, k), e.info, e.payload, e.now, e.shed);
            r'.out == r.out && r'.buf == Only(r.buf, k)
  {
  }

  lemma SkipStep(s: State, e: Event, k: Key)
    requires e.Add? ==> KeyOf(e.info) != k
    requires e.Evict? ==> k !in e.keys
    ensures Projected(Step(s, e), k) == Projected(s, k)
  {
  }

  /** What happens to one key depends on the events of that key alone, however many other
      packets and associations are interleaved and however badly formed they are. */
  lemma {:induction false} NonInterference(s: State, evs: seq<Event>, k: Key)
    ensures Projected(Run(s, evs), k) == Run(Projected(s, k), EventsOf(evs, k))
    decreases |evs|
  {
    if evs != [] {
      var init, e := evs[..|evs| - 1], evs[|evs| - 1];
      NonInterference(s, init, k);
      if (e.Add? && KeyOf(e.info) == k) || (e.Evict? && k in e.keys) {
        ProjectStep(Run(s, init), e, k);
        var e' := if e.Evict? then Evict({k}) else e;
        assert (EventsOf(init, k) + [e'])[..|EventsOf(init, k)|] == EventsOf(init, k);
      } else {
        SkipStep(Run(s, init), e, k);
      }
    }
  }

  // ---------------------------------------------------------------- provenance

  /** Some arrived fragment of this key had this index and this payload. */
  ghost predicate Supplied(evs: seq<Event>, k: Key, i: nat, piece: bytes) {
    exists e :: e in evs && e.Add? && KeyOf(e.info) == k && e.info.fragId == i && e.payload == piece
  }

  ghost predicate TotalSupplied(evs: seq<Event>, k: Key, n: nat) {
    exists e :: e in evs && e.Add? && KeyOf(e.info) == k && e.info.fragTotal == n
  }

  ghost predicate AddressSupplied(evs: seq<Event>, k: Key, t: TargetAddr) {
    exists e :: e in evs && e.Add? && KeyOf(e.info) == k && e.info.target == t
  }

  ghost predicate SourceSupplied(evs: seq<Event>, k: Key, s: Option<TargetAddr>) {
    exists e :: e in evs && e.Add? && KeyOf(e.info) == k && e.info.source == s
  }

  ghost predicate EntryFrom(evs: seq<Event>, k: Key, m: Meta) {
    && (forall i :: i in m.frags ==> Supplied(evs, k, i, m.frags[i]))
    && TotalSupplied(evs, k, m.total)
    && AddressSupplied(evs, k, m.target)
    && SourceSupplied(evs, k, m.source)
  }

  /** The packet is fragments 0, 1, ... of this key in index order, as many as some fragment
      of the key announced, with a destination and a source that came with the key. */
  ghost predicate MadeOf(evs: seq<Event>, k: Key, p: UdpPacket, pieces: seq<bytes>) {
    && p.payload == Flatten(pieces)
    && (forall i :: 0 <= i < |pieces| ==> Supplied(evs, k, i, pieces[i]))
    && TotalSupplied(evs, k, |pieces|)
    && AddressSupplied(evs, k, p.target)
    && SourceSupplied(evs, k, p.source)
  }

  ghost predicate PacketFrom(evs: seq<Event>, k: Key, p: UdpPacket) {
    exists pieces: seq<bytes> :: MadeOf(evs, k, p, pieces)
  }

  lemma SuppliedLater(evs: seq<Event>, e: Event, k: Key, i: nat, piece: bytes)
    requires Supplied(evs, k, i, piece)
    ensures Supplied(evs + [e], k, i, piece)
  {
  }

  lemma RestSuppliedLater(evs: seq<Event>, e: Event, k: Key, n: nat, t: TargetAddr, s: Option<TargetAddr>)
    requires TotalSupplied(evs, k, n) && AddressSupplied(evs, k, t) && SourceSupplied(evs, k, s)
    ensures TotalSupplied(evs + [e], k, n) && AddressSupplied(evs + [e], k, t) && SourceSupplied(evs + [e], k, s)
  {
  }

  lemma EntryFromLater(evs: seq<Event>, e: Event, k: Key, m: Meta)
    requires EntryFrom(evs, k, m)
    ensures EntryFrom(evs + [e], k, m)
  {
  }

  lemma PacketFromLater(evs: seq<Event>, e: Event, k: Key, p: UdpPacket)
    requires PacketFrom(evs, k, p)
    ensures PacketFrom(evs + [e], k, p)
  {
    var pieces: seq<bytes> :| MadeOf(evs, k, p, pieces);
    forall i | 0 <= i < |pieces|
      ensures Supplied(evs + [e], k, i, pieces[i])
    {
      SuppliedLater(evs, e, k, i, pieces[i]);
    }
    RestSuppliedLater(evs, e, k, |pieces|, p.target, p.source);
    assert MadeOf(evs + [e], k, p, pieces);
  }

  lemma StoredFrom(evs: seq<Event>, e: Event, b: Buffer)
    requires e.Add?
    requires KeyOf(e.info) in b ==> EntryFrom(evs, KeyOf(e.info), b[KeyOf(e.info)])
    ensures EntryFrom(evs + [e], KeyOf(e.info), EntryAfter(b, e.info, e.payload, e.now, e.shed))
  {
  }

  lemma AssembledFrom(evs: seq<Event>, k: Key, m: Meta)
    requires EntryFrom(evs, k, m) && Assemble(m).Some?
    ensures PacketFrom(evs, k, Assemble(m).value)
  {
    var pieces := InOrder(m.frags, m.total);
    forall i | 0 <= i < |pieces|
      ensures Supplied(evs, k, i, pieces[i])
    {
      var j: uint8 := i;
      assert j in m.frags && pieces[i] == m.frags[j];
    }
    assert MadeOf(evs, k, Assemble(m).value, pieces);
  }

  ghost predicate EntriesFrom(evs: seq<Event>, b: Buffer) {
    forall k :: k in b ==> EntryFrom(evs, k, b[k])
  }

  ghost predicate OutputsFrom(evs: seq<Event>, outs: seq<(Key, UdpPacket)>) {
    forall o :: o in outs ==> PacketFrom(evs, o.0, o.1)
  }

  lemma EntriesStep(evs: seq<Event>, e: Event, s: State)
    requires EntriesFrom(evs, s.buf)
    ensures EntriesFrom(evs + [e], Step(s, e).buf)
  {
    var s' := Step(s, e);
    forall k | k in s'.buf
      ensures EntryFrom(evs + [e], k, s'.buf[k])
    {
      if e.Add? && k == KeyOf(e.info) {
        StoredFrom(evs, e, s.buf);
      } else {
        EntryFromLater(evs, e, k, s.buf[k]);
      }
    }
  }

  lemma OutputsStep(evs: seq<Event>, e: Event, s: State)
    requires EntriesFrom(evs, s.buf) && OutputsFrom(evs, s.outs)
    ensures OutputsFrom(evs + [e], Step(s, e).outs)
  {
    forall o | o in Step(s, e).outs
      ensures PacketFrom(evs + [e], o.0, o.1)
    {
      if o in s.outs {
        PacketFromLater(evs, e, o.0, o.1);
      } else {
        StoredFrom(evs, e, s.buf);
        AssembledFrom(evs + [e], KeyOf(e.info), EntryAfter(s.buf, e.info, e.payload, e.now, e.shed));
      }
    }
  }

  /** For every run, well formed or not: a packet that comes out was made only of fragments
      that came in under its key, in index order. */
  lemma {:induction false} Provenance(evs: seq<Event>)
    ensures EntriesFrom(evs, Run(INITIAL, evs).buf)
    ensures OutputsFrom(evs, Run(INITIAL, evs).outs)
    decreases |evs|
  {
    if evs != [] {
      var init, e := evs[..|evs| - 1], evs[|evs| - 1];
      Provenance(init);
      assert evs == init + [e];
      EntriesStep(init, e, Run(INITIAL, init));
      OutputsStep(init, e, Run(INITIAL, init));
    }
  }

  // ---------------------------------------------------------------- well-formed traffic

  /** Every fragment's index is below its total, and fragments of one key agree on the total. */
  ghost predicate WellFormed(evs: seq<Event>, totals: Key -> uint8) {
    forall e :: e in evs && e.Add? ==> e.info.fragId < e.info.fragTotal && e.info.fragTotal == totals(KeyOf(e.info))
  }

  /** Entries hold indices in range, and not all of them. */
  ghost predicate Tidy(b: Buffer, totals: Key -> uint8) {
    forall k :: k in b ==>
      && b[k].total == totals(k)
      && b[k].frags.Keys <= Indices(b[k].total)
      && !HasAll(b[k].frags, b[k].total)
  }

  /** One well-formed fragment: nothing is shed, and the count test succeeds exactly when no index is
      missing, so the search for the fragments never comes up short. */
  lemma CountTestExact(b: Buffer, totals: Key -> uint8, info: FragmentInfo, payload: bytes, now: nat, shed: set<uint8>)
    requires Tidy(b, totals) && info.fragId < info.fragTotal == totals(KeyOf(info))
    ensures var m := EntryAfter(b, info, payload, now, shed);
            && m.total == totals(KeyOf(info)) && m.frags.Keys <= Indices(m.total)
            && m.frags == (if KeyOf(info) in b then b[KeyOf(info)].frags else map[])[info.fragId := payload]
            && (|m.frags| == m.total <==> HasAll(m.frags, m.total))
            && (AddFragment(b, info, payload, now, shed).out.Some? <==> HasAll(m.frags, m.total))
  {
    var k := KeyOf(info);
    var held: map<uint8, bytes> := if k in b then b[k].frags else map[];
    var full := held[info.fragId := payload];
    assert full.Keys == held.Keys + {info.fragId};
    CountIsIndexTest(full, info.fragTotal);
  }

  lemma TidyStep(b: Buffer, totals: Key -> uint8, info: FragmentInfo, payload: bytes, now: nat, shed: set<uint8>)
    requires Tidy(b, totals) && info.fragId < info.fragTotal == totals(KeyOf(info))
    ensures Tidy(AddFragment(b, info, payload, now, shed).buf, totals)
  {
    CountTestExact(b, totals, info, payload, now, shed);
  }

  /** Over every well-formed run no complete entry is ever left in the buffer. */
  lemma {:induction false} WellFormedRunsTidy(evs: seq<Event>, totals: Key -> uint8)
    requires WellFormed(evs, totals)
    ensures Tidy(Run(INITIAL, evs).buf, totals)
    decreases |evs|
  {
    if evs != [] {
      var init, e := evs[..|evs| - 1], evs[|evs| - 1];
      assert e in evs;
      WellFormedRunsTidy(init, totals);
      if e.Add? {
        TidyStep(Run(INITIAL, init).buf, totals, e.info, e.payload, e.now, e.shed);
      }
    }
  }

  // ---------------------------------------------------------------- expiry

  /** The timestamp is ahead of the clock, so that the subtraction in the predicate of
      `cleanup_expired` underflows and panics. */
  predicate Ahead(m: Meta, now: nat) {
    m.updated * SECOND > now
  }

  /** The predicate of `cleanup_expired`. */
  predicate Expired(m: Meta, now: nat)
    requires !Ahead(m, now)
  {
    now - m.updated * SECOND >= FRAGMENT_TIMEOUT
  }

  /** The clock never runs backwards, and stands at `now` at the end. */
  ghost predicate Clocked(evs: seq<Event>, now: nat) {
    if evs == [] then true
    else
      var e := evs[|evs| - 1];
      if e.Add? then e.now <= now && Clocked(evs[..|evs| - 1], e.now) else Clocked(evs[..|evs| - 1], now)
  }

  /** When a fragment of this key last arrived. */
  ghost function LastTouched(evs: seq<Event>, k: Key): (t: Option<nat>) {
    if evs == [] then None
    else
      var e := evs[|evs| - 1];
      if e.Add? && KeyOf(e.info) == k then Some(e.now) else LastTouched(evs[..|evs| - 1], k)
  }

  lemma {:induction false} TimestampInvariant(evs: seq<Event>, now: nat, k: Key)
    requires Clocked(evs, now) && k in Run(INITIAL, evs).buf
    ensures LastTouched(evs, k).Some? && LastTouched(evs, k).value <= now
    ensures Run(INITIAL, evs).buf[k].updated == LastTouched(evs, k).value / SECOND
    decreases |evs|
  {
    var init, e := evs[..|evs| - 1], evs[|evs| - 1];
    if !(e.Add? && KeyOf(e.info) == k) {
      TimestampInvariant(init, if e.Add? then e.now else now, k);
    }
  }

  /** The predicate reads the clock at `now` and the timestamp at `load`, perhaps later. In every
      reachable state the subtraction underflows exactly if the last fragment arrived in a later
      second than that of `now`; with both at one instant it never does. Otherwise an entry is
      expired once its last fragment is 30 s old, rounded down to the second it arrived in: surely
      after 30 s, never within 29 s. */
  lemma ExpirySound(evs: seq<Event>, now: nat, load: nat, k: Key)
    requires Clocked(evs, load) && now <= load && k in Run(INITIAL, evs).buf
    ensures LastTouched(evs, k).Some?
    ensures var m, last := Run(INITIAL, evs).buf[k], LastTouched(evs, k).value;
            && last <= load
            && (Ahead(m, now) <==> last / SECOND > now / SECOND)
            && (now == load ==> !Ahead(m, now))
            && (!Ahead(m, now) ==>
                  && (Expired(m, now) <==> now - last >= FRAGMENT_TIMEOUT - last % SECOND)
                  && (now - last >= 30 * SECOND ==> Expired(m, now))
                  && (now - last <= 29 * SECOND ==> !Expired(m, now)))
  {
    TimestampInvariant(evs, load, k);
    var last := LastTouched(evs, k).value;
    assert last == (last / SECOND) * SECOND + last % SECOND;
    assert now == (now / SECOND) * SECOND + now % SECOND;
  }
}
