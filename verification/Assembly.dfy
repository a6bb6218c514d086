/** What the fragments that arrive under one key make, however badly formed: repeated, out of range,
    with totals and addresses that disagree. */
module Assembly {
  import opened Bytes
  import opened Target
  import opened Reassembly

  /** A fragment as it arrives. */
  datatype Piece = Piece(info: FragmentInfo, payload: bytes, now: nat, shed: set<uint8>)

  function Arrival(p: Piece): (e: Event) {
    Add(p.info, p.payload, p.now, p.shed)
  }

  function Arrivals(ps: seq<Piece>): (evs: seq<Event>)
    ensures |evs| == |ps|
  {
    seq(|ps|, n requires 0 <= n < |ps| => Arrival(ps[n]))
  }

  ghost predicate OfKey(ps: seq<Piece>, k: Key) {
    forall n :: 0 <= n < |ps| ==> KeyOf(ps[n].info) == k
  }

  function Ids(ps: seq<Piece>): (ids: set<uint8>) {
    set n | 0 <= n < |ps| :: ps[n].info.fragId
  }

  // ---------------------------------------------------------------- what they make, by position

  /** Index 0, and an address other than 0.0.0.0:0. */
  ghost predicate Settles(p: Piece) {
    p.info.fragId == 0 && p.info.target != IPv4([0, 0, 0, 0], 0)
  }

  /** No later fragment has the same index. */
  ghost predicate Latest(ps: seq<Piece>, j: nat) {
    j < |ps| && forall i :: j < i < |ps| ==> ps[i].info.fragId != ps[j].info.fragId
  }

  ghost predicate LastSettled(ps: seq<Piece>, j: nat) {
    j < |ps| && Settles(ps[j]) && forall i :: j < i < |ps| ==> !Settles(ps[i])
  }

  /** The destination is that of the last fragment that settles it, or else of the first to arrive. */
  ghost predicate Destined(ps: seq<Piece>, t: TargetAddr) {
    && (forall j: nat :: LastSettled(ps, j) ==> t == ps[j].info.target)
    && (ps != [] && (forall j :: 0 <= j < |ps| ==> !Settles(ps[j])) ==> t == ps[0].info.target)
  }

  /** Under each index is what the last fragment with that index carried. */
  ghost predicate Contents(ps: seq<Piece>, frags: map<uint8, bytes>) {
    && frags.Keys == Ids(ps)
    && forall j: nat :: Latest(ps, j) ==> ps[j].info.fragId in frags && frags[ps[j].info.fragId] == ps[j].payload
  }

  /** The first fragment decides the total and the source. */
  ghost predicate EntryOf(ps: seq<Piece>, m: Meta) {
    && ps != [] && m.total == ps[0].info.fragTotal && m.source == ps[0].info.source
    && m.updated == ps[|ps| - 1].now / SECOND
    && Contents(ps, m.frags) && Destined(ps, m.target)
  }

  // ---------------------------------------------------------------- one more fragment

  lemma IdsSnoc(ps: seq<Piece>, p: Piece)
    ensures Ids(ps + [p]) == Ids(ps) + {p.info.fragId}
  {
    var all := ps + [p];
    assert all[|ps|] == p;
    forall id | id in Ids(ps)
      ensures id in Ids(all)
    {
      var n :| 0 <= n < |ps| && ps[n].info.fragId == id;
      assert all[n].info.fragId == id;
    }
  }

  lemma DestinedSnoc(ps: seq<Piece>, p: Piece, t: TargetAddr)
    requires ps != [] && Destined(ps, t)
    ensures Destined(ps + [p], if Settles(p) then p.info.target else t)
  {
    var all, t' := ps + [p], if Settles(p) then p.info.target else t;
    assert all[|ps|] == p;
    forall j: nat | LastSettled(all, j)
      ensures t' == all[j].info.target
    {
      if j < |ps| {
        assert !Settles(all[|ps|]);
        assert forall i :: j < i < |ps| ==> all[i] == ps[i];
        assert LastSettled(ps, j);
      }
    }
    if forall j :: 0 <= j < |all| ==> !Settles(all[j]) {
      assert forall j :: 0 <= j < |ps| ==> all[j] == ps[j];
    }
  }

  lemma ContentsSnoc(ps: seq<Piece>, p: Piece, frags: map<uint8, bytes>)
    requires Contents(ps, frags)
    ensures Contents(ps + [p], frags[p.info.fragId := p.payload])
  {
    var all, frags' := ps + [p], frags[p.info.fragId := p.payload];
    IdsSnoc(ps, p);
    assert all[|ps|] == p;
    forall j: nat | Latest(all, j)
      ensures all[j].info.fragId in frags' && frags'[all[j].info.fragId] == all[j].payload
    {
      if j < |ps| {
        assert all[|ps|].info.fragId != all[j].info.fragId;
        assert forall i :: j < i < |ps| ==> all[i] == ps[i];
        assert Latest(ps, j);
      }
    }
  }

  lemma NothingShed(frags: map<uint8, bytes>, ps: seq<Piece>, p: Piece, total: nat)
    requires frags.Keys == Ids(ps) && |Ids(ps + [p])| <= total
    ensures Insert(frags, p.info.fragId, p.payload, total, p.shed) == frags[p.info.fragId := p.payload]
  {
    var full := frags[p.info.fragId := p.payload];
    IdsSnoc(ps, p);
    assert full.Keys == Ids(ps + [p]) && |full| == |full.Keys|;
  }

  /** One more fragment into an entry that has room for its index. */
  lemma EntrySnoc(ps: seq<Piece>, p: Piece, m: Meta)
    requires EntryOf(ps, m) && |Ids(ps + [p])| <= m.total
    ensures EntryOf(ps + [p], Stored(m, p.info, p.payload, p.now, p.shed))
  {
    NothingShed(m.frags, ps, p, m.total);
    ContentsSnoc(ps, p, m.frags);
    DestinedSnoc(ps, p, m.target);
  }

  lemma EntryFirst(p: Piece)
    requires 1 <= p.info.fragTotal
    ensures EntryOf([p], Stored(Fresh(p.info, p.now), p.info, p.payload, p.now, p.shed))
  {
    assert [] + [p] == [p];
    IdsSnoc([], p);
    assert Ids([]) == {} && Ids([p]) == {p.info.fragId};
    NothingShed(map[], [], p, p.info.fragTotal);
    ContentsSnoc([], p, map[]);
    assert Destined([p], p.info.target);
  }

  // ---------------------------------------------------------------- before the last

  /** None of the first `n` fragments completes as many indices as the first of them announced. */
  ghost predicate Short(ps: seq<Piece>, n: nat)
    requires n <= |ps|
  {
    ps != [] ==> forall m :: 0 <= m <= n ==> |Ids(ps[..m])| < ps[0].info.fragTotal
  }

  /** Nothing has come out, and the buffer holds what the fragments so far make. */
  ghost predicate Holding(ps: seq<Piece>, k: Key, s: State) {
    && s.outs == []
    && if ps == [] then s.buf == map[] else k in s.buf && s.buf == map[k := s.buf[k]] && EntryOf(ps, s.buf[k])
  }

  lemma Entered(ps: seq<Piece>, p: Piece, k: Key, s: State)
    requires KeyOf(p.info) == k && Holding(ps, k, s) && |Ids(ps + [p])| <= (ps + [p])[0].info.fragTotal
    ensures EntryOf(ps + [p], EntryAfter(s.buf, p.info, p.payload, p.now, p.shed))
  {
    IdsSnoc(ps, p);
    if ps == [] {
      assert ps + [p] == [p];
      assert p.info.fragId in Ids([p]);
      EntryFirst(p);
    } else {
      EntrySnoc(ps, p, s.buf[k]);
    }
  }

  lemma RunSnoc(ps: seq<Piece>, p: Piece)
    ensures Run(INITIAL, Arrivals(ps + [p])) == Step(Run(INITIAL, Arrivals(ps)), Arrival(p))
  {
    assert Arrivals(ps + [p]) == Arrivals(ps) + [Arrival(p)];
    RunOneMore(Arrivals(ps), Arrival(p));
  }

  lemma RunOneMore(evs: seq<Event>, e: Event)
    ensures Run(INITIAL, evs + [e]) == Step(Run(INITIAL, evs), e)
  {
    assert (evs + [e])[..|evs|] == evs;
  }

  lemma ShortBefore(ps: seq<Piece>, p: Piece, n: nat)
    requires n <= |ps| && Short(ps + [p], n)
    ensures Short(ps, n)
  {
    assert forall m :: 0 <= m <= n ==> (ps + [p])[..m] == ps[..m];
  }

  lemma AddedAlone(p: Piece, k: Key, s: State, m: Meta)
    requires KeyOf(p.info) == k && s.outs == [] && s.buf.Keys <= {k}
    requires m == EntryAfter(s.buf, p.info, p.payload, p.now, p.shed)
    ensures Step(s, Arrival(p))
         == if |m.frags| == m.total then State(map[], if Assemble(m).Some? then [(k, Assemble(m).value)] else [])
            else State(map[k := m], [])
  {
    assert s.buf - {k} == map[];
    assert s.buf[k := m] == map[k := m];
  }

  lemma CountOf(ps: seq<Piece>, m: Meta)
    requires EntryOf(ps, m)
    ensures |m.frags| == |Ids(ps)|
  {
    assert |m.frags| == |m.frags.Keys|;
  }

  lemma StillHolding(ps: seq<Piece>, p: Piece, k: Key, s: State)
    requires KeyOf(p.info) == k && Holding(ps, k, s) && |Ids(ps + [p])| < (ps + [p])[0].info.fragTotal
    ensures Holding(ps + [p], k, Step(s, Arrival(p)))
  {
    Entered(ps, p, k, s);
    var m := EntryAfter(s.buf, p.info, p.payload, p.now, p.shed);
    CountOf(ps + [p], m);
    AddedAlone(p, k, s, m);
  }

  lemma {:induction false} Collecting(ps: seq<Piece>, k: Key)
    requires OfKey(ps, k) && Short(ps, |ps|)
    ensures Holding(ps, k, Run(INITIAL, Arrivals(ps)))
    decreases |ps|
  {
    if ps != [] {
      var init, p := ps[..|ps| - 1], ps[|ps| - 1];
      assert ps == init + [p] && ps[..|ps|] == ps;
      ShortBefore(init, p, |init|);
      Collecting(init, k);
      RunSnoc(init, p);
      StillHolding(init, p, k, Run(INITIAL, Arrivals(init)));
    }
  }

  // ---------------------------------------------------------------- the last

  /** With as many indices as announced, they are all there exactly if none is out of range. */
  lemma AllThereIff(frags: map<uint8, bytes>, total: uint8)
    requires |frags| == total
    ensures HasAll(frags, total) <==> forall i :: i in frags ==> i < total
  {
    assert |frags| == |frags.Keys|;
    IndicesSize(total);
    if HasAll(frags, total) {
      SubsetSize(Indices(total), frags.Keys);
    }
    if forall i :: i in frags ==> i < total {
      SubsetSize(frags.Keys, Indices(total));
    }
  }

  ghost predicate InRange(ps: seq<Piece>) {
    forall n :: 0 <= n < |ps| ==> ps[n].info.fragId < ps[0].info.fragTotal
  }

  lemma RangeOfEntry(ps: seq<Piece>, m: Meta)
    requires EntryOf(ps, m)
    ensures (forall i :: i in m.frags ==> i < m.total) <==> InRange(ps)
  {
    forall n | 0 <= n < |ps|
      ensures ps[n].info.fragId in m.frags
    {
      assert ps[n].info.fragId in Ids(ps);
    }
  }

  /** The packet these fragments make: under each index the latest content, in index order. */
  ghost predicate Makes(ps: seq<Piece>, p: UdpPacket, pieces: seq<bytes>) {
    && ps != [] && |pieces| == ps[0].info.fragTotal && p.payload == Flatten(pieces)
    && (forall j: nat :: Latest(ps, j) ==>
          ps[j].info.fragId < |pieces| && pieces[ps[j].info.fragId] == ps[j].payload)
    && p.source == ps[0].info.source && Destined(ps, p.target)
  }

  lemma EntryMakes(ps: seq<Piece>, m: Meta)
    requires EntryOf(ps, m) && HasAll(m.frags, m.total) && InRange(ps)
    ensures Assemble(m).Some? && Makes(ps, Assemble(m).value, InOrder(m.frags, m.total))
  {
  }

  /** With the last index announced the entry is gone. A packet comes out exactly if no index was out of
      range; otherwise everything is lost. */
  lemma Completed(ps: seq<Piece>, k: Key) returns (p: UdpPacket, pieces: seq<bytes>)
    requires OfKey(ps, k) && ps != [] && Short(ps, |ps| - 1) && |Ids(ps)| == ps[0].info.fragTotal
    ensures Run(INITIAL, Arrivals(ps)).buf == map[]
    ensures Run(INITIAL, Arrivals(ps)).outs == if InRange(ps) then [(k, p)] else []
    ensures InRange(ps) ==> Makes(ps, p, pieces)
  {
    var init, last := ps[..|ps| - 1], ps[|ps| - 1];
    assert ps == init + [last];
    ShortBefore(init, last, |init|);
    Collecting(init, k);
    RunSnoc(init, last);
    p, pieces := LastStep(init, last, k, Run(INITIAL, Arrivals(init)));
  }

  lemma LastStep(ps: seq<Piece>, last: Piece, k: Key, s: State) returns (p: UdpPacket, pieces: seq<bytes>)
    requires KeyOf(last.info) == k && Holding(ps, k, s) && |Ids(ps + [last])| == (ps + [last])[0].info.fragTotal
    ensures Step(s, Arrival(last)) == State(map[], if InRange(ps + [last]) then [(k, p)] else [])
    ensures InRange(ps + [last]) ==> Makes(ps + [last], p, pieces)
  {
    Entered(ps, last, k, s);
    var m := EntryAfter(s.buf, last.info, last.payload, last.now, last.shed);
    CountOf(ps + [last], m);
    AddedAlone(last, k, s, m);
    p, pieces := Judged(ps + [last], m);
  }

  /** What becomes of an entry with as many indices as announced. */
  lemma Judged(ps: seq<Piece>, m: Meta) returns (p: UdpPacket, pieces: seq<bytes>)
    requires EntryOf(ps, m) && |m.frags| == m.total
    ensures Assemble(m) == if InRange(ps) then Some(p) else None
    ensures InRange(ps) ==> Makes(ps, p, pieces)
  {
    AllThereIff(m.frags, m.total);
    RangeOfEntry(ps, m);
    if InRange(ps) {
      EntryMakes(ps, m);
      p, pieces := Assemble(m).value, InOrder(m.frags, m.total);
    } else {
      p, pieces := UdpPacket(None, m.target, []), [];
    }
  }

  /** The same among any other traffic: for any trace whose events of this key are these fragments, and no
      eviction. */
  lemma CompletedAmongOthers(evs: seq<Event>, ps: seq<Piece>, k: Key) returns (p: UdpPacket, pieces: seq<bytes>)
    requires EventsOf(evs, k) == Arrivals(ps)
    requires OfKey(ps, k) && ps != [] && Short(ps, |ps| - 1) && |Ids(ps)| == ps[0].info.fragTotal
    ensures k !in Run(INITIAL, evs).buf
    ensures OutsOf(Run(INITIAL, evs).outs, k) == if InRange(ps) then [(k, p)] else []
    ensures InRange(ps) ==> Makes(ps, p, pieces)
  {
    NonInterference(INITIAL, evs, k);
    assert Projected(INITIAL, k) == INITIAL;
    p, pieces := Completed(ps, k);
    assert Only(Run(INITIAL, evs).buf, k) == map[];
  }
}
