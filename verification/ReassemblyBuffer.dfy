/** The reassembly buffer as it runs: shared metadata objects updated in place, in a cache from
    which the garbage collector may take entries between any two steps of `add_fragment`. */
module ReassemblyBuffer {
  import opened Bytes
  import opened Target
  import opened Reassembly

  class FragmentMetadata {
    const fragTotal: uint8
    var fragments: map<uint8, bytes>
    var lastUpdated: nat
    const source: Option<TargetAddr>
    var target: TargetAddr
    /** The association whose buffer this is for, and its key there. */
    ghost const owner: uint16
    ghost const key: Key

    constructor (info: FragmentInfo, now: nat, ghost owner: uint16)
      ensures Value() == Fresh(info, now) && this.owner == owner && key == KeyOf(info)
    {
      this.owner, key := owner, KeyOf(info);
      fragTotal := info.fragTotal;
      fragments := map[];
      lastUpdated := now / SECOND;
      source := info.source;
      target := info.target;
    }

    function Value(): (m: Meta)
      reads this
    {
      Meta(fragTotal, fragments, lastUpdated, source, target)
    }

    method Touch(info: FragmentInfo, now: nat)
      modifies this`target, this`lastUpdated
      ensures Value() == Touched(old(Value()), info, now)
    {
      if info.fragId == 0 && !IsPlaceholder(info.target) {
        target := info.target;
      }
      lastUpdated := now / SECOND;
    }

    /** `fragments.insert` and `run_pending_tasks`; `shed` is what the cache sheds if it is overfull. */
    method Store(id: uint8, payload: bytes, shed: set<uint8>)
      modifies this`fragments
      ensures Value() == old(Value()).(frags := Insert(old(fragments), id, payload, fragTotal, shed))
    {
      fragments := fragments[id := payload];
      if |fragments| > fragTotal {
        fragments := fragments - shed;
      }
    }
  }

  class FragmentReassemblyBuffer {
    var entries: map<Key, FragmentMetadata>
    /** The association this buffer is for. */
    ghost const owner: uint16

    /** Metadata is under its own key, so no two keys or associations share any. */
    ghost predicate Valid()
      reads this
    {
      forall k :: k in entries ==> entries[k].key == k && entries[k].owner == owner
    }

    ghost function Value(): (b: Buffer)
      reads this, entries.Values
    {
      map k | k in entries :: entries[k].Value()
    }

    constructor (ghost owner: uint16)
      ensures Valid() && Value() == map[] && entries == map[] && this.owner == owner
    {
      entries := map[];
      this.owner := owner;
    }

    /** The cache drops entries on its own: by timeout, by capacity, at any moment. */
    method Collect(dropped: set<Key>)
      requires Valid()
      modifies this
      ensures Valid() && entries == old(entries) - dropped && Value() == old(Value()) - dropped
    {
      entries := entries - dropped;
    }

    /** `cleanup_expired` with the clock at `now`. The code does not look at whether the cache accepts
        the predicate; if it does not, nothing is removed. A timestamp ahead of the clock is a panic. */
    method CleanupExpired(now: nat, accepts: bool) returns (panicked: bool)
      requires Valid()
      modifies this
      ensures Valid() && entries.Keys <= old(entries.Keys)
      ensures panicked <==> accepts && exists k :: k in old(entries) && Ahead(old(entries[k].Value()), now)
      ensures panicked || !accepts ==> entries == old(entries)
      ensures !panicked && accepts ==> forall k :: k in old(entries) ==>
        if Expired(old(entries[k].Value()), now) then k !in entries else k in entries && entries[k] == old(entries[k])
    {
      if !accepts {
        return false;
      }
      if exists k :: k in entries && entries[k].lastUpdated * SECOND > now {
        return true;
      }
      var expired := set k | k in entries && now - entries[k].lastUpdated * SECOND >= FRAGMENT_TIMEOUT;
      entries := entries - expired;
      return false;
    }

    method ReassemblePacket(key: Key) returns (p: Option<UdpPacket>)
      requires Valid()
      modifies this
      ensures Valid() && entries == old(entries) - {key} && Value() == old(Value()) - {key}
      ensures p == if key in old(entries) then Assemble(old(entries[key].Value())) else None
    {
      if key !in entries {
        assert entries == entries - {key};
        return None;
      }
      var meta := entries[key];
      entries := entries - {key};
      ghost var m := old(entries[key].Value());
      assert meta.Value() == m;
      var totalSize := 0;
      for i := 0 to meta.fragTotal
        invariant entries == old(entries) - {key} && meta.Value() == m
        invariant HasAll(meta.fragments, i)
        invariant totalSize == |Flatten(InOrder(meta.fragments, i))|
      {
        if i !in meta.fragments {
          ghost var missing: uint8 := i;
          assert missing !in m.frags && missing < m.total;
          assert Assemble(m).None?;
          return None;
        }
        totalSize := totalSize + |meta.fragments[i]|;
        InOrderSnoc(meta.fragments, i);
      }
      // The source looks every fragment up again; none can be missing now.
      var buffer := [];
      for i := 0 to meta.fragTotal
        invariant entries == old(entries) - {key} && meta.Value() == m
        invariant HasAll(meta.fragments, meta.fragTotal)
        invariant buffer == Flatten(InOrder(meta.fragments, i))
      {
        buffer := buffer + meta.fragments[i];
        InOrderSnoc(meta.fragments, i);
      }
      return Some(UdpPacket(meta.source, meta.target, buffer));
    }

    /** `add_fragment` with the collector at work before, between and after its steps; `gc` is what it
        takes at each point. The call is atomic all the same: it acts like evicting some of what the
        collector takes, adding the fragment in one step, and evicting some more of it. */
    method AddFragment(info: FragmentInfo, payload: bytes, now: nat, shed: set<uint8>, gc: Collection)
      returns (p: Option<UdpPacket>)
      requires Valid()
      modifies this, entries.Values
      ensures Valid() && Added(Value(), p) == AddCollected(old(Value()), info, payload, now, shed, gc)
      ensures forall k :: k in entries ==> (k in old(entries) && entries[k] == old(entries[k])) || fresh(entries[k])
      ensures forall k :: k in gc.Keys() && k != KeyOf(info) ==> k !in entries
    {
      Collect(gc.start);
      p := AddWhileCollecting(info, payload, now, shed, gc);
      Explain(old(Value()), info, payload, now, shed, gc);
    }

    /** Any sequence of calls on a new buffer with the collector at work throughout is a run of the
        buffer as a value: these calls in order, with evictions of what the collector took. So every
        packet that comes out is made only of fragments that these calls brought in under its key,
        in index order. */
    method AddAll(calls: seq<Call>) returns (outs: seq<(Key, UdpPacket)>)
      requires Valid() && entries == map[]
      modifies this
      ensures Valid() && State(Value(), outs) == Run(INITIAL, EventsFor(calls))
      ensures OutputsFrom(EventsFor(calls), outs)
    {
      outs := [];
      for i := 0 to |calls|
        invariant Valid() && forall k :: k in entries ==> fresh(entries[k])
        invariant State(Value(), outs) == Run(INITIAL, EventsFor(calls[..i]))
      {
        ghost var s := State(Value(), outs);
        var c := calls[i];
        var p := AddFragment(c.info, c.payload, c.now, c.shed, c.gc);
        if p.Some? {
          outs := outs + [(KeyOf(c.info), p.value)];
        }
        OneMoreCall(calls, i, s, Added(Value(), p), State(Value(), outs));
      }
      assert calls[..|calls|] == calls;
      Provenance(EventsFor(calls));
    }

    /** The steps as they happen, after the first collection. */
    method AddWhileCollecting(info: FragmentInfo, payload: bytes, now: nat, shed: set<uint8>, gc: Collection)
      returns (p: Option<UdpPacket>)
      requires Valid()
      modifies this, entries.Values
      ensures Valid()
      ensures forall k :: k in entries ==> (k in old(entries) && entries[k] == old(entries[k])) || fresh(entries[k])
      ensures forall k :: k in entries && k != KeyOf(info) ==> k in old(entries) && k !in gc.During() && k !in gc.end
      ensures var m := EntryAfter(old(Value()), info, payload, now, shed);
              && Value() == old(Value())[KeyOf(info) := m] - gc.During() - Done(m, KeyOf(info)) - gc.end
              && p == if |m.frags| == m.total && KeyOf(info) !in gc.During() then Assemble(m) else None
    {
      var meta := StoreFragment(info, payload, now, shed, gc);
      assert KeyOf(info) in Value() <==> KeyOf(info) !in gc.During();
      p := Finish(KeyOf(info), meta, gc.end);
    }

    /** The second half: if the count says so, take the packet out and put it together. */
    method Finish(key: Key, meta: FragmentMetadata, end: set<Key>) returns (p: Option<UdpPacket>)
      requires Valid() && (key in entries ==> entries[key] == meta)
      modifies this
      ensures Valid() && forall k :: k in entries ==> k in old(entries) && entries[k] == old(entries[k])
      ensures forall k :: k in end ==> k !in entries
      ensures var m := meta.Value();
              && Value() == old(Value()) - Done(m, key) - end
              && p == if |m.frags| == m.total && key in old(Value()) then Assemble(m) else None
    {
      p := None;
      if |meta.fragments| == meta.fragTotal {
        p := ReassemblePacket(key);
      } else {
        NoDrop(Value());
      }
      Collect(end);
    }

    /** The first half of `add_fragment`: find or create the metadata and store the fragment in it,
        while entries, perhaps this one, are being collected. */
    method StoreFragment(info: FragmentInfo, payload: bytes, now: nat, shed: set<uint8>, gc: Collection)
      returns (meta: FragmentMetadata)
      requires Valid()
      modifies this, entries.Values
      ensures Valid() && meta.Value() == EntryAfter(old(Value()), info, payload, now, shed)
      ensures Value() == old(Value())[KeyOf(info) := meta.Value()] - gc.During()
      ensures forall k :: k in entries ==> k !in gc.During()
      ensures entries.Keys <= old(entries.Keys) + {KeyOf(info)}
      ensures KeyOf(info) in entries ==> entries[KeyOf(info)] == meta
      ensures KeyOf(info) in old(entries) ==> meta == old(entries[KeyOf(info)])
      ensures KeyOf(info) !in old(entries) ==> fresh(meta)
      ensures forall k :: k in entries && k != KeyOf(info) ==> entries[k] == old(entries[k])
    {
      var key := KeyOf(info);
      ghost var start := Value();
      meta := Lookup(info, now);
      ghost var m0 := meta.Value();
      Collect(gc.found);
      Touch(key, meta, info, now);
      ghost var m1 := meta.Value();
      DropThenUpdate(start, key, m0, m1, gc.found);
      Collect(gc.touched);
      TwoDrops(start[key := m1], gc.found, gc.touched);
      Store(key, meta, info.fragId, payload, shed);
      DropThenUpdate(start, key, m1, meta.Value(), gc.found + gc.touched);
      Collect(gc.stored);
      TwoDrops(start[key := meta.Value()], gc.found + gc.touched, gc.stored);
    }

    /** Updating metadata in place is updating its entry, if it still has one. */
    method Touch(key: Key, meta: FragmentMetadata, info: FragmentInfo, now: nat)
      requires Valid() && meta.key == key && (key in entries ==> entries[key] == meta)
      modifies meta
      ensures meta.Value() == Touched(old(meta.Value()), info, now)
      ensures Value() == if key in entries then old(Value())[key := meta.Value()] else old(Value())
    {
      meta.Touch(info, now);
      assert forall k :: k in entries && k != key ==> entries[k].Value() == old(entries[k].Value());
    }

    method Store(key: Key, meta: FragmentMetadata, id: uint8, payload: bytes, shed: set<uint8>)
      requires Valid() && meta.key == key && (key in entries ==> entries[key] == meta)
      modifies meta
      ensures meta.Value()
           == old(meta.Value()).(frags := Insert(old(meta.fragments), id, payload, meta.fragTotal, shed))
      ensures Value() == if key in entries then old(Value())[key := meta.Value()] else old(Value())
    {
      meta.Store(id, payload, shed);
      assert forall k :: k in entries && k != key ==> entries[k].Value() == old(entries[k].Value());
    }

    /** `entry(key).or_insert_with(..)`. */
    method Lookup(info: FragmentInfo, now: nat) returns (meta: FragmentMetadata)
      requires Valid()
      modifies this
      ensures Valid() && KeyOf(info) in entries && entries[KeyOf(info)] == meta && meta.key == KeyOf(info)
      ensures KeyOf(info) in old(entries) ==> entries == old(entries)
      ensures KeyOf(info) !in old(entries) ==> fresh(meta) && entries == old(entries)[KeyOf(info) := meta]
      ensures Value() == old(Value())[KeyOf(info) := meta.Value()]
      ensures meta.Value() == if KeyOf(info) in old(Value()) then old(Value())[KeyOf(info)] else Fresh(info, now)
    {
      var key := KeyOf(info);
      if key in entries {
        meta := entries[key];
      } else {
        meta := new FragmentMetadata(info, now, owner);
        entries := entries[key := meta];
      }
    }
  }

  /** What the collector takes during one call: when it starts, once the metadata is found, once it is
      touched, once the fragment is stored, and at the end. */
  datatype Collection =
    Collection(start: set<Key>, found: set<Key>, touched: set<Key>, stored: set<Key>, end: set<Key>)
  {
    function During(): (ks: set<Key>) {
      found + touched + stored
    }

    function Keys(): (ks: set<Key>) {
      start + During() + end
    }
  }

  const NO_COLLECTION: Collection := Collection({}, {}, {}, {}, {})

  /** An atomic account of a call: what is evicted before and after it, or that it is lost. */
  datatype Account = Account(lost: bool, before: set<Key>, after: set<Key>)

  /** If the call's own entry is collected under way, it might as well have gone both before and after.
      The one exception is a packet of a single fragment: it is lost, and nothing comes out. */
  function AccountOf(key: Key, total: uint8, gc: Collection): (x: Account)
    ensures x.before + x.after <= gc.Keys()
    ensures x.lost <==> total <= 1 && key in gc.During()
  {
    if key !in gc.During() then Account(false, gc.start, gc.During() + gc.end)
    else if total <= 1 then Account(true, gc.Keys(), {})
    else Account(false, gc.start + gc.During(), {key} + gc.end)
  }

  /** An addition between evictions of what the collector takes. */
  function AddCollected(b: Buffer, info: FragmentInfo, payload: bytes, now: nat, shed: set<uint8>, gc: Collection)
    : (r: Added)
  {
    var x := AccountOf(KeyOf(info), info.fragTotal, gc);
    if x.lost then Added(b - x.before, None)
    else
      var r := Reassembly.AddFragment(b - x.before, info, payload, now, shed);
      Added(r.buf - x.after, r.out)
  }

  /** Without a collector it is the addition, and nothing else. */
  lemma NothingCollected(b: Buffer, info: FragmentInfo, payload: bytes, now: nat, shed: set<uint8>)
    ensures AddCollected(b, info, payload, now, shed, NO_COLLECTION)
         == Reassembly.AddFragment(b, info, payload, now, shed)
  {
    NoDrop(b);
    NoDrop(Reassembly.AddFragment(b, info, payload, now, shed).buf);
    assert AccountOf(KeyOf(info), info.fragTotal, NO_COLLECTION) == Account(false, {}, {});
  }

  /** Of the other entries exactly those go that the collector takes. The call's own entry is gone if it
      is taken once it has been found, and if that is before the count is taken nothing comes out. */
  lemma CollectedIsGone(b: Buffer, info: FragmentInfo, payload: bytes, now: nat, shed: set<uint8>, gc: Collection,
                        k: Key)
    ensures var r := AddCollected(b, info, payload, now, shed, gc);
            && (k != KeyOf(info) ==>
                  (k in r.buf <==> k in b && k !in gc.Keys()) && (k in r.buf ==> r.buf[k] == b[k]))
            && (KeyOf(info) in gc.During() + gc.end ==> KeyOf(info) !in r.buf)
            && (KeyOf(info) in gc.During() ==> r.out == None)
  {
    var own, x := KeyOf(info), AccountOf(KeyOf(info), info.fragTotal, gc);
    if own in gc.During() && !x.lost {
      FirstIsNotLast(b - x.before, info, payload, now, shed);
    }
  }

  lemma FirstIsNotLast(b: Buffer, info: FragmentInfo, payload: bytes, now: nat, shed: set<uint8>)
    requires KeyOf(info) !in b && info.fragTotal > 1
    ensures Reassembly.AddFragment(b, info, payload, now, shed).out == None
  {
    var empty: map<uint8, bytes> := map[];
    assert empty[info.fragId := payload].Keys == {info.fragId};
    assert |empty[info.fragId := payload]| == |{info.fragId}|;
  }

  /** One call of `add_fragment`. */
  datatype Call = Call(info: FragmentInfo, payload: bytes, now: nat, shed: set<uint8>, gc: Collection)

  /** A run and then the events that a call amounts to. */
  function With(evs: seq<Event>, c: Call): (r: seq<Event>) {
    var x := AccountOf(KeyOf(c.info), c.info.fragTotal, c.gc);
    var cut := evs + [Evict(x.before)];
    if x.lost then cut else cut + [Add(c.info, c.payload, c.now, c.shed)] + [Evict(x.after)]
  }

  /** The run that a sequence of calls amounts to. */
  function EventsFor(calls: seq<Call>): (evs: seq<Event>) {
    if calls == [] then [] else With(EventsFor(calls[..|calls| - 1]), calls[|calls| - 1])
  }

  lemma RunSnoc(evs: seq<Event>, e: Event)
    ensures Run(INITIAL, evs + [e]) == Step(Run(INITIAL, evs), e)
  {
    assert (evs + [e])[..|evs|] == evs;
  }

  lemma RunWith(evs: seq<Event>, s: State, c: Call)
    requires Run(INITIAL, evs) == s
    ensures var r := AddCollected(s.buf, c.info, c.payload, c.now, c.shed, c.gc);
            Run(INITIAL, With(evs, c))
            == State(r.buf, if r.out.Some? then s.outs + [(KeyOf(c.info), r.out.value)] else s.outs)
  {
    var x := AccountOf(KeyOf(c.info), c.info.fragTotal, c.gc);
    var cut := evs + [Evict(x.before)];
    RunSnoc(evs, Evict(x.before));
    if !x.lost {
      var add := Add(c.info, c.payload, c.now, c.shed);
      RunSnoc(cut, add);
      RunSnoc(cut + [add], Evict(x.after));
    }
  }

  lemma OneMoreCall(calls: seq<Call>, i: nat, s: State, r: Added, s': State)
    requires i < |calls| && s == Run(INITIAL, EventsFor(calls[..i]))
    requires var c := calls[i]; r == AddCollected(s.buf, c.info, c.payload, c.now, c.shed, c.gc)
    requires s' == State(r.buf, if r.out.Some? then s.outs + [(KeyOf(calls[i].info), r.out.value)] else s.outs)
    ensures s' == Run(INITIAL, EventsFor(calls[..i + 1]))
  {
    RunWith(EventsFor(calls[..i]), s, calls[i]);
    EventsSnoc(calls, i);
  }

  lemma EventsSnoc(calls: seq<Call>, i: nat)
    requires i < |calls|
    ensures EventsFor(calls[..i + 1]) == With(EventsFor(calls[..i]), calls[i])
  {
    assert calls[..i + 1][..i] == calls[..i];
  }

  /** A complete entry is taken out. */
  function Done(m: Meta, key: Key): (ks: set<Key>) {
    if |m.frags| == m.total then {key} else {}
  }

  lemma TwoDrops(b: Buffer, d: set<Key>, e: set<Key>)
    ensures b - d - e == b - (d + e)
  {
  }

  lemma NoDrop(b: Buffer)
    ensures b - {} == b
  {
  }

  lemma DropThenUpdate(b: Buffer, key: Key, m: Meta, m': Meta, d: set<Key>)
    ensures var v := b[key := m] - d;
            (if key in v then v[key := m'] else v) == b[key := m'] - d
  {
  }

  /** What happens, step by step, is what the account says. */
  lemma Explain(b: Buffer, info: FragmentInfo, payload: bytes, now: nat, shed: set<uint8>, gc: Collection)
    ensures var key := KeyOf(info);
            var m := EntryAfter(b - gc.start, info, payload, now, shed);
            AddCollected(b, info, payload, now, shed, gc)
            == Added((b - gc.start)[key := m] - gc.During() - Done(m, key) - gc.end,
                     if |m.frags| == m.total && key !in gc.During() then Assemble(m) else None)
  {
    var key, kept := KeyOf(info), b - gc.start;
    var m := EntryAfter(kept, info, payload, now, shed);
    if key !in gc.During() {
      ExplainKept(kept, key, m, gc.During(), gc.end);
    } else if info.fragTotal <= 1 {
      LostForGood(b, key, m, gc.start, gc.During(), gc.end);
    } else {
      TwoDrops(b, gc.start, gc.During());
      ExplainLost(kept, info, payload, now, shed, m, gc.During(), gc.end);
    }
  }

  lemma ExplainKept(b: Buffer, key: Key, m: Meta, during: set<Key>, end: set<Key>)
    requires key !in during
    ensures b[key := m] - during - Done(m, key) - end
         == (if |m.frags| == m.total then b - {key} else b[key := m]) - (during + end)
  {
  }

  lemma ExplainLost(b: Buffer, info: FragmentInfo, payload: bytes, now: nat, shed: set<uint8>,
                    m: Meta, during: set<Key>, end: set<Key>)
    requires info.fragTotal > 1 && KeyOf(info) in during
    ensures var r := Reassembly.AddFragment(b - during, info, payload, now, shed);
            && r.out == None
            && r.buf - ({KeyOf(info)} + end) == b[KeyOf(info) := m] - during - Done(m, KeyOf(info)) - end
  {
    var key := KeyOf(info);
    var m' := EntryAfter(b - during, info, payload, now, shed);
    assert m'.frags == map[info.fragId := payload];
    LostEntry(b, key, m, m', during, end);
  }

  lemma LostEntry(b: Buffer, key: Key, m: Meta, m': Meta, during: set<Key>, end: set<Key>)
    requires key in during
    ensures (b - during)[key := m'] - ({key} + end) == b[key := m] - during - Done(m, key) - end
  {
  }

  lemma LostForGood(b: Buffer, key: Key, m: Meta, start: set<Key>, during: set<Key>, end: set<Key>)
    requires key in during
    ensures (b - start)[key := m] - during - Done(m, key) - end == b - (start + during + end)
  {
  }

  lemma InOrderSnoc(frags: map<uint8, bytes>, i: uint8)
    requires HasAll(frags, i) && i in frags
    ensures HasAll(frags, i + 1)
    ensures Flatten(InOrder(frags, i + 1)) == Flatten(InOrder(frags, i)) + frags[i]
  {
    assert InOrder(frags, i + 1) == InOrder(frags, i) + [frags[i]];
    FlattenSnoc(InOrder(frags, i), frags[i]);
  }
}
