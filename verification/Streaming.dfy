/** Decoding from a stream. The laws are stated for any decoder that keeps three
    promises, and the codecs of this protocol are shown to keep them. */
module Streaming {
  import opened Bytes
  import opened Codec

  /** A verdict, once reached, does not change when more bytes arrive; without one nothing
      is consumed; and an item consumes something. */
  ghost predicate Incremental<T(!new)>(dec: bytes -> Decoded<T>) {
    && (forall s: bytes, t: bytes :: !dec(s).out.NeedMore? ==> dec(s + t) == Decoded(dec(s).out, dec(s).rest + t))
    && (forall s: bytes :: dec(s).out.NeedMore? ==> dec(s).rest == s)
    && (forall s: bytes :: dec(s).out.Item? ==> |dec(s).rest| < |s|)
  }

  /** Every strict prefix of an encoding asks for more and leaves the buffer as it was. */
  lemma StrictPrefixNeedsMore<T(!new)>(dec: bytes -> Decoded<T>, e: bytes, k: nat)
    requires Incremental(dec) && dec(e).out.Item? && dec(e).rest == [] && k < |e|
    ensures dec(e[..k]) == Decoded(NeedMore, e[..k])
    ensures AtEof(dec(e[..k]).out) == Error(BytesRemaining)
  {
    var p, suffix := e[..k], e[k..];
    assert e == p + suffix;
    assert !dec(p).out.NeedMore? ==> |dec(p + suffix).rest| >= |suffix|;
  }

  // ---------------------------------------------------------------- framed reading

  /** A framed reader: the items it has produced, its buffer, and the error that ended it. */
  datatype Reader<T> = Reader(items: seq<T>, buf: bytes, failed: Option<ProtoError>)

  /** Decode as long as the buffer holds complete items. */
  function Drain<T(!new)>(dec: bytes -> Decoded<T>, r: Reader<T>): (r': Reader<T>)
    requires forall s: bytes :: dec(s).out.Item? ==> |dec(s).rest| < |s|
    decreases |r.buf|
  {
    if r.failed.Some? then r
    else
      match dec(r.buf)
      case Decoded(NeedMore, _) => r
      case Decoded(Item(v), rest) => Drain(dec, Reader(r.items + [v], rest, None))
      case Decoded(Error(e), rest) => Reader(r.items, rest, Some(e))
  }

  function Feed<T(!new)>(dec: bytes -> Decoded<T>, r: Reader<T>, chunk: bytes): (r': Reader<T>)
    requires forall s: bytes :: dec(s).out.Item? ==> |dec(s).rest| < |s|
  {
    Drain(dec, r.(buf := r.buf + chunk))
  }

  function FeedAll<T(!new)>(dec: bytes -> Decoded<T>, r: Reader<T>, chunks: seq<bytes>): (r': Reader<T>)
    requires forall s: bytes :: dec(s).out.Item? ==> |dec(s).rest| < |s|
    decreases |chunks|
  {
    if chunks == [] then r else FeedAll(dec, Feed(dec, r, chunks[0]), chunks[1..])
  }

  lemma {:induction false} FeedAfterDrain<T(!new)>(dec: bytes -> Decoded<T>, r: Reader<T>, t: bytes)
    requires Incremental(dec)
    ensures Feed(dec, Drain(dec, r), t) == Feed(dec, r, t)
    decreases |r.buf|
  {
    if r.failed.None? {
      var d := dec(r.buf);
      if d.out.Item? {
        FeedAfterDrain(dec, Reader(r.items + [d.out.value], d.rest, None), t);
        assert dec(r.buf + t) == Decoded(d.out, d.rest + t);
      } else if d.out.Error? {
        assert dec(r.buf + t) == Decoded(d.out, d.rest + t);
      }
    }
  }

  /** Cutting a byte stream into chunks differently changes neither the items nor the error
      nor what is left over. */
  lemma {:induction false} ChunkingIrrelevant<T(!new)>(dec: bytes -> Decoded<T>, r: Reader<T>, chunks: seq<bytes>)
    requires Incremental(dec)
    ensures Drain(dec, FeedAll(dec, r, chunks)) == Feed(dec, r, Flatten(chunks))
    decreases |chunks|
  {
    if chunks == [] {
      assert r.buf + [] == r.buf;
    } else {
      var r1 := r.(buf := r.buf + chunks[0]);
      ChunkingIrrelevant(dec, Drain(dec, r1), chunks[1..]);
      FeedAfterDrain(dec, r1, Flatten(chunks[1..]));
      assert r1.buf + Flatten(chunks[1..]) == r.buf + Flatten(chunks);
    }
  }

  /** `es[i]` is a complete encoding of `vs[i]`. */
  ghost predicate Encodes<T(!new)>(dec: bytes -> Decoded<T>, es: seq<bytes>, vs: seq<T>) {
    |es| == |vs| && forall i :: 0 <= i < |es| ==> dec(es[i]) == Decoded(Item(vs[i]), [])
  }

  lemma Peel(es: seq<bytes>, tail: bytes)
    ensures Flatten(es) + tail == if es == [] then tail else es[0] + (Flatten(es[1..]) + tail)
  {
  }

  lemma PeelItems<T>(items: seq<T>, vs: seq<T>)
    ensures items + vs == if vs == [] then items else items + [vs[0]] + vs[1..]
  {
  }

  lemma EncodesRest<T(!new)>(dec: bytes -> Decoded<T>, es: seq<bytes>, vs: seq<T>)
    requires Encodes(dec, es, vs) && es != []
    ensures Encodes(dec, es[1..], vs[1..]) && dec(es[0]) == Decoded(Item(vs[0]), [])
  {
  }

  lemma DrainOne<T(!new)>(dec: bytes -> Decoded<T>, items: seq<T>, e: bytes, v: T, rest: bytes)
    requires Incremental(dec) && dec(e) == Decoded(Item(v), [])
    ensures Drain(dec, Reader(items, e + rest, None)) == Drain(dec, Reader(items + [v], rest, None))
  {
    assert dec(e + rest) == Decoded(Item(v), [] + rest);
    assert [] + rest == rest;
  }

  lemma {:induction false} DrainItems<T(!new)>(dec: bytes -> Decoded<T>, items: seq<T>, es: seq<bytes>, vs: seq<T>,
                                               tail: bytes)
    requires Incremental(dec) && Encodes(dec, es, vs) && dec(tail).out.NeedMore?
    ensures Drain(dec, Reader(items, Flatten(es) + tail, None)) == Reader(items + vs, tail, None)
    decreases |es|
  {
    Peel(es, tail);
    PeelItems(items, vs);
    if es != [] {
      EncodesRest(dec, es, vs);
      DrainOne(dec, items, es[0], vs[0], Flatten(es[1..]) + tail);
      DrainItems(dec, items + [vs[0]], es[1..], vs[1..], tail);
    }
  }

  /** Any list of items, then the first `k` bytes of one more, written in any chunks: the
      reader yields exactly the list and still holds exactly those `k` bytes. */
  lemma StreamRoundTrip<T(!new)>(dec: bytes -> Decoded<T>, es: seq<bytes>, vs: seq<T>, next: bytes, k: nat,
                                 chunks: seq<bytes>)
    requires Incremental(dec) && Encodes(dec, es, vs)
    requires dec(next).out.Item? && dec(next).rest == [] && k < |next|
    requires Flatten(chunks) == Flatten(es) + next[..k]
    ensures Drain(dec, FeedAll(dec, Reader([], [], None), chunks)) == Reader(vs, next[..k], None)
  {
    StrictPrefixNeedsMore(dec, next, k);
    ChunkingIrrelevant(dec, Reader([], [], None), chunks);
    DrainItems(dec, [], es, vs, next[..k]);
    assert [] + Flatten(chunks) == Flatten(es) + next[..k];
    assert [] + vs == vs;
  }

  /** At the end of input the reader calls `decode_eof` until it fails. */
  function Finish<T(!new)>(dec: bytes -> Decoded<T>, r: Reader<T>): (r': Reader<T>)
    requires forall s: bytes :: dec(s).out.Item? ==> |dec(s).rest| < |s|
    ensures r'.failed.Some?
    decreases |r.buf|
  {
    if r.failed.Some? then r
    else
      match AtEof(dec(r.buf).out)
      case Item(v) => Finish(dec, Reader(r.items + [v], dec(r.buf).rest, None))
      case Error(e) => Reader(r.items, dec(r.buf).rest, Some(e))
  }

  lemma {:induction false} FinishDrained<T(!new)>(dec: bytes -> Decoded<T>, r: Reader<T>)
    requires Incremental(dec)
    ensures Finish(dec, Drain(dec, r)) == Finish(dec, r)
    decreases |r.buf|
  {
    if r.failed.None? && dec(r.buf).out.Item? {
      FinishDrained(dec, Reader(r.items + [dec(r.buf).out.value], dec(r.buf).rest, None));
    }
  }

  /** A stream of whole items and nothing more, in any chunks: the reader yields them all, and then
      fails with `BytesRemaining` although no byte remains. */
  lemma CleanEndFails<T(!new)>(dec: bytes -> Decoded<T>, es: seq<bytes>, vs: seq<T>, chunks: seq<bytes>)
    requires Incremental(dec) && Encodes(dec, es, vs) && dec([]).out.NeedMore? && Flatten(chunks) == Flatten(es)
    ensures Finish(dec, FeedAll(dec, Reader([], [], None), chunks)) == Reader(vs, [], Some(BytesRemaining))
  {
    var start: Reader<T> := Reader([], [], None);
    FinishDrained(dec, FeedAll(dec, start, chunks));
    ChunkingIrrelevant(dec, start, chunks);
    DrainItems(dec, [], es, vs, []);
    assert [] + Flatten(chunks) == Flatten(es) + [];
    assert [] + vs == vs;
  }

  /** For which decoders the empty input is an unfinished item: all but those of commands without a
      body and of unknown commands. */
  lemma EmptyInputWaits(c: CmdType)
    ensures DecodeHeader([]).out.NeedMore? && DecodeAddress([]).out.NeedMore?
    ensures AtEof(DecodeHeader([]).out) == Error(BytesRemaining)
    ensures AtEof(DecodeAddress([]).out) == Error(BytesRemaining)
    ensures DecodeCommand(c, []).out.NeedMore? <==> !c.ConnectType? && !c.HeartbeatType? && !c.OtherType?
    ensures AtEof(DecodeCommand(c, []).out) == Error(BytesRemaining) <==> DecodeCommand(c, []).out.NeedMore?
  {
  }

  // ---------------------------------------------------------------- the three codecs

  lemma HeaderIncremental()
    ensures Incremental(DecodeHeader)
  {
    forall s: bytes, t: bytes | |s| >= 2
      ensures DecodeHeader(s + t) == Decoded(DecodeHeader(s).out, DecodeHeader(s).rest + t)
    {
      assert (s + t)[1..] == s[1..] + t && (s + t)[2..] == s[2..] + t;
    }
  }

  /** The commands with a body; `Connect` and `Heartbeat` have none, so a stream of them
      cannot be told from an empty one. */
  lemma CommandIncremental(c: CmdType)
    ensures Incremental((s: bytes) => DecodeCommand(c, s)) <==> !c.ConnectType? && !c.HeartbeatType?
  {
    var dec := (s: bytes) => DecodeCommand(c, s);
    if c.ConnectType? || c.HeartbeatType? {
      assert dec([]).out.Item? && dec([]).rest == [];
    } else {
      forall s: bytes, t: bytes | !dec(s).out.NeedMore?
        ensures dec(s + t) == Decoded(dec(s).out, dec(s).rest + t)
      {
        if c.AuthType? {
          assert (s + t)[..16] == s[..16] && (s + t)[16..48] == s[16..48] && (s + t)[48..] == s[48..] + t;
        } else if c.PacketType? {
          assert (s + t)[8..] == s[8..] + t;
        } else if c.DissociateType? {
          assert (s + t)[2..] == s[2..] + t;
        }
      }
    }
  }

  lemma DomainStable(s: bytes, t: bytes)
    requires |s| >= 2 && s[0] == DOMAIN_TYPE && !DecodeAddress(s).out.NeedMore?
    ensures DecodeAddress(s + t) == Decoded(DecodeAddress(s).out, DecodeAddress(s).rest + t)
  {
    var u := s + t;
    var n: int := s[1];
    assert u[0] == s[0] && u[1] == s[1] && u[2 + n] == s[2 + n] && u[3 + n] == s[3 + n];
    assert u[2..2 + n] == s[2..2 + n];
    assert u[4 + n..] == s[4 + n..] + t;
    assert u[2..] == s[2..] + t;
  }

  lemma IpStable(s: bytes, t: bytes)
    requires s != [] && s[0] != DOMAIN_TYPE && !DecodeAddress(s).out.NeedMore?
    ensures DecodeAddress(s + t) == Decoded(DecodeAddress(s).out, DecodeAddress(s).rest + t)
  {
    var u := s + t;
    if s[0] == NONE_TYPE {
      assert u[1..] == s[1..] + t;
    } else if s[0] == IPV4_TYPE {
      assert u[1..5] == s[1..5];
      assert u[7..] == s[7..] + t;
    } else if s[0] == IPV6_TYPE {
      assert u[1..17] == s[1..17];
      assert u[19..] == s[19..] + t;
    }
  }

  lemma AddressIncremental()
    ensures Incremental(DecodeAddress)
  {
    forall s: bytes, t: bytes | !DecodeAddress(s).out.NeedMore?
      ensures DecodeAddress(s + t) == Decoded(DecodeAddress(s).out, DecodeAddress(s).rest + t)
    {
      if s[0] == DOMAIN_TYPE {
        DomainStable(s, t);
      } else {
        IpStable(s, t);
      }
    }
  }

  /** Addresses written one after the other in any chunks are read back as the same list. */
  lemma AddressStream(addrs: seq<Address>, es: seq<bytes>, next: Address, k: nat, chunks: seq<bytes>)
    requires EncodableAddress(next) && k < |EncodeAddress(next)| && |es| == |addrs|
    requires forall i :: 0 <= i < |addrs| ==> EncodableAddress(addrs[i]) && es[i] == EncodeAddress(addrs[i])
    requires Flatten(chunks) == Flatten(es) + EncodeAddress(next)[..k]
    ensures Incremental(DecodeAddress)
    ensures Drain(DecodeAddress, FeedAll(DecodeAddress, Reader([], [], None), chunks))
         == Reader(addrs, EncodeAddress(next)[..k], None)
  {
    AddressIncremental();
    forall i | 0 <= i < |addrs|
      ensures DecodeAddress(es[i]) == Decoded(Item(addrs[i]), [])
    {
      AddressRoundTrip(addrs[i], []);
      assert es[i] + [] == es[i];
    }
    AddressRoundTrip(next, []);
    assert EncodeAddress(next) + [] == EncodeAddress(next);
    StreamRoundTrip(DecodeAddress, es, addrs, EncodeAddress(next), k, chunks);
  }
}
