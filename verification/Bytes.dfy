/** Machine integers, byte strings, big-endian words, UTF-8 well-formedness and
    concatenation of pieces: the vocabulary shared by every other module. */
module Bytes {

  type uint8 = x: int | 0 <= x < 0x100
  type uint16 = x: int | 0 <= x < 0x1_0000
  type bytes = seq<uint8>

  datatype Option<+T> = None | Some(value: T)

  /** `put_u16`: network byte order. */
  function BE16(v: uint16): (b: bytes)
    ensures |b| == 2
  {
    [v / 0x100, v % 0x100]
  }

  /** `get_u16`, the inverse of `BE16`. */
  function FromBE16(hi: uint8, lo: uint8): (v: uint16)
    ensures BE16(v) == [hi, lo]
  {
    hi * 0x100 + lo
  }

  /** Rust's `len() as u16`. */
  function AsU16(n: nat): (v: uint16) {
    n % 0x1_0000
  }

  // ---------------------------------------------------------------- UTF-8

  predicate Continuation(b: uint8) {
    0x80 <= b <= 0xBF
  }

  /** The second byte of a three-byte sequence: no overlong forms, no surrogates. */
  predicate SecondOfThree(b0: uint8, b1: uint8) {
    Continuation(b1) && (b0 == 0xE0 ==> 0xA0 <= b1) && (b0 == 0xED ==> b1 <= 0x9F)
  }

  /** The second byte of a four-byte sequence: no overlong forms, at most U+10FFFF. */
  predicate SecondOfFour(b0: uint8, b1: uint8) {
    Continuation(b1) && (b0 == 0xF0 ==> 0x90 <= b1) && (b0 == 0xF4 ==> b1 <= 0x8F)
  }

  /** The length of the well-formed character at the front, 0 if there is none. */
  function CharLength(s: bytes): (n: nat)
    ensures n <= |s|
  {
    if s == [] then 0
    else if s[0] <= 0x7F then 1
    else if 0xC2 <= s[0] <= 0xDF then
      if |s| >= 2 && Continuation(s[1]) then 2 else 0
    else if 0xE0 <= s[0] <= 0xEF then
      if |s| >= 3 && SecondOfThree(s[0], s[1]) && Continuation(s[2]) then 3 else 0
    else if 0xF0 <= s[0] <= 0xF4 then
      if |s| >= 4 && SecondOfFour(s[0], s[1]) && Continuation(s[2]) && Continuation(s[3]) then 4 else 0
    else 0
  }

  /** What `str::from_utf8` accepts. */
  predicate ValidUtf8(s: bytes) {
    s == [] || (CharLength(s) > 0 && ValidUtf8(s[CharLength(s)..]))
  }

  /** A Rust `String`, by its bytes. */
  type utf8 = s: bytes | ValidUtf8(s) witness []

  predicate Ascii(s: bytes) {
    forall i :: 0 <= i < |s| ==> s[i] <= 0x7F
  }

  lemma {:induction false} AsciiIsUtf8(s: bytes)
    requires Ascii(s)
    ensures ValidUtf8(s)
    decreases |s|
  {
    if s != [] {
      AsciiIsUtf8(s[1..]);
    }
  }

  // ---------------------------------------------------------------- concatenation

  function Flatten(parts: seq<bytes>): (s: bytes) {
    if parts == [] then [] else parts[0] + Flatten(parts[1..])
  }

  lemma {:induction false} FlattenAppend(xs: seq<bytes>, ys: seq<bytes>)
    ensures Flatten(xs + ys) == Flatten(xs) + Flatten(ys)
  {
    if xs == [] {
      assert xs + ys == ys;
    } else {
      assert (xs + ys)[1..] == xs[1..] + ys;
      FlattenAppend(xs[1..], ys);
    }
  }

  lemma FlattenSnoc(xs: seq<bytes>, y: bytes)
    ensures Flatten(xs + [y]) == Flatten(xs) + y
  {
    FlattenAppend(xs, [y]);
    assert [y][1..] == [];
    assert y + [] == y;
  }
}

/** Destinations and packets, as `wind-core` defines them. */
module Target {
  import opened Bytes

  type octets4 = s: bytes | |s| == 4 witness [0, 0, 0, 0]
  type octets16 = s: bytes | |s| == 16 witness [0, 0, 0, 0, 0, 0, 0, 0, 0, 0, 0, 0, 0, 0, 0, 0]

  datatype TargetAddr =
    | Domain(name: utf8, port: uint16)
    | IPv4(v4: octets4, port: uint16)
    | IPv6(v6: octets16, port: uint16)

  datatype UdpPacket = UdpPacket(source: Option<TargetAddr>, target: TargetAddr, payload: bytes)

  /** The stand-in destination 0.0.0.0:0 of a fragment that carries no address. */
  const PLACEHOLDER: TargetAddr := IPv4([0, 0, 0, 0], 0)
}
