/** Destinations as text: `Display` and `Deserialize` of `TargetAddr`. Text is its UTF-8 bytes. */
module AddrText {
  import opened Bytes
  import opened Target

  const COLON: uint8 := 58
  const DOT: uint8 := 46
  const PLUS: uint8 := 43
  const LBRACKET: uint8 := 91
  const RBRACKET: uint8 := 93

  // ---------------------------------------------------------------- decimal numbers

  predicate IsDigit(b: uint8) {
    48 <= b <= 57
  }

  predicate AllDigits(s: bytes) {
    forall i :: 0 <= i < |s| ==> IsDigit(s[i])
  }

  function Decimal(n: nat): (s: bytes) {
    if n < 10 then [48 + n] else Decimal(n / 10) + [48 + n % 10]
  }

  function Value(s: bytes): (n: nat)
    requires AllDigits(s)
  {
    if s == [] then 0 else Value(s[..|s| - 1]) * 10 + (s[|s| - 1] - 48)
  }

  lemma {:induction false} DecimalValue(n: nat)
    ensures AllDigits(Decimal(n)) && Decimal(n) != [] && Value(Decimal(n)) == n
    ensures n > 0 ==> Decimal(n)[0] != 48
    ensures n >= 10 ==> |Decimal(n)| == |Decimal(n / 10)| + 1
  {
    if n >= 10 {
      DecimalValue(n / 10);
      assert Decimal(n)[..|Decimal(n)| - 1] == Decimal(n / 10);
    }
  }

  /** `str::parse::<u16>`: an optional plus sign, then digits, not too large. */
  function ParseU16(s: bytes): (v: Option<uint16>) {
    var digits := if |s| > 1 && s[0] == PLUS then s[1..] else s;
    if digits != [] && AllDigits(digits) && Value(digits) < 0x1_0000 then Some(Value(digits)) else None
  }

  /** One number of a dotted quad: at most three digits, no leading zero, at most 255. */
  function ParseOctet(s: bytes): (v: Option<uint8>) {
    if 1 <= |s| <= 3 && AllDigits(s) && !(|s| > 1 && s[0] == 48) && Value(s) < 0x100 then Some(Value(s)) else None
  }

  lemma PortRoundTrip(p: uint16)
    ensures ParseU16(Decimal(p)) == Some(p)
  {
    DecimalValue(p);
    assert IsDigit(Decimal(p)[0]);
  }

  lemma OctetRoundTrip(b: uint8)
    ensures ParseOctet(Decimal(b)) == Some(b)
  {
    DecimalValue(b);
    DecimalValue(b / 10);
    DecimalValue(b / 10 / 10);
    assert |Decimal(b)| <= 3;
    assert b < 10 ==> |Decimal(b)| == 1;
  }

  // ---------------------------------------------------------------- splitting

  function Split(s: bytes, sep: uint8): (parts: seq<bytes>)
    ensures |parts| >= 1
  {
    if s == [] then [[]]
    else
      var rest := Split(s[1..], sep);
      if s[0] == sep then [[]] + rest else [[s[0]] + rest[0]] + rest[1..]
  }

  lemma {:induction false} SplitWhole(s: bytes, sep: uint8)
    requires sep !in s
    ensures Split(s, sep) == [s]
    decreases |s|
  {
    if s != [] {
      SplitWhole(s[1..], sep);
      assert [s[0]] + s[1..] == s;
    }
  }

  lemma {:induction false} SplitFirst(a: bytes, sep: uint8, b: bytes)
    requires sep !in a
    ensures Split(a + [sep] + b, sep) == [a] + Split(b, sep)
    decreases |a|
  {
    var s := a + [sep] + b;
    if a == [] {
      assert s[1..] == b;
    } else {
      assert s[1..] == a[1..] + [sep] + b;
      SplitFirst(a[1..], sep, b);
      assert [a[0]] + a[1..] == a;
    }
  }

  lemma {:induction false} SplitCount(a: bytes, sep: uint8, b: bytes)
    ensures |Split(a + [sep] + b, sep)| == |Split(a, sep)| + |Split(b, sep)|
    decreases |a|
  {
    var s := a + [sep] + b;
    if a == [] {
      assert s[1..] == b;
    } else {
      assert s[1..] == a[1..] + [sep] + b;
      SplitCount(a[1..], sep, b);
    }
  }

  lemma {:induction false} SplitSeveral(a: bytes, sep: uint8)
    requires sep in a
    ensures |Split(a, sep)| >= 2
    decreases |a|
  {
    if a[0] != sep {
      SplitSeveral(a[1..], sep);
    }
  }

  // ---------------------------------------------------------------- UTF-8 and ASCII

  lemma CharBeforeAscii(a: bytes, c: uint8, b: bytes)
    requires a != [] && c <= 0x7F && CharLength(a + [c] + b) > 0
    ensures CharLength(a) == CharLength(a + [c] + b)
  {
  }

  lemma CharKept(a: bytes, b: bytes)
    requires CharLength(a) > 0
    ensures CharLength(a + b) == CharLength(a)
  {
  }

  /** Text may be cut at an ASCII character. */
  lemma {:induction false} CutAtAscii(a: bytes, c: uint8, b: bytes)
    requires c <= 0x7F && ValidUtf8(a + [c] + b)
    ensures ValidUtf8(a) && ValidUtf8(b)
    decreases |a|
  {
    var s := a + [c] + b;
    if a == [] {
      assert s[1..] == b;
    } else {
      CharBeforeAscii(a, c, b);
      var n := CharLength(a);
      assert s[n..] == a[n..] + [c] + b;
      CutAtAscii(a[n..], c, b);
    }
  }

  lemma {:induction false} AppendAscii(a: bytes, b: bytes)
    requires ValidUtf8(a) && Ascii(b)
    ensures ValidUtf8(a + b)
    decreases |a|
  {
    if a == [] {
      AsciiIsUtf8(b);
      assert a + b == b;
    } else {
      var n := CharLength(a);
      AppendAscii(a[n..], b);
      assert (a + b)[n..] == a[n..] + b;
      CharKept(a, b);
      assert ValidUtf8((a + b)[CharLength(a + b)..]);
    }
  }

  // ---------------------------------------------------------------- addresses

  /** IPv6 text is a parameter; these are the laws it is used under. */
  datatype V6Text = V6Text(show: octets16 -> bytes, read: bytes -> Option<octets16>)

  ghost predicate Lawful(v6: V6Text) {
    forall ip: octets16 :: v6.read(v6.show(ip)) == Some(ip) && RBRACKET !in v6.show(ip) && Ascii(v6.show(ip))
  }

  function PrintV4(ip: octets4): (s: bytes) {
    Decimal(ip[0]) + [DOT] + (Decimal(ip[1]) + [DOT] + (Decimal(ip[2]) + [DOT] + Decimal(ip[3])))
  }

  function ParseV4(s: bytes): (ip: Option<octets4>) {
    var p := Split(s, DOT);
    if |p| != 4 then None
    else
      match (ParseOctet(p[0]), ParseOctet(p[1]), ParseOctet(p[2]), ParseOctet(p[3]))
      case (Some(a), Some(b), Some(c), Some(d)) => Some([a, b, c, d])
      case _ => None
  }

  function Print(v6: V6Text, t: TargetAddr): (s: bytes) {
    match t
    case Domain(name, port) => name + [COLON] + Decimal(port)
    case IPv4(ip, port) => PrintV4(ip) + [COLON] + Decimal(port)
    case IPv6(ip, port) => [LBRACKET] + v6.show(ip) + [RBRACKET] + ([COLON] + Decimal(port))
  }

  function Find(s: bytes, b: uint8): (i: Option<nat>)
    ensures i.Some? ==> i.value < |s| && s[i.value] == b && b !in s[..i.value]
    ensures i.None? ==> b !in s
  {
    if s == [] then None
    else if s[0] == b then Some(0)
    else
      match Find(s[1..], b)
      case Some(i) =>
        assert s[..i + 1] == [s[0]] + s[1..][..i];
        Some(i + 1)
      case None => None
  }

  lemma SplitInTwo(s: bytes, sep: uint8)
    requires |Split(s, sep)| == 2
    ensures s == Split(s, sep)[0] + [sep] + Split(s, sep)[1]
  {
    var i := Find(s, sep);
    if i.Some? {
      var a, b := s[..i.value], s[i.value + 1..];
      assert s == a + [sep] + b;
      SplitFirst(a, sep, b);
      if sep in b {
        SplitSeveral(b, sep);
      } else {
        SplitWhole(b, sep);
      }
    } else {
      SplitWhole(s, sep);
    }
  }

  /** `None` for every error. */
  function Parse(v6: V6Text, s: utf8): (t: Option<TargetAddr>) {
    if s != [] && s[0] == LBRACKET then
      match Find(s, RBRACKET)
      case None => None
      case Some(end) =>
        if end + 1 >= |s| || s[end + 1] != COLON then None
        else
          match (v6.read(s[1..end]), ParseU16(s[end + 2..]))
          case (Some(ip), Some(port)) => Some(IPv6(ip, port))
          case _ => None
    else
      var parts := Split(s, COLON);
      if |parts| != 2 then None
      else
        SplitInTwo(s, COLON);
        CutAtAscii(parts[0], COLON, parts[1]);
        match (ParseU16(parts[1]), ParseV4(parts[0]))
        case (None, _) => None
        case (Some(port), Some(ip)) => Some(IPv4(ip, port))
        case (Some(port), None) => Some(Domain(parts[0], port))
  }

  // ---------------------------------------------------------------- round trips

  lemma DigitsOnly(n: nat, b: uint8)
    requires !IsDigit(b)
    ensures b !in Decimal(n)
  {
  }

  lemma QuadSplit(a: bytes, b: bytes, c: bytes, d: bytes)
    requires DOT !in a && DOT !in b && DOT !in c && DOT !in d
    ensures Split(a + [DOT] + (b + [DOT] + (c + [DOT] + d)), DOT) == [a, b, c, d]
  {
    SplitFirst(a, DOT, b + [DOT] + (c + [DOT] + d));
    SplitFirst(b, DOT, c + [DOT] + d);
    SplitFirst(c, DOT, d);
    SplitWhole(d, DOT);
  }

  lemma V4RoundTrip(ip: octets4)
    ensures ParseV4(PrintV4(ip)) == Some(ip)
  {
    forall i | 0 <= i < 4
      ensures ParseOctet(Decimal(ip[i])) == Some(ip[i]) && DOT !in Decimal(ip[i])
    {
      OctetRoundTrip(ip[i]);
      DigitsOnly(ip[i], DOT);
    }
    QuadSplit(Decimal(ip[0]), Decimal(ip[1]), Decimal(ip[2]), Decimal(ip[3]));
    assert ip == [ip[0], ip[1], ip[2], ip[3]];
  }

  lemma V4Characters(ip: octets4)
    ensures PrintV4(ip) != [] && forall i :: 0 <= i < |PrintV4(ip)| ==> IsDigit(PrintV4(ip)[i]) || PrintV4(ip)[i] == DOT
  {
    DecimalValue(ip[0]);
    DecimalValue(ip[1]);
    DecimalValue(ip[2]);
    DecimalValue(ip[3]);
  }

  lemma HostPortSplit(host: bytes, port: uint16)
    requires COLON !in host
    ensures Split(host + [COLON] + Decimal(port), COLON) == [host, Decimal(port)]
  {
    SplitFirst(host, COLON, Decimal(port));
    DigitsOnly(port, COLON);
    SplitWhole(Decimal(port), COLON);
  }

  lemma PrintIsText(v6: V6Text, t: TargetAddr)
    requires Lawful(v6)
    ensures ValidUtf8(Print(v6, t))
  {
    DecimalValue(t.port);
    match t
    case Domain(name, port) =>
      AppendAscii(name, [COLON] + Decimal(port));
      assert name + [COLON] + Decimal(port) == name + ([COLON] + Decimal(port));
    case IPv4(ip, port) =>
      V4Characters(ip);
      AsciiIsUtf8(Print(v6, t));
    case IPv6(ip, port) =>
      AsciiIsUtf8(Print(v6, t));
  }

  /** A domain whose text could be taken for something else. */
  predicate Ambiguous(name: bytes) {
    COLON in name || (name != [] && name[0] == LBRACKET) || ParseV4(name).Some?
  }

  lemma DomainRoundTripIff(v6: V6Text, name: utf8, port: uint16)
    requires ValidUtf8(name + [COLON] + Decimal(port))
    ensures Parse(v6, name + [COLON] + Decimal(port)) == Some(Domain(name, port)) <==> !Ambiguous(name)
  {
    var s := name + [COLON] + Decimal(port);
    PortRoundTrip(port);
    if COLON !in name {
      HostPortSplit(name, port);
    } else {
      SplitCount(name, COLON, Decimal(port));
      SplitSeveral(name, COLON);
      assert |Split(s, COLON)| >= 3;
    }
  }

  lemma V6RoundTrip(v6: V6Text, ip: octets16, port: uint16)
    requires Lawful(v6) && ValidUtf8(Print(v6, IPv6(ip, port)))
    ensures Parse(v6, Print(v6, IPv6(ip, port))) == Some(IPv6(ip, port))
  {
    PortRoundTrip(port);
    Bracketed(v6.show(ip), Decimal(port));
    ReadBracketed(v6, Print(v6, IPv6(ip, port)), |v6.show(ip)| + 1, ip, port);
  }

  lemma Bracketed(text: bytes, tail: bytes)
    requires RBRACKET !in text
    ensures var s := [LBRACKET] + text + [RBRACKET] + ([COLON] + tail);
            var end := |text| + 1;
            && Find(s, RBRACKET) == Some(end) && end + 1 < |s| && s[0] == LBRACKET && s[end + 1] == COLON
            && s[1..end] == text && s[end + 2..] == tail
  {
    FindAt([LBRACKET] + text, RBRACKET, [COLON] + tail);
  }

  lemma ReadBracketed(v6: V6Text, s: utf8, end: nat, ip: octets16, port: uint16)
    requires s != [] && s[0] == LBRACKET && Find(s, RBRACKET) == Some(end) && 1 <= end && end + 1 < |s|
    requires s[end + 1] == COLON && v6.read(s[1..end]) == Some(ip) && ParseU16(s[end + 2..]) == Some(port)
    ensures Parse(v6, s) == Some(IPv6(ip, port))
  {
  }

  lemma FindAt(a: bytes, b: uint8, tail: bytes)
    requires b !in a
    ensures Find(a + [b] + tail, b) == Some(|a|)
  {
    var s := a + [b] + tail;
    assert s[|a|] == b;
  }

  /** Printing and reading back returns the address itself exactly when it is not a domain that looks
      like an IP address, starts with a bracket or contains a colon. */
  lemma TextRoundTripIff(v6: V6Text, t: TargetAddr)
    requires Lawful(v6)
    ensures ValidUtf8(Print(v6, t))
    ensures Parse(v6, Print(v6, t)) == Some(t) <==> !(t.Domain? && Ambiguous(t.name))
  {
    PrintIsText(v6, t);
    match t
    case Domain(name, port) => DomainRoundTripIff(v6, name, port);
    case IPv4(ip, port) =>
      V4RoundTrip(ip);
      V4Characters(ip);
      HostPortSplit(PrintV4(ip), port);
      PortRoundTrip(port);
    case IPv6(ip, port) => V6RoundTrip(v6, ip, port);
  }

  // ---------------------------------------------------------------- the text itself

  predicate AsciiText(s: string) {
    forall i :: 0 <= i < |s| ==> s[i] <= '~'
  }

  function Text(s: string): (b: bytes)
    requires AsciiText(s)
  {
    seq(|s|, i requires 0 <= i < |s| => s[i] as int)
  }

  /** Host and port with a colon between them, octets with dots, and brackets round IPv6 addresses. */
  lemma PrintLayout(v6: V6Text, name: utf8, ip4: octets4, ip6: octets16, port: uint16)
    ensures Print(v6, Domain(name, port)) == name + Text(":") + Decimal(port)
    ensures Print(v6, IPv4(ip4, port))
         == Decimal(ip4[0]) + Text(".") + Decimal(ip4[1]) + Text(".") + Decimal(ip4[2]) + Text(".") + Decimal(ip4[3])
            + Text(":") + Decimal(port)
    ensures Print(v6, IPv6(ip6, port)) == Text("[") + v6.show(ip6) + Text("]:") + Decimal(port)
  {
    assert Text(":") == [COLON] && Text(".") == [DOT] && Text("[") == [LBRACKET];
    assert Text("]:") == [RBRACKET] + [COLON];
  }

  /** Numbers in decimal, most significant digit first. */
  lemma DecimalText(n: nat, d: nat)
    requires d < 10
    ensures Decimal(d) == ['0' as int + d]
    ensures n > 0 ==> Decimal(10 * n + d) == Decimal(n) + Decimal(d)
  {
    if n > 0 {
      assert (10 * n + d) / 10 == n && (10 * n + d) % 10 == d;
    }
  }

  /** A port may have a plus sign and leading zeros; an octet has neither. */
  lemma NumbersRead(p: uint16, b: uint8, big: nat)
    ensures ParseU16(Text("+") + Decimal(p)) == Some(p) && ParseU16(Text("0") + Decimal(p)) == Some(p)
    ensures ParseU16([]) == None && ParseU16(Text("+")) == None
    ensures big >= 0x1_0000 ==> ParseU16(Decimal(big)) == None
    ensures ParseOctet(Text("+") + Decimal(b)) == None && ParseOctet(Text("0") + Decimal(b)) == None
    ensures big >= 0x100 ==> ParseOctet(Decimal(big)) == None
  {
    DecimalValue(p);
    DecimalValue(b);
    DecimalValue(big);
    assert Text("+") == [PLUS] && Text("0") == [48];
    assert ([PLUS] + Decimal(p))[1..] == Decimal(p);
    LeadingZero(Decimal(p));
    assert ([48] + Decimal(p))[0] != PLUS;
    assert IsDigit(Decimal(big)[0]);
    assert !IsDigit(([PLUS] + Decimal(b))[0]);
  }

  lemma {:induction false} LeadingZero(s: bytes)
    requires AllDigits(s)
    ensures AllDigits([48] + s) && Value([48] + s) == Value(s)
    decreases |s|
  {
    if s != [] {
      LeadingZero(s[..|s| - 1]);
      assert ([48] + s)[..|s|] == [48] + s[..|s| - 1];
    }
  }

  /** Text with one colon is a host and a port: an IPv4 address if the host is a dotted quad, otherwise a
      domain. */
  lemma HostPortRead(v6: V6Text, host: utf8, p: bytes)
    requires ValidUtf8(host + Text(":") + p) && COLON !in host && COLON !in p && !(host != [] && host[0] == '[' as int)
    ensures Parse(v6, host + Text(":") + p)
         == if ParseU16(p).None? then None
            else if ParseV4(host).Some? then Some(IPv4(ParseV4(host).value, ParseU16(p).value))
            else Some(Domain(host, ParseU16(p).value))
  {
    assert Text(":") == [COLON];
    SplitFirst(host, COLON, p);
    SplitWhole(p, COLON);
  }

  /** Anything else that does not start with a bracket is refused. */
  lemma NotHostPort(v6: V6Text, s: utf8, a: bytes, b: bytes)
    requires !(s != [] && s[0] == '[' as int)
    ensures ':' as int !in s ==> Parse(v6, s) == None
    ensures s == a + Text(":") + b && ':' as int in b ==> Parse(v6, s) == None
  {
    assert Text(":") == [COLON];
    if COLON !in s {
      SplitWhole(s, COLON);
    } else if s == a + Text(":") + b && COLON in b {
      SplitCount(a, COLON, b);
      SplitSeveral(b, COLON);
    }
  }

  /** Text with a bracket is an IPv6 address up to the closing bracket, and a port after the colon that
      must follow. */
  lemma BracketRead(v6: V6Text, text: bytes, p: bytes)
    requires ']' as int !in text && ValidUtf8(Text("[") + text + Text("]:") + p)
    ensures Parse(v6, Text("[") + text + Text("]:") + p)
         == if v6.read(text).None? || ParseU16(p).None? then None
            else Some(IPv6(v6.read(text).value, ParseU16(p).value))
  {
    var s := [LBRACKET] + text + [RBRACKET] + ([COLON] + p);
    assert Text("[") == [LBRACKET] && Text("]:") == [RBRACKET, COLON];
    assert Text("[") + text + Text("]:") + p == s;
    Bracketed(text, p);
  }

  /** What has been read and printed is read as the same address again. */
  lemma ReadPrintRead(v6: V6Text, s: utf8)
    requires Lawful(v6) && Parse(v6, s).Some?
    ensures ValidUtf8(Print(v6, Parse(v6, s).value))
    ensures Parse(v6, Print(v6, Parse(v6, s).value)) == Parse(v6, s)
  {
    var t := Parse(v6, s).value;
    if t.Domain? {
      var parts := Split(s, COLON);
      SplitInTwo(s, COLON);
      PartsHaveNone(s, COLON);
      assert t.name == parts[0];
    }
    TextRoundTripIff(v6, t);
  }

  lemma PartsHaveNone(s: bytes, sep: uint8)
    requires |Split(s, sep)| == 2
    ensures sep !in Split(s, sep)[0]
  {
    var i := Find(s, sep);
    if i.Some? {
      var a, b := s[..i.value], s[i.value + 1..];
      assert s == a + [sep] + b;
      SplitFirst(a, sep, b);
    } else {
      SplitWhole(s, sep);
    }
  }

  /** An open bracket that is not closed is refused. */
  lemma OpenBracketRefused(v6: V6Text, s: utf8)
    requires s != [] && s[0] == '[' as int && ']' as int !in s
    ensures Parse(v6, s) == None
  {
    assert Find(s, RBRACKET) == None;
  }

  /** And so is one whose closing bracket is followed by something other than a colon. */
  lemma NoPortRefused(v6: V6Text, s: utf8, end: nat)
    requires s != [] && s[0] == '[' as int && end < |s| && s[end] == ']' as int && ']' as int !in s[..end]
    requires end + 1 == |s| || s[end + 1] != ':' as int
    ensures Parse(v6, s) == None
  {
    assert s == s[..end] + [RBRACKET] + s[end + 1..];
    FindAt(s[..end], RBRACKET, s[end + 1..]);
  }

  lemma SplitHead(s: bytes, sep: uint8) returns (rest: bytes)
    requires |Split(s, sep)| >= 2
    ensures s == Split(s, sep)[0] + [sep] + rest && Split(rest, sep) == Split(s, sep)[1..]
  {
    var i := Find(s, sep);
    if i.None? {
      SplitWhole(s, sep);
    } else {
      rest := s[i.value + 1..];
      assert s == s[..i.value] + [sep] + rest;
      SplitFirst(s[..i.value], sep, rest);
    }
  }

  lemma {:induction false} SplitAlone(s: bytes, sep: uint8)
    requires |Split(s, sep)| == 1
    ensures Split(s, sep) == [s]
    decreases |s|
  {
    if s != [] {
      SplitAlone(s[1..], sep);
      assert [s[0]] + s[1..] == s;
    }
  }

  lemma {:induction false} DecimalUnique(s: bytes)
    requires AllDigits(s) && s != [] && (|s| > 1 ==> s[0] != 48)
    ensures s == Decimal(Value(s))
    ensures Value(s) == 0 ==> s == [48]
    decreases |s|
  {
    var init := s[..|s| - 1];
    assert s == init + [s[|s| - 1]];
    assert Value(s) == Value(init) * 10 + (s[|s| - 1] - 48);
    if init == [] {
      assert Value(init) == 0;
    } else {
      DecimalUnique(init);
      assert Value(s) / 10 == Value(init) && Value(s) % 10 == s[|s| - 1] - 48;
    }
  }

  /** Nothing is read as an IPv4 address but its own text, so a domain is taken for one exactly if it is
      a dotted quad as it would be printed. */
  lemma V4Exact(s: bytes, ip: octets4)
    ensures ParseV4(s) == Some(ip) <==> s == PrintV4(ip)
  {
    if s == PrintV4(ip) {
      V4RoundTrip(ip);
    }
    if ParseV4(s) == Some(ip) {
      QuadIs(s, ip);
    }
  }

  lemma QuadIs(s: bytes, ip: octets4)
    requires ParseV4(s) == Some(ip)
    ensures s == PrintV4(ip)
  {
    var p := Split(s, DOT);
    var r1 := SplitHead(s, DOT);
    var r2 := SplitHead(r1, DOT);
    var r3 := SplitHead(r2, DOT);
    SplitAlone(r3, DOT);
    forall i | 0 <= i < 4
      ensures p[i] == Decimal(ip[i])
    {
      DecimalUnique(p[i]);
    }
  }
}
