/** The bidirectional copy between a local stream and a QUIC stream. */
module CopyIo {
  import opened Bytes

  const BUFFER_SIZE: nat := 16 * 1024

  datatype Side = A | B

  /** One turn of the select loop: what a read from one of the sides gives. */
  datatype Turn = Data(side: Side, data: bytes) | Eof(side: Side) | Fail(side: Side, code: int)

  predicate Readable(r: Turn) {
    r.Data? ==> 1 <= |r.data| <= BUFFER_SIZE
  }

  /** Everything that was read from one side, in order. */
  function BytesFrom(turns: seq<Turn>, side: Side): (s: bytes) {
    if turns == [] then []
    else
      var init, last := BytesFrom(turns[..|turns| - 1], side), turns[|turns| - 1];
      if last.Data? && last.side == side then init + last.data else init
  }

  /** How many of the reads from one side gave data. */
  function Count(turns: seq<Turn>, side: Side): (n: nat) {
    if turns == [] then 0
    else
      var last := turns[|turns| - 1];
      Count(turns[..|turns| - 1], side) + if last.Data? && last.side == side then 1 else 0
  }

  /** What was read in some turns and then in some more is what was read in each. */
  lemma {:induction false} BytesAppend(xs: seq<Turn>, ys: seq<Turn>, side: Side)
    ensures BytesFrom(xs + ys, side) == BytesFrom(xs, side) + BytesFrom(ys, side)
    decreases |ys|
  {
    if ys == [] {
      assert xs + ys == xs;
    } else {
      assert (xs + ys)[..|xs + ys| - 1] == xs + ys[..|ys| - 1];
      BytesAppend(xs, ys[..|ys| - 1], side);
    }
  }

  /** A turn with data gives just these bytes, from the side it was read from and no other; end of file
      and an error give none. */
  lemma BytesOfTurn(side: Side, data: bytes, code: int)
    ensures BytesFrom([Data(side, data)], side) == data
    ensures BytesFrom([Data(side, data)], if side == A then B else A) == []
    ensures BytesFrom([Eof(side)], A) == [] && BytesFrom([Eof(side)], B) == []
    ensures BytesFrom([Fail(side, code)], A) == [] && BytesFrom([Fail(side, code)], B) == []
  {
  }

  // ---------------------------------------------------------------- writes

  /** A failing `write_all`: an error, after some strict prefix of the data has been written. */
  datatype Fault = Fault(cut: nat, code: int)

  /** Which writes to an endpoint fail, by their number. */
  type Fate = nat -> Option<Fault>

  function Written(data: bytes, fault: Option<Fault>): (s: bytes)
    requires data != []
  {
    if fault.None? then data else data[..if fault.value.cut < |data| then fault.value.cut else |data| - 1]
  }

  /** The writing half of a stream. */
  class Endpoint {
    const fate: Fate
    var written: bytes
    var writes: nat

    constructor (fate: Fate)
      ensures this.fate == fate && written == [] && writes == 0
    {
      this.fate := fate;
      written, writes := [], 0;
    }

    method WriteAll(data: bytes) returns (error: Option<int>)
      requires data != []
      modifies this
      ensures writes == old(writes) + 1 && written == old(written) + Written(data, fate(old(writes)))
      ensures error == CodeOf(fate(old(writes)))
    {
      var fault := fate(writes);
      writes := writes + 1;
      written := written + Written(data, fault);
      error := CodeOf(fault);
    }
  }

  function CodeOf(fault: Option<Fault>): (code: Option<int>) {
    if fault.Some? then Some(fault.value.code) else None
  }

  // ---------------------------------------------------------------- the loop on values

  /** The writes of one copy: which of those to either side fail. */
  datatype Env = Env(toA: Fate, toB: Fate)

  function From(fate: Fate, n: nat): (f: Fate) {
    (k: nat) => fate(n + k)
  }

  /** What happens to the write that turn `i` leads to. */
  function FaultAt(env: Env, turns: seq<Turn>, i: nat): (f: Option<Fault>)
    requires i < |turns|
  {
    match turns[i]
    case Data(A, _) => env.toB(Count(turns[..i], A))
    case Data(B, _) => env.toA(Count(turns[..i], B))
    case _ => None
  }

  /** The loop ends with this turn: end of file, a failing read or a failing write. */
  predicate Ends(env: Env, turns: seq<Turn>, i: nat)
    requires i < |turns|
  {
    !turns[i].Data? || FaultAt(env, turns, i).Some?
  }

  function ErrorAt(env: Env, turns: seq<Turn>, i: nat): (e: Option<int>)
    requires i < |turns|
  {
    if turns[i].Fail? then Some(turns[i].code) else CodeOf(FaultAt(env, turns, i))
  }

  /** What has been written of what was read from one side. */
  function Passed(env: Env, turns: seq<Turn>, side: Side): (s: bytes)
    requires AllReadable(turns)
  {
    if turns == [] then []
    else
      var n := |turns| - 1;
      var init := Passed(env, turns[..n], side);
      if turns[n].Data? && turns[n].side == side then init + Written(turns[n].data, FaultAt(env, turns, n)) else init
  }

  predicate AllReadable(turns: seq<Turn>) {
    forall i :: 0 <= i < |turns| ==> Readable(turns[i])
  }

  lemma EndsInPrefix(env: Env, turns: seq<Turn>, n: nat, i: nat)
    requires i < n <= |turns|
    ensures Ends(env, turns[..n], i) <==> Ends(env, turns, i)
  {
    assert turns[..n][..i] == turns[..i];
  }

  lemma {:induction false} NothingLost(env: Env, turns: seq<Turn>, side: Side)
    requires AllReadable(turns) && forall i :: 0 <= i < |turns| ==> !Ends(env, turns, i)
    ensures Passed(env, turns, side) == BytesFrom(turns, side)
    decreases |turns|
  {
    if turns != [] {
      var n := |turns| - 1;
      forall i | 0 <= i < n
        ensures !Ends(env, turns[..n], i)
      {
        EndsInPrefix(env, turns, n, i);
      }
      NothingLost(env, turns[..n], side);
      assert !Ends(env, turns, n);
    }
  }

  /** Before the turn that ends the loop nothing is lost in either direction, and that turn loses
      something exactly if its write fails, and only in its own direction. */
  lemma OnlyFailingWritesLose(env: Env, turns: seq<Turn>, side: Side)
    requires AllReadable(turns) && forall i :: 0 <= i < |turns| - 1 ==> !Ends(env, turns, i)
    ensures Passed(env, turns, side) <= BytesFrom(turns, side)
    ensures Passed(env, turns, side) != BytesFrom(turns, side) <==>
      turns != [] && (var n := |turns| - 1; turns[n].Data? && turns[n].side == side && FaultAt(env, turns, n).Some?)
  {
    if turns != [] {
      var n := |turns| - 1;
      forall i | 0 <= i < n
        ensures !Ends(env, turns[..n], i)
      {
        EndsInPrefix(env, turns, n, i);
      }
      NothingLost(env, turns[..n], side);
    }
  }

  // ---------------------------------------------------------------- the loop

  /** The read into the buffer and the write out of it. */
  method Relay(buf: array<uint8>, data: bytes, to: Endpoint) returns (error: Option<int>)
    requires 1 <= |data| <= buf.Length
    modifies buf, to
    ensures to.writes == old(to.writes) + 1 && to.written == old(to.written) + Written(data, to.fate(old(to.writes)))
    ensures error == CodeOf(to.fate(old(to.writes)))
  {
    forall i | 0 <= i < |data| {
      buf[i] := data[i];
    }
    assert buf[..|data|] == data;
    error := to.WriteAll(buf[..|data|]);
  }

  /** The sides as they are after some turns: what was written to them, and by how many writes. */
  ghost predicate Copied(a: Endpoint, b: Endpoint, env: Env, past: seq<Turn>, la: bytes, lb: bytes, wa: nat, wb: nat)
    requires AllReadable(past)
    reads a, b
  {
    && a.written == la + Passed(env, past, B) && a.writes == wa + Count(past, B)
    && b.written == lb + Passed(env, past, A) && b.writes == wb + Count(past, A)
    && env == Env(From(a.fate, wa), From(b.fate, wb))
  }

  /** A turn in which data was read from side A. */
  method PassToB(a: Endpoint, b: Endpoint, buf: array<uint8>, turns: seq<Turn>, n: nat, ghost env: Env,
                 ghost la: bytes, ghost lb: bytes, ghost wa: nat, ghost wb: nat)
    returns (err: Option<int>)
    requires a != b && AllReadable(turns) && n < |turns| && buf.Length == BUFFER_SIZE
    requires turns[n].Data? && turns[n].side == A && Copied(a, b, env, turns[..n], la, lb, wa, wb)
    modifies b, buf
    ensures Copied(a, b, env, turns[..n + 1], la, lb, wa, wb) && err == CodeOf(FaultAt(env, turns, n))
  {
    OneMoreTurn(env, turns, n, A);
    OneMoreTurn(env, turns, n, B);
    assert FaultAt(env, turns, n) == b.fate(b.writes);
    err := Relay(buf, turns[n].data, b);
  }

  /** The other direction. */
  method PassToA(a: Endpoint, b: Endpoint, buf: array<uint8>, turns: seq<Turn>, n: nat, ghost env: Env,
                 ghost la: bytes, ghost lb: bytes, ghost wa: nat, ghost wb: nat)
    returns (err: Option<int>)
    requires a != b && AllReadable(turns) && n < |turns| && buf.Length == BUFFER_SIZE
    requires turns[n].Data? && turns[n].side == B && Copied(a, b, env, turns[..n], la, lb, wa, wb)
    modifies a, buf
    ensures Copied(a, b, env, turns[..n + 1], la, lb, wa, wb) && err == CodeOf(FaultAt(env, turns, n))
  {
    OneMoreTurn(env, turns, n, A);
    OneMoreTurn(env, turns, n, B);
    assert FaultAt(env, turns, n) == a.fate(a.writes);
    err := Relay(buf, turns[n].data, a);
  }

  /** One turn of the loop. */
  method TakeTurn(a: Endpoint, b: Endpoint, a2b: array<uint8>, b2a: array<uint8>, turns: seq<Turn>, n: nat,
                  a2bNum: nat, b2aNum: nat, ghost env: Env, ghost la: bytes, ghost lb: bytes,
                  ghost wa: nat, ghost wb: nat)
    returns (ended: bool, err: Option<int>, a2bNum': nat, b2aNum': nat)
    requires a != b && AllReadable(turns) && n < |turns| && a2b.Length == BUFFER_SIZE && b2a.Length == BUFFER_SIZE
    requires Copied(a, b, env, turns[..n], la, lb, wa, wb)
    modifies a, b, a2b, b2a
    ensures Copied(a, b, env, turns[..n + 1], la, lb, wa, wb)
    ensures (ended <==> Ends(env, turns, n)) && err == ErrorAt(env, turns, n)
    ensures a2bNum' == a2bNum + |ReadAt(turns, n, A)| && b2aNum' == b2aNum + |ReadAt(turns, n, B)|
  {
    a2bNum', b2aNum' := a2bNum, b2aNum;
    match turns[n] {
      case Eof(_) =>
        OneMoreTurn(env, turns, n, A);
        OneMoreTurn(env, turns, n, B);
        return true, None, a2bNum', b2aNum';
      case Fail(_, code) =>
        OneMoreTurn(env, turns, n, A);
        OneMoreTurn(env, turns, n, B);
        return true, Some(code), a2bNum', b2aNum';
      case Data(side, data) =>
        if side == A {
          a2bNum' := a2bNum' + |data|;
          err := PassToB(a, b, a2b, turns, n, env, la, lb, wa, wb);
        } else {
          b2aNum' := b2aNum' + |data|;
          err := PassToA(a, b, b2a, turns, n, env, la, lb, wa, wb);
        }
        ended := err.Some?;
    }
  }

  /** `copy_io` on a given sequence of turns. It takes turns up to the first that ends it; each side gets
      what was read from the other, as far as its writes succeed; the counters are the bytes read; the
      error is that of the failing read or write, if that is what ended it. */
  method Copy(a: Endpoint, b: Endpoint, turns: seq<Turn>)
    returns (a2bNum: nat, b2aNum: nat, lastErr: Option<int>, n: nat)
    requires a != b && AllReadable(turns)
    modifies a, b
    ensures n <= |turns| && a2bNum == |BytesFrom(turns[..n], A)| && b2aNum == |BytesFrom(turns[..n], B)|
    ensures var env := Env(From(a.fate, old(a.writes)), From(b.fate, old(b.writes)));
            && Copied(a, b, env, turns[..n], old(a.written), old(b.written), old(a.writes), old(b.writes))
            && (forall i :: 0 <= i < n - 1 ==> !Ends(env, turns, i))
            && (n < |turns| ==> n > 0 && Ends(env, turns, n - 1))
            && lastErr == if n == 0 then None else ErrorAt(env, turns, n - 1)
    ensures n == 0 ==> lastErr == None
    ensures n > 0 && turns[n - 1].Fail? ==> lastErr == Some(turns[n - 1].code)
    ensures n > 0 && turns[n - 1].Eof? ==> lastErr == None
    ensures n > 0 && turns[n - 1].Data? ==>
      var to := if turns[n - 1].side == A then b else a;
      && to.writes > 0
      && lastErr == if to.fate(to.writes - 1).Some? then Some(to.fate(to.writes - 1).value.code) else None
    ensures forall i :: 0 <= i < n - 1 ==> turns[i].Data?
    ensures n < |turns| ==> n > 0 && (turns[n - 1].Data? ==> lastErr.Some?)
  {
    ghost var fa, fb, wa, wb := a.fate, b.fate, a.writes, b.writes;
    a2bNum, b2aNum, lastErr, n := CopyTurns(a, b, turns);
    if n > 0 {
      LastError(fa, fb, wa, wb, turns, n);
    }
    forall i | 0 <= i < n - 1
      ensures turns[i].Data?
    {
      assert !Ends(Env(From(fa, wa), From(fb, wb)), turns, i);
    }
  }

  /** The error of the last turn: that of the read, or of the last write to the other side. */
  lemma LastError(fa: Fate, fb: Fate, wa: nat, wb: nat, turns: seq<Turn>, n: nat)
    requires 0 < n <= |turns|
    ensures var e := ErrorAt(Env(From(fa, wa), From(fb, wb)), turns, n - 1);
            match turns[n - 1]
            case Fail(_, code) => e == Some(code)
            case Eof(_) => e == None
            case Data(A, _) =>
              var k := wb + Count(turns[..n], A);
              k > 0 && e == if fb(k - 1).Some? then Some(fb(k - 1).value.code) else None
            case Data(B, _) =>
              var k := wa + Count(turns[..n], B);
              k > 0 && e == if fa(k - 1).Some? then Some(fa(k - 1).value.code) else None
  {
    assert turns[..n][..n - 1] == turns[..n - 1];
  }

  /** The loop, with its outcome in terms of the turns that ended it. */
  method CopyTurns(a: Endpoint, b: Endpoint, turns: seq<Turn>)
    returns (a2bNum: nat, b2aNum: nat, lastErr: Option<int>, n: nat)
    requires a != b && AllReadable(turns)
    modifies a, b
    ensures n <= |turns| && a2bNum == |BytesFrom(turns[..n], A)| && b2aNum == |BytesFrom(turns[..n], B)|
    ensures var env := Env(From(a.fate, old(a.writes)), From(b.fate, old(b.writes)));
            && Copied(a, b, env, turns[..n], old(a.written), old(b.written), old(a.writes), old(b.writes))
            && (forall i :: 0 <= i < n - 1 ==> !Ends(env, turns, i))
            && (n < |turns| ==> n > 0 && Ends(env, turns, n - 1))
            && lastErr == if n == 0 then None else ErrorAt(env, turns, n - 1)
  {
    var a2b := new uint8[BUFFER_SIZE];
    var b2a := new uint8[BUFFER_SIZE];
    ghost var env := Env(From(a.fate, a.writes), From(b.fate, b.writes));
    ghost var la, lb, wa, wb := a.written, b.written, a.writes, b.writes;
    a2bNum, b2aNum, lastErr, n := 0, 0, None, 0;
    assert turns[..0] == [];
    while n < |turns|
      invariant n <= |turns| && a2bNum == |BytesFrom(turns[..n], A)| && b2aNum == |BytesFrom(turns[..n], B)|
      invariant Copied(a, b, env, turns[..n], la, lb, wa, wb)
      invariant forall i :: 0 <= i < n ==> !Ends(env, turns, i)
      invariant lastErr == if n == 0 then None else ErrorAt(env, turns, n - 1)
    {
      BytesSnoc(turns, n, A);
      BytesSnoc(turns, n, B);
      var ended;
      ended, lastErr, a2bNum, b2aNum := TakeTurn(a, b, a2b, b2a, turns, n, a2bNum, b2aNum, env, la, lb, wa, wb);
      n := n + 1;
      if ended {
        return;
      }
    }
  }

  /** What turn `i` reads from this side. */
  function ReadAt(turns: seq<Turn>, i: nat, side: Side): (s: bytes)
    requires i < |turns|
  {
    if turns[i].Data? && turns[i].side == side then turns[i].data else []
  }

  lemma BytesSnoc(turns: seq<Turn>, n: nat, side: Side)
    requires n < |turns|
    ensures |BytesFrom(turns[..n + 1], side)| == |BytesFrom(turns[..n], side)| + |ReadAt(turns, n, side)|
  {
    assert turns[..n + 1][..n] == turns[..n];
  }

  lemma OneMoreTurn(env: Env, turns: seq<Turn>, n: nat, side: Side)
    requires n < |turns| && AllReadable(turns)
    ensures var mine := turns[n].Data? && turns[n].side == side;
            && Count(turns[..n + 1], side) == Count(turns[..n], side) + (if mine then 1 else 0)
            && Passed(env, turns[..n + 1], side)
               == Passed(env, turns[..n], side) + if mine then Written(turns[n].data, FaultAt(env, turns, n)) else []
  {
    assert turns[..n + 1][..n] == turns[..n];
  }
}
