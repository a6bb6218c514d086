/** The heartbeat of the client's polling task. */
module Heartbeat {

  const MAX_FAILURES: nat := 3

  /** One turn of the loop: a heartbeat was due and was sent or not, or something else happened. */
  datatype Turn = Beat(ok: bool) | Traffic | Cancelled

  datatype Ending = Running | Stopped | TooManyFailures

  /** The outcomes of the heartbeats, in order. */
  function Beats(turns: seq<Turn>): (b: seq<bool>) {
    if turns == [] then []
    else
      var init, last := Beats(turns[..|turns| - 1]), turns[|turns| - 1];
      if last.Beat? then init + [last.ok] else init
  }

  /** The last three heartbeats failed. */
  predicate ThreeInARow(beats: seq<bool>) {
    |beats| >= 3 && !beats[|beats| - 1] && !beats[|beats| - 2] && !beats[|beats| - 3]
  }

  /** How many heartbeats at the end failed. */
  function Trailing(beats: seq<bool>): (n: nat) {
    if beats == [] || beats[|beats| - 1] then 0 else 1 + Trailing(beats[..|beats| - 1])
  }

  lemma TrailingIsThree(beats: seq<bool>)
    ensures Trailing(beats) >= 3 <==> ThreeInARow(beats)
  {
    if |beats| >= 2 {
      var one := beats[..|beats| - 1];
      var two := one[..|one| - 1];
      assert Trailing(two) >= 0;
    }
  }

  /** Heartbeats at turns `i`, `j` and `k` failed, and there was no other from `i` on. */
  ghost predicate FailedAt(turns: seq<Turn>, i: nat, j: nat, k: nat) {
    && i < j < k < |turns| && turns[i] == Beat(false) && turns[j] == Beat(false) && turns[k] == Beat(false)
    && forall m :: i < m < |turns| && m != j && m != k ==> !turns[m].Beat?
  }

  ghost predicate ThreeFailed(turns: seq<Turn>) {
    exists i: nat, j: nat, k: nat :: FailedAt(turns, i, j, k)
  }

  /** The last beat and what comes before it. */
  lemma {:induction false} LastBeat(turns: seq<Turn>) returns (k: nat)
    requires Beats(turns) != []
    ensures k < |turns| && turns[k].Beat? && (forall m :: k < m < |turns| ==> !turns[m].Beat?)
    ensures Beats(turns) == Beats(turns[..k]) + [turns[k].ok]
    decreases |turns|
  {
    var last := |turns| - 1;
    if turns[last].Beat? {
      k := last;
    } else {
      k := LastBeat(turns[..last]);
      assert turns[..last][..k] == turns[..k];
    }
  }

  lemma {:induction false} NoMoreBeats(turns: seq<Turn>, k: nat)
    requires k <= |turns| && forall m :: k <= m < |turns| ==> !turns[m].Beat?
    ensures Beats(turns) == Beats(turns[..k])
    decreases |turns|
  {
    if k == |turns| {
      assert turns[..k] == turns;
    } else {
      var init := turns[..|turns| - 1];
      NoMoreBeats(init, k);
      assert init[..k] == turns[..k];
    }
  }

  lemma BeatIsLast(turns: seq<Turn>, k: nat)
    requires k < |turns| && turns[k].Beat? && forall m :: k < m < |turns| ==> !turns[m].Beat?
    ensures Beats(turns) == Beats(turns[..k]) + [turns[k].ok]
  {
    NoMoreBeats(turns, k + 1);
    assert turns[..k + 1][..k] == turns[..k];
  }

  /** The last three heartbeats failed exactly if three turns were failing heartbeats with no other
      heartbeat between them or after: traffic does not count. */
  lemma ThreeInARowIff(turns: seq<Turn>)
    ensures ThreeInARow(Beats(turns)) <==> ThreeFailed(turns)
  {
    if ThreeInARow(Beats(turns)) {
      var k := LastBeat(turns);
      var j := LastBeat(turns[..k]);
      var i := LastBeat(turns[..k][..j]);
      assert turns[..k][j] == turns[j] && turns[..k][..j][i] == turns[i];
      assert FailedAt(turns, i, j, k);
    }
    if i: nat, j: nat, k: nat :| FailedAt(turns, i, j, k) {
      BeatIsLast(turns, k);
      BeatIsLast(turns[..k], j);
      BeatIsLast(turns[..k][..j], i);
    }
  }

  /** How many heartbeats in a row have failed after `n` turns. */
  function Failures(turns: seq<Turn>, n: nat): (f: nat)
    requires n <= |turns|
  {
    Trailing(Beats(turns[..n]))
  }

  lemma OneMoreTurn(turns: seq<Turn>, n: nat)
    requires 0 < n <= |turns|
    ensures Failures(turns, n) == match turns[n - 1]
                                  case Beat(ok) => if ok then 0 else Failures(turns, n - 1) + 1
                                  case _ => Failures(turns, n - 1)
    ensures Failures(turns, n) >= 3 <==> ThreeFailed(turns[..n])
  {
    assert turns[..n][..n - 1] == turns[..n - 1];
    TrailingIsThree(Beats(turns[..n]));
    ThreeInARowIff(turns[..n]);
    if turns[n - 1].Beat? {
      var beats := Beats(turns[..n]);
      assert beats[..|beats| - 1] == Beats(turns[..n - 1]);
    }
  }

  lemma NoTurns(turns: seq<Turn>)
    ensures Failures(turns, 0) == 0 && !ThreeFailed(turns[..0])
  {
    assert turns[..0] == [];
  }

  /** The task gives up after the turn with the third failure in a row, and not before, whatever
      traffic comes between; it stops when cancelled; otherwise it goes on. */
  method Poll(turns: seq<Turn>) returns (ending: Ending, n: nat)
    ensures n <= |turns|
    ensures ending == TooManyFailures <==> n > 0 && turns[n - 1].Beat? && ThreeFailed(turns[..n])
    ensures ending == Stopped <==> n > 0 && turns[n - 1].Cancelled?
    ensures ending == Running ==> n == |turns|
    ensures forall m :: 0 <= m < n ==> !ThreeFailed(turns[..m])
    ensures forall m :: 0 <= m < n - 1 ==> !turns[m].Cancelled?
  {
    var failures := 0;
    n := 0;
    NoTurns(turns);
    while n < |turns|
      invariant n <= |turns| && failures < MAX_FAILURES
      invariant failures == Failures(turns, n)
      invariant forall m :: 0 <= m <= n ==> !ThreeFailed(turns[..m])
      invariant forall m :: 0 <= m < n ==> !turns[m].Cancelled?
    {
      var turn := turns[n];
      n := n + 1;
      OneMoreTurn(turns, n);
      match turn {
        case Cancelled =>
          return Stopped, n;
        case Traffic =>
        case Beat(ok) =>
          if !ok {
            failures := failures + 1;
            if failures >= MAX_FAILURES {
              return TooManyFailures, n;
            }
          } else if failures > 0 {
            failures := 0;
          }
      }
    }
    return Running, n;
  }
}
