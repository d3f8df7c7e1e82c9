/** Increasing positions in a sequence: how a filter that keeps order is spelled out. */
module Positions {

  /** Strictly increasing, and all below `n`. */
  predicate Increasing(at: seq<nat>, n: nat) {
    && (forall k :: 0 <= k < |at| ==> at[k] < n)
    && (forall k, l :: 0 <= k < l < |at| ==> at[k] < at[l])
  }

  /** `r` is what lies in `s` at positions `at`. */
  predicate Picks<T(==)>(r: seq<T>, s: seq<T>, at: seq<nat>)
    requires Increasing(at, |s|)
  {
    |r| == |at| && forall k :: 0 <= k < |at| ==> r[k] == s[at[k]]
  }

  /** Whether or not position `n` is taken, nothing changes below it. */
  lemma {:induction false} Extend(was: seq<nat>, n: nat, take: bool) returns (at: seq<nat>)
    requires Increasing(was, n)
    ensures at == if take then was + [n] else was
    ensures Increasing(at, n + 1)
    ensures n in at <==> take
    ensures forall i :: 0 <= i < n ==> (i in at <==> i in was)
  {
    assert n !in was;
    at := if take then was + [n] else was;
    assert take ==> at[|was|] == n && forall k :: 0 <= k < |was| ==> at[k] == was[k];
    forall i: nat | i < n ensures i in at <==> i in was {
      if i in was {
        var k :| 0 <= k < |was| && was[k] == i;
        assert at[k] == i;
      }
    }
  }

  lemma {:induction false} PicksExtend<T>(r: seq<T>, s: seq<T>, was: seq<nat>, take: bool)
    requires s != [] && Increasing(was, |s| - 1) && Picks(r, s[..|s| - 1], was)
    ensures var at := if take then was + [|s| - 1] else was;
            && Increasing(at, |s|)
            && Picks(if take then r + [s[|s| - 1]] else r, s, at)
  {
    var n := |s| - 1;
    assert forall i :: 0 <= i < n ==> s[..n][i] == s[i];
  }

  lemma {:induction false} OrderBack(at: seq<nat>, n: nat, k: nat, l: nat)
    requires Increasing(at, n) && k < |at| && l < |at| && at[k] < at[l]
    ensures k < l
  {
  }

  lemma {:induction false} AtMost(at: seq<nat>, n: nat)
    requires Increasing(at, n)
    ensures |at| <= n
  {
    if at != [] {
      AtMost(at[..|at| - 1], at[|at| - 1]);
    }
  }

  /** Increasing positions are determined by which ones there are. */
  lemma {:induction false} SamePositions(a: seq<nat>, b: seq<nat>, n: nat)
    requires Increasing(a, n) && Increasing(b, n)
    requires forall i :: 0 <= i < n ==> (i in a <==> i in b)
    ensures a == b
  {
    AtMost(a, n);
    AtMost(b, n);
    if n > 0 {
      DropLast(a, n);
      DropLast(b, n);
      var a', b' := Below(a, n - 1), Below(b, n - 1);
      forall i | 0 <= i < n - 1 ensures i in a' <==> i in b' {
        assert i in a <==> i in b;
      }
      SamePositions(a', b', n - 1);
      assert n - 1 in a <==> n - 1 in b;
    }
  }

  /** The positions below `n`, when only the last one may not be. */
  function Below(at: seq<nat>, n: nat): seq<nat> {
    if n in at then at[..|at| - 1] else at
  }

  lemma {:induction false} DropLast(at: seq<nat>, n: nat)
    requires n > 0 && Increasing(at, n)
    ensures n - 1 in at ==> |at| > 0 && at == Below(at, n - 1) + [n - 1]
    ensures Increasing(Below(at, n - 1), n - 1)
    ensures forall i :: 0 <= i < n - 1 ==> (i in Below(at, n - 1) <==> i in at)
  {
    if n - 1 in at {
      var k :| 0 <= k < |at| && at[k] == n - 1;
      assert at[|at| - 1] < n;
      assert at == at[..k] + [n - 1];
    }
  }

  lemma {:induction false} NothingPicked<T>(s: seq<T>)
    requires s == []
    ensures Increasing([], |s|) && Picks([], s, [])
  {
  }
}
