/** Lists of any kind: concatenation and repetition. */
module Sequences {
  lemma Associate<T>(a: seq<T>, b: seq<T>, c: seq<T>)
    ensures a + b + c == a + (b + c)
  {}

  ghost predicate NoDuplicates<T>(s: seq<T>) {
    forall i, j :: 0 <= i < j < |s| ==> s[i] != s[j]
  }

  lemma AppendDistinctIff<T>(p: seq<T>, q: seq<T>)
    ensures NoDuplicates(p + q) <==> NoDuplicates(p) && NoDuplicates(q) && forall u :: u in p ==> u !in q
  {
    var r := p + q;
    if NoDuplicates(r) {
      assert forall i, j :: 0 <= i < j < |p| ==> r[i] == p[i] && r[j] == p[j];
      forall i, j | 0 <= i < j < |q| ensures q[i] != q[j] { assert r[|p| + i] == q[i] && r[|p| + j] == q[j]; }
      forall i, j | 0 <= i < |p| && 0 <= j < |q| ensures p[i] != q[j] { assert r[i] == p[i] && r[|p| + j] == q[j]; }
    }
    if NoDuplicates(p) && NoDuplicates(q) && forall u :: u in p ==> u !in q {
      forall i, j | 0 <= i < j < |r| ensures r[i] != r[j] {
        if i < |p| <= j { assert r[i] in p && r[j] in q; }
      }
    }
  }

  /** Positions in increasing order, none twice. */
  ghost predicate Increasing(at: seq<nat>) {
    forall i, j :: 0 <= i < j < |at| ==> at[i] < at[j]
  }

  /** The elements at the given positions, in that order. */
  ghost predicate PickedAt<T>(s: seq<T>, at: seq<nat>, r: seq<T>) {
    |r| == |at| && forall i :: 0 <= i < |at| ==> at[i] < |s| && r[i] == s[at[i]]
  }

  lemma Shift(at: seq<nat>) returns (later: seq<nat>)
    requires Increasing(at)
    ensures Increasing(later) && |later| == |at| && forall i :: 0 <= i < |at| ==> later[i] == at[i] + 1
    ensures forall k: nat :: k in later <==> k > 0 && k - 1 in at
  {
    later := seq(|at|, i requires 0 <= i < |at| => at[i] + 1);
    forall k: nat ensures k in later <==> k > 0 && k - 1 in at {
      if k > 0 && k - 1 in at {
        var i :| 0 <= i < |at| && at[i] == k - 1;
        assert later[i] == k;
      }
      if k in later {
        var i :| 0 <= i < |later| && later[i] == k;
        assert at[i] == k - 1;
      }
    }
  }

  /** One more element in front, taken along or not. */
  lemma PickFront<T>(s: seq<T>, taken: bool, at: seq<nat>, r: seq<T>) returns (all: seq<nat>)
    requires s != [] && Increasing(at) && PickedAt(s[1..], at, r)
    ensures Increasing(all) && PickedAt(s, all, if taken then [s[0]] + r else r)
    ensures forall k: nat :: k in all <==> (k == 0 && taken) || (k > 0 && k - 1 in at)
  {
    var later := Shift(at);
    assert PickedAt(s, later, r);
    all := if taken then [0] + later else later;
    if taken { FrontTaken(s, later, r); }
  }

  /** The same for positions given by what is wanted of them. */
  lemma PickWanted<T>(s: seq<T>, at: seq<nat>, r: seq<T>, wanted: nat -> bool, behind: nat -> bool)
    returns (all: seq<nat>)
    requires s != [] && Increasing(at) && PickedAt(s[1..], at, r)
    requires forall k: nat :: k in at <==> behind(k)
    requires forall k: nat :: k > 0 ==> (wanted(k) <==> behind(k - 1))
    ensures Increasing(all) && PickedAt(s, all, if wanted(0) then [s[0]] + r else r)
    ensures forall k: nat :: k in all <==> wanted(k)
  {
    all := PickFront(s, wanted(0), at, r);
  }

  lemma FrontTaken<T>(s: seq<T>, later: seq<nat>, r: seq<T>)
    requires s != [] && Increasing(later) && PickedAt(s, later, r) && 0 !in later
    ensures Increasing([0] + later) && PickedAt(s, [0] + later, [s[0]] + r)
  {
    var all := [0] + later;
    forall i, j | 0 <= i < j < |all| ensures all[i] < all[j] {
      assert all[j] == later[j - 1];
      if i > 0 { assert all[i] == later[i - 1]; } else { assert later[j - 1] in later; }
    }
  }

  /** One more element behind, taken along or not. */
  lemma PickBack<T>(s: seq<T>, taken: bool, at: seq<nat>, r: seq<T>) returns (all: seq<nat>)
    requires s != [] && Increasing(at) && PickedAt(s[..|s| - 1], at, r)
    ensures Increasing(all) && PickedAt(s, all, r + if taken then [s[|s| - 1]] else [])
    ensures forall k: nat :: k in all <==> (k == |s| - 1 && taken) || k in at
  {
    all := at + if taken then [|s| - 1] else [];
  }
}
