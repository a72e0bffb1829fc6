/**
 Transactions nested in each other: the chain of parents up to the topmost one,
 the diagnostics kept there, and the deletion of everything a transaction owns.
 */
module Transactions {
  import opened Sequences

  /** How far each transaction is from its root, or any other number that grows downwards. */
  type Depths = map<Transaction, nat>

  datatype State = Collecting | Completed | RolledBack | RolledBackWithErrors | Committed

  /** The two states the destructor accepts; rolled back with errors is not one. */
  predicate Done(s: State) {
    s == Committed || s == RolledBack
  }

  datatype IssuedDiags = Errors | Warnings | None

  class Transaction {
    var parent: Transaction?
    var nested: seq<Transaction>
    var state: State
    var issuedDiags: IssuedDiags

    /** Initialize. */
    constructor ()
      ensures parent == null && nested == [] && state == Collecting && issuedDiags == None
    {
      parent, nested, state, issuedDiags := null, [], Collecting, None;
    }

    method GetTopmostParent(ghost all: set<Transaction>, ghost depth: Depths) returns (ret: Transaction)
      requires Forest(all, depth) && this in all
      ensures ret == Root(this, all, depth)
    {
      ret := this;
      while ret.parent != null
        invariant ret in all && Root(ret, all, depth) == Root(this, all, depth)
        decreases depth[ret]
      {
        ret := ret.parent;
      }
    }

    method GetIssuedDiags(ghost all: set<Transaction>, ghost depth: Depths) returns (diags: IssuedDiags)
      requires Forest(all, depth) && this in all
      ensures diags == DiagsOf(this, all, depth)
    {
      var top := GetTopmostParent(all, depth);
      diags := top.issuedDiags;
    }

    /** Decides what is reported for exactly the transactions under the same topmost parent. */
    method SetIssuedDiags(val: IssuedDiags, ghost all: set<Transaction>, ghost depth: Depths)
      requires Forest(all, depth) && this in all
      modifies all`issuedDiags
      ensures Forest(all, depth)
      ensures forall t :: t in all ==>
        DiagsOf(t, all, depth) == if SameTopmost(t, this, all, depth) then val else old(DiagsOf(t, all, depth))
    {
      var top := GetTopmostParent(all, depth);
      top.issuedDiags := val;
      forall t | t in all
        ensures DiagsOf(t, all, depth) == if SameTopmost(t, this, all, depth) then val else old(DiagsOf(t, all, depth))
      {
        assert Root(t, all, depth) == old(Root(t, all, depth));
      }
    }

    /** delete: the destructor over the nested transactions, then the object itself.
        `deleted` lists what was freed; `ok` is false where the assertion fails. */
    method Delete(ghost all: set<Transaction>, ghost depth: Depths, ghost deepest: nat)
      returns (deleted: seq<Transaction>, ok: bool)
      requires Layered(all, depth, deepest) && this in all && ListedOnce(this, all, depth, deepest)
      ensures ok <==> Deletable(this, all, depth, deepest)
      ensures ok ==> deleted == Postorder(this, all, depth, deepest)
      decreases deepest - depth[this]
    {
      deleted, ok := [], true;
      for i := 0 to |nested|
        invariant Below(nested[..i], this, all, depth)
        invariant DeletableList(nested[..i], this, all, depth, deepest)
        invariant deleted == PostorderList(nested[..i], this, all, depth, deepest)
      {
        OneMore(nested, this, all, depth, deepest, i);
        if !Done(nested[i].state) {
          return deleted, false;
        }
        ListedOnceInherited(nested[i], this, all, depth, deepest);
        var more;
        more, ok := nested[i].Delete(all, depth, deepest);
        if !ok {
          return;
        }
        deleted := deleted + more;
      }
      assert nested[..|nested|] == nested;
      deleted := deleted + [this];
    }
  }

  // ----- the forest of parents -----

  /** Every parent is nearer to its root than its child, so no chain of parents is a cycle. */
  ghost predicate Forest(all: set<Transaction>, depth: Depths)
    reads all`parent
  {
    all <= depth.Keys
    && forall t :: t in all && t.parent != null ==> t.parent in all && depth[t.parent] < depth[t]
  }

  ghost function Root(t: Transaction, all: set<Transaction>, depth: Depths): (r: Transaction)
    requires Forest(all, depth) && t in all
    reads all`parent
    ensures r in all && r.parent == null
    decreases depth[t]
  {
    if t.parent == null then t else Root(t.parent, all, depth)
  }

  /** `a` is `t` or a parent, grandparent and so on of it. */
  ghost predicate Ancestor(a: Transaction, t: Transaction, all: set<Transaction>, depth: Depths)
    requires Forest(all, depth) && t in all
    reads all`parent
    decreases depth[t]
  {
    a == t || (t.parent != null && Ancestor(a, t.parent, all, depth))
  }

  /** The topmost parent is the one ancestor without a parent. */
  lemma {:induction false} RootIs(t: Transaction, a: Transaction, all: set<Transaction>, depth: Depths)
    requires Forest(all, depth) && t in all && a in all
    ensures a == Root(t, all, depth) <==> a.parent == null && Ancestor(a, t, all, depth)
    decreases depth[t]
  {
    if t.parent != null { RootIs(t.parent, a, all, depth); }
  }

  ghost function DiagsOf(t: Transaction, all: set<Transaction>, depth: Depths): IssuedDiags
    requires Forest(all, depth) && t in all
    reads all`parent, all`issuedDiags
  {
    Root(t, all, depth).issuedDiags
  }

  ghost predicate SameTopmost(t: Transaction, u: Transaction, all: set<Transaction>, depth: Depths)
    requires Forest(all, depth) && t in all && u in all
    reads all`parent
  {
    Root(t, all, depth) == Root(u, all, depth)
  }

  // ----- ownership -----

  /** Nested lists lead downwards, so nothing owns itself. Parent links play no part. */
  ghost predicate Layered(all: set<Transaction>, depth: Depths, deepest: nat)
    reads all`nested
  {
    && all <= depth.Keys
    && (forall t :: t in all ==> depth[t] <= deepest)
    && forall t :: t in all ==> Below(t.nested, t, all, depth)
  }

  ghost predicate Below(ts: seq<Transaction>, t: Transaction, all: set<Transaction>, depth: Depths)
    requires all <= depth.Keys && t in all
  {
    forall c :: c in ts ==> c in all && depth[t] < depth[c]
  }

  /** `u` is `t` itself or owned by it through nested lists. */
  ghost predicate OwnedBy(u: Transaction, t: Transaction, all: set<Transaction>, depth: Depths, deepest: nat)
    requires Layered(all, depth, deepest) && t in all
    reads all`nested
    decreases deepest - depth[t]
  {
    u == t || exists c :: c in t.nested && OwnedBy(u, c, all, depth, deepest)
  }

  ghost predicate OwnedByOne(
    u: Transaction, ts: seq<Transaction>, t: Transaction, all: set<Transaction>, depth: Depths, deepest: nat)
    requires Layered(all, depth, deepest) && t in all && Below(ts, t, all, depth)
    reads all`nested
  {
    exists c :: c in ts && OwnedBy(u, c, all, depth, deepest)
  }

  /** Nothing that `t` owns is nested in two places. */
  ghost predicate ListedOnce(t: Transaction, all: set<Transaction>, depth: Depths, deepest: nat)
    requires Layered(all, depth, deepest) && t in all
    reads all`nested
  {
    && (forall a :: a in all && OwnedBy(a, t, all, depth, deepest) ==> NoDuplicates(a.nested))
    && forall a, b, u ::
         (a in all && OwnedBy(a, t, all, depth, deepest) && u in a.nested
         && b in all && OwnedBy(b, t, all, depth, deepest) && u in b.nested) ==> a == b
  }

  // ----- deletion -----

  /** Children of `t`, a prefix of its list, in the order the destructor deletes them. */
  ghost function PostorderList(
    ts: seq<Transaction>, t: Transaction, all: set<Transaction>, depth: Depths, deepest: nat): seq<Transaction>
    requires Layered(all, depth, deepest) && t in all && Below(ts, t, all, depth)
    reads all`nested
    decreases deepest - depth[t], 0, |ts|
  {
    if ts == [] then []
    else PostorderList(ts[..|ts| - 1], t, all, depth, deepest) + Postorder(ts[|ts| - 1], all, depth, deepest)
  }

  ghost function Postorder(t: Transaction, all: set<Transaction>, depth: Depths, deepest: nat): seq<Transaction>
    requires Layered(all, depth, deepest) && t in all
    reads all`nested
    decreases deepest - depth[t], 1, 0
  {
    PostorderList(t.nested, t, all, depth, deepest) + [t]
  }

  ghost predicate DeletableList(
    ts: seq<Transaction>, t: Transaction, all: set<Transaction>, depth: Depths, deepest: nat)
    requires Layered(all, depth, deepest) && t in all && Below(ts, t, all, depth)
    reads all
    decreases deepest - depth[t], 0, |ts|
  {
    ts == [] || (
      && DeletableList(ts[..|ts| - 1], t, all, depth, deepest)
      && Done(ts[|ts| - 1].state)
      && Deletable(ts[|ts| - 1], all, depth, deepest))
  }

  /** No assertion of the destructor fails. */
  ghost predicate Deletable(t: Transaction, all: set<Transaction>, depth: Depths, deepest: nat)
    requires Layered(all, depth, deepest) && t in all
    reads all
    decreases deepest - depth[t], 1, 0
  {
    DeletableList(t.nested, t, all, depth, deepest)
  }

  lemma {:induction false} AllDeletable(
    ts: seq<Transaction>, t: Transaction, all: set<Transaction>, depth: Depths, deepest: nat, i: nat)
    requires Layered(all, depth, deepest) && t in all && Below(ts, t, all, depth) && i < |ts|
    ensures DeletableList(ts, t, all, depth, deepest) ==> Done(ts[i].state) && Deletable(ts[i], all, depth, deepest)
    decreases |ts|
  {
    if i < |ts| - 1 { AllDeletable(ts[..|ts| - 1], t, all, depth, deepest, i); }
  }

  /** What one turn of the destructor's loop adds. */
  lemma OneMore(
    ts: seq<Transaction>, t: Transaction, all: set<Transaction>, depth: Depths, deepest: nat, i: nat)
    requires Layered(all, depth, deepest) && t in all && Below(ts, t, all, depth) && i < |ts|
    ensures ts[i] in all && depth[t] < depth[ts[i]] <= deepest
    ensures DeletableList(ts, t, all, depth, deepest) ==> Done(ts[i].state) && Deletable(ts[i], all, depth, deepest)
    ensures DeletableList(ts[..i + 1], t, all, depth, deepest) <==>
            && DeletableList(ts[..i], t, all, depth, deepest)
            && Done(ts[i].state) && Deletable(ts[i], all, depth, deepest)
    ensures PostorderList(ts[..i + 1], t, all, depth, deepest)
         == PostorderList(ts[..i], t, all, depth, deepest) + Postorder(ts[i], all, depth, deepest)
  {
    AllDeletable(ts, t, all, depth, deepest, i);
    var front := ts[..i + 1];
    assert front[..|front| - 1] == ts[..i];
  }

  // ----- what is owned -----

  lemma {:induction false} OwnedIsDeeper(
    u: Transaction, t: Transaction, all: set<Transaction>, depth: Depths, deepest: nat)
    requires Layered(all, depth, deepest) && t in all && OwnedBy(u, t, all, depth, deepest)
    ensures u in all && (u == t || depth[t] < depth[u])
    decreases deepest - depth[t]
  {
    if u != t {
      var c :| c in t.nested && OwnedBy(u, c, all, depth, deepest);
      OwnedIsDeeper(u, c, all, depth, deepest);
    }
  }

  lemma {:induction false} OwnedTransitively(
    u: Transaction, a: Transaction, t: Transaction, all: set<Transaction>, depth: Depths, deepest: nat)
    requires Layered(all, depth, deepest) && t in all && a in all
    requires OwnedBy(u, a, all, depth, deepest) && OwnedBy(a, t, all, depth, deepest)
    ensures OwnedBy(u, t, all, depth, deepest)
    decreases deepest - depth[t]
  {
    if a != t {
      var c :| c in t.nested && OwnedBy(a, c, all, depth, deepest);
      OwnedTransitively(u, a, c, all, depth, deepest);
    }
  }

  lemma ChildOwned(u: Transaction, a: Transaction, t: Transaction, all: set<Transaction>, depth: Depths, deepest: nat)
    requires Layered(all, depth, deepest) && t in all && a in all && u in a.nested && OwnedBy(a, t, all, depth, deepest)
    ensures OwnedBy(u, t, all, depth, deepest)
  {
    assert OwnedBy(u, u, all, depth, deepest);
    assert OwnedBy(u, a, all, depth, deepest);
    OwnedTransitively(u, a, t, all, depth, deepest);
  }

  /** Whatever is owned is nested in something that is owned. */
  lemma {:induction false} LastStep(u: Transaction, t: Transaction, all: set<Transaction>, depth: Depths, deepest: nat)
    returns (w: Transaction)
    requires Layered(all, depth, deepest) && t in all && u != t && OwnedBy(u, t, all, depth, deepest)
    ensures w in all && u in w.nested && OwnedBy(w, t, all, depth, deepest)
    decreases deepest - depth[t]
  {
    var c :| c in t.nested && OwnedBy(u, c, all, depth, deepest);
    if u == c {
      w := t;
    } else {
      w := LastStep(u, c, all, depth, deepest);
    }
  }

  /** The order contains what is owned and nothing else. */
  lemma {:induction false} PostorderOwned(
    u: Transaction, t: Transaction, all: set<Transaction>, depth: Depths, deepest: nat)
    requires Layered(all, depth, deepest) && t in all
    ensures u in Postorder(t, all, depth, deepest) <==> OwnedBy(u, t, all, depth, deepest)
    decreases deepest - depth[t], 1, 0
  {
    PostorderListOwned(u, t.nested, t, all, depth, deepest);
  }

  lemma {:induction false} PostorderListOwned(
    u: Transaction, ts: seq<Transaction>, t: Transaction, all: set<Transaction>, depth: Depths, deepest: nat)
    requires Layered(all, depth, deepest) && t in all && Below(ts, t, all, depth)
    ensures u in PostorderList(ts, t, all, depth, deepest) <==> OwnedByOne(u, ts, t, all, depth, deepest)
    decreases deepest - depth[t], 0, |ts|
  {
    if ts != [] {
      var init, c := ts[..|ts| - 1], ts[|ts| - 1];
      assert forall d :: d in ts <==> d in init || d == c;
      PostorderListOwned(u, init, t, all, depth, deepest);
      PostorderOwned(u, c, all, depth, deepest);
    }
  }

  // ----- each exactly once -----

  lemma ListedOnceInherited(c: Transaction, t: Transaction, all: set<Transaction>, depth: Depths, deepest: nat)
    requires Layered(all, depth, deepest) && t in all && c in t.nested && ListedOnce(t, all, depth, deepest)
    ensures ListedOnce(c, all, depth, deepest)
  {
    forall a | a in all && OwnedBy(a, c, all, depth, deepest) ensures OwnedBy(a, t, all, depth, deepest) {}
  }

  /** Two owners of the same transaction lie on one chain. */
  lemma {:induction false} OwnersOnOneChain(
    u: Transaction, a: Transaction, b: Transaction, t: Transaction, all: set<Transaction>, depth: Depths, deepest: nat)
    requires Layered(all, depth, deepest) && t in all && ListedOnce(t, all, depth, deepest) && u in all
    requires a in all && OwnedBy(a, t, all, depth, deepest) && OwnedBy(u, a, all, depth, deepest)
    requires b in all && OwnedBy(b, t, all, depth, deepest) && OwnedBy(u, b, all, depth, deepest)
    ensures OwnedBy(a, b, all, depth, deepest) || OwnedBy(b, a, all, depth, deepest)
    decreases depth[u]
  {
    if u != a && u != b {
      var w := LastStep(u, a, all, depth, deepest);
      var x := LastStep(u, b, all, depth, deepest);
      OwnedTransitively(w, a, t, all, depth, deepest);
      OwnedTransitively(x, b, t, all, depth, deepest);
      assert w == x;
      OwnersOnOneChain(w, a, b, t, all, depth, deepest);
    }
  }

  lemma NotOwnedBySibling(
    a: Transaction, b: Transaction, t: Transaction, all: set<Transaction>, depth: Depths, deepest: nat)
    requires Layered(all, depth, deepest) && t in all && ListedOnce(t, all, depth, deepest)
    requires a in t.nested && b in t.nested && a != b
    ensures !OwnedBy(a, b, all, depth, deepest)
  {
    if OwnedBy(a, b, all, depth, deepest) {
      var w := LastStep(a, b, all, depth, deepest);
      assert OwnedBy(b, b, all, depth, deepest) && OwnedBy(b, t, all, depth, deepest);
      OwnedTransitively(w, b, t, all, depth, deepest);
      assert OwnedBy(t, t, all, depth, deepest) && w == t;
      OwnedIsDeeper(t, b, all, depth, deepest);
    }
  }

  /** What two children of one transaction own is disjoint. */
  lemma SiblingsDisjoint(
    u: Transaction, a: Transaction, b: Transaction, t: Transaction, all: set<Transaction>, depth: Depths, deepest: nat)
    requires Layered(all, depth, deepest) && t in all && ListedOnce(t, all, depth, deepest)
    requires a in t.nested && b in t.nested && a != b && OwnedBy(u, a, all, depth, deepest)
    ensures !OwnedBy(u, b, all, depth, deepest)
  {
    if OwnedBy(u, b, all, depth, deepest) {
      OwnedIsDeeper(u, a, all, depth, deepest);
      assert OwnedBy(t, t, all, depth, deepest);
      ChildOwned(a, t, t, all, depth, deepest);
      ChildOwned(b, t, t, all, depth, deepest);
      OwnersOnOneChain(u, a, b, t, all, depth, deepest);
      NotOwnedBySibling(a, b, t, all, depth, deepest);
      NotOwnedBySibling(b, a, t, all, depth, deepest);
    }
  }

  lemma {:induction false} OnceFreedOnce(t: Transaction, all: set<Transaction>, depth: Depths, deepest: nat)
    requires Layered(all, depth, deepest) && t in all && ListedOnce(t, all, depth, deepest)
    ensures NoDuplicates(Postorder(t, all, depth, deepest))
    decreases deepest - depth[t], 1, 0
  {
    assert OwnedBy(t, t, all, depth, deepest);
    OnceFreedOnceList(t.nested, t, all, depth, deepest);
    NotBelowItself(t, all, depth, deepest);
    AppendDistinctIff(PostorderList(t.nested, t, all, depth, deepest), [t]);
  }

  lemma NotBelowItself(t: Transaction, all: set<Transaction>, depth: Depths, deepest: nat)
    requires Layered(all, depth, deepest) && t in all
    ensures t !in PostorderList(t.nested, t, all, depth, deepest)
  {
    PostorderListOwned(t, t.nested, t, all, depth, deepest);
    if c :| c in t.nested && OwnedBy(t, c, all, depth, deepest) { OwnedIsDeeper(t, c, all, depth, deepest); }
  }

  lemma {:induction false} OnceFreedOnceList(
    ts: seq<Transaction>, t: Transaction, all: set<Transaction>, depth: Depths, deepest: nat)
    requires Layered(all, depth, deepest) && t in all && ListedOnce(t, all, depth, deepest)
    requires NoDuplicates(ts) && forall c :: c in ts ==> c in t.nested
    ensures NoDuplicates(PostorderList(ts, t, all, depth, deepest))
    decreases deepest - depth[t], 0, |ts|
  {
    if ts != [] {
      var init, c := ts[..|ts| - 1], ts[|ts| - 1];
      OnceFreedOnceList(init, t, all, depth, deepest);
      ListedOnceInherited(c, t, all, depth, deepest);
      OnceFreedOnce(c, all, depth, deepest);
      var p, q := PostorderList(init, t, all, depth, deepest), Postorder(c, all, depth, deepest);
      forall u | u in p ensures u !in q {
        PostorderListOwned(u, init, t, all, depth, deepest);
        PostorderOwned(u, c, all, depth, deepest);
        var d :| d in init && OwnedBy(u, d, all, depth, deepest);
        SiblingsDisjoint(u, d, c, t, all, depth, deepest);
      }
      AppendDistinctIff(p, q);
    }
  }

  /** In an order without repetition the children differ and what they own is disjoint. */
  lemma {:induction false} DistinctChildren(
    ts: seq<Transaction>, t: Transaction, all: set<Transaction>, depth: Depths, deepest: nat, j: nat, k: nat)
    requires Layered(all, depth, deepest) && t in all && Below(ts, t, all, depth) && k < |ts| && j < |ts|
    requires NoDuplicates(PostorderList(ts, t, all, depth, deepest))
    ensures NoDuplicates(Postorder(ts[k], all, depth, deepest))
    ensures j < k ==> forall u ::
      OwnedBy(u, ts[j], all, depth, deepest) ==> !OwnedBy(u, ts[k], all, depth, deepest)
    decreases |ts|
  {
    var init, c := ts[..|ts| - 1], ts[|ts| - 1];
    var p, q := PostorderList(init, t, all, depth, deepest), Postorder(c, all, depth, deepest);
    AppendDistinctIff(p, q);
    if k < |init| {
      DistinctChildren(init, t, all, depth, deepest, if j < |init| then j else 0, k);
    } else if j < k {
      forall u | OwnedBy(u, ts[j], all, depth, deepest) ensures !OwnedBy(u, c, all, depth, deepest) {
        assert init[j] == ts[j] && OwnedByOne(u, init, t, all, depth, deepest);
        PostorderListOwned(u, init, t, all, depth, deepest);
        PostorderOwned(u, c, all, depth, deepest);
      }
    }
  }

  /** No two places of `t`'s list own a common transaction. */
  lemma CommonChild(
    c: Transaction, d: Transaction, u: Transaction, t: Transaction, all: set<Transaction>, depth: Depths, deepest: nat)
    requires Layered(all, depth, deepest) && t in all && NoDuplicates(Postorder(t, all, depth, deepest))
    requires c in t.nested && OwnedBy(u, c, all, depth, deepest)
    requires d in t.nested && OwnedBy(u, d, all, depth, deepest)
    ensures c == d
  {
    AppendDistinctIff(PostorderList(t.nested, t, all, depth, deepest), [t]);
    var j :| 0 <= j < |t.nested| && t.nested[j] == c;
    var k :| 0 <= k < |t.nested| && t.nested[k] == d;
    DistinctChildren(t.nested, t, all, depth, deepest, j, k);
    DistinctChildren(t.nested, t, all, depth, deepest, k, j);
  }

  lemma ChildrenDistinct(t: Transaction, all: set<Transaction>, depth: Depths, deepest: nat)
    requires Layered(all, depth, deepest) && t in all && NoDuplicates(Postorder(t, all, depth, deepest))
    ensures NoDuplicates(t.nested)
    ensures forall c :: c in t.nested ==> NoDuplicates(Postorder(c, all, depth, deepest))
  {
    AppendDistinctIff(PostorderList(t.nested, t, all, depth, deepest), [t]);
    forall j, k | 0 <= j < k < |t.nested| ensures t.nested[j] != t.nested[k] {
      DistinctChildren(t.nested, t, all, depth, deepest, j, k);
      assert OwnedBy(t.nested[j], t.nested[j], all, depth, deepest);
    }
    forall c | c in t.nested ensures NoDuplicates(Postorder(c, all, depth, deepest)) {
      var k :| 0 <= k < |t.nested| && t.nested[k] == c;
      DistinctChildren(t.nested, t, all, depth, deepest, k, k);
    }
  }

  lemma {:induction false} FreedOnceDistinct(
    a: Transaction, t: Transaction, all: set<Transaction>, depth: Depths, deepest: nat)
    requires Layered(all, depth, deepest) && t in all && NoDuplicates(Postorder(t, all, depth, deepest))
    requires a in all && OwnedBy(a, t, all, depth, deepest)
    ensures NoDuplicates(a.nested)
    decreases deepest - depth[t]
  {
    ChildrenDistinct(t, all, depth, deepest);
    if a != t {
      var c :| c in t.nested && OwnedBy(a, c, all, depth, deepest);
      FreedOnceDistinct(a, c, all, depth, deepest);
    }
  }

  /** A child of `t` that something else owned lists too would be freed twice. */
  lemma NotListedDeeper(
    b: Transaction, u: Transaction, t: Transaction, all: set<Transaction>, depth: Depths, deepest: nat)
    requires Layered(all, depth, deepest) && t in all && NoDuplicates(Postorder(t, all, depth, deepest))
    requires u in t.nested && b in all && u in b.nested && OwnedBy(b, t, all, depth, deepest)
    ensures b == t
  {
    if b != t {
      var c :| c in t.nested && OwnedBy(b, c, all, depth, deepest);
      ChildOwned(u, b, c, all, depth, deepest);
      assert OwnedBy(u, u, all, depth, deepest);
      CommonChild(c, u, u, t, all, depth, deepest);
      OwnedIsDeeper(b, u, all, depth, deepest);
    }
  }

  lemma {:induction false} FreedOnceOneOwner(
    a: Transaction, b: Transaction, u: Transaction, t: Transaction, all: set<Transaction>, depth: Depths, deepest: nat)
    requires Layered(all, depth, deepest) && t in all && NoDuplicates(Postorder(t, all, depth, deepest))
    requires a in all && u in a.nested && OwnedBy(a, t, all, depth, deepest)
    requires b in all && u in b.nested && OwnedBy(b, t, all, depth, deepest)
    ensures a == b
    decreases deepest - depth[t]
  {
    if a == t {
      NotListedDeeper(b, u, t, all, depth, deepest);
    } else if b == t {
      NotListedDeeper(a, u, t, all, depth, deepest);
    } else {
      var c :| c in t.nested && OwnedBy(a, c, all, depth, deepest);
      var d :| d in t.nested && OwnedBy(b, d, all, depth, deepest);
      ChildOwned(u, a, c, all, depth, deepest);
      ChildOwned(u, b, d, all, depth, deepest);
      CommonChild(c, d, u, t, all, depth, deepest);
      ChildrenDistinct(t, all, depth, deepest);
      FreedOnceOneOwner(a, b, u, c, all, depth, deepest);
    }
  }

  lemma FreedOnceListedOnce(t: Transaction, all: set<Transaction>, depth: Depths, deepest: nat)
    requires Layered(all, depth, deepest) && t in all && NoDuplicates(Postorder(t, all, depth, deepest))
    ensures ListedOnce(t, all, depth, deepest)
  {
    forall a | a in all && OwnedBy(a, t, all, depth, deepest) ensures NoDuplicates(a.nested) {
      FreedOnceDistinct(a, t, all, depth, deepest);
    }
    forall a, b, u |
      && a in all && OwnedBy(a, t, all, depth, deepest) && u in a.nested
      && b in all && OwnedBy(b, t, all, depth, deepest) && u in b.nested
      ensures a == b
    {
      FreedOnceOneOwner(a, b, u, t, all, depth, deepest);
    }
  }

  /** Somewhere `u` stands in front of `v`. */
  ghost predicate Before<T>(p: seq<T>, u: T, v: T) {
    exists i, j :: 0 <= i < j < |p| && p[i] == u && p[j] == v
  }

  lemma BeforeInside<T>(a: seq<T>, p: seq<T>, b: seq<T>, u: T, v: T)
    requires Before(p, u, v)
    ensures Before(a + p + b, u, v)
  {
    var i, j :| 0 <= i < j < |p| && p[i] == u && p[j] == v;
    var r := a + p + b;
    assert r[|a| + i] == u && r[|a| + j] == v;
  }

  lemma BeforeAcross<T>(p: seq<T>, q: seq<T>, u: T, v: T)
    requires u in p && v in q
    ensures Before(p + q, u, v)
  {
    var i :| 0 <= i < |p| && p[i] == u;
    var j :| 0 <= j < |q| && q[j] == v;
    assert (p + q)[i] == u && (p + q)[|p| + j] == v;
  }

  /** The order of a child stands unbroken in that of its siblings. */
  lemma {:induction false} ChildInside(
    ts: seq<Transaction>, t: Transaction, all: set<Transaction>, depth: Depths, deepest: nat, k: nat)
    returns (a: seq<Transaction>, b: seq<Transaction>)
    requires Layered(all, depth, deepest) && t in all && Below(ts, t, all, depth) && k < |ts|
    ensures PostorderList(ts, t, all, depth, deepest) == a + Postorder(ts[k], all, depth, deepest) + b
    ensures forall j :: 0 <= j < k ==> ts[j] in a
    decreases |ts|
  {
    var init, c := ts[..|ts| - 1], ts[|ts| - 1];
    if k == |init| {
      a, b := PostorderList(init, t, all, depth, deepest), [];
      forall j | 0 <= j < k ensures ts[j] in a {
        assert init[j] == ts[j] && OwnedBy(ts[j], ts[j], all, depth, deepest);
        PostorderListOwned(ts[j], init, t, all, depth, deepest);
      }
    } else {
      a, b := ChildInside(init, t, all, depth, deepest, k);
      b := b + Postorder(c, all, depth, deepest);
    }
  }

  /** Children are freed before the transaction that lists them, and in the order in
      which it lists them, at any depth. */
  lemma {:induction false} FreedInOrder(
    u: Transaction, t: Transaction, all: set<Transaction>, depth: Depths, deepest: nat, j: nat, k: nat)
    requires Layered(all, depth, deepest) && t in all && u in all && OwnedBy(u, t, all, depth, deepest)
    requires j <= k < |u.nested|
    ensures var p := Postorder(t, all, depth, deepest);
            Before(p, u.nested[k], u) && (j < k ==> Before(p, u.nested[j], u.nested[k]))
    decreases deepest - depth[t]
  {
    if u == t {
      ListedInOrder(t, all, depth, deepest, j, k);
    } else {
      var c :| c in t.nested && OwnedBy(u, c, all, depth, deepest);
      var i :| 0 <= i < |t.nested| && t.nested[i] == c;
      FreedInOrder(u, c, all, depth, deepest, j, k);
      var a, b := ChildInside(t.nested, t, all, depth, deepest, i);
      var q := Postorder(c, all, depth, deepest);
      assert Postorder(t, all, depth, deepest) == a + q + (b + [t]);
      BeforeInside(a, q, b + [t], u.nested[k], u);
      if j < k { BeforeInside(a, q, b + [t], u.nested[j], u.nested[k]); }
    }
  }

  lemma ListedInOrder(t: Transaction, all: set<Transaction>, depth: Depths, deepest: nat, j: nat, k: nat)
    requires Layered(all, depth, deepest) && t in all && j <= k < |t.nested|
    ensures var p := Postorder(t, all, depth, deepest);
            Before(p, t.nested[k], t) && (j < k ==> Before(p, t.nested[j], t.nested[k]))
  {
    var a, b := ChildInside(t.nested, t, all, depth, deepest, k);
    var q := Postorder(t.nested[k], all, depth, deepest);
    assert t.nested[k] in q by {
      assert OwnedBy(t.nested[k], t.nested[k], all, depth, deepest);
      PostorderOwned(t.nested[k], t.nested[k], all, depth, deepest);
    }
    assert Postorder(t, all, depth, deepest) == a + (q + b + [t]) == (a + q + b) + [t];
    BeforeAcross(a + q + b, [t], t.nested[k], t);
    if j < k { BeforeAcross(a, q + b + [t], t.nested[j], t.nested[k]); }
  }

  /** Deleting a transaction frees it and everything it owns, at any depth, itself last;
      each is freed exactly once if and only if nothing is nested in two places. */
  lemma PostorderExact(t: Transaction, all: set<Transaction>, depth: Depths, deepest: nat)
    requires Layered(all, depth, deepest) && t in all
    ensures var p := Postorder(t, all, depth, deepest);
            && p[|p| - 1] == t
            && (forall u :: u in p <==> OwnedBy(u, t, all, depth, deepest))
            && (NoDuplicates(p) <==> ListedOnce(t, all, depth, deepest))
  {
    forall u ensures u in Postorder(t, all, depth, deepest) <==> OwnedBy(u, t, all, depth, deepest) {
      PostorderOwned(u, t, all, depth, deepest);
    }
    if ListedOnce(t, all, depth, deepest) { OnceFreedOnce(t, all, depth, deepest); }
    if NoDuplicates(Postorder(t, all, depth, deepest)) { FreedOnceListedOnce(t, all, depth, deepest); }
  }

  /** A transaction nested twice in the same one is freed twice. */
  lemma NestedTwice(t: Transaction, c: Transaction, all: set<Transaction>, depth: Depths, deepest: nat)
    requires Layered(all, depth, deepest) && t in all && t.nested == [c, c]
    ensures !NoDuplicates(Postorder(t, all, depth, deepest))
  {
    assert OwnedBy(t, t, all, depth, deepest) && t.nested[0] == t.nested[1];
    PostorderExact(t, all, depth, deepest);
  }

  // ----- the assertions of the destructor -----

  /** They hold exactly when everything owned, at any depth, is committed or rolled back. */
  lemma {:induction false} DeletableIff(t: Transaction, all: set<Transaction>, depth: Depths, deepest: nat)
    requires Layered(all, depth, deepest) && t in all
    ensures Deletable(t, all, depth, deepest) <==>
            forall u :: u in all && u != t && OwnedBy(u, t, all, depth, deepest) ==>
              u.state == Committed || u.state == RolledBack
    decreases deepest - depth[t], 1, 0
  {
    DeletableListIff(t.nested, t, all, depth, deepest);
    NotBelowItself(t, all, depth, deepest);
    PostorderListOwned(t, t.nested, t, all, depth, deepest);
    assert forall u :: u in all ==>
      (u != t && OwnedBy(u, t, all, depth, deepest) <==> OwnedByOne(u, t.nested, t, all, depth, deepest));
  }

  lemma {:induction false} DeletableListIff(
    ts: seq<Transaction>, t: Transaction, all: set<Transaction>, depth: Depths, deepest: nat)
    requires Layered(all, depth, deepest) && t in all && Below(ts, t, all, depth)
    ensures DeletableList(ts, t, all, depth, deepest) <==>
            forall u :: u in all && OwnedByOne(u, ts, t, all, depth, deepest) ==> Done(u.state)
    decreases deepest - depth[t], 0, |ts|
  {
    if ts != [] {
      var init, c := ts[..|ts| - 1], ts[|ts| - 1];
      assert forall d :: d in ts <==> d in init || d == c;
      DeletableListIff(init, t, all, depth, deepest);
      DeletableIff(c, all, depth, deepest);
      assert OwnedBy(c, c, all, depth, deepest);
      assert forall u :: OwnedByOne(u, ts, t, all, depth, deepest) <==>
        OwnedByOne(u, init, t, all, depth, deepest) || OwnedBy(u, c, all, depth, deepest);
    }
  }
}
