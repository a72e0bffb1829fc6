/**
 Finding the last expression of a function body, or making one out of the last
 variable that the body declares.
 */
module LastExpr {
  import opened Options

  datatype Decl = VarDecl(id: nat) | OtherDecl(id: nat)

  datatype Expr = Plain(id: nat) | DeclRef(variable: nat)

  datatype Stmt = NullStmt | ExprStmt(expr: Expr) | DeclStmt(decls: seq<Decl>) | OtherStmt(id: nat)

  datatype Body = Compound(stmts: seq<Stmt>) | NotCompound

  /** `Undefined` is reading before the first statement, or leaving without a result. */
  datatype Outcome = Undefined | Returns(expr: Option<Expr>, foundAt: int)

  // ----- what the call is for -----

  ghost predicate IsLastNonNull(stmts: seq<Stmt>, k: nat) {
    k < |stmts| && !stmts[k].NullStmt? && forall i :: k < i < |stmts| ==> stmts[i].NullStmt?
  }

  ghost predicate IsLastVar(decls: seq<Decl>, id: nat) {
    exists k :: 0 <= k < |decls| && decls[k] == VarDecl(id) && forall i :: k < i < |decls| ==> !decls[i].VarDecl?
  }

  // ----- what the call does -----

  function LastNonNull(stmts: seq<Stmt>): (k: int)
    ensures -1 <= k < |stmts|
  {
    if stmts == [] then -1
    else if !stmts[|stmts| - 1].NullStmt? then |stmts| - 1
    else LastNonNull(stmts[..|stmts| - 1])
  }

  function LastVar(decls: seq<Decl>): Option<nat> {
    if decls == [] then None
    else if decls[|decls| - 1].VarDecl? then Some(decls[|decls| - 1].id)
    else LastVar(decls[..|decls| - 1])
  }

  function InsertAfter(stmts: seq<Stmt>, k: nat, s: Stmt): seq<Stmt>
    requires k < |stmts|
  {
    stmts[..k + 1] + [s] + stmts[k + 1..]
  }

  function Call(body: Body, omitDeclStmts: bool): (Outcome, Body) {
    if body.NotCompound? then (Undefined, body) else
    var k := LastNonNull(body.stmts);
    if k < 0 then (Undefined, body) else
    match body.stmts[k]
    case ExprStmt(e) => (Returns(Some(e), k), body)
    case DeclStmt(decls) =>
      if omitDeclStmts || LastVar(decls).None? then (Returns(None, k), body) else
      var ref := DeclRef(LastVar(decls).value);
      (Returns(Some(ref), k + 1), Compound(InsertAfter(body.stmts, k, ExprStmt(ref))))
    case _ => (Returns(None, k), body)
  }

  lemma {:induction false} LastNonNullIs(stmts: seq<Stmt>)
    ensures var k := LastNonNull(stmts);
            if k < 0 then forall i :: 0 <= i < |stmts| ==> stmts[i].NullStmt? else IsLastNonNull(stmts, k)
    decreases |stmts|
  {
    if stmts != [] && stmts[|stmts| - 1].NullStmt? {
      LastNonNullIs(stmts[..|stmts| - 1]);
      assert forall i :: 0 <= i < |stmts| - 1 ==> stmts[i] == stmts[..|stmts| - 1][i];
    }
  }

  lemma {:induction false} LastVarIs(decls: seq<Decl>)
    ensures match LastVar(decls)
            case None => forall i :: 0 <= i < |decls| ==> !decls[i].VarDecl?
            case Some(id) => IsLastVar(decls, id)
    decreases |decls|
  {
    if decls != [] {
      var init := decls[..|decls| - 1];
      if !decls[|decls| - 1].VarDecl? {
        LastVarIs(init);
        if LastVar(init).Some? {
          var k :|
            && 0 <= k < |init| && init[k] == VarDecl(LastVar(init).value)
            && forall i :: k < i < |init| ==> !init[i].VarDecl?;
          assert decls[k] == init[k];
        }
      } else {
        assert decls[|decls| - 1] == VarDecl(decls[|decls| - 1].id);
      }
    }
  }

  /** The call is defined exactly for a compound body with a statement that is not null. */
  lemma DefinedIff(body: Body, omitDeclStmts: bool)
    ensures Call(body, omitDeclStmts).0 != Undefined <==> body.Compound? && exists s :: s in body.stmts && !s.NullStmt?
  {
    if body.Compound? {
      LastNonNullIs(body.stmts);
      var k := LastNonNull(body.stmts);
      if k >= 0 { assert body.stmts[k] in body.stmts; }
    }
  }

  /** A body of two empty statements. */
  lemma NullStatementsUndefined(omitDeclStmts: bool)
    ensures Call(Compound([NullStmt, NullStmt]), omitDeclStmts).0 == Undefined
  {
    DefinedIff(Compound([NullStmt, NullStmt]), omitDeclStmts);
  }

  /** `r` is `stmts` with `s` put right behind position `k`. */
  ghost predicate InsertedBehind(stmts: seq<Stmt>, k: nat, s: Stmt, r: seq<Stmt>)
    requires k < |stmts|
  {
    && |r| == |stmts| + 1 && r[k + 1] == s
    && (forall i :: 0 <= i <= k ==> r[i] == stmts[i])
    && (forall i :: k < i < |stmts| ==> r[i + 1] == stmts[i])
  }

  /** Outcome and body, for the statement `k` that comes last. */
  lemma CallReports(stmts: seq<Stmt>, omitDeclStmts: bool, k: nat)
    requires IsLastNonNull(stmts, k)
    ensures var (out, after) := Call(Compound(stmts), omitDeclStmts);
            match stmts[k]
            case ExprStmt(e) => out == Returns(Some(e), k) && after == Compound(stmts)
            case DeclStmt(decls) =>
              if omitDeclStmts || forall i :: 0 <= i < |decls| ==> !decls[i].VarDecl?
              then out == Returns(None, k) && after == Compound(stmts)
              else (exists id :: (
                && IsLastVar(decls, id)
                && out == Returns(Some(DeclRef(id)), k + 1)
                && after.Compound? && InsertedBehind(stmts, k, ExprStmt(DeclRef(id)), after.stmts)))
            case _ => out == Returns(None, k) && after == Compound(stmts)
  {
    LastNonNullIs(stmts);
    var j := LastNonNull(stmts);
    assert j == k;
    if stmts[k].DeclStmt? {
      LastVarIs(stmts[k].decls);
      if LastVar(stmts[k].decls).Some? {
        var i :| 0 <= i < |stmts[k].decls| && stmts[k].decls[i] == VarDecl(LastVar(stmts[k].decls).value);
      }
    }
  }

  /** A second call in the same mode returns the same and leaves the body alone. */
  lemma CallIsStable(body: Body, omitDeclStmts: bool)
    ensures var (out, after) := Call(body, omitDeclStmts); Call(after, omitDeclStmts) == (out, after)
  {
    var (out, after) := Call(body, omitDeclStmts);
    if after != body {
      var k := LastNonNull(body.stmts);
      LastNonNullIs(body.stmts);
      LastNonNullIs(after.stmts);
      assert after.stmts[k + 1] == ExprStmt(out.expr.value);
      forall i | k + 1 < i < |after.stmts| ensures after.stmts[i].NullStmt? {
        assert after.stmts[i] == body.stmts[i - 1];
      }
      assert LastNonNull(after.stmts) == k + 1;
    }
  }

  class FunctionDecl {
    var body: Body

    constructor (b: Body)
      ensures body == b
    {
      body := b;
    }

    method GetOrCreateLastExpr(omitDeclStmts: bool) returns (out: Outcome)
      modifies this
      ensures (out, body) == Call(old(body), omitDeclStmts)
    {
      if body.NotCompound? {
        return Undefined;
      }
      var stmts := body.stmts;
      var index := |stmts|;
      assert stmts[..index] == stmts;
      while true
        invariant 0 <= index <= |stmts|
        invariant LastNonNull(stmts[..index]) == LastNonNull(stmts)
        invariant body == old(body)
        decreases index
      {
        index := index - 1;
        if index < 0 {
          break;
        }
        assert stmts[..index + 1][..index] == stmts[..index];
        if !stmts[index].NullStmt? {
          break;
        }
      }
      if index < 0 {
        return Undefined;
      }
      if stmts[index].ExprStmt? {
        return Returns(Some(stmts[index].expr), index);
      }
      if !omitDeclStmts && stmts[index].DeclStmt? {
        var decls := stmts[index].decls;
        var iter := |decls|;
        assert decls[..iter] == decls;
        while iter > 0
          invariant 0 <= iter <= |decls| && body == old(body)
          invariant LastVar(decls[..iter]) == LastVar(decls)
        {
          assert decls[..iter][..iter - 1] == decls[..iter - 1];
          if decls[iter - 1].VarDecl? {
            var dre := DeclRef(decls[iter - 1].id);
            index := index + 1;
            body := Compound(stmts[..index] + [ExprStmt(dre)] + stmts[index..]);
            return Returns(Some(dre), index);
          }
          iter := iter - 1;
        }
      }
      return Returns(None, index);
    }
  }
}
