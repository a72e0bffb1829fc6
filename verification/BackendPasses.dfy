/**
 The linkage passes that every module of a session goes through, in their order:
 keep local definitions, keep declarations free of locality, weaken type
 information, reuse definitions that are already resolvable.
 */
module BackendPasses {
  import opened Linkage

  /** What a pass leaves of one global and whether it reports a change. */
  datatype Change = Change(after: Global, changed: bool)

  function KeepLocalGV(g: Global): Change {
    if g.IsDeclaration() then Change(g, false)
    else if g.name == "" then Change(g, false)
    else if ".str" <= g.name then Change(g, false)
    else if !IsDiscardableIfUnused(g.linkage) then Change(g, false)
    else if g.linkage.Internal? then Change(SetLinkage(g, WeakAny), true)
    else Change(g, false)
  }

  function PreventLocalOpt(g: Global): Change {
    if !g.IsDeclaration() then Change(g, false) else
    var c1 := if IsLocal(g.linkage) then Change(SetLinkage(g, External), true) else Change(g, false);
    var c2 := if c1.after.visibility != Default then Change(SetVisibility(c1.after, Default), true) else c1;
    if c2.after.dsoLocal then Change(c2.after.(dsoLocal := false), true) else c2
  }

  /** Runs on variables only. */
  function WeakTypeinfoVTable(g: Global): Change {
    if g.linkage != External then Change(g, false)
    else if "_ZT" <= g.name then Change(SetLinkage(g, WeakAny), true)
    else Change(g, false)
  }

  /** What that pass does to functions. */
  function Untouched(g: Global): Change {
    Change(g, false)
  }

  predicate ShouldRemoveDefinition(g: Global, known: set<string>) {
    IsDiscardableIfUnused(g.linkage) && IsWeakForLinker(g.linkage) && g.name in known
  }

  const SMALL_FUNCTION: nat := 50

  function ReuseFunction(g: Global, known: set<string>): Change {
    if g.IsDeclaration() || g.body.instructions < SMALL_FUNCTION then Change(g, false)
    else if ShouldRemoveDefinition(g, known) then Change(DeleteBody(g), true)
    else Change(g, false)
  }

  function ReuseVariable(g: Global, known: set<string>): Change {
    if g.IsDeclaration() then Change(g, false)
    else if ShouldRemoveDefinition(g, known) then Change(DropInitializer(g), true)
    else Change(g, false)
  }

  /** A global when it reaches the reuse pass. */
  function Prepared(g: Global): Global {
    var kept := PreventLocalOpt(KeepLocalGV(g).after).after;
    if g.isFunction then kept else WeakTypeinfoVTable(kept).after
  }

  function Reuse(g: Global, known: set<string>): Global {
    if g.isFunction then ReuseFunction(g, known).after else ReuseVariable(g, known).after
  }

  /** The whole chain for one global. */
  function Processed(g: Global, known: set<string>): Global {
    Reuse(Prepared(g), known)
  }

  predicate Reported(g: Global, known: set<string>) {
    && (KeepLocalGV(g).changed <==> KeepLocalGV(g).after != g)
    && (PreventLocalOpt(g).changed <==> PreventLocalOpt(g).after != g)
    && (WeakTypeinfoVTable(g).changed <==> WeakTypeinfoVTable(g).after != g)
    && (ReuseFunction(g, known).changed <==> ReuseFunction(g, known).after != g)
    && (ReuseVariable(g, known).changed <==> ReuseVariable(g, known).after != g)
  }

  lemma ReportsExactly(g: Global, known: set<string>)
    ensures Reported(g, known)
  {
    if g.IsDeclaration() && g.dsoLocal {
      assert !PreventLocalOpt(g).after.dsoLocal;
    }
  }

  // ----- modules and sessions, as values -----

  datatype Mod = Mod(functions: seq<Global>, variables: seq<Global>) {
    ghost predicate Has(g: Global) {
      (g in functions && g.isFunction) || (g in variables && !g.isFunction)
    }

    ghost predicate Sorted() {
      (forall g :: g in functions ==> g.isFunction) && (forall g :: g in variables ==> !g.isFunction)
    }
  }

  function MapAll(gs: seq<Global>, f: Global -> Global): (r: seq<Global>)
    ensures |r| == |gs| && forall i :: 0 <= i < |gs| ==> r[i] == f(gs[i])
  {
    seq(|gs|, i requires 0 <= i < |gs| => f(gs[i]))
  }

  /** Every global of a list is what a step makes of it. */
  ghost predicate Rewritten(before: seq<Global>, after: seq<Global>, step: Global -> Change) {
    |after| == |before| && forall i :: 0 <= i < |before| ==> after[i] == step(before[i]).after
  }

  function ProcessedMod(m: Mod, known: set<string>): Mod {
    Mod(MapAll(m.functions, g => Processed(g, known)), MapAll(m.variables, g => Processed(g, known)))
  }

  /** A definition the JIT emits under its name. */
  predicate Emitted(g: Global) {
    !g.IsDeclaration() && g.name != "" && !IsLocal(g.linkage) && !g.linkage.AvailableExternally?
  }

  function EmittedNames(m: Mod): set<string> {
    (set g | g in m.functions && Emitted(g) :: g.name) + (set g | g in m.variables && Emitted(g) :: g.name)
  }

  /** A module handed in, with the library symbols that resolve at that time. */
  datatype Submission = Submission(mod: Mod, libs: set<string>)

  datatype Session = Session(jit: set<string>, outputs: seq<Mod>)

  const EMPTY := Session({}, [])

  function Submit(s: Session, sub: Submission): Session {
    var out := ProcessedMod(sub.mod, s.jit + sub.libs);
    Session(s.jit + EmittedNames(out), s.outputs + [out])
  }

  function Run(s: Session, subs: seq<Submission>): Session
    decreases |subs|
  {
    if subs == [] then s else Submit(Run(s, subs[..|subs| - 1]), subs[|subs| - 1])
  }

  /** Libraries are only ever added. */
  ghost predicate LibrariesGrow(subs: seq<Submission>) {
    forall i, j :: 0 <= i <= j < |subs| ==> subs[i].libs <= subs[j].libs
  }

  /** A definition that somebody may refer to by name later: everything emitted, and
      internal definitions other than string literals, which are kept as weak. */
  predicate Emittable(g: Global) {
    Emitted(g) || (!g.IsDeclaration() && g.name != "" && g.linkage.Internal? && !(".str" <= g.name))
  }

  // ----- what the chain does to one global -----

  /** Which linkage a definition has when it reaches the reuse pass. */
  function KeptLinkage(g: Global): LinkageType {
    if g.linkage.Internal? && g.name != "" && !(".str" <= g.name) then WeakAny
    else if !g.isFunction && g.linkage.External? && "_ZT" <= g.name then WeakAny
    else g.linkage
  }

  lemma PreparedIs(g: Global)
    ensures Prepared(g).name == g.name && Prepared(g).isFunction == g.isFunction && Prepared(g).body == g.body
    ensures !g.IsDeclaration() ==> Prepared(g).linkage == KeptLinkage(g)
    ensures !g.IsDeclaration() && KeptLinkage(g) == g.linkage ==> Prepared(g) == g
  {}

  lemma ReuseIs(w: Global, known: set<string>)
    ensures Reuse(w, known).name == w.name && Reuse(w, known).isFunction == w.isFunction
    ensures Reuse(w, known) != w <==> !w.IsDeclaration() && Reuse(w, known).IsDeclaration()
    ensures Reuse(w, known) != w <==> (
      && !w.IsDeclaration() && (w.linkage.LinkOnceAny? || w.linkage.LinkOnceODR?) && w.name in known
      && (w.isFunction ==> w.body.instructions >= SMALL_FUNCTION))
    ensures Reuse(w, known) != w ==> (
      && Reuse(w, known).visibility == w.visibility
      && Reuse(w, known).linkage == (if w.isFunction then External else w.linkage)
      && Reuse(w, known).dsoLocal == (w.dsoLocal || (w.isFunction && w.visibility != Default)))
  {}

  /** The guard of the reuse pass, seen from in front of the chain: an inline definition
      that is already resolvable, and no small function. */
  predicate Dropped(g: Global, known: set<string>) {
    && !g.IsDeclaration() && (g.linkage.LinkOnceAny? || g.linkage.LinkOnceODR?) && g.name in known
    && (g.isFunction ==> g.body.instructions >= 50)
  }

  /** A body is dropped exactly under that guard; name and kind always survive. */
  lemma DroppedIff(g: Global, known: set<string>)
    ensures Processed(g, known).IsDeclaration() <==> g.IsDeclaration() || Dropped(g, known)
    ensures Processed(g, known).name == g.name && Processed(g, known).isFunction == g.isFunction
    ensures !Processed(g, known).IsDeclaration() ==> Processed(g, known).body == g.body
  {
    PreparedIs(g);
    ReuseIs(Prepared(g), known);
  }

  /** Kept for later modules: internal, named, and no string literal. */
  predicate KeptInternal(g: Global) {
    g.linkage.Internal? && g.name != "" && !(".str" <= g.name)
  }

  /** An external variable of type information. */
  predicate ExternalTypeinfo(g: Global) {
    !g.isFunction && g.linkage.External? && "_ZT" <= g.name
  }

  /** A definition that is not dropped keeps its name, kind, body and visibility through
      the chain. Its linkage becomes weak for these two reasons only; locality is what it
      was or what LLVM implies for a weak symbol that is not of default visibility. */
  lemma DefinitionAfterChain(g: Global, known: set<string>)
    requires !g.IsDeclaration() && !Dropped(g, known)
    ensures var h := Processed(g, known);
            && h.name == g.name && h.isFunction == g.isFunction && h.body == g.body && h.visibility == g.visibility
            && h.linkage == (if KeptInternal(g) || ExternalTypeinfo(g) then WeakAny else g.linkage)
            && (h.dsoLocal <==>
                 g.dsoLocal || ((KeptInternal(g) || ExternalTypeinfo(g)) && g.visibility != Default))
  {
    KeepLocalIs(g);
    var kept := KeepLocalGV(g).after;
    if !g.isFunction { WeakTypeinfoIs(kept); }
    PreparedIs(g);
    ReuseIs(Prepared(g), known);
  }

  lemma KeepLocalIs(g: Global)
    requires !g.IsDeclaration()
    ensures var h := KeepLocalGV(g).after;
            if KeptInternal(g)
            then h == g.(linkage := WeakAny, dsoLocal := g.dsoLocal || g.visibility != Default)
            else h == g
  {}

  lemma WeakTypeinfoIs(g: Global)
    requires !g.IsDeclaration() && !g.isFunction
    ensures var h := WeakTypeinfoVTable(g).after;
            if ExternalTypeinfo(g)
            then h == g.(linkage := WeakAny, dsoLocal := g.dsoLocal || g.visibility != Default)
            else h == g
  {}

  /** A definition that is dropped becomes a declaration of the same name, kind and
      visibility; a function also becomes external. */
  lemma DroppedAfterChain(g: Global, known: set<string>)
    requires Dropped(g, known)
    ensures Processed(g, known) == Global(
              g.name, g.isFunction, NoBody, if g.isFunction then External else g.linkage, g.visibility,
              g.dsoLocal || (g.isFunction && g.visibility != Default))
  {
    PreparedIs(g);
    ReuseIs(Prepared(g), known);
  }

  /** A declaration stays one, of default visibility and not local in any way. */
  lemma DeclarationAfterChain(g: Global, known: set<string>)
    requires g.IsDeclaration()
    ensures var outside := if g.linkage.Internal? || g.linkage.Private? then External else g.linkage;
            Processed(g, known) == Global(
              g.name, g.isFunction, NoBody,
              if !g.isFunction && outside.External? && "_ZT" <= g.name then WeakAny else outside,
              Default, false)
  {
    PreventMakesPreemptible(g);
    PreventKeeps(g);
    var h := PreventLocalOpt(g).after;
    assert Processed(g, known) == if g.isFunction then h else WeakTypeinfoVTable(h).after;
  }

  /** A weak definition that already resolves is kept as it is, although the comments
      promise that existing weak symbols are reused. */
  lemma ResolvableWeakKept()
    ensures var g := Global("f", true, Body(0, 60), WeakODR, Default, false); Processed(g, {"f"}) == g
  {}

  lemma EmittableStaysResolvable(g: Global, known: set<string>)
    requires Emittable(g)
    ensures Emitted(Processed(g, known)) || g.name in known
  {
    PreparedIs(g);
    ReuseIs(Prepared(g), known);
  }

  predicate StrongDefinition(g: Global) {
    !g.IsDeclaration() && g.linkage.External?
  }

  /** Only external definitions that are no type information come out strong. */
  lemma StrongIff(g: Global, known: set<string>)
    ensures StrongDefinition(Processed(g, known)) <==>
            StrongDefinition(g) && !(!g.isFunction && "_ZT" <= g.name)
  {
    PreparedIs(g);
    ReuseIs(Prepared(g), known);
  }

  /** What the second pass is for: nothing lets the compiler assume a declared
      symbol is close by. */
  predicate Preemptible(g: Global) {
    !IsLocal(g.linkage) && g.visibility == Default && !g.dsoLocal
  }

  lemma PreventMakesPreemptible(g: Global)
    requires g.IsDeclaration()
    ensures Preemptible(PreventLocalOpt(g).after) && PreventLocalOpt(g).after.IsDeclaration()
  {}

  /** The reuse pass runs later, and a definition it turns into a declaration keeps
      the visibility and locality it had. */
  lemma DeclarationPreemptibleIff(g: Global, known: set<string>)
    requires g.IsDeclaration() || Dropped(g, known)
    ensures Preemptible(Processed(g, known)) <==> g.IsDeclaration() || (g.visibility == Default && !g.dsoLocal)
  {
    if g.IsDeclaration() {
      PreventMakesPreemptible(g);
    } else {
      PreparedIs(g);
      ReuseIs(Prepared(g), known);
    }
  }

  /** The linkages that LLVM allows a declaration. */
  predicate LegalDeclaration(g: Global) {
    g.linkage.External? || g.linkage.ExternalWeak?
  }

  /** Seen from in front of the chain: what comes out as a legal declaration. */
  predicate StaysLegal(g: Global) {
    if !g.IsDeclaration() then g.isFunction
    else if g.linkage.ExternalWeak? then true
    else (g.linkage.External? || IsLocal(g.linkage)) && (g.isFunction || !("_ZT" <= g.name))
  }

  lemma PreventKeeps(g: Global)
    requires g.IsDeclaration()
    ensures var h := PreventLocalOpt(g).after;
            && h.IsDeclaration() && h.name == g.name && h.isFunction == g.isFunction
            && h.linkage == if IsLocal(g.linkage) then External else g.linkage
  {}

  /** A declaration that leaves the chain is legal exactly when it is a function that was
      dropped, or came in as a legal or local declaration and not as a variable of type
      information that is not weak. */
  lemma DeclarationLegalIff(g: Global, known: set<string>)
    requires g.IsDeclaration() || Dropped(g, known)
    ensures LegalDeclaration(Processed(g, known)) <==> StaysLegal(g)
  {
    if g.IsDeclaration() {
      PreventKeeps(g);
      var h := PreventLocalOpt(g).after;
      assert Processed(g, known) == if g.isFunction then h else WeakTypeinfoVTable(h).after;
    } else {
      PreparedIs(g);
      ReuseIs(Prepared(g), known);
    }
  }

  /** An inline variable that already resolves becomes a linkonce declaration. */
  lemma LinkOnceDeclaration()
    ensures var g := Global("v", false, Body(0, 0), LinkOnceODR, Default, false);
            Processed(g, {"v"}) == g.(body := NoBody) && !LegalDeclaration(Processed(g, {"v"}))
  {}

  /** The declaration of type information from another module becomes a weak declaration. */
  lemma WeakDeclaration()
    ensures var g := Global("_ZTI1S", false, NoBody, External, Default, false);
            Processed(g, {}) == g.(linkage := WeakAny) && !LegalDeclaration(Processed(g, {}))
  {
    assert "_ZT" <= "_ZTI1S";
  }

  // ----- modules and sessions -----

  lemma ProcessedHas(m: Mod, known: set<string>, h: Global)
    requires m.Sorted()
    ensures ProcessedMod(m, known).Sorted()
    ensures ProcessedMod(m, known).Has(h) <==> exists g :: m.Has(g) && h == Processed(g, known)
  {
    var out := ProcessedMod(m, known);
    forall i | 0 <= i < |m.functions| ensures out.functions[i].isFunction { DroppedIff(m.functions[i], known); }
    forall i | 0 <= i < |m.variables| ensures !out.variables[i].isFunction { DroppedIff(m.variables[i], known); }
    if out.Has(h) {
      if h in out.functions {
        var i :| 0 <= i < |out.functions| && out.functions[i] == h;
        assert m.Has(m.functions[i]) && h == Processed(m.functions[i], known);
      } else {
        var i :| 0 <= i < |out.variables| && out.variables[i] == h;
        assert m.Has(m.variables[i]) && h == Processed(m.variables[i], known);
      }
    }
    forall g | m.Has(g) && h == Processed(g, known) ensures out.Has(h) { ProcessedKeeps(m, known, g); }
  }

  lemma ProcessedKeeps(m: Mod, known: set<string>, g: Global)
    requires m.Has(g)
    ensures ProcessedMod(m, known).Has(Processed(g, known))
  {
    DroppedIff(g, known);
    if g.isFunction {
      var i :| 0 <= i < |m.functions| && m.functions[i] == g;
      assert ProcessedMod(m, known).functions[i] == Processed(g, known);
    } else {
      var i :| 0 <= i < |m.variables| && m.variables[i] == g;
      assert ProcessedMod(m, known).variables[i] == Processed(g, known);
    }
  }

  /** After the chain every declaration of a module is free of locality exactly when
      no definition that is dropped is hidden or dso_local. */
  lemma ModuleDeclarationsPreemptibleIff(m: Mod, known: set<string>)
    requires m.Sorted()
    ensures (forall h :: ProcessedMod(m, known).Has(h) && h.IsDeclaration() ==> Preemptible(h)) <==>
            (forall g :: m.Has(g) && Dropped(g, known) ==> g.visibility == Default && !g.dsoLocal)
  {
    var out := ProcessedMod(m, known);
    if forall h :: out.Has(h) && h.IsDeclaration() ==> Preemptible(h) {
      forall g | m.Has(g) && Dropped(g, known) ensures g.visibility == Default && !g.dsoLocal {
        ProcessedKeeps(m, known, g);
        DroppedIff(g, known);
        DeclarationPreemptibleIff(g, known);
      }
    }
    if forall g :: m.Has(g) && Dropped(g, known) ==> g.visibility == Default && !g.dsoLocal {
      forall h | out.Has(h) && h.IsDeclaration() ensures Preemptible(h) {
        var g := DeclarationFrom(m, known, h);
        DeclarationPreemptibleIff(g, known);
      }
    }
  }

  /** And every declaration is legal exactly when those that come in stay so and no
      variable is dropped. */
  lemma ModuleDeclarationsLegalIff(m: Mod, known: set<string>)
    requires m.Sorted()
    ensures (forall h :: ProcessedMod(m, known).Has(h) && h.IsDeclaration() ==> LegalDeclaration(h)) <==>
            (forall g :: m.Has(g) && (g.IsDeclaration() || Dropped(g, known)) ==> StaysLegal(g))
  {
    var out := ProcessedMod(m, known);
    if forall h :: out.Has(h) && h.IsDeclaration() ==> LegalDeclaration(h) {
      forall g | m.Has(g) && (g.IsDeclaration() || Dropped(g, known)) ensures StaysLegal(g) {
        ProcessedKeeps(m, known, g);
        DroppedIff(g, known);
        DeclarationLegalIff(g, known);
      }
    }
    if forall g :: m.Has(g) && (g.IsDeclaration() || Dropped(g, known)) ==> StaysLegal(g) {
      forall h | out.Has(h) && h.IsDeclaration() ensures LegalDeclaration(h) {
        var g := DeclarationFrom(m, known, h);
        DeclarationLegalIff(g, known);
      }
    }
  }

  /** Where a declaration of the output comes from. */
  lemma DeclarationFrom(m: Mod, known: set<string>, h: Global) returns (g: Global)
    requires m.Sorted() && ProcessedMod(m, known).Has(h) && h.IsDeclaration()
    ensures m.Has(g) && h == Processed(g, known) && (g.IsDeclaration() || Dropped(g, known))
  {
    ProcessedHas(m, known, h);
    g :| m.Has(g) && h == Processed(g, known);
    DroppedIff(g, known);
  }

  /** A hidden inline function of sixty instructions whose name already resolves
      comes out as a hidden, dso_local declaration. */
  lemma HiddenInlineFunction()
    ensures var g := Global("f", true, Body(0, 60), LinkOnceODR, Hidden, true);
            Processed(g, {"f"}) == Global("f", true, NoBody, External, Hidden, true)
  {}

  lemma {:induction false} RunGrows(subs: seq<Submission>, k: nat)
    requires k <= |subs|
    ensures Run(EMPTY, subs[..k]).jit <= Run(EMPTY, subs).jit
    ensures |Run(EMPTY, subs).outputs| == |subs|
    ensures Run(EMPTY, subs[..k]).outputs == Run(EMPTY, subs).outputs[..k]
    decreases |subs|
  {
    if k == |subs| {
      assert subs[..k] == subs;
      if subs != [] { RunGrows(subs[..|subs| - 1], |subs| - 1); }
    } else {
      RunGrows(subs[..|subs| - 1], k);
      assert subs[..|subs| - 1][..k] == subs[..k];
    }
  }

  /** The module that came out of submission `k`, and the names known before it. */
  lemma {:induction false} OutputAt(subs: seq<Submission>, k: nat) returns (before: Session)
    requires k < |subs|
    ensures before == Run(EMPTY, subs[..k]) && |Run(EMPTY, subs).outputs| == |subs|
    ensures Run(EMPTY, subs).outputs[k] == ProcessedMod(subs[k].mod, before.jit + subs[k].libs)
    ensures before.jit + EmittedNames(Run(EMPTY, subs).outputs[k]) <= Run(EMPTY, subs).jit
  {
    before := Run(EMPTY, subs[..k]);
    var next := subs[..k + 1];
    assert next[..|next| - 1] == subs[..k] && next[|next| - 1] == subs[k];
    RunGrows(subs, k + 1);
    RunGrows(subs, k);
    RunGrows(subs[..k], k);
    assert Run(EMPTY, next).outputs[k] == Run(EMPTY, subs).outputs[..k + 1][k];
  }

  /** A definition that other modules can refer to by this name. */
  predicate Emits(g: Global, name: string) {
    g.body.Body? && g.name == name && name != ""
    && !g.linkage.Internal? && !g.linkage.Private? && !g.linkage.AvailableExternally?
  }

  ghost predicate ModuleEmits(m: Mod, name: string) {
    exists g :: (g in m.functions || g in m.variables) && Emits(g, name)
  }

  lemma EmittedNamesAre(m: Mod, name: string)
    ensures name in EmittedNames(m) <==> ModuleEmits(m, name)
  {
    if g :| (g in m.functions || g in m.variables) && Emits(g, name) {
      assert Emitted(g);
    }
    if name in EmittedNames(m) {
      var g :| (g in m.functions || g in m.variables) && Emitted(g) && g.name == name;
      assert Emits(g, name);
    }
  }

  /** The names the JIT knows after a session are those that some output module emitted. */
  lemma {:induction false} KnownWasEmitted(subs: seq<Submission>, name: string)
    ensures name in Run(EMPTY, subs).jit <==> exists m :: m in Run(EMPTY, subs).outputs && ModuleEmits(m, name)
    decreases |subs|
  {
    if subs != [] {
      var s, out := Run(EMPTY, subs[..|subs| - 1]), Run(EMPTY, subs).outputs;
      KnownWasEmitted(subs[..|subs| - 1], name);
      var last := ProcessedMod(subs[|subs| - 1].mod, s.jit + subs[|subs| - 1].libs);
      assert out == s.outputs + [last];
      EmittedNamesAre(last, name);
      assert forall m :: m in out <==> m in s.outputs || m == last;
    }
  }

  /** Over a whole session, every emittable definition ever submitted can still be
      resolved by name at the end. */
  lemma {:induction false} SubmittedStaysResolvable(subs: seq<Submission>, k: nat, g: Global)
    requires LibrariesGrow(subs) && k < |subs| && subs[k].mod.Has(g) && Emittable(g)
    ensures g.name in Run(EMPTY, subs).jit + subs[|subs| - 1].libs
  {
    var before := OutputAt(subs, k);
    var known := before.jit + subs[k].libs;
    EmittableStaysResolvable(g, known);
    ProcessedKeeps(subs[k].mod, known, g);
    DroppedIff(g, known);
    assert subs[k].libs <= subs[|subs| - 1].libs;
  }

  /** A body is dropped in a session only if its name resolved before the module came in. */
  lemma {:induction false} DroppedWasResolvable(subs: seq<Submission>, k: nat, g: Global)
    requires k < |subs| && subs[k].mod.Has(g) && !g.IsDeclaration()
    ensures var known := Run(EMPTY, subs[..k]).jit + subs[k].libs;
            && |Run(EMPTY, subs).outputs| == |subs|
            && Run(EMPTY, subs).outputs[k].Has(Processed(g, known))
            && (Processed(g, known).IsDeclaration() ==> g.name in known)
            && (!Processed(g, known).IsDeclaration() ==> Processed(g, known).body == g.body)
  {
    var before := OutputAt(subs, k);
    ProcessedKeeps(subs[k].mod, before.jit + subs[k].libs, g);
    DroppedIff(g, before.jit + subs[k].libs);
  }

  ghost predicate StronglyDefines(m: Mod, name: string) {
    exists g :: m.Has(g) && g.name == name && StrongDefinition(g)
  }

  /** Defined externally, and not by a type information variable. */
  ghost predicate ExternallyDefines(m: Mod, name: string) {
    exists g :: m.Has(g) && g.name == name && StrongDefinition(g) && !(!g.isFunction && "_ZT" <= name)
  }

  /** Two modules of a session, not the same one, strongly define a name: the linker
      reports a duplicate symbol. */
  ghost predicate Clash(outputs: seq<Mod>, name: string) {
    exists i, j :: 0 <= i < j < |outputs| && StronglyDefines(outputs[i], name) && StronglyDefines(outputs[j], name)
  }

  ghost predicate DefinedTwice(subs: seq<Submission>, name: string) {
    exists i, j :: 0 <= i < j < |subs| && ExternallyDefines(subs[i].mod, name) && ExternallyDefines(subs[j].mod, name)
  }

  /** A session clashes on a name exactly when two of its modules came in defining it
      externally and it is not type information. */
  lemma {:induction false} DuplicateSymbolIff(subs: seq<Submission>, name: string)
    requires forall k :: 0 <= k < |subs| ==> subs[k].mod.Sorted()
    ensures Clash(Run(EMPTY, subs).outputs, name) <==> DefinedTwice(subs, name)
  {
    var outs := Run(EMPTY, subs).outputs;
    RunGrows(subs, |subs|);
    forall k | 0 <= k < |subs| ensures StronglyDefines(outs[k], name) <==> ExternallyDefines(subs[k].mod, name) {
      StronglyDefinesIff(subs, k, name);
    }
  }

  lemma {:induction false} StronglyDefinesIff(subs: seq<Submission>, k: nat, name: string)
    requires k < |subs| && subs[k].mod.Sorted()
    ensures |Run(EMPTY, subs).outputs| == |subs|
    ensures StronglyDefines(Run(EMPTY, subs).outputs[k], name) <==> ExternallyDefines(subs[k].mod, name)
  {
    var before := OutputAt(subs, k);
    var m, known := subs[k].mod, before.jit + subs[k].libs;
    var out := ProcessedMod(m, known);
    if StronglyDefines(out, name) {
      var h :| out.Has(h) && h.name == name && StrongDefinition(h);
      ProcessedHas(m, known, h);
      var g :| m.Has(g) && h == Processed(g, known);
      StrongIff(g, known);
      DroppedIff(g, known);
    }
    if ExternallyDefines(m, name) {
      var g :| m.Has(g) && g.name == name && StrongDefinition(g) && !(!g.isFunction && "_ZT" <= name);
      StrongIff(g, known);
      DroppedIff(g, known);
      ProcessedKeeps(m, known, g);
    }
  }

  // ----- the passes, in place -----

  class Module {
    var functions: seq<Global>
    var variables: seq<Global>

    constructor (m: Mod)
      ensures Contents() == m
    {
      functions, variables := m.functions, m.variables;
    }

    ghost function Contents(): Mod
      reads this
    {
      Mod(functions, variables)
    }

    method RewriteFunctions(step: Global -> Change) returns (ret: bool)
      modifies this`functions
      ensures Rewritten(old(functions), functions, step)
      ensures ret <==> exists i :: 0 <= i < |old(functions)| && step(old(functions)[i]).changed
    {
      ret := false;
      for i := 0 to |functions|
        invariant |functions| == |old(functions)|
        invariant forall k :: 0 <= k < i ==> functions[k] == step(old(functions)[k]).after
        invariant forall k :: i <= k < |functions| ==> functions[k] == old(functions)[k]
        invariant ret <==> exists k :: 0 <= k < i && step(old(functions)[k]).changed
      {
        var c := step(functions[i]);
        functions := functions[i := c.after];
        ret := ret || c.changed;
      }
    }

    method RewriteVariables(step: Global -> Change) returns (ret: bool)
      modifies this`variables
      ensures Rewritten(old(variables), variables, step)
      ensures ret <==> exists i :: 0 <= i < |old(variables)| && step(old(variables)[i]).changed
    {
      ret := false;
      for i := 0 to |variables|
        invariant |variables| == |old(variables)|
        invariant forall k :: 0 <= k < i ==> variables[k] == step(old(variables)[k]).after
        invariant forall k :: i <= k < |variables| ==> variables[k] == old(variables)[k]
        invariant ret <==> exists k :: 0 <= k < i && step(old(variables)[k]).changed
      {
        var c := step(variables[i]);
        variables := variables[i := c.after];
        ret := ret || c.changed;
      }
    }

    /** One pass: the report says whether any global differs. */
    method RunPass(onFunction: Global -> Change, onVariable: Global -> Change) returns (ret: bool)
      requires forall g :: onFunction(g).changed <==> onFunction(g).after != g
      requires forall g :: onVariable(g).changed <==> onVariable(g).after != g
      modifies this
      ensures Rewritten(old(functions), functions, onFunction) && Rewritten(old(variables), variables, onVariable)
      ensures ret <==> Contents() != old(Contents())
    {
      var f := RewriteFunctions(onFunction);
      var v := RewriteVariables(onVariable);
      ret := f || v;
      if ret {
        if f {
          ghost var i :| 0 <= i < |old(functions)| && onFunction(old(functions)[i]).changed;
          assert functions[i] != old(functions)[i];
        } else {
          ghost var i :| 0 <= i < |old(variables)| && onVariable(old(variables)[i]).changed;
          assert variables[i] != old(variables)[i];
        }
      } else {
        assert functions == old(functions) && variables == old(variables);
      }
    }

    /** The passes in the order CreatePasses adds them, CUDA renaming left off. */
    method RunPasses(known: set<string>)
      requires Contents().Sorted()
      modifies this
      ensures Contents() == ProcessedMod(old(Contents()), known)
    {
      forall g ensures Reported(g, known) { ReportsExactly(g, known); }
      ghost var f0, v0 := functions, variables;
      var r1 := RunPass(KeepLocalGV, KeepLocalGV);
      ghost var f1, v1 := functions, variables;
      var r2 := RunPass(PreventLocalOpt, PreventLocalOpt);
      ghost var f2, v2 := functions, variables;
      var r3 := RunPass(Untouched, WeakTypeinfoVTable);
      ghost var f3, v3 := functions, variables;
      var r4 := RunPass(g => ReuseFunction(g, known), g => ReuseVariable(g, known));
      FunctionChain(f0, f1, f2, f3, functions, known);
      VariableChain(v0, v1, v2, v3, variables, known);
    }
  }

  lemma FunctionChain(
    f0: seq<Global>, f1: seq<Global>, f2: seq<Global>, f3: seq<Global>, f4: seq<Global>, known: set<string>)
    requires forall g :: g in f0 ==> g.isFunction
    requires Rewritten(f0, f1, KeepLocalGV) && Rewritten(f1, f2, PreventLocalOpt)
    requires Rewritten(f2, f3, Untouched) && Rewritten(f3, f4, g => ReuseFunction(g, known))
    ensures f4 == MapAll(f0, g => Processed(g, known))
  {
    forall i | 0 <= i < |f0| ensures f4[i] == Processed(f0[i], known) {
      assert f3[i] == Prepared(f0[i]);
      PreparedIs(f0[i]);
    }
  }

  lemma VariableChain(
    v0: seq<Global>, v1: seq<Global>, v2: seq<Global>, v3: seq<Global>, v4: seq<Global>, known: set<string>)
    requires forall g :: g in v0 ==> !g.isFunction
    requires Rewritten(v0, v1, KeepLocalGV) && Rewritten(v1, v2, PreventLocalOpt)
    requires Rewritten(v2, v3, WeakTypeinfoVTable) && Rewritten(v3, v4, g => ReuseVariable(g, known))
    ensures v4 == MapAll(v0, g => Processed(g, known))
  {
    forall i | 0 <= i < |v0| ensures v4[i] == Processed(v0[i], known) {
      assert v3[i] == Prepared(v0[i]);
      PreparedIs(v0[i]);
    }
  }
}
