/**
 Header search options: adding include paths without repeating an old one, and
 printing the options as compiler flags.
 */
module IncludePaths {
  import opened Options
  import Paths
  import Sequences

  datatype Group =
    | Quoted | Angled | IndexHeaderMap | System | ExternCSystem | CSystem
    | CXXSystem | ObjCSystem | ObjCXXSystem | After

  datatype Entry = Entry(path: string, group: Group, isFramework: bool, ignoreSysRoot: bool)

  datatype Settings = Settings(
    sysroot: string, resourceDir: string, moduleCachePath: string,
    useStandardSystemIncludes: bool, useStandardCXXIncludes: bool, useLibcxx: bool, verbose: bool)

  // ----- printing -----

  const ISYSROOT := "-isysroot"
  const INDEX_HEADER_MAP := "-index-header-map"
  const RESOURCE_DIR := "-resource-dir"
  const MODULE_CACHE := "-fmodule-cache-path"
  const NO_STD_INC := "-nostdinc"
  const NO_STD_INC_CXX := "-nostdinc++"
  const STD_LIBCXX := "-stdlib=libc++"
  const VERBOSE := "-v"

  /** Groups that are printed only when system paths are asked for. */
  predicate IsSystem(g: Group) {
    !(g.After? || g.Quoted? || g.Angled?)
  }

  predicate Invalid(e: Entry) {
    e.isFramework && !e.group.Angled?
  }

  function GroupFlags(e: Entry): seq<string> {
    match e.group
    case After => ["-idirafter"]
    case Quoted => ["-iquote"]
    case System => ["-isystem"]
    case IndexHeaderMap => [INDEX_HEADER_MAP, if e.isFramework then "-F" else "-I"]
    case CSystem => ["-c-isystem"]
    case ExternCSystem => ["-extern-c-isystem"]
    case CXXSystem => ["-cxx-isystem"]
    case ObjCSystem => ["-objc-isystem"]
    case ObjCXXSystem => ["-objcxx-isystem"]
    case Angled => [if e.isFramework then "-F" else "-I"]
  }

  function EntryFlags(e: Entry, withSystem: bool, withFlags: bool): seq<string> {
    if IsSystem(e.group) && !withSystem then []
    else (if withFlags then GroupFlags(e) else []) + [e.path]
  }

  function AllEntryFlags(es: seq<Entry>, flags: Entry -> seq<string>): seq<string> {
    if es == [] then [] else flags(es[0]) + AllEntryFlags(es[1..], flags)
  }

  function Pair(flag: string, value: string, present: bool): seq<string> {
    if present then [flag, value] else []
  }

  function Switch(flag: string, present: bool): seq<string> {
    if present then [flag] else []
  }

  function SysrootFlags(o: Settings, withFlags: bool): seq<string> {
    Pair(ISYSROOT, o.sysroot, withFlags && o.sysroot != "/")
  }

  function TrailingFlags(o: Settings, withSystem: bool, withFlags: bool): seq<string> {
    var both := withSystem && withFlags;
    ResourceFlags(o, withSystem, withFlags)
    + Pair(MODULE_CACHE, o.moduleCachePath, both && o.moduleCachePath != "")
    + Switch(NO_STD_INC, both && !o.useStandardSystemIncludes)
    + Switch(NO_STD_INC_CXX, both && !o.useStandardCXXIncludes)
    + Switch(STD_LIBCXX, both && o.useLibcxx)
    + Switch(VERBOSE, both && o.verbose)
  }

  function ResourceFlags(o: Settings, withSystem: bool, withFlags: bool): seq<string> {
    if !withSystem || o.resourceDir == "" then []
    else if withFlags then [RESOURCE_DIR, o.resourceDir] else [o.resourceDir]
  }

  function Flags(o: Settings, es: seq<Entry>, withSystem: bool, withFlags: bool): seq<string> {
    SysrootFlags(o, withFlags)
    + AllEntryFlags(es, e => EntryFlags(e, withSystem, withFlags))
    + TrailingFlags(o, withSystem, withFlags)
  }

  ghost predicate NoInvalid(es: seq<Entry>) {
    forall k :: 0 <= k < |es| ==> !Invalid(es[k])
  }

  lemma {:induction false} AllEntryFlagsAppend(es: seq<Entry>, e: Entry, flags: Entry -> seq<string>)
    ensures AllEntryFlags(es + [e], flags) == AllEntryFlags(es, flags) + flags(e)
    decreases |es|
  {
    if es == [] {
      assert [e][1..] == [];
    } else {
      assert (es + [e])[1..] == es[1..] + [e];
      AllEntryFlagsAppend(es[1..], e, flags);
    }
  }

  /** CopyIncludePaths: `ok` is false where the code reports a fatal error. */
  method CopyIncludePaths(o: Settings, es: seq<Entry>, incpaths0: seq<string>, withSystem: bool, withFlags: bool)
    returns (incpaths: seq<string>, ok: bool)
    ensures ok <==> NoInvalid(es)
    ensures ok ==> incpaths == incpaths0 + Flags(o, es, withSystem, withFlags)
  {
    incpaths := PushPair(incpaths0, ISYSROOT, o.sysroot, withFlags && o.sysroot != "/");
    ghost var sysroot := SysrootFlags(o, withFlags);
    incpaths, ok := CopyEntries(es, incpaths, withSystem, withFlags);
    if ok {
      incpaths := CopyTrailing(o, incpaths, withSystem, withFlags);
      ghost var entries := AllEntryFlags(es, e => EntryFlags(e, withSystem, withFlags));
      Sequences.Associate(incpaths0, sysroot, entries);
      Sequences.Associate(incpaths0, sysroot + entries, TrailingFlags(o, withSystem, withFlags));
    }
  }

  /** The loop over the user entries. */
  method CopyEntries(es: seq<Entry>, incpaths0: seq<string>, withSystem: bool, withFlags: bool)
    returns (incpaths: seq<string>, ok: bool)
    ensures ok <==> NoInvalid(es)
    ensures ok ==> incpaths == incpaths0 + AllEntryFlags(es, e => EntryFlags(e, withSystem, withFlags))
  {
    incpaths := incpaths0;
    ghost var flags := e => EntryFlags(e, withSystem, withFlags);
    for i := 0 to |es|
      invariant forall k :: 0 <= k < i ==> !Invalid(es[k])
      invariant incpaths == incpaths0 + AllEntryFlags(es[..i], flags)
    {
      var e := es[i];
      if Invalid(e) {
        return incpaths, false;
      }
      assert es[..i + 1] == es[..i] + [e];
      AllEntryFlagsAppend(es[..i], e, flags);
      Sequences.Associate(incpaths0, AllEntryFlags(es[..i], flags), flags(e));
      if IsSystem(e.group) && !withSystem {
        continue;
      }
      if withFlags {
        Sequences.Associate(incpaths, GroupFlags(e), [e.path]);
        incpaths := incpaths + GroupFlags(e);
      }
      incpaths := incpaths + [e.path];
    }
    assert es[..|es|] == es;
    ok := true;
  }

  /** What follows the user entries. */
  method CopyTrailing(o: Settings, incpaths0: seq<string>, withSystem: bool, withFlags: bool)
    returns (incpaths: seq<string>)
    ensures incpaths == incpaths0 + TrailingFlags(o, withSystem, withFlags)
  {
    incpaths := incpaths0;
    ghost var both := withSystem && withFlags;
    if withSystem && o.resourceDir != "" {
      if withFlags {
        incpaths := incpaths + [RESOURCE_DIR];
      }
      incpaths := incpaths + [o.resourceDir];
    }
    ghost var done := ResourceFlags(o, withSystem, withFlags);
    assert incpaths == incpaths0 + done;
    incpaths := PushPair(incpaths, MODULE_CACHE, o.moduleCachePath, withSystem && withFlags && o.moduleCachePath != "");
    Sequences.Associate(incpaths0, done, Pair(MODULE_CACHE, o.moduleCachePath, both && o.moduleCachePath != ""));
    done := done + Pair(MODULE_CACHE, o.moduleCachePath, both && o.moduleCachePath != "");
    incpaths := PushSwitch(incpaths, NO_STD_INC, withSystem && withFlags && !o.useStandardSystemIncludes);
    Sequences.Associate(incpaths0, done, Switch(NO_STD_INC, both && !o.useStandardSystemIncludes));
    done := done + Switch(NO_STD_INC, both && !o.useStandardSystemIncludes);
    incpaths := PushSwitch(incpaths, NO_STD_INC_CXX, withSystem && withFlags && !o.useStandardCXXIncludes);
    Sequences.Associate(incpaths0, done, Switch(NO_STD_INC_CXX, both && !o.useStandardCXXIncludes));
    done := done + Switch(NO_STD_INC_CXX, both && !o.useStandardCXXIncludes);
    incpaths := PushSwitch(incpaths, STD_LIBCXX, withSystem && withFlags && o.useLibcxx);
    Sequences.Associate(incpaths0, done, Switch(STD_LIBCXX, both && o.useLibcxx));
    done := done + Switch(STD_LIBCXX, both && o.useLibcxx);
    incpaths := PushSwitch(incpaths, VERBOSE, withSystem && withFlags && o.verbose);
    Sequences.Associate(incpaths0, done, Switch(VERBOSE, both && o.verbose));
  }

  method PushPair(incpaths0: seq<string>, flag: string, value: string, present: bool) returns (incpaths: seq<string>)
    ensures incpaths == incpaths0 + Pair(flag, value, present)
  {
    incpaths := incpaths0;
    if present {
      incpaths := incpaths + [flag];
      incpaths := incpaths + [value];
    }
  }

  method PushSwitch(incpaths0: seq<string>, flag: string, present: bool) returns (incpaths: seq<string>)
    ensures incpaths == incpaths0 + Switch(flag, present)
  {
    incpaths := incpaths0;
    if present {
      incpaths := incpaths + [flag];
    }
  }

  // ----- reading the flags back -----

  /** What the flags carry of an entry: everything but the sysroot bit. */
  datatype Printed = Printed(path: string, group: Group, isFramework: bool)

  function PrintedOf(e: Entry): Printed {
    Printed(e.path, e.group, e.isFramework)
  }

  function PrintedAll(es: seq<Entry>): seq<Printed> {
    if es == [] then [] else [PrintedOf(es[0])] + PrintedAll(es[1..])
  }

  type Reader = string -> Option<(Group, bool)>

  /** The group and framework bit that one leading flag stands for. */
  function FlagGroup(flag: string): Option<(Group, bool)> {
    if flag == "-idirafter" then Some((After, false))
    else if flag == "-iquote" then Some((Quoted, false))
    else if flag == "-isystem" then Some((System, false))
    else if flag == INDEX_HEADER_MAP then Some((IndexHeaderMap, false))
    else if flag == "-c-isystem" then Some((CSystem, false))
    else if flag == "-extern-c-isystem" then Some((ExternCSystem, false))
    else if flag == "-cxx-isystem" then Some((CXXSystem, false))
    else if flag == "-objc-isystem" then Some((ObjCSystem, false))
    else if flag == "-objcxx-isystem" then Some((ObjCXXSystem, false))
    else if flag == "-F" then Some((Angled, true))
    else if flag == "-I" then Some((Angled, false))
    else None
  }

  /** Reads entries for as long as the next flag stands for one. */
  function ReadEntries(out: seq<string>, flagGroup: Reader): (seq<Printed>, seq<string>)
    decreases |out|
  {
    if out == [] || flagGroup(out[0]).None? then ([], out) else
    var (g, framework) := flagGroup(out[0]).value;
    var width := if g.IndexHeaderMap? then 2 else 1;
    if |out| <= width then ([], out) else
    var (es, rest) := ReadEntries(out[width + 1..], flagGroup);
    ([Printed(out[width], g, framework)] + es, rest)
  }

  function ReadPair(out: seq<string>, flag: string, default: string): (string, seq<string>) {
    if |out| >= 2 && out[0] == flag then (out[1], out[2..]) else (default, out)
  }

  function ReadSwitch(out: seq<string>, flag: string): (bool, seq<string>) {
    if |out| >= 1 && out[0] == flag then (true, out[1..]) else (false, out)
  }

  /** The flags outside the entries; reading back is argued for any such spelling. */
  datatype Spelling = Spelling(
    sysroot: string, resourceDir: string, moduleCache: string,
    noStd: string, noStdCxx: string, libcxx: string, verbose: string)

  const SPELLING := Spelling(ISYSROOT, RESOURCE_DIR, MODULE_CACHE, NO_STD_INC, NO_STD_INC_CXX, STD_LIBCXX, VERBOSE)

  /** The four switches: no standard includes, no standard C++ includes, libc++, verbose. */
  datatype Switches = Switches(noStd: bool, noStdCxx: bool, libcxx: bool, verbose: bool)

  function ReadSwitches(out: seq<string>, sp: Spelling): Switches {
    var (noStd, r1) := ReadSwitch(out, sp.noStd);
    var (noStdCxx, r2) := ReadSwitch(r1, sp.noStdCxx);
    var (libcxx, r3) := ReadSwitch(r2, sp.libcxx);
    var (verbose, r4) := ReadSwitch(r3, sp.verbose);
    Switches(noStd, noStdCxx, libcxx, verbose)
  }

  function ReadTail(out: seq<string>, sp: Spelling): Settings {
    var (resourceDir, r1) := ReadPair(out, sp.resourceDir, "");
    var (moduleCachePath, r2) := ReadPair(r1, sp.moduleCache, "");
    var w := ReadSwitches(r2, sp);
    Settings("/", resourceDir, moduleCachePath, !w.noStd, !w.noStdCxx, w.libcxx, w.verbose)
  }

  function ReadBack(out: seq<string>, sp: Spelling, flagGroup: Reader): (Settings, seq<Printed>) {
    var (sysroot, r1) := ReadPair(out, sp.sysroot, "/");
    var (es, r2) := ReadEntries(r1, flagGroup);
    (ReadTail(r2, sp).(sysroot := sysroot), es)
  }

  /** The next flag, if there is one, is in the set. */
  ghost predicate Starts(out: seq<string>, flags: set<string>) {
    out == [] || out[0] in flags
  }

  lemma PairReadBack(flag: string, value: string, default: string, rest: seq<string>, flags: set<string>)
    requires Starts(rest, flags) && flag !in flags
    ensures ReadPair(Pair(flag, value, value != default) + rest, flag, default) == (value, rest)
    ensures Starts(Pair(flag, value, value != default) + rest, flags + {flag})
  {
    var out := Pair(flag, value, value != default) + rest;
    if value != default { assert out[2..] == rest; } else { assert out == rest; }
  }

  lemma SwitchReadBack(flag: string, present: bool, rest: seq<string>, flags: set<string>)
    requires Starts(rest, flags) && flag !in flags
    ensures ReadSwitch(Switch(flag, present) + rest, flag) == (present, rest)
    ensures Starts(Switch(flag, present) + rest, flags + {flag})
  {
    var out := Switch(flag, present) + rest;
    if present { assert out[1..] == rest; } else { assert out == rest; }
  }

  /** The trailing flags, each read off in front of the ones after it. */
  function SwitchTail(w: Switches, sp: Spelling): seq<string> {
    Switch(sp.noStd, w.noStd)
    + (Switch(sp.noStdCxx, w.noStdCxx)
    + (Switch(sp.libcxx, w.libcxx)
    + (Switch(sp.verbose, w.verbose)
    + [])))
  }

  function SwitchesOf(o: Settings): Switches {
    Switches(!o.useStandardSystemIncludes, !o.useStandardCXXIncludes, o.useLibcxx, o.verbose)
  }

  function Tail(o: Settings, sp: Spelling): seq<string> {
    Pair(sp.resourceDir, o.resourceDir, o.resourceDir != "")
    + (Pair(sp.moduleCache, o.moduleCachePath, o.moduleCachePath != "")
    + SwitchTail(SwitchesOf(o), sp))
  }

  ghost predicate DistinctSpelling(sp: Spelling) {
    && sp.libcxx !in {sp.verbose}
    && sp.noStdCxx !in {sp.verbose, sp.libcxx}
    && sp.noStd !in {sp.verbose, sp.libcxx, sp.noStdCxx}
    && sp.moduleCache !in {sp.verbose, sp.libcxx, sp.noStdCxx, sp.noStd}
    && sp.resourceDir !in {sp.verbose, sp.libcxx, sp.noStdCxx, sp.noStd, sp.moduleCache}
  }

  lemma SwitchesReadBack(w: Switches, sp: Spelling)
    requires DistinctSpelling(sp)
    ensures ReadSwitches(SwitchTail(w, sp), sp) == w
    ensures Starts(SwitchTail(w, sp), {sp.verbose, sp.libcxx, sp.noStdCxx, sp.noStd})
  {
    var t3 := Switch(sp.verbose, w.verbose) + [];
    SwitchReadBack(sp.verbose, w.verbose, [], {});
    var t2 := Switch(sp.libcxx, w.libcxx) + t3;
    SwitchReadBack(sp.libcxx, w.libcxx, t3, {sp.verbose});
    var t1 := Switch(sp.noStdCxx, w.noStdCxx) + t2;
    SwitchReadBack(sp.noStdCxx, w.noStdCxx, t2, {sp.verbose, sp.libcxx});
    SwitchReadBack(sp.noStd, w.noStd, t1, {sp.verbose, sp.libcxx, sp.noStdCxx});
  }

  lemma TailReadBack(o: Settings, sp: Spelling)
    requires DistinctSpelling(sp)
    ensures ReadTail(Tail(o, sp), sp) == o.(sysroot := "/")
    ensures Starts(Tail(o, sp), TailFlags(sp))
  {
    var f2 := {sp.verbose, sp.libcxx, sp.noStdCxx, sp.noStd};
    var f1 := f2 + {sp.moduleCache};
    var t2 := SwitchTail(SwitchesOf(o), sp);
    SwitchesReadBack(SwitchesOf(o), sp);
    var t1 := Pair(sp.moduleCache, o.moduleCachePath, o.moduleCachePath != "") + t2;
    PairReadBack(sp.moduleCache, o.moduleCachePath, "", t2, f2);
    PairReadBack(sp.resourceDir, o.resourceDir, "", t1, f1);
    assert f1 + {sp.resourceDir} == TailFlags(sp);
    TailRead(o, sp, Tail(o, sp), t1, t2);
  }

  lemma TailRead(o: Settings, sp: Spelling, out: seq<string>, t1: seq<string>, t2: seq<string>)
    requires ReadPair(out, sp.resourceDir, "") == (o.resourceDir, t1)
    requires ReadPair(t1, sp.moduleCache, "") == (o.moduleCachePath, t2)
    requires ReadSwitches(t2, sp) == SwitchesOf(o)
    ensures ReadTail(out, sp) == o.(sysroot := "/")
  {}

  lemma SpellingDistinct()
    ensures DistinctSpelling(SPELLING)
    ensures forall f :: f in TailFlags(SPELLING) ==> FlagGroup(f).None?
    ensures FlagGroup(ISYSROOT).None?
  {
    assert |VERBOSE| != |STD_LIBCXX|;
  }

  lemma TrailingIsTail(o: Settings)
    ensures TrailingFlags(o, true, true) == Tail(o, SPELLING)
  {
    var a, b := ResourceFlags(o, true, true), Pair(MODULE_CACHE, o.moduleCachePath, o.moduleCachePath != "");
    var c, d := Switch(NO_STD_INC, !o.useStandardSystemIncludes), Switch(NO_STD_INC_CXX, !o.useStandardCXXIncludes);
    var e, f := Switch(STD_LIBCXX, o.useLibcxx), Switch(VERBOSE, o.verbose);
    SixPieces(a, b, c, d, e, f);
  }

  lemma SixPieces<T>(a: seq<T>, b: seq<T>, c: seq<T>, d: seq<T>, e: seq<T>, f: seq<T>)
    ensures a + b + c + d + e + f == a + (b + (c + (d + (e + (f + [])))))
  {}

  // ----- entries -----

  /** Reading in front of `rest` takes off exactly the entry. */
  ghost predicate ReadsOff(e: Entry, rest: seq<string>, flags: Entry -> seq<string>, flagGroup: Reader) {
    && flags(e) != [] && flagGroup(flags(e)[0]).Some?
    && var (es, left) := ReadEntries(rest, flagGroup);
       ReadEntries(flags(e) + rest, flagGroup) == ([PrintedOf(e)] + es, left)
  }

  ghost predicate ReadsEntries(flags: Entry -> seq<string>, flagGroup: Reader) {
    forall e, rest :: !Invalid(e) ==> ReadsOff(e, rest, flags, flagGroup)
  }

  lemma {:induction false} EntriesReadBack(es: seq<Entry>, rest: seq<string>,
        flags: Entry -> seq<string>, flagGroup: Reader)
    requires ReadsEntries(flags, flagGroup) && NoInvalid(es) && (rest == [] || flagGroup(rest[0]).None?)
    ensures ReadEntries(AllEntryFlags(es, flags) + rest, flagGroup) == (PrintedAll(es), rest)
    ensures es != [] ==> AllEntryFlags(es, flags) != [] && flagGroup(AllEntryFlags(es, flags)[0]).Some?
    decreases |es|
  {
    if es == [] {
      assert AllEntryFlags(es, flags) + rest == rest;
    } else {
      var tail := AllEntryFlags(es[1..], flags);
      EntriesReadBack(es[1..], rest, flags, flagGroup);
      Sequences.Associate(flags(es[0]), tail, rest);
      assert ReadsOff(es[0], tail + rest, flags, flagGroup);
    }
  }

  /** The first flag of an entry stands for its group and, unless it is an index header
      map, for its framework bit. */
  lemma FirstFlagRead(e: Entry)
    requires !Invalid(e)
    ensures |GroupFlags(e)| == if e.group.IndexHeaderMap? then 2 else 1
    ensures FlagGroup(GroupFlags(e)[0]) == Some((e.group, e.isFramework))
  {}

  lemma EntryReadBack(e: Entry, rest: seq<string>, flags: Entry -> seq<string>)
    requires !Invalid(e) && flags(e) == EntryFlags(e, true, true)
    ensures ReadsOff(e, rest, flags, FlagGroup)
  {
    FirstFlagRead(e);
    var g := GroupFlags(e);
    EntryRead(g, e, rest, FlagGroup);
  }

  lemma EntryRead(g: seq<string>, e: Entry, rest: seq<string>, flagGroup: Reader)
    requires |g| == (if e.group.IndexHeaderMap? then 2 else 1) && flagGroup(g[0]) == Some((e.group, e.isFramework))
    ensures var (es, left) := ReadEntries(rest, flagGroup);
            ReadEntries(g + [e.path] + rest, flagGroup) == ([PrintedOf(e)] + es, left)
  {
    var out := g + [e.path] + rest;
    assert out[0] == g[0] && out[|g|] == e.path && out[|g| + 1..] == rest;
  }

  lemma FlagsReadEntries()
    ensures ReadsEntries(e => EntryFlags(e, true, true), FlagGroup)
  {
    var flags := e => EntryFlags(e, true, true);
    forall e, rest | !Invalid(e) ensures ReadsOff(e, rest, flags, FlagGroup) { EntryReadBack(e, rest, flags); }
  }

  /** Reading back for any spelling that keeps entry flags, trailing flags and the
      sysroot flag apart. */
  lemma AnySpellingReadsBack(o: Settings, es: seq<Entry>, sp: Spelling,
        flags: Entry -> seq<string>, flagGroup: Reader)
    requires NoInvalid(es) && ReadsEntries(flags, flagGroup) && DistinctSpelling(sp)
    requires flagGroup(sp.sysroot).None? && sp.sysroot !in TailFlags(sp)
    requires forall f :: f in TailFlags(sp) ==> flagGroup(f).None?
    ensures var out := Pair(sp.sysroot, o.sysroot, o.sysroot != "/") + (AllEntryFlags(es, flags) + Tail(o, sp));
            ReadBack(out, sp, flagGroup) == (o, PrintedAll(es))
  {
    TailReadBack(o, sp);
    EntriesReadBack(es, Tail(o, sp), flags, flagGroup);
    var body := AllEntryFlags(es, flags) + Tail(o, sp);
    assert body != [] ==> body[0] != sp.sysroot;
    PairReadBack(sp.sysroot, o.sysroot, "/", body, if body == [] then {} else {body[0]});
  }

  function TailFlags(sp: Spelling): set<string> {
    {sp.verbose, sp.libcxx, sp.noStdCxx, sp.noStd, sp.moduleCache, sp.resourceDir}
  }

  /** With system paths and flags both on, everything but the sysroot bit of the
      entries can be read back from the flags, whatever the paths look like. */
  lemma FlagsReadBack(o: Settings, es: seq<Entry>)
    requires NoInvalid(es)
    ensures ReadBack(Flags(o, es, true, true), SPELLING, FlagGroup) == (o, PrintedAll(es))
  {
    FlagsReadEntries();
    SpellingDistinct();
    TrailingIsTail(o);
    var flags := e => EntryFlags(e, true, true);
    AnySpellingReadsBack(o, es, SPELLING, flags, FlagGroup);
    Sequences.Associate(SysrootFlags(o, true), AllEntryFlags(es, flags), TrailingFlags(o, true, true));
  }

  /** Two option sets that print the same agree on all that is printed. */
  lemma FlagPrintingLosesNothing(o1: Settings, es1: seq<Entry>, o2: Settings, es2: seq<Entry>)
    requires NoInvalid(es1) && NoInvalid(es2)
    requires Flags(o1, es1, true, true) == Flags(o2, es2, true, true)
    ensures o1 == o2 && PrintedAll(es1) == PrintedAll(es2)
  {
    FlagsReadBack(o1, es1);
    FlagsReadBack(o2, es2);
  }

  // ----- printing less than everything -----

  /** The entries that are printed: without system paths only those of three groups. */
  function Shown(es: seq<Entry>, withSystem: bool): seq<Entry> {
    if es == [] then []
    else if ShownOne(es[0], withSystem) then [es[0]] + Shown(es[1..], withSystem)
    else Shown(es[1..], withSystem)
  }

  predicate ShownOne(e: Entry, withSystem: bool) {
    withSystem || e.group == After || e.group == Quoted || e.group == Angled
  }

  lemma {:induction false} ShownInOrder(es: seq<Entry>, withSystem: bool) returns (at: seq<nat>)
    ensures Sequences.Increasing(at) && Sequences.PickedAt(es, at, Shown(es, withSystem))
    ensures forall k: nat :: k in at <==> k < |es| && ShownOne(es[k], withSystem)
    decreases |es|
  {
    at := [];
    if es != [] {
      var behind := ShownInOrder(es[1..], withSystem);
      at := Sequences.PickFront(es, ShownOne(es[0], withSystem), behind, Shown(es[1..], withSystem));
      forall k: nat ensures k in at <==> k < |es| && ShownOne(es[k], withSystem) {
        if 0 < k < |es| { assert es[1..][k - 1] == es[k]; }
      }
    }
  }

  lemma {:induction false} OnlyShownPrinted(es: seq<Entry>, withSystem: bool, withFlags: bool)
    ensures AllEntryFlags(es, e => EntryFlags(e, withSystem, withFlags))
         == AllEntryFlags(Shown(es, withSystem), e => EntryFlags(e, true, withFlags))
    decreases |es|
  {
    if es != [] {
      OnlyShownPrinted(es[1..], withSystem, withFlags);
      var rest := Shown(es[1..], withSystem);
      if ShownOne(es[0], withSystem) { assert ([es[0]] + rest)[1..] == rest; }
    }
  }

  lemma {:induction false} PathsPrinted(es: seq<Entry>)
    ensures AllEntryFlags(es, e => EntryFlags(e, true, false)) == PathsOf(es)
    decreases |es|
  {
    if es != [] {
      PathsPrinted(es[1..]);
      assert PathsOf(es) == [es[0].path] + PathsOf(es[1..]);
    }
  }

  /** Without flags, exactly the paths of those entries are printed, in order, and then
      the resource directory if system paths are asked for and it is set. */
  lemma PathsOnly(o: Settings, es: seq<Entry>, withSystem: bool)
    ensures Flags(o, es, withSystem, false)
         == PathsOf(Shown(es, withSystem)) + if withSystem && o.resourceDir != "" then [o.resourceDir] else []
  {
    OnlyShownPrinted(es, withSystem, false);
    PathsPrinted(Shown(es, withSystem));
  }

  /** Without system paths, the sysroot and those entries can be read back, and nothing
      else was printed. */
  lemma UserFlagsReadBack(o: Settings, es: seq<Entry>)
    requires NoInvalid(es)
    ensures ReadBack(Flags(o, es, false, true), SPELLING, FlagGroup)
         == (Settings(o.sysroot, "", "", true, true, false, false), PrintedAll(Shown(es, false)))
  {
    var plain, shown := Settings(o.sysroot, "", "", true, true, false, false), Shown(es, false);
    OnlyShownPrinted(es, false, true);
    assert TrailingFlags(o, false, true) == [] == TrailingFlags(plain, true, true);
    assert Flags(o, es, false, true) == Flags(plain, shown, true, true);
    var at := ShownInOrder(es, false);
    FlagsReadBack(plain, shown);
  }

  /** All flags outside the entries, and an index header map, spelled out. */
  lemma FlagsSpelled()
    ensures Flags(
              Settings("/s", "/r", "/m", false, false, true, true),
              [Entry("/i", IndexHeaderMap, true, true)], true, true)
         == ["-isysroot", "/s", "-index-header-map", "-F", "/i", "-resource-dir", "/r", "-fmodule-cache-path", "/m",
             "-nostdinc", "-nostdinc++", "-stdlib=libc++", "-v"]
  {
    var e := Entry("/i", IndexHeaderMap, true, true);
    assert AllEntryFlags([e], e => EntryFlags(e, true, true)) == EntryFlags(e, true, true) + [];
  }

  // ----- adding include paths -----

  function NonEmpty(segs: seq<string>): seq<string> {
    if segs == [] then [] else (if segs[0] == "" then [] else [segs[0]]) + NonEmpty(segs[1..])
  }

  lemma {:induction false} AllowedAreNonEmpty(segs: seq<string>, isDir: string -> bool)
    ensures Paths.Kept(segs, Paths.AllowNonExistant, isDir) == NonEmpty(segs)
  {
    if segs != [] { AllowedAreNonEmpty(segs[1..], isDir); }
  }

  /** The paths a call is about; an empty delimiter means a single path. */
  function Candidates(pathStr: string, delim: string): seq<string> {
    if delim == "" then [pathStr] else NonEmpty(Paths.Segments(pathStr, delim))
  }

  predicate HasPath(es: seq<Entry>, path: string) {
    exists e :: e in es && e.path == path
  }

  function AbsentOne(es: seq<Entry>, path: string): seq<string> {
    if HasPath(es, path) then [] else [path]
  }

  /** The candidates that are absent, in order, repeats included. */
  function Absent(es: seq<Entry>, paths: seq<string>): seq<string> {
    if paths == [] then []
    else Absent(es, paths[..|paths| - 1]) + AbsentOne(es, paths[|paths| - 1])
  }

  function AddedEntries(paths: seq<string>): (r: seq<Entry>)
    ensures |r| == |paths| && forall i :: 0 <= i < |r| ==> r[i] == Entry(paths[i], Angled, false, true)
  {
    seq(|paths|, i requires 0 <= i < |paths| => Entry(paths[i], Angled, false, true))
  }

  function AfterAdding(es: seq<Entry>, pathStr: string, delim: string): seq<Entry> {
    es + AddedEntries(Absent(es, Candidates(pathStr, delim)))
  }

  lemma {:induction false} AbsentMembers(es: seq<Entry>, paths: seq<string>)
    ensures forall p :: p in Absent(es, paths) <==> p in paths && !HasPath(es, p)
    decreases |paths|
  {
    if paths != [] {
      AbsentMembers(es, paths[..|paths| - 1]);
      assert paths == paths[..|paths| - 1] + [paths[|paths| - 1]];
    }
  }

  /** The absent paths stand in the order of the call, repeats included. */
  lemma {:induction false} AbsentInOrder(es: seq<Entry>, paths: seq<string>) returns (at: seq<nat>)
    ensures Sequences.Increasing(at) && Sequences.PickedAt(paths, at, Absent(es, paths))
    ensures forall k: nat :: k in at <==> k < |paths| && !HasPath(es, paths[k])
    decreases |paths|
  {
    at := [];
    if paths != [] {
      var init, p := paths[..|paths| - 1], paths[|paths| - 1];
      var before := AbsentInOrder(es, init);
      at := Sequences.PickBack(paths, !HasPath(es, p), before, Absent(es, init));
      forall k: nat ensures k in at <==> k < |paths| && !HasPath(es, paths[k]) {
        if k < |init| { assert paths[k] == init[k]; }
      }
    }
  }

  /** The paths a call is about: the path string itself for an empty delimiter, otherwise
      the non-empty segments in order, repeats included. */
  lemma CandidatesAre(pathStr: string, delim: string) returns (at: seq<nat>)
    ensures delim == "" ==> Candidates(pathStr, delim) == [pathStr]
    ensures delim != "" ==>
              var segs := Paths.Segments(pathStr, delim);
              && Sequences.Increasing(at) && Sequences.PickedAt(segs, at, Candidates(pathStr, delim))
              && forall k: nat :: k in at <==> k < |segs| && segs[k] != ""
  {
    at := [];
    if delim != "" {
      var segs := Paths.Segments(pathStr, delim);
      AllowedAreNonEmpty(segs, _ => false);
      at := Paths.KeptIs(segs, Paths.AllowNonExistant, _ => false);
    }
  }

  /** A call leaves the old entries where they are and puts behind them, in order and
      repeats included, the candidates whose path no old entry has. */
  lemma AddedInOrder(es: seq<Entry>, pathStr: string, delim: string) returns (at: seq<nat>)
    ensures var cs, after := Candidates(pathStr, delim), AfterAdding(es, pathStr, delim);
            && Sequences.Increasing(at)
            && (forall k: nat :: k in at <==> k < |cs| && forall e :: e in es ==> e.path != cs[k])
            && |after| == |es| + |at| && after[..|es|] == es
            && forall i :: 0 <= i < |at| ==> at[i] < |cs| && after[|es| + i] == Entry(cs[at[i]], Angled, false, true)
  {
    at := AbsentInOrder(es, Candidates(pathStr, delim));
  }

  lemma {:induction false} NothingAbsent(es: seq<Entry>, paths: seq<string>)
    requires forall p :: p in paths ==> HasPath(es, p)
    ensures Absent(es, paths) == []
    decreases |paths|
  {
    if paths != [] { NothingAbsent(es, paths[..|paths| - 1]); }
  }

  /** After a call every candidate is present, so the same call again adds nothing. */
  lemma AddingTwiceAddsOnce(es: seq<Entry>, pathStr: string, delim: string)
    ensures var once := AfterAdding(es, pathStr, delim);
            && es <= once
            && (forall p :: p in Candidates(pathStr, delim) ==> HasPath(once, p))
            && AfterAdding(once, pathStr, delim) == once
  {
    var once, paths := AfterAdding(es, pathStr, delim), Candidates(pathStr, delim);
    var missing := Absent(es, paths);
    AbsentMembers(es, paths);
    forall p | p in paths ensures HasPath(once, p) {
      if HasPath(es, p) {
        var e :| e in es && e.path == p;
        assert e in once;
      } else {
        var i :| 0 <= i < |missing| && missing[i] == p;
        assert AddedEntries(missing)[i] in once;
      }
    }
    NothingAbsent(once, paths);
  }

  function PathsOf(es: seq<Entry>): (r: seq<string>)
    ensures |r| == |es| && forall i :: 0 <= i < |r| ==> r[i] == es[i].path
  {
    seq(|es|, i requires 0 <= i < |es| => es[i].path)
  }

  /** Whatever stands twice in the list is there already. */
  ghost predicate RepeatsPresent(es: seq<Entry>, paths: seq<string>) {
    forall i, j :: 0 <= i < j < |paths| && paths[i] == paths[j] ==> HasPath(es, paths[i])
  }

  lemma RepeatsAppend(es: seq<Entry>, init: seq<string>, p: string)
    ensures RepeatsPresent(es, init + [p]) <==> RepeatsPresent(es, init) && (p in init ==> HasPath(es, p))
  {
    var paths := init + [p];
    if RepeatsPresent(es, paths) {
      forall i, j | 0 <= i < j < |init| && init[i] == init[j] ensures HasPath(es, init[i]) {
        assert paths[i] == paths[j];
      }
      if p in init {
        var i :| 0 <= i < |init| && init[i] == p;
        assert paths[i] == paths[|init|];
      }
    } else {
      var i, j :| 0 <= i < j < |paths| && paths[i] == paths[j] && !HasPath(es, paths[i]);
      if j < |init| { assert init[i] == init[j]; } else { assert init[i] == p; }
    }
  }

  lemma {:induction false} AbsentDistinctIff(es: seq<Entry>, paths: seq<string>)
    ensures Sequences.NoDuplicates(Absent(es, paths)) <==> RepeatsPresent(es, paths)
    decreases |paths|
  {
    if paths != [] {
      var init, p := paths[..|paths| - 1], paths[|paths| - 1];
      assert paths == init + [p];
      AbsentDistinctIff(es, init);
      AbsentMembers(es, init);
      Sequences.AppendDistinctIff(Absent(es, init), AbsentOne(es, p));
      RepeatsAppend(es, init, p);
    }
  }

  /** Duplicates are avoided exactly when there were none and the call itself repeats
      only paths that were there before it. */
  lemma DuplicatesAvoidedIff(es: seq<Entry>, pathStr: string, delim: string)
    ensures Sequences.NoDuplicates(PathsOf(AfterAdding(es, pathStr, delim))) <==>
            Sequences.NoDuplicates(PathsOf(es)) && RepeatsPresent(es, Candidates(pathStr, delim))
  {
    var paths := Candidates(pathStr, delim);
    var missing := Absent(es, paths);
    assert PathsOf(es + AddedEntries(missing)) == PathsOf(es) + missing;
    AbsentDistinctIff(es, paths);
    AbsentMembers(es, paths);
    forall p | p in PathsOf(es) ensures p !in missing {
      var i :| 0 <= i < |es| && es[i].path == p;
      assert es[i] in es;
    }
    Sequences.AppendDistinctIff(PathsOf(es), missing);
  }

  /** A path repeated in one call is added twice. */
  lemma RepeatedPathAddedTwice()
    ensures !Sequences.NoDuplicates(PathsOf(AfterAdding([], "a:a", ":")))
  {
    var paths := ["a", "a"];
    assert Paths.Join(paths, ":") == "a:a" by { assert paths[1..] == ["a"]; assert ("a" + ":") + "a" == "a:a"; }
    Paths.JoinCharThenSplit(paths, ':');
    assert Candidates("a:a", ":") == NonEmpty(paths) == ["a", "a"] by {
      assert paths[1..] == ["a"] && ["a"][1..] == [];
    }
    DuplicatesAvoidedIff([], "a:a", ":");
    assert paths[0] == paths[1] && !HasPath([], "a");
  }

  class HeaderSearchOptions {
    var userEntries: seq<Entry>

    constructor (es: seq<Entry>)
      ensures userEntries == es
    {
      userEntries := es;
    }

    method AddPath(path: string, group: Group, isFramework: bool, ignoreSysRoot: bool)
      modifies this
      ensures userEntries == old(userEntries) + [Entry(path, group, isFramework, ignoreSysRoot)]
    {
      userEntries := userEntries + [Entry(path, group, isFramework, ignoreSysRoot)];
    }

    method AddIncludePaths(pathStr: string, delim: string, isDir: string -> bool)
      modifies this
      ensures userEntries == AfterAdding(old(userEntries), pathStr, delim)
    {
      var paths := [];
      if delim != "" {
        var ok;
        paths, ok := Paths.SplitPaths(pathStr, paths, Paths.AllowNonExistant, delim, isDir);
        AllowedAreNonEmpty(Paths.Segments(pathStr, delim), isDir);
      } else {
        paths := paths + [pathStr];
      }
      assert paths == Candidates(pathStr, delim);
      var pathsChecked := CheckPaths(paths);
      AddPaths(pathsChecked);
    }

    /** The loop that avoids duplicates of what was there before the call. */
    method CheckPaths(paths: seq<string>) returns (pathsChecked: seq<string>)
      ensures pathsChecked == Absent(userEntries, paths)
    {
      pathsChecked := [];
      for i := 0 to |paths|
        invariant pathsChecked == Absent(userEntries, paths[..i])
      {
        var found := HasUserEntry(paths[i]);
        assert paths[..i + 1][..i] == paths[..i];
        if !found {
          pathsChecked := pathsChecked + [paths[i]];
        }
      }
      assert paths[..|paths|] == paths;
    }

    method HasUserEntry(path: string) returns (found: bool)
      ensures found <==> HasPath(userEntries, path)
    {
      found := false;
      for k := 0 to |userEntries|
        invariant !found && forall j :: 0 <= j < k ==> userEntries[j].path != path
      {
        found := userEntries[k].path == path;
        if found {
          return;
        }
      }
    }

    method AddPaths(paths: seq<string>)
      modifies this
      ensures userEntries == old(userEntries) + AddedEntries(paths)
    {
      for i := 0 to |paths|
        invariant userEntries == old(userEntries) + AddedEntries(paths)[..i]
      {
        AddPath(paths[i], Angled, false, true);
      }
    }
  }
}
