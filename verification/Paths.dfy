/**
 Splitting a list of paths. The file system is a function handed to the model.
 */
module Paths {
  import opened Options
  import opened Sequences
  import opened Strings

  /** The pure split: cut at the leftmost delimiter, again and again. */
  function Segments(s: string, d: string): (r: seq<string>)
    requires d != ""
    ensures |r| > 0
    decreases |s|
  {
    match Find(s, d, 0)
    case None => [s]
    case Some(i) => [s[..i]] + Segments(s[i + |d|..], d)
  }

  function Join(parts: seq<string>, d: string): string
    requires |parts| > 0
  {
    if |parts| == 1 then parts[0] else parts[0] + d + Join(parts[1..], d)
  }

  /** Splitting loses nothing and leaves no delimiter. */
  lemma {:induction false} SplitThenJoin(s: string, d: string)
    requires d != ""
    ensures Join(Segments(s, d), d) == s
    ensures forall k :: 0 <= k < |Segments(s, d)| ==> !Contains(Segments(s, d)[k], d)
    decreases |s|
  {
    var f := Find(s, d, 0);
    if f.Some? {
      var i := f.value;
      SplitThenJoin(s[i + |d|..], d);
      assert s == s[..i] + d + s[i + |d|..] by { assert s[i..i + |d|] == d; }
      PrefixFree(s, d, i);
      var rest := Segments(s[i + |d|..], d);
      assert Segments(s, d)[1..] == rest;
    }
  }

  lemma PrefixFree(s: string, d: string, i: nat)
    requires d != "" && Find(s, d, 0) == Some(i)
    ensures !Contains(s[..i], d)
  {
    forall k: nat | OccursAt(s[..i], d, k) ensures false {
      assert s[..i][k..k + |d|] == s[k..k + |d|];
      assert OccursAt(s, d, k);
    }
  }

  /** Behind each part but the last the delimiter that was put there is the first one,
      and the last part contains none. */
  ghost predicate Splittable(parts: seq<string>, d: string)
    requires d != ""
  {
    && (forall k :: 0 <= k < |parts| - 1 ==> Find(parts[k] + d, d, 0) == Some(|parts[k]|))
    && (|parts| > 0 ==> !Contains(parts[|parts| - 1], d))
  }

  /** What follows the first delimiter does not matter to where it is found. */
  lemma FindLooksNoFurther(a: string, d: string, rest: string)
    requires d != ""
    ensures Find(a + d + rest, d, 0) == Some(|a|) <==> Find(a + d, d, 0) == Some(|a|)
  {
    var s, t := a + d + rest, a + d;
    forall k: nat | k <= |a| ensures OccursAt(s, d, k) <==> OccursAt(t, d, k) {
      assert s[k..k + |d|] == t[k..k + |d|];
    }
    assert OccursAt(t, d, |a|) && OccursAt(s, d, |a|);
  }

  /** Joining parts and splitting again gives the parts back exactly when they are
      splittable. */
  lemma {:induction false} JoinThenSplit(parts: seq<string>, d: string)
    requires |parts| > 0 && d != ""
    ensures Segments(Join(parts, d), d) == parts <==> Splittable(parts, d)
    decreases |parts|
  {
    var s := Join(parts, d);
    if |parts| > 1 {
      var a, tail := parts[0], parts[1..];
      JoinThenSplit(tail, d);
      FindLooksNoFurther(a, d, Join(tail, d));
      assert s[..|a|] == a && s[|a| + |d|..] == Join(tail, d);
      SplittableCons(parts, d);
      if Segments(s, d) == parts {
        assert Find(s, d, 0).Some? && s[..Find(s, d, 0).value] == a;
        assert Find(s, d, 0) == Some(|a|);
      }
      if Find(s, d, 0) == Some(|a|) {
        assert Segments(s, d) == [a] + Segments(Join(tail, d), d);
        assert parts == [a] + tail;
        assert Segments(s, d)[1..] == Segments(Join(tail, d), d);
      }
    } else {
      assert [s][0] == s && parts == [s];
    }
  }

  /** A delimiter that overlaps itself: "xa" and "b" do not come back from "xaaab". */
  lemma OverlappingDelimiter()
    ensures Join(["xa", "b"], "aa") == "xaaab" && Segments("xaaab", "aa") != ["xa", "b"]
  {
    var parts := ["xa", "b"];
    assert parts[1..] == ["b"] && ("xa" + "aa") + "b" == "xaaab";
    assert parts[0] + "aa" == "xaaa" && "xaaa"[1..3] == "aa" && OccursAt("xaaa", "aa", 1);
    assert !Splittable(parts, "aa");
    JoinThenSplit(parts, "aa");
  }

  lemma SplittableCons(parts: seq<string>, d: string)
    requires |parts| > 1 && d != ""
    ensures Splittable(parts, d) <==> Find(parts[0] + d, d, 0) == Some(|parts[0]|) && Splittable(parts[1..], d)
  {
    var tail := parts[1..];
    assert forall k :: 0 <= k < |tail| ==> tail[k] == parts[k + 1];
    if Splittable(parts, d) {
      forall k | 0 <= k < |tail| - 1 ensures Find(tail[k] + d, d, 0) == Some(|tail[k]|) {
        assert tail[k] == parts[k + 1];
      }
    }
    if Find(parts[0] + d, d, 0) == Some(|parts[0]|) && Splittable(tail, d) {
      forall k | 0 <= k < |parts| - 1 ensures Find(parts[k] + d, d, 0) == Some(|parts[k]|) {
        if k > 0 { assert tail[k - 1] == parts[k]; }
      }
    }
  }

  /** For a delimiter of one character, such as the one between PATH entries, it is
      enough, and needed, that no part contains it. */
  lemma JoinCharThenSplit(parts: seq<string>, c: char)
    requires |parts| > 0
    ensures Segments(Join(parts, [c]), [c]) == parts <==> forall k :: 0 <= k < |parts| ==> c !in parts[k]
  {
    JoinThenSplit(parts, [c]);
    forall k | 0 <= k < |parts|
      ensures Find(parts[k] + [c], [c], 0) == Some(|parts[k]|) <==> c !in parts[k]
      ensures !Contains(parts[k], [c]) <==> c !in parts[k]
    {
      CharFound(parts[k], c);
    }
    if Splittable(parts, [c]) {
      forall k | 0 <= k < |parts| ensures c !in parts[k] {
        if k < |parts| - 1 { assert Find(parts[k] + [c], [c], 0) == Some(|parts[k]|); }
      }
    }
  }

  lemma CharFound(s: string, c: char)
    ensures Find(s + [c], [c], 0) == Some(|s|) <==> c !in s
    ensures !Contains(s, [c]) <==> c !in s
  {
    var t := s + [c];
    forall k: nat ensures OccursAt(t, [c], k) <==> k < |t| && t[k] == c { SingleOccurs(t, c, k); }
    forall k: nat ensures OccursAt(s, [c], k) <==> k < |s| && s[k] == c { SingleOccurs(s, c, k); }
    if c in s {
      var k :| 0 <= k < |s| && s[k] == c;
      assert OccursAt(s, [c], k) && OccursAt(t, [c], k);
    }
    assert OccursAt(t, [c], |s|);
  }

  datatype SplitMode = PruneNonExistant | FailNonExistant | AllowNonExistant

  predicate Missing(seg: string, isDir: string -> bool) {
    seg != "" && !isDir(seg)
  }

  /** What one segment contributes to the result. */
  function KeptOne(seg: string, mode: SplitMode, isDir: string -> bool): seq<string> {
    if seg == "" || (Missing(seg, isDir) && !mode.AllowNonExistant?) then [] else [seg]
  }

  /** Non-empty segments the mode keeps; in fail mode those before the first that is missing. */
  function Kept(segs: seq<string>, mode: SplitMode, isDir: string -> bool): seq<string> {
    if segs == [] || (mode.FailNonExistant? && Missing(segs[0], isDir)) then []
    else KeptOne(segs[0], mode, isDir) + Kept(segs[1..], mode, isDir)
  }

  /** Which segments a mode is to return. */
  ghost predicate Wanted(segs: seq<string>, mode: SplitMode, isDir: string -> bool, k: nat) {
    && k < |segs| && segs[k] != ""
    && match mode
       case PruneNonExistant => isDir(segs[k])
       case AllowNonExistant => true
       case FailNonExistant => forall j :: 0 <= j <= k && segs[j] != "" ==> isDir(segs[j])
  }

  /** A missing first segment ends the fail mode. */
  lemma NothingWanted(segs: seq<string>, isDir: string -> bool, k: nat)
    requires segs != [] && segs[0] != "" && !isDir(segs[0])
    ensures !Wanted(segs, FailNonExistant, isDir, k)
  {}

  lemma WantedFirst(segs: seq<string>, mode: SplitMode, isDir: string -> bool)
    requires segs != []
    ensures Wanted(segs, mode, isDir, 0) <==> KeptOne(segs[0], mode, isDir) != []
  {}

  lemma WantedBehind(segs: seq<string>, mode: SplitMode, isDir: string -> bool, k: nat)
    requires segs != [] && !(mode.FailNonExistant? && segs[0] != "" && !isDir(segs[0]))
    ensures Wanted(segs, mode, isDir, k + 1) <==> Wanted(segs[1..], mode, isDir, k)
  {
    var rest := segs[1..];
    assert forall j :: 0 <= j < |rest| ==> rest[j] == segs[j + 1];
    if mode.FailNonExistant? && Wanted(segs, mode, isDir, k + 1) {
      forall j | 0 <= j <= k && rest[j] != "" ensures isDir(rest[j]) { assert segs[j + 1] == rest[j]; }
    }
  }

  /** Existing segments in prune mode, all non-empty ones in allow mode, and in fail mode
      those in front of the first one that is missing; in order, repeats included. */
  lemma {:induction false} KeptIs(segs: seq<string>, mode: SplitMode, isDir: string -> bool) returns (at: seq<nat>)
    ensures Increasing(at) && PickedAt(segs, at, Kept(segs, mode, isDir))
    ensures forall k: nat :: k in at <==> Wanted(segs, mode, isDir, k)
    decreases |segs|
  {
    at := [];
    if segs != [] {
      if mode.FailNonExistant? && Missing(segs[0], isDir) {
        forall k: nat ensures !Wanted(segs, mode, isDir, k) { NothingWanted(segs, isDir, k); }
      } else {
        var behind := KeptIs(segs[1..], mode, isDir);
        at := KeptCons(segs, mode, isDir, behind);
      }
    }
  }

  lemma WantedBehindAll(segs: seq<string>, mode: SplitMode, isDir: string -> bool)
    requires segs != [] && !(mode.FailNonExistant? && segs[0] != "" && !isDir(segs[0]))
    ensures forall k: nat :: k > 0 ==> (Wanted(segs, mode, isDir, k) <==> Wanted(segs[1..], mode, isDir, k - 1))
  {
    forall k: nat | k > 0 ensures Wanted(segs, mode, isDir, k) <==> Wanted(segs[1..], mode, isDir, k - 1) {
      WantedBehind(segs, mode, isDir, k - 1);
    }
  }

  lemma KeptFront(segs: seq<string>, mode: SplitMode, isDir: string -> bool)
    requires segs != [] && !(mode.FailNonExistant? && Missing(segs[0], isDir))
    ensures Kept(segs, mode, isDir)
         == if Wanted(segs, mode, isDir, 0) then [segs[0]] + Kept(segs[1..], mode, isDir)
            else Kept(segs[1..], mode, isDir)
  {
    WantedFirst(segs, mode, isDir);
    var one, rest := KeptOne(segs[0], mode, isDir), Kept(segs[1..], mode, isDir);
    assert one == [] ==> one + rest == rest;
  }

  lemma KeptCons(segs: seq<string>, mode: SplitMode, isDir: string -> bool, behind: seq<nat>) returns (at: seq<nat>)
    requires segs != [] && !(mode.FailNonExistant? && Missing(segs[0], isDir))
    requires Increasing(behind) && PickedAt(segs[1..], behind, Kept(segs[1..], mode, isDir))
    requires forall k: nat :: k in behind <==> Wanted(segs[1..], mode, isDir, k)
    ensures Increasing(at) && PickedAt(segs, at, Kept(segs, mode, isDir))
    ensures forall k: nat :: k in at <==> Wanted(segs, mode, isDir, k)
  {
    WantedBehindAll(segs, mode, isDir);
    KeptFront(segs, mode, isDir);
    at := PickWanted(segs, behind, Kept(segs[1..], mode, isDir),
      (k: nat) => Wanted(segs, mode, isDir, k), (k: nat) => Wanted(segs[1..], mode, isDir, k));
  }

  predicate AllExist(segs: seq<string>, isDir: string -> bool) {
    segs == [] || (!Missing(segs[0], isDir) && AllExist(segs[1..], isDir))
  }

  lemma {:induction false} AllExistIs(segs: seq<string>, isDir: string -> bool)
    ensures AllExist(segs, isDir) <==> forall k :: 0 <= k < |segs| && segs[k] != "" ==> isDir(segs[k])
  {
    if segs != [] {
      AllExistIs(segs[1..], isDir);
      assert segs == [segs[0]] + segs[1..];
    }
  }

  predicate ReturnedExist(paths: seq<string>, isDir: string -> bool) {
    paths == [] || (paths[0] != "" && isDir(paths[0]) && ReturnedExist(paths[1..], isDir))
  }

  /** The documentation says that all returned paths exist. That holds exactly when
      missing paths are not asked for, or when there are none. */
  lemma {:induction false} ReturnedExistIff(segs: seq<string>, mode: SplitMode, isDir: string -> bool)
    ensures ReturnedExist(Kept(segs, mode, isDir), isDir) <==> !mode.AllowNonExistant? || AllExist(segs, isDir)
  {
    if segs != [] && !(mode.FailNonExistant? && Missing(segs[0], isDir)) {
      ReturnedExistIff(segs[1..], mode, isDir);
      var one, rest := KeptOne(segs[0], mode, isDir), Kept(segs[1..], mode, isDir);
      if one == [] { assert one + rest == rest; } else { assert (one + rest)[1..] == rest; }
    }
  }

  /** A missing path is returned when missing paths are asked for. */
  lemma MissingPathReturned()
    ensures Kept(Segments("lib", ":"), AllowNonExistant, _ => false) == ["lib"]
  {
    SingleSegment("lib", ':');
    KeptAlone("lib", AllowNonExistant, _ => false);
  }

  lemma SingleSegment(s: string, c: char)
    requires c !in s
    ensures Segments(s, [c]) == [s]
  {
    assert Join([s], [c]) == s;
    JoinCharThenSplit([s], c);
  }

  predicate EndsWith(s: string, d: string) {
    |d| <= |s| && s[|s| - |d|..] == d
  }

  /** StringRef::split: the parts around the first delimiter, or the whole and nothing. */
  function Split(s: string, d: string): (string, string)
    requires d != ""
  {
    match Find(s, d, 0)
    case None => (s, "")
    case Some(i) => (s[..i], s[i + |d|..])
  }

  /** SplitPaths with Verbose off: appends to `paths0`. */
  method SplitPaths(pathStr: string, paths0: seq<string>, mode: SplitMode, delim: string, isDir: string -> bool)
    returns (paths: seq<string>, allExisted: bool)
    requires delim != ""
    ensures paths == paths0 + Kept(Segments(pathStr, delim), mode, isDir)
    ensures allExisted <==> AllExist(Segments(pathStr, delim), isDir)
  {
    paths, allExisted := paths0, true;
    var str := pathStr;
    var split := Split(str, delim);
    ghost var kept := paths0 + Kept(Segments(pathStr, delim), mode, isDir);
    ghost var all := AllExist(Segments(pathStr, delim), isDir);
    while split.1 != ""
      invariant split == Split(str, delim)
      invariant paths + Kept(Segments(str, delim), mode, isDir) == kept
      invariant allExisted && AllExist(Segments(str, delim), isDir) <==> all
      decreases |str|
    {
      FirstSegment(str, delim);
      ghost var before, rest := paths, Kept(Segments(split.1, delim), mode, isDir);
      if split.0 != "" {
        var present := isDir(split.0);
        allExisted := allExisted && present;
        if !present {
          if mode.FailNonExistant? {
            return paths, false;
          } else if mode.AllowNonExistant? {
            paths := paths + [split.0];
          }
        } else {
          paths := paths + [split.0];
        }
      }
      assert paths == before + KeptOne(split.0, mode, isDir);
      Associate(before, KeptOne(split.0, mode, isDir), rest);
      str := split.1;
      split := Split(str, delim);
    }
    LastSegment(str, delim, mode, isDir);
    if str != "" && EndsWith(str, delim) {
      str := str[..|str| - |delim|];
    }
    if str != "" {
      if !isDir(str) {
        allExisted := false;
        if mode.AllowNonExistant? {
          paths := paths + [str];
        }
      } else {
        paths := paths + [str];
      }
    }
  }

  /** One turn of the loop takes off the first segment. */
  lemma FirstSegment(s: string, d: string)
    requires d != "" && Split(s, d).1 != ""
    ensures |Split(s, d).1| < |s|
    ensures Segments(s, d)[0] == Split(s, d).0 && Segments(s, d)[1..] == Segments(Split(s, d).1, d)
  {}

  /** When splitting leaves nothing behind the delimiter, trimming one trailing
      delimiter gives the only segment that can still be non-empty. */
  lemma LastSegment(s: string, d: string, mode: SplitMode, isDir: string -> bool)
    requires d != "" && Split(s, d).1 == ""
    ensures var t := if s != "" && EndsWith(s, d) then s[..|s| - |d|] else s;
            && AllExist(Segments(s, d), isDir) == !Missing(t, isDir)
            && Kept(Segments(s, d), mode, isDir) == KeptOne(t, mode, isDir)
  {
    var t := if s != "" && EndsWith(s, d) then s[..|s| - |d|] else s;
    var f := Find(s, d, 0);
    if f.Some? {
      assert f.value + |d| == |s|;
      assert Segments(s, d) == [t] + Segments("", d);
      KeptAlone("", mode, isDir);
      assert Segments("", d) == [""];
      assert Segments(s, d)[1..] == [""];
    } else {
      if EndsWith(s, d) { assert OccursAt(s, d, |s| - |d|); }
      KeptAlone(t, mode, isDir);
    }
  }

  lemma KeptAlone(seg: string, mode: SplitMode, isDir: string -> bool)
    ensures Kept([seg], mode, isDir) == KeptOne(seg, mode, isDir)
    ensures AllExist([seg], isDir) == !Missing(seg, isDir)
  {
    assert [seg][1..] == [];
  }
}
