/**
 Expanding $NAME in a string, where a name runs to the next slash or to the end.
 The environment is a function handed to the model. The search goes on one
 character behind the place of the dollar, so the rest of a value is expanded too.
 */
module EnvVars {
  import opened Options
  import opened Sequences
  import opened Strings

  type Env = string -> Option<string>

  const DOLLAR := '$'
  const SLASH := '/'

  // ----- strings cut at their dollars -----

  /** Text without a dollar, or text, a dollar with a name, and what follows the name. */
  datatype Cut = Text(text: string) | Asks(text: string, name: string, rest: Cut)

  predicate AtBoundary(s: string) {
    s == "" || s[0] == SLASH
  }

  function Whole(c: Cut): string {
    match c
    case Text(t) => t
    case Asks(t, n, rest) => t + ([DOLLAR] + (n + Whole(rest)))
  }

  /** Dollars and slashes are where they belong. */
  ghost predicate Proper(c: Cut) {
    match c
    case Text(t) => DOLLAR !in t
    case Asks(t, n, rest) => DOLLAR !in t && SLASH !in n && AtBoundary(Whole(rest)) && Proper(rest)
  }

  function SplitName(s: string): (r: (string, string))
    ensures |r.1| <= |s|
  {
    if AtBoundary(s) then ("", s) else
    var (name, rest) := SplitName(s[1..]);
    ([s[0]] + name, rest)
  }

  function Behind(c: char, cut: Cut): Cut {
    match cut
    case Text(t) => Text([c] + t)
    case Asks(t, n, rest) => Asks([c] + t, n, rest)
  }

  function CutUp(s: string): Cut
    decreases |s|
  {
    if s == "" then Text("")
    else if s[0] == DOLLAR then Asks("", SplitName(s[1..]).0, CutUp(SplitName(s[1..]).1))
    else Behind(s[0], CutUp(s[1..]))
  }

  lemma {:induction false} SplitNameIs(s: string)
    ensures var (name, rest) := SplitName(s); s == name + rest && SLASH !in name && AtBoundary(rest)
  {
    if !AtBoundary(s) { SplitNameIs(s[1..]); }
  }

  /** Every string is cut properly, and nothing is lost. */
  lemma {:induction false} CutUpIs(s: string)
    ensures Whole(CutUp(s)) == s && Proper(CutUp(s))
    decreases |s|
  {
    if s != "" {
      assert s == [s[0]] + s[1..];
      if s[0] == DOLLAR {
        SplitNameIs(s[1..]);
        CutUpIs(SplitName(s[1..]).1);
        assert "" + ([DOLLAR] + s[1..]) == s;
      } else {
        CutUpIs(s[1..]);
        var c := CutUp(s[1..]);
        if c.Asks? { Associate([s[0]], c.text, [DOLLAR] + (c.name + Whole(c.rest))); }
      }
    }
  }

  function Append(a: Cut, b: Cut): Cut {
    match a
    case Asks(t, n, rest) => Asks(t, n, Append(rest, b))
    case Text(t) => Prefixed(t, b)
  }

  function Prefixed(t: string, b: Cut): Cut {
    match b
    case Text(u) => Text(t + u)
    case Asks(u, n, rest) => Asks(t + u, n, rest)
  }

  lemma {:induction false} AppendIs(a: Cut, b: Cut)
    requires Proper(a) && Proper(b) && AtBoundary(Whole(b))
    ensures Whole(Append(a, b)) == Whole(a) + Whole(b) && Proper(Append(a, b))
    decreases a
  {
    match a
    case Text(t) =>
      if b.Asks? { Associate(t, b.text, [DOLLAR] + (b.name + Whole(b.rest))); }
    case Asks(t, n, rest) =>
      AppendIs(rest, b);
      Associate(n, Whole(rest), Whole(b));
      Associate([DOLLAR], n + Whole(rest), Whole(b));
      Associate(t, [DOLLAR] + (n + Whole(rest)), Whole(b));
  }

  // ----- expanding, turn by turn -----

  /** What the environment makes of a name: the first character of the value, which
      is passed over, and the rest, which is expanded again. */
  datatype Value = Value(first: string, late: Cut)

  type Values = string -> Value

  function ValueOf(env: Env, name: string): string {
    if env(name).Some? then env(name).value else ""
  }

  function ValuesOf(env: Env): Values {
    name => if ValueOf(env, name) == "" then Value("", Text(""))
            else Value([ValueOf(env, name)[0]], CutUp(ValueOf(env, name)[1..]))
  }

  ghost predicate Faithful(values: Values, env: Env) {
    forall n :: Proper(values(n).late) && ValueOf(env, n) == values(n).first + Whole(values(n).late)
      && |values(n).first| <= 1 && (values(n).first == "" ==> ValueOf(env, n) == "")
  }

  lemma ValuesFaithful(env: Env)
    ensures Faithful(ValuesOf(env), env)
  {
    forall n
      ensures ValueOf(env, n) == ValuesOf(env)(n).first + Whole(ValuesOf(env)(n).late) && Proper(ValuesOf(env)(n).late)
    {
      var v := ValueOf(env, n);
      if v != "" {
        CutUpIs(v[1..]);
        assert v == [v[0]] + v[1..];
      }
    }
  }

  /** What a turn settles, and what it leaves. */
  function Settled(values: Values, c: Cut): string
    requires c.Asks?
  {
    c.text + values(c.name).first
  }

  function Remaining(values: Values, c: Cut): Cut
    requires c.Asks?
  {
    Append(values(c.name).late, c.rest)
  }

  predicate EndsWithin(values: Values, c: Cut, turns: nat)
    decreases turns
  {
    c.Text? || (turns > 0 && EndsWithin(values, Remaining(values, c), turns - 1))
  }

  function Expanded(values: Values, c: Cut, turns: nat): string
    requires EndsWithin(values, c, turns)
    decreases turns
  {
    if c.Text? then c.text else Settled(values, c) + Expanded(values, Remaining(values, c), turns - 1)
  }

  lemma {:induction false} TurnsDoNotMatter(values: Values, c: Cut, j: nat, k: nat)
    requires EndsWithin(values, c, j) && EndsWithin(values, c, k)
    ensures Expanded(values, c, j) == Expanded(values, c, k)
    decreases j
  {
    if c.Asks? { TurnsDoNotMatter(values, Remaining(values, c), j - 1, k - 1); }
  }

  // ----- when expanding ends -----

  function Names(c: Cut): seq<string> {
    match c
    case Text(_) => []
    case Asks(_, n, rest) => [n] + Names(rest)
  }

  ghost predicate Caught(c: Cut, names: iset<string>) {
    exists n :: n in Names(c) && n in names
  }

  /** Names whose values each ask again for a name of the set. */
  ghost predicate Trap(values: Values, names: iset<string>) {
    forall n {:trigger values(n)} :: n in names ==> Caught(values(n).late, names)
  }

  ghost predicate Ends(values: Values, c: Cut) {
    exists turns: nat :: EndsWithin(values, c, turns)
  }

  lemma {:induction false} NamesAppend(a: Cut, b: Cut)
    ensures Names(Append(a, b)) == Names(a) + Names(b)
    decreases a
  {
    if a.Asks? { NamesAppend(a.rest, b); }
  }

  lemma {:induction false} AppendAssociates(a: Cut, b: Cut, c: Cut)
    ensures Append(Append(a, b), c) == Append(a, Append(b, c))
    decreases a
  {
    match a
    case Asks(_, _, rest) => AppendAssociates(rest, b, c);
    case Text(t) =>
      if b.Text? && c.Text? { Associate(t, b.text, c.text); }
      if b.Text? && c.Asks? { Associate(t, b.text, c.text); }
  }

  lemma {:induction false} EndsAppend(values: Values, a: Cut, b: Cut, j: nat, k: nat)
    requires EndsWithin(values, a, j) && EndsWithin(values, b, k)
    ensures EndsWithin(values, Append(a, b), j + k)
    decreases j
  {
    if a.Asks? {
      EndsAppend(values, Remaining(values, a), b, j - 1, k);
      AppendAssociates(values(a.name).late, a.rest, b);
    } else if b.Asks? {
      assert Remaining(values, Append(a, b)) == Remaining(values, b);
      EndsLater(values, Remaining(values, b), k - 1, j);
    }
  }

  lemma {:induction false} EndsLater(values: Values, c: Cut, k: nat, more: nat)
    requires EndsWithin(values, c, k)
    ensures EndsWithin(values, c, k + more)
    decreases k
  {
    if c.Asks? { EndsLater(values, Remaining(values, c), k - 1, more); }
  }

  lemma CaughtAppend(a: Cut, b: Cut, names: iset<string>)
    ensures Caught(Append(a, b), names) <==> Caught(a, names) || Caught(b, names)
  {
    NamesAppend(a, b);
    assert forall n :: n in Names(Append(a, b)) <==> n in Names(a) || n in Names(b);
  }

  lemma StaysCaught(values: Values, c: Cut, names: iset<string>)
    requires Trap(values, names) && Caught(c, names)
    ensures c.Asks? && Caught(Remaining(values, c), names)
  {
    CaughtAppend(values(c.name).late, c.rest, names);
    var n :| n in Names(c) && n in names;
    assert n == c.name || n in Names(c.rest);
  }

  lemma {:induction false} TrapNeverEnds(values: Values, c: Cut, names: iset<string>, turns: nat)
    requires Trap(values, names) && Caught(c, names)
    ensures !EndsWithin(values, c, turns)
    decreases turns
  {
    StaysCaught(values, c, names);
    if turns > 0 { TrapNeverEnds(values, Remaining(values, c), names, turns - 1); }
  }

  lemma {:induction false} NamesEnding(values: Values, c: Cut)
    requires forall n :: n in Names(c) ==> Ends(values, values(n).late)
    ensures Ends(values, c)
    decreases c
  {
    match c
    case Text(_) => assert EndsWithin(values, c, 0);
    case Asks(_, n, rest) =>
      assert Names(c) == [n] + Names(rest);
      NamesEnding(values, rest);
      var j: nat :| EndsWithin(values, values(n).late, j);
      var k: nat :| EndsWithin(values, rest, k);
      EndsAppend(values, values(n).late, rest, j, k);
      assert EndsWithin(values, c, j + k + 1);
  }

  ghost function Endless(values: Values): iset<string> {
    iset n: string | !Ends(values, values(n).late)
  }

  lemma EndlessIsCaught(values: Values, c: Cut)
    requires !Ends(values, c)
    ensures Caught(c, Endless(values))
  {
    if !Caught(c, Endless(values)) {
      forall n | n in Names(c) ensures Ends(values, values(n).late) { assert n !in Endless(values); }
      NamesEnding(values, c);
    }
  }

  /** Expanding ends exactly when the string asks for no name of a trap: a set of
      variables each of whose values asks again for one of the set. */
  lemma EndsIff(values: Values, c: Cut)
    ensures Ends(values, c) <==> !exists names: iset<string> :: Trap(values, names) && Caught(c, names)
  {
    if names: iset<string> :| Trap(values, names) && Caught(c, names) {
      forall turns: nat ensures !EndsWithin(values, c, turns) { TrapNeverEnds(values, c, names, turns); }
    }
    if !Ends(values, c) {
      var names := Endless(values);
      forall n | n in names ensures Caught(values(n).late, names) { EndlessIsCaught(values, values(n).late); }
      EndlessIsCaught(values, c);
      assert Trap(values, names);
    }
  }

  /** With A set to x$A the string $A never stops expanding. */
  lemma {:induction false} SelfReferenceNeverEnds(turns: nat)
    ensures var env := (name: string) => if name == "A" then Some("x$A") else None;
            !EndsWithin(ValuesOf(env), CutUp("$A"), turns)
  {
    var env := (name: string) => if name == "A" then Some("x$A") else None;
    var c := Asks("", "A", Text(""));
    assert "x$A"[1..] == "$A" && "$A"[1..] == "A" && "A"[1..] == "";
    assert SplitName("A") == (['A'] + SplitName("").0, SplitName("").1);
    assert CutUp("$A") == c && ValuesOf(env)("A").late == c;
    assert Remaining(ValuesOf(env), c) == c;
    if turns > 0 { SelfReferenceNeverEnds(turns - 1); }
  }

  // ----- what the result is free of -----

  /** The names that are looked up on the way, in this order. */
  function Asked(values: Values, c: Cut, turns: nat): seq<string>
    requires EndsWithin(values, c, turns)
    decreases turns
  {
    if c.Text? then [] else [c.name] + Asked(values, Remaining(values, c), turns - 1)
  }

  ghost predicate AllProper(values: Values) {
    forall n :: Proper(values(n).late)
  }

  /** A set of names that holds whatever its values, from the second character on, ask for. */
  ghost predicate Closed(values: Values, names: iset<string>) {
    forall n {:trigger values(n)} :: n in names ==> Holds(names, values(n).late)
  }

  ghost predicate Holds(names: iset<string>, c: Cut) {
    forall n :: n in Names(c) ==> n in names
  }

  /** The least such set that holds the names of the string. */
  ghost predicate Reachable(values: Values, c: Cut, n: string) {
    forall names: iset<string> :: Closed(values, names) && Holds(names, c) ==> n in names
  }

  lemma {:induction false} AskedInClosed(values: Values, c: Cut, turns: nat, names: iset<string>)
    requires EndsWithin(values, c, turns) && Closed(values, names) && Holds(names, c)
    ensures forall n :: n in Asked(values, c, turns) ==> n in names
    decreases turns
  {
    if c.Asks? {
      var left := Remaining(values, c);
      assert c.name in Names(c) && Holds(names, values(c.name).late);
      NamesAppend(values(c.name).late, c.rest);
      assert forall n :: n in Names(left) ==> n in Names(values(c.name).late) || n in Names(c);
      AskedInClosed(values, left, turns - 1, names);
    }
  }

  ghost function AskedSet(values: Values, c: Cut, turns: nat): iset<string>
    requires EndsWithin(values, c, turns)
  {
    iset n | n in Asked(values, c, turns)
  }

  lemma {:induction false} AskedIsClosed(values: Values, c: Cut, turns: nat)
    requires EndsWithin(values, c, turns)
    ensures Holds(AskedSet(values, c, turns), c) && Closed(values, AskedSet(values, c, turns))
    decreases turns
  {
    if c.Asks? {
      var left, asked := Remaining(values, c), AskedSet(values, c, turns);
      AskedIsClosed(values, left, turns - 1);
      NamesAppend(values(c.name).late, c.rest);
      var later := AskedSet(values, left, turns - 1);
      assert forall n :: n in asked <==> n == c.name || n in later;
      assert Holds(later, values(c.name).late) && Holds(later, c.rest);
      forall n | n in asked ensures Holds(asked, values(n).late) {
        assert Holds(later, values(n).late);
      }
    }
  }

  /** Exactly the reachable names are looked up on the way. */
  lemma AskedIff(values: Values, c: Cut, turns: nat, n: string)
    requires EndsWithin(values, c, turns)
    ensures n in Asked(values, c, turns) <==> Reachable(values, c, n)
  {
    AskedIsClosed(values, c, turns);
    if n in Asked(values, c, turns) {
      forall names: iset<string> | Closed(values, names) && Holds(names, c) ensures n in names {
        AskedInClosed(values, c, turns, names);
      }
    } else {
      assert n !in AskedSet(values, c, turns);
    }
  }

  lemma {:induction false} AskedDollarFree(values: Values, c: Cut, turns: nat)
    requires AllProper(values) && Proper(c) && EndsWithin(values, c, turns)
    ensures DOLLAR !in Expanded(values, c, turns) <==>
            forall n :: n in Asked(values, c, turns) ==> DOLLAR !in values(n).first
    decreases turns
  {
    if c.Asks? {
      var left := Remaining(values, c);
      AppendIs(values(c.name).late, c.rest);
      AskedDollarFree(values, left, turns - 1);
      var asked, late := Asked(values, c, turns), Asked(values, left, turns - 1);
      assert forall n :: n in asked <==> n == c.name || n in late;
    }
  }

  /** Whenever expanding ends, the result is free of dollars exactly when no reachable
      name has a value that starts with one: the first character is passed over. */
  lemma DollarFreeIff(values: Values, c: Cut, turns: nat)
    requires AllProper(values) && Proper(c) && EndsWithin(values, c, turns)
    ensures DOLLAR !in Expanded(values, c, turns) <==>
            forall n :: Reachable(values, c, n) ==> DOLLAR !in values(n).first
  {
    AskedDollarFree(values, c, turns);
    forall n ensures n in Asked(values, c, turns) <==> Reachable(values, c, n) { AskedIff(values, c, turns, n); }
  }

  lemma {:induction false} DollarFreeCut(s: string)
    requires DOLLAR !in s
    ensures CutUp(s) == Text(s)
  {
    if s != "" {
      DollarFreeCut(s[1..]);
      assert s == [s[0]] + s[1..];
    }
  }

  /** Then a second expansion ends at once and changes nothing. */
  lemma ExpandIdempotent(env: Env, s: string, turns: nat)
    requires EndsWithin(ValuesOf(env), CutUp(s), turns)
    requires forall n :: Reachable(ValuesOf(env), CutUp(s), n) ==> !([DOLLAR] <= ValueOf(env, n))
    ensures var t := Expanded(ValuesOf(env), CutUp(s), turns);
            && DOLLAR !in t && EndsWithin(ValuesOf(env), CutUp(t), 0)
            && Expanded(ValuesOf(env), CutUp(t), 0) == t
  {
    ValuesFaithful(env);
    CutUpIs(s);
    DollarFreeIff(ValuesOf(env), CutUp(s), turns);
    DollarFreeCut(Expanded(ValuesOf(env), CutUp(s), turns));
  }

  // ----- the plain case -----

  /** No value the string asks for has a dollar after its first character. */
  ghost predicate NoLateDollar(values: Values, c: Cut) {
    forall n :: n in Names(c) ==> values(n).late.Text?
  }

  /** The plain substitution: every name is replaced by its value, once. */
  function Substituted(env: Env, c: Cut): string {
    match c
    case Text(t) => t
    case Asks(t, n, rest) => t + (ValueOf(env, n) + Substituted(env, rest))
  }

  lemma {:induction false} PlainBehind(env: Env, values: Values, t: string, c: Cut)
    requires Faithful(values, env) && NoLateDollar(values, c)
    ensures EndsWithin(values, Prefixed(t, c), |Names(c)|)
    ensures Expanded(values, Prefixed(t, c), |Names(c)|) == t + Substituted(env, c)
    decreases c
  {
    if c.Asks? {
      var v := values(c.name);
      assert c.name in Names(c) && v.late.Text?;
      assert forall n :: n in Names(c.rest) ==> n in Names(c);
      assert ValueOf(env, c.name) == v.first + v.late.text;
      PlainBehind(env, values, v.late.text, c.rest);
      FivePieces(t, c.text, v.first, v.late.text, Substituted(env, c.rest));
    }
  }

  lemma FivePieces(a: string, b: string, c: string, d: string, e: string)
    ensures (a + b + c) + (d + e) == a + (b + ((c + d) + e))
  {}

  /** When the names the string asks for have no late dollars, whatever the rest of the
      environment holds, expanding ends, after one turn for each name, with the plain
      substitution. */
  lemma PlainExpansion(env: Env, values: Values, c: Cut)
    requires Faithful(values, env) && NoLateDollar(values, c)
    ensures EndsWithin(values, c, |Names(c)|)
    ensures forall turns: nat :: EndsWithin(values, c, turns) ==> Expanded(values, c, turns) == Substituted(env, c)
  {
    PlainBehind(env, values, "", c);
    assert Prefixed("", c) == c by { assert "" + c.text == c.text; }
    assert "" + Substituted(env, c) == Substituted(env, c);
    forall turns: nat | EndsWithin(values, c, turns) ensures Expanded(values, c, turns) == Substituted(env, c) {
      TurnsDoNotMatter(values, c, turns, |Names(c)|);
    }
  }

  lemma {:induction false} SubstitutedDollarFreeIff(env: Env, c: Cut)
    requires Proper(c)
    ensures DOLLAR !in Substituted(env, c) <==> forall n :: n in Names(c) ==> DOLLAR !in ValueOf(env, n)
    decreases c
  {
    if c.Asks? {
      SubstitutedDollarFreeIff(env, c.rest);
      assert forall n :: n in Names(c) <==> n == c.name || n in Names(c.rest);
    }
  }

  lemma {:induction false} NameSplits(name: string, rest: string)
    requires '/' !in name && (rest == "" || rest[0] == '/')
    ensures SplitName(name + rest) == (name, rest)
    decreases |name|
  {
    if name == "" {
      assert name + rest == rest;
    } else {
      NameSplits(name[1..], rest);
      assert (name + rest)[1..] == name[1..] + rest && (name + rest)[0] == name[0];
      assert [name[0]] + name[1..] == name;
    }
  }

  /** A string is cut at its first dollar; the name behind it runs to the next slash or
      to the end. */
  lemma {:induction false} CutAtDollar(text: string, name: string, rest: string)
    requires '$' !in text && '/' !in name && (rest == "" || rest[0] == '/')
    ensures CutUp(text + "$" + name + rest) == Asks(text, name, CutUp(rest))
    decreases |text|
  {
    var s := text + "$" + name + rest;
    if text == "" {
      NameSplits(name, rest);
      assert s[1..] == name + rest;
    } else {
      CutAtDollar(text[1..], name, rest);
      assert s[1..] == text[1..] + "$" + name + rest;
      assert [text[0]] + text[1..] == text;
    }
  }

  /** One name, whose value has no dollar behind its first character, in front of text
      without one: the value, even one that starts with a dollar, takes the place of dollar
      and name, and a variable that is not set leaves nothing there. */
  lemma OneName(env: Env, text: string, name: string, rest: string)
    requires '$' !in text && '/' !in name && '$' !in rest && (rest == "" || rest[0] == '/')
    requires env(name).Some? && env(name).value != "" ==> '$' !in env(name).value[1..]
    ensures var c := CutUp(text + "$" + name + rest);
            && EndsWithin(ValuesOf(env), c, 1)
            && Expanded(ValuesOf(env), c, 1)
                 == text + (match env(name) case Some(v) => v case None => "") + rest
  {
    CutAtDollar(text, name, rest);
    DollarFreeCut(rest);
    ValuesFaithful(env);
    LatePlain(env, name);
    OneTurnPlain(env, ValuesOf(env), text, name, rest);
  }

  lemma OneTurnPlain(env: Env, values: Values, text: string, name: string, rest: string)
    requires Faithful(values, env) && values(name).late.Text?
    ensures var c := Asks(text, name, Text(rest));
            EndsWithin(values, c, 1) && Expanded(values, c, 1) == text + ValueOf(env, name) + rest
  {
    var c, v := Asks(text, name, Text(rest)), values(name);
    assert Names(c) == [name] + Names(Text(rest)) == [name];
    PlainExpansion(env, values, c);
    assert Substituted(env, c) == text + (ValueOf(env, name) + rest);
    Associate(text, ValueOf(env, name), rest);
  }

  /** When no value the string asks for has a dollar at all, the loop ends with the plain
      substitution, free of dollars, and a second expansion returns it. */
  lemma PlainIdempotent(env: Env, s: string)
    requires forall n :: n in Names(CutUp(s)) ==> DOLLAR !in ValueOf(env, n)
    ensures var values, c := ValuesOf(env), CutUp(s);
            && EndsWithin(values, c, |Names(c)|)
            && var t := Expanded(values, c, |Names(c)|);
            && t == Substituted(env, c) && DOLLAR !in t
            && EndsWithin(values, CutUp(t), 0) && Expanded(values, CutUp(t), 0) == t
  {
    var values, c := ValuesOf(env), CutUp(s);
    ValuesFaithful(env);
    CutUpIs(s);
    forall n | n in Names(c) ensures values(n).late.Text? { LatePlain(env, n); }
    PlainExpansion(env, values, c);
    SubstitutedDollarFreeIff(env, c);
    DollarFreeCut(Substituted(env, c));
  }

  lemma LatePlain(env: Env, n: string)
    requires ValueOf(env, n) != "" ==> DOLLAR !in ValueOf(env, n)[1..]
    ensures ValuesOf(env)(n).late.Text?
  {
    var v := ValueOf(env, n);
    if v != "" { DollarFreeCut(v[1..]); }
  }

  // ----- the loop -----

  /** Where the loop finds the dollar when `fixed` is done and `left` is still to be expanded. */
  function DollarAt(fixed: string, left: Cut): Option<nat> {
    match left
    case Text(_) => None
    case Asks(t, _, _) => Some(|fixed| + |t|)
  }

  /** A search that starts behind the fixed part finds the first dollar of what is
      left; it may start one further on, over a slash. */
  lemma DollarSearch(s: string, fixed: string, left: Cut, from: nat)
    requires Proper(left) && s == fixed + Whole(left)
    requires from == |fixed| || (from == |fixed| + 1 && AtBoundary(Whole(left)))
    ensures FindChar(s, DOLLAR, from) == DollarAt(fixed, left)
  {
    match left
    case Text(t) =>
      assert forall k :: |fixed| <= k < |s| ==> s[k] == t[k - |fixed|];
      FirstIsFound(s, DOLLAR, from, None);
    case Asks(t, n, rest) =>
      var i := |fixed| + |t|;
      assert Whole(left)[|t|] == DOLLAR && Whole(left)[..|t|] == t;
      assert s[i] == DOLLAR;
      forall k | from <= k < i ensures s[k] != DOLLAR { assert s[k] == Whole(left)[..|t|][k - |fixed|]; }
      FirstIsFound(s, DOLLAR, from, Some(i));
  }

  lemma FourPieces(a: string, b: string, c: string, d: string, e: string)
    ensures (a + b) + (c + d) + e == (a + (b + c)) + (d + e)
  {}

  /** The pieces that a turn works on, and what it makes of them. */
  lemma TurnIs(env: Env, values: Values, fixed: string, left: Cut)
    requires Faithful(values, env) && left.Asks? && Proper(left)
    ensures fixed + Whole(left) == (fixed + left.text) + ([DOLLAR] + (left.name + Whole(left.rest)))
    ensures (fixed + left.text) + ValueOf(env, left.name) + Whole(left.rest)
         == (fixed + Settled(values, left)) + Whole(Remaining(values, left))
    ensures Proper(Remaining(values, left))
  {
    var v := values(left.name);
    assert Proper(v.late) && ValueOf(env, left.name) == v.first + Whole(v.late);
    AppendIs(v.late, left.rest);
    Associate(fixed, left.text, [DOLLAR] + (left.name + Whole(left.rest)));
    FourPieces(fixed, left.text, v.first, Whole(v.late), Whole(left.rest));
  }

  lemma SearchAfterTurn(env: Env, values: Values, fixed: string, left: Cut)
    requires Faithful(values, env) && left.Asks? && Proper(left)
    ensures var fixed', left' := fixed + Settled(values, left), Remaining(values, left);
            FindChar(fixed' + Whole(left'), DOLLAR, |fixed| + |left.text| + 1) == DollarAt(fixed', left')
  {
    var v := values(left.name);
    assert Proper(v.late) && ValueOf(env, left.name) == v.first + Whole(v.late);
    var fixed', left' := fixed + Settled(values, left), Remaining(values, left);
    AppendIs(v.late, left.rest);
    if v.first == "" { assert Whole(v.late) == "" && Whole(left') == Whole(left.rest); }
    DollarSearch(fixed' + Whole(left'), fixed', left', |fixed| + |left.text| + 1);
  }

  /** What one turn keeps: the invariant of the loop, with one turn less to go. */
  lemma TurnKeeps(env: Env, values: Values, fixed: string, left: Cut, togo: nat) returns (fixed': string, left': Cut)
    requires Faithful(values, env) && left.Asks? && Proper(left) && EndsWithin(values, left, togo)
    ensures fixed + Whole(left) == (fixed + left.text) + ([DOLLAR] + (left.name + Whole(left.rest)))
    ensures (fixed + left.text) + ValueOf(env, left.name) + Whole(left.rest) == fixed' + Whole(left') && Proper(left')
    ensures FindChar(fixed' + Whole(left'), DOLLAR, |fixed| + |left.text| + 1) == DollarAt(fixed', left')
    ensures togo > 0 && EndsWithin(values, left', togo - 1)
    ensures fixed + Expanded(values, left, togo) == fixed' + Expanded(values, left', togo - 1)
  {
    fixed', left' := fixed + Settled(values, left), Remaining(values, left);
    TurnIs(env, values, fixed, left);
    SearchAfterTurn(env, values, fixed, left);
    Associate(fixed, Settled(values, left), Expanded(values, left', togo - 1));
  }

  /** Ends for exactly the strings of `EndsIff`, with the left-to-right expansion. */
  method ExpandEnvVars(str0: string, path: bool, env: Env, fileExists: string -> bool, ghost turns: nat)
    returns (str: string, ok: bool)
    requires EndsWithin(ValuesOf(env), CutUp(str0), turns)
    ensures str == Expanded(ValuesOf(env), CutUp(str0), turns)
    ensures ok <==> !path || fileExists(str)
  {
    CutUpIs(str0);
    ValuesFaithful(env);
    str := Expand(str0, env, ValuesOf(env), CutUp(str0), turns);
    ok := !path || fileExists(str);
  }

  /** The loop, for the string cut up and the values cut up. */
  method Expand(str0: string, env: Env, ghost values: Values, ghost cut: Cut, ghost turns: nat) returns (str: string)
    requires Faithful(values, env) && Proper(cut) && str0 == Whole(cut) && EndsWithin(values, cut, turns)
    ensures str == Expanded(values, cut, turns)
  {
    str := str0;
    var dollarPos := FindChar(str, DOLLAR, 0);
    ghost var fixed, left, togo, result := "", cut, turns, Expanded(values, cut, turns);
    assert fixed + Whole(left) == str && fixed + result == result;
    DollarSearch(str, fixed, left, 0);
    while dollarPos.Some?
      invariant Proper(left) && str == fixed + Whole(left) && dollarPos == DollarAt(fixed, left)
      invariant EndsWithin(values, left, togo) && fixed + Expanded(values, left, togo) == result
      decreases togo
    {
      str, dollarPos, fixed, left := OneTurn(env, values, str, dollarPos.value, fixed, left, togo);
      togo := togo - 1;
    }
  }

  /** One turn of the loop, with what it settles and what it leaves. */
  method OneTurn(env: Env, ghost values: Values, str0: string, dollar: nat,
      ghost fixed0: string, ghost left0: Cut, ghost togo: nat)
    returns (str: string, next: Option<nat>, ghost fixed: string, ghost left: Cut)
    requires Faithful(values, env) && Proper(left0) && str0 == fixed0 + Whole(left0)
    requires DollarAt(fixed0, left0) == Some(dollar) && EndsWithin(values, left0, togo)
    ensures str == (fixed0 + left0.text) + ValueOf(env, left0.name) + Whole(left0.rest)
    ensures next == FindChar(str, DOLLAR, dollar + 1)
    ensures Proper(left) && str == fixed + Whole(left) && next == DollarAt(fixed, left)
    ensures togo > 0 && EndsWithin(values, left, togo - 1)
    ensures fixed + Expanded(values, left, togo - 1) == fixed0 + Expanded(values, left0, togo)
  {
    fixed, left := TurnKeeps(env, values, fixed0, left0, togo);
    str, next := ReplaceOne(env, str0, dollar, fixed0 + left0.text, left0.name, Whole(left0.rest));
  }

  /** The body of the loop. */
  method ReplaceOne(env: Env, str0: string, dollar: nat, ghost head: string, ghost name: string, ghost rest: string)
    returns (str: string, next: Option<nat>)
    requires str0 == head + ([DOLLAR] + (name + rest))
    requires SLASH !in name && AtBoundary(rest) && dollar == |head|
    ensures str == head + ValueOf(env, name) + rest && next == FindChar(str, DOLLAR, dollar + 1)
  {
    NameIs(str0, head, name, rest);
    var sPos := FindChar(str0, SLASH, dollar + 1);
    var end := if sPos.Some? then sPos.value else |str0|;
    var envVar := str0[dollar + 1..end];
    var fullPath := "";
    var token := env(envVar);
    if token.Some? {
      fullPath := token.value;
    }
    str := str0[..dollar] + fullPath + str0[end..];
    next := FindChar(str, DOLLAR, dollar + 1);
  }

  lemma PiecesAt(s: string, head: string, name: string, rest: string)
    requires s == head + ([DOLLAR] + (name + rest))
    ensures var d, e := |head|, |head| + 1 + |name|;
            |s| == e + |rest| && s[..d] == head && s[d + 1..e] == name && s[e..] == rest
  {}

  /** The end of a name is the next slash, or the end of the string. */
  lemma NameIs(s: string, head: string, name: string, rest: string)
    requires s == head + ([DOLLAR] + (name + rest)) && SLASH !in name && AtBoundary(rest)
    ensures var d, e := |head|, |head| + 1 + |name|;
            && FindChar(s, SLASH, d + 1) == (if rest == "" then None else Some(e))
            && |s| == e + |rest| && s[..d] == head && s[d + 1..e] == name && s[e..] == rest
  {
    var d, e := |head|, |head| + 1 + |name|;
    PiecesAt(s, head, name, rest);
    forall k | d < k < e ensures s[k] != SLASH { assert s[k] == s[d + 1..e][k - d - 1]; }
    if rest != "" { assert s[e] == s[e..][0]; }
    FirstIsFound(s, SLASH, d + 1, if rest == "" then None else Some(e));
  }
}
