/**
 What one call of the meta command lexer does, and what a whole input does.
 Memory is a sequence of characters that ends with the terminating NUL of the
 input; positions are indices into it. Reading past the end of that memory is
 the outcome `Overrun`.
 */
module Lexing {
  import opened Words

  const NUL: char := '\0'

  datatype TokenKind =
    | LSquare | RSquare | LParen | RParen | LBrace | RBrace
    | StringLit | CharLit | Comma | Dot | ExclMark | QuestMark | Slash | Backslash
    | Less | Greater | Ampersand | Hash | Ident | RawIdent | Comment | LComment | RComment
    | Space | Constant | At | Asterik | Semicolon | Eof | Unknown

  datatype Lexed = Overrun | Tok(kind: TokenKind, start: nat, length: nat, next: nat)

  type Memory = m: string | |m| > 0 && m[|m| - 1] == NUL witness [NUL]

  // ----- what one call does -----

  predicate IsDigit(c: char) { '0' <= c <= '9' }

  predicate IsBlank(c: char) { c == ' ' || c == '\t' }

  predicate IsLetter(c: char) { c == '_' || 'A' <= c <= 'Z' || 'a' <= c <= 'z' }

  predicate IsIdentChar(c: char) { IsLetter(c) || IsDigit(c) }

  predicate IsQuote(c: char) { c == '"' || c == '\'' }

  /** End of the longest run of characters satisfying `p` that starts at `i`. */
  function SpanEnd(m: string, i: nat, p: char -> bool): (r: nat)
    requires i <= |m|
    ensures i <= r <= |m|
    decreases |m| - i
  {
    if i < |m| && p(m[i]) then SpanEnd(m, i + 1, p) else i
  }

  lemma {:induction false} SpanEndIs(m: string, i: nat, p: char -> bool)
    requires i <= |m|
    ensures forall k :: i <= k < SpanEnd(m, i, p) ==> p(m[k])
    ensures SpanEnd(m, i, p) < |m| ==> !p(m[SpanEnd(m, i, p)])
    decreases |m| - i
  {
    if i < |m| && p(m[i]) { SpanEndIs(m, i + 1, p); }
  }

  datatype Scan = Closed(end: nat) | Unterminated(at: nat) | PastEnd

  /** From inside a literal: a backslash skips itself and whatever follows it. */
  function ScanQuote(m: string, i: nat, q: char): (r: Scan)
    ensures r.Closed? ==> i < r.end
    decreases |m| - i
  {
    if i >= |m| then PastEnd
    else if m[i] == '\\' then ScanQuote(m, i + 2, q)
    else if m[i] == NUL then Unterminated(i)
    else if m[i] == q then Closed(i + 1)
    else ScanQuote(m, i + 1, q)
  }

  function PunctuatorKind(c: char): TokenKind {
    match c
    case '[' => LSquare case ']' => RSquare case '(' => LParen case ')' => RParen
    case '{' => LBrace case '}' => RBrace case '"' => StringLit case '\'' => CharLit
    case ',' => Comma case '.' => Dot case '!' => ExclMark case '?' => QuestMark
    case '/' => Slash case '\\' => Backslash case '<' => Less case '>' => Greater
    case '@' => At case '&' => Ampersand case '#' => Hash case '*' => Asterik
    case ';' => Semicolon case _ => if c == NUL then Eof else Unknown
  }

  predicate IsPunctuator(c: char) {
    || c == '[' || c == ']' || c == '(' || c == ')' || c == '{' || c == '}'
    || c == '\\' || c == ',' || c == '.' || c == '!' || c == '?' || c == '<' || c == '>'
    || c == '&' || c == '#' || c == '@' || c == ';'
  }

  /** A length as an unsigned 32-bit number. */
  function Length32(n: nat): nat {
    if n < U32 then n else n % U32
  }

  /** A quoted literal that opens at `p`. */
  function LiteralAt(m: Memory, p: nat): Lexed
    requires p < |m|
  {
    match ScanQuote(m, p + 1, m[p])
    case Closed(e) => Tok(if m[p] == '"' then StringLit else CharLit, p, Length32(e - p), e)
    case Unterminated(i) => Tok(Eof, i, 0, i)
    case PastEnd => Overrun
  }

  /** A slash or an asterisk, or the comment mark it starts. */
  function SlashOrAsterikAt(m: Memory, p: nat): Lexed
    requires p < |m| - 1 && (m[p] == '/' || m[p] == '*')
  {
    if m[p] == '/' then
      if m[p + 1] == '/' then Tok(Comment, p, 2, p + 2)
      else if m[p + 1] == '*' then Tok(LComment, p, 2, p + 2)
      else Tok(Slash, p, 1, p + 1)
    else if m[p + 1] == '/' then Tok(RComment, p, 2, p + 2)
    else Tok(Asterik, p, 1, p + 1)
  }

  function ConstantAt(m: Memory, p: nat): Lexed
    requires p < |m|
  {
    var e := SpanEnd(m, p, IsDigit);
    Tok(Constant, p, Length32(e - p), e)
  }

  function IdentifierAt(m: Memory, p: nat): Lexed
    requires p < |m|
  {
    var e := SpanEnd(m, p, IsIdentChar);
    Tok(if Length32(e - p) == 0 then Unknown else Ident, p, Length32(e - p), e)
  }

  function SpaceAt(m: Memory, p: nat): Lexed
    requires p < |m|
  {
    var e := SpanEnd(m, p, IsBlank);
    Tok(Space, p, Length32(e - p), e)
  }

  /** One call of lex with the cursor at `p`. */
  function LexAt(m: Memory, p: nat): Lexed {
    if p >= |m| then Overrun else
    var c := m[p];
    if IsQuote(c) then LiteralAt(m, p)
    else if IsPunctuator(c) then Tok(PunctuatorKind(c), p, 1, p + 1)
    else if c == '/' || c == '*' then SlashOrAsterikAt(m, p)
    else if IsDigit(c) then ConstantAt(m, p)
    else if IsLetter(c) then IdentifierAt(m, p)
    else if IsBlank(c) then SpaceAt(m, p)
    else if c == NUL then Tok(Eof, p, 1, p + 1)
    else Tok(Unknown, p, 0, p + 1)
  }

  // ----- what a kind looks like -----

  /** The text of a token whose kind has just one, as the list of kinds gives it. */
  function Spelled(k: TokenKind): string {
    match k
    case LSquare => "[" case RSquare => "]" case LParen => "(" case RParen => ")"
    case LBrace => "{" case RBrace => "}" case Comma => "," case Dot => "."
    case ExclMark => "!" case QuestMark => "?" case Slash => "/" case Backslash => "\\"
    case Less => "<" case Greater => ">" case Ampersand => "&" case Hash => "#"
    case Comment => "//" case LComment => "/*" case RComment => "*/"
    case At => "@" case Asterik => "*" case Semicolon => ";" case _ => ""
  }

  /** Every punctuator has the kind it spells. */
  lemma PunctuatorSpelled(c: char)
    requires IsPunctuator(c)
    ensures Spelled(PunctuatorKind(c)) == [c]
  {}

  lemma SpelledIsPunctuator(k: TokenKind)
    requires |Spelled(k)| == 1 && !k.Slash? && !k.Asterik?
    ensures IsPunctuator(Spelled(k)[0]) && PunctuatorKind(Spelled(k)[0]) == k
  {}

  lemma SlashSpelled(m: Memory, p: nat)
    requires p < |m| && (m[p] == '/' || m[p] == '*')
    ensures p < |m| - 1
    ensures var t := SlashOrAsterikAt(m, p);
            t.start == p && p + t.length <= |m| && m[p..p + t.length] == Spelled(t.kind)
  {
    var t := SlashOrAsterikAt(m, p);
    assert m[p..p + t.length] == if t.length == 1 then [m[p]] else [m[p], m[p + 1]];
  }

  lemma PunctuatorAtSpelled(m: Memory, p: nat)
    requires p < |m| && IsPunctuator(m[p])
    ensures LexAt(m, p) == Tok(PunctuatorKind(m[p]), p, 1, p + 1) && m[p..p + 1] == Spelled(PunctuatorKind(m[p]))
  {
    PunctuatorNamed(m[p]);
    PunctuatorSpelled(m[p]);
    assert m[p..p + 1] == [m[p]];
  }

  lemma OthersUnspelled(m: Memory, p: nat)
    requires p < |m| && !IsPunctuator(m[p]) && m[p] != '/' && m[p] != '*' && LexAt(m, p).Tok?
    ensures Spelled(LexAt(m, p).kind) == ""
  {}

  /** A token whose kind has just one text has that text. */
  lemma KindSpelled(m: Memory, p: nat)
    requires LexAt(m, p).Tok? && Spelled(LexAt(m, p).kind) != ""
    ensures var t := LexAt(m, p);
            t.start == p && p + t.length <= |m| && m[p..p + t.length] == Spelled(t.kind)
  {
    if IsPunctuator(m[p]) {
      PunctuatorAtSpelled(m, p);
    } else if m[p] == '/' || m[p] == '*' {
      SlashSpelled(m, p);
      assert LexAt(m, p) == SlashOrAsterikAt(m, p);
    } else {
      OthersUnspelled(m, p);
    }
  }

  /** Letters stand in alphabetical order, with the underscore they make up identifiers. */
  lemma LettersAre(c: char)
    ensures IsLetter(c) <==>
            c in "ABCDEFGHIJKLM" || c in "NOPQRSTUVWXYZ" || c in "abcdefghijklm" || c in "nopqrstuvwxyz" || c == '_'
  {
    Alphabet("ABCDEFGHIJKLM", 'A', c);
    Alphabet("NOPQRSTUVWXYZ", 'N', c);
    Alphabet("abcdefghijklm", 'a', c);
    Alphabet("nopqrstuvwxyz", 'n', c);
  }

  lemma Alphabet(s: string, first: char, c: char)
    requires forall i :: 0 <= i < |s| ==> s[i] as int == first as int + i
    ensures c in s <==> first as int <= c as int < first as int + |s|
  {
    if first as int <= c as int < first as int + |s| { assert s[c as int - first as int] == c; }
  }

  lemma DigitsAre(c: char)
    ensures IsDigit(c) <==> c in "0123456789"
  {
    if IsDigit(c) { assert "0123456789"[c as int - '0' as int] == c; }
  }

  lemma BlanksAre(c: char)
    ensures IsBlank(c) <==> c in " \t"
  {
    assert " \t"[0] == ' ' && " \t"[1] == '\t';
  }

  /** A token is unknown exactly where no other begins, or where the length of an
      identifier is a multiple of 2^32. */
  lemma UnknownIff(m: Memory, p: nat)
    requires p < |m|
    ensures LexAt(m, p).Tok? && LexAt(m, p).kind == Unknown <==>
            || (m[p] !in "[](){}\"',.!?/\\<>&#@*;\0" && !IsLetter(m[p]) && !IsDigit(m[p]) && !IsBlank(m[p]))
            || (IsLetter(m[p]) && (SpanEnd(m, p, IsIdentChar) - p) % U32 == 0)
  {
    var s := "[](){}\"',.!?/\\<>&#@*;\0";
    if IsPunctuator(m[p]) { PunctuatorNamed(m[p]); }
    NamedIff(m[p]);
    Length32Is(SpanEnd(m, p, IsIdentChar) - p);
  }

  /** Lengths are stored in 32 bits. */
  lemma Length32Is(n: nat)
    ensures Length32(n) == n % U32
  {}

  lemma NamedIff(c: char)
    ensures c in "[](){}\"',.!?/\\<>&#@*;\0" <==>
            IsPunctuator(c) || IsQuote(c) || c == '/' || c == '*' || c == NUL
  {
    var s := "[](){}\"',.!?/\\<>&#@*;\0";
    assert s[0] == '[' && s[1] == ']' && s[2] == '(' && s[3] == ')' && s[4] == '{' && s[5] == '}';
    assert s[6] == '"' && s[7] == '\'' && s[8] == ',' && s[9] == '.' && s[10] == '!' && s[11] == '?';
    assert s[12] == '/' && s[13] == '\\' && s[14] == '<' && s[15] == '>' && s[16] == '&' && s[17] == '#';
    assert s[18] == '@' && s[19] == '*' && s[20] == ';' && s[21] == NUL;
  }

  // ----- brackets -----

  /** The position of a kind in its enumeration. */
  function Ordinal(k: TokenKind): nat {
    match k
    case LSquare => 0 case RSquare => 1 case LParen => 2 case RParen => 3 case LBrace => 4 case RBrace => 5
    case StringLit => 6 case CharLit => 7 case Comma => 8 case Dot => 9 case ExclMark => 10 case QuestMark => 11
    case Slash => 12 case Backslash => 13 case Less => 14 case Greater => 15 case Ampersand => 16 case Hash => 17
    case Ident => 18 case RawIdent => 19 case Comment => 20 case LComment => 21 case RComment => 22 case Space => 23
    case Constant => 24 case At => 25 case Asterik => 26 case Semicolon => 27 case Eof => 28 case Unknown => 29
  }

  predicate IsClosingBrace(k: TokenKind) {
    k == RSquare || k == RParen || k == RBrace
  }

  /** ClosesBrace: a closing kind comes right behind the one it closes. */
  predicate ClosesBrace(k: TokenKind, open: TokenKind) {
    IsClosingBrace(k) && Ordinal(k) == Ordinal(open) + 1
  }

  /** What is lexed at one place closes what is lexed at another exactly for the three
      pairs of brackets. */
  lemma BracketsCloseIff(m: Memory, p: nat, n: Memory, q: nat)
    requires LexAt(m, p).Tok? && LexAt(n, q).Tok?
    ensures ClosesBrace(LexAt(m, p).kind, LexAt(n, q).kind) <==>
            (m[p] == ']' && n[q] == '[') || (m[p] == ')' && n[q] == '(') || (m[p] == '}' && n[q] == '{')
  {
    BracketKinds(m, p);
    BracketKinds(n, q);
  }

  lemma BracketKinds(m: Memory, p: nat)
    requires LexAt(m, p).Tok?
    ensures var k := LexAt(m, p).kind;
            && (k == LSquare <==> m[p] == '[') && (k == RSquare <==> m[p] == ']')
            && (k == LParen <==> m[p] == '(') && (k == RParen <==> m[p] == ')')
            && (k == LBrace <==> m[p] == '{') && (k == RBrace <==> m[p] == '}')
  {
    var k := LexAt(m, p).kind;
    if k == LSquare || k == RSquare || k == LParen || k == RParen || k == LBrace || k == RBrace {
      KindSpelled(m, p);
      assert m[p..p + LexAt(m, p).length][0] == m[p];
    }
  }

  // ----- quoted literals -----

  /** Number of backslashes immediately before `i`, looking back no further than `from`. */
  function BackslashRun(m: string, from: nat, i: nat): nat
    requires from <= i <= |m|
    decreases i
  {
    if i > from && m[i - 1] == '\\' then 1 + BackslashRun(m, from, i - 1) else 0
  }

  /** A closing quote or a NUL that no backslash of the literal escapes. */
  predicate Stops(m: string, from: nat, i: nat, q: char)
    requires from <= i < |m|
  {
    (m[i] == q || m[i] == NUL) && BackslashRun(m, from, i) % 2 == 0
  }

  ghost predicate NoStopBefore(m: string, from: nat, i: nat, q: char)
    requires from <= |m|
  {
    forall k: nat :: from <= k < i && k < |m| ==> !Stops(m, from, k, q)
  }

  /** What the scan promises when it starts at `from`. */
  ghost predicate StoppedAtFirst(m: string, from: nat, q: char, r: Scan)
    requires from <= |m|
  {
    match r
    case Closed(e) => from < e <= |m| && m[e - 1] == q && Stops(m, from, e - 1, q) && NoStopBefore(m, from, e - 1, q)
    case Unterminated(i) => from <= i < |m| && m[i] == NUL && Stops(m, from, i, q) && NoStopBefore(m, from, i, q)
    case PastEnd => NoStopBefore(m, from, |m|, q)
  }

  /** The scan ends exactly at the first unescaped closing quote or NUL, and runs
      off the memory exactly when there is none. */
  lemma ScanStopsAtFirst(m: string, from: nat, q: char)
    requires from <= |m| && IsQuote(q)
    ensures StoppedAtFirst(m, from, q, ScanQuote(m, from, q))
  {
    ScanFrom(m, from, from, q);
  }

  lemma {:induction false} ScanFrom(m: string, from: nat, i: nat, q: char)
    requires from <= i <= |m| && IsQuote(q) && BackslashRun(m, from, i) % 2 == 0 && NoStopBefore(m, from, i, q)
    ensures StoppedAtFirst(m, from, q, ScanQuote(m, i, q))
    decreases |m| - i
  {
    if i == |m| {
    } else if m[i] == '\\' {
      assert !Stops(m, from, i, q);
      if i + 1 < |m| {
        assert BackslashRun(m, from, i + 1) == 1 + BackslashRun(m, from, i);
        assert !Stops(m, from, i + 1, q);
        if m[i + 1] == '\\' {
          assert BackslashRun(m, from, i + 2) == 1 + BackslashRun(m, from, i + 1);
        }
        ScanFrom(m, from, i + 2, q);
      }
    } else if m[i] != NUL && m[i] != q {
      ScanFrom(m, from, i + 1, q);
    }
  }

  /** A call reads outside the memory exactly when it starts there or at a quote
      whose literal has no unescaped end. */
  lemma OverrunIff(m: Memory, p: nat)
    ensures LexAt(m, p) == Overrun <==> p >= |m| || (IsQuote(m[p]) && NoStopBefore(m, p + 1, |m|, m[p]))
  {
    if p < |m| && IsQuote(m[p]) { ScanStopsAtFirst(m, p + 1, m[p]); }
  }

  /** `'\` and the end of input: the escape swallows the terminating NUL. */
  lemma TrailingBackslashOverruns()
    ensures LexAt(['\'', '\\', NUL], 0) == Overrun
  {
    var m: Memory := ['\'', '\\', NUL];
    assert ScanQuote(m, 1, '\'') == ScanQuote(m, 3, '\'');
  }

  /** The cursor moves forward inside the memory and the token is exactly what was
      consumed; the exceptions are unknown characters and the end of file that an
      unterminated literal reports. */
  predicate Consumes(m: Memory, p: nat, t: Lexed) {
    && t.Tok? && p < t.next <= |m|
    && if t.kind == Eof
       then (t.start == p && t.length == 1 && t.next == p + 1 && m[p] == NUL)
         || (p < t.start == t.next < |m| && t.length == 0 && m[t.next] == NUL && IsQuote(m[p]))
       else t.start == p && t.next < |m| && t.length == if t.kind == Unknown then 0 else Length32(t.next - p)
  }

  /** A call that stays inside the memory consumes something. */
  lemma LexAdvances(m: Memory, p: nat)
    requires p < |m|
    ensures LexAt(m, p) == Overrun || Consumes(m, p, LexAt(m, p))
  {
    var c := m[p];
    if IsQuote(c) { LiteralAdvances(m, p); }
    else if IsDigit(c) { ConstantLexed(m, p); ConstantAdvances(m, p); }
    else if IsLetter(c) { IdentifierLexed(m, p); IdentifierAdvances(m, p); }
    else if IsBlank(c) { SpaceLexed(m, p); SpaceAdvances(m, p); }
    else if IsPunctuator(c) { PunctuatorNamed(c); }
  }

  lemma PunctuatorNamed(c: char)
    requires IsPunctuator(c)
    ensures PunctuatorKind(c) != Eof && PunctuatorKind(c) != Unknown
    ensures c != NUL && !IsQuote(c) && c != '/' && c != '*'
  {}

  /** Letters, digits and blanks are nothing else. */
  lemma WordNamed(c: char)
    requires IsLetter(c) || IsDigit(c) || IsBlank(c)
    ensures !IsQuote(c) && !IsPunctuator(c) && c != '/' && c != '*' && c != NUL
    ensures !(IsLetter(c) && IsDigit(c)) && !(IsLetter(c) && IsBlank(c)) && !(IsDigit(c) && IsBlank(c))
  {}

  lemma RunConsumed(m: Memory, p: nat, t: Lexed)
    requires t.Tok? && t.start == p && p < t.next < |m| && t.kind != Eof
    requires t.length == if t.kind == Unknown then 0 else Length32(t.next - p)
    ensures Consumes(m, p, t)
  {}

  /** A loop that stops at the first character of another kind has found the whole run. */
  lemma ConstantFound(m: Memory, p: nat, e: nat)
    requires p <= e < |m| && !IsDigit(m[e]) && forall k :: p <= k < e ==> IsDigit(m[k])
    ensures ConstantAt(m, p) == Tok(Constant, p, Length32(e - p), e)
  {
    SpanEndIs(m, p, IsDigit);
    assert SpanEnd(m, p, IsDigit) == e;
  }

  lemma IdentifierFound(m: Memory, p: nat, e: nat)
    requires p <= e < |m| && !IsIdentChar(m[e]) && forall k :: p <= k < e ==> IsIdentChar(m[k])
    ensures IdentifierAt(m, p) == Tok(if Length32(e - p) == 0 then Unknown else Ident, p, Length32(e - p), e)
  {
    SpanEndIs(m, p, IsIdentChar);
    assert SpanEnd(m, p, IsIdentChar) == e;
  }

  lemma ConstantLexed(m: Memory, p: nat)
    requires p < |m| && IsDigit(m[p])
    ensures LexAt(m, p) == ConstantAt(m, p)
  {
    WordNamed(m[p]);
  }

  lemma ConstantInside(m: Memory, p: nat)
    requires p < |m| && IsDigit(m[p])
    ensures p < SpanEnd(m, p, IsDigit) < |m|
  {
    SpanInside(m, p, IsDigit);
  }

  lemma ConstantAdvances(m: Memory, p: nat)
    requires p < |m| && IsDigit(m[p])
    ensures Consumes(m, p, ConstantAt(m, p))
  {
    ConstantInside(m, p);
    RunConsumed(m, p, ConstantAt(m, p));
  }

  lemma IdentifierLexed(m: Memory, p: nat)
    requires p < |m| && IsLetter(m[p])
    ensures LexAt(m, p) == IdentifierAt(m, p)
  {
    WordNamed(m[p]);
  }

  lemma IdentifierInside(m: Memory, p: nat)
    requires p < |m| && IsLetter(m[p])
    ensures p < SpanEnd(m, p, IsIdentChar) < |m|
  {
    SpanInside(m, p, IsIdentChar);
  }

  lemma IdentifierAdvances(m: Memory, p: nat)
    requires p < |m| && IsLetter(m[p])
    ensures Consumes(m, p, IdentifierAt(m, p))
  {
    IdentifierInside(m, p);
    RunConsumed(m, p, IdentifierAt(m, p));
  }

  lemma SpaceLexed(m: Memory, p: nat)
    requires p < |m| && IsBlank(m[p])
    ensures LexAt(m, p) == SpaceAt(m, p)
  {
    WordNamed(m[p]);
  }

  lemma SpaceInside(m: Memory, p: nat)
    requires p < |m| && IsBlank(m[p])
    ensures p < SpanEnd(m, p, IsBlank) < |m|
  {
    SpanInside(m, p, IsBlank);
  }

  lemma SpaceAdvances(m: Memory, p: nat)
    requires p < |m| && IsBlank(m[p])
    ensures Consumes(m, p, SpaceAt(m, p))
  {
    SpaceInside(m, p);
    RunConsumed(m, p, SpaceAt(m, p));
  }

  lemma LiteralAdvances(m: Memory, p: nat)
    requires p < |m| && IsQuote(m[p])
    ensures LexAt(m, p) == LiteralAt(m, p)
    ensures LiteralAt(m, p) == Overrun || Consumes(m, p, LiteralAt(m, p))
  {
    ScanStopsAtFirst(m, p + 1, m[p]);
  }

  lemma SpanInside(m: Memory, i: nat, p: char -> bool)
    requires i < |m| && p(m[i]) && !p(NUL)
    ensures i < SpanEnd(m, i, p) < |m|
  {
    SpanEndIs(m, i, p);
    assert m[|m| - 1] == NUL;
  }

  // ----- a whole input -----

  datatype Call = Call(from: nat, tok: Lexed)

  /** Calls of lex from `p` up to the first end of file. */
  function Calls(m: Memory, p: nat): (r: seq<Call>)
    ensures |r| > 0 && r[0] == Call(p, LexAt(m, p))
    decreases |m| - p
  {
    var t := LexAt(m, p);
    if t == Overrun || t.kind == Eof || t.next <= p then [Call(p, t)]
    else [Call(p, t)] + Calls(m, t.next)
  }

  ghost predicate Tiles(m: Memory, p: nat, calls: seq<Call>) {
    && |calls| > 0
    && calls[0].from == p
    && (forall k :: 0 <= k < |calls| ==> calls[k].tok.Tok? && calls[k].from < calls[k].tok.next <= |m|)
    && (forall k :: 0 <= k < |calls| ==> (calls[k].tok.kind == Eof <==> k == |calls| - 1))
    && (forall k :: 0 < k < |calls| ==> calls[k - 1].tok.next == calls[k].from)
  }

  /** Where a reader is that knows nothing but quotes, escapes and the end of input. */
  datatype Mode = Outside | Inside(quote: char)

  /** That reader leaves the memory: the last thing it sees is an escape of a literal
      that swallows the terminating NUL. */
  predicate EndsInEscape(m: string, p: nat, mode: Mode)
    decreases |m| - p
  {
    if p >= |m| then true
    else if m[p] == NUL then false
    else match mode
      case Outside => EndsInEscape(m, p + 1, if IsQuote(m[p]) then Inside(m[p]) else Outside)
      case Inside(q) =>
        if m[p] == '\\' then EndsInEscape(m, p + 2, mode)
        else EndsInEscape(m, p + 1, if m[p] == q then Outside else mode)
  }

  /** Inside a literal the reader goes where the scan goes. */
  lemma {:induction false} ReaderFollowsScan(m: string, i: nat, q: char)
    requires q != NUL && q != '\\'
    ensures match ScanQuote(m, i, q)
            case PastEnd => EndsInEscape(m, i, Inside(q))
            case Unterminated(_) => !EndsInEscape(m, i, Inside(q))
            case Closed(e) => EndsInEscape(m, i, Inside(q)) == EndsInEscape(m, e, Outside)
    decreases |m| - i
  {
    if i < |m| {
      if m[i] == '\\' { ReaderFollowsScan(m, i + 2, q); }
      else if m[i] != NUL && m[i] != q { ReaderFollowsScan(m, i + 1, q); }
    }
  }

  lemma {:induction false} ReaderSkips(m: string, i: nat, e: nat)
    requires i <= e <= |m| && forall k :: i <= k < e ==> m[k] != NUL && !IsQuote(m[k])
    ensures EndsInEscape(m, i, Outside) == EndsInEscape(m, e, Outside)
    decreases e - i
  {
    if i < e { ReaderSkips(m, i + 1, e); }
  }

  /** Between two calls the reader is outside of literals. */
  lemma ReaderFollowsCall(m: Memory, p: nat)
    requires p < |m|
    ensures var t := LexAt(m, p);
            if t == Overrun then EndsInEscape(m, p, Outside)
            else if t.kind == Eof then !EndsInEscape(m, p, Outside)
            else EndsInEscape(m, p, Outside) == EndsInEscape(m, t.next, Outside)
  {
    if IsQuote(m[p]) {
      ReaderFollowsScan(m, p + 1, m[p]);
    } else {
      LexAdvances(m, p);
      var t := LexAt(m, p);
      if t.kind != Eof {
        PlainCall(m, p);
        ReaderSkips(m, p, t.next);
      }
    }
  }

  /** Only a literal contains quotes. */
  lemma PlainCall(m: Memory, p: nat)
    requires p < |m| && !IsQuote(m[p]) && LexAt(m, p).Tok? && LexAt(m, p).kind != Eof && LexAt(m, p).next <= |m|
    ensures forall k :: p <= k < LexAt(m, p).next ==> m[k] != NUL && !IsQuote(m[k])
  {
    if IsDigit(m[p]) { ConstantLexed(m, p); SpanEndIs(m, p, IsDigit); }
    else if IsLetter(m[p]) { IdentifierLexed(m, p); SpanEndIs(m, p, IsIdentChar); }
    else if IsBlank(m[p]) { SpaceLexed(m, p); SpanEndIs(m, p, IsBlank); }
    else if IsPunctuator(m[p]) { PunctuatorNamed(m[p]); }
  }

  /** Lexing a whole input leaves the memory exactly when the reader of quotes and
      escapes does. */
  lemma {:induction false} OverrunsIff(m: Memory, p: nat)
    requires p < |m|
    ensures Calls(m, p)[|Calls(m, p)| - 1].tok == Overrun <==> EndsInEscape(m, p, Outside)
    decreases |m| - p
  {
    LexAdvances(m, p);
    ReaderFollowsCall(m, p);
    var t := LexAt(m, p);
    if t != Overrun && t.kind != Eof { OverrunsIff(m, t.next); }
  }

  /** In every other case it reaches the end of file after at most one call per remaining
      character, and the consumed ranges follow each other without a gap. */
  lemma {:induction false} LexingTiles(m: Memory, p: nat)
    requires p < |m|
    ensures |Calls(m, p)| <= |m| - p
    ensures Tiles(m, p, Calls(m, p)) <==> !EndsInEscape(m, p, Outside)
    decreases |m| - p
  {
    OverrunsIff(m, p);
    LexAdvances(m, p);
    var t := LexAt(m, p);
    if t != Overrun && t.kind != Eof {
      LexingTiles(m, t.next);
      ReaderFollowsCall(m, p);
      if Tiles(m, t.next, Calls(m, t.next)) { TilesCons(m, p, t, Calls(m, t.next)); }
    }
  }

  lemma TilesCons(m: Memory, p: nat, t: Lexed, rest: seq<Call>)
    requires t.Tok? && t.kind != Eof && p < t.next && Tiles(m, t.next, rest) && t.next <= |m|
    ensures Tiles(m, p, [Call(p, t)] + rest)
  {
    var calls := [Call(p, t)] + rest;
    assert forall k :: 0 < k < |calls| ==> calls[k] == rest[k - 1];
  }

  /** Without a backslash before the end there is no such escape. */
  lemma {:induction false} NoBackslashBeforeEnd(m: Memory, p: nat, mode: Mode)
    requires p < |m| && (|m| > 1 ==> m[|m| - 2] != '\\')
    ensures !EndsInEscape(m, p, mode)
    decreases |m| - p
  {
    if m[p] != NUL {
      if mode.Inside? && m[p] == '\\' {
        NoBackslashBeforeEnd(m, p + 2, mode);
      } else if mode.Inside? {
        NoBackslashBeforeEnd(m, p + 1, if m[p] == mode.quote then Outside else mode);
      } else {
        NoBackslashBeforeEnd(m, p + 1, if IsQuote(m[p]) then Inside(m[p]) else Outside);
      }
    }
  }
}
