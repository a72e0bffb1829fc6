/**
 Printing a list of tokens and lexing it again.
 */
module LexRoundTrip {
  import opened Lexing
  import opened Words

  datatype Piece = Piece(kind: TokenKind, text: string)

  const EOF_PIECE := Piece(Eof, [NUL])

  predicate IsSpan(s: string, p: char -> bool) {
    |s| > 0 && forall k :: 0 <= k < |s| ==> p(s[k])
  }

  /** Texts that are one token of their kind. */
  predicate WellFormed(t: Piece) {
    && |t.text| > 0
    && match t.kind
       case Constant => IsSpan(t.text, IsDigit)
       case Ident => IsSpan(t.text, IsIdentChar) && IsLetter(t.text[0])
       case Space => IsSpan(t.text, IsBlank)
       case StringLit => t.text[0] == '"' && ScanQuote(t.text, 1, '"') == Closed(|t.text|)
       case CharLit => t.text[0] == '\'' && ScanQuote(t.text, 1, '\'') == Closed(|t.text|)
       case _ => t.text == Spelled(t.kind)
  }

  /** Neighbours that the lexer cannot tell from one longer token. */
  predicate Merges(a: Piece, b: Piece) {
    match a.kind
    case Ident => b.kind == Ident || b.kind == Constant
    case Constant => b.kind == Constant
    case Space => b.kind == Space
    case Slash => b.kind in {Slash, Comment, LComment, Asterik, RComment}
    case Asterik => b.kind in {Slash, Comment, LComment}
    case _ => false
  }

  predicate Separated(ts: seq<Piece>) {
    |ts| < 2 || (!Merges(ts[0], ts[1]) && Separated(ts[1..]))
  }

  function Render(ts: seq<Piece>): string {
    if ts == [] then [NUL] else ts[0].text + Render(ts[1..])
  }

  /** Kind and text of every token that a lexer returns from `p` on, up to the end of file. */
  function Stream(lex: nat -> Lexed, m: string, p: nat): seq<Piece>
    decreases |m| - p
  {
    var t := lex(p);
    if t == Overrun || t.start + t.length > |m| then [] else
    var piece := Piece(t.kind, m[t.start..t.start + t.length]);
    if t.kind == Eof || t.next <= p || p >= |m| then [piece] else [piece] + Stream(lex, m, t.next)
  }

  function LexerOf(m: Memory): nat -> Lexed {
    (p: nat) => LexAt(m, p)
  }

  /** The next character that would make the token longer. */
  predicate Extends(t: Piece, c: char) {
    match t.kind
    case Ident => IsIdentChar(c)
    case Constant => IsDigit(c)
    case Space => IsBlank(c)
    case Slash => c == '/' || c == '*'
    case Asterik => c == '/'
    case _ => false
  }

  lemma MergesByFirstCharacter(a: Piece, b: Piece)
    requires WellFormed(b)
    ensures Merges(a, b) <==> Extends(a, b.text[0])
  {
    if IsPunctuator(b.text[0]) { PunctuatorNamed(b.text[0]); }
  }

  lemma {:induction false} SpanSkips(m: string, i: nat, e: nat, p: char -> bool)
    requires i <= e <= |m| && forall k :: i <= k < e ==> p(m[k])
    ensures SpanEnd(m, i, p) == SpanEnd(m, e, p)
    decreases e - i
  {
    if i < e { SpanSkips(m, i + 1, e, p); }
  }

  lemma {:induction false} ScanShift(s: string, i: nat, q: char, m: string, p: nat)
    requires p + |s| <= |m| && m[p..p + |s|] == s && ScanQuote(s, i, q).Closed?
    ensures ScanQuote(m, p + i, q) == Closed(p + ScanQuote(s, i, q).end)
    decreases |s| - i
  {
    assert m[p + i] == m[p..p + |s|][i] == s[i];
    if s[i] == '\\' { ScanShift(s, i + 2, q, m, p); }
    else if s[i] != NUL && s[i] != q { ScanShift(s, i + 1, q, m, p); }
  }

  /** `t` stands in the memory at `p`, and something follows it. */
  predicate StandsAt(m: Memory, p: nat, t: Piece) {
    p + |t.text| < |m| && m[p..p + |t.text|] == t.text
  }

  lemma AtChar(m: Memory, p: nat, t: Piece, k: nat)
    requires StandsAt(m, p, t) && k < |t.text|
    ensures m[p + k] == t.text[k]
  {
    assert m[p + k] == m[p..p + |t.text|][k];
  }

  /** The token read at `p` is `t`, or `t` is extended by what follows it. */
  predicate ReadsAs(m: Memory, p: nat, t: Piece)
    requires StandsAt(m, p, t)
  {
    var r := LexAt(m, p);
    if Extends(t, m[p + |t.text|])
    then r.Tok? && r.start == p && (r.kind != t.kind || r.length > |t.text|)
    else r == Tok(t.kind, p, |t.text|, p + |t.text|)
  }

  lemma LexSpan(m: Memory, p: nat, t: Piece, inClass: char -> bool)
    requires WellFormed(t) && StandsAt(m, p, t) && |m| <= U32 && !inClass(NUL) && IsSpan(t.text, inClass)
    ensures var e := SpanEnd(m, p, inClass);
            p + |t.text| <= e < |m| && (e == p + |t.text| <==> !inClass(m[p + |t.text|]))
  {
    forall k | p <= k < p + |t.text| ensures inClass(m[k]) { AtChar(m, p, t, k - p); }
    SpanSkips(m, p, p + |t.text|, inClass);
    SpanInside(m, p, inClass);
  }

  lemma LexConstant(m: Memory, p: nat, t: Piece)
    requires WellFormed(t) && StandsAt(m, p, t) && |m| <= U32 && t.kind == Constant
    ensures ReadsAs(m, p, t)
  {
    AtChar(m, p, t, 0);
    LexSpan(m, p, t, IsDigit);
  }

  lemma LexIdentifier(m: Memory, p: nat, t: Piece)
    requires WellFormed(t) && StandsAt(m, p, t) && |m| <= U32 && t.kind == Ident
    ensures ReadsAs(m, p, t)
  {
    AtChar(m, p, t, 0);
    LexSpan(m, p, t, IsIdentChar);
  }

  lemma LexSpace(m: Memory, p: nat, t: Piece)
    requires WellFormed(t) && StandsAt(m, p, t) && |m| <= U32 && t.kind == Space
    ensures ReadsAs(m, p, t)
  {
    AtChar(m, p, t, 0);
    LexSpan(m, p, t, IsBlank);
  }

  lemma LexLiteral(m: Memory, p: nat, t: Piece)
    requires WellFormed(t) && StandsAt(m, p, t) && |m| <= U32 && (t.kind == StringLit || t.kind == CharLit)
    ensures ReadsAs(m, p, t)
  {
    AtChar(m, p, t, 0);
    ScanShift(t.text, 1, t.text[0], m, p);
  }

  lemma LexFixed(m: Memory, p: nat, t: Piece)
    requires WellFormed(t) && StandsAt(m, p, t)
    requires t.kind == Comment || t.kind == LComment || t.kind == RComment || t.kind == Slash || t.kind == Asterik
    ensures ReadsAs(m, p, t)
  {
    AtChar(m, p, t, 0);
    AtChar(m, p, t, |t.text| - 1);
  }

  lemma LexPunctuator(m: Memory, p: nat, t: Piece)
    requires WellFormed(t) && StandsAt(m, p, t)
    requires t.text == Spelled(t.kind) && |t.text| == 1 && !t.kind.Slash? && !t.kind.Asterik?
    ensures ReadsAs(m, p, t)
  {
    AtChar(m, p, t, 0);
    SpelledIsPunctuator(t.kind);
    PunctuatorNamed(t.text[0]);
  }

  /** A well-formed text is read back as its own token unless the next character extends it. */
  lemma LexOne(m: Memory, p: nat, t: Piece)
    requires WellFormed(t) && StandsAt(m, p, t) && |m| <= U32
    ensures ReadsAs(m, p, t)
  {
    match t.kind
    case Constant => LexConstant(m, p, t);
    case Ident => LexIdentifier(m, p, t);
    case Space => LexSpace(m, p, t);
    case StringLit => LexLiteral(m, p, t);
    case CharLit => LexLiteral(m, p, t);
    case Comment => LexFixed(m, p, t);
    case LComment => LexFixed(m, p, t);
    case RComment => LexFixed(m, p, t);
    case Slash => LexFixed(m, p, t);
    case Asterik => LexFixed(m, p, t);
    case _ => LexPunctuator(m, p, t);
  }

  ghost predicate AllWellFormed(ts: seq<Piece>) {
    forall k :: 0 <= k < |ts| ==> WellFormed(ts[k])
  }

  predicate ReadsText(lex: nat -> Lexed, m: string, p: nat, t: Piece) {
    && p + |t.text| < |m| && m[p..p + |t.text|] == t.text && |t.text| > 0 && t.kind != Eof
    && lex(p) == Tok(t.kind, p, |t.text|, p + |t.text|)
  }

  predicate MisreadsText(lex: nat -> Lexed, p: nat, t: Piece) {
    lex(p).Tok? && lex(p).start == p && (lex(p).kind != t.kind || lex(p).length > |t.text|)
  }

  /** The lexer returns each text in turn, then the end of file. */
  predicate ReadsAll(lex: nat -> Lexed, m: string, p: nat, ts: seq<Piece>)
    decreases |ts|
  {
    if ts == [] then p < |m| && m[p] == NUL && lex(p) == Tok(Eof, p, 1, p + 1)
    else ReadsText(lex, m, p, ts[0]) && ReadsAll(lex, m, p + |ts[0].text|, ts[1..])
  }

  /** The lexer returns the first few texts, then a token that is not the next one. */
  predicate Misreads(lex: nat -> Lexed, m: string, p: nat, ts: seq<Piece>)
    decreases |ts|
  {
    ts != [] && (MisreadsText(lex, p, ts[0])
      || (ReadsText(lex, m, p, ts[0]) && Misreads(lex, m, p + |ts[0].text|, ts[1..])))
  }

  lemma {:induction false} StreamOfReads(lex: nat -> Lexed, m: string, p: nat, ts: seq<Piece>)
    requires ReadsAll(lex, m, p, ts)
    ensures Stream(lex, m, p) == ts + [EOF_PIECE]
    decreases |ts|
  {
    if ts == [] {
      assert m[p..p + 1] == [NUL];
    } else {
      StreamOfReads(lex, m, p + |ts[0].text|, ts[1..]);
    }
  }

  lemma {:induction false} StreamOfMisread(lex: nat -> Lexed, m: string, p: nat, ts: seq<Piece>)
    requires Misreads(lex, m, p, ts)
    ensures Stream(lex, m, p) != ts + [EOF_PIECE]
    decreases |ts|
  {
    var whole := ts + [EOF_PIECE];
    assert whole[0] == ts[0];
    if !MisreadsText(lex, p, ts[0]) {
      StreamOfMisread(lex, m, p + |ts[0].text|, ts[1..]);
      assert whole[1..] == ts[1..] + [EOF_PIECE];
      assert Stream(lex, m, p)[1..] == Stream(lex, m, p + |ts[0].text|);
    }
  }

  ghost predicate ReadsToken(lex: nat -> Lexed, m: Memory, q: nat, t: Piece)
    requires StandsAt(m, q, t)
  {
    if Extends(t, m[q + |t.text|]) then MisreadsText(lex, q, t) else ReadsText(lex, m, q, t)
  }

  /** What `LexOne` says, of any lexer: a text that stands in the memory is read,
      unless the next character extends it; a NUL is the end of file. */
  ghost predicate ReadsTokens(lex: nat -> Lexed, m: Memory) {
    && (forall q: nat, t :: WellFormed(t) && StandsAt(m, q, t) ==> ReadsToken(lex, m, q, t))
    && (forall q: nat :: q < |m| && m[q] == NUL ==> lex(q) == Tok(Eof, q, 1, q + 1))
  }

  lemma LexerReadsTokens(m: Memory)
    requires |m| <= U32
    ensures ReadsTokens(LexerOf(m), m)
  {
    var lex := LexerOf(m);
    forall q: nat, t | WellFormed(t) && StandsAt(m, q, t)
      ensures ReadsToken(lex, m, q, t)
    {
      LexOne(m, q, t);
      KindNotEof(t);
    }
  }

  lemma FirstRead(lex: nat -> Lexed, m: Memory, p: nat, ts: seq<Piece>)
    requires ReadsTokens(lex, m) && AllWellFormed(ts) && ts != [] && StandsAt(m, p, ts[0])
    ensures ReadsToken(lex, m, p, ts[0]) && AllWellFormed(ts[1..])
  {
    assert WellFormed(ts[0]);
  }

  lemma {:induction false} SeparatedReadsAll(lex: nat -> Lexed, m: Memory, p: nat, ts: seq<Piece>)
    requires ReadsTokens(lex, m) && AllWellFormed(ts) && p <= |m| && m[p..] == Render(ts)
    ensures if Separated(ts) then ReadsAll(lex, m, p, ts) else Misreads(lex, m, p, ts)
    decreases |ts|
  {
    if ts == [] {
      assert m[p] == m[p..][0];
    } else {
      RenderSplit(m, p, ts);
      SeparatedCons(ts);
      FirstRead(lex, m, p, ts);
      if !Extends(ts[0], m[p + |ts[0].text|]) { SeparatedReadsAll(lex, m, p + |ts[0].text|, ts[1..]); }
    }
  }

  lemma RenderSplit(m: Memory, p: nat, ts: seq<Piece>)
    requires AllWellFormed(ts) && ts != [] && p <= |m| && m[p..] == Render(ts)
    ensures StandsAt(m, p, ts[0])
    ensures var e := p + |ts[0].text|; m[e..] == Render(ts[1..]) && m[e] == FirstCharacter(ts[1..])
  {
    var t, rest := ts[0], ts[1..];
    var e := p + |t.text|;
    RenderFirst(rest);
    assert m[p..] == t.text + Render(rest);
    assert m[p..][|t.text|..] == Render(rest);
    assert m[e..] == m[p..][|t.text|..];
    assert m[p..e] == m[p..][..|t.text|];
    assert m[e] == m[e..][0];
  }

  function FirstCharacter(ts: seq<Piece>): char {
    if ts == [] || ts[0].text == [] then NUL else ts[0].text[0]
  }

  lemma RenderFirst(ts: seq<Piece>)
    requires AllWellFormed(ts)
    ensures |Render(ts)| > 0 && Render(ts)[0] == FirstCharacter(ts)
  {
    if ts != [] { assert WellFormed(ts[0]); }
  }

  lemma KindNotEof(t: Piece)
    requires WellFormed(t)
    ensures t.kind != Eof
  {
    if IsPunctuator(t.text[0]) { PunctuatorNamed(t.text[0]); }
  }

  lemma SeparatedCons(ts: seq<Piece>)
    requires AllWellFormed(ts) && ts != []
    ensures Separated(ts) <==> !Extends(ts[0], FirstCharacter(ts[1..])) && Separated(ts[1..])
  {
    var rest := ts[1..];
    if rest != [] {
      assert WellFormed(rest[0]);
      MergesByFirstCharacter(ts[0], rest[0]);
    }
  }

  lemma {:induction false} RenderEndsInNul(ts: seq<Piece>)
    ensures |Render(ts)| > 0 && Render(ts)[|Render(ts)| - 1] == NUL
    decreases |ts|
  {
    if ts != [] { RenderEndsInNul(ts[1..]); }
  }

  /** Printing a list of tokens and lexing it again gives the same kinds and texts,
      then the end of file, exactly when no two neighbours merge. */
  lemma PrintLexRoundTrip(ts: seq<Piece>)
    requires AllWellFormed(ts) && |Render(ts)| <= U32
    ensures |Render(ts)| > 0 && Render(ts)[|Render(ts)| - 1] == NUL
    ensures Stream(LexerOf(Render(ts)), Render(ts), 0) == ts + [EOF_PIECE] <==> Separated(ts)
  {
    RenderEndsInNul(ts);
    var m: Memory := Render(ts);
    LexerReadsTokens(m);
    ReadBackIff(LexerOf(m), m, ts);
  }

  lemma ReadBackIff(lex: nat -> Lexed, m: Memory, ts: seq<Piece>)
    requires ReadsTokens(lex, m) && AllWellFormed(ts) && m == Render(ts)
    ensures Stream(lex, m, 0) == ts + [EOF_PIECE] <==> Separated(ts)
  {
    assert m[0..] == m;
    SeparatedReadsAll(lex, m, 0, ts);
    if Separated(ts) { StreamOfReads(lex, m, 0, ts); } else { StreamOfMisread(lex, m, 0, ts); }
  }
}
