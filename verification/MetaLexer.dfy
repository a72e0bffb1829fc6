/**
 Token and MetaLexer: the cursor and the token are changed in place, and every
 call is the one described in `Lexing` and `Decimals`.
 */
module MetaLexer {
  import opened Lexing
  import opened Decimals
  import opened Words

  datatype Decoded = OutsideTable | Value(value: nat)

  class Token {
    var kind: TokenKind
    var bufStart: nat
    var length: nat
    var value: nat

    constructor ()
      ensures kind == Unknown && length == 0 && value == U32 - 1
    {
      kind, bufStart, length, value := Unknown, 0, 0, U32 - 1;
    }

    method StartToken(pos: nat)
      modifies this
      ensures kind == Unknown && bufStart == pos && length == 0 && value == U32 - 1
    {
      kind := Unknown;
      bufStart := pos;
      length := 0;
      value := U32 - 1;
    }

    /** Same token as `t`, not decoded yet. */
    ghost predicate Holds(t: Lexed)
      reads this
    {
      t.Tok? && kind == t.kind && bufStart == t.start && length == t.length && value == U32 - 1
    }

    ghost function Text(m: Memory): string
      reads this
      requires bufStart + length <= |m|
    {
      m[bufStart..bufStart + length]
    }

    /** The memoised value is either still the sentinel or already the value. */
    ghost predicate Decodable(m: Memory)
      reads this
    {
      && kind == Constant && bufStart + length <= |m| && IsNumber(Text(m))
      && (value == U32 - 1 || (length <= TABLE_SIZE && value == ConstantValue(Text(m))))
    }

    method GetConstant(m: Memory) returns (r: Decoded)
      requires Decodable(m)
      modifies this`value
      ensures length <= TABLE_SIZE ==> r == Value(ConstantValue(Text(m))) && value == r.value && Decodable(m)
      ensures length > TABLE_SIZE ==> r == OutsideTable
    {
      r := Value(value);
      if value == U32 - 1 {
        r := SumDigits(m[bufStart..bufStart + length]);
        if r.Value? {
          value := r.value;
        }
      }
    }
  }

  /** A constant that the lexer left in the token can be decoded, and a short one has its
      decimal value. */
  lemma LexedIsDecodable(token: Token, m: Memory, p: nat)
    requires token.Holds(LexAt(m, p)) && token.kind == Constant
    ensures token.Decodable(m)
    ensures token.length <= 8 ==> ConstantValue(token.Text(m)) == Decimal(token.Text(m))
  {
    ConstantStartsWithDigit(m, p);
    LexedConstant(m, p);
  }

  lemma ConstantStartsWithDigit(m: Memory, p: nat)
    requires LexAt(m, p).Tok? && LexAt(m, p).kind == Constant
    ensures p < |m| && IsDigit(m[p])
  {}

  /** The loop of getConstant, over the characters of the token. */
  method SumDigits(s: string) returns (r: Decoded)
    requires IsNumber(s)
    ensures r == if |s| <= TABLE_SIZE then Value(ConstantValue(s)) else OutsideTable
  {
    if |s| > TABLE_SIZE {
      return OutsideTable;
    }
    var sum: nat := 0;
    SumStarts(s);
    for i := 0 to |s|
      invariant SumAt(s, i, sum)
    {
      SumStep(s, i, sum);
      sum := Added(sum, s[i], Weight(|s| - i - 1));
    }
    SumEnds(s, sum);
    return Value(sum);
  }

  class Lexer {
    const mem: Memory
    var curPos: nat

    constructor (input: string, skipWs: bool)
      ensures mem == input + [NUL]
      ensures curPos == if skipWs then SpanEnd(mem, 0, IsBlank) else 0
    {
      mem := input + [NUL];
      curPos := 0;
      new;
      if skipWs {
        SkipWhiteSpace();
      }
    }

    method SkipWhiteSpace()
      requires curPos < |mem|
      modifies this
      ensures curPos == SpanEnd(mem, old(curPos), IsBlank) < |mem|
    {
      var ch := mem[curPos];
      while IsBlank(ch) && ch != NUL
        invariant curPos < |mem| && ch == mem[curPos]
        invariant SpanEnd(mem, curPos, IsBlank) == SpanEnd(mem, old(curPos), IsBlank)
        decreases |mem| - curPos
      {
        curPos := curPos + 1;
        ch := mem[curPos];
      }
    }

    /** lex: true if the call stayed inside the memory. */
    method Lex(token: Token) returns (ok: bool)
      modifies this, token
      ensures ok == LexAt(mem, old(curPos)).Tok?
      ensures ok ==> token.Holds(LexAt(mem, old(curPos))) && curPos == LexAt(mem, old(curPos)).next
    {
      if curPos >= |mem| {
        return false;
      }
      token.StartToken(curPos);
      var ch := mem[curPos];
      curPos := curPos + 1;
      ok := true;
      if IsQuote(ch) {
        ok := LexQuotedStringAndAdvance(token);
      } else if IsPunctuator(ch) {
        PunctuatorNamed(ch);
        LexPunctuatorAt(curPos - 1, token);
      } else if ch == '/' || ch == '*' {
        LexSlashOrAsterik(ch, token);
      } else if IsDigit(ch) {
        LexConstantFrom(ch, token);
      } else if IsLetter(ch) {
        LexIdentifierFrom(ch, token);
      } else if IsBlank(ch) {
        LexWhitespace(token);
      } else if ch == NUL {
        LexEndOfFile(ch, token);
      }
    }

    /** The cases of the switch that look one character ahead for a comment. */
    method LexSlashOrAsterik(ch: char, token: Token)
      requires 0 < curPos < |mem| && ch == mem[curPos - 1] && (ch == '/' || ch == '*')
      requires token.kind == Unknown && token.bufStart == curPos - 1 && token.value == U32 - 1
      modifies this, token
      ensures token.Holds(SlashOrAsterikAt(mem, old(curPos) - 1))
      ensures curPos == SlashOrAsterikAt(mem, old(curPos) - 1).next
    {
      if ch == '/' {
        if mem[curPos] == '/' || mem[curPos] == '*' {
          token.kind := if mem[curPos] == '/' then Comment else LComment;
          curPos := curPos + 1;
          token.length := 2;
        } else {
          LexPunctuatorAt(curPos - 1, token);
        }
      } else {
        if mem[curPos] == '/' {
          curPos := curPos + 1;
          token.kind := RComment;
          token.length := 2;
        } else {
          LexPunctuatorAt(curPos - 1, token);
        }
      }
    }

    method LexPunctuatorAt(ch: nat, token: Token)
      requires ch < |mem|
      modifies token
      ensures token.bufStart == ch && token.value == U32 - 1 && token.kind == PunctuatorKind(mem[ch])
      ensures token.length == if token.kind == Eof || token.kind == Unknown then 0 else 1
    {
      token.StartToken(ch);
      token.length := 1;
      token.kind := PunctuatorKind(mem[ch]);
      if token.kind == Eof || token.kind == Unknown {
        token.length := 0;
      }
    }

    /** lexQuotedStringAndAdvance, entered just after the opening quote. */
    method LexQuotedStringAndAdvance(token: Token) returns (ok: bool)
      requires 0 < curPos <= |mem| && IsQuote(mem[curPos - 1])
      requires token.value == U32 - 1
      modifies this, token
      ensures ok == LiteralAt(mem, old(curPos) - 1).Tok?
      ensures ok ==> token.Holds(LiteralAt(mem, old(curPos) - 1)) && curPos == LiteralAt(mem, old(curPos) - 1).next
    {
      token.kind := if mem[curPos - 1] == '"' then StringLit else CharLit;
      token.bufStart := curPos - 1;
      ghost var all := ScanQuote(mem, curPos, mem[curPos - 1]);
      while true
        invariant token.bufStart == old(curPos) - 1 < curPos && token.value == U32 - 1
        invariant token.kind == if mem[old(curPos) - 1] == '"' then StringLit else CharLit
        invariant ScanQuote(mem, curPos, mem[token.bufStart]) == all
        decreases |mem| - curPos
      {
        if curPos >= |mem| {
          return false;
        }
        if mem[curPos] == '\\' {
          curPos := curPos + 2;
          continue;
        }
        if mem[curPos] == NUL {
          token.bufStart := curPos;
          token.kind := Eof;
          token.length := 0;
          return true;
        }
        curPos := curPos + 1;
        if mem[curPos - 1] == mem[token.bufStart] {
          token.length := Length32(curPos - token.bufStart);
          return true;
        }
      }
    }

    method LexConstantFrom(first: char, token: Token)
      requires 0 < curPos < |mem| && first == mem[curPos - 1] && IsDigit(first)
      requires token.bufStart == curPos - 1 && token.value == U32 - 1
      modifies this, token`kind, token`length
      ensures token.Holds(ConstantAt(mem, old(curPos) - 1)) && curPos == ConstantAt(mem, old(curPos) - 1).next
    {
      var ch := first;
      while IsDigit(ch)
        invariant 0 < curPos <= |mem| && ch == mem[curPos - 1] && token.bufStart < curPos
        invariant forall k :: token.bufStart <= k < curPos - 1 ==> IsDigit(mem[k])
        decreases |mem| - curPos
      {
        ch := mem[curPos];
        curPos := curPos + 1;
      }
      curPos := curPos - 1;
      ConstantFound(mem, token.bufStart, curPos);
      token.length := Length32(curPos - token.bufStart);
      token.kind := Constant;
    }

    method LexIdentifierFrom(first: char, token: Token)
      requires 0 < curPos < |mem| && first == mem[curPos - 1] && IsLetter(first)
      requires token.bufStart == curPos - 1 && token.kind == Unknown && token.value == U32 - 1
      modifies this, token`kind, token`length
      ensures token.Holds(IdentifierAt(mem, old(curPos) - 1)) && curPos == IdentifierAt(mem, old(curPos) - 1).next
    {
      var ch := first;
      while IsIdentChar(ch)
        invariant 0 < curPos <= |mem| && ch == mem[curPos - 1] && token.bufStart < curPos
        invariant token.kind == Unknown
        invariant forall k :: token.bufStart <= k < curPos - 1 ==> IsIdentChar(mem[k])
        decreases |mem| - curPos
      {
        ch := mem[curPos];
        curPos := curPos + 1;
      }
      curPos := curPos - 1;
      IdentifierFound(mem, token.bufStart, curPos);
      token.length := Length32(curPos - token.bufStart);
      if token.length != 0 {
        token.kind := Ident;
      }
    }

    method LexEndOfFile(ch: char, token: Token)
      modifies token`kind, token`length
      ensures ch == NUL ==> token.kind == Eof && token.length == 1
      ensures ch != NUL ==> token.kind == old(token.kind) && token.length == old(token.length)
    {
      if ch == NUL {
        token.kind := Eof;
        token.length := 1;
      }
    }

    method LexWhitespace(token: Token)
      requires 0 < curPos < |mem| && IsBlank(mem[curPos - 1])
      requires token.bufStart == curPos - 1 && token.value == U32 - 1
      modifies this, token`kind, token`length
      ensures token.Holds(SpaceAt(mem, old(curPos) - 1)) && curPos == SpaceAt(mem, old(curPos) - 1).next
    {
      SkipWhiteSpace();
      token.length := Length32(curPos - token.bufStart);
      token.kind := Space;
    }
  }
}
