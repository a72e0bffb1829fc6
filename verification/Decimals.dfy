/**
 Decoding a decimal constant with a table of powers of ten, in 32 bits.
 */
module Decimals {
  import opened Lexing
  import opened LexRoundTrip
  import opened Words

  /** The table of powers: nine entries are written, the ninth is ~0U, the tenth is 0. */
  const POW10: seq<nat> := [1, 10, 100, 1000, 10000, 100000, 1000000, 10000000, 4294967295, 0]

  const TABLE_SIZE: nat := 10

  function Weight(k: nat): nat
    requires k < TABLE_SIZE
  {
    POW10[k]
  }

  function Digit(c: char): nat
    requires IsDigit(c)
  {
    c as int - '0' as int
  }

  predicate IsNumber(s: string) {
    forall k :: 0 <= k < |s| ==> IsDigit(s[k])
  }

  /** The value of a digit string, most significant digit first. */
  function Decimal(s: string): nat
    requires IsNumber(s)
  {
    if s == [] then 0 else 10 * Decimal(s[..|s| - 1]) + Digit(s[|s| - 1])
  }

  /** The sum that getConstant forms with the table, before it is cut to 32 bits. */
  function Weighted(s: string): nat
    requires IsNumber(s) && |s| <= TABLE_SIZE
  {
    if s == [] then 0 else Digit(s[0]) * Weight(|s| - 1) + Weighted(s[1..])
  }

  function ConstantValue(s: string): nat
    requires IsNumber(s) && |s| <= TABLE_SIZE
  {
    Weighted(s) % U32
  }

  function Power(k: nat): nat {
    if k == 0 then 1 else 10 * Power(k - 1)
  }

  lemma {:induction false} DecimalFront(s: string)
    requires IsNumber(s) && |s| > 0
    ensures Decimal(s) == Digit(s[0]) * Power(|s| - 1) + Decimal(s[1..])
    decreases |s|
  {
    var n := |s| - 1;
    if n > 0 {
      DecimalFront(s[..n]);
      assert s[1..][..n - 1] == s[..n][1..];
      TimesTen(Digit(s[0]), Power(n - 1));
    }
  }

  lemma TimesTen(a: nat, b: nat)
    ensures a * (10 * b) == 10 * (a * b)
  {}

  lemma {:induction false} DecimalBelowPower(s: string)
    requires IsNumber(s)
    ensures Decimal(s) < Power(|s|)
    decreases |s|
  {
    if s != [] { DecimalBelowPower(s[..|s| - 1]); }
  }

  lemma {:induction false} PowerTable(k: nat)
    requires k < 10
    ensures Power(k) == [1, 10, 100, 1000, 10000, 100000, 1000000, 10000000, 100000000, 1000000000][k]
  {
    if k > 0 { PowerTable(k - 1); }
  }

  /** Up to eight digits every weight in the table is the right one. */
  lemma {:induction false} ShortConstant(s: string)
    requires IsNumber(s) && |s| <= 8
    ensures Weighted(s) == Decimal(s) < 100000000
    decreases |s|
  {
    DecimalBelowPower(s);
    PowerTable(|s|);
    if s != [] {
      PowerTable(|s| - 1);
      assert Weight(|s| - 1) == Power(|s| - 1);
      DecimalFront(s);
      ShortConstant(s[1..]);
    }
  }

  /** The decoded value is the decimal value exactly when that is below 10^8; past
      eight digits the table weighs a leading non-zero digit wrongly. */
  lemma ConstantValueIff(s: string)
    requires IsNumber(s) && |s| <= TABLE_SIZE
    ensures ConstantValue(s) == Decimal(s) <==> Decimal(s) < 100000000
  {
    if |s| <= 8 {
      ShortConstant(s);
    } else if |s| == 9 {
      var d, r := NineDigits(s);
      NoCoincidence(0, d, r);
    } else {
      TenDigits(s);
    }
  }

  /** The smallest constant that comes out wrong: 10^8 is decoded as the sentinel. */
  lemma NinthDigitDecodedWrongly()
    ensures IsNumber("100000000") && Decimal("100000000") == 100000000 && ConstantValue("100000000") == U32 - 1
  {
    var s := "100000000";
    var zeros := s[1..];
    DecimalFront(s);
    PowerTable(8);
    Zeros(zeros);
    ShortConstant(zeros);
    assert Weighted(s) == U32 - 1;
  }

  lemma {:induction false} Zeros(s: string)
    requires forall k :: 0 <= k < |s| ==> s[k] == '0'
    ensures Decimal(s) == 0
    decreases |s|
  {
    if s != [] { Zeros(s[..|s| - 1]); }
  }

  /** With ten digits the first counts nothing. */
  lemma TenDigits(s: string)
    requires IsNumber(s) && |s| == 10
    ensures ConstantValue(s) == ConstantValue(s[1..])
    ensures ConstantValue(s) == Decimal(s) <==> Decimal(s) < 100000000
  {
    DecimalFront(s);
    PowerTable(9);
    var d, r := NineDigits(s[1..]);
    assert Weight(9) == 0;
    assert Weighted(s) == Weighted(s[1..]);
    NoCoincidence(Digit(s[0]), d, r);
  }

  lemma NoCoincidence(c: nat, d: nat, r: nat)
    requires c <= 9 && d <= 9 && r < 100000000
    ensures (if d <= r then r - d else 4294967296 + r - d) == c * 1000000000 + (d * 100000000 + r) <==> c == 0 && d == 0
  {}

  /** The ninth digit from the right counts -1 instead of 10^8. */
  lemma NineDigits(s: string) returns (d: nat, r: nat)
    requires IsNumber(s) && |s| == 9
    ensures d <= 9 && r < 100000000 && Decimal(s) == d * 100000000 + r
    ensures Weighted(s) % U32 == if d <= r then r - d else 4294967296 + r - d
  {
    DecimalFront(s);
    PowerTable(8);
    ShortConstant(s[1..]);
    d, r := Digit(s[0]), Decimal(s[1..]);
    assert Weighted(s) == d * 4294967295 + r;
    if d <= r {
      WrapsTo(d * 4294967295 + r, d, r - d);
    } else {
      WrapsTo(d * 4294967295 + r, d - 1, 4294967296 + r - d);
    }
  }

  lemma WrapsTo(n: nat, q: nat, r: nat)
    requires n == q * 4294967296 + r && r < 4294967296
    ensures n % U32 == r
  {}

  function Print(v: nat): string {
    if v < 10 then [(v + '0' as int) as char] else Print(v / 10) + [(v % 10 + '0' as int) as char]
  }

  lemma {:induction false} DecimalOfPrint(v: nat)
    ensures |Print(v)| > 0 && IsNumber(Print(v)) && Decimal(Print(v)) == v
    ensures forall k: nat :: 0 < k < 10 && v < Power(k) ==> |Print(v)| <= k
    decreases v
  {
    if v < 10 {
      assert Decimal(Print(v)[..0]) == 0;
    } else {
      DecimalOfPrint(v / 10);
      var s := Print(v);
      assert s[..|s| - 1] == Print(v / 10);
      forall k: nat | 0 < k < 10 && v < Power(k) ensures |s| <= k {
        assert Power(k) == 10 * Power(k - 1);
        assert v / 10 < Power(k - 1);
        assert k != 1 by { assert Power(0) == 1; }
      }
    }
  }

  /** Printing a number below 10^8, lexing it and decoding the token gives it back. */
  lemma PrintLexDecode(v: nat)
    requires v < 100000000
    ensures IsNumber(Print(v)) && |Print(v)| <= 8 && ConstantValue(Print(v)) == v
    ensures LexAt(Print(v) + [NUL], 0) == Tok(Constant, 0, |Print(v)|, |Print(v)|)
  {
    DecimalOfPrint(v);
    PowerTable(8);
    ConstantValueIff(Print(v));
    var m: Memory := Print(v) + [NUL];
    LexConstant(m, 0, Piece(Constant, Print(v)));
  }

  /** At a digit the lexer returns a constant whose text is all digits; up to ten of them
      it decodes to its decimal value exactly when that is below 10^8, so always when there
      are at most eight. */
  lemma LexedConstant(m: Memory, p: nat)
    requires p < |m| && IsDigit(m[p])
    ensures var t := LexAt(m, p);
            && t.Tok? && t.kind == Constant && t.start == p && p + t.length <= |m|
            && var text := m[p..p + t.length];
            && IsNumber(text)
            && (t.length <= TABLE_SIZE ==> (ConstantValue(text) == Decimal(text) <==> Decimal(text) < 100000000))
            && (t.length <= 8 ==> ConstantValue(text) == Decimal(text))
  {
    SpanInside(m, p, IsDigit);
    SpanEndIs(m, p, IsDigit);
    ConstantLexed(m, p);
    var t := ConstantAt(m, p);
    assert t.length <= t.next - p;
    var text := m[p..p + t.length];
    assert forall k :: 0 <= k < |text| ==> text[k] == m[p + k];
    if t.length <= TABLE_SIZE { ConstantValueIff(text); }
    if t.length <= 8 { ShortConstant(text); }
  }

  lemma AddWraps(a: nat, b: nat)
    ensures (a % U32 + b) % U32 == (a + b) % U32
  {}

  /** Before turn `i` of the loop in getConstant: what is summed plus what is left. */
  ghost predicate SumAt(s: string, i: nat, sum: nat)
    requires IsNumber(s) && i <= |s| <= TABLE_SIZE
  {
    sum < U32 && (sum + Weighted(s[i..])) % U32 == ConstantValue(s)
  }

  function Added(sum: nat, c: char, weight: nat): nat
    requires IsDigit(c)
  {
    (sum + Digit(c) * weight) % U32
  }

  lemma SumStep(s: string, i: nat, sum: nat)
    requires IsNumber(s) && i < |s| <= TABLE_SIZE && SumAt(s, i, sum)
    ensures SumAt(s, i + 1, Added(sum, s[i], Weight(|s| - i - 1)))
  {
    var d := Digit(s[i]) * Weight(|s| - i - 1);
    assert s[i..][1..] == s[i + 1..];
    assert Weighted(s[i..]) == d + Weighted(s[i + 1..]);
    AddWraps(sum + d, Weighted(s[i + 1..]));
  }

  lemma SumStarts(s: string)
    requires IsNumber(s) && |s| <= TABLE_SIZE
    ensures SumAt(s, 0, 0)
  {
    assert s[0..] == s;
  }

  lemma SumEnds(s: string, sum: nat)
    requires IsNumber(s) && |s| <= TABLE_SIZE && SumAt(s, |s|, sum)
    ensures sum == ConstantValue(s)
  {
    assert s[|s|..] == "";
  }
}
