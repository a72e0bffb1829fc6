/**
 The round-robin cache in front of the page validity check, and the masking of
 an address down to its page. Addresses are 64-bit words.
 */
module PointerCheck {
  import opened Words

  const LINES: nat := 8

  type Word = n: nat | n < U64

  const NULL: Word := 0

  // ----- pages -----

  function Power(k: nat): nat {
    if k == 0 then 1 else 2 * Power(k - 1)
  }

  ghost predicate PowerOfTwo(n: nat) {
    exists k: nat :: n == Power(k)
  }

  /** Bitwise conjunction of two words. */
  function And(a: nat, b: nat): nat {
    if a == 0 then 0 else 2 * And(a / 2, b / 2) + (a % 2) * (b % 2)
  }

  lemma {:induction false} HalvingKeepsPower(n: nat)
    requires n > 1 && n % 2 == 0
    ensures PowerOfTwo(n) <==> PowerOfTwo(n / 2)
  {
    if PowerOfTwo(n) {
      var k: nat :| n == Power(k);
      assert n / 2 == Power(k - 1);
    }
    if PowerOfTwo(n / 2) {
      var k: nat :| n / 2 == Power(k);
      assert n == Power(k + 1);
    }
  }

  lemma OddIsNoPower(m: nat)
    requires m != 1 && (m % 2 == 1 || m == 0)
    ensures !PowerOfTwo(m)
  {
    forall k: nat ensures m != Power(k) { PowerMonotone(0, k); }
  }

  /** The shift loop decides powers of two, for every word. */
  method IsPowerOfTwo(n: Word) returns (r: bool)
    ensures r <==> PowerOfTwo(n)
  {
    var m: nat := n;
    while And(m, 1) == 0 && m > 1
      invariant PowerOfTwo(m) <==> PowerOfTwo(n)
      decreases m
    {
      LowBit(m);
      HalvingKeepsPower(m);
      m := m / 2;
    }
    LowBit(m);
    r := m == 1;
    if m == 1 { assert m == Power(0); } else { OddIsNoPower(m); }
  }

  lemma LowBit(m: nat)
    ensures And(m, 1) == m % 2
  {
    if m > 0 { AndZero(m / 2); }
  }

  lemma {:induction false} AndZero(m: nat)
    ensures And(m, 0) == 0
  {
    if m > 0 { AndZero(m / 2); }
  }

  /** ~(page_size - 1) in a word of `bits` bits. */
  function Mask(pageSize: nat, bits: nat): nat
    requires pageSize <= Power(bits)
  {
    Power(bits) - pageSize
  }

  lemma {:induction false} PowerMonotone(j: nat, k: nat)
    requires j <= k
    ensures 0 < Power(j) <= Power(k)
    decreases k
  {
    if j < k { PowerMonotone(j, k - 1); } else if k > 0 { PowerMonotone(j - 1, k - 1); }
  }

  function RoundDown(p: nat, k: nat): nat {
    if k == 0 then p else 2 * RoundDown(p / 2, k - 1)
  }

  lemma MaskHalves(k: nat, low: nat, bits: nat)
    requires k <= bits && 0 < bits && low == (if k == 0 then 0 else k - 1)
    ensures 0 < Power(low) <= Power(bits - 1) && Power(k) <= Power(bits)
    ensures Mask(Power(k), bits) / 2 == Mask(Power(low), bits - 1)
    ensures Mask(Power(k), bits) % 2 == if k == 0 then 1 else 0
  {
    PowerMonotone(low, bits - 1);
    PowerMonotone(k, bits);
  }

  lemma {:induction false} MaskRounds(p: nat, k: nat, bits: nat)
    requires k <= bits && p < Power(bits)
    ensures 0 < Power(k) <= Power(bits)
    ensures And(p, Mask(Power(k), bits)) == RoundDown(p, k)
    decreases bits
  {
    PowerMonotone(k, bits);
    PowerMonotone(0, k);
    if p == 0 {
      RoundDownZero(k);
    } else {
      var low := if k == 0 then 0 else k - 1;
      MaskRounds(p / 2, low, bits - 1);
      MaskHalves(k, low, bits);
    }
  }

  lemma {:induction false} RoundDownZero(k: nat)
    ensures RoundDown(0, k) == 0
  {
    if k > 0 { RoundDownZero(k - 1); }
  }

  lemma {:induction false} RoundDownIs(p: nat, k: nat)
    ensures Power(k) > 0 && RoundDown(p, k) == p - p % Power(k)
    decreases k
  {
    if k > 0 {
      RoundDownIs(p / 2, k - 1);
      ModHalves(p, Power(k - 1));
    }
  }

  lemma ModHalves(p: nat, half: nat)
    requires half > 0
    ensures p % (2 * half) == 2 * ((p / 2) % half) + p % 2
  {
    var q, r := (p / 2) / half, (p / 2) % half;
    assert p / 2 == half * q + r;
    Doubled(half, q);
    DivUnique(p, 2 * half, q, 2 * r + p % 2);
  }

  lemma DivUnique(n: nat, d: nat, q: nat, r: nat)
    requires d > 0 && n == d * q + r && r < d
    ensures n % d == r
  {
    var q', r' := n / d, n % d;
    assert n == d * q' + r' && r' < d;
    if q < q' { Apart(d, q, q'); }
    if q' < q { Apart(d, q', q); }
  }

  lemma {:induction false} Apart(d: nat, a: nat, b: nat)
    requires a < b
    ensures d * a + d <= d * b
    decreases b
  {
    assert d * b == d * (b - 1) + d;
    if a < b - 1 { Apart(d, a, b - 1); }
  }

  lemma Doubled(a: nat, b: nat)
    ensures a * (2 * b) == 2 * (a * b) && (2 * a) * b == 2 * (a * b)
  {}

  lemma {:induction false} WordIsPower()
    ensures Power(64) == U64
  {
    PowerAdds(4, 4);
    PowerAdds(8, 8);
    PowerAdds(16, 16);
    PowerAdds(32, 32);
  }

  lemma {:induction false} PowerAdds(j: nat, k: nat)
    ensures Power(j + k) == Power(j) * Power(k)
    decreases k
  {
    if k > 0 {
      PowerAdds(j, k - 1);
      Doubled(Power(j), Power(k - 1));
    }
  }

  /** For a page size that is a power of two, masking an address rounds it down to
      a multiple of the page size. */
  lemma MaskedAddress(p: Word, pageSize: Word)
    requires PowerOfTwo(pageSize)
    ensures pageSize > 0 && And(p, U64 - pageSize) == p - p % pageSize
  {
    WordIsPower();
    var k: nat :| pageSize == Power(k);
    if k > 64 { PowerMonotone(64, k); }
    MaskRounds(p, k, 64);
    RoundDownIs(p, k);
  }

  // ----- the cache -----

  datatype Cache = Cache(lines: seq<Word>, mostRecent: nat)

  const EMPTY := Cache([NULL, NULL, NULL, NULL, NULL, NULL, NULL, NULL], 0)

  ghost predicate Shaped(c: Cache) {
    |c.lines| == LINES && c.mostRecent < LINES
  }

  function Push(c: Cache, p: Word): Cache
    requires Shaped(c)
  {
    var i := (c.mostRecent + 1) % LINES;
    Cache(c.lines[i := p], i)
  }

  datatype Answer = Answer(valid: bool, after: Cache)

  /** One query; `mapped` are the bases of the valid pages at that moment. */
  function Query(c: Cache, p: Word, base: Word, mapped: set<Word>): Answer
    requires Shaped(c)
  {
    if p in c.lines then Answer(true, c)
    else if base in mapped then Answer(true, Push(c, p))
    else Answer(false, c)
  }

  // ----- runs -----

  function Base(p: Word, pageSize: Word): Word
    requires pageSize > 0
  {
    p - p % pageSize
  }

  /** The first byte of the page that holds the address. */
  lemma BaseIs(p: Word, pageSize: Word)
    requires pageSize > 0
    ensures Base(p, pageSize) <= p < Base(p, pageSize) + pageSize && Base(p, pageSize) % pageSize == 0
  {
    var q := p / pageSize;
    assert p - p % pageSize == pageSize * q + 0;
    DivUnique(p - p % pageSize, pageSize, q, 0);
  }

  datatype Call = Call(p: Word, mapped: set<Word>)

  /** The state after a run of queries: the cache and every pointer ever pushed. */
  datatype State = State(cache: Cache, pushed: seq<Word>)

  function Step(s: State, call: Call, pageSize: Word): (r: State)
    requires Shaped(s.cache) && pageSize > 0
    ensures Shaped(r.cache)
  {
    var a := Query(s.cache, call.p, Base(call.p, pageSize), call.mapped);
    State(a.after, if a.valid && call.p !in s.cache.lines then s.pushed + [call.p] else s.pushed)
  }

  function Run(calls: seq<Call>, pageSize: Word): (r: State)
    requires pageSize > 0
    ensures Shaped(r.cache)
    decreases |calls|
  {
    if calls == [] then State(EMPTY, []) else Step(Run(calls[..|calls| - 1], pageSize), calls[|calls| - 1], pageSize)
  }

  /** Valid pages stay valid. */
  ghost predicate PagesStay(calls: seq<Call>) {
    forall i, j :: 0 <= i <= j < |calls| ==> calls[i].mapped <= calls[j].mapped
  }

  function Line(c: Cache, back: nat): Word
    requires Shaped(c) && back < LINES
  {
    c.lines[(c.mostRecent + LINES - back) % LINES]
  }

  /** Reading backwards from the most recent line gives the last pushes in order,
      then lines that were never written. */
  ghost predicate HoldsLast(c: Cache, pushed: seq<Word>)
    requires Shaped(c)
  {
    forall b: nat :: b < LINES ==> Line(c, b) == if b < |pushed| then pushed[|pushed| - 1 - b] else NULL
  }

  /** Lines that were written differ from each other: a push happens only on a miss. */
  ghost predicate DistinctLines(c: Cache) {
    forall i, j :: 0 <= i < j < |c.lines| && c.lines[i] == c.lines[j] ==> c.lines[i] == NULL
  }

  lemma PushHolds(c: Cache, pushed: seq<Word>, p: Word)
    requires Shaped(c) && HoldsLast(c, pushed)
    ensures Shaped(Push(c, p)) && HoldsLast(Push(c, p), pushed + [p])
  {
    var d := Push(c, p);
    forall b: nat | b < LINES
      ensures Line(d, b) == if b < |pushed| + 1 then (pushed + [p])[|pushed| - b] else NULL
    {
      if b > 0 { assert Line(d, b) == Line(c, b - 1); }
    }
  }

  /** In every run the cache is a first-in first-out queue of the last eight pushes,
      and no two written lines agree. */
  lemma {:induction false} CacheIsFifo(calls: seq<Call>, pageSize: Word)
    requires pageSize > 0
    ensures var s := Run(calls, pageSize); HoldsLast(s.cache, s.pushed) && DistinctLines(s.cache)
    decreases |calls|
  {
    if calls == [] {
      assert forall i :: 0 <= i < LINES ==> EMPTY.lines[i] == NULL;
    } else {
      var init, call := calls[..|calls| - 1], calls[|calls| - 1];
      CacheIsFifo(init, pageSize);
      var s := Run(init, pageSize);
      if call.p !in s.cache.lines { PushHolds(s.cache, s.pushed, call.p); }
    }
  }

  /** Every pushed pointer was on a page that was valid at some call, so still is. */
  lemma {:induction false} PushedStayValid(calls: seq<Call>, pageSize: Word, p: Word)
    requires pageSize > 0 && PagesStay(calls) && p in Run(calls, pageSize).pushed
    ensures |calls| > 0 && Base(p, pageSize) in calls[|calls| - 1].mapped
    decreases |calls|
  {
    var init, call := calls[..|calls| - 1], calls[|calls| - 1];
    if p in Run(init, pageSize).pushed {
      PushedStayValid(init, pageSize, p);
      assert init[|init| - 1].mapped <= call.mapped;
    }
  }

  /** How many of the pushes have left the lines again. */
  function Forgotten(pushed: seq<Word>): nat {
    if |pushed| > LINES then |pushed| - LINES else 0
  }

  /** What a line can still vouch for: the last eight pushes, and null until there
      have been eight. */
  predicate Recent(pushed: seq<Word>, p: Word) {
    p in pushed[Forgotten(pushed)..] || (p == NULL && |pushed| < LINES)
  }

  lemma BackTo(c: Cache, i: nat) returns (b: nat)
    requires Shaped(c) && i < LINES
    ensures b < LINES && Line(c, b) == c.lines[i]
  {
    b := (c.mostRecent + LINES - i) % LINES;
  }

  lemma CachedIsRecent(c: Cache, pushed: seq<Word>, p: Word)
    requires Shaped(c) && HoldsLast(c, pushed) && p in c.lines
    ensures Recent(pushed, p)
  {
    var i :| 0 <= i < LINES && c.lines[i] == p;
    var b := BackTo(c, i);
    if b < |pushed| { assert pushed[Forgotten(pushed)..][|pushed| - 1 - b - Forgotten(pushed)] == p; }
  }

  lemma RecentIsCached(c: Cache, pushed: seq<Word>, p: Word)
    requires Shaped(c) && HoldsLast(c, pushed) && Recent(pushed, p)
    ensures p in c.lines
  {
    var from := Forgotten(pushed);
    if p in pushed[from..] {
      var k :| 0 <= k < |pushed| - from && pushed[from..][k] == p;
      assert Line(c, |pushed| - 1 - from - k) == p;
    } else {
      assert Line(c, |pushed|) == NULL;
    }
  }

  /** The lines hold the recent pointers and no others. */
  lemma CachedIff(c: Cache, pushed: seq<Word>, p: Word)
    requires Shaped(c) && HoldsLast(c, pushed)
    ensures p in c.lines <==> Recent(pushed, p)
  {
    if p in c.lines { CachedIsRecent(c, pushed, p); }
    if Recent(pushed, p) { RecentIsCached(c, pushed, p); }
  }

  /** In every run, whatever happens to the pages, the cache answers what the check it
      speeds up would answer exactly when it remembers no pointer of an invalid page. */
  lemma CacheRightIff(calls: seq<Call>, pageSize: Word, call: Call)
    requires pageSize > 0
    ensures var s, base := Run(calls, pageSize), Base(call.p, pageSize);
            Query(s.cache, call.p, base, call.mapped).valid == (base in call.mapped)
            <==> (Recent(s.pushed, call.p) ==> base in call.mapped)
  {
    CacheIsFifo(calls, pageSize);
    CachedIff(Run(calls, pageSize).cache, Run(calls, pageSize).pushed, call.p);
  }

  /** In every run over pages that stay valid, that leaves one exception: the null pointer
      while fewer than eight pointers have been remembered and page zero is not valid. */
  lemma CacheAgreesIff(calls: seq<Call>, pageSize: Word, call: Call)
    requires pageSize > 0 && PagesStay(calls + [call])
    ensures var s := Run(calls, pageSize);
            Query(s.cache, call.p, Base(call.p, pageSize), call.mapped).valid == (Base(call.p, pageSize) in call.mapped)
            <==> !(call.p == NULL && |s.pushed| < LINES && NULL !in call.mapped)
  {
    var s := Run(calls, pageSize);
    var all := calls + [call];
    assert forall i :: 0 <= i < |calls| ==> all[i] == calls[i];
    CacheRightIff(calls, pageSize, call);
    if call.p in s.pushed {
      PushedStayValid(calls, pageSize, call.p);
      assert all[|calls| - 1].mapped <= all[|calls|].mapped;
    }
  }

  /** Before the first push the null pointer is called valid. */
  lemma NullOnEmptyCache()
    ensures Query(Run([], 4096).cache, NULL, Base(NULL, 4096), {}).valid
  {}

  /** A pointer that was called valid is still called valid when no page is left. */
  lemma StaleAnswer(c: Cache, p: Word, base: Word, mapped: set<Word>)
    requires Shaped(c) && Query(c, p, base, mapped).valid
    ensures Shaped(Query(c, p, base, mapped).after)
    ensures Query(Query(c, p, base, mapped).after, p, base, {}).valid
  {
    var i := (c.mostRecent + 1) % LINES;
    assert Push(c, p).lines[i] == p;
  }

  class Checker {
    const lines: array<Word>
    var mostRecent: nat
    const pageSize: Word
    const pageMask: Word

    ghost predicate Valid()
      reads this, lines
    {
      lines.Length == LINES && mostRecent < LINES && PowerOfTwo(pageSize) && pageMask as int == U64 - pageSize
    }

    ghost function Contents(): Cache
      reads this, lines
    {
      Cache(lines[..], mostRecent)
    }

    constructor (size: Word)
      requires PowerOfTwo(size)
      ensures Valid() && Contents() == EMPTY && fresh(lines) && pageSize == size
    {
      MaskedAddress(0, size);
      pageSize := size;
      pageMask := U64 - size;
      lines := new Word[LINES](_ => NULL);
      mostRecent := 0;
    }

    method PushLine(p: Word)
      requires Valid()
      modifies this`mostRecent, lines
      ensures Valid() && Contents() == Push(old(Contents()), p)
    {
      mostRecent := (mostRecent + 1) % LINES;
      lines[mostRecent] := p;
    }

    /** operator(): `mapped` stands for what msync reports. */
    method IsValid(p: Word, mapped: set<Word>) returns (valid: bool)
      requires Valid()
      modifies this`mostRecent, lines
      ensures Valid()
      ensures Query(old(Contents()), p, Base(p, pageSize), mapped) == Answer(valid, Contents())
    {
      ghost var c := Contents();
      if p == lines[0] || p == lines[1] || p == lines[2] || p == lines[3] ||
         p == lines[4] || p == lines[5] || p == lines[6] || p == lines[7] {
        return true;
      }
      assert p !in c.lines;
      MaskedAddress(p, pageSize);
      var base := And(p, pageMask);
      if base !in mapped {
        return false;
      }
      PushLine(p);
      return true;
    }
  }
}
