/**
 The few facts about clang types that value allocation looks at: what a type
 is once its typedefs are resolved, what it is when they are not, how large it
 is, and how many elements it holds.
 */
module ClangTypes {
  import opened Words

  datatype Builtin =
    | Bool | Char_S | SChar | Short | Int | Long | LongLong
    | UChar | UShort | UInt | ULong | ULongLong
    | Float | Double | LongDouble | WChar_S | Char16 | Char32

  /** Sizes that depend on the target are carried by the type itself. `destructible`
      says whether the interpreter finds a destructor call for the record. */
  datatype Type =
    | VoidType
    | BuiltinType(kind: Builtin, width: nat)
    | UnsupportedBuiltin(width: nat)
    | NullPtrType
    | EnumType(integer: Type)
    | PointerType
    | ReferenceType
    | FunctionType
    | MemberPointerType(width: nat)
    | RecordType(width: nat, destructible: bool)
    | ConstantArrayType(element: Type, length: nat)
    | TypedefType(underlying: Type)

  datatype TypeKind = Invalid | Scalar(kind: Builtin) | Void | PtrOrObj

  /** The type with every typedef resolved, at every level. */
  function Canonical(t: Type): (c: Type)
    ensures !c.TypedefType?
  {
    match t
    case TypedefType(u) => Canonical(u)
    case ConstantArrayType(e, n) => ConstantArrayType(Canonical(e), n)
    case _ => t
  }

  function SizeOf(t: Type): nat {
    match t
    case BuiltinType(_, w) => w
    case UnsupportedBuiltin(w) => w
    case EnumType(i) => SizeOf(i)
    case MemberPointerType(w) => w
    case RecordType(w, _) => w
    case ConstantArrayType(e, n) => n * SizeOf(e)
    case TypedefType(u) => SizeOf(u)
    case VoidType => 1
    case FunctionType => 1
    case _ => 8
  }

  /** The innermost element type and the true number of such elements. */
  function Leaf(t: Type): Type {
    match t
    case ConstantArrayType(e, _) => Leaf(e)
    case TypedefType(u) => Leaf(u)
    case _ => t
  }

  function ElementCount(t: Type): nat {
    match t
    case ConstantArrayType(e, n) => n * ElementCount(e)
    case TypedefType(u) => ElementCount(u)
    case _ => 1
  }

  // ----- what the code computes -----

  /** getCorrespondingTypeKind: the enum test looks at the type as written, the
      void and builtin tests look through typedefs. */
  function CorrespondingTypeKind(t: Type): TypeKind {
    if Canonical(t).VoidType? then Void else
    var q := Canonical(if t.EnumType? then t.integer else t);
    match q
    case BuiltinType(k, _) => Scalar(k)
    case UnsupportedBuiltin(_) => Invalid
    case VoidType => Invalid
    case _ => PtrOrObj
  }

  /** When the constructor decides that a payload has to be allocated. */
  predicate NeedsManagedAllocation(t: Type) {
    var c := Canonical(t);
    && CorrespondingTypeKind(t) == PtrOrObj
    && (c.RecordType? || c.ConstantArrayType? || c.MemberPointerType?)
  }

  /** The type itself with its typedefs resolved; element types are left as written. */
  function Resolved(t: Type): (c: Type)
    ensures !c.TypedefType?
  {
    if t.TypedefType? then Resolved(t.underlying) else t
  }

  lemma {:induction false} CanonicalResolves(t: Type)
    ensures !Resolved(t).ConstantArrayType? ==> Canonical(t) == Resolved(t)
    ensures Resolved(t).ConstantArrayType? ==> Canonical(t).ConstantArrayType?
    ensures Resolved(t).RecordType? ==> Leaf(t) == Resolved(t) && ElementCount(t) == 1
    ensures Leaf(t).RecordType? ==> Resolved(t).RecordType? || Resolved(t).ConstantArrayType?
    decreases t
  {
    if t.TypedefType? { CanonicalResolves(t.underlying); }
    if t.ConstantArrayType? { CanonicalResolves(t.element); }
  }

  /** Typedefs make no difference to the kind of a type, unless it is an enum. */
  lemma KindIs(t: Type)
    requires !Resolved(t).EnumType?
    ensures CorrespondingTypeKind(t) == match Resolved(t)
              case VoidType => Void
              case BuiltinType(k, _) => Scalar(k)
              case UnsupportedBuiltin(_) => Invalid
              case _ => PtrOrObj
  {
    CanonicalResolves(t);
  }

  /** An enum has the kind of its integers exactly when it is written without a typedef. */
  lemma EnumKindIff(t: Type)
    requires Resolved(t).EnumType? && Resolved(Resolved(t).integer).BuiltinType?
    ensures CorrespondingTypeKind(t) == Scalar(Resolved(Resolved(t).integer).kind) <==> t.EnumType?
    ensures CorrespondingTypeKind(t) == PtrOrObj <==> t.TypedefType?
  {
    CanonicalResolves(t);
    if t.EnumType? { CanonicalResolves(t.integer); }
  }

  /** `typedef E T` with `enum E` over int: a scalar as E, an object as T. */
  lemma TypedefHidesEnum()
    ensures var e := EnumType(BuiltinType(Int, 4));
            CorrespondingTypeKind(e) == Scalar(Int) && CorrespondingTypeKind(TypedefType(e)) == PtrOrObj
  {}

  /** Only records, arrays and member pointers get a payload, typedef or not. */
  lemma NeedsIff(t: Type)
    ensures NeedsManagedAllocation(t) <==>
            Resolved(t).RecordType? || Resolved(t).ConstantArrayType? || Resolved(t).MemberPointerType?
  {
    CanonicalResolves(t);
  }

  /** What is left of a type when the arrays that are spelled out are taken off. */
  function Behind(t: Type): Type {
    if t.ConstantArrayType? then Behind(t.element) else t
  }

  /** The bounds that are spelled out count everything but what a typedef behind them hides. */
  lemma {:induction false} CountSplits(t: Type)
    ensures ElementCount(t) == SpelledCount(t) * ElementCount(Behind(t))
    decreases t
  {
    if t.ConstantArrayType? {
      CountSplits(t.element);
      TimesAssoc(t.length, SpelledCount(t.element), ElementCount(Behind(t)));
    }
  }

  /** Product of the array bounds that are visible without resolving a typedef. */
  function SpelledCount(t: Type): nat {
    match t
    case ConstantArrayType(e, n) => n * SpelledCount(e)
    case _ => 1
  }

  /** GetNumberOfElements: 64-bit product of the bounds that are spelled out. */
  method GetNumberOfElements(t: Type) returns (r: nat)
    ensures r == SpelledCount(t) % U64
  {
    if !t.ConstantArrayType? {
      return 1;
    }
    var size: nat := 1;
    var arr := t;
    while arr.ConstantArrayType?
      invariant size * SpelledCount(arr) % U64 == SpelledCount(t) % U64
      invariant !arr.ConstantArrayType? ==> size < U64
      invariant size < U64
      decreases arr
    {
      ghost var rest := SpelledCount(arr.element);
      ModTimes(size * arr.length, rest);
      assert size * SpelledCount(arr) == size * arr.length * rest by {
        TimesAssoc(size, arr.length, rest);
      }
      size := size * arr.length % U64;
      arr := arr.element;
    }
    assert SpelledCount(arr) == 1;
    r := size;
  }

  lemma TimesAssoc(a: nat, b: nat, c: nat)
    ensures a * (b * c) == a * b * c
  {}

  lemma ModTimes(x: nat, y: nat)
    ensures (x % U64) * y % U64 == x * y % U64
  {
    var q := x / U64;
    assert x * y == (x % U64) * y + q * y * U64 by {
      assert x == x % U64 + q * U64;
      assert (x % U64 + q * U64) * y == (x % U64) * y + q * U64 * y;
      assert q * U64 * y == q * y * U64;
    }
    ModDrop((x % U64) * y, q * y);
  }

  lemma {:induction false} ModDrop(a: nat, k: nat)
    ensures (a + k * U64) % U64 == a % U64
    decreases k
  {
    if k > 0 {
      ModDrop(a, k - 1);
      var b := a + (k - 1) * U64;
      assert a + k * U64 == b + U64;
      assert (b + U64) % U64 == b % U64;
    }
  }

  /** ManagedAllocate: one array level, as written, is stripped before looking
      for a record, and looking for a record resolves typedefs. */
  predicate DtorFound(t: Type) {
    var d := Canonical(if t.ConstantArrayType? then t.element else t);
    d.RecordType? && d.destructible
  }

  lemma {:induction false} SizeIsCountTimesLeaf(t: Type)
    ensures SizeOf(t) == ElementCount(t) * SizeOf(Leaf(t))
    decreases t
  {
    match t
    case TypedefType(u) => SizeIsCountTimesLeaf(u);
    case ConstantArrayType(e, n) =>
      SizeIsCountTimesLeaf(e);
      TimesAssoc(n, ElementCount(e), SizeOf(Leaf(e)));
    case _ =>
  }

  /** A record, or an array of records written as an array of one dimension. */
  predicate OneLevel(t: Type) {
    Resolved(t).RecordType? || (t.ConstantArrayType? && Resolved(t.element).RecordType?)
  }

  /** A destructor is found exactly for those, if their record has one: further
      dimensions, and a typedef around the array, hide it. */
  lemma DtorFoundIff(t: Type)
    ensures DtorFound(t) <==> OneLevel(t) && Leaf(t).RecordType? && Leaf(t).destructible
  {
    CanonicalResolves(t);
    if t.ConstantArrayType? { CanonicalResolves(t.element); }
  }

  /** Then, and only then, the number of elements is recognised with it. */
  lemma ElementsRecognisedIff(t: Type)
    requires Leaf(t).RecordType? && Leaf(t).destructible
    requires ElementCount(t) < U64
    ensures DtorFound(t) && SpelledCount(t) % U64 == ElementCount(t) <==> OneLevel(t)
  {
    DtorFoundIff(t);
    CountSplits(t);
    if OneLevel(t) { CanonicalResolves(Behind(t)); }
  }

  /** `typedef S A[3]`: a payload is allocated for the array and no destructor is found. */
  lemma TypedefHidesDestructor()
    ensures var t := TypedefType(ConstantArrayType(RecordType(16, true), 3));
            NeedsManagedAllocation(t) && !DtorFound(t) && SpelledCount(t) == 1 && ElementCount(t) == 3
  {
    var t := TypedefType(ConstantArrayType(RecordType(16, true), 3));
    assert Canonical(t) == ConstantArrayType(RecordType(16, true), 3);
  }

  // ----- layout of a payload -----

  const CANARY_SIZE: nat := 8

  /** Bytes of an AllocatedValue in front of its payload, where pointers have eight bytes. */
  const HEADER: nat := 32

  /** CreatePayload: the size arrives as a 32-bit number and is padded to the canary. */
  function PayloadSize(size: nat): nat {
    if size % U32 < CANARY_SIZE then CANARY_SIZE else size % U32
  }

  /** Bytes that new is asked for: header and payload are added as 32-bit numbers. */
  function BlockSize(alloc: nat): nat {
    (HEADER + alloc) % U32
  }

  /** Distance between two destructor calls. */
  function Stride(alloc: nat, elements: nat): nat
    requires elements > 0
  {
    alloc / elements
  }

  /** Where the call for element `i` goes, counted from the start of the payload. */
  function Offset(i: nat, stride: nat): nat {
    i * stride
  }

  /** One stride more for each element, the first one at the start. */
  lemma OffsetsEvenlySpaced(i: nat, stride: nat)
    ensures Offset(0, stride) == 0 && Offset(i + 1, stride) == Offset(i, stride) + stride
  {
    assert (i + 1) * stride == i * stride + stride;
  }

  ghost predicate ElementAddressesExact(n: nat, s: nat)
    requires n > 0
  {
    var alloc := PayloadSize(n * s);
    forall i: nat :: i < n ==>
      Offset(i, Stride(alloc, n)) == Offset(i, s) && HEADER + Offset(i, s) + s <= BlockSize(alloc)
  }

  lemma DivBounds(a: nat, n: nat)
    requires n > 0
    ensures n * (a / n) <= a < n * (a / n) + n
  {}

  lemma TimesMono(a: nat, b: nat, n: nat)
    requires a <= b
    ensures a * n <= b * n && n * a <= n * b
  {
    assert (b - a) * n >= 0;
  }

  /** The header and the canary that construction writes are inside the block exactly
      when the sum does not wrap. */
  lemma BlockHoldsIff(alloc: nat)
    requires CANARY_SIZE <= alloc < U32
    ensures HEADER + CANARY_SIZE <= BlockSize(alloc) <==> HEADER + alloc < U32
    ensures HEADER + alloc < U32 ==> BlockSize(alloc) == HEADER + alloc
    ensures HEADER + alloc >= U32 ==> BlockSize(alloc) < HEADER
  {}

  /** A size that was cut to 32 bits gives a block that cannot hold the object. */
  lemma FitsIff(size: nat)
    requires HEADER + PayloadSize(size) < U32
    ensures HEADER + size <= BlockSize(PayloadSize(size)) <==> HEADER + size < U32
  {
    BlockHoldsIff(PayloadSize(size));
  }

  /** Exactly when the sum does not wrap, every call a release makes stays inside, whatever the padding. */
  lemma OffsetsInside(alloc: nat, n: nat, i: nat)
    requires i < n && CANARY_SIZE <= alloc < U32
    ensures HEADER + Offset(i, Stride(alloc, n)) + Stride(alloc, n) <= BlockSize(alloc) <==> HEADER + alloc < U32
  {
    var q := Stride(alloc, n);
    BlockHoldsIff(alloc);
    DivBounds(alloc, n);
    TimesMono(i + 1, n, q);
    assert (i + 1) * q == i * q + q;
  }

  lemma StrideIs(alloc: nat, n: nat, s: nat)
    requires n > 0
    ensures Stride(alloc, n) == s <==> n * s <= alloc < n * s + n
  {
    var q := Stride(alloc, n);
    DivBounds(alloc, n);
    if q < s { TimesMono(q + 1, s, n); assert n * (q + 1) == n * q + n; }
    if s < q { TimesMono(s + 1, q, n); assert n * (s + 1) == n * s + n; }
  }

  /** The stride is the element size exactly when the size fits 32 bits and padding to
      eight bytes does not stretch it. */
  lemma StrideExactIff(n: nat, s: nat)
    requires n > 0
    ensures Stride(PayloadSize(n * s), n) == s <==> n * s < U32 && n * (s + 1) > CANARY_SIZE
  {
    StrideIs(PayloadSize(n * s), n, s);
    assert n * (s + 1) == n * s + n;
  }

  /** Elements below `n` end where the `n` elements end, or before. */
  lemma ElementEnds(i: nat, n: nat, s: nat)
    requires i < n
    ensures Offset(i, s) + s <= n * s == Offset(n - 1, s) + s
  {
    TimesMono(i + 1, n, s);
    assert (i + 1) * s == i * s + s && (n - 1) * s + s == n * s;
  }

  /** The release step visits the true element addresses, all of them inside the block,
      exactly when header and elements fit 32 bits and padding does not stretch the stride. */
  lemma AddressesExactIff(n: nat, s: nat)
    requires n > 0
    ensures ElementAddressesExact(n, s) <==> HEADER + n * s < U32 && (n == 1 || n * (s + 1) > CANARY_SIZE)
  {
    var alloc := PayloadSize(n * s);
    var q := Stride(alloc, n);
    StrideExactIff(n, s);
    BlockHoldsIff(alloc);
    if ElementAddressesExact(n, s) {
      assert HEADER + Offset(n - 1, s) + s <= BlockSize(alloc);
      ElementEnds(n - 1, n, s);
      if n > 1 { assert Offset(1, q) == Offset(1, s); }
    }
    if HEADER + n * s < U32 && (n == 1 || n * (s + 1) > CANARY_SIZE) {
      forall i: nat | i < n ensures Offset(i, q) == Offset(i, s) && HEADER + Offset(i, s) + s <= BlockSize(alloc) {
        ElementEnds(i, n, s);
      }
    }
  }

  /** Two three-byte elements are padded to eight bytes, so the second call is one byte late. */
  lemma PaddingMovesSecondElement()
    ensures !ElementAddressesExact(2, 3) && Stride(PayloadSize(2 * 3), 2) == 4
  {
    AddressesExactIff(2, 3);
  }

  /** 2^32 - 1 one-byte elements: the stride is right, but the block has 31 bytes. */
  lemma BlockTooSmall()
    ensures var n := U32 - 1; Stride(PayloadSize(n * 1), n) == 1 && BlockSize(PayloadSize(n * 1)) == 31
    ensures !ElementAddressesExact(U32 - 1, 1)
  {
    AddressesExactIff(U32 - 1, 1);
  }

  /** What ManagedAllocate hands to the allocation: fixed for the payload's life. */
  datatype Layout = Layout(dtor: bool, allocSize: nat, elemsNum: nat)

  function LayoutOf(t: Type): Layout {
    Layout(DtorFound(t), PayloadSize(SizeOf(t)), SpelledCount(t) % U64)
  }

  /** Three pointers take 24 bytes behind the header, and nothing is to be destroyed. */
  lemma ArrayOfPointers()
    ensures var l := LayoutOf(ConstantArrayType(PointerType, 3));
            !l.dtor && l.elemsNum == 3 && BlockSize(l.allocSize) == 56
  {
    assert SizeOf(ConstantArrayType(PointerType, 3)) == 24;
  }
}
