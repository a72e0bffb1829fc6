/**
 Reference-counted payloads shared by copies of a Value. C++ memory is explicit:
 an object is a slot number, a payload is an allocation number, and touching a
 freed payload, or writing a header outside its block, is a `Fault`. Aliasing and
 self-assignment are equal numbers.
 */
module Values {
  import opened ClangTypes
  import opened Options
  import opened Words

  newtype byte = x: int | 0 <= x < 256

  const CANARY: seq<byte> := [0x4c, 0x37, 0xad, 0x8f, 0x2d, 0x23, 0x95, 0x91]

  datatype Outcome<+T> = Fault | Ok(value: T) {
    predicate IsFailure() { Fault? }
    function PropagateFailure<U>(): Outcome<U> requires Fault? { Fault }
    function Extract(): T requires Ok? { value }
  }

  datatype Storage = Uninitialised | Bits(bits: nat) | Payload(id: nat)

  datatype Value = Value(storage: Storage, managed: bool, kind: TypeKind, ty: Option<Type>, interp: Option<nat>)

  const DEFAULT_VALUE := Value(Uninitialised, false, Invalid, None, None)

  /** An AllocatedValue; of the payload only the first eight bytes are ever inspected. */
  datatype Cell = Cell(refCnt: nat, layout: Layout, head: seq<byte>)

  datatype Event = Destroyed(id: nat, offset: nat) | Freed(id: nat)

  datatype Allocation = Allocation(ty: Type, layout: Layout)

  /** `made` and `retired` are history: what each payload was allocated for, and
      each payload as it was when its last owner let go. */
  datatype State = State(
    values: map<nat, Value>,
    cells: map<nat, Cell>,
    trace: seq<Event>,
    made: seq<Allocation>,
    retired: map<nat, Cell>)

  const EMPTY := State(map[], map[], [], [], map[])

  // ----- AllocatedValue -----

  /** The count is an unsigned 32-bit number and wraps. */
  function Increment(n: nat): nat {
    if n + 1 == U32 then 0 else n + 1
  }

  predicate IsAlive(c: Cell) {
    c.head != CANARY
  }

  function Retained(s: State, p: nat): Outcome<State> {
    if p !in s.cells then Fault else
    var c := s.cells[p];
    Ok(s.(cells := s.cells[p := c.(refCnt := Increment(c.refCnt))]))
  }

  /** Destructor calls for the elements below `n`, last element first. */
  function Destructions(p: nat, n: nat, stride: nat): seq<Event> {
    if n == 0 then [] else [Destroyed(p, Offset(n - 1, stride))] + Destructions(p, n - 1, stride)
  }

  function ReleaseEvents(p: nat, c: Cell): seq<Event> {
    if c.layout.dtor && IsAlive(c) && c.layout.elemsNum > 0
    then Destructions(p, c.layout.elemsNum, Stride(c.layout.allocSize, c.layout.elemsNum)) + [Freed(p)]
    else [Freed(p)]
  }

  function Released(s: State, p: nat): Outcome<State> {
    if p !in s.cells || s.cells[p].refCnt == 0 then Fault else
    var c := s.cells[p].(refCnt := s.cells[p].refCnt - 1);
    if c.refCnt > 0 then Ok(s.(cells := s.cells[p := c]))
    else if c.layout.dtor && IsAlive(c) && c.layout.elemsNum == 0 then Fault
    else Ok(s.(cells := s.cells - {p}, retired := s.retired[p := c], trace := s.trace + ReleaseEvents(p, c)))
  }

  // ----- Value -----

  datatype Op =
    | DefaultConstruct(dst: nat)
    | Construct(dst: nat, ty: Type, interp: nat)
    | CopyConstruct(dst: nat, src: nat)
    | MoveConstruct(dst: nat, src: nat)
    | CopyAssign(dst: nat, src: nat)
    | MoveAssign(dst: nat, src: nat)
    | Destruct(dst: nat)
    | SetStorage(dst: nat, storage: Storage)
    | WritePayload(dst: nat, head: seq<byte>)

  /** What the language guarantees: constructors get raw memory, everything else
      gets live objects, and user code writes through a payload it was given. */
  predicate WellFormed(s: State, op: Op) {
    match op
    case DefaultConstruct(d) => d !in s.values
    case Construct(d, _, _) => d !in s.values
    case CopyConstruct(d, src) => d !in s.values && src in s.values
    case MoveConstruct(d, src) => d !in s.values && src in s.values
    case CopyAssign(d, src) => d in s.values && src in s.values
    case MoveAssign(d, src) => d in s.values && src in s.values
    case Destruct(d) => d in s.values
    case SetStorage(d, _) => d in s.values
    case WritePayload(d, h) => d in s.values && s.values[d].managed && |h| == |CANARY|
  }

  function RetainOf(s: State, v: Value): Outcome<State> {
    if !v.managed then Ok(s) else if v.storage.Payload? then Retained(s, v.storage.id) else Fault
  }

  function ReleaseOf(s: State, v: Value): Outcome<State> {
    if !v.managed then Ok(s) else if v.storage.Payload? then Released(s, v.storage.id) else Fault
  }

  function Store(s: State, d: nat, v: Value): State {
    s.(values := s.values[d := v])
  }

  function MovedFrom(v: Value): Value {
    v.(managed := false, kind := Invalid)
  }

  function Step(s: State, op: Op): Outcome<State>
    requires WellFormed(s, op)
  {
    match op
    case DefaultConstruct(d) => Ok(Store(s, d, DEFAULT_VALUE))
    case Construct(d, t, interp) =>
      var v := Value(Uninitialised, false, CorrespondingTypeKind(t), Some(t), Some(interp));
      if !NeedsManagedAllocation(t) then Ok(Store(s, d, v)) else
      var id, layout := |s.made|, LayoutOf(t);
      if BlockSize(layout.allocSize) < HEADER + CANARY_SIZE then Fault else
      var s1 := s.(cells := s.cells[id := Cell(1, layout, CANARY)], made := s.made + [Allocation(t, layout)]);
      Ok(Store(s1, d, v.(managed := true, storage := Payload(id))))
    case CopyConstruct(d, src) => RetainOf(Store(s, d, s.values[src]), s.values[src])
    case MoveConstruct(d, src) =>
      Ok(Store(Store(s, d, s.values[src]), src, MovedFrom(s.values[src])))
    case CopyAssign(d, src) =>
      var s1 :- ReleaseOf(s, s.values[d]);
      RetainOf(Store(s1, d, s.values[src]), s.values[src])
    case MoveAssign(d, src) =>
      var s1 :- ReleaseOf(s, s.values[d]);
      Ok(Store(Store(s1, d, s.values[src]), src, MovedFrom(s.values[src])))
    case Destruct(d) =>
      var s1 :- ReleaseOf(s, s.values[d]);
      Ok(s1.(values := s1.values - {d}))
    case SetStorage(d, st) => Ok(Store(s, d, s.values[d].(storage := st)))
    case WritePayload(d, h) =>
      var st := s.values[d].storage;
      if !st.Payload? || st.id !in s.cells then Fault
      else Ok(s.(cells := s.cells[st.id := s.cells[st.id].(head := h)]))
  }

  // ----- the invariant -----

  predicate Owns(v: Value, p: nat) {
    v.managed && v.storage == Payload(p)
  }

  function Owners(values: map<nat, Value>, p: nat): set<nat> {
    set u | u in values && Owns(values[u], p)
  }

  function TraceOf(trace: seq<Event>, p: nat): seq<Event> {
    if trace == [] then []
    else TraceOf(trace[..|trace| - 1], p) + (if trace[|trace| - 1].id == p then [trace[|trace| - 1]] else [])
  }

  /** No live Value that owns a payload points at a freed one. */
  ghost predicate Anchored(values: map<nat, Value>, cells: map<nat, Cell>) {
    forall v :: v in values && values[v].managed ==> values[v].storage.Payload? && values[v].storage.id in cells
  }

  /** The count of a live payload is the number of live Values that own it. */
  ghost predicate Counted(values: map<nat, Value>, cells: map<nat, Cell>) {
    forall p :: p in cells ==> 0 < cells[p].refCnt == |Owners(values, p)| < U32
  }

  predicate BuiltFor(c: Cell, a: Allocation) {
    && c.layout == a.layout && |c.head| == |CANARY|
    && CANARY_SIZE <= c.layout.allocSize && HEADER + c.layout.allocSize < U32
  }

  /** What the assertion of a release asks for. */
  predicate Destroyable(c: Cell) {
    c.layout.dtor && IsAlive(c) ==> c.layout.elemsNum > 0
  }

  /** Every payload ever made is live or retired, not both, and keeps its shape. */
  ghost predicate Accounted(cells: map<nat, Cell>, made: seq<Allocation>, retired: map<nat, Cell>) {
    && cells.Keys !! retired.Keys
    && (forall p :: p in cells ==> p < |made| && BuiltFor(cells[p], made[p]))
    && (forall p :: p in retired ==> p < |made| && BuiltFor(retired[p], made[p]) && Destroyable(retired[p]))
    && (forall p: nat :: p < |made| ==> p in cells || p in retired)
  }

  /** Nothing has happened to a live payload; a retired one went through exactly
      the events of one release. */
  ghost predicate Logged(trace: seq<Event>, retired: map<nat, Cell>) {
    forall p: nat :: TraceOf(trace, p) == if p in retired then ReleaseEvents(p, retired[p]) else []
  }

  ghost predicate Inv(s: State) {
    && Anchored(s.values, s.cells)
    && Counted(s.values, s.cells)
    && Accounted(s.cells, s.made, s.retired)
    && Logged(s.trace, s.retired)
  }

  /** What a caller has to check before an operation. Header and payload must fit 32
      bits; copies must not overflow the 32-bit count; a sole owner must not be
      copy-assigned to itself; the last owner of an array without elements that was
      written to must not let go; the storage of an owning Value must not be overwritten. */
  predicate Safe(s: State, op: Op)
    requires WellFormed(s, op)
  {
    match op
    case Construct(_, t, _) =>
      NeedsManagedAllocation(t) ==> HEADER + LayoutOf(t).allocSize < U32
    case CopyConstruct(_, src) => s.values[src].managed ==> Count(s, src) + 1 < U32
    case CopyAssign(d, src) =>
      && MayLetGo(s, d)
      && (s.values[src].managed ==>
           if d == src then Count(s, src) > 1
           else Owns(s.values[d], PayloadOf(s, src)) || Count(s, src) + 1 < U32)
    case MoveAssign(d, _) => MayLetGo(s, d)
    case Destruct(d) => MayLetGo(s, d)
    case SetStorage(d, st) => s.values[d].managed ==> st == s.values[d].storage
    case _ => true
  }

  predicate MayLetGo(s: State, v: nat)
    requires v in s.values
  {
    s.values[v].managed && Count(s, v) == 1 ==> Destroyable(s.cells[PayloadOf(s, v)])
  }

  function PayloadOf(s: State, v: nat): nat
    requires v in s.values
  {
    if s.values[v].storage.Payload? then s.values[v].storage.id else 0
  }

  function Count(s: State, v: nat): nat
    requires v in s.values
  {
    if PayloadOf(s, v) in s.cells then s.cells[PayloadOf(s, v)].refCnt else 0
  }

  // ----- how one store changes the owners -----

  lemma OwnersSplit(values: map<nat, Value>, v: nat, p: nat)
    ensures |Owners(values, p)| == |Owners(values - {v}, p)| + if v in values && Owns(values[v], p) then 1 else 0
  {
    if v in values && Owns(values[v], p) {
      assert Owners(values, p) == Owners(values - {v}, p) + {v};
    } else {
      assert Owners(values, p) == Owners(values - {v}, p);
    }
  }

  lemma OwnersStore(values: map<nat, Value>, v: nat, x: Value, p: nat)
    ensures |Owners(values[v := x], p)| + (if v in values && Owns(values[v], p) then 1 else 0)
         == |Owners(values, p)| + (if Owns(x, p) then 1 else 0)
  {
    OwnersSplit(values, v, p);
    OwnersSplit(values[v := x], v, p);
    assert values[v := x] - {v} == values - {v};
  }

  lemma {:induction false} TraceOfAppend(a: seq<Event>, b: seq<Event>, p: nat)
    ensures TraceOf(a + b, p) == TraceOf(a, p) + TraceOf(b, p)
  {
    if b == [] {
      assert a + b == a;
    } else {
      var k := |b| - 1;
      assert (a + b)[..|a + b| - 1] == a + b[..k];
      TraceOfAppend(a, b[..k], p);
    }
  }

  lemma {:induction false} TraceOfUniform(t: seq<Event>, q: nat, p: nat)
    requires forall e :: e in t ==> e.id == q
    ensures TraceOf(t, p) == if p == q then t else []
  {
    if t != [] {
      TraceOfUniform(t[..|t| - 1], q, p);
      assert t == t[..|t| - 1] + [t[|t| - 1]];
    }
  }

  lemma {:induction false} DestructionsUniform(p: nat, n: nat, stride: nat)
    ensures forall e :: e in Destructions(p, n, stride) ==> e.id == p
  {
    if n > 0 { DestructionsUniform(p, n - 1, stride); }
  }

  // ----- how each primitive keeps the invariant -----

  /** A Value that owns nothing may be overwritten by, or created as, another such Value. */
  lemma StorePlain(s: State, v: nat, x: Value)
    requires Inv(s) && !x.managed && (v in s.values ==> !s.values[v].managed)
    ensures Inv(Store(s, v, x))
  {
    forall p ensures |Owners(s.values[v := x], p)| == |Owners(s.values, p)| { OwnersStore(s.values, v, x, p); }
  }

  lemma RemovePlain(s: State, v: nat)
    requires Inv(s) && v in s.values && !s.values[v].managed
    ensures Inv(s.(values := s.values - {v}))
  {
    forall p ensures |Owners(s.values - {v}, p)| == |Owners(s.values, p)| { OwnersSplit(s.values, v, p); }
  }

  /** The books depend only on the shape of the live payloads. */
  lemma ShapeKept(cells: map<nat, Cell>, p: nat, c: Cell, made: seq<Allocation>, retired: map<nat, Cell>)
    requires Accounted(cells, made, retired) && p in cells && |c.head| == |CANARY|
    requires c == cells[p].(refCnt := c.refCnt, head := c.head)
    ensures Accounted(cells[p := c], made, retired)
  {
    assert BuiltFor(cells[p], made[p]);
    assert BuiltFor(c, made[p]);
  }

  /** Counts stay right when one Value is stored and one count follows it. */
  lemma Recount(values: map<nat, Value>, cells: map<nat, Cell>, v: nat, x: Value, q: nat, c: Cell)
    requires Anchored(values, cells) && Counted(values, cells) && q in cells && 0 < c.refCnt < U32
    requires c.refCnt + (if v in values && Owns(values[v], q) then 1 else 0)
          == cells[q].refCnt + (if Owns(x, q) then 1 else 0)
    requires v in values && values[v].managed ==> values[v].storage == Payload(q)
    requires x.managed ==> x.storage == Payload(q)
    ensures Anchored(values[v := x], cells[q := c]) && Counted(values[v := x], cells[q := c])
  {
    var after := cells[q := c];
    forall p | p in after ensures 0 < after[p].refCnt == |Owners(values[v := x], p)| < U32 {
      OwnersStore(values, v, x, p);
    }
  }

  /** Storing a Value that owns a live payload, together with one retain. */
  lemma StoreOwner(s: State, v: nat, x: Value)
    requires Inv(s) && x.managed && x.storage.Payload? && x.storage.id in s.cells
    requires v in s.values ==> !s.values[v].managed
    ensures var r := RetainOf(Store(s, v, x), x);
            r.Ok? && (Inv(r.value) <==> s.cells[x.storage.id].refCnt + 1 < U32)
  {
    var q := x.storage.id;
    var c := s.cells[q].(refCnt := Increment(s.cells[q].refCnt));
    assert RetainOf(Store(s, v, x), x) == Ok(s.(values := s.values[v := x], cells := s.cells[q := c]));
    assert BuiltFor(s.cells[q], s.made[q]);
    ShapeKept(s.cells, q, c, s.made, s.retired);
    if s.cells[q].refCnt + 1 < U32 {
      Recount(s.values, s.cells, v, x, q, c);
    } else {
      assert c.refCnt == 0 && s.cells[q := c][q] == c;
    }
  }

  /** Releasing the payload of an owner and letting that owner go plain. */
  lemma DropOwner(s: State, v: nat, x: Value)
    requires Inv(s) && v in s.values && s.values[v].managed && MayLetGo(s, v) && !x.managed
    ensures var r := ReleaseOf(s, s.values[v]); r.Ok? && r.value.values == s.values && Inv(Store(r.value, v, x))
    ensures var r := ReleaseOf(s, s.values[v]).value; var q := s.values[v].storage.id;
            r.cells == if s.cells[q].refCnt > 1 then s.cells[q := s.cells[q].(refCnt := s.cells[q].refCnt - 1)]
                       else s.cells - {q}
  {
    var q := s.values[v].storage.id;
    if s.cells[q].refCnt > 1 {
      var c := s.cells[q].(refCnt := s.cells[q].refCnt - 1);
      assert ReleaseOf(s, s.values[v]) == Ok(s.(cells := s.cells[q := c]));
      Recount(s.values, s.cells, v, x, q, c);
      assert BuiltFor(s.cells[q], s.made[q]);
      ShapeKept(s.cells, q, c, s.made, s.retired);
    } else {
      SoleOwner(s.values, s.cells, v, x);
      RetireKeepsBooks(s, q);
    }
  }

  /** Once its only owner is gone, nobody points at the payload. */
  lemma SoleOwner(values: map<nat, Value>, cells: map<nat, Cell>, v: nat, x: Value)
    requires Anchored(values, cells) && Counted(values, cells)
    requires v in values && values[v].managed && cells[values[v].storage.id].refCnt == 1 && !x.managed
    ensures Anchored(values[v := x], cells - {values[v].storage.id})
    ensures Counted(values[v := x], cells - {values[v].storage.id})
  {
    var q := values[v].storage.id;
    var after := values[v := x];
    forall p ensures |Owners(after, p)| + (if p == q then 1 else 0) == |Owners(values, p)| {
      OwnersStore(values, v, x, p);
    }
    assert Owners(after, q) == {};
    forall u | u in after && after[u].managed ensures after[u].storage.Payload? && after[u].storage.id in cells - {q} {
      assert u !in Owners(after, q);
    }
  }

  lemma RetireKeepsBooks(s: State, q: nat)
    requires Accounted(s.cells, s.made, s.retired) && Logged(s.trace, s.retired)
    requires q in s.cells && s.cells[q].refCnt == 1 && Destroyable(s.cells[q])
    ensures var r := Released(s, q);
            r.Ok? && Logged(r.value.trace, r.value.retired) && Accounted(r.value.cells, r.value.made, r.value.retired)
  {
    var c := s.cells[q].(refCnt := 0);
    assert BuiltFor(s.cells[q], s.made[q]);
    RetireLogged(s.trace, s.retired, q, c);
    RetireAccounted(s.cells, s.made, s.retired, q, c);
  }

  lemma RetireLogged(trace: seq<Event>, retired: map<nat, Cell>, q: nat, c: Cell)
    requires Logged(trace, retired) && q !in retired
    ensures Logged(trace + ReleaseEvents(q, c), retired[q := c])
  {
    var events := ReleaseEvents(q, c);
    ReleaseEventsUniform(q, c);
    forall p: nat ensures TraceOf(trace + events, p) == TraceOf(trace, p) + if p == q then events else [] {
      TraceOfAppend(trace, events, p);
      TraceOfUniform(events, q, p);
    }
  }

  lemma RetireAccounted(cells: map<nat, Cell>, made: seq<Allocation>, retired: map<nat, Cell>, q: nat, c: Cell)
    requires Accounted(cells, made, retired) && q in cells && c == cells[q].(refCnt := c.refCnt) && Destroyable(c)
    ensures Accounted(cells - {q}, made, retired[q := c])
  {
    assert BuiltFor(cells[q], made[q]);
    assert BuiltFor(c, made[q]);
  }

  lemma ReleaseEventsUniform(p: nat, c: Cell)
    ensures forall e :: e in ReleaseEvents(p, c) ==> e.id == p
  {
    var n := c.layout.elemsNum;
    if n > 0 { DestructionsUniform(p, n, Stride(c.layout.allocSize, n)); }
  }

  /** Ownership handed from one Value to another leaves every count alone. */
  lemma Handover(s: State, d: nat, src: nat)
    requires Inv(s) && src in s.values && d != src && (d in s.values ==> !s.values[d].managed)
    ensures Inv(Store(Store(s, d, s.values[src]), src, MovedFrom(s.values[src])))
  {
    var x := s.values[src];
    var t := Store(s, d, x);
    var r := Store(t, src, MovedFrom(x));
    forall p ensures |Owners(r.values, p)| == |Owners(s.values, p)| {
      OwnersStore(s.values, d, x, p);
      OwnersStore(t.values, src, MovedFrom(x), p);
    }
  }

  // ----- one operation -----

  lemma ConstructExact(s: State, d: nat, t: Type, interp: nat)
    requires Inv(s) && d !in s.values
    ensures var op := Construct(d, t, interp);
            Step(s, op).Ok? && Inv(Step(s, op).value) <==> Safe(s, op)
  {
    var v := Value(Uninitialised, false, CorrespondingTypeKind(t), Some(t), Some(interp));
    if !NeedsManagedAllocation(t) {
      StorePlain(s, d, v);
    } else {
      var id, x, c := |s.made|, v.(managed := true, storage := Payload(|s.made|)), Cell(1, LayoutOf(t), CANARY);
      var made := s.made + [Allocation(t, c.layout)];
      BlockHoldsIff(c.layout.allocSize);
      if HEADER + c.layout.allocSize < U32 {
        assert Step(s, Construct(d, t, interp))
            == Ok(s.(values := s.values[d := x], cells := s.cells[id := c], made := made));
        FirstOwner(s.values, s.cells, d, x, id, c);
        AccountFresh(s.cells, s.made, s.retired, c, t);
      }
    }
  }

  lemma FirstOwner(values: map<nat, Value>, cells: map<nat, Cell>, d: nat, x: Value, id: nat, c: Cell)
    requires Anchored(values, cells) && Counted(values, cells)
    requires d !in values && id !in cells && Owns(x, id) && c.refCnt == 1
    ensures Anchored(values[d := x], cells[id := c]) && Counted(values[d := x], cells[id := c])
  {
    assert Owners(values, id) == {};
    var after := cells[id := c];
    forall p | p in after ensures 0 < after[p].refCnt == |Owners(values[d := x], p)| < U32 {
      OwnersStore(values, d, x, p);
    }
  }

  lemma AccountFresh(cells: map<nat, Cell>, made: seq<Allocation>, retired: map<nat, Cell>, c: Cell, t: Type)
    requires Accounted(cells, made, retired) && |c.head| == |CANARY|
    requires CANARY_SIZE <= c.layout.allocSize && HEADER + c.layout.allocSize < U32
    ensures Accounted(cells[|made| := c], made + [Allocation(t, c.layout)], retired)
  {
    var id, after := |made|, made + [Allocation(t, c.layout)];
    assert forall p | p in cells || p in retired :: after[p] == made[p];
    assert cells[id := c][id] == c && BuiltFor(c, after[id]);
  }

  /** One count went down, or its payload went with it. */
  ghost predicate OneLess(cells: map<nat, Cell>, after: map<nat, Cell>, v: Value) {
    && (forall q :: q in after ==>
         q in cells && 0 < after[q].refCnt && after[q].refCnt + (if Owns(v, q) then 1 else 0) == cells[q].refCnt)
    && (forall q :: q in cells && q !in after ==> Owns(v, q) && cells[q].refCnt == 1)
  }

  lemma ReleasedOneLess(cells: map<nat, Cell>, after: map<nat, Cell>, v: Value)
    requires v.managed && v.storage.Payload? && v.storage.id in cells
    requires forall q :: q in cells ==> 0 < cells[q].refCnt
    requires var q := v.storage.id;
             after == if cells[q].refCnt > 1 then cells[q := cells[q].(refCnt := cells[q].refCnt - 1)] else cells - {q}
    ensures OneLess(cells, after, v)
  {}

  /** The state in which `d` has released what it owned, before it is stored to. */
  lemma Vacate(s: State, d: nat, plain: Value) returns (s1: State)
    requires Inv(s) && d in s.values && MayLetGo(s, d) && !plain.managed
    ensures ReleaseOf(s, s.values[d]) == Ok(s1) && s1.values == s.values && Inv(Store(s1, d, plain))
    ensures OneLess(s.cells, s1.cells, s.values[d])
  {
    var v := s.values[d];
    if v.managed {
      DropOwner(s, d, plain);
      s1 := ReleaseOf(s, v).value;
      OwnedCell(s, d);
      ReleasedOneLess(s.cells, s1.cells, v);
    } else {
      StorePlain(s, d, plain);
      s1 := s;
    }
  }

  lemma OwnedCell(s: State, v: nat)
    requires Inv(s) && v in s.values && s.values[v].managed
    ensures s.values[v].storage.Payload? && s.values[v].storage.id in s.cells
  {}

  /** The second half of a copy assignment from another Value, or from itself
      when a payload is still held by somebody else. */
  lemma AssignVacated(s1: State, d: nat, x: Value)
    requires d in s1.values && Inv(Store(s1, d, x.(managed := false)))
    requires x.managed ==> x.storage.Payload? && x.storage.id in s1.cells
    ensures var r := RetainOf(Store(s1, d, x), x);
            r.Ok? && (Inv(r.value) <==> (x.managed ==> s1.cells[x.storage.id].refCnt + 1 < U32))
  {
    var s2 := Store(s1, d, x.(managed := false));
    assert Store(s2, d, x) == Store(s1, d, x);
    if x.managed { StoreOwner(s2, d, x); } else { assert x == x.(managed := false); }
  }

  /** After the release the payload of the other side is still there, with room for one
      more owner, exactly when the guard holds. */
  lemma AssignGuard(s: State, d: nat, src: nat, cells: map<nat, Cell>)
    requires Inv(s) && d in s.values && src in s.values && s.values[src].managed && MayLetGo(s, d)
    requires OneLess(s.cells, cells, s.values[d])
    ensures var q := PayloadOf(s, src);
            s.values[src].storage == Payload(q) && q in s.cells
            && (q in cells && cells[q].refCnt + 1 < U32 <==> Safe(s, CopyAssign(d, src)))
  {
    OwnedCell(s, src);
    var q := s.values[src].storage.id;
    if q !in cells {
      SoleMember(s.values, q, d);
      assert src in Owners(s.values, q);
    }
  }

  /** Otherwise the release fails its assertion, and so does whatever needs it. */
  lemma StuckRelease(s: State, d: nat)
    requires Inv(s) && d in s.values && !MayLetGo(s, d)
    ensures ReleaseOf(s, s.values[d]).Fault?
  {
    OwnedCell(s, d);
  }

  lemma CopyAssignExact(s: State, d: nat, src: nat)
    requires Inv(s) && d in s.values && src in s.values
    ensures var op := CopyAssign(d, src);
            Step(s, op).Ok? && Inv(Step(s, op).value) <==> Safe(s, op)
  {
    if MayLetGo(s, d) { CopyAssignReleased(s, d, src); } else { StuckRelease(s, d); }
  }

  lemma CopyAssignReleased(s: State, d: nat, src: nat)
    requires Inv(s) && d in s.values && src in s.values && MayLetGo(s, d)
    ensures var op := CopyAssign(d, src);
            Step(s, op).Ok? && Inv(Step(s, op).value) <==> Safe(s, op)
  {
    var x := s.values[src];
    var s1 := Vacate(s, d, x.(managed := false));
    assert Step(s, CopyAssign(d, src)) == RetainOf(Store(s1, d, x), x);
    if !x.managed {
      AssignVacated(s1, d, x);
    } else {
      AssignGuard(s, d, src, s1.cells);
      if PayloadOf(s, src) in s1.cells { AssignVacated(s1, d, x); }
    }
  }

  lemma SoleMember(values: map<nat, Value>, q: nat, d: nat)
    requires d in values && Owns(values[d], q) && |Owners(values, q)| == 1
    ensures Owners(values, q) == {d}
  {
    assert |Owners(values, q) - {d}| == 0;
  }

  /** Move assignment needs no more than that, self-assignment included. */
  lemma MoveAssignExact(s: State, d: nat, src: nat)
    requires Inv(s) && d in s.values && src in s.values
    ensures var op := MoveAssign(d, src);
            Step(s, op).Ok? && Inv(Step(s, op).value) <==> Safe(s, op)
  {
    if MayLetGo(s, d) { MoveAssignReleased(s, d, src); } else { StuckRelease(s, d); }
  }

  lemma MoveAssignReleased(s: State, d: nat, src: nat)
    requires Inv(s) && d in s.values && src in s.values && MayLetGo(s, d)
    ensures var r := Step(s, MoveAssign(d, src)); r.Ok? && Inv(r.value)
  {
    var x := s.values[src];
    var s1 := Vacate(s, d, MovedFrom(x));
    HandoverVacated(s1, d, src);
    assert Step(s, MoveAssign(d, src)) == Ok(Store(Store(s1, d, x), src, MovedFrom(x)));
  }

  lemma HandoverVacated(s1: State, d: nat, src: nat)
    requires src in s1.values && Inv(Store(s1, d, MovedFrom(s1.values[src])))
    ensures Inv(Store(Store(s1, d, s1.values[src]), src, MovedFrom(s1.values[src])))
  {
    var x := s1.values[src];
    var s2 := Store(s1, d, MovedFrom(x));
    if d == src {
      assert Store(Store(s1, d, x), d, MovedFrom(x)) == s2;
    } else {
      Handover(s2, d, src);
      assert Store(s2, d, x) == Store(s1, d, x);
    }
  }

  lemma DestructExact(s: State, d: nat)
    requires Inv(s) && d in s.values
    ensures var op := Destruct(d);
            Step(s, op).Ok? && Inv(Step(s, op).value) <==> Safe(s, op)
  {
    if MayLetGo(s, d) {
      var s1 := Vacate(s, d, DEFAULT_VALUE);
      RemovePlain(Store(s1, d, DEFAULT_VALUE), d);
      assert s1.values[d := DEFAULT_VALUE] - {d} == s1.values - {d};
    } else {
      StuckRelease(s, d);
    }
  }

  /** Writing the storage of an owning Value loses an owner or an anchor. */
  lemma SetStorageExact(s: State, d: nat, st: Storage)
    requires Inv(s) && d in s.values
    ensures Inv(Step(s, SetStorage(d, st)).value) <==> Safe(s, SetStorage(d, st))
  {
    var x := s.values[d].(storage := st);
    if !s.values[d].managed {
      StorePlain(s, d, x);
    } else if st != s.values[d].storage {
      OwnersStore(s.values, d, x, s.values[d].storage.id);
    } else {
      assert s.values[d := x] == s.values;
    }
  }

  lemma WritePayloadKeeps(s: State, d: nat, h: seq<byte>)
    requires Inv(s) && WellFormed(s, WritePayload(d, h))
    ensures var r := Step(s, WritePayload(d, h)); r.Ok? && Inv(r.value)
  {
    var q := s.values[d].storage.id;
    var c := s.cells[q].(head := h);
    Recount(s.values, s.cells, d, s.values[d], q, c);
    assert s.values[d := s.values[d]] == s.values;
    ShapeKept(s.cells, q, c, s.made, s.retired);
  }

  /** An operation goes through and keeps the counts right exactly when `Safe` holds. */
  lemma StepExact(s: State, op: Op)
    requires Inv(s) && WellFormed(s, op)
    ensures Step(s, op).Ok? && Inv(Step(s, op).value) <==> Safe(s, op)
  {
    match op
    case DefaultConstruct(d) => StorePlain(s, d, DEFAULT_VALUE);
    case Construct(d, t, interp) => ConstructExact(s, d, t, interp);
    case CopyConstruct(d, src) =>
      if s.values[src].managed { StoreOwner(s, d, s.values[src]); } else { StorePlain(s, d, s.values[src]); }
    case MoveConstruct(d, src) => Handover(s, d, src);
    case CopyAssign(d, src) => CopyAssignExact(s, d, src);
    case MoveAssign(d, src) => MoveAssignExact(s, d, src);
    case Destruct(d) => DestructExact(s, d);
    case SetStorage(d, st) => SetStorageExact(s, d, st);
    case WritePayload(d, h) => WritePayloadKeeps(s, d, h);
  }

  // ----- what the fields become -----

  predicate SameFields(a: Value, b: Value) {
    a.storage == b.storage && a.managed == b.managed && a.kind == b.kind && a.ty == b.ty && a.interp == b.interp
  }

  /** A copy, constructed or assigned, has all the fields its source had. */
  lemma CopyEqualsSource(s: State, op: Op)
    requires WellFormed(s, op) && (op.CopyConstruct? || op.CopyAssign?) && Step(s, op).Ok?
    ensures var r := Step(s, op).value; op.dst in r.values && SameFields(r.values[op.dst], s.values[op.src])
  {}

  /** So has the target of a move; the source is left invalid and without ownership. */
  lemma MoveHandsOver(s: State, op: Op)
    requires WellFormed(s, op) && (op.MoveConstruct? || op.MoveAssign?) && Step(s, op).Ok?
    ensures var r := Step(s, op).value;
            && op.dst in r.values && (op.dst != op.src ==> SameFields(r.values[op.dst], s.values[op.src]))
            && op.src in r.values && !r.values[op.src].managed && r.values[op.src].kind == Invalid
            && r.values[op.src].storage == s.values[op.src].storage
            && r.values[op.src].ty == s.values[op.src].ty && r.values[op.src].interp == s.values[op.src].interp
  {}

  /** A constructed Value knows its type and interpreter; it owns a payload that nobody
      had before, filled with the canary, exactly when its type is a record, an array or
      a member pointer. */
  lemma ConstructedFields(s: State, d: nat, t: Type, interp: nat)
    requires Inv(s) && d !in s.values && Step(s, Construct(d, t, interp)).Ok?
    ensures var r := Step(s, Construct(d, t, interp)).value;
            && d in r.values
            && var v, c := r.values[d], Resolved(t);
            && v.ty == Some(t) && v.interp == Some(interp) && v.kind == CorrespondingTypeKind(t)
            && (v.managed <==> c.RecordType? || c.ConstantArrayType? || c.MemberPointerType?)
            && (!v.managed ==> v.storage == Uninitialised && r.cells == s.cells && r.made == s.made)
            && (v.managed ==>
                 && v.storage.Payload? && v.storage.id !in s.cells && v.storage.id !in s.retired
                 && r.cells == s.cells[v.storage.id := Cell(1, LayoutOf(t), CANARY)]
                 && r.made == s.made + [Allocation(t, LayoutOf(t))])
  {
    NeedsIff(t);
  }

  /** The bytes of a payload nobody has written to. */
  lemma CanaryBytes()
    ensures !IsAlive(Cell(1, Layout(true, 8, 1), [0x4c, 0x37, 0xad, 0x8f, 0x2d, 0x23, 0x95, 0x91]))
  {}

  /** A default-constructed Value is invalid and owns nothing; a destroyed one is gone;
      setting the storage sets nothing else. */
  lemma PlainFields(s: State, op: Op)
    requires WellFormed(s, op) && Step(s, op).Ok?
    ensures var r := Step(s, op).value;
            && (op.DefaultConstruct? ==>
                 op.dst in r.values && r.values[op.dst].kind == Invalid && !r.values[op.dst].managed
                 && r.values[op.dst].ty == None && r.values[op.dst].interp == None)
            && (op.Destruct? ==> op.dst !in r.values)
            && (op.SetStorage? ==>
                 op.dst in r.values && r.values[op.dst].storage == op.storage
                 && SameFields(r.values[op.dst].(storage := s.values[op.dst].storage), s.values[op.dst]))
  {}

  /** No operation touches a Value it does not name. */
  lemma OthersUnchanged(s: State, op: Op, v: nat)
    requires WellFormed(s, op) && Step(s, op).Ok?
    requires v != op.dst && (op.MoveConstruct? || op.MoveAssign? ==> v != op.src)
    ensures var r := Step(s, op).value;
            (v in r.values <==> v in s.values) && (v in s.values ==> r.values[v] == s.values[v])
  {}

  /** The payload, live or retired, still has this layout and these bytes. */
  predicate Keeps(s: State, p: nat, layout: Layout, head: seq<byte>) {
    if p in s.cells then s.cells[p].layout == layout && s.cells[p].head == head
    else p in s.retired && s.retired[p].layout == layout && s.retired[p].head == head
  }

  lemma CountingKeeps(s: State, v: Value, p: nat, layout: Layout, head: seq<byte>)
    requires Keeps(s, p, layout, head)
    ensures RetainOf(s, v).Ok? ==> Keeps(RetainOf(s, v).value, p, layout, head)
    ensures ReleaseOf(s, v).Ok? ==> Keeps(ReleaseOf(s, v).value, p, layout, head)
  {}

  lemma OwnershipKeeps(s: State, op: Op, p: nat, layout: Layout, head: seq<byte>)
    requires WellFormed(s, op) && Step(s, op).Ok? && Keeps(s, p, layout, head)
    requires op.CopyConstruct? || op.CopyAssign? || op.MoveAssign? || op.Destruct?
    ensures Keeps(Step(s, op).value, p, layout, head)
  {
    match op
    case CopyConstruct(d, src) => CountingKeeps(Store(s, d, s.values[src]), s.values[src], p, layout, head);
    case CopyAssign(d, src) =>
      CountingKeeps(s, s.values[d], p, layout, head);
      CountingKeeps(Store(ReleaseOf(s, s.values[d]).value, d, s.values[src]), s.values[src], p, layout, head);
    case MoveAssign(d, src) => CountingKeeps(s, s.values[d], p, layout, head);
    case Destruct(d) => CountingKeeps(s, s.values[d], p, layout, head);
  }

  lemma WritingKeeps(s: State, d: nat, h: seq<byte>, p: nat)
    requires Inv(s) && WellFormed(s, WritePayload(d, h)) && p in s.cells
    ensures Step(s, WritePayload(d, h)).Ok?
    ensures Keeps(Step(s, WritePayload(d, h)).value, p, s.cells[p].layout,
              if Owns(s.values[d], p) then h else s.cells[p].head)
  {
    OwnedCell(s, d);
  }

  /** A payload keeps its layout and its bytes for life, and into retirement, unless user
      code writes through a Value that owns it. */
  lemma PayloadsKept(s: State, op: Op, p: nat)
    requires Inv(s) && WellFormed(s, op) && Step(s, op).Ok? && p in s.cells
    ensures Keeps(Step(s, op).value, p, s.cells[p].layout,
              if op.WritePayload? && Owns(s.values[op.dst], p) then op.head else s.cells[p].head)
  {
    match op
    case DefaultConstruct(d) =>
    case Construct(d, t, interp) => ConstructedFields(s, d, t, interp);
    case MoveConstruct(d, src) =>
    case SetStorage(d, st) =>
    case WritePayload(d, head) => WritingKeeps(s, d, head, p);
    case _ => OwnershipKeeps(s, op, p, s.cells[p].layout, s.cells[p].head);
  }

  // ----- the life of a payload -----

  lemma OwnersIff(values: map<nat, Value>, cells: map<nat, Cell>, p: nat)
    requires Anchored(values, cells) && Counted(values, cells)
    ensures p in cells <==> Owners(values, p) != {}
  {
    if p in cells {
      assert |Owners(values, p)| > 0;
    } else {
      forall u | u in values ensures !Owns(values[u], p) {
        assert values[u].managed ==> values[u].storage.id in cells;
      }
    }
  }

  lemma MadeGrows(s: State, op: Op)
    requires WellFormed(s, op)
    ensures Step(s, op).Ok? ==> |s.made| <= |Step(s, op).value.made|
  {}

  /** A payload is freed by a step exactly when the step takes away its last owner. */
  lemma FreedWithLastOwner(s: State, op: Op, p: nat)
    requires Inv(s) && WellFormed(s, op) && Safe(s, op) && p in s.cells
    ensures Step(s, op).Ok?
    ensures var r := Step(s, op).value;
            (p in r.retired <==> Owners(r.values, p) == {}) && (p in r.cells <==> p !in r.retired)
  {
    StepExact(s, op);
    MadeGrows(s, op);
    var r := Step(s, op).value;
    assert p < |s.made| <= |r.made|;
    OwnersIff(r.values, r.cells, p);
  }

  /** Destroying a fresh copy puts everything back as it was, history included. */
  lemma CopyUndone(s: State, d: nat, src: nat)
    requires Inv(s) && WellFormed(s, CopyConstruct(d, src)) && Safe(s, CopyConstruct(d, src))
    ensures Step(s, CopyConstruct(d, src)).Ok? && d in Step(s, CopyConstruct(d, src)).value.values
    ensures Step(Step(s, CopyConstruct(d, src)).value, Destruct(d)) == Ok(s)
  {
    var x := s.values[src];
    assert s.values[d := x] - {d} == s.values;
    if x.managed {
      OwnedCell(s, src);
      var q := x.storage.id;
      var c := s.cells[q];
      var more := c.(refCnt := c.refCnt + 1);
      var t := s.(values := s.values[d := x], cells := s.cells[q := more]);
      assert Step(s, CopyConstruct(d, src)) == Ok(t) && t.cells[q] == more;
      assert more.(refCnt := more.refCnt - 1) == c && t.cells[q := c] == s.cells;
      assert Released(t, q) == Ok(t.(cells := s.cells));
    }
  }

  // ----- whole runs -----

  function Run(s: State, ops: seq<Op>): Outcome<State>
    decreases |ops|
  {
    if ops == [] then Ok(s)
    else if !WellFormed(s, ops[0]) then Fault
    else
      var t :- Step(s, ops[0]);
      Run(t, ops[1..])
  }

  predicate SafeRun(s: State, ops: seq<Op>)
    decreases |ops|
  {
    ops == [] || (
      && WellFormed(s, ops[0])
      && Safe(s, ops[0])
      && (Step(s, ops[0]).Ok? ==> SafeRun(Step(s, ops[0]).value, ops[1..])))
  }

  /** Over every safe run no operation faults and the invariant holds throughout. */
  lemma {:induction false} RunKeepsInvariant(s: State, ops: seq<Op>)
    requires Inv(s) && SafeRun(s, ops)
    ensures Run(s, ops).Ok? && Inv(Run(s, ops).value)
    decreases |ops|
  {
    if ops != [] {
      StepExact(s, ops[0]);
      RunKeepsInvariant(Step(s, ops[0]).value, ops[1..]);
    }
  }

  // ----- the shortest runs that break -----

  /** The state with one object at slot 0 whose payload starts with `head`. */
  function Alone(t: Type, head: seq<byte>): State {
    var l := LayoutOf(t);
    var v := Value(Payload(0), true, CorrespondingTypeKind(t), Some(t), Some(0));
    State(map[0 := v], map[0 := Cell(1, l, head)], [], [Allocation(t, l)], map[])
  }

  lemma BuiltAlone(t: Type)
    requires NeedsManagedAllocation(t) && HEADER + LayoutOf(t).allocSize < U32
    ensures Step(EMPTY, Construct(0, t, 0)) == Ok(Alone(t, CANARY))
  {
    BlockHoldsIff(LayoutOf(t).allocSize);
    var r := Step(EMPTY, Construct(0, t, 0)).value;
    var s := Alone(t, CANARY);
    assert r.values == s.values && r.cells == s.cells && r.made == s.made;
  }

  lemma TwoSteps(s: State, first: Op, second: Op)
    requires WellFormed(s, first) && Step(s, first).Ok? && WellFormed(Step(s, first).value, second)
    ensures Run(s, [first]) == Step(s, first)
    ensures Run(s, [first, second]) == Step(Step(s, first).value, second)
  {
    var t := Step(s, first).value;
    assert [first][1..] == [] && [first, second][1..] == [second] && [second][1..] == [];
    assert Run(s, [first]) == Run(t, []) && Run(s, [first, second]) == Run(t, [second]);
    if Step(t, second).Ok? { assert Run(t, [second]) == Run(Step(t, second).value, []); }
  }

  lemma {:induction false} RunAppend(s: State, ops: seq<Op>, op: Op)
    ensures var r := Run(s, ops);
            Run(s, ops + [op]) == if r.Ok? && WellFormed(r.value, op) then Step(r.value, op) else Fault
    decreases |ops|
  {
    if ops == [] {
      assert [op][1..] == [];
    } else if WellFormed(s, ops[0]) && Step(s, ops[0]).Ok? {
      RunAppend(Step(s, ops[0]).value, ops[1..], op);
      assert (ops + [op])[1..] == ops[1..] + [op];
    }
  }

  /** A new object assigned to itself retains what it just freed. */
  lemma SoleOwnerSelfAssignment()
    ensures var ops := [Construct(0, RecordType(16, true), 0), CopyAssign(0, 0)];
            WellFormed(EMPTY, ops[0]) && Step(EMPTY, ops[0]).Ok? && !SafeRun(EMPTY, ops) && Run(EMPTY, ops).Fault?
  {
    var t := RecordType(16, true);
    BuiltAlone(t);
    TwoSteps(EMPTY, Construct(0, t, 0), CopyAssign(0, 0));
    assert !Safe(Alone(t, CANARY), CopyAssign(0, 0)) && Step(Alone(t, CANARY), CopyAssign(0, 0)).Fault?;
    assert [Construct(0, t, 0), CopyAssign(0, 0)][1..] == [CopyAssign(0, 0)];
  }

  /** Overwriting the storage of an owner: its destructor no longer finds the payload. */
  lemma OverwrittenStorage()
    ensures var ops := [Construct(0, RecordType(16, true), 0), SetStorage(0, Uninitialised)];
            Run(EMPTY, ops).Ok? && !Inv(Run(EMPTY, ops).value) && Run(EMPTY, ops + [Destruct(0)]).Fault?
  {
    var first, second := Construct(0, RecordType(16, true), 0), SetStorage(0, Uninitialised);
    BuiltAlone(RecordType(16, true));
    TwoSteps(EMPTY, first, second);
    var r := Step(Alone(RecordType(16, true), CANARY), second).value;
    assert r.values[0].managed && !r.values[0].storage.Payload?;
    RunAppend(EMPTY, [first, second], Destruct(0));
  }

  /** 2^32 - 1 one-byte elements ask for a block of 31 bytes, and the header does not fit it. */
  lemma HeaderOutsideBlock()
    ensures var op := Construct(0, ConstantArrayType(RecordType(1, true), U32 - 1), 0);
            WellFormed(EMPTY, op) && Step(EMPTY, op).Fault?
  {
    var t := ConstantArrayType(RecordType(1, true), U32 - 1);
    assert NeedsManagedAllocation(t) && SizeOf(t) == U32 - 1;
    BlockTooSmall();
  }

  /** 2^32 + 8 one-byte elements get a block of 40 bytes, and nothing faults. */
  lemma LargeObjectCut()
    ensures var t := ConstantArrayType(RecordType(1, false), U32 + 8);
            && Safe(EMPTY, Construct(0, t, 0)) && Step(EMPTY, Construct(0, t, 0)).Ok?
            && SizeOf(t) == U32 + 8 && BlockSize(LayoutOf(t).allocSize) == 40
  {
    var t := ConstantArrayType(RecordType(1, false), U32 + 8);
    assert SizeOf(t) == U32 + 8 && PayloadSize(SizeOf(t)) == 8;
    assert NeedsManagedAllocation(t) && !LayoutOf(t).dtor;
  }

  /** An array of no records, once written to, fails the assertion that it has elements. */
  lemma NoElements()
    ensures var t := ConstantArrayType(RecordType(16, true), 0);
            var ops := [Construct(0, t, 0), WritePayload(0, ZEROS)];
            Run(EMPTY, ops).Ok? && Run(EMPTY, ops + [Destruct(0)]).Fault?
  {
    var t := ConstantArrayType(RecordType(16, true), 0);
    assert NeedsManagedAllocation(t) && LayoutOf(t) == Layout(true, CANARY_SIZE, 0);
    BuiltAlone(t);
    WrittenAlone(t);
    TwoSteps(EMPTY, Construct(0, t, 0), WritePayload(0, ZEROS));
    assert ZEROS[0] != CANARY[0];
    assert Step(Alone(t, ZEROS), Destruct(0)).Fault?;
    RunAppend(EMPTY, [Construct(0, t, 0), WritePayload(0, ZEROS)], Destruct(0));
  }

  lemma WrittenAlone(t: Type)
    ensures WellFormed(Alone(t, CANARY), WritePayload(0, ZEROS))
    ensures Step(Alone(t, CANARY), WritePayload(0, ZEROS)) == Ok(Alone(t, ZEROS))
  {
    var c := Cell(1, LayoutOf(t), CANARY);
    assert map[0 := c][0 := c.(head := ZEROS)] == map[0 := c.(head := ZEROS)];
  }

  /** Left alone it goes without a fault. */
  lemma NoElementsUnwritten()
    ensures var ops := [Construct(0, ConstantArrayType(RecordType(16, true), 0), 0), Destruct(0)];
            SafeRun(EMPTY, ops) && Run(EMPTY, ops).Ok? && Run(EMPTY, ops).value.trace == [Freed(0)]
  {
    var t := ConstantArrayType(RecordType(16, true), 0);
    assert NeedsManagedAllocation(t) && LayoutOf(t) == Layout(true, CANARY_SIZE, 0);
    BuiltAndGone(t);
  }

  /** A record whose constructor leaves the first eight bytes alone is never destroyed. */
  lemma UnwrittenNotDestroyed()
    ensures var ops := [Construct(0, RecordType(1, true), 0), Destruct(0)];
            SafeRun(EMPTY, ops) && Run(EMPTY, ops).Ok? && Run(EMPTY, ops).value.trace == [Freed(0)]
  {
    BuiltAndGone(RecordType(1, true));
  }

  lemma BuiltAndGone(t: Type)
    requires NeedsManagedAllocation(t) && HEADER + LayoutOf(t).allocSize < U32
    ensures var ops := [Construct(0, t, 0), Destruct(0)];
            SafeRun(EMPTY, ops) && Run(EMPTY, ops).Ok? && Run(EMPTY, ops).value.trace == [Freed(0)]
  {
    var first, second := Construct(0, t, 0), Destruct(0);
    BuiltAlone(t);
    var s := Alone(t, CANARY);
    assert Owns(s.values[0], 0) && s.cells[0].head == CANARY;
    assert Step(s, second).Ok? && Step(s, second).value.trace == [] + [Freed(0)];
    TwoSteps(EMPTY, first, second);
    assert SafeRun(s, [second]) by { assert [second][1..] == []; }
    assert [first, second][1..] == [second];
  }

  const ZEROS: seq<byte> := [0, 0, 0, 0, 0, 0, 0, 0]

  /** A record and `n` copies of it, at slots 0 to `n`. */
  function Crowd(n: nat): seq<Op> {
    if n == 0 then [Construct(0, RecordType(16, true), 0)] else Crowd(n - 1) + [CopyConstruct(n, 0)]
  }

  /** All of the first `n + 1` slots, and no others, own payload 0. */
  ghost predicate AllOwn(values: map<nat, Value>, n: nat) {
    (forall u: nat :: u in values <==> u <= n) && forall u :: u in values ==> Owns(values[u], 0)
  }

  ghost predicate Shared(s: State, n: nat) {
    AllOwn(s.values, n) && 0 in s.cells && s.cells[0].refCnt == (n + 1) % U32
  }

  lemma CrowdStarts()
    ensures var r := Step(EMPTY, Construct(0, RecordType(16, true), 0)); r.Ok? && Shared(r.value, 0)
  {
    BuiltAlone(RecordType(16, true));
  }

  lemma IncrementWraps(n: nat)
    ensures Increment(n % U32) == (n + 1) % U32
  {}

  lemma CrowdGrows(s: State, n: nat)
    requires n > 0 && Shared(s, n - 1)
    ensures WellFormed(s, CopyConstruct(n, 0))
    ensures var r := Step(s, CopyConstruct(n, 0)); r.Ok? && Shared(r.value, n)
  {
    var x, c := s.values[0], s.cells[0];
    assert Owns(x, 0) && n !in s.values;
    var t := s.(values := s.values[n := x], cells := s.cells[0 := c.(refCnt := Increment(c.refCnt))]);
    assert Step(s, CopyConstruct(n, 0)) == Ok(t);
    IncrementWraps(n);
    assert t.cells[0].refCnt == (n + 1) % U32;
  }

  lemma {:induction false} CrowdShares(n: nat)
    ensures Run(EMPTY, Crowd(n)).Ok? && Shared(Run(EMPTY, Crowd(n)).value, n)
  {
    if n == 0 {
      CrowdStarts();
      assert [Construct(0, RecordType(16, true), 0)][1..] == [];
    } else {
      CrowdShares(n - 1);
      CrowdGrows(Run(EMPTY, Crowd(n - 1)).value, n);
      RunAppend(EMPTY, Crowd(n - 1), CopyConstruct(n, 0));
    }
  }

  /** With the 2^32nd owner the count is zero, and the first release fails its assertion. */
  lemma CountWraps()
    ensures var ops := Crowd(U32 - 1);
            && Run(EMPTY, ops).Ok? && 0 in Run(EMPTY, ops).value.cells && Run(EMPTY, ops).value.cells[0].refCnt == 0
            && Run(EMPTY, ops + [Destruct(0)]).Fault?
  {
    CrowdShares(U32 - 1);
    RunAppend(EMPTY, Crowd(U32 - 1), Destruct(0));
  }

  // ----- what a finished run has done -----

  lemma {:induction false} DestructionsAt(p: nat, n: nat, stride: nat, k: nat)
    requires k < n
    ensures var calls := Destructions(p, n, stride);
            |calls| == n && calls[k] == Destroyed(p, Offset(n - 1 - k, stride))
  {
    if n > 1 { DestructionsAt(p, n - 1, stride, if k > 0 then k - 1 else 0); }
  }

  lemma {:induction false} DestructionsLength(p: nat, n: nat, stride: nat)
    ensures |Destructions(p, n, stride)| == n
  {
    if n > 0 { DestructionsLength(p, n - 1, stride); }
  }

  /** Two strides make the same calls exactly when they are equal or one call is all there is. */
  lemma {:induction false} DestructionsAgreeIff(p: nat, n: nat, q: nat, s: nat)
    ensures Destructions(p, n, q) == Destructions(p, n, s) <==> n <= 1 || q == s
  {
    if n > 1 && q != s {
      DestructionsAt(p, n, q, n - 2);
      DestructionsAt(p, n, s, n - 2);
      assert Offset(1, q) != Offset(1, s);
    }
    if n == 1 {
      assert Offset(0, q) == Offset(0, s);
    }
  }

  lemma FinishedRun(ops: seq<Op>, r: State)
    requires SafeRun(EMPTY, ops) && Run(EMPTY, ops) == Ok(r) && r.values == map[]
    ensures Inv(r) && r.cells == map[] && forall p: nat :: p in r.retired <==> p < |r.made|
  {
    EmptyInv();
    RunKeepsInvariant(EMPTY, ops);
    forall q ensures Owners(r.values, q) == {} {}
    assert r.cells.Keys == {};
  }

  /** A run that ends with no Value left has freed every payload exactly once. If
      the payload had a recognised destructor and its canary was overwritten, its
      N elements were destroyed just before, last one first, each call inside the
      allocated block; otherwise none was. */
  lemma EverythingReleasedOnce(ops: seq<Op>, r: State, p: nat)
    requires SafeRun(EMPTY, ops) && Run(EMPTY, ops) == Ok(r) && r.values == map[] && p < |r.made|
    ensures r.cells == map[] && p in r.retired
    ensures var calls, l, n := TraceOf(r.trace, p), r.made[p].layout, r.made[p].layout.elemsNum;
            if l.dtor && IsAlive(r.retired[p]) then
              && n > 0 && |calls| == n + 1 && calls[n] == Freed(p)
              && ReverseCalls(calls[..n], p, n, Stride(l.allocSize, n), BlockSize(l.allocSize))
            else calls == [Freed(p)]
  {
    FinishedRun(ops, r);
    assert BuiltFor(r.retired[p], r.made[p]);
    var calls, l, n := TraceOf(r.trace, p), r.made[p].layout, r.made[p].layout.elemsNum;
    assert calls == ReleaseEvents(p, r.retired[p]);
    if l.dtor && IsAlive(r.retired[p]) {
      DestructionsReverse(p, n, l.allocSize);
      assert calls[..n] == Destructions(p, n, Stride(l.allocSize, n));
    }
  }

  /** One destructor call for each of `n` elements, from the last to the first,
      none reaching past the block. */
  ghost predicate ReverseCalls(calls: seq<Event>, p: nat, n: nat, stride: nat, block: nat) {
    && |calls| == n
    && forall k: nat :: k < n ==>
         calls[k] == Destroyed(p, Offset(n - 1 - k, stride)) && HEADER + calls[k].offset + stride <= block
  }

  lemma DestructionsReverse(p: nat, n: nat, alloc: nat)
    requires n > 0 && CANARY_SIZE <= alloc && HEADER + alloc < U32
    ensures ReverseCalls(Destructions(p, n, Stride(alloc, n)), p, n, Stride(alloc, n), BlockSize(alloc))
  {
    CallInside(p, n, alloc, 0);
    forall k: nat | k < n { CallInside(p, n, alloc, k); }
  }

  lemma CallInside(p: nat, n: nat, alloc: nat, k: nat)
    requires k < n && CANARY_SIZE <= alloc && HEADER + alloc < U32
    ensures var q := Stride(alloc, n);
            var calls := Destructions(p, n, q);
            && |calls| == n && calls[k] == Destroyed(p, Offset(n - 1 - k, q))
            && HEADER + calls[k].offset + q <= BlockSize(alloc)
  {
    DestructionsAt(p, n, Stride(alloc, n), k);
    OffsetsInside(alloc, n, n - 1 - k);
  }

  /** Every payload ever made was laid out for the type it was made for. */
  ghost predicate LaidOut(made: seq<Allocation>) {
    forall a :: a in made ==> a.layout == LayoutOf(a.ty)
  }

  lemma {:induction false} RunLaysOut(s: State, ops: seq<Op>)
    requires LaidOut(s.made)
    ensures Run(s, ops).Ok? ==> LaidOut(Run(s, ops).value.made)
    decreases |ops|
  {
    if ops != [] && WellFormed(s, ops[0]) && Step(s, ops[0]).Ok? {
      RunLaysOut(Step(s, ops[0]).value, ops[1..]);
    }
  }

  /** The events of a payload whose `n` elements of size `s` were each destroyed once, at
      their true addresses, before it was freed. */
  function Exact(p: nat, n: nat, s: nat): seq<Event> {
    Destructions(p, n, s) + [Freed(p)]
  }

  /** A payload of records that is gone at the end of a safe run had each true element
      destroyed once exactly when its canary was overwritten, it was a record or an array
      written with one dimension, its size fits 32 bits and padding did not stretch its
      stride. An array without elements has nothing to destroy. */
  lemma EveryElementDestroyedOnce(ops: seq<Op>, r: State, p: nat, t: Type)
    requires SafeRun(EMPTY, ops) && Run(EMPTY, ops) == Ok(r) && r.values == map[]
    requires p < |r.made| && r.made[p].ty == t
    requires Leaf(t).RecordType? && Leaf(t).destructible && ElementCount(t) < U64
    ensures p in r.retired
    ensures var n, s := ElementCount(t), SizeOf(Leaf(t));
            TraceOf(r.trace, p) == Exact(p, n, s) <==>
            n == 0 || (
              && IsAlive(r.retired[p]) && OneLevel(t)
              && (n == 1 || (n * s < U32 && n * (s + 1) > CANARY_SIZE)))
  {
    FinishedRun(ops, r);
    RunLaysOut(EMPTY, ops);
    var l := r.made[p].layout;
    assert l == LayoutOf(t) && BuiltFor(r.retired[p], r.made[p]);
    assert TraceOf(r.trace, p) == ReleaseEvents(p, r.retired[p]);
    LayoutExactIff(p, r.retired[p], t);
  }

  /** At every moment of a safe run, an object lies inside the block that was allocated for
      it exactly when it fits 32 bits together with the header. */
  lemma ObjectInsideIff(ops: seq<Op>, r: State, p: nat)
    requires SafeRun(EMPTY, ops) && Run(EMPTY, ops) == Ok(r) && p < |r.made|
    ensures var a := r.made[p];
            HEADER + SizeOf(a.ty) <= BlockSize(a.layout.allocSize) <==> HEADER + SizeOf(a.ty) < U32
  {
    EmptyInv();
    RunKeepsInvariant(EMPTY, ops);
    RunLaysOut(EMPTY, ops);
    var a, c := r.made[p], if p in r.cells then r.cells[p] else r.retired[p];
    assert a.layout == LayoutOf(a.ty) && BuiltFor(c, a);
    FitsIff(SizeOf(a.ty));
  }

  lemma LayoutExactIff(p: nat, c: Cell, t: Type)
    requires Leaf(t).RecordType? && Leaf(t).destructible && ElementCount(t) < U64
    requires c.layout == LayoutOf(t) && Destroyable(c)
    ensures var n, s := ElementCount(t), SizeOf(Leaf(t));
            ReleaseEvents(p, c) == Exact(p, n, s) <==>
            n == 0 || (IsAlive(c) && OneLevel(t) && (n == 1 || (n * s < U32 && n * (s + 1) > CANARY_SIZE)))
  {
    var n, s, m := ElementCount(t), SizeOf(Leaf(t)), c.layout.elemsNum;
    DtorFoundIff(t);
    ElementsRecognisedIff(t);
    SizeIsCountTimesLeaf(t);
    DestructionsLength(p, n, s);
    if c.layout.dtor && IsAlive(c) {
      var q := Stride(c.layout.allocSize, m);
      DestructionsLength(p, m, q);
      if m == n {
        StrideExactIff(n, s);
        DestructionsAgreeIff(p, n, q, s);
        FrontsAgree(Destructions(p, n, q), Destructions(p, n, s), Freed(p));
      }
    }
  }

  lemma FrontsAgree(a: seq<Event>, b: seq<Event>, e: Event)
    ensures a + [e] == b + [e] <==> a == b
  {
    if a + [e] == b + [e] {
      assert |a| == |b| && a == (a + [e])[..|a|] && b == (b + [e])[..|b|];
    }
  }

  lemma EmptyInv()
    ensures Inv(EMPTY)
  {
    assert forall p: nat :: TraceOf([], p) == [];
  }

  /** C++ memory, changed in place. Every method returns whether it stayed within
      defined behaviour; the state it leaves is the one `Step` describes. */
  class Memory {
    var values: map<nat, Value>
    var cells: map<nat, Cell>
    var trace: seq<Event>
    var made: seq<Allocation>
    ghost var retired: map<nat, Cell>

    ghost function Contents(): State
      reads this
    {
      State(values, cells, trace, made, retired)
    }

    constructor ()
      ensures Contents() == EMPTY
    {
      values, cells, trace, made, retired := map[], map[], [], [], map[];
    }

    method Retain(p: nat) returns (ok: bool)
      modifies this
      ensures ok == Retained(old(Contents()), p).Ok?
      ensures Contents() == if ok then Retained(old(Contents()), p).value else old(Contents())
    {
      if p !in cells {
        return false;
      }
      cells := cells[p := cells[p].(refCnt := Increment(cells[p].refCnt))];
      return true;
    }

    method Release(p: nat) returns (ok: bool)
      modifies this
      ensures ok == Released(old(Contents()), p).Ok?
      ensures ok ==> Contents() == Released(old(Contents()), p).value
    {
      if p !in cells || cells[p].refCnt == 0 {
        return false;
      }
      cells := cells[p := cells[p].(refCnt := cells[p].refCnt - 1)];
      ok := true;
      if cells[p].refCnt == 0 {
        ok := Dispose(p);
        assert ok ==> cells == old(cells) - {p};
      }
    }

    /** What happens when the last owner lets go: the elements, then the block. */
    method Dispose(p: nat) returns (ok: bool)
      requires p in cells
      modifies this
      ensures var c := old(cells[p]); ok == !(c.layout.dtor && IsAlive(c) && c.layout.elemsNum == 0)
      ensures values == old(values) && made == old(made)
      ensures ok ==> cells == old(cells) - {p} && retired == old(retired)[p := old(cells[p])]
      ensures ok ==> trace == old(trace) + ReleaseEvents(p, old(cells[p]))
    {
      ghost var last := cells[p];
      if cells[p].layout.dtor && IsAlive(cells[p]) {
        if cells[p].layout.elemsNum == 0 {
          return false;
        }
        DestroyElements(p, Stride(cells[p].layout.allocSize, cells[p].layout.elemsNum));
      }
      cells := cells - {p};
      retired := retired[p := last];
      trace := trace + [Freed(p)];
      ok := true;
    }

    /** The loop over the elements counts `elems_num_` itself down. */
    method DestroyElements(p: nat, skip: nat)
      requires p in cells
      modifies this`cells, this`trace
      ensures p in cells && cells == old(cells)[p := cells[p]]
      ensures trace == old(trace) + Destructions(p, old(cells[p]).layout.elemsNum, skip)
    {
      ghost var all := trace + Destructions(p, cells[p].layout.elemsNum, skip);
      while cells[p].layout.elemsNum != 0
        invariant p in cells && cells == old(cells)[p := cells[p]]
        invariant trace + Destructions(p, cells[p].layout.elemsNum, skip) == all
        decreases cells[p].layout.elemsNum
      {
        var i := cells[p].layout.elemsNum - 1;
        ghost var done, rest := trace, Destructions(p, i, skip);
        cells := cells[p := cells[p].(layout := cells[p].layout.(elemsNum := i))];
        trace := trace + [Destroyed(p, Offset(i, skip))];
        assert trace + rest == done + ([Destroyed(p, Offset(i, skip))] + rest);
      }
      assert trace + [] == trace;
    }

    method RetainPayload(d: nat) returns (ok: bool)
      requires d in values
      modifies this
      ensures ok == RetainOf(old(Contents()), old(values[d])).Ok?
      ensures ok ==> Contents() == RetainOf(old(Contents()), old(values[d])).value
    {
      ok := true;
      if values[d].managed {
        if !values[d].storage.Payload? {
          return false;
        }
        ok := Retain(values[d].storage.id);
      }
    }

    method ReleasePayload(d: nat) returns (ok: bool)
      requires d in values
      modifies this
      ensures ok == ReleaseOf(old(Contents()), old(values[d])).Ok?
      ensures ok ==> Contents() == ReleaseOf(old(Contents()), old(values[d])).value
    {
      ok := true;
      if values[d].managed {
        if !values[d].storage.Payload? {
          return false;
        }
        ok := Release(values[d].storage.id);
      }
    }

    /** Value(const Value&): copy the fields, then retain. */
    method CopyConstructValue(d: nat, src: nat) returns (ok: bool)
      requires WellFormed(Contents(), CopyConstruct(d, src))
      modifies this
      ensures ok == Step(old(Contents()), CopyConstruct(d, src)).Ok?
      ensures ok ==> Contents() == Step(old(Contents()), CopyConstruct(d, src)).value
    {
      values := values[d := values[src]];
      ok := RetainPayload(d);
    }

    /** Value(Value&&). */
    method MoveConstructValue(d: nat, src: nat)
      requires WellFormed(Contents(), MoveConstruct(d, src))
      modifies this
      ensures Step(old(Contents()), MoveConstruct(d, src)) == Ok(Contents())
    {
      values := values[d := values[src]];
      values := values[src := values[src].(managed := false)];
      values := values[src := values[src].(kind := Invalid)];
      assert values == old(values)[d := old(values[src])][src := MovedFrom(old(values[src]))];
    }

    /** Value(QualType, Interpreter&) with ManagedAllocate. */
    method ConstructValue(d: nat, t: Type, interp: nat) returns (ok: bool)
      requires WellFormed(Contents(), Construct(d, t, interp))
      modifies this
      ensures ok == Step(old(Contents()), Construct(d, t, interp)).Ok?
      ensures ok ==> Contents() == Step(old(Contents()), Construct(d, t, interp)).value
    {
      ok := true;
      values := values[d := Value(Uninitialised, false, CorrespondingTypeKind(t), Some(t), Some(interp))];
      if NeedsManagedAllocation(t) {
        values := values[d := values[d].(managed := true)];
        var elements := GetNumberOfElements(t);
        var id, layout := |made|, Layout(DtorFound(t), PayloadSize(SizeOf(t)), elements);
        if BlockSize(layout.allocSize) < HEADER + CANARY_SIZE {
          return false;
        }
        cells := cells[id := Cell(1, layout, CANARY)];
        made := made + [Allocation(t, layout)];
        values := values[d := values[d].(storage := Payload(id))];
        assert values == old(values)[d := values[d]];
      }
    }

    /** operator=(const Value&): release, copy the fields one by one, retain. */
    method CopyAssignValue(d: nat, src: nat) returns (ok: bool)
      requires WellFormed(Contents(), CopyAssign(d, src))
      modifies this
      ensures ok == Step(old(Contents()), CopyAssign(d, src)).Ok?
      ensures ok ==> Contents() == Step(old(Contents()), CopyAssign(d, src)).value
    {
      ok := ReleasePayload(d);
      if !ok {
        return;
      }
      CopyFields(d, src);
      ok := RetainPayload(d);
    }

    /** operator=(Value&&). */
    method MoveAssignValue(d: nat, src: nat) returns (ok: bool)
      requires WellFormed(Contents(), MoveAssign(d, src))
      modifies this
      ensures ok == Step(old(Contents()), MoveAssign(d, src)).Ok?
      ensures ok ==> Contents() == Step(old(Contents()), MoveAssign(d, src)).value
    {
      ok := ReleasePayload(d);
      if !ok {
        return;
      }
      CopyFields(d, src);
      values := values[src := values[src].(managed := false)];
      values := values[src := values[src].(kind := Invalid)];
      assert values == old(values)[d := old(values[src])][src := MovedFrom(old(values[src]))];
    }

    method CopyFields(d: nat, src: nat)
      requires d in values && src in values
      modifies this`values
      ensures values == old(values)[d := old(values[src])]
    {
      values := values[d := values[d].(ty := values[src].ty)];
      values := values[d := values[d].(storage := values[src].storage)];
      values := values[d := values[d].(managed := values[src].managed)];
      values := values[d := values[d].(kind := values[src].kind)];
      values := values[d := values[d].(interp := values[src].interp)];
    }

    /** ~Value(). */
    method DestructValue(d: nat) returns (ok: bool)
      requires WellFormed(Contents(), Destruct(d))
      modifies this
      ensures ok == Step(old(Contents()), Destruct(d)).Ok?
      ensures ok ==> Contents() == Step(old(Contents()), Destruct(d)).value
    {
      ok := ReleasePayload(d);
      if ok {
        values := values - {d};
      }
    }
  }
}
