/**
 Providers: structs whose shared fields hold the handles of cells.  Structs and cells are numbered by
 one counter, which does not run out and never goes back.  Names are `None` when the pointer is null
 or the text is not UTF-8.
 */
module Providers {
  import opened Options
  import opened Structs

  datatype State = State(structs: map<int, StructValue>, cells: map<int, int>, named: map<string, int>, next: int)

  const INITIAL := State(map[], map[], map[], 1)

  /** Handles are below the counter, and structs are well formed. */
  ghost predicate Valid(s: State) {
    && s.next >= 1
    && (forall h :: h in s.structs ==> 0 < h < s.next && WellFormed(s.structs[h]))
    && (forall c :: c in s.cells ==> 0 < c < s.next)
  }

  // ---------------------------------------------------------------------------------------
  // The calls: each yields the new state and its answer
  // ---------------------------------------------------------------------------------------

  function StructNew(s: State, typeName: Option<string>): (State, int) {
    match typeName
    case None => (s, -1)
    case Some(t) => (s.(structs := s.structs[s.next := Empty(t)], next := s.next + 1), s.next)
  }

  function StructSet(s: State, h: int, name: Option<string>, value: int): (State, int) {
    if name.None? || h !in s.structs then (s, -1)
    else (s.(structs := s.structs[h := Set(s.structs[h], name.value, value)]), h)
  }

  function StructGet(s: State, h: int, index: int): int {
    if h in s.structs then GetIndex(s.structs[h], index) else 0
  }

  function StructGetNamed(s: State, h: int, name: Option<string>): int {
    if name.Some? && h in s.structs then GetNamed(s.structs[h], name.value) else 0
  }

  function StructCopy(s: State, dest: int, src: int): (State, int) {
    if dest !in s.structs || src !in s.structs then (s, -1)
    else (s.(structs := s.structs[dest := Copy(s.structs[dest], s.structs[src])]), dest)
  }

  function StructFree(s: State, h: int): (State, int) {
    (s.(structs := s.structs - {h}), if h in s.structs then 0 else -1)
  }

  function SharedNew(s: State): (State, int) {
    (s.(cells := s.cells[s.next := 0], next := s.next + 1), s.next)
  }

  function SharedLoad(s: State, c: int): int {
    if c in s.cells then s.cells[c] else 0
  }

  function SharedStore(s: State, c: int, value: int): (State, int) {
    if c in s.cells then (s.(cells := s.cells[c := value]), 0) else (s, -1)
  }

  function SharedFree(s: State, c: int): (State, int) {
    (s.(cells := s.cells - {c}), if c in s.cells then 0 else -1)
  }

  function SharedCas(s: State, c: int, expected: int, value: int): (State, int) {
    if c !in s.cells then (s, -1)
    else if s.cells[c] == expected then (s.(cells := s.cells[c := value]), 1)
    else (s, 0)
  }

  /** Addition in 64 bits wraps around. */
  function WrapI64(v: int): int {
    (v + 0x8000_0000_0000_0000) % 0x1_0000_0000_0000_0000 - 0x8000_0000_0000_0000
  }

  function SharedAdd(s: State, c: int, delta: int): (State, int) {
    if c in s.cells then (s.(cells := s.cells[c := WrapI64(s.cells[c] + delta)]), s.cells[c]) else (s, 0)
  }

  function SharedGetNamed(s: State, name: Option<string>): (State, int) {
    if name.None? then (s, -1)
    else if name.value in s.named then (s, s.named[name.value])
    else
      var (t, c) := SharedNew(s);
      (t.(named := t.named[name.value := c]), c)
  }

  /** A new cell with the value, and the field pointing to it; the cell stays behind if there is no struct. */
  function FieldInit(s: State, h: int, value: int, name: Option<string>): (State, int) {
    var (t, c) := SharedNew(s);
    var (u, _) := SharedStore(t, c, value);
    var (w, r) := StructSet(u, h, name, c);
    (w, if r < 0 then -1 else c)
  }

  function FieldGet(s: State, h: int, index: int): int {
    var c := StructGet(s, h, index);
    if c <= 0 then 0 else SharedLoad(s, c)
  }

  function FieldSet(s: State, h: int, index: int, value: int): (State, int) {
    var c := StructGet(s, h, index);
    if c <= 0 then (s, -1) else SharedStore(s, c, value)
  }

  function FieldFree(s: State, h: int, index: int): (State, int) {
    var c := StructGet(s, h, index);
    if c <= 0 then (s, -1) else SharedFree(s, c)
  }

  function FieldFreeNamed(s: State, h: int, name: Option<string>): (State, int) {
    var c := StructGetNamed(s, h, name);
    if c <= 0 then (s, -1) else SharedFree(s, c)
  }

  // ---------------------------------------------------------------------------------------
  // Runs
  // ---------------------------------------------------------------------------------------

  datatype Op =
    | New(typeName: Option<string>)
    | SetField(h: int, name: Option<string>, value: int)
    | CopyAll(dest: int, src: int)
    | Free(h: int)
    | CellNew
    | CellNamed(cellName: Option<string>)
    | CellStore(c: int, value: int)
    | CellCas(c: int, expected: int, value: int)
    | CellAdd(c: int, value: int)
    | CellFree(c: int)
    | Init(h: int, name: Option<string>, value: int)
    | StoreShared(h: int, index: int, value: int)
    | FreeShared(h: int, index: int)
    | FreeSharedNamed(h: int, name: Option<string>)

  function Step(s: State, op: Op): State {
    match op
    case New(t) => StructNew(s, t).0
    case SetField(h, name, v) => StructSet(s, h, name, v).0
    case CopyAll(dest, src) => StructCopy(s, dest, src).0
    case Free(h) => StructFree(s, h).0
    case CellNew => SharedNew(s).0
    case CellNamed(name) => SharedGetNamed(s, name).0
    case CellStore(c, v) => SharedStore(s, c, v).0
    case CellCas(c, e, v) => SharedCas(s, c, e, v).0
    case CellAdd(c, d) => SharedAdd(s, c, d).0
    case CellFree(c) => SharedFree(s, c).0
    case Init(h, name, v) => FieldInit(s, h, v, name).0
    case StoreShared(h, i, v) => FieldSet(s, h, i, v).0
    case FreeShared(h, i) => FieldFree(s, h, i).0
    case FreeSharedNamed(h, name) => FieldFreeNamed(s, h, name).0
  }

  function Run(s: State, ops: seq<Op>): State
    decreases |ops|
  {
    if ops == [] then s else Run(Step(s, ops[0]), ops[1..])
  }

  lemma EmptyIsWellFormed(typeName: string)
    ensures WellFormed(Empty(typeName))
  {
  }

  lemma StepKeepsValid(s: State, op: Op)
    requires Valid(s)
    ensures Valid(Step(s, op)) && s.next <= Step(s, op).next
  {
    hide WellFormed, Set, Copy, WrapI64, GetIndex, GetNamed;
    match op {
      case New(t) =>
        if t.Some? {
          EmptyIsWellFormed(t.value);
        }
      case SetField(h, name, v) =>
        if name.Some? && h in s.structs {
          SetKeepsForm(s.structs[h], name.value, v);
        }
      case CopyAll(dest, src) =>
        if dest in s.structs && src in s.structs {
          CopyOverrides(s.structs[dest], s.structs[src]);
        }
      case Init(h, name, v) =>
        if name.Some? && h in s.structs {
          SetKeepsForm(s.structs[h], name.value, s.next);
        }
      case _ =>
        CellCallsKeepValid(s, op);
        hide Step;
    }
  }

  lemma CellCallsKeepValid(s: State, op: Op)
    requires Valid(s) && !op.New? && !op.SetField? && !op.CopyAll? && !op.Init?
    ensures Valid(Step(s, op)) && s.next <= Step(s, op).next
  {
    hide WellFormed, Set, Copy, WrapI64, GetIndex, GetNamed;
  }

  /** A freed cell does not come back, whatever is called. */
  lemma StepKeepsDead(s: State, op: Op, c: int)
    requires Valid(s) && c < s.next && c !in s.cells
    ensures c !in Step(s, op).cells
  {
  }

  // ---------------------------------------------------------------------------------------
  // Shared fields
  // ---------------------------------------------------------------------------------------

  /** A field of a struct. */
  type Field = (int, string)

  predicate Live(s: State, f: Field) {
    f.0 in s.structs && f.1 in s.structs[f.0].fields
  }

  /** The cell of a field; 0 if there is no such field. */
  function CellOf(s: State, f: Field): int {
    StructGetNamed(s, f.0, Some(f.1))
  }

  /** The field that an index stands for. */
  predicate Names(s: State, h: int, index: int, f: Field) {
    f.0 == h && h in s.structs && 0 <= index < |s.structs[h].fieldOrder| && s.structs[h].fieldOrder[index] == f.1
  }

  /** What a load through the field gives. */
  function Loaded(s: State, f: Field): int {
    if CellOf(s, f) <= 0 then 0 else SharedLoad(s, CellOf(s, f))
  }

  /** Loading by index is loading the field that stands there. */
  lemma IndexedLoad(s: State, h: int, index: int, f: Field)
    requires Names(s, h, index, f)
    ensures FieldGet(s, h, index) == Loaded(s, f) && StructGet(s, h, index) == CellOf(s, f)
  {
  }

  /** Live shared fields hold handles that were given out, each its own. */
  ghost predicate Separate(s: State, shared: set<Field>) {
    && (forall f :: f in shared && Live(s, f) ==> 0 < CellOf(s, f) < s.next)
    && (forall f, g :: f in shared && g in shared && Live(s, f) && Live(s, g) && f != g ==> CellOf(s, f) != CellOf(s, g))
    && (forall f :: f in shared && f.0 in s.structs ==> Live(s, f))
    && (forall f :: f in shared ==> f.0 < s.next)
  }

  /** Some shared field stands at the index. */
  ghost predicate IsShared(s: State, shared: set<Field>, h: int, index: int) {
    exists f :: f in shared && Names(s, h, index, f)
  }

  /** The discipline: shared fields are written by init only. */
  ghost predicate Disciplined(s: State, shared: set<Field>, op: Op) {
    match op
    case SetField(h, name, _) => name.Some? ==> (h, name.value) !in shared
    case CopyAll(dest, src) => forall f :: f in shared && f.0 == dest && src in s.structs ==> f.1 !in s.structs[src].fields
    case _ => true
  }

  /** An init makes its field a shared one. */
  function SharedAfter(s: State, shared: set<Field>, op: Op): set<Field> {
    if op.Init? && op.name.Some? && op.h in s.structs then shared + {(op.h, op.name.value)} else shared
  }

  /**
   The call is one on this field, frees its struct, or is given the handle of its cell: by the caller, or
   by a field that is not a shared one.  No call on another shared field is meant.
   */
  ghost predicate Targets(s: State, shared: set<Field>, op: Op, f: Field) {
    match op
    case Init(h, name, _) => name == Some(f.1) && h == f.0
    case StoreShared(h, i, _) => Names(s, h, i, f) || (!IsShared(s, shared, h, i) && StructGet(s, h, i) == CellOf(s, f))
    case FreeShared(h, i) => Names(s, h, i, f) || (!IsShared(s, shared, h, i) && StructGet(s, h, i) == CellOf(s, f))
    case FreeSharedNamed(h, name) =>
      name.Some? && (f == (h, name.value) || ((h, name.value) !in shared && StructGetNamed(s, h, name) == CellOf(s, f)))
    case CellStore(c, _) => c == CellOf(s, f)
    case CellCas(c, _, _) => c == CellOf(s, f)
    case CellAdd(c, _) => c == CellOf(s, f)
    case CellFree(c) => c == CellOf(s, f)
    case Free(h) => h == f.0
    case _ => false
  }

  lemma SetElsewhere(sv: StructValue, name: string, value: int, other: string)
    ensures name != other ==> GetNamed(Set(sv, name, value), other) == GetNamed(sv, other)
    ensures other in Set(sv, name, value).fields <==> other in sv.fields || other == name
    ensures GetNamed(Set(sv, name, value), name) == value
  {
  }

  lemma CopyElsewhere(dest: StructValue, src: StructValue, other: string)
    requires WellFormed(dest) && WellFormed(src) && other !in src.fields
    ensures GetNamed(Copy(dest, src), other) == GetNamed(dest, other)
    ensures other in Copy(dest, src).fields <==> other in dest.fields
  {
    CopyOverrides(dest, src);
  }

  /** What a disciplined call does to the cell that a shared field holds: nothing, unless it targets the field. */
  lemma StepKeepsCell(s: State, shared: set<Field>, op: Op, f: Field)
    requires Valid(s) && f in shared && Disciplined(s, shared, op) && Live(s, f)
    requires !(op.Init? && Targets(s, shared, op, f)) && !(op.Free? && op.h == f.0)
    ensures Live(Step(s, op), f) && CellOf(Step(s, op), f) == CellOf(s, f)
  {
    hide Step, Live, CellOf, Disciplined, WellFormed, Targets;
    if op.SetField? {
      SetKeepsCell(s, shared, op, f);
    } else if op.CopyAll? {
      CopyKeepsCell(s, shared, op, f);
    } else if op.Init? {
      InitKeepsCell(s, shared, op, f);
    } else {
      OthersKeepCell(s, op, f);
    }
  }

  lemma SetKeepsCell(s: State, shared: set<Field>, op: Op, f: Field)
    requires op.SetField? && f in shared && Disciplined(s, shared, op) && Live(s, f)
    ensures Live(Step(s, op), f) && CellOf(Step(s, op), f) == CellOf(s, f)
  {
    hide Set;
    if op.name.Some? && op.h in s.structs {
      SetElsewhere(s.structs[op.h], op.name.value, op.value, f.1);
    }
  }

  lemma CopyKeepsCell(s: State, shared: set<Field>, op: Op, f: Field)
    requires op.CopyAll? && Valid(s) && f in shared && Disciplined(s, shared, op) && Live(s, f)
    ensures Live(Step(s, op), f) && CellOf(Step(s, op), f) == CellOf(s, f)
  {
    hide Copy, WellFormed;
    if op.dest in s.structs && op.src in s.structs && op.dest == f.0 {
      CopyElsewhere(s.structs[op.dest], s.structs[op.src], f.1);
    }
  }

  lemma InitKeepsCell(s: State, shared: set<Field>, op: Op, f: Field)
    requires op.Init? && Valid(s) && Live(s, f) && !Targets(s, shared, op, f)
    ensures Live(Step(s, op), f) && CellOf(Step(s, op), f) == CellOf(s, f)
  {
    hide Set, WellFormed;
    if op.name.Some? && op.h in s.structs {
      SetElsewhere(s.structs[op.h], op.name.value, s.next, f.1);
    }
  }

  /** The other calls leave every struct but a freed one as it is. */
  lemma OthersKeepCell(s: State, op: Op, f: Field)
    requires Valid(s) && !op.SetField? && !op.CopyAll? && !op.Init? && Live(s, f) && !(op.Free? && op.h == f.0)
    ensures Live(Step(s, op), f) && CellOf(Step(s, op), f) == CellOf(s, f)
  {
    hide WellFormed, Set, Copy, WrapI64, GetIndex, GetNamed;
    assert f.0 in Step(s, op).structs && Step(s, op).structs[f.0] == s.structs[f.0];
  }

  lemma InitTakesAFreshCell(s: State, f: Field, value: int)
    requires Valid(s) && f.0 in s.structs
    ensures var t := Step(s, Init(f.0, Some(f.1), value)); Live(t, f) && CellOf(t, f) == s.next && t.next == s.next + 1
  {
  }

  lemma StructsOnlyGrowByNew(s: State, op: Op, h: int)
    requires Valid(s) && h in Step(s, op).structs && h < s.next
    ensures h in s.structs
  {
    hide Set, Copy;
  }

  lemma LiveBefore(s: State, shared: set<Field>, op: Op, f: Field)
    requires Valid(s) && Separate(s, shared) && f in shared && Live(Step(s, op), f)
    ensures Live(s, f)
  {
    hide Step, Live, WellFormed;
    StructOf(Step(s, op), f);
    StructsOnlyGrowByNew(s, op, f.0);
  }

  lemma StructOf(s: State, f: Field)
    ensures Live(s, f) ==> f.0 in s.structs
  {
  }

  /** Where a shared field's cell is after a disciplined call. */
  lemma CellAfter(s: State, shared: set<Field>, op: Op, f: Field)
    requires Valid(s) && Separate(s, shared) && Disciplined(s, shared, op)
    requires f in SharedAfter(s, shared, op) && Live(Step(s, op), f)
    ensures if op.Init? && Targets(s, shared, op, f) then CellOf(Step(s, op), f) == s.next < Step(s, op).next
            else f in shared && Live(s, f) && CellOf(Step(s, op), f) == CellOf(s, f)
  {
    if op.Init? && Targets(s, shared, op, f) {
      InitTakesAFreshCell(s, f, op.value);
    } else {
      hide Step, Separate, WellFormed;
      LiveBefore(s, shared, op, f);
      if op.Free? && op.h == f.0 {
        FreedIsNotLive(s, f);
      } else {
        StepKeepsCell(s, shared, op, f);
      }
    }
  }

  lemma FreedIsNotLive(s: State, f: Field)
    ensures !Live(Step(s, Free(f.0)), f)
  {
  }

  lemma StructsStay(s: State, shared: set<Field>, op: Op, f: Field)
    requires Valid(s) && Separate(s, shared) && Disciplined(s, shared, op)
    requires f in SharedAfter(s, shared, op) && f.0 in Step(s, op).structs
    ensures Live(Step(s, op), f) && f.0 < s.next
  {
    if op.Init? && Targets(s, shared, op, f) {
      StructsOnlyGrowByNew(s, op, f.0);
      InitTakesAFreshCell(s, f, op.value);
    } else {
      hide Step, WellFormed;
      StructsOnlyGrowByNew(s, op, f.0);
      if op.Free? && op.h == f.0 {
        FreedIsGone(s, f.0);
      } else {
        StepKeepsCell(s, shared, op, f);
      }
    }
  }

  lemma FreedIsGone(s: State, h: int)
    ensures h !in Step(s, Free(h)).structs
  {
  }

  /** Every disciplined call keeps the shared fields separate. */
  lemma StepKeepsSeparate(s: State, shared: set<Field>, op: Op)
    requires Valid(s) && Separate(s, shared) && Disciplined(s, shared, op)
    ensures Valid(Step(s, op)) && Separate(Step(s, op), SharedAfter(s, shared, op))
  {
    StepKeepsValid(s, op);
    var t, after := Step(s, op), SharedAfter(s, shared, op);
    forall f | f in after && Live(t, f) ensures 0 < CellOf(t, f) < t.next {
      CellAfter(s, shared, op, f);
      hide Step, Live, CellOf, Disciplined, WellFormed;
    }
    forall f, g | f in after && g in after && Live(t, f) && Live(t, g) && f != g ensures CellOf(t, f) != CellOf(t, g) {
      CellAfter(s, shared, op, f);
      CellAfter(s, shared, op, g);
      hide Step, Live, CellOf, Disciplined, WellFormed;
    }
    forall f | f in after && f.0 in t.structs ensures Live(t, f) && f.0 < t.next {
      StructsStay(s, shared, op, f);
      hide Step, Live, CellOf, Disciplined, WellFormed;
    }
    forall f | f in after ensures f.0 < t.next {
      hide Step, Live, CellOf, Disciplined, WellFormed;
    }
    hide Step, Live, CellOf, Disciplined, Valid, SharedAfter;
  }

  /** Why only by init: a plain write keeps the fields separate exactly if it is a given-out handle of no other field. */
  lemma PlainWriteKeepsSeparateIff(s: State, shared: set<Field>, f: Field, v: int)
    requires Valid(s) && Separate(s, shared) && f in shared && f.0 in s.structs
    ensures Separate(Step(s, SetField(f.0, Some(f.1), v)), shared)
       <==> 0 < v < s.next && forall g :: g in shared && Live(s, g) && g != f ==> CellOf(s, g) != v
  {
    var t := Step(s, SetField(f.0, Some(f.1), v));
    forall g ensures CellOf(t, g) == if g == f then v else CellOf(s, g) {
      SetElsewhere(s.structs[f.0], f.1, v, g.1);
    }
    forall g | g in shared ensures Live(t, g) <==> Live(s, g) {
      SetElsewhere(s.structs[f.0], f.1, v, g.1);
    }
    assert Live(t, f);
    hide Step, Live, CellOf, Valid;
  }

  /** A call touches no cell but the one it names. */
  lemma OtherCells(s: State, op: Op, c: int)
    requires Valid(s) && 0 < c < s.next
    requires match op
             case CellStore(d, _) => d != c
             case CellCas(d, _, _) => d != c
             case CellAdd(d, _) => d != c
             case CellFree(d) => d != c
             case StoreShared(h, i, _) => StructGet(s, h, i) != c
             case FreeShared(h, i) => StructGet(s, h, i) != c
             case FreeSharedNamed(h, name) => StructGetNamed(s, h, name) != c
             case _ => true
    ensures c in Step(s, op).cells <==> c in s.cells
    ensures c in s.cells ==> Step(s, op).cells[c] == s.cells[c]
  {
    hide WellFormed, Set, Copy, WrapI64, GetIndex, GetNamed;
  }

  /** A disciplined call changes what is loaded through a shared field only if it is a call on that field. */
  lemma StepKeepsLoaded(s: State, shared: set<Field>, op: Op, f: Field)
    requires Valid(s) && Separate(s, shared) && Disciplined(s, shared, op)
    requires f in shared && Live(s, f) && !Targets(s, shared, op, f)
    ensures Live(Step(s, op), f) && Loaded(Step(s, op), f) == Loaded(s, f)
  {
    StepKeepsCell(s, shared, op, f);
    match op {
      case StoreShared(h, i, _) =>
        if IsShared(s, shared, h, i) {
          OtherFieldsCell(s, shared, h, i, f);
        }
      case FreeShared(h, i) =>
        if IsShared(s, shared, h, i) {
          OtherFieldsCell(s, shared, h, i, f);
        }
      case FreeSharedNamed(h, name) =>
        if h in s.structs && name.Some? && (h, name.value) in shared {
          assert Live(s, (h, name.value)) && CellOf(s, (h, name.value)) != CellOf(s, f);
        }
      case _ =>
    }
    hide Step, Live, CellOf, Valid, WellFormed, StructGet, StructGetNamed;
    OtherCells(s, op, CellOf(s, f));
  }

  lemma OtherFieldsCell(s: State, shared: set<Field>, h: int, index: int, f: Field)
    requires Valid(s) && Separate(s, shared) && IsShared(s, shared, h, index)
    requires f in shared && Live(s, f) && !Names(s, h, index, f)
    ensures StructGet(s, h, index) != CellOf(s, f)
  {
    var g: Field :| g in shared && Names(s, h, index, g);
    IndexedLoad(s, h, index, g);
    assert Live(s, g) && g != f;
  }

  /** A run of disciplined calls. */
  ghost predicate DisciplinedRun(s: State, shared: set<Field>, ops: seq<Op>)
    decreases |ops|
  {
    ops != [] ==>
      Disciplined(s, shared, ops[0]) && DisciplinedRun(Step(s, ops[0]), SharedAfter(s, shared, ops[0]), ops[1..])
  }

  ghost predicate Untargeted(s: State, shared: set<Field>, ops: seq<Op>, f: Field)
    decreases |ops|
  {
    ops != [] ==> !Targets(s, shared, ops[0], f) && Untargeted(Step(s, ops[0]), SharedAfter(s, shared, ops[0]), ops[1..], f)
  }

  /**
   Separation, over any run in which shared fields are written by init only: what is loaded through a
   shared field is changed by no call on another shared field, and by no other call than those on the
   field itself, on its cell by handle, or the freeing of its struct.
   */
  lemma {:induction false} FieldsAreSeparate(s: State, shared: set<Field>, ops: seq<Op>, f: Field)
    requires Valid(s) && Separate(s, shared) && DisciplinedRun(s, shared, ops)
    requires f in shared && Live(s, f) && Untargeted(s, shared, ops, f)
    ensures Live(Run(s, ops), f) && Loaded(Run(s, ops), f) == Loaded(s, f)
    decreases |ops|
  {
    hide Step, Live, Loaded, Valid, Separate, Disciplined, Targets;
    if ops != [] {
      StepKeepsLoaded(s, shared, ops[0], f);
      StepKeepsSeparate(s, shared, ops[0]);
      StillShared(s, shared, ops[0], f);
      hide SharedAfter;
      FieldsAreSeparate(Step(s, ops[0]), SharedAfter(s, shared, ops[0]), ops[1..], f);
    }
  }

  lemma StillShared(s: State, shared: set<Field>, op: Op, f: Field)
    requires f in shared
    ensures f in SharedAfter(s, shared, op)
  {
  }

  /** A run from the start keeps the shared fields separate, so that separation holds whenever it is needed. */
  lemma {:induction false} RunKeepsSeparate(s: State, shared: set<Field>, ops: seq<Op>) returns (after: set<Field>)
    requires Valid(s) && Separate(s, shared) && DisciplinedRun(s, shared, ops)
    ensures Valid(Run(s, ops)) && Separate(Run(s, ops), after) && shared <= after
    decreases |ops|
  {
    hide Step, Valid, Separate, Disciplined;
    if ops == [] {
      after := shared;
    } else {
      StepKeepsSeparate(s, shared, ops[0]);
      assert shared <= SharedAfter(s, shared, ops[0]);
      hide SharedAfter;
      after := RunKeepsSeparate(Step(s, ops[0]), SharedAfter(s, shared, ops[0]), ops[1..]);
    }
  }

  /** What a store through a field does to the field itself: it takes effect exactly while its cell exists. */
  lemma StoreThenLoad(s: State, h: int, index: int, value: int, f: Field)
    requires Valid(s) && Names(s, h, index, f)
    ensures var (t, r) := FieldSet(s, h, index, value);
            if CellOf(s, f) in s.cells then r == 0 && Loaded(t, f) == FieldGet(t, h, index) == value
            else r == -1 && t == s && Loaded(s, f) == 0
  {
  }

  /** A freshly initialised field loads its initial value. */
  lemma InitThenLoad(s: State, f: Field, value: int)
    requires Valid(s) && f.0 in s.structs
    ensures var (t, c) := FieldInit(s, f.0, value, Some(f.1)); c == s.next && Live(t, f) && Loaded(t, f) == value
    ensures forall shared :: SharedAfter(s, shared, Init(f.0, Some(f.1), value)) == shared + {f}
  {
  }

  /**
   A field whose cell was freed is dead for the rest of any disciplined run that does not initialise it
   again: it loads 0 and takes no store, and never reaches an object created later.
   */
  lemma {:induction false} FreedFieldsStayDead(s: State, shared: set<Field>, ops: seq<Op>, f: Field)
    requires Valid(s) && Separate(s, shared) && DisciplinedRun(s, shared, ops) && f in shared
    requires Live(s, f) ==> CellOf(s, f) !in s.cells
    requires forall i :: 0 <= i < |ops| ==> ops[i].Init? ==> !(ops[i].h == f.0 && ops[i].name == Some(f.1))
    ensures var t := Run(s, ops);
            && Loaded(t, f) == 0
            && forall h, index, v :: Names(t, h, index, f) ==> FieldSet(t, h, index, v) == (t, -1)
    decreases |ops|
  {
    if ops == [] {
      forall h, index, v | Names(s, h, index, f) ensures FieldSet(s, h, index, v) == (s, -1) {
        IndexedLoad(s, h, index, f);
        assert Live(s, f);
      }
    } else {
      var t := Step(s, ops[0]);
      StepKeepsSeparate(s, shared, ops[0]);
      StillShared(s, shared, ops[0], f);
      if Live(t, f) {
        CellAfter(s, shared, ops[0], f);
        assert !(ops[0].Init? && Targets(s, shared, ops[0], f));
        CellIsOld(s, shared, f);
        StepKeepsDead(s, ops[0], CellOf(s, f));
      }
      hide Step, Live, Loaded, Valid, Separate, Disciplined, Targets, Names, FieldSet;
      FreedFieldsStayDead(t, SharedAfter(s, shared, ops[0]), ops[1..], f);
    }
  }

  lemma CellIsOld(s: State, shared: set<Field>, f: Field)
    requires Separate(s, shared) && f in shared && Live(s, f)
    ensures CellOf(s, f) < s.next
  {
  }

  /** The three ways to free the cell of a field. */
  ghost predicate Frees(s: State, op: Op, f: Field) {
    match op
    case FreeShared(h, i) => Names(s, h, i, f)
    case FreeSharedNamed(h, name) => h == f.0 && name == Some(f.1)
    case CellFree(c) => c == CellOf(s, f)
    case _ => false
  }

  /** Each of them takes the cell out of the table, and leaves every other cell and the struct as they are. */
  lemma FreeFrees(s: State, op: Op, f: Field)
    requires Valid(s) && Frees(s, op, f)
    ensures var t := Step(s, op);
            && CellOf(s, f) !in t.cells && t.cells == s.cells - {CellOf(s, f)}
            && t.structs == s.structs && Loaded(t, f) == 0
  {
    if op.FreeShared? {
      IndexedLoad(s, op.h, op.index, f);
    }
  }

  /** What the calls answer: 0 if there was a cell to free, -1 if there was none. */
  lemma FreeAnswers(s: State, h: int, i: int, f: Field)
    requires Valid(s) && Names(s, h, i, f)
    ensures var freed := if CellOf(s, f) in s.cells then 0 else -1;
            FieldFree(s, h, i).1 == freed == FieldFreeNamed(s, h, Some(f.1)).1
            && (CellOf(s, f) > 0 ==> SharedFree(s, CellOf(s, f)).1 == freed)
  {
    IndexedLoad(s, h, i, f);
  }

  /** Freed, by field or by handle, a field loads 0 and rejects stores for the rest of the run, unless initialised anew. */
  lemma {:induction false} FreedForGood(s: State, shared: set<Field>, op: Op, ops: seq<Op>, f: Field)
    requires Valid(s) && Separate(s, shared) && f in shared && Frees(s, op, f)
    requires DisciplinedRun(s, shared, [op] + ops)
    requires forall i :: 0 <= i < |ops| ==> ops[i].Init? ==> !(ops[i].h == f.0 && ops[i].name == Some(f.1))
    ensures var t := Run(s, [op] + ops);
            && Loaded(t, f) == 0
            && forall h, index, v :: Names(t, h, index, f) ==> FieldSet(t, h, index, v) == (t, -1)
  {
    FreeFrees(s, op, f);
    assert ([op] + ops)[1..] == ops;
    StepKeepsSeparate(s, shared, op);
    assert SharedAfter(s, shared, op) == shared && CellOf(Step(s, op), f) == CellOf(s, f);
    hide Step, Live, Loaded, Valid, Separate, Disciplined, Names, FieldSet, Frees, CellOf;
    FreedFieldsStayDead(Step(s, op), shared, ops, f);
  }

  // ---------------------------------------------------------------------------------------
  // Cells
  // ---------------------------------------------------------------------------------------

  function Sum(deltas: seq<int>): int
    decreases |deltas|
  {
    if deltas == [] then 0 else deltas[0] + Sum(deltas[1..])
  }

  /** Additions to one cell, one after the other. */
  function AddAll(s: State, c: int, deltas: seq<int>): State
    decreases |deltas|
  {
    if deltas == [] then s else AddAll(SharedAdd(s, c, deltas[0]).0, c, deltas[1..])
  }

  /** Wrapping picks the one number in the signed range that is the same modulo 2^64. */
  lemma WrapIsUnique(v: int, w: int, k: int)
    requires -0x8000_0000_0000_0000 <= w < 0x8000_0000_0000_0000 && v == w + k * 0x1_0000_0000_0000_0000
    ensures WrapI64(v) == w
  {
  }

  lemma WrapTwice(v: int, delta: int)
    ensures WrapI64(WrapI64(v) + delta) == WrapI64(v + delta)
  {
    var k := (v - WrapI64(v)) / 0x1_0000_0000_0000_0000;
    var w := WrapI64(WrapI64(v) + delta);
    var j := (WrapI64(v) + delta - w) / 0x1_0000_0000_0000_0000;
    WrapIsUnique(v + delta, w, k + j);
  }

  /** Any number of additions, wrapping or not, amount to adding their sum once. */
  lemma {:induction false} AddsAmountToTheSum(s: State, c: int, deltas: seq<int>)
    requires c in s.cells && WrapI64(s.cells[c]) == s.cells[c]
    ensures AddAll(s, c, deltas) == s.(cells := s.cells[c := WrapI64(s.cells[c] + Sum(deltas))])
    decreases |deltas|
  {
    if deltas != [] {
      var t := SharedAdd(s, c, deltas[0]).0;
      WrapTwice(s.cells[c] + deltas[0], 0);
      WrapTwice(s.cells[c] + deltas[0], Sum(deltas[1..]));
      AddsAmountToTheSum(t, c, deltas[1..]);
    }
    assert s.cells == s.cells[c := s.cells[c]];
  }

  /** Names have given-out handles, each its own. */
  ghost predicate NamesApart(s: State) {
    && (forall a :: a in s.named ==> 0 < s.named[a] < s.next)
    && forall a, b :: a in s.named && b in s.named && a != b ==> s.named[a] != s.named[b]
  }

  lemma StepKeepsNames(s: State, op: Op)
    requires Valid(s) && NamesApart(s)
    ensures NamesApart(Step(s, op))
    ensures forall a :: a in s.named ==> a in Step(s, op).named && Step(s, op).named[a] == s.named[a]
  {
    StepKeepsValid(s, op);
    if op.CellNamed? {
      hide Set, Copy, WellFormed;
    } else {
      OthersKeepNames(s, op);
      hide Step, Valid;
    }
  }

  lemma OthersKeepNames(s: State, op: Op)
    requires !op.CellNamed?
    ensures Step(s, op).named == s.named
  {
    hide Set, Copy, WrapI64, GetIndex, GetNamed;
  }

  /** Over every run a name keeps its handle, also when the cell was freed, and shares it with no other name. */
  lemma {:induction false} NamesKeepTheirCells(s: State, ops: seq<Op>, a: string)
    requires Valid(s) && NamesApart(s) && a in s.named
    ensures var t := Run(s, ops);
            && SharedGetNamed(t, Some(a)) == (t, s.named[a])
            && forall b :: b != a ==> SharedGetNamed(t, Some(b)).1 != s.named[a]
    decreases |ops|
  {
    hide Step;
    if ops != [] {
      StepKeepsValid(s, ops[0]);
      StepKeepsNames(s, ops[0]);
      NamesKeepTheirCells(Step(s, ops[0]), ops[1..], a);
    }
  }

  // ---------------------------------------------------------------------------------------
  // What the calls answer and change, in the tables
  // ---------------------------------------------------------------------------------------

  /** A swap happens exactly if the cell holds what is expected: 1 and the new value; else 0, or -1 without a cell. */
  lemma SwapsIffExpected(s: State, c: int, expected: int, value: int)
    ensures var (t, r) := SharedCas(s, c, expected, value);
            && (r == 1 <==> c in s.cells && s.cells[c] == expected)
            && (r == -1 <==> c !in s.cells) && r in {-1, 0, 1}
            && (r == 1 ==> t == s.(cells := s.cells[c := value]))
            && (r != 1 ==> t == s)
            && Step(s, CellCas(c, expected, value)) == t
  {
  }

  lemma CellsInTheTable(s: State, c: int, value: int, name: string)
    ensures var (t, h) := SharedNew(s);
            h == s.next && t.next == s.next + 1 && t.cells == s.cells[h := 0] && t.structs == s.structs && t.named == s.named
    ensures SharedNew(INITIAL).1 == 1
    ensures SharedLoad(s, c) == if c in s.cells then s.cells[c] else 0
    ensures SharedStore(s, c, value) == if c in s.cells then (s.(cells := s.cells[c := value]), 0) else (s, -1)
    ensures c !in s.cells ==> SharedAdd(s, c, value) == (s, 0) && SharedFree(s, c).1 == -1
    ensures c in s.cells ==> SharedAdd(s, c, value).1 == s.cells[c] && SharedFree(s, c) == (s.(cells := s.cells - {c}), 0)
    ensures SharedGetNamed(s, None) == (s, -1)
    ensures name !in s.named ==>
              var (t, h) := SharedGetNamed(s, Some(name));
              h == s.next && t.next == s.next + 1 && t.named == s.named[name := h] && t.cells == s.cells[h := 0]
              && t.structs == s.structs
  {
  }

  lemma StructsInTheTable(s: State, h: int, src: int, name: string, typeName: string, value: int)
    ensures StructNew(s, None) == (s, -1)
    ensures var (t, g) := StructNew(s, Some(typeName));
            g == s.next && t.next == s.next + 1 && t.structs == s.structs[g := StructValue(typeName, map[], [])]
            && t.cells == s.cells && t.named == s.named
    ensures StructSet(s, h, None, value) == (s, -1)
    ensures var (t, r) := StructSet(s, h, Some(name), value);
            if h in s.structs then r == h && t == s.(structs := s.structs[h := Set(s.structs[h], name, value)]) else r == -1 && t == s
    ensures var (t, r) := StructFree(s, h);
            r == (if h in s.structs then 0 else -1) && t == s.(structs := s.structs - {h})
    ensures var (t, r) := StructCopy(s, h, src);
            if h in s.structs && src in s.structs then r == h && t == s.(structs := s.structs[h := Copy(s.structs[h], s.structs[src])])
            else r == -1 && t == s
    ensures StructGetNamed(s, h, None) == 0 && (h !in s.structs ==> StructGetNamed(s, h, Some(name)) == 0 == StructGet(s, h, src))
  {
  }

  /** Shared fields: an init always makes a cell, with the value, and answers its handle only if the field was set. */
  lemma FieldsInTheTable(s: State, h: int, name: Option<string>, index: int, value: int)
    requires Valid(s)
    ensures var (t, r) := FieldInit(s, h, value, name);
            && t.next == s.next + 1 && t.cells == s.cells[s.next := value] && t.named == s.named
            && (if name.Some? && h in s.structs
                then r == s.next && t.structs == s.structs[h := Set(s.structs[h], name.value, s.next)]
                else r == -1 && t.structs == s.structs)
    ensures StructGet(s, h, index) <= 0 ==>
              FieldGet(s, h, index) == 0 && FieldSet(s, h, index, value) == (s, -1) == FieldFree(s, h, index)
    ensures StructGetNamed(s, h, name) <= 0 ==> FieldFreeNamed(s, h, name) == (s, -1)
  {
    assert s.cells[s.next := 0][s.next := value] == s.cells[s.next := value];
  }

  // ---------------------------------------------------------------------------------------
  // The runtime
  // ---------------------------------------------------------------------------------------

  class ProviderRuntime {
    var structs: map<int, StructValue>
    var cells: map<int, int>
    var named: map<string, int>
    var next: int

    ghost function View(): State
      reads this
    {
      State(structs, cells, named, next)
    }

    constructor ()
      ensures View() == INITIAL && Valid(View())
    {
      structs, cells, named, next := map[], map[], map[], 1;
    }

    method NewHandle() returns (h: int)
      modifies this`next
      ensures h == old(next) && next == old(next) + 1
    {
      h := next;
      next := next + 1;
    }

    method NewStruct(typeName: Option<string>) returns (h: int)
      modifies this
      ensures (View(), h) == StructNew(old(View()), typeName)
    {
      if typeName.None? {
        return -1;
      }
      h := NewHandle();
      structs := structs[h := StructValue(typeName.value, map[], [])];
    }

    method SetStructField(h: int, index: int, value: int, name: Option<string>) returns (r: int)
      modifies this
      ensures (View(), r) == StructSet(old(View()), h, name, value)
    {
      if name.None? || h !in structs {
        return -1;
      }
      var sv := structs[h];
      if name.value !in sv.fields {
        sv := sv.(fieldOrder := sv.fieldOrder + [name.value]);
      }
      sv := sv.(fields := sv.fields[name.value := value]);
      structs := structs[h := sv];
      r := h;
    }

    method GetStructField(h: int, index: int) returns (value: int)
      ensures value == StructGet(View(), h, index)
    {
      value := 0;
      if h in structs {
        var sv := structs[h];
        if 0 <= index < |sv.fieldOrder| {
          var name := sv.fieldOrder[index];
          value := if name in sv.fields then sv.fields[name] else 0;
        }
      }
    }

    method GetStructFieldNamed(h: int, name: Option<string>) returns (value: int)
      ensures value == StructGetNamed(View(), h, name)
    {
      value := 0;
      if name.Some? && h in structs && name.value in structs[h].fields {
        value := structs[h].fields[name.value];
      }
    }

    method CopyStruct(dest: int, src: int) returns (r: int)
      modifies this
      ensures (View(), r) == StructCopy(old(View()), dest, src)
    {
      if src !in structs || dest !in structs {
        return -1;
      }
      var from, to := structs[src], structs[dest];
      var order := from.fieldOrder;
      for i := 0 to |order|
        invariant CopyFields(to, from, order[i..]) == Copy(structs[dest], from)
      {
        var name := order[i];
        if name in from.fields {
          if name !in to.fields {
            to := to.(fieldOrder := to.fieldOrder + [name]);
          }
          to := to.(fields := to.fields[name := from.fields[name]]);
        }
        assert order[i..][1..] == order[i + 1..];
      }
      assert order[|order|..] == [];
      structs := structs[dest := to];
      r := dest;
    }

    method FreeStruct(h: int) returns (r: int)
      modifies this
      ensures (View(), r) == StructFree(old(View()), h)
    {
      r := if h in structs then 0 else -1;
      structs := structs - {h};
    }

    method NewCell() returns (c: int)
      modifies this
      ensures (View(), c) == SharedNew(old(View()))
    {
      c := NewHandle();
      cells := cells[c := 0];
    }

    method LoadCell(c: int) returns (value: int)
      ensures value == SharedLoad(View(), c)
    {
      value := if c in cells then cells[c] else 0;
    }

    method StoreCell(c: int, value: int) returns (r: int)
      modifies this`cells
      ensures (View(), r) == SharedStore(old(View()), c, value)
    {
      if c !in cells {
        return -1;
      }
      cells := cells[c := value];
      r := 0;
    }

    method CompareAndSwapCell(c: int, expected: int, value: int) returns (r: int)
      modifies this`cells
      ensures (View(), r) == SharedCas(old(View()), c, expected, value)
    {
      if c !in cells {
        return -1;
      }
      if cells[c] != expected {
        return 0;
      }
      cells := cells[c := value];
      r := 1;
    }

    method AddToCell(c: int, delta: int) returns (previous: int)
      modifies this`cells
      ensures (View(), previous) == SharedAdd(old(View()), c, delta)
    {
      if c !in cells {
        return 0;
      }
      previous := cells[c];
      cells := cells[c := WrapI64(previous + delta)];
    }

    method FreeCell(c: int) returns (r: int)
      modifies this`cells
      ensures (View(), r) == SharedFree(old(View()), c)
    {
      r := if c in cells then 0 else -1;
      cells := cells - {c};
    }

    method NamedCell(name: Option<string>) returns (c: int)
      modifies this
      ensures (View(), c) == SharedGetNamed(old(View()), name)
    {
      if name.None? {
        return -1;
      }
      if name.value in named {
        return named[name.value];
      }
      c := NewCell();
      named := named[name.value := c];
    }

    method SharedFieldInit(h: int, index: int, initial: int, name: Option<string>) returns (c: int)
      modifies this
      ensures (View(), c) == FieldInit(old(View()), h, initial, name)
    {
      c := NewCell();
      var _ := StoreCell(c, initial);
      var r := SetStructField(h, index, c, name);
      if r < 0 {
        c := -1;
      }
    }

    method SharedFieldGet(h: int, index: int) returns (value: int)
      ensures value == FieldGet(View(), h, index)
    {
      var c := GetStructField(h, index);
      if c <= 0 {
        return 0;
      }
      value := LoadCell(c);
    }

    method SharedFieldSet(h: int, index: int, value: int) returns (r: int)
      modifies this
      ensures (View(), r) == FieldSet(old(View()), h, index, value)
    {
      var c := GetStructField(h, index);
      if c <= 0 {
        return -1;
      }
      r := StoreCell(c, value);
    }

    method SharedFieldFree(h: int, index: int) returns (r: int)
      modifies this
      ensures (View(), r) == FieldFree(old(View()), h, index)
    {
      var c := GetStructField(h, index);
      if c <= 0 {
        return -1;
      }
      r := FreeCell(c);
    }

    method SharedFieldFreeNamed(h: int, name: Option<string>) returns (r: int)
      modifies this
      ensures (View(), r) == FieldFreeNamed(old(View()), h, name)
    {
      var c := GetStructFieldNamed(h, name);
      if c <= 0 {
        return -1;
      }
      r := FreeCell(c);
    }
  }
}
