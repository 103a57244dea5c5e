/**
 * What one `Walk` computes (walker.go:54-362), as functions.
 *
 * `WalkAt` is `walk`: the depth guard, then the dispatch on the value's
 * runtime kind.  Each container is rebuilt by an accumulator recursion that
 * follows the loop of its Go function one element, entry or field at a
 * time; the per-position decision is a separate function (`SliceElem`,
 * `MapEntry`, `FieldStep`).  A Go panic is `Panic`.  `d` is the depth
 * counter as the context sees it (`None` until the first `dive`).
 */
module Rebuild {
  import opened Values
  import opened Nodes
  import opened Routines
  import opened Assoc
  import opened Depth

  /** The walker's options (walker.go:47-52): depth bound, key coercion and the routine chain. */
  datatype Config = Config(maxDepth: int, jsonable: bool, routines: seq<Routine>)

  /** The result of a walk: the rebuilt value, or a panic. */
  datatype Outcome = Ok(v: Value) | Panic

  /** The decision for one slice element. */
  datatype Piece = Crash | Drop | Keep(y: Value)

  /** The decision for one map entry: the `SetMapIndex` call it ends in, if any. */
  datatype EntryPiece = ECrash | ESkip | EPut(k: Value, x: Value) | ERemove(rk: Value)

  /** The decision for one struct field: whether its slot is written. */
  datatype FieldPiece = FCrash | FKeep | FWrite(w: Value)

  /** The decision for a scalar position: panic, keep, or replace by a value of its type. */
  datatype LitResult = LCrash | LKeep | LWrite(lw: Value)

  /** The key type of the rebuilt map: `string` under `WithJsonableMap`, else unchanged. */
  function OutKeyType(c: Config, kt: Type): Type {
    if c.jsonable then TString else kt
  }

  /** The fresh node a position starts its chain with. */
  function Fresh(ntype: NodeType, key: Option<VarState>, t: Type, x: Value): NodeState {
    NodeState(NodeView(ntype, key, VarState(t, x)), Blank)
  }

  // ---------------------------------------------------------------------
  // Entry point and dispatch

  /** `Walker.Walk`: the nil interface is returned before any depth accounting. */
  function Walk(c: Config, v: Value): Outcome {
    if v == Nil then Ok(Nil) else WalkAt(c, v, None)
  }

  /** `walk`: a too-deep value is returned as it is; otherwise it is dispatched one level down. */
  function WalkAt(c: Config, v: Value, d: Option<int>): Outcome
    decreases v, 4
  {
    var dv := Dive(c.maxDepth, d);
    if dv.tooDeep then Ok(v) else Dispatch(c, v, dv.after)
  }

  /** The kind switch of `walk` (walker.go:77-96). */
  function Dispatch(c: Config, v: Value, d: Option<int>): Outcome
    decreases v, 3
  {
    match v
    case NilMap(_, _) => WalkMap(c, v, d)
    case MapV(_, _, _) => WalkMap(c, v, d)
    case NilSlice(_) => WalkSlice(c, v, d)
    case SliceV(_, _) => WalkSlice(c, v, d)
    case StructV(_, _, _) => WalkStruct(c, v, d)
    case NilPtr(_) => WalkPointer(c, v, d)
    case PtrV(_, _) => WalkPointer(c, v, d)
    case BoolV(_) => WalkLiteral(c, v)
    case IntV(_, _) => WalkLiteral(c, v)
    case FloatV(_, _) => WalkLiteral(c, v)
    case ComplexV(_, _) => WalkLiteral(c, v)
    case StrV(_) => WalkLiteral(c, v)
    case Nil => Ok(v)
    case OpaqueV(_, _) => Ok(v)
  }

  // ---------------------------------------------------------------------
  // Scalars

  /**
   * The literal node's chain (walker.go:108-121): every routine runs, a
   * delete has no effect, and an override stages a value that must be
   * assignable to the scalar's own type.
   */
  function LiteralChain(c: Config, t: Type, x: Value): LitResult {
    match Chain(Fresh(Literal, None, t, x), c.routines, false)
    case Crashed => LCrash
    case Resolved(s, _, ov) =>
      if !ov then LKeep
      else if Boxable(s.view.value.v, t) then LWrite(s.view.value.v)
      else LCrash
  }

  /** `walk_literal(ctx, in, false)`: a scalar reached by value. */
  function WalkLiteral(c: Config, v: Value): Outcome {
    match LiteralChain(c, TypeOf(v), v)
    case LCrash => Panic
    case LKeep => Ok(v)
    case LWrite(y) => Ok(y)
  }

  // ---------------------------------------------------------------------
  // Slices

  /**
   * `walk_slice`: a nil slice (or nil pointer) is returned as it is, a slice
   * is rebuilt from its kept elements in order, and a non-nil pointer to a
   * slice panics in `inval.Cap()`.
   */
  function WalkSlice(c: Config, v: Value, d: Option<int>): Outcome
    decreases v, 1
  {
    match v
    case SliceV(_, _) => SliceFrom(c, v, 0, [], d)
    case PtrV(_, _) => Panic
    case _ => Ok(v)
  }

  /** The loop of `walk_slice` from element `i` on, `acc` the elements appended so far. */
  function SliceFrom(c: Config, v: Value, i: nat, acc: seq<Value>, d: Option<int>): Outcome
    requires v.SliceV? && i <= |v.items|
    decreases v, 0, |v.items| - i
  {
    if i == |v.items| then Ok(SliceV(v.se, acc))
    else
      match SliceElem(c, v.se, v.items[i], d)
      case Crash => Panic
      case Drop => SliceFrom(c, v, i + 1, acc, d)
      case Keep(y) => SliceFrom(c, v, i + 1, acc + [y], d)
  }

  /** One iteration of the `walk_slice` loop, given the piece its element ends in. */
  lemma SliceFromUnfold(c: Config, v: Value, i: nat, acc: seq<Value>, d: Option<int>, p: Piece)
    requires v.SliceV? && i < |v.items|
    requires p == SliceElem(c, v.se, v.items[i], d)
    ensures SliceFrom(c, v, i, acc, d) ==
      match p
      case Crash => Panic
      case Drop => SliceFrom(c, v, i + 1, acc, d)
      case Keep(y) => SliceFrom(c, v, i + 1, acc + [y], d)
  {
  }

  /**
   * One element of a slice with element type `et` (walker.go:150-185): a
   * container is walked and appended; a terminal value goes through the
   * chain and is dropped on delete, appended as staged on override and as
   * it was otherwise.  `reflect.Append` panics unless the appended value is
   * assignable to `et`.
   */
  function SliceElem(c: Config, et: Type, item: Value, d: Option<int>): Piece
    decreases item, 5
  {
    var u := Unpack(et, item);
    if !IsLiteralType(TypeOf(u)) then
      match WalkAt(c, u, d)
      case Panic => Crash
      case Ok(r) => if Boxable(r, et) then Keep(r) else Crash
    else
      match Chain(Fresh(SliceMember, None, TypeOf(u), u), c.routines, true)
      case Crashed => Crash
      case Resolved(s, rt, ov) =>
        if rt == Deleted then Drop
        else if ov then (if Boxable(s.view.value.v, et) then Keep(s.view.value.v) else Crash)
        else if Fits(TypeOf(u), et) then Keep(u)
        else Crash
  }

  // ---------------------------------------------------------------------
  // Maps

  /**
   * `walk_map`: a nil map (or nil pointer) is returned as it is, a map is
   * rebuilt, and a non-nil pointer to a map panics in `inval.Len()`.
   */
  function WalkMap(c: Config, v: Value, d: Option<int>): Outcome
    decreases v, 1
  {
    match v
    case MapV(_, _, _) => MapFrom(c, v, 0, [], d)
    case PtrV(_, _) => Panic
    case _ => Ok(v)
  }

  /** The loop of `walk_map` from entry `i` on, `acc` the map built so far. */
  function MapFrom(c: Config, v: Value, i: nat, acc: seq<Entry>, d: Option<int>): Outcome
    requires v.MapV? && i <= |v.entries|
    decreases v, 0, |v.entries| - i
  {
    if i == |v.entries| then Ok(MapV(OutKeyType(c, v.mk), v.me, acc))
    else
      var p := MapEntry(c, v.mk, v.me, OutKeyType(c, v.mk), v.entries[i].key, v.entries[i].val, d);
      if p.ECrash? then Panic else MapFrom(c, v, i + 1, ApplyPiece(acc, p), d)
  }

  /** The effect of one entry's `SetMapIndex` (or its absence) on the map being built. */
  function ApplyPiece(acc: seq<Entry>, p: EntryPiece): seq<Entry> {
    match p
    case EPut(k, x) => Insert(acc, k, x)
    case ERemove(k) => Remove(acc, k)
    case _ => acc
  }

  /** One iteration of the `walk_map` loop, given the piece its entry ends in. */
  lemma MapFromUnfold(c: Config, v: Value, i: nat, acc: seq<Entry>, d: Option<int>, p: EntryPiece)
    requires v.MapV? && i < |v.entries|
    requires p == MapEntry(c, v.mk, v.me, OutKeyType(c, v.mk), v.entries[i].key, v.entries[i].val, d)
    ensures MapFrom(c, v, i, acc, d) == if p.ECrash? then Panic else MapFrom(c, v, i + 1, ApplyPiece(acc, p), d)
  {
  }

  /**
   * `walkmap.SetMapIndex(key, val)` (walker.go:247-252).  `boxed` is true
   * when key and value were re-read from the node with `reflect.ValueOf`,
   * which turns nil into the invalid Value: an invalid key panics, an
   * invalid element deletes the key.  Otherwise both must be assignable to
   * the rebuilt map's key and element types.
   */
  function SetMapIndex(kt: Type, et: Type, k: Value, x: Value, boxed: bool): EntryPiece {
    if (boxed && k == Nil) || !Fits(TypeOf(k), kt) then ECrash
    else if boxed && x == Nil then ERemove(k)
    else if !Fits(TypeOf(x), et) then ECrash
    else EPut(k, x)
  }

  /**
   * One entry of a map (walker.go:211-252).  Key and value are unpacked; a
   * container value is walked first; every entry then gets a map-pair node.
   */
  function MapEntry(c: Config, kt: Type, et: Type, okt: Type, key: Value, val: Value, d: Option<int>)
    : EntryPiece
    decreases val, 5
  {
    var uk := Unpack(kt, key);
    var uv := Unpack(et, val);
    var walked := if IsLiteralType(TypeOf(uv)) then Ok(uv) else WalkAt(c, uv, d);
    match walked
    case Panic => ECrash
    case Ok(x) => PairStep(c, et, okt, uk, x)
  }

  /**
   * The map-pair node of key `k` and (walked) value `x` (walker.go:221-252):
   * skipped on delete; on override the node's key and value are re-boxed
   * and stored; otherwise `k` and `x` are stored as they are.
   */
  function PairStep(c: Config, et: Type, okt: Type, k: Value, x: Value): EntryPiece {
    match Chain(Fresh(MapPair, Some(VarState(TypeOf(k), k)), TypeOf(x), x), c.routines, true)
    case Crashed => ECrash
    case Resolved(s, rt, ov) =>
      if rt == Deleted then ESkip
      else if !ov then SetMapIndex(okt, et, k, x, false)
      else
        match s.view.key
        case None => ECrash
        case Some(kv) => SetMapIndex(okt, et, kv.v, s.view.value.v, true)
  }

  /**
   * Every entry reaches a map-pair node: a container value is walked first
   * (a panic there is the entry's panic) and the node then sees the walked
   * value under the unwrapped key.
   */
  lemma EntryVisitsEveryValue(c: Config, mk: Type, me: Type, kt: Type, key0: Value, val0: Value, d: Option<int>,
                                walked: Outcome)
    requires var val := Unpack(me, val0);
      walked == if IsLiteralType(TypeOf(val)) then Ok(val) else WalkAt(c, val, d)
    ensures MapEntry(c, mk, me, kt, key0, val0, d) ==
      if walked.Panic? then ECrash else PairStep(c, me, kt, Unpack(mk, key0), walked.v)
  {
  }

  /** `PairStep` in terms of how the map-pair node's chain resolved. */
  lemma PairUnfold(c: Config, me: Type, kt: Type, key: Value, val: Value, res: Resolution)
    requires res == Chain(Fresh(MapPair, Some(VarState(TypeOf(key), key)), TypeOf(val), val), c.routines, true)
    ensures PairStep(c, me, kt, key, val) ==
      if res.Crashed? then ECrash
      else if res.rt == Deleted then ESkip
      else if !res.override then SetMapIndex(kt, me, key, val, false)
      else if res.state.view.key.None? then ECrash
      else SetMapIndex(kt, me, res.state.view.key.value.v, res.state.view.value.v, true)
  {
  }

  // ---------------------------------------------------------------------
  // Structs

  /**
   * `walk_struct`.  A struct reached by value is not writable: its fields
   * are visited (and may panic) and none of its own slots is assigned, but
   * what the walk stores through its pointer fields lands in the targets it
   * shares with the original, so the result is the struct with those
   * fields as walked (see `SharedByCopy`).  A struct reached through a
   * pointer is writable: a nil pointer is returned, otherwise the pointer
   * to the updated struct.
   */
  function WalkStruct(c: Config, v: Value, d: Option<int>): Outcome
    decreases v, 1
  {
    var writable := v.PtrV? || v.NilPtr?;
    var s := StructOf(v);
    if v.NilPtr? || !(s.StructV? && |s.decls| == |s.vals|) then Ok(v)
    else
      match StructFrom(c, v, writable, 0, s.vals, d)
      case Panic => Panic
      case Ok(s') => if writable then Ok(PtrV(v.pt, s')) else Ok(s')
  }

  /** The struct a struct walk works on: the value itself, or the target of a pointer. */
  function StructOf(v: Value): Value {
    if v.PtrV? then v.target else v
  }

  /**
   * The field loop of `walk_struct` from field `i` on; `vals` are the field
   * values so far (the in-place writes of a writable struct).
   */
  function StructFrom(c: Config, v: Value, writable: bool, i: nat, vals: seq<Value>, d: Option<int>)
    : Outcome
    requires StructOf(v).StructV? && |StructOf(v).decls| == |StructOf(v).vals| == |vals|
    requires i <= |vals|
    decreases v, 0, |vals| - i
  {
    var s := if v.PtrV? then v.target else v;
    if i == |vals| then Ok(StructV(s.sname, s.decls, vals))
    else
      assert s.vals[i] < v;
      match FieldStep(c, s.decls[i], s.vals[i], writable, d)
      case FCrash => Panic
      case FKeep => StructFrom(c, v, writable, i + 1, vals, d)
      case FWrite(y) => StructFrom(c, v, writable, i + 1, vals[i := y], d)
  }

  /** One iteration of the field loop, in terms of the field's piece. */
  lemma StructFromStep(c: Config, v: Value, writable: bool, i: nat, vals: seq<Value>, d: Option<int>)
    requires StructOf(v).StructV? && |StructOf(v).decls| == |StructOf(v).vals| == |vals|
    requires i < |vals|
    ensures var s := StructOf(v);
      StructFrom(c, v, writable, i, vals, d) ==
        match FieldStep(c, s.decls[i], s.vals[i], writable, d)
        case FCrash => Panic
        case FKeep => StructFrom(c, v, writable, i + 1, vals, d)
        case FWrite(y) => StructFrom(c, v, writable, i + 1, vals[i := y], d)
  {
  }

  /**
   * Whether a field of type `t`, copied out of a struct, still shows the
   * writes a walk makes through it: a pointer shares its target with the
   * original, and a struct copy shares the targets of its pointer fields.
   */
  predicate SharedByCopy(t: Type) {
    t.TPtr? || t.TStruct?
  }

  /**
   * One field (walker.go:272-313).  Unexported fields are skipped; a
   * container field is walked and, when writable, written back; when not
   * writable, a pointer or struct field still carries what the walk stored
   * through it.  A terminal field gets a struct-member node keyed by the
   * field's name, whose staged value is written on override when writable.
   * A delete removes nothing.
   */
  function FieldStep(c: Config, decl: FieldDecl, x: Value, writable: bool, d: Option<int>): FieldPiece
    decreases x, 5
  {
    if !decl.exported then FKeep
    else if !IsLiteralType(decl.t) then
      match WalkAt(c, x, d)
      case Panic => FCrash
      case Ok(r) =>
        if !writable then (if SharedByCopy(decl.t) then FWrite(r) else FKeep)
        else if Boxable(r, decl.t) then FWrite(r)
        else FCrash
    else
      match Chain(Fresh(StructMember, Some(VarState(TString, StrV(decl.name))), decl.t, x), c.routines, true)
      case Crashed => FCrash
      case Resolved(s, _, ov) =>
        if !(ov && writable) then FKeep
        else if Boxable(s.view.value.v, decl.t) then FWrite(s.view.value.v)
        else FCrash
  }

  // ---------------------------------------------------------------------
  // Pointers

  /**
   * `walk_literal(ctx, p, true)` for a pointer `p` to a scalar: the chain
   * runs on the target and an override is stored through the pointer.  A
   * nil pointer panics when its invalid `Elem()` is asked for `Interface()`.
   */
  function SettableLiteral(c: Config, p: Value): Outcome {
    match p
    case PtrV(e, x) =>
      (match LiteralChain(c, e, x)
       case LCrash => Panic
       case LKeep => Ok(p)
       case LWrite(y) => Ok(PtrV(e, y)))
    case _ => Panic
  }

  /**
   * `walk_pointer` (walker.go:319-344): dispatch on the pointed-to kind.
   * Maps, slices and structs are handed the pointer itself; scalars become
   * settable literals; any other pointer is returned as it is.
   */
  function WalkPointer(c: Config, v: Value, d: Option<int>): Outcome
    requires v.PtrV? || v.NilPtr?
    decreases v, 2
  {
    var e := v.pt;
    if e.TMap? then WalkMap(c, v, d)
    else if e.TSlice? then WalkSlice(c, v, d)
    else if e.TStruct? then WalkStruct(c, v, d)
    else if IsScalarType(e) then SettableLiteral(c, v)
    else Ok(v)
  }
}
