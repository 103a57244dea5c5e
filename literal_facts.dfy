/**
 * Scalars, pointers, the depth bound, and how a staged `Set` followed by a
 * `Delete` ends in each kind of position (walker.go:100-135, 166-185,
 * 232-252, 296-313, 319-344, 364-396).
 */
module LiteralFacts {
  import opened Values
  import opened Nodes
  import opened Routines
  import opened Depth
  import opened Rebuild
  import StructFacts

  /** The literal node of a scalar of type `t` holding `x`. */
  function LiteralNode(t: Type, x: Value): NodeState {
    Fresh(Literal, None, t, x)
  }

  /**
   * A root scalar: if some routine left the node overridden the result is
   * the staged value, which has the scalar's own type; otherwise the scalar
   * itself.  A failed store of the staged value panics.
   */
  lemma RootLiteral(c: Config, v: Value)
    requires IsScalarType(TypeOf(v))
    ensures var res := Chain(LiteralNode(TypeOf(v), v), c.routines, false);
      && (WalkLiteral(c, v).Ok? ==>
            && res.Resolved?
            && TypeOf(WalkLiteral(c, v).v) == TypeOf(v)
            && WalkLiteral(c, v).v == (if res.override then res.state.view.value.v else v))
      && (res.Resolved? && !res.override ==> WalkLiteral(c, v) == Ok(v))
      && (res.Resolved? && res.override && !Boxable(res.state.view.value.v, TypeOf(v)) ==>
            WalkLiteral(c, v) == Panic)
  {
  }

  /**
   * A pointer to a scalar: an override is written through the pointer (the
   * same pointer type, now holding the staged value of the target type);
   * otherwise the pointer is returned as it was.
   */
  lemma PointerLiteral(c: Config, p: Value)
    requires p.PtrV? && IsScalarType(p.pt)
    ensures var res := Chain(LiteralNode(p.pt, p.target), c.routines, false);
      && (SettableLiteral(c, p).Ok? ==>
            var r := SettableLiteral(c, p).v;
            && res.Resolved?
            && r.PtrV? && r.pt == p.pt
            && (res.override ==> TypeOf(r.target) == p.pt)
            && r.target == (if res.override then res.state.view.value.v else p.target))
      && (res.Resolved? && !res.override ==> SettableLiteral(c, p) == Ok(p))
  {
  }

  /**
   * Pointers whose walk panics or passes: a nil pointer to a scalar panics,
   * any other nil pointer is returned; a non-nil pointer to a map or slice
   * panics; a pointer to a pointer, interface or opaque value is returned.
   */
  lemma PointerCases(c: Config, p: Value, d: Option<int>)
    requires p.PtrV? || p.NilPtr?
    ensures p.NilPtr? ==> WalkPointer(c, p, d) == if IsScalarType(p.pt) then Panic else Ok(p)
    ensures p.PtrV? && (p.pt.TMap? || p.pt.TSlice?) ==> WalkPointer(c, p, d) == Panic
    ensures p.pt.TPtr? || p.pt.TInterface? || p.pt.TOpaque? ==> WalkPointer(c, p, d) == Ok(p)
  {
  }

  /**
   * Pointer elements: `unpack_value` strips the pointer of a `[]*T` element
   * while the rebuilt slice keeps element type `*T`, so appending the struct
   * (walked by value, still a struct) panics.
   */
  lemma PointerToStructElementPanics(c: Config, name: string, fs: seq<FieldDecl>, x: Value, d: Option<int>)
    requires x.StructV?
    ensures SliceElem(c, TPtr(TStruct(name, fs)), PtrV(TStruct(name, fs), x), d) == Crash
  {
    StructFacts.StructByValue(c, x, d);
  }

  // ---------------------------------------------------------------------
  // Nil inputs

  /** The nil interface, a typed-nil slice and a typed-nil map come back unchanged under any walker. */
  lemma NilInputs(c: Config, e: Type, kt: Type, et: Type, d: Option<int>)
    ensures Walk(c, Nil) == Ok(Nil)
    ensures WalkAt(c, NilSlice(e), d) == Ok(NilSlice(e))
    ensures WalkAt(c, NilMap(kt, et), d) == Ok(NilMap(kt, et))
  {
    var dv := Dive(c.maxDepth, d);
    assert Dispatch(c, NilSlice(e), dv.after) == WalkSlice(c, NilSlice(e), dv.after);
    assert Dispatch(c, NilMap(kt, et), dv.after) == WalkMap(c, NilMap(kt, et), dv.after);
  }

  // ---------------------------------------------------------------------
  // Depth

  /** A walk at a level at or beyond a non-negative bound returns its input untouched. */
  lemma BeyondBoundUntouched(c: Config, v: Value, n: int)
    requires 0 <= c.maxDepth <= n
    ensures WalkAt(c, v, Some(n)) == Ok(v)
  {
  }

  /**
   * Levels: without a bound no level is tracked; with one, the root is
   * dispatched at level 0 and a container at level `n < maxDepth` hands
   * level `n + 1` to its children.
   */
  lemma WalkLevels(c: Config, v: Value, n: int)
    requires v != Nil
    ensures c.maxDepth == NoDepthLimit ==> Walk(c, v) == Dispatch(c, v, None)
    ensures c.maxDepth != NoDepthLimit ==> Walk(c, v) == Dispatch(c, v, Some(0))
    ensures c.maxDepth != NoDepthLimit && n < c.maxDepth ==> WalkAt(c, v, Some(n)) == Dispatch(c, v, Some(n + 1))
  {
  }

  // ---------------------------------------------------------------------
  // A `Set` followed by a `Delete`

  /**
   * A scenario for two given routines, not an all-routines property:
   * routines `[r1, r2]` where `r1` stages `y` and `r2` deletes.  The staged
   * value is discarded for slice elements and map entries (they are
   * omitted) but written for struct fields reached through a pointer and for
   * root scalars (whose chains do not drop the override).
   */
  lemma SetThenDeleteByPosition(c: Config, r1: Routine, r2: Routine, y: Value)
    requires c.routines == [r1, r2]
    requires forall nv :: r1(nv) == [SetValue(y)]
    requires forall nv :: r2(nv) == [DeleteNode]
    ensures forall et, item, d :: IsLiteralType(TypeOf(Unpack(et, item))) ==> SliceElem(c, et, item, d) == Drop
    ensures forall et, okt, k, x :: PairStep(c, et, okt, k, x) == ESkip
    ensures forall decl: FieldDecl, x, d :: decl.exported && IsLiteralType(decl.t) && Boxable(y, decl.t) ==>
      FieldStep(c, decl, x, true, d) == FWrite(y) && FieldStep(c, decl, x, false, d) == FKeep
    ensures forall v :: IsScalarType(TypeOf(v)) && Boxable(y, TypeOf(v)) ==> WalkLiteral(c, v) == Ok(y)
  {
    forall et, item, d | IsLiteralType(TypeOf(Unpack(et, item)))
      ensures SliceElem(c, et, item, d) == Drop
    {
      var u := Unpack(et, item);
      SetThenDelete(Fresh(SliceMember, None, TypeOf(u), u), r1, r2, y, true);
    }
    forall et, okt, k, x ensures PairStep(c, et, okt, k, x) == ESkip {
      SetThenDelete(Fresh(MapPair, Some(VarState(TypeOf(k), k)), TypeOf(x), x), r1, r2, y, true);
    }
    forall decl: FieldDecl, x, d | decl.exported && IsLiteralType(decl.t) && Boxable(y, decl.t)
      ensures FieldStep(c, decl, x, true, d) == FWrite(y) && FieldStep(c, decl, x, false, d) == FKeep
    {
      SetThenDelete(StructFacts.MemberNode(decl, x), r1, r2, y, true);
    }
    forall v | IsScalarType(TypeOf(v)) && Boxable(y, TypeOf(v)) ensures WalkLiteral(c, v) == Ok(y) {
      SetThenDelete(LiteralNode(TypeOf(v), v), r1, r2, y, false);
    }
  }

  /**
   * A scenario for one given routine, one that only deletes: a terminal
   * slice element or a map entry is omitted, a struct field and a root
   * scalar are left as they were.
   */
  lemma DeleteOnly(c: Config, r: Routine)
    requires c.routines == [r]
    requires forall nv :: r(nv) == [DeleteNode]
    ensures forall et, item, d :: IsLiteralType(TypeOf(Unpack(et, item))) ==> SliceElem(c, et, item, d) == Drop
    ensures forall et, okt, k, x :: PairStep(c, et, okt, k, x) == ESkip
    ensures forall decl: FieldDecl, x, w, d :: decl.exported && IsLiteralType(decl.t) ==>
      FieldStep(c, decl, x, w, d) == FKeep
    ensures forall v :: IsScalarType(TypeOf(v)) ==> WalkLiteral(c, v) == Ok(v)
  {
    forall s: NodeState, stop: bool | s.action == Blank
      ensures ChainFrom(s, [r], stop, Blank, false) == Resolved(s.(action := Deleted), Deleted, false)
    {
      assert Run(s, r(s.view)) == Some(s.(action := Deleted));
      assert [r][1..] == [];
    }
  }
}
