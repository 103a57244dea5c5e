/**
 * The struct rebuild of walker.go:257-317: fixed shape, exported fields
 * only, slot writes only through a pointer.
 */
module StructFacts {
  import opened Values
  import opened Nodes
  import opened Routines
  import opened Rebuild
  import Depth

  /** The struct-member node of an exported terminal field: keyed by the field's declared name. */
  function MemberNode(decl: FieldDecl, x: Value): NodeState {
    Fresh(StructMember, Some(VarState(TString, StrV(decl.name))), decl.t, x)
  }

  /**
   * What one field can do: an unexported field is never visited or
   * written; into a struct reached by value only a walked pointer or struct
   * field is written, with what the walk made of it (the stores through
   * the pointers it shares); a terminal field is written exactly when its
   * node was overridden (even if a later routine deleted it) and the struct
   * is writable, with the staged value.
   */
  lemma FieldDecision(c: Config, decl: FieldDecl, x: Value, writable: bool, d: Option<int>)
    ensures !decl.exported ==> FieldStep(c, decl, x, writable, d) == FKeep
    ensures !writable && FieldStep(c, decl, x, writable, d).FWrite? ==>
      && decl.exported && !IsLiteralType(decl.t) && SharedByCopy(decl.t)
      && WalkAt(c, x, d) == Ok(FieldStep(c, decl, x, writable, d).w)
    ensures decl.exported && !writable && SharedByCopy(decl.t) ==>
      && (FieldStep(c, decl, x, writable, d) == FCrash <==> WalkAt(c, x, d) == Panic)
      && (WalkAt(c, x, d).Ok? ==> FieldStep(c, decl, x, writable, d) == FWrite(WalkAt(c, x, d).v))
    ensures decl.exported && IsLiteralType(decl.t) ==>
      var res := Chain(MemberNode(decl, x), c.routines, true);
      && (FieldStep(c, decl, x, writable, d) == FCrash <==>
            res.Crashed? || (writable && res.override && !Boxable(res.state.view.value.v, decl.t)))
      && (FieldStep(c, decl, x, writable, d).FWrite? <==>
            writable && res.Resolved? && res.override && Boxable(res.state.view.value.v, decl.t))
      && (FieldStep(c, decl, x, writable, d).FWrite? ==> FieldStep(c, decl, x, writable, d).w == res.state.view.value.v)
    ensures decl.exported && !IsLiteralType(decl.t) && writable && WalkAt(c, x, d).Ok? &&
            Boxable(WalkAt(c, x, d).v, decl.t) ==>
      FieldStep(c, decl, x, writable, d) == FWrite(WalkAt(c, x, d).v)
  {
  }

  /**
   * The field loop keeps the struct's shape: same name, same declarations,
   * same number of fields.  Fields already passed and unexported fields keep
   * their values.  In a struct reached by value every other field but the
   * exported pointer and struct fields keeps its value, and those hold
   * their walks.
   */
  lemma {:induction false} StructFromShape(c: Config, v: Value, writable: bool, i: nat, vals: seq<Value>,
                                           d: Option<int>)
    requires StructOf(v).StructV? && |StructOf(v).decls| == |StructOf(v).vals| == |vals|
    requires i <= |vals|
    requires forall k :: i <= k < |vals| ==> vals[k] == StructOf(v).vals[k]
    ensures var s := StructOf(v);
      var out := StructFrom(c, v, writable, i, vals, d);
      out.Ok? ==>
        && out.v.StructV? && out.v.sname == s.sname && out.v.decls == s.decls
        && |out.v.vals| == |vals|
        && (forall k :: 0 <= k < |vals| && (k < i || !s.decls[k].exported) ==> out.v.vals[k] == vals[k])
        && (!writable ==> forall k :: i <= k < |vals| && !SharedByCopy(s.decls[k].t) ==>
              out.v.vals[k] == vals[k])
        && (!writable ==> forall k :: i <= k < |vals| && s.decls[k].exported && SharedByCopy(s.decls[k].t) ==>
              WalkAt(c, s.vals[k], d) == Ok(out.v.vals[k]))
    decreases |vals| - i
  {
    var s := StructOf(v);
    if i < |vals| {
      StructFromStep(c, v, writable, i, vals, d);
      var p := FieldStep(c, s.decls[i], s.vals[i], writable, d);
      FieldDecision(c, s.decls[i], s.vals[i], writable, d);
      match p
      case FCrash =>
      case FKeep => StructFromShape(c, v, writable, i + 1, vals, d);
      case FWrite(y) => StructFromShape(c, v, writable, i + 1, vals[i := y], d);
    }
  }

  /** A field's value after its iteration of the field loop: the written value, or `x` as it was. */
  function AfterField(p: FieldPiece, x: Value): Value {
    if p.FWrite? then p.w else x
  }

  /**
   * The field loop from field `i` on panics exactly when some remaining
   * field's decision is a panic.
   */
  lemma {:induction false} StructFromPanics(c: Config, v: Value, writable: bool, i: nat, vals: seq<Value>,
                                            d: Option<int>)
    requires StructOf(v).StructV? && |StructOf(v).decls| == |StructOf(v).vals| == |vals|
    requires i <= |vals|
    ensures var s := StructOf(v);
      StructFrom(c, v, writable, i, vals, d) == Panic <==>
        exists k :: i <= k < |vals| && FieldStep(c, s.decls[k], s.vals[k], writable, d) == FCrash
    decreases |vals| - i
  {
    var s := StructOf(v);
    if i < |vals| {
      StructFromStep(c, v, writable, i, vals, d);
      match FieldStep(c, s.decls[i], s.vals[i], writable, d)
      case FCrash =>
      case FKeep => StructFromPanics(c, v, writable, i + 1, vals, d);
      case FWrite(y) => StructFromPanics(c, v, writable, i + 1, vals[i := y], d);
    }
  }

  /**
   * The field loop from field `i` on, when it does not panic: fields
   * already passed keep their values, and every remaining field holds what
   * its own decision made of it (the written value, else its value as it
   * was).
   */
  lemma {:induction false} StructFromContents(c: Config, v: Value, writable: bool, i: nat, vals: seq<Value>,
                                              d: Option<int>)
    requires StructOf(v).StructV? && |StructOf(v).decls| == |StructOf(v).vals| == |vals|
    requires i <= |vals|
    requires forall k :: i <= k < |vals| ==> vals[k] == StructOf(v).vals[k]
    ensures var s := StructOf(v);
      var out := StructFrom(c, v, writable, i, vals, d);
      out.Ok? ==>
        && out.v.StructV? && |out.v.vals| == |vals|
        && (forall k :: 0 <= k < i ==> out.v.vals[k] == vals[k])
        && forall k :: i <= k < |vals| ==>
             out.v.vals[k] == AfterField(FieldStep(c, s.decls[k], s.vals[k], writable, d), s.vals[k])
    decreases |vals| - i
  {
    var s := StructOf(v);
    if i < |vals| {
      StructFromStep(c, v, writable, i, vals, d);
      match FieldStep(c, s.decls[i], s.vals[i], writable, d)
      case FCrash =>
      case FKeep => StructFromContents(c, v, writable, i + 1, vals, d);
      case FWrite(y) => StructFromContents(c, v, writable, i + 1, vals[i := y], d);
    }
  }

  /**
   * `r` is what a walk at depth `d` may make of the struct `v` reached by
   * value: the same name, declarations and field count; each exported
   * pointer or struct field holds its own walk, every other field is as it
   * was.
   */
  ghost predicate ByValueRebuild(c: Config, v: Value, r: Value, d: Option<int>) {
    && v.StructV? && r.StructV?
    && r.sname == v.sname && r.decls == v.decls && |r.vals| == |v.vals| == |v.decls|
    && forall k :: 0 <= k < |v.vals| ==>
         if v.decls[k].exported && SharedByCopy(v.decls[k].t) then WalkAt(c, v.vals[k], d) == Ok(r.vals[k])
         else r.vals[k] == v.vals[k]
  }

  /**
   * A struct reached by value gets none of its own slots assigned: it comes
   * back with only its exported pointer and struct fields replaced by their
   * walks (the stores through the pointers it shares), or the walk panics.
   * The same holds, one level deeper, for the walk that reaches it.
   */
  lemma StructByValue(c: Config, v: Value, d: Option<int>)
    requires v.StructV?
    ensures |v.decls| == |v.vals| ==>
      WalkStruct(c, v, d) == Panic || ByValueRebuild(c, v, WalkStruct(c, v, d).v, d)
    ensures |v.decls| == |v.vals| ==>
      (WalkStruct(c, v, d) == Panic <==> exists k :: 0 <= k < |v.vals| && FieldStep(c, v.decls[k], v.vals[k], false, d) == FCrash)
    ensures |v.decls| != |v.vals| ==> WalkStruct(c, v, d) == Ok(v)
    ensures WalkAt(c, v, d) == Panic ||
      (WalkAt(c, v, d).Ok? && WalkAt(c, v, d).v.StructV? && WalkAt(c, v, d).v.sname == v.sname &&
       WalkAt(c, v, d).v.decls == v.decls && |WalkAt(c, v, d).v.vals| == |v.vals|)
  {
    var dv := Depth.Dive(c.maxDepth, d);
    if |v.decls| == |v.vals| {
      StructFromShape(c, v, false, 0, v.vals, d);
      StructFromPanics(c, v, false, 0, v.vals, d);
      StructFromContents(c, v, false, 0, v.vals, d);
      StructFromShape(c, v, false, 0, v.vals, dv.after);
    }
    if !dv.tooDeep {
      assert WalkAt(c, v, d) == WalkStruct(c, v, dv.after);
    }
  }

  /**
   * A struct reached through a pointer is updated in place: the walk panics
   * exactly when some field's decision is a panic; otherwise the result is
   * the same pointer to a struct of the same shape in which every field
   * holds what its decision made of it: the staged value of an overridden
   * terminal field, the walk of a container field, the old value of every
   * other field (unexported fields among them).
   */
  lemma StructThroughPointer(c: Config, v: Value, d: Option<int>)
    requires v.PtrV? && v.target.StructV? && |v.target.decls| == |v.target.vals|
    ensures var s := v.target;
      WalkStruct(c, v, d) == Panic <==>
        exists k :: 0 <= k < |s.vals| && FieldStep(c, s.decls[k], s.vals[k], true, d) == FCrash
    ensures var r := WalkStruct(c, v, d);
      r.Ok? ==>
        && r.v.PtrV? && r.v.pt == v.pt && r.v.target.StructV?
        && r.v.target.sname == v.target.sname && r.v.target.decls == v.target.decls
        && |r.v.target.vals| == |v.target.vals|
        && (forall k :: 0 <= k < |v.target.vals| ==>
              r.v.target.vals[k] == AfterField(FieldStep(c, v.target.decls[k], v.target.vals[k], true, d),
                                               v.target.vals[k]))
        && (forall k :: 0 <= k < |v.target.vals| && !v.target.decls[k].exported ==>
              r.v.target.vals[k] == v.target.vals[k])
  {
    StructFromShape(c, v, true, 0, v.target.vals, d);
    StructFromPanics(c, v, true, 0, v.target.vals, d);
    StructFromContents(c, v, true, 0, v.target.vals, d);
  }
}
