/**
 * With no routines and no key coercion, a walk rebuilds its input exactly
 * (walker.go:54-362 taken together): every container is reassembled from
 * its own elements, entries and fields in their own order.
 *
 * The theorem needs the input to avoid the shapes on which walker.go panics
 * even without routines (`Walkable`): a nil pointer to a scalar, a non-nil
 * pointer to a map or slice, and a non-nil pointer stored in a slot whose
 * static type is a pointer (`unpack_value` strips it, and the stripped
 * value no longer fits the rebuilt container).
 */
module Identity {
  import opened Values
  import opened Nodes
  import opened Routines
  import opened Assoc
  import opened Depth
  import opened Rebuild
  import SliceFacts
  import MapFacts
  import StructFacts

  /** A walker built without `WithRoutine` or `WithJsonableMap` (any depth bound). */
  predicate Plain(c: Config) {
    c.routines == [] && !c.jsonable
  }

  /** Inputs on whose every reachable position the walker does not panic by itself. */
  predicate Walkable(v: Value)
    decreases v
  {
    match v
    case SliceV(se, items) =>
      forall i :: 0 <= i < |items| ==> !(se.TPtr? && items[i].PtrV?) && Walkable(items[i])
    case MapV(kt, et, es) =>
      forall i :: 0 <= i < |es| ==>
        !(kt.TPtr? && es[i].key.PtrV?) && !(et.TPtr? && es[i].val.PtrV?) && Walkable(es[i].val)
    case StructV(_, ds, vs) =>
      forall i :: 0 <= i < |vs| && i < |ds| && ds[i].exported && !IsLiteralType(ds[i].t) ==> Walkable(vs[i])
    case NilPtr(e) => !IsScalarType(e)
    case PtrV(e, x) => !(e.TMap? || e.TSlice?) && (e.TStruct? ==> Walkable(x))
    case _ => true
  }

  /** With no routines a node resolves untouched: not deleted, not overridden. */
  lemma NoRoutines(s: NodeState, stopOnDelete: bool)
    ensures Chain(s, [], stopOnDelete) == Resolved(s, Blank, false)
  {
  }

  /** A map assembled from one insertion per entry, keys distinct, is that entry list. */
  lemma {:induction false} AssembledFresh(acc: seq<Entry>, es: seq<Entry>, ps: seq<EntryPiece>)
    requires |ps| == |es|
    requires forall i :: 0 <= i < |ps| ==> ps[i] == EPut(es[i].key, es[i].val)
    requires DistinctKeys(acc + es)
    ensures MapFacts.Assembled(acc, ps) == acc + es
    decreases |ps|
  {
    if ps == [] {
      assert es == [];
    } else {
      var e := es[0];
      assert e.key !in Keys(acc) by {
        forall j | 0 <= j < |acc| ensures acc[j].key != e.key {
          assert (acc + es)[j] == acc[j] && (acc + es)[|acc|] == e;
        }
      }
      InsertFresh(acc, e.key, e.val);
      assert acc + [e] + es[1..] == acc + es;
      AssembledFresh(acc + [e], es[1..], ps[1..]);
    }
  }

  /** The identity theorem at any depth level. */
  lemma {:induction false} IdentityAt(c: Config, v: Value, d: Option<int>)
    requires Plain(c) && WellTyped(v) && Walkable(v)
    ensures WalkAt(c, v, d) == Ok(v)
    decreases v, 4
  {
    var dv := Dive(c.maxDepth, d);
    if !dv.tooDeep {
      match v {
        case MapV(_, _, _) => IdentityMap(c, v, dv.after);
        case SliceV(_, _) => IdentitySlice(c, v, dv.after);
        case StructV(_, _, _) => IdentityStruct(c, v, dv.after);
        case PtrV(e, x) =>
          if e.TStruct? {
            assert Dispatch(c, v, dv.after) == WalkPointer(c, v, dv.after) == WalkStruct(c, v, dv.after);
            IdentityStruct(c, v, dv.after);
          } else {
            assert Dispatch(c, v, dv.after) == WalkPointer(c, v, dv.after);
            NoRoutines(Fresh(Literal, None, e, x), false);
            assert LiteralChain(c, e, x) == LKeep;
          }
        case NilPtr(e) =>
          assert Dispatch(c, v, dv.after) == WalkPointer(c, v, dv.after);
          if e.TMap? {
            assert WalkMap(c, v, dv.after) == Ok(v);
          } else if e.TSlice? {
            assert WalkSlice(c, v, dv.after) == Ok(v);
          } else if e.TStruct? {
            assert WalkStruct(c, v, dv.after) == Ok(v);
          }
        case NilMap(_, _) =>
          assert Dispatch(c, v, dv.after) == WalkMap(c, v, dv.after);
        case NilSlice(_) =>
          assert Dispatch(c, v, dv.after) == WalkSlice(c, v, dv.after);
        case _ =>
          NoRoutines(Fresh(Literal, None, TypeOf(v), v), false);
      }
    }
  }

  /** A slice: every element is kept as it was, so the rebuilt slice is the input. */
  lemma {:induction false} IdentitySlice(c: Config, v: Value, d: Option<int>)
    requires v.SliceV?
    requires Plain(c) && WellTyped(v) && Walkable(v)
    ensures WalkSlice(c, v, d) == Ok(v)
    decreases v, 1
  {
    var ps := SliceFacts.ElemPieces(c, v, d);
    forall i | 0 <= i < |v.items| ensures ps[i] == Keep(v.items[i]) {
      ElemIdentity(c, v.se, v.items[i], d);
    }
    SliceFacts.SliceRebuild(c, v, d);
    SliceFacts.KeptAll(ps);
    assert SliceFacts.Kept(ps) == v.items;
  }

  lemma {:induction false} ElemIdentity(c: Config, et: Type, item: Value, d: Option<int>)
    requires Plain(c) && WellTyped(item) && Walkable(item)
    requires Fits(TypeOf(item), et) && !(et.TPtr? && item.PtrV?)
    ensures SliceElem(c, et, item, d) == Keep(item)
    decreases item, 5
  {
    NoRoutines(Fresh(SliceMember, None, TypeOf(item), item), true);
    if !IsLiteralType(TypeOf(item)) {
      IdentityAt(c, item, d);
    }
  }

  /** A map: every entry is put back under its own key, in iteration order. */
  lemma {:induction false} IdentityMap(c: Config, v: Value, d: Option<int>)
    requires v.MapV?
    requires Plain(c) && WellTyped(v) && Walkable(v)
    ensures WalkMap(c, v, d) == Ok(v)
    decreases v, 1
  {
    var ps := MapFacts.EntryPieces(c, v, d);
    forall i | 0 <= i < |v.entries| ensures ps[i] == EPut(v.entries[i].key, v.entries[i].val) {
      EntryIdentity(c, v.mk, v.me, v.entries[i].key, v.entries[i].val, d);
    }
    MapFacts.MapRebuild(c, v, d);
    assert [] + v.entries == v.entries;
    AssembledFresh([], v.entries, ps);
  }

  lemma {:induction false} EntryIdentity(c: Config, kt: Type, et: Type, key: Value, val: Value, d: Option<int>)
    requires Plain(c) && WellTyped(val) && Walkable(val)
    requires Fits(TypeOf(key), kt) && Fits(TypeOf(val), et)
    requires !(kt.TPtr? && key.PtrV?) && !(et.TPtr? && val.PtrV?)
    ensures MapEntry(c, kt, et, kt, key, val, d) == EPut(key, val)
    decreases val, 5
  {
    NoRoutines(Fresh(MapPair, Some(VarState(TypeOf(key), key)), TypeOf(val), val), true);
    if !IsLiteralType(TypeOf(val)) {
      IdentityAt(c, val, d);
    }
  }

  /**
   * A struct, by value or through a pointer: every field is left alone or
   * written back with its own value.
   */
  lemma {:induction false} IdentityStruct(c: Config, v: Value, d: Option<int>)
    requires v.StructV? || (v.PtrV? && v.pt.TStruct?)
    requires Plain(c) && WellTyped(v) && Walkable(v)
    ensures WalkStruct(c, v, d) == Ok(v)
    decreases v, 1
  {
    var s := StructOf(v);
    var w := v.PtrV?;
    forall i | 0 <= i < |s.vals|
      ensures FieldStep(c, s.decls[i], s.vals[i], w, d) == FKeep ||
              FieldStep(c, s.decls[i], s.vals[i], w, d) == FWrite(s.vals[i])
    {
      assert s.vals[i] < v;
      FieldIdentity(c, s.decls[i], s.vals[i], w, d);
    }
    StructFromIdentity(c, v, w, 0, d);
  }

  lemma {:induction false} FieldIdentity(c: Config, decl: FieldDecl, x: Value, writable: bool, d: Option<int>)
    requires Plain(c) && WellTyped(x) && Fits(TypeOf(x), decl.t)
    requires decl.exported && !IsLiteralType(decl.t) ==> Walkable(x)
    ensures FieldStep(c, decl, x, writable, d) == FKeep || FieldStep(c, decl, x, writable, d) == FWrite(x)
    decreases x, 5
  {
    NoRoutines(StructFacts.MemberNode(decl, x), true);
    if decl.exported && !IsLiteralType(decl.t) {
      IdentityAt(c, x, d);
    }
  }

  /** The field loop over fields that are each kept or rewritten with their own value. */
  lemma {:induction false} StructFromIdentity(c: Config, v: Value, writable: bool, i: nat, d: Option<int>)
    requires StructOf(v).StructV? && |StructOf(v).decls| == |StructOf(v).vals|
    requires i <= |StructOf(v).vals|
    requires var s := StructOf(v);
      forall k :: i <= k < |s.vals| ==>
        FieldStep(c, s.decls[k], s.vals[k], writable, d) == FKeep ||
        FieldStep(c, s.decls[k], s.vals[k], writable, d) == FWrite(s.vals[k])
    ensures StructFrom(c, v, writable, i, StructOf(v).vals, d) == Ok(StructOf(v))
    decreases |StructOf(v).vals| - i
  {
    var s := StructOf(v);
    if i < |s.vals| {
      StructFromStep(c, v, writable, i, s.vals, d);
      assert s.vals[i := s.vals[i]] == s.vals;
      StructFromIdentity(c, v, writable, i + 1, d);
    }
  }

  /**
   * `Walk` with neither routines nor `WithJsonableMap` returns a value equal
   * to its input, whatever the depth bound.
   */
  lemma WalkIdentity(c: Config, v: Value)
    requires Plain(c) && WellTyped(v) && Walkable(v)
    ensures Rebuild.Walk(c, v) == Ok(v)
  {
    if v != Nil {
      IdentityAt(c, v, None);
    }
  }
}
