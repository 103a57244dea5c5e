/**
 * The closed value universe that replaces Go's `reflect` for the walker.
 *
 * Every traversed payload is a `Value`; every value has a runtime `Type`
 * (`TypeOf`).  Containers record their element types, so the type checks
 * that `reflect` performs when a container is rebuilt (`Append`, `Set`,
 * `SetMapIndex`) can be stated.  Floating-point and complex numbers are
 * opaque bit patterns; arrays, channels, functions, unsafe pointers and
 * uintptrs are opaque tokens.
 */
module Values {

  datatype Option<+T> = None | Some(value: T)

  datatype IntKind = Int | Int8 | Int16 | Int32 | Int64 | Uint | Uint8 | Uint16 | Uint32 | Uint64
  datatype FloatKind = Float32 | Float64
  datatype ComplexKind = Complex64 | Complex128
  /** Kinds the walker never looks into. */
  datatype OpaqueKind = Array | Chan | Func | UnsafePointer | Uintptr

  datatype FieldDecl = FieldDecl(name: string, exported: bool, t: Type)

  /** Go types that can occur in a traversed value; `TInterface` is `interface{}`. */
  datatype Type =
    | TBool
    | TInt(ik: IntKind)
    | TFloat(fk: FloatKind)
    | TComplex(ck: ComplexKind)
    | TString
    | TInterface
    | TOpaque(ok: OpaqueKind, name: string)
    | TSlice(elem: Type)
    | TMap(key: Type, elem: Type)
    | TStruct(name: string, fields: seq<FieldDecl>)
    | TPtr(target: Type)

  /** A subset of `reflect.Kind`, the answer of `TypeKind`. */
  datatype Kind =
    | KBool | KInt(ik: IntKind) | KFloat(fk: FloatKind) | KComplex(ck: ComplexKind) | KString
    | KInterface | KOpaque(ok: OpaqueKind) | KSlice | KMap | KStruct | KPointer

  datatype Entry = Entry(key: Value, val: Value)

  /**
   * A traversed value.  `Nil` is the nil interface (the untyped nil);
   * `NilSlice`, `NilMap` and `NilPtr` are typed nils.  A map lists its
   * entries in the order the walker iterates them.
   */
  datatype Value =
    | Nil
    | BoolV(b: bool)
    | IntV(ik: IntKind, i: int)
    | FloatV(fk: FloatKind, bits: nat)
    | ComplexV(ck: ComplexKind, bits: nat)
    | StrV(s: string)
    | OpaqueV(ot: Type, token: nat)
    | NilSlice(se: Type)
    | SliceV(se: Type, items: seq<Value>)
    | NilMap(mk: Type, me: Type)
    | MapV(mk: Type, me: Type, entries: seq<Entry>)
    | StructV(sname: string, decls: seq<FieldDecl>, vals: seq<Value>)
    | NilPtr(pt: Type)
    | PtrV(pt: Type, target: Value)

  function TypeOf(v: Value): Type {
    match v
    case Nil => TInterface
    case BoolV(_) => TBool
    case IntV(k, _) => TInt(k)
    case FloatV(k, _) => TFloat(k)
    case ComplexV(k, _) => TComplex(k)
    case StrV(_) => TString
    case OpaqueV(t, _) => t
    case NilSlice(e) => TSlice(e)
    case SliceV(e, _) => TSlice(e)
    case NilMap(k, e) => TMap(k, e)
    case MapV(k, e, _) => TMap(k, e)
    case StructV(n, fs, _) => TStruct(n, fs)
    case NilPtr(e) => TPtr(e)
    case PtrV(e, _) => TPtr(e)
  }

  function KindOf(t: Type): Kind {
    match t
    case TBool => KBool
    case TInt(k) => KInt(k)
    case TFloat(k) => KFloat(k)
    case TComplex(k) => KComplex(k)
    case TString => KString
    case TInterface => KInterface
    case TOpaque(k, _) => KOpaque(k)
    case TSlice(_) => KSlice
    case TMap(_, _) => KMap
    case TStruct(_, _) => KStruct
    case TPtr(_) => KPointer
  }

  /** `reflect.Type.Name()`: predeclared and struct types are named, composite types are not. */
  function NameOf(t: Type): string {
    match t
    case TBool => "bool"
    case TInt(k) =>
      (match k
       case Int => "int" case Int8 => "int8" case Int16 => "int16" case Int32 => "int32"
       case Int64 => "int64" case Uint => "uint" case Uint8 => "uint8" case Uint16 => "uint16"
       case Uint32 => "uint32" case Uint64 => "uint64")
    case TFloat(k) => if k == Float32 then "float32" else "float64"
    case TComplex(k) => if k == Complex64 then "complex64" else "complex128"
    case TString => "string"
    case TOpaque(_, n) => n
    case TStruct(n, _) => n
    case _ => ""
  }

  /** The kinds the dispatcher hands to the literal path (walker.go:88-94, 332-338). */
  predicate IsScalarType(t: Type) {
    t.TBool? || t.TInt? || t.TFloat? || t.TComplex? || t.TString?
  }

  /**
   * `is_literal`: everything except arrays, slices, maps, structs and
   * pointers is terminal.  Interface-typed values count as terminal.
   */
  predicate IsLiteralType(t: Type) {
    !(t.TSlice? || t.TMap? || t.TStruct? || t.TPtr? || (t.TOpaque? && t.ok == Array))
  }

  /**
   * `unpack_value`: one level of indirection read from a container slot of
   * static type `slot`.  A non-nil interface yields its dynamic value, a
   * non-nil pointer its target; anything else is returned as it is.
   */
  function Unpack(slot: Type, x: Value): (r: Value)
    ensures r == x || r < x
    ensures slot.TPtr? && x.PtrV? ==> r == x.target
    ensures !(slot.TPtr? && x.PtrV?) ==> r == x
  {
    if slot.TPtr? && x.PtrV? then x.target else x
  }

  /**
   * Unpacking keeps a value well typed, and a value that fits its slot
   * still fits it after unpacking exactly when no pointer was stripped: the
   * target of a pointer read from a `*T` slot has type `T`, never `*T`.
   */
  lemma UnpackTyped(slot: Type, x: Value)
    requires WellTyped(x)
    ensures WellTyped(Unpack(slot, x))
    ensures Fits(TypeOf(x), slot) ==>
      (Fits(TypeOf(Unpack(slot, x)), slot) <==> !(slot.TPtr? && x.PtrV?))
    ensures Fits(TypeOf(x), slot) && slot.TPtr? && x.PtrV? ==> TypeOf(Unpack(slot, x)) == slot.target
  {
  }

  /** Go assignability within this type universe: identical types, or any type into `interface{}`. */
  predicate Fits(t: Type, slot: Type) {
    t == slot || slot == TInterface
  }

  /**
   * Whether `reflect.ValueOf(x)` may be stored in a slot of type `slot`:
   * `reflect.ValueOf(nil)` is the invalid Value, which no setter accepts.
   */
  predicate Boxable(x: Value, slot: Type) {
    x != Nil && Fits(TypeOf(x), slot)
  }

  predicate IntInRange(k: IntKind, i: int) {
    match k
    case Int8 => -0x80 <= i < 0x80
    case Int16 => -0x8000 <= i < 0x8000
    case Int32 => -0x8000_0000 <= i < 0x8000_0000
    case Int | Int64 => -0x8000_0000_0000_0000 <= i < 0x8000_0000_0000_0000
    case Uint8 => 0 <= i < 0x100
    case Uint16 => 0 <= i < 0x1_0000
    case Uint32 => 0 <= i < 0x1_0000_0000
    case Uint | Uint64 => 0 <= i < 0x1_0000_0000_0000_0000
  }

  /** Keys of an entry list are pairwise distinct, as in a Go map. */
  predicate DistinctKeys(es: seq<Entry>) {
    forall i, j :: 0 <= i < j < |es| ==> es[i].key != es[j].key
  }

  /** Values a Go program can hold: every element, entry and field has the type of its slot. */
  predicate WellTyped(v: Value) {
    match v
    case IntV(k, i) => IntInRange(k, i)
    case FloatV(k, b) => b < (if k == Float32 then 0x1_0000_0000 else 0x1_0000_0000_0000_0000)
    case OpaqueV(t, _) => t.TOpaque?
    case SliceV(e, items) =>
      forall k :: 0 <= k < |items| ==> WellTyped(items[k]) && Fits(TypeOf(items[k]), e)
    case MapV(kt, et, es) =>
      && DistinctKeys(es)
      && (forall k :: 0 <= k < |es| ==>
            && WellTyped(es[k].key) && Fits(TypeOf(es[k].key), kt)
            && WellTyped(es[k].val) && Fits(TypeOf(es[k].val), et))
    case StructV(_, ds, vs) =>
      |ds| == |vs| && forall k :: 0 <= k < |vs| ==> WellTyped(vs[k]) && Fits(TypeOf(vs[k]), ds[k].t)
    case PtrV(e, x) => WellTyped(x) && TypeOf(x) == e
    case _ => true
  }

  /**
   * A value classified as terminal after unpacking carries no nested value
   * the walker could descend into: it is a scalar, the nil interface or an
   * opaque non-array token.
   */
  lemma LiteralValuesAreTerminal(v: Value)
    requires WellTyped(v)
    ensures IsLiteralType(TypeOf(v)) <==>
      (v.Nil? || v.BoolV? || v.IntV? || v.FloatV? || v.ComplexV? || v.StrV? ||
       (v.OpaqueV? && v.ot.ok != Array))
  {
  }
}
