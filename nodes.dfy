/**
 * The node and variable handles a routine receives (node.go).
 *
 * A `TreeNode` is one visited position; it owns a value variable, a key
 * variable for map pairs and struct members, and the pending action.  A
 * `TreeVariable` stores the current value of a key or value together with
 * the type captured when the node was created.  `NodeState` is the same
 * information as a plain value, and `Step` is the effect of one call a
 * routine makes on the node; the class methods are proved to implement it.
 */
module Nodes {
  import opened Values

  /** `routine_blank`, `routine_override`, `routine_delete` (node.go:25-30). */
  datatype Action = Blank | Override | Deleted

  /** `NodeType_map_pair`, `NodeType_slice_member`, `NodeType_struct_member`, `NodeType_literal`. */
  datatype NodeType = MapPair | SliceMember | StructMember | Literal

  /** The error result of a checked reader: nil or `ErrTypeAssertFailed`. */
  datatype Err = NoErr | ErrTypeAssertFailed

  /** A variable's captured type and current value. */
  datatype VarState = VarState(t: Type, v: Value)

  /** What a routine can observe of a node: its type, key and value (the action is internal). */
  datatype NodeView = NodeView(ntype: NodeType, key: Option<VarState>, value: VarState)

  datatype NodeState = NodeState(view: NodeView, action: Action)

  /** One call a routine makes on the node: `Key().Set(x)`, `Value().Set(x)` or `Delete()`. */
  datatype Cmd = SetKey(x: Value) | SetValue(x: Value) | DeleteNode

  /** `setAction`: the delete state is never left. */
  function NextAction(current: Action, requested: Action): Action {
    if current == Deleted then Deleted else requested
  }

  /**
   * The effect of one call on a node.  `Set` on a deleted node changes
   * nothing; otherwise it replaces that variable's value and sets the action
   * to override.  `Key().Set` on a node without a key calls a method on a
   * nil interface, which panics: `None`.
   */
  function Step(s: NodeState, c: Cmd): Option<NodeState> {
    match c
    case DeleteNode => Some(s.(action := Deleted))
    case SetValue(x) =>
      if s.action == Deleted then Some(s)
      else Some(NodeState(s.view.(value := s.view.value.(v := x)), NextAction(s.action, Override)))
    case SetKey(x) =>
      if s.view.key.None? then None
      else if s.action == Deleted then Some(s)
      else Some(NodeState(s.view.(key := Some(s.view.key.value.(v := x))), NextAction(s.action, Override)))
  }

  class TreeVariable {
    const node: TreeNode
    /** The type captured at creation; `Set` never changes it. */
    const t: Type
    var value: Value

    constructor (node: TreeNode, t: Type, value: Value)
      ensures this.node == node && this.t == t && this.value == value
    {
      this.node := node;
      this.t := t;
      this.value := value;
    }

    /**
     * `TypeName`: the name of the captured type.  Composite types and
     * `interface{}` are unnamed; struct and opaque types answer their
     * declared name, predeclared scalar types their keyword.  It reads no
     * mutable state, so no `Set` changes it.
     */
    function TypeName(): (r: string)
      ensures t.TSlice? || t.TMap? || t.TPtr? || t.TInterface? ==> r == ""
      ensures t.TStruct? || t.TOpaque? ==> r == t.name
      ensures IsScalarType(t) ==> r != ""
    {
      NameOf(t)
    }

    /**
     * `TypeKind`: the kind of the captured type.  It agrees with the
     * walker's own classification: the kind is a scalar kind exactly when
     * the type is, and it is a container kind exactly when `is_literal`
     * calls the type non-terminal.
     */
    function TypeKind(): (r: Kind)
      ensures IsScalarType(t) <==> r.KBool? || r.KInt? || r.KFloat? || r.KComplex? || r.KString?
      ensures !IsLiteralType(t) <==> r.KSlice? || r.KMap? || r.KStruct? || r.KPointer? || r == KOpaque(Array)
    {
      KindOf(t)
    }

    /**
     * `Interface`: the variable's current value, which is what the node
     * shows a routine in its view (the captured value until a `Set`, the
     * last staged value after).
     */
    function Interface(): (r: Value)
      reads this, node, node.key, node.value
      ensures node.Valid() && this == node.value ==> r == node.View().value.v
      ensures node.Valid() && this == node.key ==> node.View().key == Some(VarState(t, r))
    {
      value
    }

    function String(): (r: (string, Err))
      reads this
      ensures r.1 == NoErr <==> value.StrV?
      ensures r.1 == NoErr ==> r.0 == value.s
      ensures r.1 != NoErr ==> r == ("", ErrTypeAssertFailed)
    {
      if value.StrV? then (value.s, NoErr) else ("", ErrTypeAssertFailed)
    }

    /** `Int`, `Int8`, ..., `Uint64`: succeeds exactly on an integer of kind `k`. */
    function Integer(k: IntKind): (r: (int, Err))
      reads this
      ensures r.1 == NoErr <==> value.IntV? && value.ik == k
      ensures r.1 == NoErr ==> r.0 == value.i
      ensures r.1 != NoErr ==> r == (0, ErrTypeAssertFailed)
    {
      if value.IntV? && value.ik == k then (value.i, NoErr) else (0, ErrTypeAssertFailed)
    }

    /** `Float32`, `Float64`, answering the IEEE-754 bit pattern (zero bits are 0.0). */
    function Float(k: FloatKind): (r: (nat, Err))
      reads this
      ensures r.1 == NoErr <==> value.FloatV? && value.fk == k
      ensures r.1 == NoErr ==> r.0 == value.bits
      ensures r.1 != NoErr ==> r == (0, ErrTypeAssertFailed)
    {
      if value.FloatV? && value.fk == k then (value.bits, NoErr) else (0, ErrTypeAssertFailed)
    }

    function Bool(): (r: (bool, Err))
      reads this
      ensures r.1 == NoErr <==> value.BoolV?
      ensures r.1 == NoErr ==> r.0 == value.b
      ensures r.1 != NoErr ==> r == (false, ErrTypeAssertFailed)
    {
      if value.BoolV? then (value.b, NoErr) else (false, ErrTypeAssertFailed)
    }

    /** The `Must*` readers panic on a mismatch; here the mismatch is excluded by `requires`. */
    function MustString(): (r: string)
      reads this
      requires value.StrV?
      ensures String() == (r, NoErr)
    {
      value.s
    }

    function MustInteger(k: IntKind): (r: int)
      reads this
      requires value.IntV? && value.ik == k
      ensures Integer(k) == (r, NoErr)
    {
      value.i
    }

    function MustFloat(k: FloatKind): (r: nat)
      reads this
      requires value.FloatV? && value.fk == k
      ensures Float(k) == (r, NoErr)
    {
      value.bits
    }

    function MustBool(): (r: bool)
      reads this
      requires value.BoolV?
      ensures Bool() == (r, NoErr)
    {
      value.b
    }

    /**
     * Stage a replacement: unless the node is already deleted, store `x` and
     * move the node to override.  The other variable and the captured type
     * are untouched.
     */
    method Set(x: Value)
      requires node.Valid() && (this == node.value || this == node.key)
      modifies this, node`action
      ensures node.Valid()
      ensures Some(node.State()) ==
        Step(old(node.State()), if this == node.value then SetValue(x) else SetKey(x))
      ensures old(node.action) == Deleted ==> value == old(value) && node.action == Deleted
      ensures old(node.action) != Deleted ==> value == x && node.action == Override
    {
      var n := node;
      if n.GetAction() == Deleted {
        return;
      }
      n.SetAction(Override);
      value := x;
    }
  }

  class TreeNode {
    const ntype: NodeType
    var key: TreeVariable?
    var value: TreeVariable?
    var action: Action

    ghost predicate Valid()
      reads this, key, value
    {
      value != null && value.node == this &&
      (key != null ==> key.node == this && key != value)
    }

    ghost function Repr(): set<object>
      reads this
    {
      {this} + (if value == null then {} else {value}) + (if key == null then {} else {key})
    }

    function View(): NodeView
      reads this, key, value
      requires Valid()
    {
      NodeView(ntype,
               if key == null then None else Some(VarState(key.t, key.value)),
               VarState(value.t, value.value))
    }

    ghost function State(): NodeState
      reads this, key, value
      requires Valid()
    {
      NodeState(View(), action)
    }

    /** A fresh node: its action is blank. */
    constructor (ntype: NodeType, key: Option<VarState>, value: VarState)
      ensures Valid() && fresh(Repr())
      ensures State() == NodeState(NodeView(ntype, key, value), Blank)
    {
      this.ntype := ntype;
      this.key := null;
      this.value := null;
      this.action := Blank;
      new;
      this.value := new TreeVariable(this, value.t, value.v);
      if key.Some? {
        this.key := new TreeVariable(this, key.value.t, key.value.v);
      }
    }

    /** `getAction`: the pending action, the one the node's state records. */
    function GetAction(): (a: Action)
      reads this, key, value
      ensures Valid() ==> a == State().action
    {
      action
    }

    method SetAction(a: Action)
      modifies this`action
      ensures action == NextAction(old(action), a)
    {
      if action == Deleted {
        return;
      }
      action := a;
    }

    /** Mark the node deleted; idempotent. */
    method Delete()
      modifies this`action
      ensures action == Deleted
    {
      action := Deleted;
    }
  }
}
