# reflect_walker in Dafny

`reflect_walker` walks an arbitrary Go value with reflection and rebuilds it.
At every visited position it creates a `treeNode` and runs an ordered
chain of user routines on it. A routine may stage a new key or value
(`Set`) or delete the position (`Delete`). Each category of value has its
own rebuild policy:

- **Slices** are filtered in order. Terminal elements go through the chain,
  and deleted ones are dropped.
- **Maps** are rebuilt entry by entry. Every entry reaches the chain.
  `WithJsonableMap` coerces the rebuilt map's key type to `string`.
- **Structs** visit exported fields only. The struct's own slots are
  assigned only when it was reached through a pointer. Writes the walk
  makes through a pointer field reach the shared target either way.
- **Root scalars** run the whole chain with no early stop.
- **Pointers to scalars** are written through.

A depth guard (`dive`/`rise`) bounds how deep the walk descends.

This project models that engine:

- **Go values.** A closed `Value` datatype with runtime `Type`s stands in for
  reflection (`values.dfy`).
- **Maps.** A rebuilt Go map is an entry list in iteration order, with
  insert-or-overwrite and delete (`assoc.dfy`).
- **Nodes and variables.** The node and variable objects of node.go are
  classes whose methods are proved to implement a small state machine on
  `NodeState` (`nodes.dfy`).
- **Routines.** A routine is modelled by the calls it makes on the node, as a
  function of what it sees. The routine loop is `Chain`, and `RunChain` runs
  it on a node object (`chain.dfy`).
- **Depth counter.** `depth.dfy` holds the counter cell together with the
  pure `Dive`/`Rise`.
- **The rebuild.** `rebuild.dfy` states what one walk computes, as functions
  that follow walker.go one loop iteration at a time. A Go panic is the
  outcome `Panic`.
- **The walker object.** `walker.dfy` is the options and the walker class.
  Its methods loop and build the result as the Go methods do. Each is
  proved equal to the corresponding function of `Rebuild`, and each leaves
  the depth counter as it found it.
- **Proved properties.**
  - `slice_facts.dfy`, `map_facts.dfy` and `struct_facts.dfy` cover the
    per-category policies.
  - `literal_facts.dfy` covers scalars, pointers, depth, and a `Set`
    followed by a `Delete` in each kind of position.
  - `identity.dfy` proves that a walk with no routines returns its input.

## Model

| member | source | states |
|---|---|---|
| Values.UnpackTyped | walker.go:357-362 | unpacking keeps a value well typed; a well-typed value that fits its slot still fits after unpacking exactly when no pointer was stripped, and a stripped `*T` yields a `T` |
| Values.LiteralValuesAreTerminal | walker.go:346-355 | for a well-typed value, `is_literal` holds exactly for scalars, the nil interface and non-array opaque values |
| Assoc.LookupInsert | walker.go:252 | after `SetMapIndex(k, x)` the key `k` maps to `x` and every other key keeps its entry |
| Assoc.KeysInsert | walker.go:252 | `SetMapIndex(k, x)` adds exactly `k` to the key set; the map grows by one entry exactly when `k` was absent |
| Assoc.InsertFresh | walker.go:252 | storing a key the map does not hold appends its entry at the end of the iteration order |
| Assoc.InsertDistinct | walker.go:252 | storing an entry keeps the map's keys distinct |
| Assoc.LookupRemove | walker.go:252 | `SetMapIndex(k, <invalid>)` removes `k` and leaves every other key's entry alone |
| Assoc.RemoveDistinct | walker.go:252 | removal adds no key and keeps the keys distinct |
| Nodes.TreeVariable.constructor | node.go:76-80 | a variable records its node, the type captured at creation and the initial value |
| Nodes.TreeVariable.TypeName | node.go:87-90 | the captured type's name: empty for slices, maps, pointers and `interface{}`, the declared name of a struct or opaque type, a non-empty keyword for a scalar; the type is fixed at creation, so no `Set` changes it |
| Nodes.TreeVariable.TypeKind | node.go:92-95 | the captured type's kind, a scalar kind exactly when the walker treats the type as a scalar, and a container kind exactly when `is_literal` calls it non-terminal; fixed at creation |
| Nodes.TreeVariable.Interface | node.go:97-99 | the variable's current value, the one the node's view shows a routine: the captured value until a `Set`, the last staged value after (`Set` ensures `value == x`) |
| Nodes.TreeVariable.String | node.go:101-106 | the string and a nil error exactly when the stored value is a string, otherwise `""` with `ErrTypeAssertFailed` |
| Nodes.TreeVariable.Integer | node.go:108-176 | `Int` … `Uint64`: the number and a nil error exactly when the stored value is an integer of that kind, otherwise 0 with `ErrTypeAssertFailed` |
| Nodes.TreeVariable.Float | node.go:178-190 | `Float32`/`Float64`: the value and a nil error exactly when the stored value is a float of that width, otherwise 0 with `ErrTypeAssertFailed` |
| Nodes.TreeVariable.Bool | node.go:192-197 | the boolean and a nil error exactly when the stored value is a bool, otherwise `false` with `ErrTypeAssertFailed` |
| Nodes.TreeVariable.MustString | node.go:199-201 | returns what `String` returns when that succeeds |
| Nodes.TreeVariable.MustInteger | node.go:203-241 | returns what the checked integer reader returns when that succeeds |
| Nodes.TreeVariable.MustFloat | node.go:243-249 | returns what the checked float reader returns when that succeeds |
| Nodes.TreeVariable.MustBool | node.go:251-253 | returns what `Bool` returns when that succeeds |
| Nodes.TreeVariable.Set | node.go:255-262 | on a deleted node nothing changes; otherwise only this variable's value becomes `x` and the action becomes override; the node moves exactly as `Step` says |
| Nodes.TreeNode.constructor | node.go:274-279 | a fresh node holds the given type, key and value, and its action is blank |
| Nodes.TreeNode.GetAction | node.go:297-299 | the node's pending action, the one its state records |
| Nodes.TreeNode.SetAction | node.go:301-306 | the action becomes the requested one unless it is already delete, which is never left |
| Nodes.TreeNode.Delete | node.go:293-295 | the action becomes delete from any state; repeating it changes nothing |
| Routines.Apply | node.go:255-295 | one routine call on a node object has exactly the effect `Step` gives, and `Key().Set` on a keyless node panics |
| Routines.RunRoutine | walker.go:167 | one routine invocation on a node object performs its calls in order, as `Run` gives |
| Routines.RunChain | walker.go:164-175 | the routine loop on a node object computes `Chain`: the final state, the last action `rt` and the `override` flag, or a panic |
| Routines.RunKeepsDeleted | node.go:255-262 | delete is absorbing: on a deleted node no sequence of calls changes anything (a call may still panic) |
| Routines.RunAction | node.go:255-306 | after a routine the node is deleted exactly when it was, or the routine deleted it; blank exactly when it was blank and no call was made |
| Routines.RunKeepsTypes | node.go:76-99 | calls never change the node type, key presence or the captured types, so `TypeName`/`TypeKind` are unaffected by `Set` |
| Routines.LastSetWins | node.go:255-262 | within one sequence of calls without a delete, the staged value is the argument of the last `Value().Set` |
| Routines.ChainRunsCalls | walker.go:164-175 | a resolved chain ends in the state reached by running every call its routines made, in registration order, on the starting node |
| Routines.ChainLastSetWins | walker.go:164-175 | when no routine that ran deleted the node, the chain ends holding the argument of the last `Value().Set` of any routine in registration order, or the node's value if none was made |
| Routines.StopAtDelete | walker.go:166-175 | once a routine leaves the node deleted, routines registered after it never run |
| Routines.DeletedStaysFrozen | walker.go:114-121 | without early stop, routines after a delete leave the node and the override flag unchanged (or panic) |
| Routines.NoEarlyStopForLiterals | walker.go:114-121 | scenario with two given routines: a routine after a delete runs on a literal node (and can panic there) but never runs on a slice, map or struct node |
| Routines.LaterRoutineSeesStagedKey | walker.go:232-241 | scenario with two given routines: a routine runs on the key an earlier routine staged, under the originally captured type |
| Routines.SetThenDelete | walker.go:164-175 | scenario with two given routines: a `Set` followed by a `Delete` leaves the node deleted, holding the staged value, with the override flag raised |
| Routines.ChainResolution | walker.go:164-175 | a resolved chain's `rt` is the node's final action, and the node keeps its type, key presence and captured types |
| Depth.DepthCounter.constructor | walker.go:371 | the first `dive` creates the counter at 0 |
| Depth.DiveBounds | walker.go:364-384 | with `NoDepthLimit` no dive is too deep; with `maxDepth >= 0` the counter stays within `[0, maxDepth]`; a dive is too deep exactly when the counter has reached `maxDepth`, and then leaves it unchanged |
| Depth.DiveRiseBalance | walker.go:386-396 | `rise` never takes the counter below 0 and undoes a successful `dive` |
| Walker.ConfigureEffect | walker.go:18-44 | key coercion is on exactly when some option asks for it; a depth bound or routine list that no option sets keeps its default |
| Walker.LastOptionWins | walker.go:18-29 | the last `WithMaxDepth` and the last `WithRoutine` are the ones in effect |
| Walker.ConfigurePrefix | walker.go:39-44 | applying a list of options is applying a prefix, then the rest |
| Walker.TreeWalker.constructor | walker.go:39-45 | `NewTreeWalker` starts from no depth limit, no routines, no coercion and applies each option in order |
| Walker.TreeWalker.Walk | walker.go:54-64 | `Walk` returns nil for nil, and otherwise the rebuild of its input |
| Walker.TreeWalker.Dive | walker.go:364-384 | the counter after a dive and the too-deep verdict are `Depth.Dive`; the first dive allocates a fresh counter |
| Walker.TreeWalker.Rise | walker.go:386-396 | the counter after a rise is `Depth.Rise` |
| Walker.TreeWalker.WalkValue | walker.go:66-98 | `walk` computes `WalkAt`, the depth guard and the kind switch, and leaves the counter as it found it |
| Walker.TreeWalker.WalkLiteral | walker.go:100-135 | `walk_literal` computes the scalar rebuild, or the write through a pointer when settable |
| Walker.TreeWalker.WalkSlice | walker.go:137-188 | `walk_slice` computes the slice rebuild and leaves the counter as it found it |
| Walker.TreeWalker.VisitElem | walker.go:150-185 | one element: a container is walked and appended, a terminal value is dropped on delete and appended as staged or as it was; the counter is left as it was found |
| Walker.TreeWalker.WalkMap | walker.go:190-255 | `walk_map` computes the map rebuild and leaves the counter as it found it |
| Walker.TreeWalker.WalkEntries | walker.go:207-254 | the entry loop, started on an empty map of the output key type, computes the rebuild of the whole entry list |
| Walker.TreeWalker.StoreEntry | walker.go:210-252 | one turn of the entry loop either panics or moves the rebuild from entry `i` with the map built so far to entry `i + 1` with that entry's `SetMapIndex` performed |
| Walker.TreeWalker.VisitEntry | walker.go:211-219 | one entry: key and value unpacked, a container value walked, then its map-pair node |
| Walker.TreeWalker.WalkEntryValue | walker.go:215-219 | an entry's value is unpacked and, when it is a container, walked; the counter is left as it was found |
| Walker.TreeWalker.VisitPair | walker.go:221-252 | the map-pair node's chain and the `SetMapIndex` call it ends in |
| Walker.TreeWalker.WalkStruct | walker.go:257-317 | `walk_struct` computes the struct rebuild and leaves the counter as it found it |
| Walker.TreeWalker.VisitField | walker.go:272-313 | one field: unexported fields are skipped; a container field is walked and written back when writable; when not writable, a pointer or struct field still carries what the walk stored through it; a terminal field is written only when overridden and writable; the counter is left as it was found |
| Walker.TreeWalker.WalkPointer | walker.go:319-344 | `walk_pointer` computes the pointer dispatch and leaves the counter as it found it |
| SliceFacts.KeptLength | walker.go:148-187 | the rebuilt slice is never longer than the input, equally long exactly when every element is kept, and holds every kept value |
| SliceFacts.SliceRebuild | walker.go:137-188 | a non-nil slice rebuilds to its kept elements in input order with the same element type, or panics when some element panics |
| SliceFacts.SliceNeverGrows | walker.go:146-187 | a successful slice rebuild keeps the element type and is at most as long as the input |
| SliceFacts.SliceElemDecision | walker.go:150-185 | an element is dropped exactly when it is terminal and its node ended deleted; a terminal element whose chain panicked panics; an undeleted terminal element keeps its staged value when overridden and its own value otherwise, and panics when that value does not fit the element type |
| SliceFacts.SliceContainerElem | walker.go:150-156 | a container element is walked, gets no node, and is kept as walked, or the walk or the append panics |
| SliceFacts.SliceDeleteWhere | walker.go:159-185 | a routine deleting the values that satisfy `p` leaves exactly the other terminal elements, in order |
| MapFacts.MapRebuild | walker.go:190-255 | a non-nil map rebuilds to the result of its entries' `SetMapIndex` calls in iteration order, under the rebuilt key type, or panics |
| MapFacts.AssembledKeys | walker.go:252 | the rebuilt map has distinct keys, each put by some entry |
| MapFacts.AssembledUntouched | walker.go:252 | entries that neither put nor remove a key leave its lookup unchanged |
| MapFacts.AssembledLastTouch | walker.go:252 | the last entry that puts or removes a key decides it |
| MapFacts.PairSkipped | walker.go:243-245 | an entry is omitted exactly when its map-pair node ended deleted |
| MapFacts.PairStored | walker.go:247-252 | a stored entry carries the staged key and value when the node was overridden, and the unpacked original key and walked value otherwise |
| Rebuild.EntryVisitsEveryValue | walker.go:214-225 | every entry reaches a map-pair node, with a container value rebuilt first |
| MapFacts.CoercedKeys | walker.go:204-207 | under key coercion a stored key is a string, and a final key of another type panics |
| MapFacts.CoercedPieces | walker.go:204-252 | under key coercion every entry that is stored has a string key |
| MapFacts.JsonableMap | walker.go:204-254 | with `WithJsonableMap` a map rebuilds to a string-keyed map with the same element type and distinct string keys; an empty map gives an empty one |
| MapFacts.MapContents | walker.go:209-253 | a key put by some entry and not touched later maps to the value put; a key no entry puts is absent |
| StructFacts.FieldDecision | walker.go:271-313 | unexported fields are never visited or written; by value, only an exported pointer or struct field is written, exactly with its walk, and it panics exactly when its walk panics; a terminal field is written exactly when overridden and writable, even if deleted afterwards |
| StructFacts.StructFromShape | walker.go:271-316 | the field loop keeps the struct's name, declarations, field count and unexported fields; by value, every field but the exported pointer and struct fields keeps its value, and those hold their walks |
| StructFacts.StructFromPanics | walker.go:271-316 | the field loop panics exactly when some remaining field's decision is a panic |
| StructFacts.StructFromContents | walker.go:271-316 | when the field loop does not panic, fields already passed keep their values and every remaining field holds what its decision made of it: the written value, else its value as it was |
| StructFacts.StructByValue | walker.go:257-317 | a struct reached by value gets none of its own slots assigned: it comes back with only its exported pointer and struct fields replaced by their walks; the walk panics exactly when some field's decision is a panic; a walk reaching it returns a struct of the same shape or panics |
| StructFacts.StructThroughPointer | walker.go:262-316 | a struct reached through a pointer panics exactly when some field's decision is a panic; otherwise it comes back as the same pointer to a struct of the same shape in which each field holds its decision's write (an overridden terminal's staged value, a walked container) or else its old value, unexported fields unchanged |
| LiteralFacts.RootLiteral | walker.go:100-135 | a root scalar becomes the staged value of its own type when some routine left the node overridden, and stays as it was otherwise |
| LiteralFacts.PointerLiteral | walker.go:123-132 | a pointer to a scalar keeps its type; an override is written through it, otherwise it is returned as it was |
| LiteralFacts.PointerCases | walker.go:319-344 | a nil pointer to a scalar panics, other nil pointers come back; a non-nil pointer to a map or slice panics; other pointers pass through |
| LiteralFacts.PointerToStructElementPanics | walker.go:150-156 | a `[]*T` element is unpacked to its struct, which no longer fits the rebuilt `[]*T`, so the walk panics |
| LiteralFacts.NilInputs | walker.go:137-197 | nil, a typed-nil slice and a typed-nil map come back unchanged |
| LiteralFacts.BeyondBoundUntouched | walker.go:66-72 | a walk at or beyond the depth bound returns its input untouched |
| LiteralFacts.WalkLevels | walker.go:364-384 | without a bound no level is kept; with one the root is at level 0 and a container below the bound passes level `n + 1` to its children |
| LiteralFacts.SetThenDeleteByPosition | walker.go:123-313 | scenario with two given routines, a `Set` then a `Delete`: slice elements and map entries are omitted; struct fields through a pointer and root scalars get the staged value |
| LiteralFacts.DeleteOnly | walker.go:166-313 | scenario with one given routine that deletes: it omits slice elements and map entries but leaves struct fields and root scalars as they were |
| Identity.AssembledFresh | walker.go:252 | storing each entry of a distinct-keyed map in order rebuilds that map |
| Identity.IdentityAt | walker.go:66-98 | with no routines and no key coercion, `walk` returns its input at any level |
| Identity.IdentitySlice | walker.go:137-188 | with no routines a slice rebuilds to itself |
| Identity.ElemIdentity | walker.go:150-185 | with no routines every element is kept as it was |
| Identity.IdentityMap | walker.go:190-255 | with no routines and no coercion a map rebuilds to itself, in the same iteration order |
| Identity.EntryIdentity | walker.go:211-252 | with no routines every entry is stored under its own key with its own value |
| Identity.IdentityStruct | walker.go:257-317 | with no routines a struct, by value or through a pointer, comes back as it was |
| Identity.FieldIdentity | walker.go:271-313 | with no routines every field is left alone or written back with its own value |
| Identity.StructFromIdentity | walker.go:271-316 | a field loop that writes each field back with its own value leaves the struct unchanged |
| Identity.WalkIdentity | walker.go:54-64 | with no routines and no key coercion, `Walk` returns its input (whatever the depth bound) |

## Notes on the code

A few behaviours of the code are easy to misread. The model follows the
code in each:

- **Non-nil pointer to a map or slice.** The pointer is not flattened. The
  code hands the pointer itself to `walk_map`/`walk_slice`, where
  `Len`/`Cap` on a pointer value panics (walker.go:146, 207, 325-327). The
  model returns `Panic`.
- **Nil pointer to a scalar.** It does not come back unchanged. The code
  calls `Interface()` on the invalid `Elem()` and panics (walker.go:105,
  111, 338). The model returns `Panic`.
- **Pointer to a struct.** The code returns the pointer (walker.go:316), not
  the struct.
- **`rvalue()`.** walker.go:125 calls a method that `TreeVariable` does not
  declare (node.go:32-74). It is modelled as re-boxing `Interface()`, as
  line 128 does.
- **A nil staged value in a map.** When a map-pair node is overridden, its
  key and value are re-boxed with `reflect.ValueOf` (walker.go:248-249).
  A nil value therefore becomes the invalid Value, and `SetMapIndex` then
  deletes the key instead of storing it. A nil key panics.

## Left out

- **Reflection.** Go's reflection and type system are replaced by the
  closed `Value`/`Type` datatypes.
  - Arrays, funcs, channels, unsafe pointers and uintptrs are opaque
    tokens. The walker never descends into them. At the root they come back
    as they were (walker.go:95); inside a container all but arrays are
    terminal and reach the chain.
  - **Named non-struct types** (`type Celsius float64`, `type Tags
    []string`) are represented by their underlying type. The walker
    dispatches on `Kind()`, which is the underlying type's kind, so the
    visits and rebuilds are those of the underlying type. What is lost is
    the name, in three ways:
    - `TypeName()` (node.go:88-90) answers `float64` where Go answers
      `Celsius`.
    - The value readers of `TreeVariable` use exact type assertions
      (node.go:101-106, 185-190, 199-201, 247-249). On a `Celsius` value
      Go's `Float64()` returns `0, ErrTypeAssertFailed` and `MustFloat64()`
      panics. The model's `Float` and `MustFloat` succeed on the same
      value, and likewise for the string, integer and bool readers.
    - A value of the underlying type staged into a slot of the named type,
      or the reverse, is stored, where `reflect`'s `Set`, `Append` or
      `SetMapIndex` would panic.
  - **Pointers to interfaces.** A `PtrV` holds a value of exactly its
    target type, so a `*interface{}` pointing at a non-nil value cannot be
    built. In Go, `unpack_value` turns such a slice element or map value
    into an interface-kinded Value (walker.go:357-362), which `is_literal`
    calls terminal (walker.go:346-355). A `[]*interface{}` element holding
    a `[]int` therefore gets a slice-member node and can be deleted
    without a panic. The model cannot express that input.
  - Floats and complex numbers are bit patterns with no arithmetic.
  - **Float and complex map keys.** Keys in the rebuilt entry list
    (`Assoc`) are compared by bit pattern. Go's `==` makes +0 and -0 one
    key and every NaN a key distinct from all others. Two entries re-keyed
    by routines to +0.0 and -0.0 merge into one in Go but stay two entries
    in the model, and a NaN key re-stored by a later entry overwrites in
    the model where Go adds a second entry.
- **Aliasing.** Pointers own their targets (a tree). A write through a
  pointer shows in the returned value, but aliasing between parts of the
  input is not modelled. Neither are in-place effects seen through copies
  held elsewhere.
- Walker.TreeWalker.VisitField: in a struct reached by value, only exported
  pointer and struct fields carry the walk's stores through shared
  targets. A slice or map field is rebuilt by the walk and the rebuild is
  dropped, as in Go. But stores the walk makes through pointers held
  inside that slice or map (`[]*T` targets, pointers boxed in
  `interface{}` elements) also change the original's shared targets in
  Go. The model drops them with the rebuild.
- StructFacts.StructByValue: states the by-value result with the same gap
  as `Walker.TreeWalker.VisitField`. Pointer targets reached only through a
  slice or map field keep their old values.
- **Cycles.** Cyclic inputs recurse without bound in Go. They cannot be
  built as `Value`s.
- **Contexts.** `context.Context` is left out (walker.go:59-61, 369-371, 391).
  The depth counter is a `DepthCounter` object passed explicitly, and
  `null` stands for "no counter yet". A caller context that already carries
  a counter is not modelled.
- **Map iteration order.** Go's map iteration order is random. The model
  fixes it as the entry list's order. When routines give two entries the
  same final key, the later entry wins, which in Go depends on that random
  order.
- **Routines.** Routine bodies and the `ctx` argument are not modelled. A
  routine is a deterministic function from the node it sees to the calls it
  makes.
  - The only routine panic modelled is `Key().Set` on a keyless node.
  - A routine that reads the node's action (`getAction`, package-internal)
    is not modelled.
- **Panics on type mismatch.** Panics of `reflect`'s `Set`, `Append` and
  `SetMapIndex` on a type mismatch are modelled as the outcome `Panic`. The
  model does not distinguish the panic messages.
- **`forceOverride`.** The unused `forceOverride` field (walker.go:50) is
  left out.
- **Malformed structs.** A struct value whose declarations and values
  differ in number cannot arise in Go. The model returns it unchanged.
- Nodes.TreeVariable.MustString: a non-string value panics in Go; the model makes it a precondition.
- Nodes.TreeVariable.MustInteger: a value that is not an integer of the requested kind panics in Go; the model makes it a precondition.
- Nodes.TreeVariable.MustFloat: a value that is not a float of the requested width panics in Go; the model makes it a precondition and answers the IEEE-754 bit pattern, not the number.
- Nodes.TreeVariable.MustBool: a non-bool value panics in Go; the model makes it a precondition.
- Nodes.TreeVariable.Float: answers the IEEE-754 bit pattern, not a floating-point number.
- Identity.WalkIdentity: stated only for `Walkable` inputs. `Walkable` excludes nil pointers to scalars, non-nil pointers to maps or slices, and non-nil pointers held in pointer-typed slots, at any depth. That includes positions below the depth bound, which the code never reaches, so some inputs that do come back unchanged (a `[]*int` holding a nil pointer under `WithMaxDepth(0)`) are not covered.
