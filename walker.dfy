/**
 * The walker object (walker.go:16-396).
 *
 * `TreeWalker` holds the options; its methods are the Go methods, written
 * as loops that build the result step by step, create a `TreeNode` per
 * visited position and run the routine chain on it.  Each method is proved
 * to compute the corresponding function of `Rebuild`, and to leave the depth
 * counter as it found it.
 */
module Walker {
  import opened Values
  import opened Nodes
  import opened Routines
  import opened Assoc
  import opened Depth
  import opened Rebuild

  /** `WalkOption`: the three option builders (walker.go:18-37). */
  datatype WalkOption = WithMaxDepth(maxDepth: int) | WithRoutine(routines: seq<Routine>) | WithJsonableMap

  /** The walker before any option: no depth limit, no key coercion, no routines. */
  const DefaultConfig: Config := Config(NoDepthLimit, false, [])

  function ApplyOption(c: Config, o: WalkOption): Config {
    match o
    case WithMaxDepth(n) => c.(maxDepth := n)
    case WithRoutine(rs) => c.(routines := rs)
    case WithJsonableMap => c.(jsonable := true)
  }

  /** The options applied in order to `c`. */
  function Configure(c: Config, opts: seq<WalkOption>): Config
    decreases |opts|
  {
    if opts == [] then c else Configure(ApplyOption(c, opts[0]), opts[1..])
  }

  /**
   * Options are applied in order: key coercion is on once any option asks
   * for it; a depth bound or routine list not set by a later option is kept.
   */
  lemma {:induction false} ConfigureEffect(c: Config, opts: seq<WalkOption>)
    ensures Configure(c, opts).jsonable <==>
      c.jsonable || exists i :: 0 <= i < |opts| && opts[i].WithJsonableMap?
    ensures (forall i :: 0 <= i < |opts| ==> !opts[i].WithMaxDepth?) ==>
      Configure(c, opts).maxDepth == c.maxDepth
    ensures (forall i :: 0 <= i < |opts| ==> !opts[i].WithRoutine?) ==>
      Configure(c, opts).routines == c.routines
    decreases |opts|
  {
    if opts != [] {
      ConfigureEffect(ApplyOption(c, opts[0]), opts[1..]);
      assert forall i :: 1 <= i < |opts| ==> opts[i] == opts[1..][i - 1];
      if Configure(c, opts).jsonable && !c.jsonable && !opts[0].WithJsonableMap? {
        var i :| 0 <= i < |opts[1..]| && opts[1..][i].WithJsonableMap?;
        assert opts[i + 1].WithJsonableMap?;
      }
    }
  }

  /** The last `WithMaxDepth` and the last `WithRoutine` are the ones in effect. */
  lemma LastOptionWins(c: Config, opts: seq<WalkOption>, j: nat)
    requires j < |opts|
    ensures opts[j].WithMaxDepth? && (forall i :: j < i < |opts| ==> !opts[i].WithMaxDepth?) ==>
      Configure(c, opts).maxDepth == opts[j].maxDepth
    ensures opts[j].WithRoutine? && (forall i :: j < i < |opts| ==> !opts[i].WithRoutine?) ==>
      Configure(c, opts).routines == opts[j].routines
  {
    ConfigurePrefix(c, opts, j + 1);
    ConfigurePrefix(c, opts[..j + 1], j);
    assert opts[..j + 1][..j] == opts[..j];
    assert opts[..j + 1][j..] == [opts[j]];
    var after := opts[j + 1..];
    ConfigureEffect(Configure(c, opts[..j + 1]), after);
    assert forall i :: 0 <= i < |after| ==> after[i] == opts[j + 1 + i];
  }

  /** Applying a sequence of options is applying its prefix, then the rest. */
  lemma {:induction false} ConfigurePrefix(c: Config, opts: seq<WalkOption>, k: nat)
    requires k <= |opts|
    ensures Configure(c, opts) == Configure(Configure(c, opts[..k]), opts[k..])
    decreases k
  {
    if k > 0 {
      assert opts[..k][0] == opts[0] && opts[..k][1..] == opts[1..][..k - 1];
      assert opts[k..] == opts[1..][k - 1..];
      ConfigurePrefix(ApplyOption(c, opts[0]), opts[1..], k - 1);
    }
  }

  /** The depth counter as the context sees it. */
  function Level(ctr: DepthCounter?): Option<int>
    reads ctr
  {
    if ctr == null then None else Some(ctr.n)
  }

  class TreeWalker {
    var maxDepth: int
    var jsonable: bool
    var routines: seq<Routine>

    function Cfg(): Config
      reads this
    {
      Config(maxDepth, jsonable, routines)
    }

    /** `NewTreeWalker`: start from the defaults and apply each option in turn. */
    constructor (opts: seq<WalkOption>)
      ensures Cfg() == Configure(DefaultConfig, opts)
    {
      maxDepth, jsonable, routines := NoDepthLimit, false, [];
      new;
      var i := 0;
      while i < |opts|
        invariant 0 <= i <= |opts|
        invariant Configure(Cfg(), opts[i..]) == Configure(DefaultConfig, opts)
      {
        assert opts[i..][0] == opts[i] && opts[i..][1..] == opts[i + 1..];
        match opts[i] {
          case WithMaxDepth(n) => maxDepth := n;
          case WithRoutine(rs) => routines := rs;
          case WithJsonableMap => jsonable := true;
        }
        i := i + 1;
      }
    }

    /** `Walk`: nil is returned at once; otherwise `walk` with a context that has no counter yet. */
    method Walk(v: Value) returns (r: Outcome)
      ensures r == Rebuild.Walk(Cfg(), v)
    {
      if v == Nil {
        return Ok(Nil);
      }
      r := WalkValue(v, null);
    }

    /** `dive`: the counter to use below this level, and whether this level is too deep. */
    method Dive(ctr: DepthCounter?) returns (next: DepthCounter?, tooDeep: bool)
      modifies ctr
      ensures Depth.Dive(maxDepth, old(Level(ctr))) == Dived(tooDeep, Level(next))
      ensures next == ctr || (ctr == null && fresh(next))
    {
      if maxDepth == NoDepthLimit {
        return ctr, false;
      }
      if ctr == null {
        next := new DepthCounter();
        return next, false;
      }
      if ctr.n < maxDepth {
        ctr.n := ctr.n + 1;
        return ctr, false;
      }
      return ctr, true;
    }

    /** `rise`: step the counter back up on the way out. */
    method Rise(ctr: DepthCounter?)
      modifies ctr
      ensures Level(ctr) == Depth.Rise(maxDepth, old(Level(ctr)))
    {
      if maxDepth == NoDepthLimit || ctr == null {
        return;
      }
      if ctr.n > 0 {
        ctr.n := ctr.n - 1;
      }
    }

    /** `walk`: the depth guard around the kind switch; the counter is restored on the way out. */
    method WalkValue(v: Value, ctr: DepthCounter?) returns (r: Outcome)
      requires ctr != null ==> ctr.n >= 0
      modifies ctr
      ensures r == WalkAt(Cfg(), v, old(Level(ctr)))
      ensures ctr != null ==> ctr.n == old(ctr.n)
      decreases v, 4
    {
      var next, tooDeep := Dive(ctr);
      if tooDeep {
        return Ok(v);
      }
      assert next != null ==> next.n >= 0;
      ghost var c, d := Cfg(), Level(next);
      if v.NilMap? || v.MapV? {
        r := WalkMap(v, next);
      } else if v.NilSlice? || v.SliceV? {
        r := WalkSlice(v, next);
      } else if v.StructV? {
        r := WalkStruct(v, next);
      } else if v.NilPtr? || v.PtrV? {
        r := WalkPointer(v, next);
      } else if v.BoolV? || v.IntV? || v.FloatV? || v.ComplexV? || v.StrV? {
        r := WalkLiteral(v, false);
      } else {
        r := Ok(v);
      }
      assert r == Dispatch(c, v, d);
      Rise(next);
    }

    /**
     * `walk_literal`: a literal node over the scalar (or, when `settable`,
     * over the pointer's target); every routine runs; on override the staged
     * value replaces the scalar (or is stored through the pointer).
     */
    method WalkLiteral(v: Value, settable: bool) returns (r: Outcome)
      ensures !settable ==> r == Rebuild.WalkLiteral(Cfg(), v)
      ensures settable ==> r == SettableLiteral(Cfg(), v)
    {
      var t, x := TypeOf(v), v;
      if settable {
        if !v.PtrV? {
          return Panic;
        }
        t, x := v.pt, v.target;
      }
      var node := new TreeNode(Literal, None, VarState(t, x));
      var crashed, _, override := RunChain(node, routines, false);
      if crashed {
        return Panic;
      }
      r := Ok(v);
      if override {
        var y := node.value.Interface();
        if !Boxable(y, t) {
          return Panic;
        }
        r := if settable then Ok(PtrV(t, y)) else Ok(y);
      }
    }

    /** `walk_slice`: append each kept element, in order, to a new slice. */
    method WalkSlice(v: Value, ctr: DepthCounter?) returns (r: Outcome)
      requires ctr != null ==> ctr.n >= 0
      modifies ctr
      ensures r == Rebuild.WalkSlice(Cfg(), v, old(Level(ctr)))
      ensures ctr != null ==> ctr.n == old(ctr.n)
      decreases v, 1
    {
      if v.PtrV? {
        return Panic;
      }
      if !v.SliceV? {
        return Ok(v);
      }
      ghost var d, c := Level(ctr), Cfg();
      var out: seq<Value> := [];
      var i := 0;
      while i < |v.items|
        invariant 0 <= i <= |v.items|
        invariant Level(ctr) == d && Cfg() == c
        invariant Rebuild.WalkSlice(c, v, d) == SliceFrom(c, v, i, out, d)
      {
        assert v.items[i] < v;
        var p := VisitElem(v.se, v.items[i], ctr);
        SliceFromUnfold(c, v, i, out, d, p);
        match p {
          case Crash => return Panic;
          case Drop =>
          case Keep(y) => out := out + [y];
        }
        i := i + 1;
      }
      r := Ok(SliceV(v.se, out));
    }

    /**
     * The body of the element loop of `walk_slice`: unpack, walk a container
     * element, otherwise run the chain on a slice-member node; say whether
     * the element is appended, and as what.
     */
    method VisitElem(et: Type, item: Value, ctr: DepthCounter?) returns (p: Piece)
      requires ctr != null ==> ctr.n >= 0
      modifies ctr
      ensures p == SliceElem(Cfg(), et, item, old(Level(ctr)))
      ensures ctr != null ==> ctr.n == old(ctr.n)
      decreases item, 5
    {
      ghost var c := Cfg();
      var u := Unpack(et, item);
      if !IsLiteralType(TypeOf(u)) {
        var w := WalkValue(u, ctr);
        if w.Panic? || !Boxable(w.v, et) {
          return Crash;
        }
        return Keep(w.v);
      }
      var node := new TreeNode(SliceMember, None, VarState(TypeOf(u), u));
      var crashed, rt, override := RunChain(node, routines, true);
      assert Chain(Fresh(SliceMember, None, TypeOf(u), u), c.routines, true) ==
        if crashed then Crashed else Resolved(node.State(), rt, override);
      if crashed {
        return Crash;
      }
      if rt == Deleted {
        return Drop;
      }
      var y := u;
      if override {
        y := node.value.Interface();
      }
      if (override && !Boxable(y, et)) || (!override && !Fits(TypeOf(u), et)) {
        return Crash;
      }
      p := Keep(y);
    }

    /** `walk_map`: visit every entry and rebuild the map with `SetMapIndex`. */
    method WalkMap(v: Value, ctr: DepthCounter?) returns (r: Outcome)
      requires ctr != null ==> ctr.n >= 0
      modifies ctr
      ensures r == Rebuild.WalkMap(Cfg(), v, old(Level(ctr)))
      ensures ctr != null ==> ctr.n == old(ctr.n)
      decreases v, 1
    {
      if v.PtrV? {
        return Panic;
      }
      if !v.MapV? {
        return Ok(v);
      }
      r := WalkEntries(v, ctr);
    }

    /** The entry loop of `walk_map`: the map is rebuilt into a fresh one, entry by entry. */
    method WalkEntries(v: Value, ctr: DepthCounter?) returns (r: Outcome)
      requires v.MapV?
      requires ctr != null ==> ctr.n >= 0
      modifies ctr
      ensures r == MapFrom(Cfg(), v, 0, [], old(Level(ctr)))
      ensures ctr != null ==> ctr.n == old(ctr.n)
      decreases v, 0, |v.entries| + 1
    {
      ghost var d, c := Level(ctr), Cfg();
      var out: seq<Entry> := [];
      var i := 0;
      while i < |v.entries|
        invariant 0 <= i <= |v.entries|
        invariant Level(ctr) == d && Cfg() == c
        invariant MapFrom(c, v, 0, [], d) == MapFrom(c, v, i, out, d)
      {
        var crashed;
        crashed, out := StoreEntry(v, i, out, ctr);
        if crashed {
          return Panic;
        }
        i := i + 1;
      }
      r := Ok(MapV(OutKeyType(Cfg(), v.mk), v.me, out));
    }

    /** One turn of the entry loop: visit entry `i` and perform its `SetMapIndex` on `out`. */
    method StoreEntry(v: Value, i: nat, out: seq<Entry>, ctr: DepthCounter?) returns (crashed: bool, out': seq<Entry>)
      requires v.MapV? && i < |v.entries|
      requires ctr != null ==> ctr.n >= 0
      modifies ctr
      ensures MapFrom(Cfg(), v, i, out, old(Level(ctr))) ==
        if crashed then Panic else MapFrom(Cfg(), v, i + 1, out', old(Level(ctr)))
      ensures ctr != null ==> ctr.n == old(ctr.n)
      decreases v, 0, |v.entries| - i
    {
      assert v.entries[i].val < v;
      ghost var d := Level(ctr);
      var p := VisitEntry(v.mk, v.me, OutKeyType(Cfg(), v.mk), v.entries[i].key, v.entries[i].val, ctr);
      MapFromUnfold(Cfg(), v, i, out, d, p);
      crashed, out' := p.ECrash?, ApplyPiece(out, p);
    }

    /**
     * The body of the entry loop of `walk_map`: unpack, walk a container
     * value, run the chain on a map-pair node, and decide the `SetMapIndex`.
     */
    method VisitEntry(mk: Type, me: Type, kt: Type, key0: Value, val0: Value, ctr: DepthCounter?)
      returns (p: EntryPiece)
      requires ctr != null ==> ctr.n >= 0
      modifies ctr
      ensures p == MapEntry(Cfg(), mk, me, kt, key0, val0, old(Level(ctr)))
      ensures ctr != null ==> ctr.n == old(ctr.n)
      decreases val0, 5, 1
    {
      ghost var d := Level(ctr);
      var key := Unpack(mk, key0);
      var walked := WalkEntryValue(me, val0, ctr);
      EntryVisitsEveryValue(Cfg(), mk, me, kt, key0, val0, d, walked);
      if walked.Panic? {
        return ECrash;
      }
      p := VisitPair(me, kt, key, walked.v);
    }

    /** The value of one entry, unpacked and, when it is a container, walked (walker.go:215-219). */
    method WalkEntryValue(me: Type, val0: Value, ctr: DepthCounter?) returns (walked: Outcome)
      requires ctr != null ==> ctr.n >= 0
      modifies ctr
      ensures var val := Unpack(me, val0);
        walked == if IsLiteralType(TypeOf(val)) then Ok(val) else WalkAt(Cfg(), val, old(Level(ctr)))
      ensures ctr != null ==> ctr.n == old(ctr.n)
      decreases val0, 5, 0
    {
      var val := Unpack(me, val0);
      walked := Ok(val);
      if !IsLiteralType(TypeOf(val)) {
        walked := WalkValue(val, ctr);
      }
    }

    /** The map-pair node of one entry and the `SetMapIndex` it ends in. */
    method VisitPair(me: Type, kt: Type, key: Value, val: Value) returns (p: EntryPiece)
      ensures p == PairStep(Cfg(), me, kt, key, val)
    {
      var node := new TreeNode(MapPair, Some(VarState(TypeOf(key), key)), VarState(TypeOf(val), val));
      var crashed, rt, override := RunChain(node, routines, true);
      PairUnfold(Cfg(), me, kt, key, val, if crashed then Crashed else Resolved(node.State(), rt, override));
      if crashed {
        return ECrash;
      }
      if rt == Deleted {
        return ESkip;
      }
      var k, x := key, val;
      if override {
        if node.key == null {
          return ECrash;
        }
        k, x := node.key.Interface(), node.value.Interface();
      }
      p := SetMapIndex(kt, me, k, x, override);
    }

    /**
     * `walk_struct`: visit the exported fields; write back walked containers
     * and overridden scalars when the struct was reached through a pointer.
     * A struct reached by value comes back with what was stored through its
     * pointer fields.
     */
    method WalkStruct(v: Value, ctr: DepthCounter?) returns (r: Outcome)
      requires ctr != null ==> ctr.n >= 0
      modifies ctr
      ensures r == Rebuild.WalkStruct(Cfg(), v, old(Level(ctr)))
      ensures ctr != null ==> ctr.n == old(ctr.n)
      decreases v, 1
    {
      var writable := v.PtrV? || v.NilPtr?;
      if v.NilPtr? {
        return Ok(v);
      }
      var s := if writable then v.target else v;
      if !(s.StructV? && |s.decls| == |s.vals|) {
        return Ok(v);
      }
      ghost var d, c := Level(ctr), Cfg();
      var vals := s.vals;
      var i := 0;
      while i < |vals|
        invariant 0 <= i <= |vals| == |s.vals|
        invariant Level(ctr) == d && Cfg() == c
        invariant StructFrom(c, v, writable, 0, s.vals, d) == StructFrom(c, v, writable, i, vals, d)
      {
        assert s.vals[i] < v;
        var p := VisitField(s.decls[i], s.vals[i], writable, ctr);
        StructFromStep(c, v, writable, i, vals, d);
        match p {
          case FCrash => return Panic;
          case FKeep =>
          case FWrite(y) => vals := vals[i := y];
        }
        i := i + 1;
      }
      r := if writable then Ok(PtrV(v.pt, StructV(s.sname, s.decls, vals))) else Ok(StructV(s.sname, s.decls, vals));
    }

    /**
     * The body of the field loop of `walk_struct`: skip an unexported field,
     * walk a container field, otherwise run the chain on a struct-member
     * node; say whether the field's slot is written, and with what.  When
     * not writable, a walked pointer or struct field is still reported as
     * written: the walk stored into targets the copy shares.
     */
    method VisitField(decl: FieldDecl, x: Value, writable: bool, ctr: DepthCounter?) returns (p: FieldPiece)
      requires ctr != null ==> ctr.n >= 0
      modifies ctr
      ensures p == FieldStep(Cfg(), decl, x, writable, old(Level(ctr)))
      ensures ctr != null ==> ctr.n == old(ctr.n)
      decreases x, 5
    {
      if !decl.exported {
        return FKeep;
      }
      if !IsLiteralType(decl.t) {
        var w := WalkValue(x, ctr);
        if w.Panic? {
          return FCrash;
        }
        if !writable {
          return if SharedByCopy(decl.t) then FWrite(w.v) else FKeep;
        }
        if !Boxable(w.v, decl.t) {
          return FCrash;
        }
        return FWrite(w.v);
      }
      var node := new TreeNode(StructMember, Some(VarState(TString, StrV(decl.name))), VarState(decl.t, x));
      var crashed, _, override := RunChain(node, routines, true);
      if crashed {
        return FCrash;
      }
      if !(override && writable) {
        return FKeep;
      }
      var y := node.value.Interface();
      if !Boxable(y, decl.t) {
        return FCrash;
      }
      p := FWrite(y);
    }

    /** `walk_pointer`: hand the pointer to the walk of its target's kind. */
    method WalkPointer(v: Value, ctr: DepthCounter?) returns (r: Outcome)
      requires v.PtrV? || v.NilPtr?
      requires ctr != null ==> ctr.n >= 0
      modifies ctr
      ensures r == Rebuild.WalkPointer(Cfg(), v, old(Level(ctr)))
      ensures ctr != null ==> ctr.n == old(ctr.n)
      decreases v, 2
    {
      var e := v.pt;
      if e.TMap? {
        r := WalkMap(v, ctr);
      } else if e.TSlice? {
        r := WalkSlice(v, ctr);
      } else if e.TStruct? {
        r := WalkStruct(v, ctr);
      } else if IsScalarType(e) {
        r := WalkLiteral(v, true);
      } else {
        r := Ok(v);
      }
    }
  }
}
