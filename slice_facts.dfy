/**
 * The slice rebuild of walker.go:137-188 as a filter.
 *
 * `ElemPieces` lists the decision taken for each element; `Kept` is the
 * order-preserving filter of the kept ones.  The rebuild is that filter,
 * or a panic when some element's decision is a panic.
 */
module SliceFacts {
  import opened Values
  import opened Nodes
  import opened Routines
  import opened Rebuild

  function ElemPieces(c: Config, v: Value, d: Option<int>): (ps: seq<Piece>)
    requires v.SliceV?
    ensures |ps| == |v.items|
    ensures forall i :: 0 <= i < |ps| ==> ps[i] == SliceElem(c, v.se, v.items[i], d)
  {
    seq(|v.items|, i requires 0 <= i < |v.items| => SliceElem(c, v.se, v.items[i], d))
  }

  /** The values of the kept pieces, in order. */
  function Kept(ps: seq<Piece>): seq<Value> {
    if ps == [] then []
    else (if ps[0].Keep? then [ps[0].y] else []) + Kept(ps[1..])
  }

  predicate SomeCrash(ps: seq<Piece>) {
    exists j :: 0 <= j < |ps| && ps[j].Crash?
  }

  /** Filtering distributes over concatenation: the kept values stay in input order. */
  lemma {:induction false} KeptAppend(a: seq<Piece>, b: seq<Piece>)
    ensures Kept(a + b) == Kept(a) + Kept(b)
    decreases |a|
  {
    if a == [] {
      assert a + b == b;
    } else {
      assert (a + b)[0] == a[0] && (a + b)[1..] == a[1..] + b;
      KeptAppend(a[1..], b);
    }
  }

  /**
   * The output is at most as long as the input, and exactly as long when
   * every piece is kept; every kept value appears in the output.
   */
  lemma {:induction false} KeptLength(ps: seq<Piece>)
    ensures |Kept(ps)| <= |ps|
    ensures |Kept(ps)| == |ps| <==> forall i :: 0 <= i < |ps| ==> ps[i].Keep?
    ensures forall i :: 0 <= i < |ps| && ps[i].Keep? ==> ps[i].y in Kept(ps)
    decreases |ps|
  {
    if ps != [] {
      KeptLength(ps[1..]);
      assert forall i :: 1 <= i < |ps| ==> ps[i] == ps[1..][i - 1];
    }
  }

  /** When every piece is kept, the filter is the list of their values. */
  lemma {:induction false} KeptAll(ps: seq<Piece>)
    requires forall i :: 0 <= i < |ps| ==> ps[i].Keep?
    ensures |Kept(ps)| == |ps|
    ensures forall i :: 0 <= i < |ps| ==> Kept(ps)[i] == ps[i].y
    decreases |ps|
  {
    if ps != [] {
      KeptAll(ps[1..]);
    }
  }

  /** One iteration of the element loop, in terms of the element's piece. */
  lemma SliceFromStep(c: Config, v: Value, i: nat, acc: seq<Value>, d: Option<int>)
    requires v.SliceV? && i < |v.items|
    ensures SliceFrom(c, v, i, acc, d) ==
      match ElemPieces(c, v, d)[i]
      case Crash => Panic
      case Drop => SliceFrom(c, v, i + 1, acc, d)
      case Keep(y) => SliceFrom(c, v, i + 1, acc + [y], d)
  {
  }

  /** The element loop over a list of pieces. */
  function FoldPieces(se: Type, ps: seq<Piece>, acc: seq<Value>): Outcome {
    if ps == [] then Ok(SliceV(se, acc))
    else
      match ps[0]
      case Crash => Panic
      case Drop => FoldPieces(se, ps[1..], acc)
      case Keep(y) => FoldPieces(se, ps[1..], acc + [y])
  }

  /** The loop over pieces is the filter of the kept values, or a panic if any piece is one. */
  lemma {:induction false} FoldIsFilter(se: Type, ps: seq<Piece>, acc: seq<Value>)
    ensures FoldPieces(se, ps, acc) == if SomeCrash(ps) then Panic else Ok(SliceV(se, acc + Kept(ps)))
    decreases |ps|
  {
    if ps == [] {
      assert acc + Kept(ps) == acc;
    } else {
      if SomeCrash(ps[1..]) {
        var j :| 0 <= j < |ps[1..]| && ps[1..][j].Crash?;
        assert ps[j + 1].Crash?;
      }
      if SomeCrash(ps) && !ps[0].Crash? {
        var j :| 0 <= j < |ps| && ps[j].Crash?;
        assert j > 0 && ps[1..][j - 1].Crash?;
      }
      match ps[0]
      case Crash =>
        assert SomeCrash(ps);
      case Drop =>
        FoldIsFilter(se, ps[1..], acc);
        assert Kept(ps) == [] + Kept(ps[1..]) == Kept(ps[1..]);
      case Keep(y) =>
        FoldIsFilter(se, ps[1..], acc + [y]);
        assert Kept(ps) == [y] + Kept(ps[1..]);
        assert acc + [y] + Kept(ps[1..]) == acc + Kept(ps);
    }
  }

  /** The element loop from position `i` on is the loop over the remaining pieces. */
  lemma {:induction false} SliceFromIsFold(c: Config, v: Value, i: nat, acc: seq<Value>, d: Option<int>)
    requires v.SliceV? && i <= |v.items|
    ensures SliceFrom(c, v, i, acc, d) == FoldPieces(v.se, ElemPieces(c, v, d)[i..], acc)
    decreases |v.items| - i
  {
    var ps := ElemPieces(c, v, d)[i..];
    if i < |v.items| {
      SliceFromStep(c, v, i, acc, d);
      assert ps[0] == ElemPieces(c, v, d)[i] && ps[1..] == ElemPieces(c, v, d)[i + 1..];
      match ps[0]
      case Crash =>
      case Drop => SliceFromIsFold(c, v, i + 1, acc, d);
      case Keep(y) => SliceFromIsFold(c, v, i + 1, acc + [y], d);
    }
  }

  /**
   * `walk_slice` on a non-nil slice: the kept elements, in input order, with
   * the element type unchanged, unless some element panics.
   */
  lemma SliceRebuild(c: Config, v: Value, d: Option<int>)
    requires v.SliceV?
    ensures var ps := ElemPieces(c, v, d);
      WalkSlice(c, v, d) == if SomeCrash(ps) then Panic else Ok(SliceV(v.se, Kept(ps)))
  {
    var ps := ElemPieces(c, v, d);
    SliceFromIsFold(c, v, 0, [], d);
    FoldIsFilter(v.se, ps, []);
    assert ps[0..] == ps;
    assert [] + Kept(ps) == Kept(ps);
  }

  /** The rebuilt slice is never longer than the input and keeps the element type. */
  lemma SliceNeverGrows(c: Config, v: Value, d: Option<int>)
    requires v.SliceV? && WalkSlice(c, v, d).Ok?
    ensures WalkSlice(c, v, d).v.SliceV?
    ensures WalkSlice(c, v, d).v.se == v.se
    ensures |WalkSlice(c, v, d).v.items| <= |v.items|
  {
    SliceRebuild(c, v, d);
    KeptLength(ElemPieces(c, v, d));
  }

  /**
   * What becomes of a terminal element, and which elements are dropped:
   * exactly the terminal elements whose node ended deleted.  An undeleted
   * terminal element is appended with its staged value when overridden and
   * as it was otherwise, and the append panics when that does not fit.
   */
  lemma SliceElemDecision(c: Config, et: Type, item: Value, d: Option<int>)
    ensures var u := Unpack(et, item);
      var res := Chain(Fresh(SliceMember, None, TypeOf(u), u), c.routines, true);
      SliceElem(c, et, item, d).Drop? <==>
        IsLiteralType(TypeOf(u)) && res.Resolved? && res.state.action == Deleted
    ensures var u := Unpack(et, item);
      var res := Chain(Fresh(SliceMember, None, TypeOf(u), u), c.routines, true);
      IsLiteralType(TypeOf(u)) && res.Crashed? ==> SliceElem(c, et, item, d) == Crash
    ensures var u := Unpack(et, item);
      var res := Chain(Fresh(SliceMember, None, TypeOf(u), u), c.routines, true);
      IsLiteralType(TypeOf(u)) && res.Resolved? && res.state.action != Deleted ==>
        SliceElem(c, et, item, d) ==
          if res.override then
            (if Boxable(res.state.view.value.v, et) then Keep(res.state.view.value.v) else Crash)
          else if Fits(TypeOf(u), et) then Keep(u)
          else Crash
  {
    var u := Unpack(et, item);
    var s := Fresh(SliceMember, None, TypeOf(u), u);
    if IsLiteralType(TypeOf(u)) && Chain(s, c.routines, true).Resolved? {
      ChainResolution(s, c.routines, true, Blank, false);
    }
  }

  /**
   * A container element is walked, never given a node of its own, and kept
   * as the walk returned it (or the append panics).
   */
  lemma SliceContainerElem(c: Config, et: Type, item: Value, d: Option<int>)
    requires !IsLiteralType(TypeOf(Unpack(et, item)))
    ensures var u := Unpack(et, item);
      SliceElem(c, et, item, d) ==
        (if WalkAt(c, u, d).Ok? && Boxable(WalkAt(c, u, d).v, et) then Keep(WalkAt(c, u, d).v) else Crash)
  {
  }

  /** The values of `xs` for which `p` does not hold, in order. */
  function Without(xs: seq<Value>, p: Value -> bool): seq<Value> {
    if xs == [] then []
    else (if p(xs[0]) then [] else [xs[0]]) + Without(xs[1..], p)
  }

  lemma {:induction false} KeptWhere(ps: seq<Piece>, xs: seq<Value>, p: Value -> bool)
    requires |ps| == |xs|
    requires forall i :: 0 <= i < |ps| ==> ps[i] == if p(xs[i]) then Drop else Keep(xs[i])
    ensures !SomeCrash(ps)
    ensures Kept(ps) == Without(xs, p)
    decreases |ps|
  {
    if ps != [] {
      KeptWhere(ps[1..], xs[1..], p);
      assert !ps[0].Crash?;
      assert forall j :: 1 <= j < |ps| ==> ps[j] == ps[1..][j - 1];
    }
  }

  /**
   * A single routine that deletes the nodes whose value satisfies `p`, run
   * over a slice of terminal elements: the result is the slice without those
   * elements, the others in their original order.
   */
  lemma SliceDeleteWhere(c: Config, v: Value, d: Option<int>, r: Routine, p: Value -> bool)
    requires c.routines == [r]
    requires forall nv :: r(nv) == if p(nv.value.v) then [DeleteNode] else []
    requires v.SliceV?
    requires forall i :: 0 <= i < |v.items| ==> IsLiteralType(TypeOf(v.items[i])) && Fits(TypeOf(v.items[i]), v.se)
    ensures WalkSlice(c, v, d) == Ok(SliceV(v.se, Without(v.items, p)))
  {
    var ps := ElemPieces(c, v, d);
    forall i | 0 <= i < |ps| ensures ps[i] == if p(v.items[i]) then Drop else Keep(v.items[i]) {
      var x := v.items[i];
      var s := Fresh(SliceMember, None, TypeOf(x), x);
      assert Unpack(v.se, x) == x;
      assert s.view.value.v == x;
      if p(x) {
        assert Run(s, r(s.view)) == Some(s.(action := Deleted));
        assert Chain(s, [r], true) == Resolved(s.(action := Deleted), Deleted, false);
      } else {
        assert Run(s, r(s.view)) == Some(s);
        assert [r][1..] == [];
        assert ChainFrom(s, [], true, Blank, false) == Resolved(s, Blank, false);
        assert Chain(s, [r], true) == Resolved(s, Blank, false);
      }
    }
    SliceRebuild(c, v, d);
    KeptWhere(ps, v.items, p);
  }
}
