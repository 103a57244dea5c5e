/**
 * The map rebuild of walker.go:190-255.
 *
 * `EntryPieces` lists, per entry in iteration order, the `SetMapIndex`
 * call the entry ends in; `Assembled` performs those calls on an initially
 * empty map.  The rebuild is that map under the rebuilt key type, or a
 * panic when some entry panics.
 */
module MapFacts {
  import opened Values
  import opened Nodes
  import opened Routines
  import opened Assoc
  import opened Rebuild

  function EntryPieces(c: Config, v: Value, d: Option<int>): (ps: seq<EntryPiece>)
    requires v.MapV?
    ensures |ps| == |v.entries|
    ensures forall i :: 0 <= i < |ps| ==>
      ps[i] == MapEntry(c, v.mk, v.me, OutKeyType(c, v.mk), v.entries[i].key, v.entries[i].val, d)
  {
    seq(|v.entries|, i requires 0 <= i < |v.entries| =>
      MapEntry(c, v.mk, v.me, OutKeyType(c, v.mk), v.entries[i].key, v.entries[i].val, d))
  }

  /** The pieces performed in order. */
  function Assembled(acc: seq<Entry>, ps: seq<EntryPiece>): seq<Entry>
    decreases |ps|
  {
    if ps == [] then acc else Assembled(ApplyPiece(acc, ps[0]), ps[1..])
  }

  predicate SomeECrash(ps: seq<EntryPiece>) {
    exists j :: 0 <= j < |ps| && ps[j].ECrash?
  }

  /** Whether piece `p` writes or deletes key `k`. */
  predicate Touches(p: EntryPiece, k: Value) {
    (p.EPut? && p.k == k) || (p.ERemove? && p.rk == k)
  }

  /** The entry loop over a list of pieces. */
  function FoldEntries(kt: Type, et: Type, ps: seq<EntryPiece>, acc: seq<Entry>): Outcome
    decreases |ps|
  {
    if ps == [] then Ok(MapV(kt, et, acc))
    else if ps[0].ECrash? then Panic
    else FoldEntries(kt, et, ps[1..], ApplyPiece(acc, ps[0]))
  }

  lemma {:induction false} FoldIsAssembled(kt: Type, et: Type, ps: seq<EntryPiece>, acc: seq<Entry>)
    ensures FoldEntries(kt, et, ps, acc) ==
      if SomeECrash(ps) then Panic else Ok(MapV(kt, et, Assembled(acc, ps)))
    decreases |ps|
  {
    if ps != [] {
      SomeECrashCons(ps);
      if !ps[0].ECrash? {
        FoldIsAssembled(kt, et, ps[1..], ApplyPiece(acc, ps[0]));
      }
    }
  }

  lemma SomeECrashCons(ps: seq<EntryPiece>)
    requires ps != []
    ensures SomeECrash(ps) <==> ps[0].ECrash? || SomeECrash(ps[1..])
  {
    if SomeECrash(ps[1..]) {
      var j :| 0 <= j < |ps[1..]| && ps[1..][j].ECrash?;
      assert ps[j + 1].ECrash?;
    }
    if SomeECrash(ps) && !ps[0].ECrash? {
      var j :| 0 <= j < |ps| && ps[j].ECrash?;
      assert j > 0 && ps[1..][j - 1].ECrash?;
    }
  }

  /** One iteration of the entry loop, in terms of the entry's piece. */
  lemma MapFromStep(c: Config, v: Value, i: nat, acc: seq<Entry>, d: Option<int>)
    requires v.MapV? && i < |v.entries|
    ensures MapFrom(c, v, i, acc, d) ==
      if EntryPieces(c, v, d)[i].ECrash? then Panic
      else MapFrom(c, v, i + 1, ApplyPiece(acc, EntryPieces(c, v, d)[i]), d)
  {
  }

  lemma {:induction false} MapFromIsFold(c: Config, v: Value, i: nat, acc: seq<Entry>, d: Option<int>)
    requires v.MapV? && i <= |v.entries|
    ensures MapFrom(c, v, i, acc, d) ==
      FoldEntries(OutKeyType(c, v.mk), v.me, EntryPieces(c, v, d)[i..], acc)
    decreases |v.entries| - i
  {
    var ps := EntryPieces(c, v, d)[i..];
    if i < |v.entries| {
      MapFromStep(c, v, i, acc, d);
      assert ps[0] == EntryPieces(c, v, d)[i] && ps[1..] == EntryPieces(c, v, d)[i + 1..];
      if !ps[0].ECrash? {
        MapFromIsFold(c, v, i + 1, ApplyPiece(acc, ps[0]), d);
      }
    }
  }

  /**
   * `walk_map` on a non-nil map visits every entry: the result is the map
   * assembled from all the entries' pieces under the rebuilt key type and
   * the original element type, or a panic if any entry panics.
   */
  lemma MapRebuild(c: Config, v: Value, d: Option<int>)
    requires v.MapV?
    ensures var ps := EntryPieces(c, v, d);
      WalkMap(c, v, d) ==
        if SomeECrash(ps) then Panic else Ok(MapV(OutKeyType(c, v.mk), v.me, Assembled([], ps)))
  {
    var ps := EntryPieces(c, v, d);
    MapFromIsFold(c, v, 0, [], d);
    FoldIsAssembled(OutKeyType(c, v.mk), v.me, ps, []);
    assert ps[0..] == ps;
  }

  // ---------------------------------------------------------------------
  // The assembled map

  /** The assembled map has distinct keys, each of them put by some piece (or already there). */
  lemma {:induction false} AssembledKeys(acc: seq<Entry>, ps: seq<EntryPiece>)
    requires DistinctKeys(acc)
    ensures DistinctKeys(Assembled(acc, ps))
    ensures forall k :: k in Keys(Assembled(acc, ps)) ==>
      k in Keys(acc) || exists j :: 0 <= j < |ps| && ps[j].EPut? && ps[j].k == k
    decreases |ps|
  {
    if ps != [] {
      var acc' := ApplyPiece(acc, ps[0]);
      match ps[0] {
        case EPut(k, x) =>
          InsertDistinct(acc, k, x);
          KeysInsert(acc, k, x);
        case ERemove(k) =>
          RemoveDistinct(acc, k);
        case _ =>
      }
      AssembledKeys(acc', ps[1..]);
      forall k | k in Keys(Assembled(acc, ps))
        ensures k in Keys(acc) || exists j :: 0 <= j < |ps| && ps[j].EPut? && ps[j].k == k
      {
        if k !in Keys(acc') {
          var j :| 0 <= j < |ps[1..]| && ps[1..][j].EPut? && ps[1..][j].k == k;
          assert ps[j + 1] == ps[1..][j];
        } else if k !in Keys(acc) {
          assert ps[0].EPut? && ps[0].k == k;
        }
      }
    }
  }

  /** Pieces that do not touch `k` leave its lookup as it was. */
  lemma {:induction false} AssembledUntouched(acc: seq<Entry>, ps: seq<EntryPiece>, k: Value)
    requires DistinctKeys(acc)
    requires forall j :: 0 <= j < |ps| ==> !Touches(ps[j], k)
    ensures Lookup(Assembled(acc, ps), k) == Lookup(acc, k)
    decreases |ps|
  {
    if ps != [] {
      var acc' := ApplyPiece(acc, ps[0]);
      match ps[0] {
        case EPut(k0, x) =>
          InsertDistinct(acc, k0, x);
          LookupInsert(acc, k0, x, k);
        case ERemove(k0) =>
          RemoveDistinct(acc, k0);
          LookupRemove(acc, k0, k);
        case _ =>
      }
      assert forall j :: 0 <= j < |ps[1..]| ==> ps[1..][j] == ps[j + 1];
      AssembledUntouched(acc', ps[1..], k);
    }
  }

  /** The last piece that touches a key decides it: a put leaves its value, a removal leaves none. */
  lemma {:induction false} AssembledLastTouch(acc: seq<Entry>, ps: seq<EntryPiece>, j: nat, k: Value)
    requires DistinctKeys(acc)
    requires j < |ps| && Touches(ps[j], k)
    requires forall i :: j < i < |ps| ==> !Touches(ps[i], k)
    ensures Lookup(Assembled(acc, ps), k) == if ps[j].EPut? then Some(ps[j].x) else None
    decreases |ps|
  {
    var acc' := ApplyPiece(acc, ps[0]);
    match ps[0] {
      case EPut(k0, x) =>
        InsertDistinct(acc, k0, x);
        LookupInsert(acc, k0, x, k);
      case ERemove(k0) =>
        RemoveDistinct(acc, k0);
        LookupRemove(acc, k0, k);
      case _ =>
    }
    if j == 0 {
      assert forall i :: 0 <= i < |ps[1..]| ==> ps[1..][i] == ps[i + 1];
      AssembledUntouched(acc', ps[1..], k);
    } else {
      assert forall i :: j - 1 < i < |ps[1..]| ==> ps[1..][i] == ps[i + 1];
      AssembledLastTouch(acc', ps[1..], j - 1, k);
    }
  }

  // ---------------------------------------------------------------------
  // One entry

  /** The map-pair node an entry with unwrapped key `k` and walked value `x` starts with. */
  function PairNode(k: Value, x: Value): NodeState {
    Fresh(MapPair, Some(VarState(TypeOf(k), k)), TypeOf(x), x)
  }

  /** What a piece decided from a resolved map-pair chain says about that chain. */
  lemma ResolvedPair(et: Type, okt: Type, k: Value, x: Value, res: Resolution, p: EntryPiece)
    requires res.Resolved? ==> res.rt == res.state.action && res.state.view.key.Some?
    requires p ==
      if res.Crashed? then ECrash else if res.rt == Deleted then ESkip
      else if !res.override then SetMapIndex(okt, et, k, x, false)
      else if res.state.view.key.None? then ECrash
      else SetMapIndex(okt, et, res.state.view.key.value.v, res.state.view.value.v, true)
    ensures p.ESkip? <==> res.Resolved? && res.state.action == Deleted
    ensures p.EPut? ==>
      && res.Resolved? && res.state.view.key.Some?
      && (res.override ==> p.k == res.state.view.key.value.v && p.x == res.state.view.value.v)
      && (!res.override ==> p.k == k && p.x == x)
  {
  }

  /** An entry is skipped exactly when its map-pair node ended deleted. */
  lemma PairSkipped(c: Config, et: Type, okt: Type, k: Value, x: Value)
    ensures var res := Chain(PairNode(k, x), c.routines, true);
      PairStep(c, et, okt, k, x).ESkip? <==> res.Resolved? && res.state.action == Deleted
  {
    var res := Chain(PairNode(k, x), c.routines, true);
    PairUnfold(c, et, okt, k, x, res);
    if res.Resolved? {
      ChainResolution(PairNode(k, x), c.routines, true, Blank, false);
    }
    ResolvedPair(et, okt, k, x, res, PairStep(c, et, okt, k, x));
  }

  /**
   * A stored entry carries the node's staged key and value when the node was
   * overridden, and the unwrapped original key and (walked) value otherwise.
   */
  lemma PairStored(c: Config, et: Type, okt: Type, k: Value, x: Value)
    ensures var res := Chain(PairNode(k, x), c.routines, true);
      var p := PairStep(c, et, okt, k, x);
      p.EPut? ==>
        && res.Resolved? && res.state.view.key.Some?
        && (res.override ==> p.k == res.state.view.key.value.v && p.x == res.state.view.value.v)
        && (!res.override ==> p.k == k && p.x == x)
  {
    var res := Chain(PairNode(k, x), c.routines, true);
    PairUnfold(c, et, okt, k, x, res);
    if res.Resolved? {
      ChainResolution(PairNode(k, x), c.routines, true, Blank, false);
    }
    ResolvedPair(et, okt, k, x, res, PairStep(c, et, okt, k, x));
  }

  /** Under key coercion a stored key has type `string`; a final key of another type panics. */
  lemma CoercedKeys(et: Type, k: Value, x: Value, boxed: bool)
    ensures SetMapIndex(TString, et, k, x, boxed).EPut? ==> TypeOf(SetMapIndex(TString, et, k, x, boxed).k) == TString
    ensures SetMapIndex(TString, et, k, x, boxed).ERemove? ==> TypeOf(SetMapIndex(TString, et, k, x, boxed).rk) == TString
    ensures TypeOf(k) != TString ==> SetMapIndex(TString, et, k, x, boxed) == ECrash
  {
  }

  /** The pieces of a map walked under key coercion only ever put `string`-typed keys. */
  lemma CoercedPieces(c: Config, v: Value, d: Option<int>)
    requires v.MapV? && c.jsonable
    ensures forall j :: 0 <= j < |v.entries| && EntryPieces(c, v, d)[j].EPut? ==>
      TypeOf(EntryPieces(c, v, d)[j].k) == TString
  {
    forall j | 0 <= j < |v.entries| && EntryPieces(c, v, d)[j].EPut?
      ensures TypeOf(EntryPieces(c, v, d)[j].k) == TString
    {
      var e := v.entries[j];
      var uk := Unpack(v.mk, e.key);
      var uv := Unpack(v.me, e.val);
      var walked := if IsLiteralType(TypeOf(uv)) then Ok(uv) else WalkAt(c, uv, d);
      EntryVisitsEveryValue(c, v.mk, v.me, TString, e.key, e.val, d, walked);
      var x := walked.v;
      var res := Chain(PairNode(uk, x), c.routines, true);
      PairStored(c, v.me, TString, uk, x);
      if res.override {
        CoercedKeys(v.me, res.state.view.key.value.v, res.state.view.value.v, true);
      } else {
        CoercedKeys(v.me, uk, x, false);
      }
    }
  }

  // ---------------------------------------------------------------------
  // The rebuilt map

  /**
   * With `WithJsonableMap`, a map walks to a `string`-keyed map with the
   * same element type whose keys are distinct and all of type `string`; an
   * empty map walks to an empty `string`-keyed map.
   */
  lemma JsonableMap(c: Config, v: Value, d: Option<int>)
    requires v.MapV? && c.jsonable && WalkMap(c, v, d).Ok?
    ensures var r := WalkMap(c, v, d).v;
      && r.MapV? && r.mk == TString && r.me == v.me
      && DistinctKeys(r.entries)
      && (forall i :: 0 <= i < |r.entries| ==> TypeOf(r.entries[i].key) == TString)
      && (v.entries == [] ==> r.entries == [])
  {
    var ps := EntryPieces(c, v, d);
    MapRebuild(c, v, d);
    AssembledKeys([], ps);
    CoercedPieces(c, v, d);
    var r := WalkMap(c, v, d).v;
    forall i | 0 <= i < |r.entries| ensures TypeOf(r.entries[i].key) == TString {
      var k := r.entries[i].key;
      assert k in Keys(r.entries);
      var j :| 0 <= j < |ps| && ps[j].EPut? && ps[j].k == k;
    }
  }

  /**
   * Entries in the rebuilt map: a key put by some entry's piece and not
   * touched by a later one maps to the value that piece put; a key that no
   * piece puts (for instance because every entry with it was deleted) is
   * absent.
   */
  lemma MapContents(c: Config, v: Value, d: Option<int>, k: Value)
    requires v.MapV? && WalkMap(c, v, d).Ok?
    ensures var ps := EntryPieces(c, v, d);
      var r := WalkMap(c, v, d).v;
      && r.MapV? && DistinctKeys(r.entries)
      && (forall j ::
            (0 <= j < |ps| && ps[j].EPut? && ps[j].k == k && (forall i :: j < i < |ps| ==> !Touches(ps[i], k)))
            ==> Lookup(r.entries, k) == Some(ps[j].x))
      && ((forall j :: 0 <= j < |ps| ==> !(ps[j].EPut? && ps[j].k == k)) ==> Lookup(r.entries, k) == None)
  {
    var ps := EntryPieces(c, v, d);
    MapRebuild(c, v, d);
    AssembledKeys([], ps);
    forall j | 0 <= j < |ps| && ps[j].EPut? && ps[j].k == k && (forall i :: j < i < |ps| ==> !Touches(ps[i], k))
      ensures Lookup(Assembled([], ps), k) == Some(ps[j].x)
    {
      AssembledLastTouch([], ps, j, k);
    }
    var es := Assembled([], ps);
    if Lookup(es, k).Some? {
      var i :| 0 <= i < |es| && es[i].key == k;
      assert k in Keys(es);
    }
  }
}
