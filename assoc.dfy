/**
 * A rebuilt Go map as an entry list whose keys are kept distinct:
 * `SetMapIndex` with a valid element inserts or overwrites (`Insert`),
 * with the invalid Value it deletes (`Remove`).
 */
module Assoc {
  import opened Values

  function Lookup(es: seq<Entry>, k: Value): (r: Option<Value>)
    ensures r.Some? <==> exists i :: 0 <= i < |es| && es[i].key == k
  {
    if es == [] then None
    else if es[0].key == k then Some(es[0].val)
    else
      var r := Lookup(es[1..], k);
      assert forall i :: 1 <= i < |es| ==> es[i] == es[1..][i - 1];
      r
  }

  function Keys(es: seq<Entry>): (ks: set<Value>)
    ensures forall k :: k in ks <==> exists i :: 0 <= i < |es| && es[i].key == k
  {
    set i | 0 <= i < |es| :: es[i].key
  }

  /** `SetMapIndex(k, x)`: overwrite the entry for `k` in place, or append one. */
  function Insert(es: seq<Entry>, k: Value, x: Value): (r: seq<Entry>)
  {
    if es == [] then [Entry(k, x)]
    else if es[0].key == k then [Entry(k, x)] + es[1..]
    else [es[0]] + Insert(es[1..], k, x)
  }

  /** `SetMapIndex(k, <invalid>)`: delete the entry for `k`, if any. */
  function Remove(es: seq<Entry>, k: Value): (r: seq<Entry>)
  {
    if es == [] then []
    else if es[0].key == k then es[1..]
    else [es[0]] + Remove(es[1..], k)
  }

  /** After an insertion the key maps to the inserted value and every other key is unaffected. */
  lemma {:induction false} LookupInsert(es: seq<Entry>, k: Value, x: Value, k': Value)
    ensures Lookup(Insert(es, k, x), k') == if k' == k then Some(x) else Lookup(es, k')
  {
    if es != [] && es[0].key != k {
      LookupInsert(es[1..], k, x, k');
    }
  }

  lemma KeysCons(e: Entry, es: seq<Entry>)
    ensures Keys([e] + es) == {e.key} + Keys(es)
  {
    var s := [e] + es;
    forall k ensures k in Keys(s) <==> k in {e.key} + Keys(es) {
      assert s[0] == e;
      if k in Keys(es) {
        var i :| 0 <= i < |es| && es[i].key == k;
        assert s[i + 1] == es[i];
      }
      if k in Keys(s) {
        var i :| 0 <= i < |s| && s[i].key == k;
        if i > 0 { assert s[i] == es[i - 1]; }
      }
    }
  }

  /** The keys of a non-empty list: its head's key and the keys of its tail. */
  lemma KeysTail(es: seq<Entry>)
    requires es != []
    ensures Keys(es) == {es[0].key} + Keys(es[1..])
  {
    assert es == [es[0]] + es[1..];
    KeysCons(es[0], es[1..]);
  }

  /** The tail of a list with distinct keys has distinct keys, none of them the head's. */
  lemma TailDistinct(es: seq<Entry>)
    requires es != [] && DistinctKeys(es)
    ensures DistinctKeys(es[1..]) && es[0].key !in Keys(es[1..])
  {
    var tail := es[1..];
    forall i, j | 0 <= i < j < |tail| ensures tail[i].key != tail[j].key {
      assert tail[i] == es[i + 1] && tail[j] == es[j + 1];
    }
    forall i | 0 <= i < |tail| ensures tail[i].key != es[0].key {
      assert tail[i] == es[i + 1];
    }
  }

  lemma {:induction false} KeysInsert(es: seq<Entry>, k: Value, x: Value)
    ensures Keys(Insert(es, k, x)) == Keys(es) + {k}
    ensures |Insert(es, k, x)| == if k in Keys(es) then |es| else |es| + 1
  {
    if es == [] {
      KeysCons(Entry(k, x), []);
      assert [Entry(k, x)] + [] == Insert(es, k, x);
    } else {
      var tail := es[1..];
      KeysTail(es);
      if es[0].key == k {
        assert Insert(es, k, x) == [Entry(k, x)] + tail;
        KeysCons(Entry(k, x), tail);
      } else {
        var rest := Insert(tail, k, x);
        assert Insert(es, k, x) == [es[0]] + rest;
        KeysInsert(tail, k, x);
        KeysCons(es[0], rest);
        assert k in Keys(es) <==> k in Keys(tail);
      }
    }
  }

  /** Inserting a key the map does not hold appends its entry at the end of the iteration order. */
  lemma {:induction false} InsertFresh(es: seq<Entry>, k: Value, x: Value)
    requires k !in Keys(es)
    ensures Insert(es, k, x) == es + [Entry(k, x)]
  {
    if es != [] {
      KeysTail(es);
      InsertFresh(es[1..], k, x);
      assert [es[0]] + (es[1..] + [Entry(k, x)]) == es + [Entry(k, x)];
    }
  }

  /** Insertion keeps the keys of an entry list distinct. */
  lemma {:induction false} InsertDistinct(es: seq<Entry>, k: Value, x: Value)
    requires DistinctKeys(es)
    ensures DistinctKeys(Insert(es, k, x))
  {
    if es == [] {
    } else if es[0].key == k {
      var r := [Entry(k, x)] + es[1..];
      forall i, j | 0 <= i < j < |r| ensures r[i].key != r[j].key {
        assert r[j] == es[j];
        if i > 0 { assert r[i] == es[i]; }
      }
    } else {
      var tail := es[1..];
      TailDistinct(es);
      InsertDistinct(tail, k, x);
      KeysInsert(tail, k, x);
      var rest := Insert(tail, k, x);
      var r := [es[0]] + rest;
      forall i, j | 0 <= i < j < |r| ensures r[i].key != r[j].key {
        if i == 0 {
          assert r[j] == rest[j - 1];
          assert r[j].key in Keys(rest);
        } else {
          assert r[i] == rest[i - 1] && r[j] == rest[j - 1];
        }
      }
    }
  }

  /** After a removal the key is absent and every other key is unaffected. */
  lemma {:induction false} LookupRemove(es: seq<Entry>, k: Value, k': Value)
    requires DistinctKeys(es)
    ensures Lookup(Remove(es, k), k') == if k' == k then None else Lookup(es, k')
  {
    if es != [] {
      var tail := es[1..];
      TailDistinct(es);
      if es[0].key == k {
        assert Remove(es, k) == tail;
        if k' == k {
          assert k !in Keys(tail);
          assert Lookup(tail, k).None?;
        } else {
          assert Lookup(es, k') == Lookup(tail, k');
        }
      } else {
        var rest := Remove(tail, k);
        var r := [es[0]] + rest;
        assert Remove(es, k) == r;
        assert r[0] == es[0] && r[1..] == rest;
        LookupRemove(tail, k, k');
        if es[0].key != k' {
          assert Lookup(r, k') == Lookup(rest, k');
          assert Lookup(es, k') == Lookup(tail, k');
        }
      }
    }
  }

  /** Removal never adds a key and keeps the keys distinct. */
  lemma {:induction false} RemoveDistinct(es: seq<Entry>, k: Value)
    requires DistinctKeys(es)
    ensures Keys(Remove(es, k)) <= Keys(es)
    ensures DistinctKeys(Remove(es, k))
  {
    if es != [] {
      var tail := es[1..];
      KeysTail(es);
      TailDistinct(es);
      if es[0].key != k {
        RemoveDistinct(tail, k);
        var rest := Remove(tail, k);
        var r := [es[0]] + rest;
        KeysCons(es[0], rest);
        forall i, j | 0 <= i < j < |r| ensures r[i].key != r[j].key {
          if i == 0 {
            assert r[j] == rest[j - 1];
            assert r[j].key in Keys(rest);
          } else {
            assert r[i] == rest[i - 1] && r[j] == rest[j - 1];
          }
        }
      }
    }
  }
}
