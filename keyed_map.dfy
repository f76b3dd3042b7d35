/** A loop that walks a sequence and calls `map.set(key, value)` for the
    items it keeps, as the providers do with a JavaScript `Map`: a later
    `set` on a key overwrites the earlier value. */
module KeyedMap {
  import opened Common

  /** The map such a loop leaves: `select` says, per item, whether it is
      kept and under which key and value. */
  function Collect<T, K, V>(items: seq<T>, select: T -> Option<(K, V)>): map<K, V>
  {
    if items == [] then map[]
    else
      var m := Collect(items[..|items| - 1], select);
      match select(items[|items| - 1])
      case None => m
      case Some(kv) => m[kv.0 := kv.1]
  }

  /** One more iteration of the loop. */
  lemma CollectStep<T, K, V>(items: seq<T>, x: T, select: T -> Option<(K, V)>)
    ensures Collect(items + [x], select)
            == match select(x) case None => Collect(items, select) case Some(kv) => Collect(items, select)[kv.0 := kv.1]
  {
    assert (items + [x])[..|items|] == items;
  }

  /** The keys are exactly the keys of the kept items. */
  lemma {:induction false} CollectKeys<T, K, V>(items: seq<T>, select: T -> Option<(K, V)>)
    ensures Collect(items, select).Keys
            == set i | 0 <= i < |items| && select(items[i]).Some? :: select(items[i]).value.0
  {
    if items != [] {
      var n := |items|;
      var init := items[..n - 1];
      CollectKeys(init, select);
      var keys := set i | 0 <= i < |items| && select(items[i]).Some? :: select(items[i]).value.0;
      var initKeys := set i | 0 <= i < |init| && select(init[i]).Some? :: select(init[i]).value.0;
      assert forall i :: 0 <= i < n - 1 ==> init[i] == items[i];
      if select(items[n - 1]).Some? {
        assert keys == initKeys + {select(items[n - 1]).value.0};
      } else {
        assert keys == initKeys;
      }
    }
  }

  /** The value under a key is that of the last kept item with the key. */
  lemma {:induction false} CollectLastWins<T, K, V>(items: seq<T>, select: T -> Option<(K, V)>, j: int)
    requires 0 <= j < |items| && select(items[j]).Some?
    requires forall l :: j < l < |items| && select(items[l]).Some? ==>
               select(items[l]).value.0 != select(items[j]).value.0
    ensures select(items[j]).value.0 in Collect(items, select)
    ensures Collect(items, select)[select(items[j]).value.0] == select(items[j]).value.1
  {
    var n := |items|;
    if j < n - 1 {
      var init := items[..n - 1];
      assert init[j] == items[j];
      forall l | j < l < |init| && select(init[l]).Some?
        ensures select(init[l]).value.0 != select(init[j]).value.0
      {
        assert init[l] == items[l];
      }
      CollectLastWins(init, select, j);
    }
  }

  /** The map has at most one entry per item. */
  lemma {:induction false} CollectSize<T, K, V>(items: seq<T>, select: T -> Option<(K, V)>)
    ensures |Collect(items, select)| <= |items|
  {
    if items != [] {
      var n := |items|;
      var init := items[..n - 1];
      CollectSize(init, select);
      var m := Collect(init, select);
      match select(items[n - 1])
      case None =>
      case Some(kv) =>
        assert m[kv.0 := kv.1].Keys == m.Keys + {kv.0};
        assert |m.Keys + {kv.0}| <= |m.Keys| + 1;
    }
  }
}
