/**
 Records in memory with a key each, and the map from keys to values they stand for. `owner`
 names the address of the record of every key: no two records share one.
 */
module KeyedStore {
  import opened Chains

  datatype Item<K, V> = Item(key: K, value: V)

  ghost predicate Owned<K, V>(store: map<Ptr, Item<K, V>>, owner: map<K, Ptr>) {
    && (forall p :: p in store ==> store[p].key in owner && owner[store[p].key] == p)
    && (forall k :: k in owner ==> owner[k] in store && store[owner[k]].key == k)
  }

  ghost function ViewOf<K, V>(store: map<Ptr, Item<K, V>>, owner: map<K, Ptr>): map<K, V> {
    map k | k in owner && owner[k] in store :: store[owner[k]].value
  }

  lemma {:induction false} ViewLink<K, V>(store: map<Ptr, Item<K, V>>, owner: map<K, Ptr>, at: Ptr, n: Item<K, V>)
    requires Owned(store, owner) && at !in store && n.key !in owner
    ensures Owned(store[at := n], owner[n.key := at])
    ensures ViewOf(store[at := n], owner[n.key := at]) == ViewOf(store, owner)[n.key := n.value]
  {
  }

  lemma {:induction false} ViewUnlink<K, V>(store: map<Ptr, Item<K, V>>, owner: map<K, Ptr>, p: Ptr)
    requires Owned(store, owner) && p in store
    ensures Owned(store - {p}, owner - {store[p].key})
    ensures ViewOf(store - {p}, owner - {store[p].key}) == ViewOf(store, owner) - {store[p].key}
  {
  }

  lemma {:induction false} ViewUpdate<K, V>(store: map<Ptr, Item<K, V>>, owner: map<K, Ptr>, p: Ptr, v: V)
    requires Owned(store, owner) && p in store
    ensures Owned(store[p := store[p].(value := v)], owner)
    ensures ViewOf(store[p := store[p].(value := v)], owner) == ViewOf(store, owner)[store[p].key := v]
  {
  }
}
