/** Maps from a key to a set of values: the operations as functions of the map, and the
    class whose loops carry them out in place. */
module LocUnorderedSetMap {

  function ValSet<K, V>(m: map<K, set<V>>, k: K): set<V> {
    if k in m then m[k] else {}
  }

  /** No key is kept with an empty set. */
  ghost predicate NoEmptySets<K, V>(m: map<K, set<V>>) {
    forall k :: k in m ==> m[k] != {}
  }

  // ---------- The operations as functions ----------

  function AddOne<K, V>(m: map<K, set<V>>, k: K, vals: set<V>): map<K, set<V>> {
    if vals == {} then m else m[k := ValSet(m, k) + vals]
  }

  function AddAll<K, V>(m: map<K, set<V>>, keys: set<K>, vals: set<V>): map<K, set<V>> {
    if vals == {} then m
    else map k | k in m.Keys + keys :: if k in keys then ValSet(m, k) + vals else m[k]
  }

  function NewKeys<K, V>(m: map<K, set<V>>, keys: set<K>, vals: set<V>): set<K> {
    if vals == {} then {} else keys - m.Keys
  }

  /** The keys, among those given, that trimming leaves without values. */
  function GoneKeys<K, V>(m: map<K, set<V>>, keys: set<K>, rVals: set<V>): set<K> {
    set k | k in keys && k in m && m[k] <= rVals
  }

  function Trim<K, V>(m: map<K, set<V>>, keys: set<K>, rVals: set<V>): map<K, set<V>> {
    map k | k in m.Keys - GoneKeys(m, keys, rVals) :: if k in keys then m[k] - rVals else m[k]
  }

  function GoneVals<K, V>(m: map<K, set<V>>, keys: set<K>, rVals: set<V>): set<V> {
    set v | v in rVals && exists k :: k in keys && k in m && v in m[k]
  }

  /** What update() leaves in the map. */
  function Updated<K, V>(m: map<K, set<V>>, k: K, newVals: set<V>): map<K, set<V>> {
    if newVals == {} then m - {k} else m[k := newVals]
  }

  lemma TrimKeys<K, V>(m: map<K, set<V>>, keys: set<K>, rVals: set<V>)
    ensures Trim(m, keys, rVals).Keys == m.Keys - GoneKeys(m, keys, rVals)
    ensures NoEmptySets(m) ==> NoEmptySets(Trim(m, keys, rVals))
  {
    forall k | k in keys && k in m && !(m[k] <= rVals) ensures m[k] - rVals != {} {
      var v :| v in m[k] && v !in rVals;
      assert v in m[k] - rVals;
    }
  }

  lemma AddKeys<K, V>(m: map<K, set<V>>, keys: set<K>, vals: set<V>)
    ensures AddAll(m, keys, vals).Keys == m.Keys + NewKeys(m, keys, vals)
    ensures NoEmptySets(m) ==> NoEmptySets(AddAll(m, keys, vals))
  {
  }

  // ---------- Which value is under which key ----------

  predicate Has<K, V>(m: map<K, set<V>>, k: K, v: V) {
    v in ValSet(m, k)
  }

  lemma AddOneHas<K, V>(m: map<K, set<V>>, key: K, vals: set<V>, k: K, v: V)
    ensures Has(AddOne(m, key, vals), k, v) <==> Has(m, k, v) || (k == key && v in vals)
  {
  }

  lemma AddAllHas<K, V>(m: map<K, set<V>>, keys: set<K>, vals: set<V>, k: K, v: V)
    ensures Has(AddAll(m, keys, vals), k, v) <==> Has(m, k, v) || (k in keys && v in vals)
  {
  }

  lemma TrimHas<K, V>(m: map<K, set<V>>, keys: set<K>, rVals: set<V>, k: K, v: V)
    ensures Has(Trim(m, keys, rVals), k, v) <==> Has(m, k, v) && !(k in keys && v in rVals)
  {
  }

  lemma UpdatedHas<K, V>(m: map<K, set<V>>, key: K, newVals: set<V>, k: K, v: V)
    ensures Has(Updated(m, key, newVals), k, v) <==> if k == key then v in newVals else Has(m, k, v)
  {
  }

  lemma AddOneMore<K, V>(m: map<K, set<V>>, keys: set<K>, key: K, vals: set<V>)
    requires key !in keys
    ensures AddAll(m, keys + {key}, vals) == AddOne(AddAll(m, keys, vals), key, vals)
    ensures NewKeys(m, keys + {key}, vals) ==
              NewKeys(m, keys, vals) + if vals != {} && key !in AddAll(m, keys, vals) then {key} else {}
  {
    if vals == {} {
    } else {
      var more, after := AddAll(m, keys + {key}, vals), AddOne(AddAll(m, keys, vals), key, vals);
      assert more.Keys == after.Keys;
    }
  }

  // ---------- The class ----------

  class SetMap<K(==), V(==)> {
    var mMap: map<K, set<V>>

    constructor ()
      ensures mMap == map[]
    {
      mMap := map[];
    }

    function GetValSet(k: K): set<V>
      reads this
    {
      ValSet(mMap, k)
    }

    function GetKeys(): set<K>
      reads this
    {
      mMap.Keys
    }

    method Remove(k: K)
      modifies this
      ensures mMap == old(mMap) - {k}
    {
      mMap := mMap - {k};
    }

    method Add(k: K, newVals: set<V>) returns (newEntryAdded: bool)
      modifies this
      ensures mMap == AddOne(old(mMap), k, newVals)
      ensures newEntryAdded <==> newVals != {} && k !in old(mMap)
    {
      newEntryAdded := false;
      assert {} + newVals == newVals;
      if newVals != {} {
        if k in mMap {
          mMap := mMap[k := mMap[k] + newVals];
        } else {
          mMap := mMap[k := newVals];
          newEntryAdded := true;
        }
      }
    }

    method AddToKeys(keys: set<K>, newVals: set<V>) returns (newKeys: set<K>)
      modifies this
      ensures mMap == AddAll(old(mMap), keys, newVals)
      ensures newKeys == NewKeys(old(mMap), keys, newVals)
    {
      newKeys := {};
      var todo := keys;
      while todo != {}
        invariant todo <= keys
        invariant mMap == AddAll(old(mMap), keys - todo, newVals)
        invariant newKeys == NewKeys(old(mMap), keys - todo, newVals)
        decreases todo
      {
        var key :| key in todo;
        AddOneMore(old(mMap), keys - todo, key, newVals);
        assert keys - (todo - {key}) == (keys - todo) + {key};
        todo := todo - {key};
        var added := Add(key, newVals);
        if added {
          newKeys := newKeys + {key};
        }
      }
      assert keys - todo == keys;
    }

    /** Trims one entry, value by value, and drops it when nothing is left. */
    method TrimEntry(key: K, rVals: set<V>) returns (removed: bool, goneVals: set<V>)
      requires key in mMap
      modifies this
      ensures mMap == Trim(old(mMap), {key}, rVals)
      ensures removed <==> old(mMap)[key] <= rVals
      ensures goneVals == old(mMap)[key] * rVals
    {
      var vals, todo := mMap[key], rVals;
      goneVals := {};
      while todo != {}
        invariant todo <= rVals
        invariant vals == mMap[key] - (rVals - todo)
        invariant goneVals == mMap[key] * (rVals - todo)
        decreases todo
      {
        var val :| val in todo;
        todo := todo - {val};
        if val in vals {
          vals := vals - {val};
          goneVals := goneVals + {val};
        }
      }
      assert rVals - todo == rVals && vals == mMap[key] - rVals;
      removed := vals == {};
      mMap := if removed then mMap - {key} else mMap[key := vals];
    }

    method TrimOrRemove(keys: set<K>, rVals: set<V>) returns (goneKeys: set<K>, goneVals: set<V>)
      modifies this
      ensures mMap == Trim(old(mMap), keys, rVals)
      ensures goneKeys == GoneKeys(old(mMap), keys, rVals)
      ensures goneVals == GoneVals(old(mMap), keys, rVals)
    {
      goneKeys, goneVals := {}, {};
      var todo := keys;
      while todo != {}
        invariant todo <= keys
        invariant mMap == Trim(old(mMap), keys - todo, rVals)
        invariant goneKeys == GoneKeys(old(mMap), keys - todo, rVals)
        invariant goneVals == GoneVals(old(mMap), keys - todo, rVals)
        decreases todo
      {
        var key :| key in todo;
        todo := todo - {key};
        if key in mMap {
          var removed, gone := TrimEntry(key, rVals);
          goneVals := goneVals + gone;
          if removed {
            goneKeys := goneKeys + {key};
          }
        }
      }
      assert keys - todo == keys;
    }

    /** Puts newVals under key. The first result is what the code returns: the values
        that were already there. The second is what it leaves in newVals: the values
        that were not. */
    method Update(key: K, newVals: set<V>) returns (returned: set<V>, left: set<V>)
      modifies this
      ensures mMap == Updated(old(mMap), key, newVals)
      ensures newVals != {} ==> returned == newVals * ValSet(old(mMap), key)
      ensures newVals != {} ==> left == newVals - ValSet(old(mMap), key)
      ensures newVals == {} ==> returned == {} && left == {}
    {
      if newVals == {} {
        mMap := mMap - {key};
        return {}, {};
      }
      var curVals := GetValSet(key);
      mMap := mMap[key := newVals];
      returned, curVals, left := RemoveAndReturnInterset(curVals, newVals);
    }
  }

  /** Takes the common values out of both sets. */
  method RemoveAndReturnInterset<T(==)>(s1: set<T>, s2: set<T>) returns (common: set<T>, rest1: set<T>, rest2: set<T>)
    ensures common == s1 * s2 && rest1 == s1 - s2 && rest2 == s2 - s1
  {
    var todo := s2;
    common, rest1, rest2 := {}, s1, s2;
    while todo != {}
      invariant todo <= s2
      invariant common == s1 * (s2 - todo) && rest1 == s1 - common && rest2 == s2 - common
      decreases todo
    {
      var b :| b in todo;
      todo := todo - {b};
      if b in rest1 {
        common, rest1, rest2 := common + {b}, rest1 - {b}, rest2 - {b};
      }
    }
  }
}
