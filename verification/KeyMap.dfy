/**
 The ordered containers of the program. Every `std::map<std::string, int>` in it stores the value 1 under
 each key, so a map is its keys, kept in ascending order; an iterator is a position in that order.
 */
module KeyMaps {
  import opened Text

  class KeyMap {
    var keys: seq<string>

    ghost predicate Valid()
      reads this
    {
      StrictlySorted(keys)
    }

    ghost function Keys(): set<string>
      reads this
    {
      set k | k in keys
    }

    constructor ()
      ensures Valid() && keys == [] && Keys() == {}
    {
      keys := [];
    }

    /** `map.count(k)`. */
    predicate Has(k: string)
      reads this
      ensures Has(k) <==> k in Keys()
    {
      k in keys
    }

    /** `map[k] = 1`. */
    method Put(k: string)
      requires Valid()
      modifies this
      ensures Valid() && Keys() == old(Keys()) + {k}
      ensures forall i, j :: 0 <= i < j < |keys| ==> Precedes(keys[i], keys[j])
    {
      InsertKeySorted(keys, k);
      SortedPrecede(InsertKey(keys, k));
      keys := InsertKey(keys, k);
    }
  }

  function InsertKey(keys: seq<string>, k: string): seq<string> {
    if keys == [] || Less(k, keys[0]) then [k] + keys
    else if k == keys[0] then keys
    else [keys[0]] + InsertKey(keys[1..], k)
  }

  /** Inserting a key keeps the order and adds exactly that key. */
  lemma {:induction false} InsertKeySorted(keys: seq<string>, k: string)
    requires StrictlySorted(keys)
    ensures StrictlySorted(InsertKey(keys, k))
    ensures forall x :: x in InsertKey(keys, k) <==> x == k || x in keys
  {
    if keys == [] {
    } else if Less(k, keys[0]) {
      forall j | 0 <= j < |keys|
        ensures Less(k, keys[j])
      {
        if j > 0 {
          LessTransitive(k, keys[0], keys[j]);
        }
      }
    } else if k != keys[0] {
      LessTotal(k, keys[0]);
      InsertKeySorted(keys[1..], k);
      var rest := InsertKey(keys[1..], k);
      forall j | 0 <= j < |rest|
        ensures Less(keys[0], rest[j])
      {
        assert rest[j] in rest;
        if rest[j] != k {
          var m :| 0 <= m < |keys[1..]| && keys[1..][m] == rest[j];
          assert keys[m + 1] == rest[j];
        }
      }
    }
  }
}
