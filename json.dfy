/**
 * JavaScript values as `JSON.parse` produces them, and the property reads the
 * scripts make on them. An object is the sequence of its entries in the order
 * `Object.entries` lists them.
 */
module JsValues {

  datatype Json =
    | Undefined
    | Null
    | Bool(boolean: bool)
    | Num(number: int)
    | Str(str: string)
    | Arr(elems: seq<Json>)
    | Obj(entries: seq<(string, Json)>)

  /** `null` and `undefined`: reading a property of either throws a TypeError. */
  predicate IsNullish(v: Json)
  {
    v.Undefined? || v.Null?
  }

  /** The value stored under `key` among `entries`, or `undefined`. */
  function Lookup(entries: seq<(string, Json)>, key: string): (r: Json)
    ensures (forall i :: 0 <= i < |entries| ==> entries[i].0 != key) ==> r == Undefined
  {
    if entries == [] then Undefined
    else if entries[0].0 == key then entries[0].1
    else Lookup(entries[1..], key)
  }

  /** `key` names one of `entries`. */
  predicate HasKey(entries: seq<(string, Json)>, key: string)
  {
    exists i :: 0 <= i < |entries| && entries[i].0 == key
  }

  /** `v[key]` for a value that is not nullish: only objects have the properties read here. */
  function Member(v: Json, key: string): (r: Json)
    ensures !v.Obj? ==> r == Undefined
  {
    if v.Obj? then Lookup(v.entries, key) else Undefined
  }

  /** A lookup in a concatenation finds the first part's entry when it has one, else the second part's. */
  lemma {:induction false} LookupAppend(a: seq<(string, Json)>, b: seq<(string, Json)>, key: string)
    ensures Lookup(a + b, key) == if HasKey(a, key) then Lookup(a, key) else Lookup(b, key)
  {
    if a == [] {
      assert a + b == b;
    } else {
      assert (a + b)[1..] == a[1..] + b;
      LookupAppend(a[1..], b, key);
      if a[0].0 != key {
        assert HasKey(a, key) <==> HasKey(a[1..], key) by {
          if HasKey(a, key) {
            var i :| 0 <= i < |a| && a[i].0 == key;
            assert a[1..][i - 1].0 == key;
          }
          if HasKey(a[1..], key) {
            var i :| 0 <= i < |a[1..]| && a[1..][i].0 == key;
            assert a[i + 1].0 == key;
          }
        }
      } else {
        assert HasKey(a, key) by { assert a[0].0 == key; }
      }
    }
  }
}
