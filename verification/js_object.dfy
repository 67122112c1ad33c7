/**
 * Plain JavaScript objects used as dictionaries: an insertion-ordered list of
 * (property name, value) pairs whose names are distinct. `Put` is property assignment
 * (an existing property keeps its position), `Assign` is the object spread
 * `{...target, ...source}`.
 */
module JsObject {
  import opened Wrappers
  import opened JsArray

  type Object<V> = seq<(string, V)>

  /** `Object.keys`. */
  function Keys<V>(o: Object<V>): seq<string> {
    seq(|o|, i requires 0 <= i < |o| => o[i].0)
  }

  /** Every JavaScript object has distinct property names. */
  ghost predicate WellFormed<V>(o: Object<V>) {
    Distinct(Keys(o))
  }

  /** `Object.prototype.hasOwnProperty` (Ramda `has`). */
  predicate Has<V>(o: Object<V>, k: string) {
    k in Keys(o)
  }

  /** Reading an own property. */
  function Get<V>(o: Object<V>, k: string): Option<V>
    decreases |o|
  {
    if |o| == 0 then None else if o[0].0 == k then Some(o[0].1) else Get(o[1..], k)
  }

  /** Property assignment `o[k] = v` on a copy. */
  function Put<V>(o: Object<V>, k: string, v: V): Object<V>
    decreases |o|
  {
    if |o| == 0 then [(k, v)]
    else if o[0].0 == k then [(k, v)] + o[1..]
    else [o[0]] + Put(o[1..], k, v)
  }

  /** The object spread `{...target, ...source}`: the properties of `source` assigned in order. */
  function Assign<V>(target: Object<V>, source: Object<V>): Object<V>
    decreases |source|
  {
    if |source| == 0 then target
    else
      var last := source[|source| - 1];
      Put(Assign(target, source[..|source| - 1]), last.0, last.1)
  }

  /** The non-enumerable members every object inherits from `Object.prototype`. */
  const ObjectPrototypeNames: set<string> := {
    "constructor", "hasOwnProperty", "isPrototypeOf", "propertyIsEnumerable",
    "toLocaleString", "toString", "valueOf", "__proto__", "__defineGetter__",
    "__defineSetter__", "__lookupGetter__", "__lookupSetter__"
  }

  /** The JavaScript `in` operator: own properties and inherited prototype members. */
  predicate In<V>(k: string, o: Object<V>) {
    Has(o, k) || k in ObjectPrototypeNames
  }

  /** Ramda `pickBy` on the property name: the properties whose name passes `keep`, in order. */
  function PickBy<V>(o: Object<V>, keep: string -> bool): Object<V>
    decreases |o|
  {
    if |o| == 0 then []
    else if keep(o[0].0) then [o[0]] + PickBy(o[1..], keep)
    else PickBy(o[1..], keep)
  }

  lemma {:induction false} GetMeaning<V>(o: Object<V>, k: string)
    ensures Get(o, k).Some? <==> Has(o, k)
    ensures Get(o, k).Some? ==> exists i :: 0 <= i < |o| && o[i] == (k, Get(o, k).value)
    decreases |o|
  {
    if |o| > 0 && o[0].0 != k {
      GetMeaning(o[1..], k);
      assert Keys(o) == [o[0].0] + Keys(o[1..]);
      if Get(o, k).Some? {
        var i :| 0 <= i < |o[1..]| && o[1..][i] == (k, Get(o, k).value);
        assert o[i + 1] == o[1..][i];
      }
    } else if |o| > 0 {
      assert Keys(o)[0] == k;
    }
  }

  /** In a well-formed object the value read for the name at position `i` is the value there. */
  lemma {:induction false} GetAt<V>(o: Object<V>, i: nat)
    requires WellFormed(o) && i < |o|
    ensures Get(o, o[i].0) == Some(o[i].1)
    decreases i
  {
    if i > 0 {
      assert Keys(o)[0] != Keys(o)[i];
      assert WellFormed(o[1..]) by {
        forall a, b | 0 <= a < b < |o[1..]| ensures Keys(o[1..])[a] != Keys(o[1..])[b] {
          assert Keys(o)[a + 1] != Keys(o)[b + 1];
        }
      }
      GetAt(o[1..], i - 1);
    }
  }

  /** After `o[k] = v`, `k` reads `v` and every other property is unchanged. */
  lemma {:induction false} PutGet<V>(o: Object<V>, k: string, v: V, k': string)
    ensures Get(Put(o, k, v), k') == if k' == k then Some(v) else Get(o, k')
    decreases |o|
  {
    if |o| > 0 && o[0].0 != k {
      PutGet(o[1..], k, v, k');
    }
  }

  /** Assignment keeps the property order and appends a new name at the end. */
  lemma {:induction false} PutKeys<V>(o: Object<V>, k: string, v: V)
    ensures Keys(Put(o, k, v)) == if k in Keys(o) then Keys(o) else Keys(o) + [k]
    decreases |o|
  {
    if |o| > 0 {
      assert Keys(o) == [o[0].0] + Keys(o[1..]);
      if o[0].0 == k {
        assert Keys(Put(o, k, v)) == [k] + Keys(o[1..]);
      } else {
        PutKeys(o[1..], k, v);
        assert Keys(Put(o, k, v)) == [o[0].0] + Keys(Put(o[1..], k, v));
      }
    }
  }

  /** Assigning a new name appends it. */
  lemma {:induction false} PutNew<V>(o: Object<V>, k: string, v: V)
    requires !Has(o, k)
    ensures Put(o, k, v) == o + [(k, v)]
    decreases |o|
  {
    if |o| > 0 {
      assert Keys(o) == [o[0].0] + Keys(o[1..]);
      PutNew(o[1..], k, v);
      assert o == [o[0]] + o[1..];
    }
  }

  lemma PutWellFormed<V>(o: Object<V>, k: string, v: V)
    requires WellFormed(o)
    ensures WellFormed(Put(o, k, v))
  {
    PutKeys(o, k, v);
  }

  /** The spread keeps the target's names first and adds the new names of `source` after them. */
  lemma {:induction false} AssignKeys<V>(target: Object<V>, source: Object<V>)
    requires WellFormed(target)
    ensures WellFormed(Assign(target, source))
    ensures forall k :: Has(Assign(target, source), k) <==> Has(target, k) || Has(source, k)
    ensures Keys(target) <= Keys(Assign(target, source))
    decreases |source|
  {
    if |source| > 0 {
      var p := source[..|source| - 1];
      var last := source[|source| - 1];
      AssignKeys(target, p);
      PutKeys(Assign(target, p), last.0, last.1);
      PutWellFormed(Assign(target, p), last.0, last.1);
      assert Keys(source) == Keys(p) + [last.0];
      forall k ensures Has(Assign(target, source), k) <==> Has(target, k) || Has(source, k) {
        assert Has(source, k) <==> Has(p, k) || k == last.0;
      }
    }
  }

  /** After the spread, a name of `source` reads its `source` value; any other name reads the target's. */
  lemma {:induction false} AssignGet<V>(target: Object<V>, source: Object<V>, k: string)
    requires WellFormed(source)
    ensures Get(Assign(target, source), k) == if Has(source, k) then Get(source, k) else Get(target, k)
    decreases |source|
  {
    if |source| > 0 {
      var p := source[..|source| - 1];
      var last := source[|source| - 1];
      assert Keys(source) == Keys(p) + [last.0];
      assert WellFormed(p) by {
        forall a, b | 0 <= a < b < |p| ensures Keys(p)[a] != Keys(p)[b] {
          assert Keys(source)[a] != Keys(source)[b];
        }
      }
      AssignGet(target, p, k);
      PutGet(Assign(target, p), last.0, last.1, k);
      if k == last.0 {
        GetAt(source, |source| - 1);
      } else if Has(p, k) {
        var i :| 0 <= i < |p| && Keys(p)[i] == k;
        GetAt(p, i);
        GetAt(source, i);
      } else {
        assert !Has(source, k);
      }
    }
  }

  /** `pickBy` keeps exactly the properties whose name passes the test, with their values. */
  lemma {:induction false} PickByGet<V>(o: Object<V>, keep: string -> bool, k: string)
    ensures Get(PickBy(o, keep), k) == if keep(k) then Get(o, k) else None
    decreases |o|
  {
    if |o| > 0 {
      PickByGet(o[1..], keep, k);
    }
  }

  /** `pickBy` keeps the names in their order, so the result is a well-formed object. */
  lemma {:induction false} PickByKeys<V>(o: Object<V>, keep: string -> bool)
    ensures forall k :: Has(PickBy(o, keep), k) <==> Has(o, k) && keep(k)
    ensures WellFormed(o) ==> WellFormed(PickBy(o, keep))
    decreases |o|
  {
    if |o| > 0 {
      var rest := PickBy(o[1..], keep);
      PickByKeys(o[1..], keep);
      assert Keys(o) == [o[0].0] + Keys(o[1..]);
      if keep(o[0].0) {
        assert Keys(PickBy(o, keep)) == [o[0].0] + Keys(rest);
      }
      forall k ensures Has(PickBy(o, keep), k) <==> Has(o, k) && keep(k) {
        assert Has(o, k) <==> k == o[0].0 || Has(o[1..], k);
      }
      if WellFormed(o) {
        assert WellFormed(o[1..]) by {
          forall a, b | 0 <= a < b < |o[1..]| ensures Keys(o[1..])[a] != Keys(o[1..])[b] {
            assert Keys(o)[a + 1] != Keys(o)[b + 1];
          }
        }
        if keep(o[0].0) {
          forall j | 0 <= j < |Keys(o[1..])| ensures Keys(o[1..])[j] != o[0].0 {
            assert Keys(o)[0] != Keys(o)[j + 1];
          }
          assert !Has(rest, o[0].0);
          var ks := Keys(PickBy(o, keep));
          forall a, b | 0 <= a < b < |ks| ensures ks[a] != ks[b] {
            if a == 0 {
              assert ks[b] == Keys(rest)[b - 1];
            } else {
              assert ks[a] == Keys(rest)[a - 1] && ks[b] == Keys(rest)[b - 1];
            }
          }
        }
      }
    }
  }
}
