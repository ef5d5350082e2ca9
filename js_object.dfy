/**
 * The order in which JavaScript lists an ordinary object's own string keys
 * (`Object.keys`, `JSON.stringify`): first every key that is an array index,
 * in ascending numeric order, then every other key in insertion order.
 */
module JsObject {
  import opened Text

  /** An array index: the canonical decimal form of an integer below 2^32 - 1. */
  predicate IsArrayIndex(k: string)
  {
    |k| > 0 && AllDigits(k) && (k[0] != '0' || |k| == 1) && DecimalValue(k) < 0xFFFF_FFFF
  }

  predicate AllIndices(s: seq<string>)
  {
    forall i :: 0 <= i < |s| ==> IsArrayIndex(s[i])
  }

  predicate NoIndices(s: seq<string>)
  {
    forall i :: 0 <= i < |s| ==> !IsArrayIndex(s[i])
  }

  function IndexValue(k: string): nat
    requires IsArrayIndex(k)
  {
    DecimalValue(k)
  }

  predicate SortedIndices(s: seq<string>)
  {
    AllIndices(s) && forall i, j :: 0 <= i < j < |s| ==> IndexValue(s[i]) <= IndexValue(s[j])
  }

  /** The keys that are array indices, in insertion order. */
  function IndexKeys(keys: seq<string>): (r: seq<string>)
    ensures AllIndices(r)
  {
    if keys == [] then []
    else if IsArrayIndex(keys[0]) then [keys[0]] + IndexKeys(keys[1..])
    else IndexKeys(keys[1..])
  }

  /** The keys that are not array indices, in insertion order. */
  function NamedKeys(keys: seq<string>): (r: seq<string>)
    ensures NoIndices(r)
  {
    if keys == [] then []
    else if IsArrayIndex(keys[0]) then NamedKeys(keys[1..])
    else [keys[0]] + NamedKeys(keys[1..])
  }

  /** Inserts an index key before the first key with a larger or equal value. */
  function InsertIndex(k: string, s: seq<string>): (r: seq<string>)
    requires IsArrayIndex(k) && AllIndices(s)
    ensures AllIndices(r)
  {
    if s == [] || IndexValue(k) <= IndexValue(s[0]) then [k] + s
    else [s[0]] + InsertIndex(k, s[1..])
  }

  /** Every key of `s` has a value of at least `v`. */
  predicate AtLeast(s: seq<string>, v: nat)
    requires AllIndices(s)
  {
    forall i :: 0 <= i < |s| ==> v <= IndexValue(s[i])
  }

  lemma {:induction false} InsertAtLeast(k: string, s: seq<string>, v: nat)
    requires IsArrayIndex(k) && AllIndices(s)
    requires v <= IndexValue(k) && AtLeast(s, v)
    ensures AtLeast(InsertIndex(k, s), v)
  {
    if s != [] && IndexValue(k) > IndexValue(s[0]) {
      InsertAtLeast(k, s[1..], v);
    }
  }

  lemma SortedCons(x: string, s: seq<string>)
    requires IsArrayIndex(x) && SortedIndices(s) && AtLeast(s, IndexValue(x))
    ensures SortedIndices([x] + s)
  {
  }

  lemma SortedTail(s: seq<string>)
    requires SortedIndices(s) && s != []
    ensures SortedIndices(s[1..]) && AtLeast(s[1..], IndexValue(s[0]))
  {
  }

  lemma {:induction false} InsertSorted(k: string, s: seq<string>)
    requires IsArrayIndex(k) && SortedIndices(s)
    ensures SortedIndices(InsertIndex(k, s))
  {
    if s == [] || IndexValue(k) <= IndexValue(s[0]) {
      SortedCons(k, s);
    } else {
      SortedTail(s);
      InsertSorted(k, s[1..]);
      InsertAtLeast(k, s[1..], IndexValue(s[0]));
      SortedCons(s[0], InsertIndex(k, s[1..]));
    }
  }

  lemma {:induction false} InsertMultiset(k: string, s: seq<string>)
    requires IsArrayIndex(k) && AllIndices(s)
    ensures multiset(InsertIndex(k, s)) == multiset(s) + multiset{k}
  {
    if s != [] && IndexValue(k) > IndexValue(s[0]) {
      InsertMultiset(k, s[1..]);
      assert s == [s[0]] + s[1..];
      assert InsertIndex(k, s) == [s[0]] + InsertIndex(k, s[1..]);
    }
  }

  /** Index keys in ascending numeric order (insertion sort). */
  function SortIndices(s: seq<string>): (r: seq<string>)
    requires AllIndices(s)
    ensures AllIndices(r)
  {
    if s == [] then [] else InsertIndex(s[0], SortIndices(s[1..]))
  }

  lemma {:induction false} SortIndicesSorted(s: seq<string>)
    requires AllIndices(s)
    ensures SortedIndices(SortIndices(s))
    ensures multiset(SortIndices(s)) == multiset(s)
  {
    if s != [] {
      SortIndicesSorted(s[1..]);
      InsertSorted(s[0], SortIndices(s[1..]));
      InsertMultiset(s[0], SortIndices(s[1..]));
      assert s == [s[0]] + s[1..];
    }
  }

  /** `Object.keys(o)` for an object whose keys were inserted in order `keys`. */
  function OwnKeyOrder(keys: seq<string>): seq<string>
  {
    SortIndices(IndexKeys(keys)) + NamedKeys(keys)
  }

  lemma {:induction false} KeysSplit(keys: seq<string>)
    ensures multiset(IndexKeys(keys)) + multiset(NamedKeys(keys)) == multiset(keys)
  {
    if keys != [] {
      KeysSplit(keys[1..]);
      assert keys == [keys[0]] + keys[1..];
    }
  }

  /** `Object.keys` lists every key exactly as often as it was inserted, all the
      array indices first and in ascending order, the other keys after them in
      insertion order. */
  lemma OwnKeyOrderShape(keys: seq<string>)
    ensures multiset(OwnKeyOrder(keys)) == multiset(keys)
    ensures OwnKeyOrder(keys) == SortIndices(IndexKeys(keys)) + NamedKeys(keys)
    ensures SortedIndices(SortIndices(IndexKeys(keys))) && NoIndices(NamedKeys(keys))
  {
    KeysSplit(keys);
    SortIndicesSorted(IndexKeys(keys));
  }

  lemma {:induction false} IndexKeysAppend(a: seq<string>, b: seq<string>)
    ensures IndexKeys(a + b) == IndexKeys(a) + IndexKeys(b)
  {
    if a == [] {
      assert a + b == b;
    } else {
      assert (a + b)[0] == a[0] && (a + b)[1..] == a[1..] + b;
      IndexKeysAppend(a[1..], b);
    }
  }

  lemma {:induction false} NamedKeysAppend(a: seq<string>, b: seq<string>)
    ensures NamedKeys(a + b) == NamedKeys(a) + NamedKeys(b)
  {
    if a == [] {
      assert a + b == b;
    } else {
      assert (a + b)[0] == a[0] && (a + b)[1..] == a[1..] + b;
      NamedKeysAppend(a[1..], b);
    }
  }

  lemma {:induction false} FilterAllIndices(a: seq<string>)
    requires AllIndices(a)
    ensures IndexKeys(a) == a && NamedKeys(a) == []
  {
    if a != [] {
      FilterAllIndices(a[1..]);
    }
  }

  lemma {:induction false} FilterNoIndices(b: seq<string>)
    requires NoIndices(b)
    ensures IndexKeys(b) == [] && NamedKeys(b) == b
  {
    if b != [] {
      FilterNoIndices(b[1..]);
    }
  }

  lemma {:induction false} SortSorted(s: seq<string>)
    requires SortedIndices(s)
    ensures SortIndices(s) == s
  {
    if s != [] {
      SortedTail(s);
      SortSorted(s[1..]);
    }
  }

  /** Copying an object key by key into a fresh object keeps its key order:
      listing the keys of the copy gives the same sequence again. */
  lemma OwnKeyOrderIdempotent(keys: seq<string>)
    ensures OwnKeyOrder(OwnKeyOrder(keys)) == OwnKeyOrder(keys)
  {
    var a := SortIndices(IndexKeys(keys));
    var b := NamedKeys(keys);
    IndexKeysAppend(a, b);
    NamedKeysAppend(a, b);
    FilterAllIndices(a);
    FilterNoIndices(b);
    SortIndicesSorted(IndexKeys(keys));
    SortSorted(a);
    assert [] + b == b && a + [] == a;
  }

  /** With no array-index key, `Object.keys` is plain insertion order. */
  lemma OwnKeyOrderWithoutIndices(keys: seq<string>)
    requires NoIndices(keys)
    ensures OwnKeyOrder(keys) == keys
  {
    FilterNoIndices(keys);
  }

  /** Example: keys inserted as "female", "2", "male", "1" are listed as "1", "2",
      "female", "male". */
  lemma OwnKeyOrderExample()
    ensures OwnKeyOrder(["female", "2", "male", "1"]) == ["1", "2", "female", "male"]
  {
    assert IsArrayIndex("2") && IsArrayIndex("1");
    assert !IsArrayIndex("female") && !IsArrayIndex("male");
    assert IndexKeys(["female", "2", "male", "1"]) == ["2", "1"];
    assert NamedKeys(["female", "2", "male", "1"]) == ["female", "male"];
    assert IndexValue("1") == 1 && IndexValue("2") == 2;
  }
}
