/**
 * Categorical distributions (Gender, Race/Ethnicity): counting the non-empty
 * cells of a column into a dictionary, summing the counts, and turning each
 * count into a percentage rounded to one decimal.
 */
module Counting {
  import opened Wrappers
  import opened Text
  import opened Dataset
  import opened JsNumber
  import JsObject

  /** One category of a distribution and its percentage, in tenths (800 is "80.0"). */
  datatype Share = Share(category: string, tenths: nat)

  /** The cell a categorical count reads: `row[col]`, lower-cased for Gender. */
  function CellText(row: Row, col: string, lower: bool): (r: Option<string>)
    ensures r.None? <==> Get(row, col).None?
    ensures r.Some? ==> |r.value| == |Get(row, col).value| && (r.value == "" <==> Get(row, col).value == "")
    ensures lower && r.Some? ==> forall i :: 0 <= i < |r.value| ==> !IsUpper(r.value[i])
  {
    match Get(row, col)
    case None => None
    case Some(v) => LowerFacts(v); Some(if lower then Lower(v) else v)
  }

  /** The values that are counted, in row order: missing and empty cells are skipped. */
  function CountedValues(rows: seq<Row>, col: string, lower: bool): (vs: seq<string>)
    ensures forall i :: 0 <= i < |vs| ==> vs[i] != ""
    ensures |vs| <= |rows|
  {
    if rows == [] then []
    else
      var before := CountedValues(rows[..|rows| - 1], col, lower);
      match CellText(rows[|rows| - 1], col, lower)
      case Some(v) => if v != "" then before + [v] else before
      case None => before
  }

  /** A value is counted exactly when it is the non-empty cell text of some row. */
  lemma {:induction false} CountedValuesFromRows(rows: seq<Row>, col: string, lower: bool)
    ensures forall v :: v in CountedValues(rows, col, lower) <==>
              v != "" && exists i :: 0 <= i < |rows| && CellText(rows[i], col, lower) == Some(v)
  {
    if rows != [] {
      var init := rows[..|rows| - 1];
      CountedValuesFromRows(init, col, lower);
      assert forall i :: 0 <= i < |init| ==> init[i] == rows[i];
    }
  }

  /** A column whose cells are all missing or empty counts nothing. */
  lemma {:induction false} NothingCounted(rows: seq<Row>, col: string, lower: bool)
    requires forall i :: 0 <= i < |rows| ==> Get(rows[i], col) == None || Get(rows[i], col) == Some("")
    ensures CountedValues(rows, col, lower) == []
  {
    if rows != [] {
      NothingCounted(rows[..|rows| - 1], col, lower);
      assert Lower("") == "";
    }
  }

  /** Gender values are compared after lower-casing, Race/Ethnicity values as
      written: "Male" and "male" are one gender, "Asian" and "asian" two races. */
  lemma CaseHandling()
    ensures CellText([Cell("gender", "Male")], "gender", true) == CellText([Cell("gender", "male")], "gender", true)
    ensures CellText([Cell("race", "Asian")], "race", false) != CellText([Cell("race", "asian")], "race", false)
  {
    assert Lower("Male") == "male";
    assert Lower("male") == "male";
    assert "Asian"[0] != "asian"[0];
  }

  /** The Race/Ethnicity values: a value is counted exactly when it is the
      non-empty text of the column in some row, as written. */
  lemma RawValuesFromRows(rows: seq<Row>, col: string)
    ensures forall v :: v in CountedValues(rows, col, false) <==>
              v != "" && exists i :: 0 <= i < |rows| && Get(rows[i], col) == Some(v)
  {
    CountedValuesFromRows(rows, col, false);
    assert forall i :: 0 <= i < |rows| ==> CellText(rows[i], col, false) == Get(rows[i], col);
  }

  /** How many times `v` occurs in `vs`. */
  function Occurrences(vs: seq<string>, v: string): nat
  {
    if vs == [] then 0
    else Occurrences(vs[..|vs| - 1], v) + (if vs[|vs| - 1] == v then 1 else 0)
  }

  /** The dictionary `counts[value] = (counts[value] || 0) + 1` builds, value by value. */
  function Tally(vs: seq<string>): map<string, nat>
  {
    if vs == [] then map[]
    else
      var m := Tally(vs[..|vs| - 1]);
      var v := vs[|vs| - 1];
      m[v := (if v in m then m[v] else 0) + 1]
  }

  /** The dictionary's keys in insertion order: each value where it first occurs. */
  function Distinct(vs: seq<string>): seq<string>
  {
    if vs == [] then []
    else
      var d := Distinct(vs[..|vs| - 1]);
      if vs[|vs| - 1] in d then d else d + [vs[|vs| - 1]]
  }

  predicate NoDuplicates(s: seq<string>)
  {
    forall i, j :: 0 <= i < j < |s| ==> s[i] != s[j]
  }

  /** Every counted value is a key, every key is a counted value, and a key's
      count is the number of times it occurs. */
  lemma {:induction false} TallyCounts(vs: seq<string>)
    ensures forall v :: v in Tally(vs) <==> v in vs
    ensures forall v :: v in Tally(vs) ==> Tally(vs)[v] == Occurrences(vs, v) >= 1
    ensures forall v :: v !in vs ==> Occurrences(vs, v) == 0
  {
    if vs != [] {
      var init := vs[..|vs| - 1];
      TallyCounts(init);
      assert vs == init + [vs[|vs| - 1]];
      assert forall v :: v in vs <==> v in init || v == vs[|vs| - 1];
    }
  }

  /** The insertion order lists each counted value once, and nothing else. */
  lemma {:induction false} DistinctKeys(vs: seq<string>)
    ensures forall v :: v in Distinct(vs) <==> v in vs
    ensures NoDuplicates(Distinct(vs))
  {
    if vs != [] {
      var init := vs[..|vs| - 1];
      DistinctKeys(init);
      assert vs == init + [vs[|vs| - 1]];
      assert forall v :: v in vs <==> v in init || v == vs[|vs| - 1];
    }
  }

  /** The sum of the counts of `keys`. */
  function SumCounts(m: map<string, nat>, keys: seq<string>): nat
    requires forall k :: k in keys ==> k in m
  {
    if keys == [] then 0 else SumCounts(m, keys[..|keys| - 1]) + m[keys[|keys| - 1]]
  }

  lemma {:induction false} SumIgnores(m: map<string, nat>, keys: seq<string>, v: string, x: nat)
    requires forall k :: k in keys ==> k in m
    requires v !in keys
    ensures SumCounts(m[v := x], keys) == SumCounts(m, keys)
  {
    if keys != [] {
      SumIgnores(m, keys[..|keys| - 1], v, x);
    }
  }

  lemma {:induction false} SumIncrement(m: map<string, nat>, keys: seq<string>, v: string)
    requires forall k :: k in keys ==> k in m
    requires v in keys && NoDuplicates(keys)
    ensures SumCounts(m[v := m[v] + 1], keys) == SumCounts(m, keys) + 1
  {
    var init := keys[..|keys| - 1];
    var last := keys[|keys| - 1];
    assert keys == init + [last];
    if last == v {
      assert v !in init;
      SumIgnores(m, init, v, m[v] + 1);
    } else {
      assert v in init;
      SumIncrement(m, init, v);
    }
  }

  lemma {:induction false} SumAppend(m: map<string, nat>, a: seq<string>, b: seq<string>)
    requires forall k :: k in a + b ==> k in m
    ensures SumCounts(m, a + b) == SumCounts(m, a) + SumCounts(m, b)
    decreases |b|
  {
    if b == [] {
      assert a + b == a;
    } else {
      assert (a + b)[..|a + b| - 1] == a + b[..|b| - 1];
      SumAppend(m, a, b[..|b| - 1]);
    }
  }

  lemma RemoveAtMultiset(b: seq<string>, i: nat)
    requires i < |b|
    ensures multiset(b[..i] + b[i + 1..]) == multiset(b) - multiset{b[i]}
  {
    assert b == b[..i] + [b[i]] + b[i + 1..];
  }

  lemma RemoveAtSum(m: map<string, nat>, b: seq<string>, i: nat)
    requires i < |b| && forall k :: k in b ==> k in m
    ensures SumCounts(m, b) == SumCounts(m, b[..i] + b[i + 1..]) + m[b[i]]
  {
    assert b == b[..i] + [b[i]] + b[i + 1..];
    SumAppend(m, b[..i], b[i + 1..]);
    SumAppend(m, b[..i] + [b[i]], b[i + 1..]);
    SumAppend(m, b[..i], [b[i]]);
    assert SumCounts(m, [b[i]]) == m[b[i]] by {
      assert [b[i]][..0] == [];
    }
  }

  lemma SameElements(a: seq<string>, b: seq<string>)
    requires multiset(a) == multiset(b)
    ensures forall k :: k in b <==> k in a
  {
    assert forall k :: k in b <==> k in multiset(b);
    assert forall k :: k in a <==> k in multiset(a);
  }

  /** A sum of counts does not depend on the order of the keys. */
  lemma {:induction false} SumPermutation(m: map<string, nat>, a: seq<string>, b: seq<string>)
    requires forall k :: k in a ==> k in m
    requires multiset(a) == multiset(b)
    ensures forall k :: k in b ==> k in m
    ensures SumCounts(m, a) == SumCounts(m, b)
    decreases |a|
  {
    SameElements(a, b);
    if a != [] {
      var x := a[|a| - 1];
      var init := a[..|a| - 1];
      assert x in b;
      var i :| 0 <= i < |b| && b[i] == x;
      var rest := b[..i] + b[i + 1..];
      RemoveAtMultiset(b, i);
      RemoveLastMultiset(a);
      SameElements(init, rest);
      SumPermutation(m, init, rest);
      RemoveAtSum(m, b, i);
    }
  }

  lemma RemoveLastMultiset(a: seq<string>)
    requires a != []
    ensures multiset(a[..|a| - 1]) == multiset(a) - multiset{a[|a| - 1]}
    ensures forall k :: k in a[..|a| - 1] ==> k in a
  {
    assert a == a[..|a| - 1] + [a[|a| - 1]];
  }

  /** A value is a key of the counts exactly when it is in the insertion order. */
  lemma {:induction false} KeyIffListed(vs: seq<string>, v: string)
    ensures v in Tally(vs) <==> v in Distinct(vs)
  {
    if vs != [] {
      KeyIffListed(vs[..|vs| - 1], v);
    }
  }

  lemma {:induction false} ListedAreKeys(vs: seq<string>)
    ensures forall k :: k in Distinct(vs) ==> k in Tally(vs)
  {
    if vs != [] {
      ListedAreKeys(vs[..|vs| - 1]);
    }
  }

  lemma {:induction false} DistinctNoDuplicates(vs: seq<string>)
    ensures NoDuplicates(Distinct(vs))
  {
    if vs != [] {
      DistinctNoDuplicates(vs[..|vs| - 1]);
    }
  }

  /** `Object.values(counts).reduce((a, b) => a + b, 0)` with the keys in insertion order. */
  lemma {:induction false} TallySum(vs: seq<string>)
    ensures forall k :: k in Distinct(vs) ==> k in Tally(vs)
    ensures SumCounts(Tally(vs), Distinct(vs)) == |vs|
  {
    ListedAreKeys(vs);
    if vs != [] {
      var init := vs[..|vs| - 1];
      var v := vs[|vs| - 1];
      TallySum(init);
      KeyIffListed(init, v);
      DistinctNoDuplicates(init);
      var m := Tally(init);
      var d := Distinct(init);
      if v in d {
        SumIncrement(m, d, v);
      } else {
        SumIgnores(m, d, v, 1);
        assert (d + [v])[..|d|] == d;
      }
    }
  }

  /** The total the source divides by: the sum of the counts, taken in
      `Object.values` order, is the number of counted (non-empty) cells. */
  lemma TotalIsCountedCells(vs: seq<string>)
    ensures forall k :: k in JsObject.OwnKeyOrder(Distinct(vs)) ==> k in Tally(vs)
    ensures SumCounts(Tally(vs), JsObject.OwnKeyOrder(Distinct(vs))) == |vs|
  {
    TallySum(vs);
    JsObject.OwnKeyOrderShape(Distinct(vs));
    SumPermutation(Tally(vs), Distinct(vs), JsObject.OwnKeyOrder(Distinct(vs)));
  }

  /** Sums the counts of `keys`, like `reduce((a, b) => a + b, 0)`. */
  method SumValues(counts: map<string, nat>, keys: seq<string>) returns (total: nat)
    requires forall k :: k in keys ==> k in counts
    ensures total == SumCounts(counts, keys)
  {
    total := 0;
    for i := 0 to |keys|
      invariant total == SumCounts(counts, keys[..i])
    {
      assert keys[..i + 1][..i] == keys[..i];
      total := total + counts[keys[i]];
    }
    assert keys[..|keys|] == keys;
  }

  lemma CountedStep(rows: seq<Row>, i: nat, col: string, lower: bool)
    requires i < |rows|
    ensures CountedValues(rows[..i + 1], col, lower) ==
              var c := CellText(rows[i], col, lower);
              if c.Some? && c.value != "" then CountedValues(rows[..i], col, lower) + [c.value]
              else CountedValues(rows[..i], col, lower)
  {
    assert rows[..i + 1][..i] == rows[..i];
  }

  lemma TallyStep(vs: seq<string>, v: string)
    ensures Tally(vs + [v]) == Tally(vs)[v := (if v in Tally(vs) then Tally(vs)[v] else 0) + 1]
    ensures Distinct(vs + [v]) == if v in Tally(vs) then Distinct(vs) else Distinct(vs) + [v]
  {
    assert (vs + [v])[..|vs|] == vs;
    KeyIffListed(vs, v);
  }

  /** The counting loop: visits every row, skips a missing or empty cell, and
      adds one to the count of the (lower-cased, for Gender) value, recording the
      order in which keys first appear. */
  method CountCategories(rows: seq<Row>, col: string, lower: bool) returns (counts: map<string, nat>, order: seq<string>)
    ensures counts == Tally(CountedValues(rows, col, lower))
    ensures order == Distinct(CountedValues(rows, col, lower))
  {
    counts := map[];
    order := [];
    for i := 0 to |rows|
      invariant counts == Tally(CountedValues(rows[..i], col, lower))
      invariant order == Distinct(CountedValues(rows[..i], col, lower))
    {
      CountedStep(rows, i, col, lower);
      var value := CellText(rows[i], col, lower);
      if value.Some? && value.value != "" {
        var v := value.value;
        TallyStep(CountedValues(rows[..i], col, lower), v);
        if v !in counts {
          order := order + [v];
        }
        counts := counts[v := (if v in counts then counts[v] else 0) + 1];
      }
    }
    assert rows[..|rows|] == rows;
  }
}
