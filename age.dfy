/**
 * The numeric (Age) distribution: the cells that `parseInt` accepts, and their
 * minimum, maximum, sum and count.
 */
module AgeStats {
  import opened Wrappers
  import opened Dataset
  import opened JsNumber

  /** `parseInt(row[col])`; a missing cell is `parseInt(undefined)`, which is NaN. */
  function ParseCell(row: Row, col: string): Option<int>
  {
    match Get(row, col)
    case None => None
    case Some(v) => ParseInt(v)
  }

  /** `data.map(row => parseInt(row[col])).filter(age => !isNaN(age))`. */
  function ParsedAges(rows: seq<Row>, col: string): (ages: seq<int>)
    ensures |ages| <= |rows|
  {
    if rows == [] then []
    else
      match ParseCell(rows[0], col)
      case None => ParsedAges(rows[1..], col)
      case Some(a) => [a] + ParsedAges(rows[1..], col)
  }

  /** `Math.min(...xs)` of a non-empty list. */
  function MinOf(xs: seq<int>): (m: int)
    requires xs != []
    ensures m in xs && forall i :: 0 <= i < |xs| ==> m <= xs[i]
  {
    if |xs| == 1 then xs[0]
    else
      var rest := MinOf(xs[1..]);
      assert forall i :: 1 <= i < |xs| ==> xs[i] == xs[1..][i - 1];
      if xs[0] <= rest then xs[0] else rest
  }

  /** `Math.max(...xs)` of a non-empty list. */
  function MaxOf(xs: seq<int>): (m: int)
    requires xs != []
    ensures m in xs && forall i :: 0 <= i < |xs| ==> xs[i] <= m
  {
    if |xs| == 1 then xs[0]
    else
      var rest := MaxOf(xs[1..]);
      assert forall i :: 1 <= i < |xs| ==> xs[i] == xs[1..][i - 1];
      if xs[0] >= rest then xs[0] else rest
  }

  /** `xs.reduce((a, b) => a + b, 0)`. */
  function SumOf(xs: seq<int>): int
  {
    if xs == [] then 0 else xs[0] + SumOf(xs[1..])
  }

  /** The Age distribution.  `NoSample` is the case where no cell parses: the
      source then has `Math.min()` = Infinity, `Math.max()` = -Infinity and a
      range of -Infinity. */
  datatype AgeSummary =
    | NoSample
    | Sample(min: int, max: int, sum: int, count: nat)
  {
    /** `maxAge - minAge` of a sample. */
    function Range(): int
      requires Sample?
    {
      max - min
    }
  }

  /** The statistics of the parsed ages: there are some exactly when some
      cell parsed; then the minimum and maximum are ages of the sample that
      bound all of them, so the range is never negative, and the count is the
      size of the sample. */
  function Summarize(ages: seq<int>): (r: AgeSummary)
    ensures r.NoSample? <==> ages == []
    ensures r.Sample? ==>
              && r.min in ages && r.max in ages
              && (forall i :: 0 <= i < |ages| ==> r.min <= ages[i] <= r.max)
              && r.min <= r.max && r.Range() >= 0
              && r.count == |ages|
  {
    if ages == [] then NoSample else Sample(MinOf(ages), MaxOf(ages), SumOf(ages), |ages|)
  }

  /** Ages 25, 25, 25 and 26 span one year; 18 and 75 span 57. */
  lemma SummaryExamples()
    ensures Summarize([25, 25, 25, 26]) == Sample(25, 26, 101, 4) && Summarize([25, 25, 25, 26]).Range() == 1
    ensures Summarize([18, 75]) == Sample(18, 75, 93, 2) && Summarize([18, 75]).Range() == 57
  {
    assert [25, 25, 25, 26][1..] == [25, 25, 26];
    assert [25, 25, 26][1..] == [25, 26];
    assert [25, 26][1..] == [26];
    assert [18, 75][1..] == [75];
  }

  /** Every age in the sample comes from a row whose cell parses to it. */
  lemma {:induction false} ParsedAgesSound(rows: seq<Row>, col: string)
    ensures forall a :: a in ParsedAges(rows, col) ==> exists i :: 0 <= i < |rows| && ParseCell(rows[i], col) == Some(a)
  {
    if rows != [] {
      ParsedAgesSound(rows[1..], col);
      assert forall i :: 0 <= i < |rows| - 1 ==> rows[1..][i] == rows[i + 1];
    }
  }

  /** Every row whose cell parses contributes its age to the sample. */
  lemma ParsedAgesComplete(rows: seq<Row>, col: string)
    ensures forall i :: 0 <= i < |rows| && ParseCell(rows[i], col).Some? ==> ParseCell(rows[i], col).value in ParsedAges(rows, col)
  {
    forall i | 0 <= i < |rows| && ParseCell(rows[i], col).Some?
      ensures ParseCell(rows[i], col).value in ParsedAges(rows, col)
    {
      ParsedAgeAt(rows, col, i);
    }
  }

  /** The age of row `i`, when its cell parses, is in the sample. */
  lemma {:induction false} ParsedAgeAt(rows: seq<Row>, col: string, i: nat)
    requires i < |rows| && ParseCell(rows[i], col).Some?
    ensures ParseCell(rows[i], col).value in ParsedAges(rows, col)
    decreases i
  {
    ParsedAgesCons(rows, col);
    if i > 0 {
      assert rows[i] == rows[1..][i - 1];
      ParsedAgeAt(rows[1..], col, i - 1);
    }
  }

  /** The sample of a non-empty dataset holds the sample of its tail, and the
      age of its first row when that cell parses. */
  lemma ParsedAgesCons(rows: seq<Row>, col: string)
    requires rows != []
    ensures forall a :: a in ParsedAges(rows[1..], col) ==> a in ParsedAges(rows, col)
    ensures ParseCell(rows[0], col).Some? ==> ParseCell(rows[0], col).value in ParsedAges(rows, col)
  {
  }

  /** The sample holds exactly the ages of the cells that parse; it is empty
      exactly when no cell parses. */
  lemma ParsedAgesFromRows(rows: seq<Row>, col: string)
    ensures forall a :: a in ParsedAges(rows, col) ==> exists i :: 0 <= i < |rows| && ParseCell(rows[i], col) == Some(a)
    ensures forall i :: 0 <= i < |rows| && ParseCell(rows[i], col).Some? ==> ParseCell(rows[i], col).value in ParsedAges(rows, col)
    ensures ParsedAges(rows, col) == [] <==> forall i :: 0 <= i < |rows| ==> ParseCell(rows[i], col).None?
  {
    ParsedAgesSound(rows, col);
    ParsedAgesComplete(rows, col);
    var ages := ParsedAges(rows, col);
    if ages != [] {
      assert ages[0] in ages;
    }
  }
}
