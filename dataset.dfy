/**
 * The engine's input: the rows the CSV parser produced with `header: true`.
 * Each row is a JavaScript object from column name to cell text; here it is the
 * list of its cells in the order the parser added them.
 */
module Dataset {
  import opened Wrappers
  import JsObject

  /** One cell of a parsed row: the column name and the raw cell text. */
  datatype Cell = Cell(name: string, value: string)

  /** A parsed row, its cells in header order. */
  type Row = seq<Cell>

  /** The column names of a row, in the order its cells were added. */
  function Names(row: Row): (r: seq<string>)
    ensures |r| == |row| && forall i :: 0 <= i < |row| ==> r[i] == row[i].name
  {
    seq(|row|, i requires 0 <= i < |row| => row[i].name)
  }

  /** `Object.keys(row)`: array-index names first in ascending order, then the others in header order. */
  function Keys(row: Row): seq<string>
  {
    JsObject.OwnKeyOrder(Names(row))
  }

  /** A JavaScript object has each key once. */
  predicate WellFormed(row: Row)
  {
    forall i, j :: 0 <= i < j < |row| ==> row[i].name != row[j].name
  }

  /** `row[name]`; `None` stands for `undefined` (a row without that column). */
  function Get(row: Row, name: string): (r: Option<string>)
    ensures r.None? <==> forall i :: 0 <= i < |row| ==> row[i].name != name
    ensures r.Some? ==> exists i :: 0 <= i < |row| && row[i] == Cell(name, r.value)
  {
    if row == [] then None
    else if row[0].name == name then Some(row[0].value)
    else
      var r := Get(row[1..], name);
      assert forall i :: 0 <= i < |row| - 1 ==> row[1..][i] == row[i + 1];
      r
  }

  /** In a well-formed row, looking up a cell's own column name finds that cell. */
  lemma {:induction false} GetCell(row: Row, i: nat)
    requires WellFormed(row) && i < |row|
    ensures Get(row, row[i].name) == Some(row[i].value)
  {
    if i > 0 {
      GetCell(row[1..], i - 1);
    }
  }
}
