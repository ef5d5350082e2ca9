/**
 * A worked Gender example from rows to finding: five rows whose `gender`
 * cells are "male", "Male", "male", "MALE" and "female" count as four
 * "male" and one "female", that is 80.0% and 20.0%, which is High risk.
 */
module BiasExamples {
  import opened Wrappers
  import opened Text
  import opened JsNumber
  import opened Dataset
  import opened Columns
  import opened Counting
  import opened Shares
  import opened Risk
  import opened BiasReport
  import JsObject

  const MixedCaseRows: seq<Row> :=
    [[Cell("gender", "male")], [Cell("gender", "Male")], [Cell("gender", "male")], [Cell("gender", "MALE")], [Cell("gender", "female")]]

  const MixedCaseValues: seq<string> := ["male", "male", "male", "male", "female"]

  /** The only header, "gender", is the Gender column. */
  lemma MixedCaseColumn()
    ensures FindColumn(MixedCaseRows, GenderKeywords) == Some("gender")
  {
    var names := Names(MixedCaseRows[0]);
    assert names == ["gender"];
    assert !JsObject.IsArrayIndex("gender");
    JsObject.OwnKeyOrderWithoutIndices(names);
    assert Lower("gender") == "gender";
    assert OccursAt(Lower("gender"), GenderKeywords[0], 0);
    assert MatchesKeyword("gender", GenderKeywords);
  }

  /** The cells are lower-cased before they are counted. */
  lemma MixedCaseCounted()
    ensures CountedValues(MixedCaseRows, "gender", true) == MixedCaseValues
  {
    var rows := MixedCaseRows;
    assert Lower("Male") == "male" && Lower("MALE") == "male";
    assert Lower("male") == "male" && Lower("female") == "female";
    assert rows[..1][..0] == [];
    assert rows[..2][..1] == rows[..1];
    assert rows[..3][..2] == rows[..2];
    assert rows[..4][..3] == rows[..3];
    assert rows[..5] == rows && rows[..5][..4] == rows[..4];
    assert CountedValues(rows[..1], "gender", true) == ["male"];
    assert CountedValues(rows[..2], "gender", true) == ["male", "male"];
    assert CountedValues(rows[..3], "gender", true) == ["male", "male", "male"];
    assert CountedValues(rows[..4], "gender", true) == ["male", "male", "male", "male"];
  }

  /** Four "male" and one "female" in five counted cells. */
  lemma MixedCaseCounts()
    ensures Distinct(MixedCaseValues) == ["male", "female"]
    ensures Occurrences(MixedCaseValues, "male") == 4 && Occurrences(MixedCaseValues, "female") == 1
  {
    var m1: seq<string> := ["male"];
    var m2 := m1 + ["male"];
    var m3 := m2 + ["male"];
    var m4 := m3 + ["male"];
    var vs := m4 + ["female"];
    assert vs == MixedCaseValues;
    assert m1[..0] == [] && m2[..1] == m1 && m3[..2] == m2 && m4[..3] == m3 && vs[..4] == m4;
    assert Distinct(m1) == ["male"];
    assert Distinct(m2) == ["male"];
    assert Distinct(m3) == ["male"];
    assert Distinct(m4) == ["male"];
    assert Occurrences(m1, "male") == 1 && Occurrences(m1, "female") == 0;
    assert Occurrences(m2, "male") == 2 && Occurrences(m2, "female") == 0;
    assert Occurrences(m3, "male") == 3 && Occurrences(m3, "female") == 0;
    assert Occurrences(m4, "male") == 4 && Occurrences(m4, "female") == 0;
  }

  /** The two values are the object's keys, in the order they first occur. */
  lemma MixedCaseKeys()
    ensures JsObject.OwnKeyOrder(Distinct(MixedCaseValues)) == ["male", "female"]
  {
    MixedCaseCounts();
    assert !JsObject.IsArrayIndex("male") && !JsObject.IsArrayIndex("female");
    JsObject.OwnKeyOrderWithoutIndices(["male", "female"]);
  }

  /** Their distribution in `Object.keys` order: 80.0% "male", 20.0% "female". */
  lemma MixedCaseDistribution()
    ensures DistributionOf(MixedCaseValues) == [Share("male", 800), Share("female", 200)]
  {
    var vs := MixedCaseValues;
    var d := DistributionOf(vs);
    DistributionAt(vs);
    MixedCaseCounts();
    MixedCaseKeys();
    assert |d| == 2 && d[0].category == "male" && d[1].category == "female";
    assert PercentTenths(4, 5) == 800 && PercentTenths(1, 5) == 200;
    assert d[0].tenths == 800 && d[1].tenths == 200;
  }

  /** The finding for these rows: 80.0% "male" is above 75.0%, so High. */
  lemma MixedCaseFinding()
    ensures GenderFinding(MixedCaseRows).Some?
    ensures GenderFinding(MixedCaseRows).value.distribution == Categorical([Share("male", 800), Share("female", 200)])
    ensures GenderFinding(MixedCaseRows).value.risk == High
  {
    MixedCaseColumn();
    GenderFindingIs(MixedCaseRows, "gender");
    MixedCaseCounted();
    MixedCaseDistribution();
    GenderExampleHigh();
  }
}
