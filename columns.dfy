/**
 * Column lookup: for each protected attribute, the first key of the first row
 * whose lower-cased name contains one of the attribute's keywords.
 */
module Columns {
  import opened Wrappers
  import opened Text
  import opened Dataset
  import JsObject

  const GenderKeywords: seq<string> := ["gender", "sex"]
  const AgeKeywords: seq<string> := ["age"]
  const RaceKeywords: seq<string> := ["race", "ethnicity"]

  /** `key.toLowerCase().includes(kw)` for some keyword `kw`: some keyword
      occurs in the lower-cased key, so the key is at least as long as it. */
  predicate MatchesKeyword(key: string, keywords: seq<string>)
    ensures MatchesKeyword(key, keywords) ==>
              exists j, i :: 0 <= j < |keywords| && OccursAt(Lower(key), keywords[j], i) && |keywords[j]| <= |key|
  {
    exists j :: 0 <= j < |keywords| && Contains(Lower(key), keywords[j])
  }

  /** `keys.find(...)`: the first key that matches a keyword. */
  function FirstMatching(keys: seq<string>, keywords: seq<string>): (r: Option<string>)
    ensures r.Some? ==> exists i :: 0 <= i < |keys| && keys[i] == r.value && MatchesKeyword(keys[i], keywords)
                                  && forall j :: 0 <= j < i ==> !MatchesKeyword(keys[j], keywords)
    ensures r.None? ==> forall i :: 0 <= i < |keys| ==> !MatchesKeyword(keys[i], keywords)
  {
    if keys == [] then None
    else if MatchesKeyword(keys[0], keywords) then Some(keys[0])
    else
      var r := FirstMatching(keys[1..], keywords);
      assert forall i :: 0 <= i < |keys| - 1 ==> keys[1..][i] == keys[i + 1];
      r
  }

  /** `data[0] && Object.keys(data[0]).find(...)`: the first header key, in
      `Object.keys` order, whose lower-cased name contains a keyword; there is
      none exactly when no key matches, which is always the case for a
      dataset without rows. */
  function FindColumn(data: seq<Row>, keywords: seq<string>): (r: Option<string>)
    ensures r.None? <==> |data| == 0 || forall i :: 0 <= i < |Keys(data[0])| ==> !MatchesKeyword(Keys(data[0])[i], keywords)
    ensures r.Some? ==>
              var keys := Keys(data[0]);
              exists i :: 0 <= i < |keys| && keys[i] == r.value
                          && MatchesKeyword(keys[i], keywords)
                          && forall j :: 0 <= j < i ==> !MatchesKeyword(keys[j], keywords)
  {
    if |data| == 0 then None else FirstMatching(Keys(data[0]), keywords)
  }

  /** Every keyword starts with a letter. */
  predicate LetterKeywords(keywords: seq<string>)
  {
    forall j :: 0 <= j < |keywords| ==> |keywords[j]| > 0 && !IsDigit(keywords[j][0])
  }

  lemma KeywordTables()
    ensures LetterKeywords(GenderKeywords) && LetterKeywords(AgeKeywords) && LetterKeywords(RaceKeywords)
  {
  }

  /** A name made only of digits matches no keyword that starts with a letter. */
  lemma DigitsMatchNothing(key: string, keywords: seq<string>)
    requires AllDigits(key) && LetterKeywords(keywords)
    ensures !MatchesKeyword(key, keywords)
  {
    var low := Lower(key);
    forall j | 0 <= j < |keywords|
      ensures !Contains(low, keywords[j])
    {
      forall i | OccursAt(low, keywords[j], i)
        ensures false
      {
      }
    }
  }

  lemma {:induction false} FirstMatchingSkips(a: seq<string>, b: seq<string>, keywords: seq<string>)
    requires forall i :: 0 <= i < |a| ==> !MatchesKeyword(a[i], keywords)
    ensures FirstMatching(a + b, keywords) == FirstMatching(b, keywords)
  {
    if a == [] {
      assert a + b == b;
    } else {
      assert (a + b)[0] == a[0] && (a + b)[1..] == a[1..] + b;
      FirstMatchingSkips(a[1..], b, keywords);
    }
  }

  lemma {:induction false} FirstMatchingNamed(keys: seq<string>, keywords: seq<string>)
    requires LetterKeywords(keywords)
    ensures FirstMatching(JsObject.NamedKeys(keys), keywords) == FirstMatching(keys, keywords)
  {
    if keys != [] {
      FirstMatchingNamed(keys[1..], keywords);
      if JsObject.IsArrayIndex(keys[0]) {
        DigitsMatchNothing(keys[0], keywords);
      }
    }
  }

  /** Listing array-index column names first (as `Object.keys` does) never
      changes the chosen column: such names are all digits and match no
      keyword, so the first match in header order is chosen. */
  lemma ColumnInHeaderOrder(data: seq<Row>, keywords: seq<string>)
    requires |data| > 0 && LetterKeywords(keywords)
    ensures FindColumn(data, keywords) == FirstMatching(Names(data[0]), keywords)
  {
    var names := Names(data[0]);
    var front := JsObject.SortIndices(JsObject.IndexKeys(names));
    forall i | 0 <= i < |front|
      ensures !MatchesKeyword(front[i], keywords)
    {
      DigitsMatchNothing(front[i], keywords);
    }
    FirstMatchingSkips(front, JsObject.NamedKeys(names), keywords);
    FirstMatchingNamed(names, keywords);
  }

  /** The keyword test is a substring test: "Sex" and "Applicant_Gender" are
      Gender columns, and so is "Essex_branch"; "Language" and "Page" are Age
      columns. */
  lemma SubstringMatches()
    ensures MatchesKeyword("Sex", GenderKeywords)
    ensures MatchesKeyword("Essex_branch", GenderKeywords)
    ensures MatchesKeyword("Language", AgeKeywords)
  {
    assert Lower("Sex") == "sex";
    assert OccursAt(Lower("Sex"), GenderKeywords[1], 0);
    assert Lower("Essex_branch") == "essex_branch";
    assert OccursAt(Lower("Essex_branch"), GenderKeywords[1], 2);
    assert Lower("Language") == "language";
    assert OccursAt(Lower("Language"), AgeKeywords[0], 5);
  }

  /** "Name" contains neither "gender" nor "sex". */
  lemma NameIsNotGender()
    ensures !MatchesKeyword("Name", GenderKeywords)
  {
    var name := Lower("Name");
    assert name == "name";
    assert name[0..3][0] == 'n' && name[1..4][0] == 'a';
    assert !OccursAt(name, "sex", 0) && !OccursAt(name, "sex", 1);
  }
}
