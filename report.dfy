/**
 * The bias report of a parsed dataset (`analyzeDataBias`) and the dispatch on
 * the file type (`detectBias`).  A report holds one finding per attribute
 * whose column was found, in the order Gender, Age, Race/Ethnicity, and an
 * overall risk that is the worst tier among the findings.
 */
module BiasReport {
  import opened Wrappers
  import opened Text
  import opened JsNumber
  import opened Dataset
  import opened Columns
  import opened Counting
  import opened Shares
  import opened AgeStats
  import opened Risk
  import JsObject
  import Json

  /** The `type` of a finding. */
  datatype Attribute = Gender | Age | RaceEthnicity | ImageAnalysis

  function TypeName(a: Attribute): string
  {
    match a
    case Gender => "Gender"
    case Age => "Age"
    case RaceEthnicity => "Race/Ethnicity"
    case ImageAnalysis => "Image Analysis"
  }

  /** The `distribution` of a finding: category percentages, the age
      statistics, or the image placeholder `{ analyzed: true }`. */
  datatype Distribution =
    | Categorical(shares: seq<Share>)
    | Numeric(summary: AgeSummary)
    | ImagePlaceholder

  datatype Finding = Finding(attribute: Attribute, distribution: Distribution, risk: Tier, recommendation: string)

  datatype Report = Report(biases: seq<Finding>, overallRisk: Tier, totalRows: nat, columnsAnalyzed: nat, timestamp: string)

  const GenderAlert := "Resample to achieve 50/50 balance. Current: "
  const GenderBalanced := "Distribution is balanced"
  const AgeAlert := "Expand age range. Current range: "
  const AgeDiverse := "Age distribution is diverse"
  const RaceAlert := "Increase diversity. Current: "
  const RaceBalanced := "Racial distribution is balanced"
  const ImageNote := "Image bias detection requires ML model integration"

  predicate StartsWith(s: string, prefix: string)
  {
    |prefix| <= |s| && s[..|prefix|] == prefix
  }

  /** The members of the distribution object: each category with its
      percentage as `toFixed(1)` writes it. */
  function Pairs(dist: seq<Share>): (r: seq<(string, string)>)
    ensures |r| == |dist|
    ensures forall i :: 0 <= i < |dist| ==> r[i].0 == dist[i].category && ParseFixed1(r[i].1) == Some(dist[i].tenths)
  {
    forall i | 0 <= i < |dist| {
      Fixed1RoundTrip(dist[i].tenths);
    }
    seq(|dist|, i requires 0 <= i < |dist| => (dist[i].category, Fixed1(dist[i].tenths)))
  }

  /** The recommendation of a categorical finding: the balanced text when the
      risk is Low, otherwise the alert followed by `JSON.stringify` of the
      distribution. */
  function CategoricalAdvice(risk: Tier, dist: seq<Share>, alert: string, balanced: string): string
  {
    if risk != Low then alert + Json.StringifyObject(Pairs(dist)) else balanced
  }

  /** A finding for a categorical attribute, rated by its largest percentage. */
  function CategoricalFinding(attr: Attribute, dist: seq<Share>, th: ShareThresholds, alert: string, balanced: string): (f: Finding)
    ensures f.attribute == attr && f.distribution == Categorical(dist)
    ensures th.medium <= th.high ==> (f.risk == High <==> exists i :: 0 <= i < |dist| && dist[i].tenths > th.high)
    ensures f.risk != Low ==> StartsWith(f.recommendation, alert)
    ensures |alert| > 0 && |balanced| > 0 && alert[0] != balanced[0] ==> (f.risk == Low <==> f.recommendation == balanced)
  {
    var risk := ShareTier(MaxTenths(dist), th);
    AlertSplit(alert, Json.StringifyObject(Pairs(dist)));
    Finding(attr, Categorical(dist), risk, CategoricalAdvice(risk, dist, alert, balanced))
  }

  /** `${minAge}` and `${maxAge}`; with no parsed age these are `Math.min()`
      and `Math.max()`, written "Infinity" and "-Infinity". */
  function MinText(s: AgeSummary): string
  {
    match s
    case NoSample => "Infinity"
    case Sample(min, _, _, _) => IntToString(min)
  }

  function MaxText(s: AgeSummary): string
  {
    match s
    case NoSample => "-Infinity"
    case Sample(_, max, _, _) => IntToString(max)
  }

  /** The Age finding, rated by the width of the age range. */
  function AgeFindingOf(s: AgeSummary): (f: Finding)
    ensures f.attribute == Age && f.distribution == Numeric(s)
    ensures f.risk == Low <==> s.Sample? && s.Range() >= 40
    ensures f.risk == Low <==> f.recommendation == AgeDiverse
    ensures f.risk != Low ==> StartsWith(f.recommendation, AgeAlert)
  {
    var risk := AgeTier(s, AgeThresholds);
    AlertSplit(AgeAlert, MinText(s) + ("-" + (MaxText(s) + " years")));
    AdviceTextsDiffer();
    var advice := if risk != Low then AgeAlert + (MinText(s) + ("-" + (MaxText(s) + " years"))) else AgeDiverse;
    Finding(Age, Numeric(s), risk, advice)
  }

  function GenderFinding(data: seq<Row>): Option<Finding>
  {
    match FindColumn(data, GenderKeywords)
    case None => None
    case Some(col) =>
      Some(CategoricalFinding(Gender, DistributionOf(CountedValues(data, col, true)), GenderThresholds, GenderAlert, GenderBalanced))
  }

  function AgeFinding(data: seq<Row>): Option<Finding>
  {
    match FindColumn(data, AgeKeywords)
    case None => None
    case Some(col) => Some(AgeFindingOf(Summarize(ParsedAges(data, col))))
  }

  function RaceFinding(data: seq<Row>): Option<Finding>
  {
    match FindColumn(data, RaceKeywords)
    case None => None
    case Some(col) =>
      Some(CategoricalFinding(RaceEthnicity, DistributionOf(CountedValues(data, col, false)), RaceThresholds, RaceAlert, RaceBalanced))
  }

  function Present(f: Option<Finding>): seq<Finding>
  {
    match f
    case None => []
    case Some(x) => [x]
  }

  /** The findings, in the order the attributes are examined. */
  function Findings(data: seq<Row>): (r: seq<Finding>)
    ensures |r| <= 3
  {
    Present(GenderFinding(data)) + Present(AgeFinding(data)) + Present(RaceFinding(data))
  }

  /** `detectedBiases.filter(b => b.riskLevel === t).length`. */
  function CountRisk(fs: seq<Finding>, t: Tier): (n: nat)
    ensures n <= |fs|
  {
    if fs == [] then 0 else (if fs[0].risk == t then 1 else 0) + CountRisk(fs[1..], t)
  }

  function OverallRisk(fs: seq<Finding>): (r: Tier)
    ensures forall i :: 0 <= i < |fs| ==> Rank(fs[i].risk) <= Rank(r)
    ensures fs != [] ==> exists i :: 0 <= i < |fs| && fs[i].risk == r
    ensures fs == [] ==> r == Low
  {
    CountRiskPositive(fs, High);
    CountRiskPositive(fs, Medium);
    if CountRisk(fs, High) > 0 then High
    else if CountRisk(fs, Medium) > 0 then Medium
    else Low
  }

  /** The report of a dataset; the timestamp is supplied by the caller. */
  function Analyze(data: seq<Row>, timestamp: string): Report
  {
    var fs := Findings(data);
    Report(fs, OverallRisk(fs), |data|, |fs|, timestamp)
  }

  /** The report of an image: one Image Analysis finding of Medium risk, so
      the report is consistent and its overall risk is Medium. */
  function ImageReport(timestamp: string): (r: Report)
    ensures Consistent(r) && r.overallRisk == Medium && r.timestamp == timestamp
    ensures |r.biases| == 1 && r.biases[0].attribute == ImageAnalysis
  {
    var fs := [Finding(ImageAnalysis, ImagePlaceholder, Medium, ImageNote)];
    assert fs[1..] == [];
    assert CountRisk(fs, High) == 0 && CountRisk(fs, Medium) == 1;
    Report(fs, Medium, 1, 1, timestamp)
  }

  /** A report whose overall risk is the worst of its findings and whose
      column count is its number of findings. */
  predicate Consistent(r: Report)
  {
    r.overallRisk == OverallRisk(r.biases) && r.columnsAnalyzed == |r.biases|
  }

  /** `detectBias`: a CSV file is analysed from its parsed rows, an image gets
      the placeholder report, and every other file type is an error. */
  function DetectBias(fileType: string, rows: seq<Row>, timestamp: string): (r: Result<Report, string>)
    ensures r.Failure? <==> fileType != "csv" && fileType != "image"
    ensures r.Failure? ==> r.error == "Unsupported file type"
    ensures fileType == "csv" ==> r.Success? && r.value.totalRows == |rows| && r.value.biases == Findings(rows)
    ensures fileType == "image" ==> r.Success? && r.value.totalRows == 1 && |r.value.biases| == 1 && r.value.biases[0].attribute == ImageAnalysis
    ensures r.Success? ==> Consistent(r.value) && r.value.timestamp == timestamp
  {
    if fileType == "csv" then
      AnalyzeConsistent(rows, timestamp);
      Success(Analyze(rows, timestamp))
    else if fileType == "image" then
      Success(ImageReport(timestamp))
    else Failure("Unsupported file type")
  }

  /** Counts a categorical column and turns the counts into percentages: the
      counting `forEach`, the `reduce` to the total and the key-by-key filling
      of the distribution object. */
  method CategoricalDistribution(data: seq<Row>, col: string, lower: bool) returns (dist: seq<Share>)
    ensures dist == DistributionOf(CountedValues(data, col, lower))
  {
    ghost var vs := CountedValues(data, col, lower);
    var counts, order := CountCategories(data, col, lower);
    var keys := JsObject.OwnKeyOrder(order);
    TotalIsCountedCells(vs);
    KeysOfValues(vs);
    var total := SumValues(counts, keys);
    if keys != [] {
      assert keys[0] in vs;
    }
    dist := Percentages(counts, keys, total);
  }

  /** `analyzeDataBias`: the findings are pushed attribute by attribute and
      the overall risk is set by the two counts. */
  method AnalyzeDataBias(data: seq<Row>, timestamp: string) returns (report: Report)
    ensures report == Analyze(data, timestamp)
  {
    var detected: seq<Finding> := [];
    var genderCol := FindColumn(data, GenderKeywords);
    if genderCol.Some? {
      var dist := CategoricalDistribution(data, genderCol.value, true);
      GenderFindingIs(data, genderCol.value);
      detected := detected + [CategoricalFinding(Gender, dist, GenderThresholds, GenderAlert, GenderBalanced)];
    }
    assert detected == Present(GenderFinding(data));
    var ageCol := FindColumn(data, AgeKeywords);
    if ageCol.Some? {
      var summary := Summarize(ParsedAges(data, ageCol.value));
      AgeFindingIs(data, ageCol.value);
      detected := detected + [AgeFindingOf(summary)];
    }
    assert detected == Present(GenderFinding(data)) + Present(AgeFinding(data));
    var raceCol := FindColumn(data, RaceKeywords);
    if raceCol.Some? {
      var dist := CategoricalDistribution(data, raceCol.value, false);
      RaceFindingIs(data, raceCol.value);
      detected := detected + [CategoricalFinding(RaceEthnicity, dist, RaceThresholds, RaceAlert, RaceBalanced)];
    }
    assert detected == Findings(data);
    var overall := RiskOfFindings(detected);
    report := Report(detected, overall, |data|, |detected|, timestamp);
  }

  /** The overall risk: High when a finding is High, else Medium when one is
      Medium, else Low. */
  method RiskOfFindings(detected: seq<Finding>) returns (overall: Tier)
    ensures overall == OverallRisk(detected)
  {
    var highCount := CountRisk(detected, High);
    var mediumCount := CountRisk(detected, Medium);
    overall := Low;
    if highCount > 0 {
      overall := High;
    } else if mediumCount > 0 {
      overall := Medium;
    }
  }

  /** Some finding has tier `t` exactly when the filter for `t` is not empty. */
  lemma {:induction false} CountRiskPositive(fs: seq<Finding>, t: Tier)
    ensures CountRisk(fs, t) > 0 <==> exists i :: 0 <= i < |fs| && fs[i].risk == t
  {
    if fs != [] {
      CountRiskPositive(fs[1..], t);
      assert forall i :: 1 <= i < |fs| ==> fs[i] == fs[1..][i - 1];
      assert forall i :: 0 <= i < |fs| - 1 ==> fs[1..][i] == fs[i + 1];
    }
  }

  /** The overall risk is the worst tier of the findings: High exactly when
      some finding is High, Medium exactly when none is High and some is
      Medium, and Low otherwise, in particular when there is no finding. */
  lemma OverallRiskIsWorst(fs: seq<Finding>)
    ensures OverallRisk(fs) == High <==> exists i :: 0 <= i < |fs| && fs[i].risk == High
    ensures OverallRisk(fs) == Medium <==>
              (forall i :: 0 <= i < |fs| ==> fs[i].risk != High) && exists i :: 0 <= i < |fs| && fs[i].risk == Medium
    ensures OverallRisk(fs) == Low <==> forall i :: 0 <= i < |fs| ==> fs[i].risk == Low
    ensures forall i :: 0 <= i < |fs| ==> Rank(fs[i].risk) <= Rank(OverallRisk(fs))
    ensures fs == [] ==> OverallRisk(fs) == Low
  {
    CountRiskPositive(fs, High);
    CountRiskPositive(fs, Medium);
  }

  /** The order in which attributes are examined. */
  function Position(a: Attribute): nat
  {
    match a
    case Gender => 0
    case Age => 1
    case RaceEthnicity => 2
    case ImageAnalysis => 3
  }

  /** Each step contributes at most one finding, of its own attribute, and
      does so exactly when its column is found. */
  lemma StepsContribute(data: seq<Row>)
    ensures var g := Present(GenderFinding(data));
            |g| <= 1 && (g != [] <==> FindColumn(data, GenderKeywords).Some?) && forall x :: x in g ==> x.attribute == Gender
    ensures var a := Present(AgeFinding(data));
            |a| <= 1 && (a != [] <==> FindColumn(data, AgeKeywords).Some?) && forall x :: x in a ==> x.attribute == Age
    ensures var c := Present(RaceFinding(data));
            |c| <= 1 && (c != [] <==> FindColumn(data, RaceKeywords).Some?) && forall x :: x in c ==> x.attribute == RaceEthnicity
  {
    GenderStep(data);
    AgeStep(data);
    RaceStep(data);
  }

  lemma GenderStep(data: seq<Row>)
    ensures var g := Present(GenderFinding(data));
            |g| <= 1 && (g != [] <==> FindColumn(data, GenderKeywords).Some?) && forall x :: x in g ==> x.attribute == Gender
  {
  }

  lemma AgeStep(data: seq<Row>)
    ensures var a := Present(AgeFinding(data));
            |a| <= 1 && (a != [] <==> FindColumn(data, AgeKeywords).Some?) && forall x :: x in a ==> x.attribute == Age
  {
  }

  lemma RaceStep(data: seq<Row>)
    ensures var c := Present(RaceFinding(data));
            |c| <= 1 && (c != [] <==> FindColumn(data, RaceKeywords).Some?) && forall x :: x in c ==> x.attribute == RaceEthnicity
  {
  }

  /** In findings made of Gender, then Age, then Race/Ethnicity findings, the
      attribute at each index is given by the lengths of the parts. */
  lemma FindingsAt(g: seq<Finding>, a: seq<Finding>, c: seq<Finding>)
    requires forall x :: x in g ==> x.attribute == Gender
    requires forall x :: x in a ==> x.attribute == Age
    requires forall x :: x in c ==> x.attribute == RaceEthnicity
    ensures forall k :: 0 <= k < |g + a + c| ==>
              (g + a + c)[k].attribute == (if k < |g| then Gender else if k < |g| + |a| then Age else RaceEthnicity)
  {
    var fs := g + a + c;
    forall k | 0 <= k < |fs|
      ensures fs[k].attribute == (if k < |g| then Gender else if k < |g| + |a| then Age else RaceEthnicity)
    {
      if k < |g| {
        assert fs[k] == g[k];
      } else if k < |g| + |a| {
        assert fs[k] == a[k - |g|];
      } else {
        assert fs[k] == c[k - |g| - |a|];
      }
    }
  }

  /** Findings made of at most one Gender, then at most one Age, then at most
      one Race/Ethnicity finding are in attribute order, and each attribute
      occurs exactly when its part is non-empty. */
  lemma FindingsLayout(g: seq<Finding>, a: seq<Finding>, c: seq<Finding>)
    requires |g| <= 1 && |a| <= 1 && |c| <= 1
    requires forall x :: x in g ==> x.attribute == Gender
    requires forall x :: x in a ==> x.attribute == Age
    requires forall x :: x in c ==> x.attribute == RaceEthnicity
    ensures var fs := g + a + c;
            && |fs| <= 3
            && (forall i, j :: 0 <= i < j < |fs| ==> Position(fs[i].attribute) < Position(fs[j].attribute))
            && (forall i :: 0 <= i < |fs| ==> fs[i].attribute != ImageAnalysis)
            && ((exists i :: 0 <= i < |fs| && fs[i].attribute == Gender) <==> g != [])
            && ((exists i :: 0 <= i < |fs| && fs[i].attribute == Age) <==> a != [])
            && ((exists i :: 0 <= i < |fs| && fs[i].attribute == RaceEthnicity) <==> c != [])
  {
    var fs := g + a + c;
    FindingsAt(g, a, c);
    if g != [] {
      assert fs[0].attribute == Gender;
    }
    if a != [] {
      assert fs[|g|].attribute == Age;
    }
    if c != [] {
      assert fs[|g| + |a|].attribute == RaceEthnicity;
    }
  }

  /** The report counts every row and lists at most one finding per
      attribute, in the order Gender, Age, Race/Ethnicity. */
  lemma ReportOrder(data: seq<Row>, timestamp: string)
    ensures var r := Analyze(data, timestamp);
            && r.totalRows == |data| && r.columnsAnalyzed <= 3 && r.timestamp == timestamp
            && (forall i, j :: 0 <= i < j < |r.biases| ==> Position(r.biases[i].attribute) < Position(r.biases[j].attribute))
            && (forall i :: 0 <= i < |r.biases| ==> r.biases[i].attribute != ImageAnalysis)
  {
    var g, a, c := Present(GenderFinding(data)), Present(AgeFinding(data)), Present(RaceFinding(data));
    assert Analyze(data, timestamp).biases == g + a + c;
    StepsContribute(data);
    FindingsLayout(g, a, c);
  }

  /** An attribute has a finding in the report exactly when its column was found. */
  lemma ReportPresence(data: seq<Row>, timestamp: string)
    ensures var r := Analyze(data, timestamp);
            && ((exists i :: 0 <= i < |r.biases| && r.biases[i].attribute == Gender) <==> FindColumn(data, GenderKeywords).Some?)
            && ((exists i :: 0 <= i < |r.biases| && r.biases[i].attribute == Age) <==> FindColumn(data, AgeKeywords).Some?)
            && ((exists i :: 0 <= i < |r.biases| && r.biases[i].attribute == RaceEthnicity) <==> FindColumn(data, RaceKeywords).Some?)
  {
    var g, a, c := Present(GenderFinding(data)), Present(AgeFinding(data)), Present(RaceFinding(data));
    assert Analyze(data, timestamp).biases == g + a + c;
    StepsContribute(data);
    FindingsLayout(g, a, c);
  }

  /** The report of a dataset keeps the overall risk and the column count in
      step with its findings. */
  lemma AnalyzeConsistent(data: seq<Row>, timestamp: string)
    ensures Consistent(Analyze(data, timestamp))
  {
  }

  /** With no rows there is no header, so nothing is found and the risk is Low. */
  lemma EmptyDataset(timestamp: string)
    ensures Analyze([], timestamp) == Report([], Low, 0, 0, timestamp)
  {
  }

  /** A categorical finding is High exactly when some percentage exceeds the
      high threshold, Medium exactly when none does and some exceeds the
      medium one, and Low otherwise; it is Low when no cell was counted. */
  lemma TierOfShares(dist: seq<Share>, th: ShareThresholds)
    requires th.medium <= th.high
    ensures ShareTier(MaxTenths(dist), th) == High <==> exists i :: 0 <= i < |dist| && dist[i].tenths > th.high
    ensures ShareTier(MaxTenths(dist), th) == Medium <==>
              (forall i :: 0 <= i < |dist| ==> dist[i].tenths <= th.high) && exists i :: 0 <= i < |dist| && dist[i].tenths > th.medium
    ensures dist == [] ==> ShareTier(MaxTenths(dist), th) == Low
  {
  }

  /** Each alert and the matching fixed text begin with different letters. */
  lemma AdviceTextsDiffer()
    ensures GenderAlert[0] == 'R' && GenderBalanced[0] == 'D'
    ensures AgeAlert[0] == 'E' && AgeDiverse[0] == 'A'
    ensures RaceAlert[0] == 'I' && RaceBalanced[0] == 'R'
  {
  }

  /** The facts shared by the Gender and Race/Ethnicity findings, for the
      values `vs` counted from the column. */
  lemma {:induction false} CategoricalFacts(attr: Attribute, vs: seq<string>, th: ShareThresholds, alert: string, balanced: string)
    requires th.medium <= th.high
    requires |alert| > 0 && |balanced| > 0 && alert[0] != balanced[0]
    ensures var f := CategoricalFinding(attr, DistributionOf(vs), th, alert, balanced);
            var d := DistributionOf(vs);
            && f.attribute == attr && f.distribution == Categorical(d)
            && (forall v :: v in Categories(d) <==> v in vs)
            && NoDuplicates(Categories(d))
            && JsObject.OwnKeyOrder(Categories(d)) == Categories(d)
            && (forall i :: 0 <= i < |d| ==> d[i].tenths == PercentTenths(Occurrences(vs, d[i].category), |vs|))
            && (f.risk == High <==> exists i :: 0 <= i < |d| && d[i].tenths > th.high)
            && (f.risk == Low <==> f.recommendation == balanced)
            && (f.risk != Low ==> StartsWith(f.recommendation, alert) && Json.ParseObject(f.recommendation[|alert|..]) == Some(Pairs(d)))
  {
    var d := DistributionOf(vs);
    var f := CategoricalFinding(attr, d, th, alert, balanced);
    DistributionFacts(vs);
    TierOfShares(d, th);
    JsObject.OwnKeyOrderIdempotent(Distinct(vs));
    if f.risk != Low {
      var json := Json.StringifyObject(Pairs(d));
      assert f.recommendation == alert + json;
      AlertSplit(alert, json);
      Json.StringifyRoundTrip(Pairs(d));
    }
  }

  /** The Gender finding, when a Gender column `col` is found: its categories
      are exactly the distinct non-empty lower-cased cells of that column, each
      once and in `Object.keys` order, with its rounded share of the counted
      cells; it is High exactly when some share is above 75.0%; and a
      recommendation other than the balanced text embeds the distribution as
      JSON that reads back to it. */
  lemma GenderFacts(data: seq<Row>, col: string)
    requires FindColumn(data, GenderKeywords) == Some(col)
    ensures GenderFinding(data).Some?
    ensures var f := GenderFinding(data).value;
            var vs := CountedValues(data, col, true);
            var d := DistributionOf(vs);
            && f.attribute == Gender && f.distribution == Categorical(d)
            && (forall v :: v in Categories(d) <==> v != "" && exists i :: 0 <= i < |data| && CellText(data[i], col, true) == Some(v))
            && NoDuplicates(Categories(d))
            && (forall i :: 0 <= i < |d| ==> d[i].tenths == PercentTenths(Occurrences(vs, d[i].category), |vs|))
            && (f.risk == High <==> exists i :: 0 <= i < |d| && d[i].tenths > 750)
            && (f.risk == Low <==> f.recommendation == GenderBalanced)
            && (f.risk != Low ==> StartsWith(f.recommendation, GenderAlert) && Json.ParseObject(f.recommendation[|GenderAlert|..]) == Some(Pairs(d)))
  {
    AdviceTextsDiffer();
    var vs := CountedValues(data, col, true);
    GenderFindingIs(data, col);
    CountedValuesFromRows(data, col, true);
    CategoricalFacts(Gender, vs, GenderThresholds, GenderAlert, GenderBalanced);
  }

  /** The Race/Ethnicity finding, as for Gender but on the cells as written
      (case-sensitive) and with the threshold 70.0%. */
  lemma RaceFacts(data: seq<Row>, col: string)
    requires FindColumn(data, RaceKeywords) == Some(col)
    ensures RaceFinding(data).Some?
    ensures var f := RaceFinding(data).value;
            var vs := CountedValues(data, col, false);
            var d := DistributionOf(vs);
            && f.attribute == RaceEthnicity && f.distribution == Categorical(d)
            && (forall v :: v in Categories(d) <==> v != "" && exists i :: 0 <= i < |data| && Get(data[i], col) == Some(v))
            && NoDuplicates(Categories(d))
            && (forall i :: 0 <= i < |d| ==> d[i].tenths == PercentTenths(Occurrences(vs, d[i].category), |vs|))
            && (f.risk == High <==> exists i :: 0 <= i < |d| && d[i].tenths > 700)
            && (f.risk == Low <==> f.recommendation == RaceBalanced)
            && (f.risk != Low ==> StartsWith(f.recommendation, RaceAlert) && Json.ParseObject(f.recommendation[|RaceAlert|..]) == Some(Pairs(d)))
  {
    AdviceTextsDiffer();
    var vs := CountedValues(data, col, false);
    RaceFindingIs(data, col);
    RawValuesFromRows(data, col);
    CategoricalFacts(RaceEthnicity, vs, RaceThresholds, RaceAlert, RaceBalanced);
  }

  /** The Age finding, when an Age column `col` is found: its statistics are
      those of the cells that parse; it is Low exactly when it says the ages
      are diverse; otherwise the recommendation names the range, and for a
      non-empty sample `parseInt` reads the minimum back from its start and
      the maximum back from after the `-`. */
  lemma AgeFacts(data: seq<Row>, col: string)
    requires FindColumn(data, AgeKeywords) == Some(col)
    ensures AgeFinding(data).Some?
    ensures var f := AgeFinding(data).value;
            var s := Summarize(ParsedAges(data, col));
            && f.attribute == Age && f.distribution == Numeric(s)
            && (s.NoSample? <==> forall i :: 0 <= i < |data| ==> ParseCell(data[i], col).None?)
            && (s.NoSample? ==> f.risk == High)
            && (s.Sample? ==> s.min <= s.max && (f.risk == High <==> s.Range() < 20) && (f.risk == Low <==> s.Range() >= 40))
            && (f.risk == Low <==> f.recommendation == AgeDiverse)
            && (f.risk != Low ==> StartsWith(f.recommendation, AgeAlert))
            && (f.risk != Low && s.Sample? ==> ParseInt(f.recommendation[|AgeAlert|..]) == Some(s.min))
            && (f.risk != Low && s.Sample? ==>
                  var k := |AgeAlert| + |IntToString(s.min)| + 1;
                  k <= |f.recommendation| && f.recommendation[k - 1] == '-' && ParseInt(f.recommendation[k..]) == Some(s.max))
  {
    var s := Summarize(ParsedAges(data, col));
    AgeFindingIs(data, col);
    SampleIffParsable(data, col);
    AgeRisk(s);
    AgeAdvice(s);
  }

  /** The Gender finding of a dataset whose Gender column is `col`. */
  lemma GenderFindingIs(data: seq<Row>, col: string)
    requires FindColumn(data, GenderKeywords) == Some(col)
    ensures GenderFinding(data) == Some(CategoricalFinding(Gender, DistributionOf(CountedValues(data, col, true)), GenderThresholds, GenderAlert, GenderBalanced))
  {
  }

  /** The Race/Ethnicity finding of a dataset whose Race/Ethnicity column is `col`. */
  lemma RaceFindingIs(data: seq<Row>, col: string)
    requires FindColumn(data, RaceKeywords) == Some(col)
    ensures RaceFinding(data) == Some(CategoricalFinding(RaceEthnicity, DistributionOf(CountedValues(data, col, false)), RaceThresholds, RaceAlert, RaceBalanced))
  {
  }

  /** The Age finding of a dataset whose Age column is `col`. */
  lemma AgeFindingIs(data: seq<Row>, col: string)
    requires FindColumn(data, AgeKeywords) == Some(col)
    ensures AgeFinding(data) == Some(AgeFindingOf(Summarize(ParsedAges(data, col))))
  {
  }

  /** The age statistics exist exactly when some cell of the column parses. */
  lemma SampleIffParsable(data: seq<Row>, col: string)
    ensures Summarize(ParsedAges(data, col)).NoSample? <==> forall i :: 0 <= i < |data| ==> ParseCell(data[i], col).None?
  {
    ParsedAgesFromRows(data, col);
  }

  /** The tier of an Age finding: High with no sample, and otherwise High
      below a 20-year range and Low from a 40-year range. */
  lemma AgeRisk(s: AgeSummary)
    ensures var f := AgeFindingOf(s);
            && (s.NoSample? ==> f.risk == High)
            && (s.Sample? ==> (f.risk == High <==> s.Range() < 20) && (f.risk == Low <==> s.Range() >= 40))
  {
  }

  /** The text after an alert prefix is what was appended to it. */
  lemma AlertSplit(alert: string, rest: string)
    ensures StartsWith(alert + rest, alert) && (alert + rest)[|alert|..] == rest
    ensures |alert| > 0 ==> (alert + rest)[0] == alert[0]
  {
  }

  /** The recommendation of an Age finding, from its statistics alone: the
      fixed text exactly when the risk is Low, and otherwise the alert
      followed by the range `min-max`, from which `parseInt` reads back both
      ends of a non-empty sample. */
  lemma AgeAdvice(s: AgeSummary)
    ensures var f := AgeFindingOf(s);
            && (f.risk == Low <==> f.recommendation == AgeDiverse)
            && (f.risk != Low ==> StartsWith(f.recommendation, AgeAlert))
            && (f.risk != Low && s.Sample? ==> ParseInt(f.recommendation[|AgeAlert|..]) == Some(s.min))
            && (f.risk != Low && s.Sample? ==>
                  var k := |AgeAlert| + |IntToString(s.min)| + 1;
                  k <= |f.recommendation| && f.recommendation[k - 1] == '-' && ParseInt(f.recommendation[k..]) == Some(s.max))
  {
    var f := AgeFindingOf(s);
    if f.risk != Low {
      AgeRangeSplit(AgeAlert, MinText(s), MaxText(s));
      AdviceTextsDiffer();
      if s.Sample? {
        ParseIntReadsPrefix(s.min, "-" + (MaxText(s) + " years"));
        ParseIntReadsPrefix(s.max, " years");
      }
    }
  }

  /** Where the two ends of the range sit in the Age alert. */
  lemma AgeRangeSplit(alert: string, lo: string, hi: string)
    ensures var t := alert + (lo + ("-" + (hi + " years")));
            var k := |alert| + |lo| + 1;
            && StartsWith(t, alert) && t[|alert|..] == lo + ("-" + (hi + " years"))
            && k <= |t| && t[k - 1] == '-' && t[k..] == hi + " years"
  {
    var tail := "-" + (hi + " years");
    var t := alert + (lo + tail);
    Pieces(alert, lo, tail);
    Prefixed("-", hi + " years");
    DropOne(t, |alert| + |lo|);
  }

  /** Dropping `a` elements and then one more drops `a + 1`. */
  lemma DropOne(t: string, a: nat)
    requires a < |t|
    ensures t[a..][0] == t[a] && t[a..][1..] == t[a + 1..]
  {
  }

  /** A Gender column whose cells are all empty or missing still gives a
      finding: an empty distribution, whose largest share `Math.max()` is
      -Infinity, so the risk is Low. */
  lemma GenderColumnAllEmpty(data: seq<Row>, col: string)
    requires FindColumn(data, GenderKeywords) == Some(col)
    requires forall i :: 0 <= i < |data| ==> Get(data[i], col) == None || Get(data[i], col) == Some("")
    ensures GenderFinding(data) == Some(Finding(Gender, Categorical([]), Low, GenderBalanced))
  {
    AdviceTextsDiffer();
    var vs := CountedValues(data, col, true);
    GenderFindingIs(data, col);
    NothingCounted(data, col, true);
    DistributionFacts(vs);
    assert DistributionOf(vs) == [];
  }

  /** An Age column in which no cell parses still gives a finding: the range
      is -Infinity, so the risk is High, and the recommendation prints
      `Math.min()` and `Math.max()` of nothing. */
  lemma NoParsableAge(data: seq<Row>, col: string)
    requires FindColumn(data, AgeKeywords) == Some(col)
    requires forall i :: 0 <= i < |data| ==> ParseCell(data[i], col).None?
    ensures AgeFinding(data) == Some(Finding(Age, Numeric(NoSample), High, "Expand age range. Current range: Infinity--Infinity years"))
  {
    var ages := ParsedAges(data, col);
    AgeFindingIs(data, col);
    ParsedAgesFromRows(data, col);
    assert Summarize(ages) == NoSample;
    NoSampleAdvice();
  }

  /** With no parsed age, `Math.min()` is Infinity and `Math.max()` is
      -Infinity, so the range is -Infinity, the risk High, and the
      recommendation prints an empty range. */
  lemma NoSampleAdvice()
    ensures AgeFindingOf(NoSample) == Finding(Age, Numeric(NoSample), High, "Expand age range. Current range: Infinity--Infinity years")
  {
    var range := "Infinity" + ("-" + ("-Infinity" + " years"));
    assert range == "Infinity--Infinity years";
    assert AgeAlert + range == "Expand age range. Current range: Infinity--Infinity years";
  }

  /** 80% male and 20% female is High. */
  lemma GenderExampleHigh()
    ensures CategoricalFinding(Gender, [Share("male", 800), Share("female", 200)], GenderThresholds, GenderAlert, GenderBalanced).risk == High
  {
    assert [Share("male", 800), Share("female", 200)][1..] == [Share("female", 200)];
  }

  /** 60% and 40% is Low, since 60.0 does not exceed the Medium threshold. */
  lemma GenderExampleLow()
    ensures CategoricalFinding(Gender, [Share("male", 600), Share("female", 400)], GenderThresholds, GenderAlert, GenderBalanced)
            == Finding(Gender, Categorical([Share("male", 600), Share("female", 400)]), Low, GenderBalanced)
  {
    var dist := [Share("male", 600), Share("female", 400)];
    assert dist[1..] == [Share("female", 400)];
    assert MaxTenths(dist) == Some(600);
    assert ShareTier(Some(600), GenderThresholds) == Low;
  }
}
