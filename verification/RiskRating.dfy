/**
 The OWASP risk rating: a builder that derives scores, levels and a severity from factor scores, and a checker
 of stored ratings that must agree with it.
 */
module RiskRating {
  import opened Wrappers

  // ----- Factors -----

  /** A factor value as parsed: a boolean is not an integer here. */
  datatype Value = Int(n: int) | NotInt

  /** A factor set as parsed; `Blank` is null, missing or another value that counts as false. */
  datatype FactorSet = Factors(values: map<string, Value>) | Blank | NotObject

  const LIKELIHOOD: seq<string> := ["skill_level", "motive", "opportunity", "population_size",
                                    "ease_of_discovery", "ease_of_exploit", "awareness", "intrusion_detection"]
  const TECHNICAL: seq<string> := ["confidentiality", "integrity", "availability", "accountability"]
  const BUSINESS: seq<string> := ["financial", "reputation", "non_compliance", "privacy"]

  datatype Where = InLikelihood | InTechnical | InBusiness

  datatype Problem =
    | NotAnObject(where: Where)
    | WrongNames(where: Where)
    | BadFactor(where: Where, name: string)
    | BasisNeedsSet
    | NotARating
    | WrongMethod
    | WrongScore(part: PartName)
    | WrongLevel(part: PartName)
    | WrongSeverity

  datatype PartName = Likelihood | Impact

  predicate InRange(v: Value) {
    v.Int? && 0 <= v.n <= 9
  }

  function Names(names: seq<string>): set<string> {
    set name | name in names
  }

  /** What a factor set must be: exactly the names, each an integer from 0 to 9. */
  ghost predicate ValidFactors(f: FactorSet, names: seq<string>) {
    f.Factors? && f.values.Keys == Names(names) && forall name | name in names :: InRange(f.values[name])
  }

  /** `_factor_problems`. */
  method FactorProblems(where: Where, f: FactorSet, names: seq<string>) returns (out: seq<Problem>)
    ensures out == [] <==> ValidFactors(f, names)
    ensures f.Factors? ==> forall name :: BadFactor(where, name) in out <==>
                             name in names && name in f.values && !InRange(f.values[name])
    ensures WrongNames(where) in out <==> f.Factors? && f.values.Keys != Names(names)
    ensures NotAnObject(where) in out <==> !f.Factors?
    ensures forall p | p in out ::
              p == NotAnObject(where) || p == WrongNames(where) || (p.BadFactor? && p.where == where)
  {
    if !f.Factors? {
      return [NotAnObject(where)];
    }
    out := if f.values.Keys != Names(names) then [WrongNames(where)] else [];
    for i := 0 to |names|
      invariant forall name :: BadFactor(where, name) in out <==>
                  name in names[..i] && name in f.values && !InRange(f.values[name])
      invariant WrongNames(where) in out <==> f.values.Keys != Names(names)
      invariant forall p | p in out :: p == WrongNames(where) || (p.BadFactor? && p.where == where)
      invariant out == [] <==> f.values.Keys == Names(names) &&
                               forall name | name in names[..i] :: name in f.values && InRange(f.values[name])
    {
      var name := names[i];
      assert names[..i + 1] == names[..i] + [name];
      if name in f.values && !InRange(f.values[name]) {
        out := out + [BadFactor(where, name)];
      }
    }
    assert names[..|names|] == names;
  }

  // ----- Scores, levels, severity -----

  function Sum(f: FactorSet, names: seq<string>): int {
    if names == [] || !f.Factors? then 0
    else (if names[0] in f.values && f.values[names[0]].Int? then f.values[names[0]].n else 0) + Sum(f, names[1..])
  }

  function Mean(f: FactorSet, names: seq<string>): real
    requires names != []
  {
    Sum(f, names) as real / |names| as real
  }

  /** `round(x, 3)`: to the nearest thousandth, a tie to the even one. */
  function Round3(x: real): real {
    var scaled := x * 1000.0;
    var below := scaled.Floor;
    var rest := scaled - below as real;
    var nearest := if rest < 0.5 || (rest == 0.5 && below % 2 == 0) then below else below + 1;
    nearest as real / 1000.0
  }

  datatype Level = Low | Medium | High

  datatype Severity = SNote | SLow | SMedium | SHigh | SCritical

  function LevelOf(score: real): Level {
    if score < 3.0 then Low else if score < 6.0 then Medium else High
  }

  function LevelIndex(level: Level): nat {
    match level
    case Low => 0
    case Medium => 1
    case High => 2
  }

  /** `SEVERITY_TABLE`, impact first. */
  function SeverityOf(impact: Level, likelihood: Level): Severity {
    match (impact, likelihood)
    case (High, Low) => SMedium
    case (High, Medium) => SHigh
    case (High, High) => SCritical
    case (Medium, Low) => SLow
    case (Medium, Medium) => SMedium
    case (Medium, High) => SHigh
    case (Low, Low) => SNote
    case (Low, Medium) => SLow
    case (Low, High) => SMedium
  }

  const SEVERITIES: seq<Severity> := [SNote, SLow, SMedium, SHigh, SCritical]

  function IndexOf(s: Severity, all: seq<Severity>): int {
    if all == [] then -1
    else if all[0] == s then 0
    else
      var later := IndexOf(s, all[1..]);
      if later < 0 then -1 else later + 1
  }

  /** `severity_rank`: the position in `SEVERITIES`, or -1 for a value that is not there. */
  function SeverityRank(s: Option<Severity>): int {
    if s.None? then -1 else IndexOf(s.value, SEVERITIES)
  }

  // ----- Building -----

  datatype Basis = Technical | Business

  /** The basis as given: absent or empty, one of the two, or another word. */
  datatype Asked = Unset | Asked(basis: Basis) | OtherBasis

  datatype Input = Input(likelihood: FactorSet, technical: FactorSet, business: Option<FactorSet>, basis: Asked)

  function Chosen(i: Input): Asked {
    if i.basis.Unset? then Asked(if i.business.Some? then Business else Technical) else i.basis
  }

  ghost predicate Acceptable(i: Input) {
    && ValidFactors(i.likelihood, LIKELIHOOD) && ValidFactors(i.technical, TECHNICAL)
    && (i.business.Some? ==> ValidFactors(i.business.value, BUSINESS))
    && Chosen(i).Asked? && (Chosen(i) == Asked(Business) ==> i.business.Some?)
  }

  datatype Part = Part(score: real, level: Level)

  datatype Rating = Rating(input: Input, likelihood: Part, impact: Part, severity: Severity)

  function ImpactMean(i: Input): real {
    if Chosen(i) == Asked(Business) && i.business.Some? then Mean(i.business.value, BUSINESS)
    else Mean(i.technical, TECHNICAL)
  }

  /** The rating the factors give, in exact arithmetic: no rounding. */
  function Exact(i: Input): Rating {
    var l, m := Mean(i.likelihood, LIKELIHOOD), ImpactMean(i);
    Rating(i.(basis := Chosen(i)), Part(l, LevelOf(l)), Part(m, LevelOf(m)), SeverityOf(LevelOf(m), LevelOf(l)))
  }

  /** `rate`: it builds exactly when the factors and the basis are as they must be, and rounding loses nothing. */
  method Rate(i: Input) returns (r: Result<Rating, seq<Problem>>)
    ensures r.Ok? <==> Acceptable(i)
    ensures r.Ok? ==> r.value == Exact(i)
    ensures r.Err? ==> r.error != []
    ensures r.Err? ==>
              && (BasisNeedsSet in r.error
                  <==> i.basis == OtherBasis || (i.basis == Asked(Business) && i.business.None?))
              && (NotAnObject(InLikelihood) in r.error <==> !i.likelihood.Factors?)
              && (NotAnObject(InTechnical) in r.error <==> !i.technical.Factors?)
              && (NotAnObject(InBusiness) in r.error <==> i.business.Some? && !i.business.value.Factors?)
  {
    var found := FactorProblems(InLikelihood, i.likelihood, LIKELIHOOD);
    var more := FactorProblems(InTechnical, i.technical, TECHNICAL);
    found := found + more;
    if i.business.Some? {
      more := FactorProblems(InBusiness, i.business.value, BUSINESS);
      found := found + more;
    }
    var basis := Chosen(i);
    if basis == OtherBasis || (basis == Asked(Business) && i.business.None?) {
      found := found + [BasisNeedsSet];
    }
    if found != [] {
      return Err(found);
    }
    var likelihood := Mean(i.likelihood, LIKELIHOOD);
    var impact := if basis == Asked(Business) then Mean(i.business.value, BUSINESS) else Mean(i.technical, TECHNICAL);
    RoundingIsExact(i.likelihood, LIKELIHOOD);
    RoundingIsExact(i.technical, TECHNICAL);
    if i.business.Some? {
      RoundingIsExact(i.business.value, BUSINESS);
    }
    r := Ok(Rating(i.(basis := basis), Part(Round3(likelihood), LevelOf(likelihood)),
                   Part(Round3(impact), LevelOf(impact)), SeverityOf(LevelOf(impact), LevelOf(likelihood))));
  }

  lemma RoundingThousandths(x: real, n: int)
    requires x * 1000.0 == n as real
    ensures Round3(x) == x
  {
    assert (n as real).Floor == n;
  }

  /** A mean of four or eight factors is a whole number of eighths, which three decimals hold exactly. */
  lemma RoundingIsExact(f: FactorSet, names: seq<string>)
    requires |names| == 4 || |names| == 8
    ensures Mean(f, names) == (8 / |names| * Sum(f, names)) as real / 8.0
    ensures Round3(Mean(f, names)) == Mean(f, names)
  {
    var sum := Sum(f, names);
    if |names| == 4 {
      assert Mean(f, names) == sum as real / 4.0;
      RoundingThousandths(Mean(f, names), 250 * sum);
    } else {
      assert Mean(f, names) == sum as real / 8.0;
      RoundingThousandths(Mean(f, names), 125 * sum);
    }
  }

  // ----- Checking a stored rating -----

  /**
   A stored score: NaN is a number to the check, and nothing differs from it by more than the tolerance.
   An infinity differs from every score, like a value that is no number.
   */
  datatype Score = Number(x: real) | NaN | NoNumber

  /** A stored level or severity that is none of the known words is `None`. */
  datatype StoredPart = StoredPart(score: Score, level: Option<Level>)

  datatype Stored =
    | NoObject
    | Stored(isMethod: bool, input: Input, likelihood: StoredPart, impact: StoredPart, severity: Option<Severity>)

  const TOLERANCE: real := 0.001

  function Abs(x: real): real {
    if x < 0.0 then -x else x
  }

  predicate Near(score: Score, want: real) {
    score == NaN || (score.Number? && Abs(score.x - want) <= TOLERANCE)
  }

  /** Factor sets the checker finds absent stand for empty ones; only an absent business set stays absent. */
  function Defaulted(i: Input): Input {
    i.(likelihood := if i.likelihood.Blank? then Factors(map[]) else i.likelihood,
       technical := if i.technical.Blank? then Factors(map[]) else i.technical)
  }

  predicate PartAgrees(stored: StoredPart, want: Part) {
    Near(stored.score, want.score) && stored.level == Some(want.level)
  }

  /** A stored rating that follows from its own factors. */
  ghost predicate Consistent(s: Stored) {
    && s.Stored? && s.isMethod && Acceptable(Defaulted(s.input))
    && PartAgrees(s.likelihood, Exact(Defaulted(s.input)).likelihood)
    && PartAgrees(s.impact, Exact(Defaulted(s.input)).impact)
    && s.severity == Some(Exact(Defaulted(s.input)).severity)
  }

  method PartProblems(name: PartName, stored: StoredPart, want: Part) returns (out: seq<Problem>)
    ensures out == [] <==> PartAgrees(stored, want)
    ensures WrongScore(name) in out <==> !Near(stored.score, want.score)
    ensures WrongLevel(name) in out <==> stored.level != Some(want.level)
    ensures forall p | p in out :: p == WrongScore(name) || p == WrongLevel(name)
  {
    out := [];
    if !Near(stored.score, want.score) {
      out := out + [WrongScore(name)];
    }
    if stored.level != Some(want.level) {
      out := out + [WrongLevel(name)];
    }
  }

  /** `problems`: silent exactly on consistent ratings; with valid factors, each wrong value is named. */
  method Problems(s: Stored) returns (out: seq<Problem>)
    ensures out == [] <==> Consistent(s)
    ensures s.Stored? && s.isMethod && Acceptable(Defaulted(s.input)) ==>
              var want := Exact(Defaulted(s.input));
              && (WrongScore(Likelihood) in out <==> !Near(s.likelihood.score, want.likelihood.score))
              && (WrongLevel(Likelihood) in out <==> s.likelihood.level != Some(want.likelihood.level))
              && (WrongScore(Impact) in out <==> !Near(s.impact.score, want.impact.score))
              && (WrongLevel(Impact) in out <==> s.impact.level != Some(want.impact.level))
              && (WrongSeverity in out <==> s.severity != Some(want.severity))
  {
    if s.NoObject? {
      return [NotARating];
    }
    if !s.isMethod {
      return [WrongMethod];
    }
    var expected := Rate(Defaulted(s.input));
    if expected.Err? {
      return expected.error;
    }
    out := Differences(s, expected.value);
  }

  method Differences(s: Stored, want: Rating) returns (out: seq<Problem>)
    requires s.Stored?
    ensures WrongScore(Likelihood) in out <==> !Near(s.likelihood.score, want.likelihood.score)
    ensures WrongLevel(Likelihood) in out <==> s.likelihood.level != Some(want.likelihood.level)
    ensures WrongScore(Impact) in out <==> !Near(s.impact.score, want.impact.score)
    ensures WrongLevel(Impact) in out <==> s.impact.level != Some(want.impact.level)
    ensures WrongSeverity in out <==> s.severity != Some(want.severity)
    ensures out == [] <==> PartAgrees(s.likelihood, want.likelihood) && PartAgrees(s.impact, want.impact)
                           && s.severity == Some(want.severity)
  {
    var likelihood := PartProblems(Likelihood, s.likelihood, want.likelihood);
    var impact := PartProblems(Impact, s.impact, want.impact);
    out := likelihood + impact + (if s.severity != Some(want.severity) then [WrongSeverity] else []);
  }

  // ----- Builder and checker agree -----

  function Store(r: Rating): Stored {
    Stored(true, r.input, StoredPart(Number(r.likelihood.score), Some(r.likelihood.level)),
           StoredPart(Number(r.impact.score), Some(r.impact.level)), Some(r.severity))
  }

  /** Whatever the builder builds, the checker accepts. */
  lemma BuiltIsConsistent(i: Input)
    requires Acceptable(i)
    ensures Consistent(Store(Exact(i)))
  {
    assert Defaulted(i.(basis := Chosen(i))) == i.(basis := Chosen(i));
  }

  method BuildThenCheck(i: Input) returns (out: seq<Problem>)
    ensures Acceptable(i) <==> out == []
  {
    var r := Rate(i);
    if r.Err? {
      return r.error;
    }
    BuiltIsConsistent(i);
    out := Problems(Store(r.value));
  }

  lemma EighthsApart(j: int, k: int, x: real)
    requires Abs(x - j as real / 8.0) <= TOLERANCE && Abs(x - k as real / 8.0) <= TOLERANCE
    ensures j == k
  {
    assert Abs((j - k) as real) <= 0.016;
  }

  /** The sum behind the impact score, counted in eighths of the mean. */
  function ImpactEighths(i: Input): int {
    2 * if Chosen(i) == Asked(Business) && i.business.Some? then Sum(i.business.value, BUSINESS)
        else Sum(i.technical, TECHNICAL)
  }

  lemma LikelihoodDeterminesSum(s: Stored, t: Stored)
    requires Consistent(s) && Consistent(t)
    requires s.likelihood.score == t.likelihood.score && s.likelihood.score.Number?
    ensures Sum(Defaulted(s.input).likelihood, LIKELIHOOD) == Sum(Defaulted(t.input).likelihood, LIKELIHOOD)
  {
    EighthsApart(Sum(Defaulted(s.input).likelihood, LIKELIHOOD), Sum(Defaulted(t.input).likelihood, LIKELIHOOD),
                 s.likelihood.score.x);
  }

  lemma ImpactIsEighths(i: Input)
    ensures ImpactMean(i) == ImpactEighths(i) as real / 8.0
  {
  }

  lemma ImpactDeterminesSum(s: Stored, t: Stored)
    requires Consistent(s) && Consistent(t)
    requires s.impact.score == t.impact.score && s.impact.score.Number?
    ensures ImpactEighths(Defaulted(s.input)) == ImpactEighths(Defaulted(t.input))
  {
    ImpactIsEighths(Defaulted(s.input));
    ImpactIsEighths(Defaulted(t.input));
    EighthsApart(ImpactEighths(Defaulted(s.input)), ImpactEighths(Defaulted(t.input)), s.impact.score.x);
  }

  /** Two consistent ratings that store the same number rest on the same sum: the tolerance blurs nothing. */
  lemma ScoreDeterminesSum(s: Stored, t: Stored)
    requires Consistent(s) && Consistent(t)
    ensures s.likelihood.score == t.likelihood.score && s.likelihood.score.Number? ==>
              Sum(Defaulted(s.input).likelihood, LIKELIHOOD) == Sum(Defaulted(t.input).likelihood, LIKELIHOOD)
    ensures s.impact.score == t.impact.score && s.impact.score.Number? ==>
              ImpactEighths(Defaulted(s.input)) == ImpactEighths(Defaulted(t.input))
  {
    if s.likelihood.score == t.likelihood.score && s.likelihood.score.Number? {
      LikelihoodDeterminesSum(s, t);
    }
    if s.impact.score == t.impact.score && s.impact.score.Number? {
      ImpactDeterminesSum(s, t);
    }
  }

  /** A stored NaN in place of a score is accepted with any factors: it is the one score that determines nothing. */
  lemma NaNIsAlwaysNear(s: Stored)
    requires Consistent(s)
    ensures Consistent(s.(likelihood := s.likelihood.(score := NaN), impact := s.impact.(score := NaN)))
    ensures forall x: Score :: Consistent(s.(likelihood := s.likelihood.(score := x))) <==>
              x == NaN || (x.Number? && Abs(x.x - Exact(Defaulted(s.input)).likelihood.score) <= TOLERANCE)
  {
  }

  // ----- Order -----

  /** The table is the sum of the two levels. */
  lemma RankIsLevelSum(impact: Level, likelihood: Level)
    ensures SeverityRank(Some(SeverityOf(impact, likelihood))) == LevelIndex(impact) + LevelIndex(likelihood)
  {
    assert SEVERITIES[1..] == [SLow, SMedium, SHigh, SCritical];
    assert SEVERITIES[1..][1..] == [SMedium, SHigh, SCritical];
    assert SEVERITIES[1..][1..][1..] == [SHigh, SCritical];
    assert SEVERITIES[1..][1..][1..][1..] == [SCritical];
    var s := SeverityOf(impact, likelihood);
    assert IndexOf(s, [SCritical]) == if s == SCritical then 0 else -1;
    assert IndexOf(s, [SHigh, SCritical]) == if s == SHigh then 0 else if s == SCritical then 1 else -1;
  }

  ghost predicate NoLower(f: FactorSet, g: FactorSet, names: seq<string>) {
    f.Factors? && g.Factors? &&
    forall name | name in names ::
      name in f.values && name in g.values && f.values[name].Int? && g.values[name].Int?
      && f.values[name].n <= g.values[name].n
  }

  lemma {:induction false} SumIsMonotone(f: FactorSet, g: FactorSet, names: seq<string>)
    requires NoLower(f, g, names)
    ensures Sum(f, names) <= Sum(g, names)
  {
    if names != [] {
      assert names[0] in names;
      SumIsMonotone(f, g, names[1..]);
    }
  }

  lemma MeanIsMonotone(f: FactorSet, g: FactorSet, names: seq<string>)
    requires NoLower(f, g, names) && names != []
    ensures Mean(f, names) <= Mean(g, names)
    ensures LevelIndex(LevelOf(Mean(f, names))) <= LevelIndex(LevelOf(Mean(g, names)))
  {
    SumIsMonotone(f, g, names);
    var d := |names| as real;
    assert (Sum(g, names) - Sum(f, names)) as real / d >= 0.0;
    assert Mean(g, names) - Mean(f, names) == (Sum(g, names) - Sum(f, names)) as real / d;
  }

  /** Raising factors, on the same basis, never lowers a score, a level or the severity. */
  lemma SeverityIsMonotone(i: Input, j: Input)
    requires Acceptable(i) && Acceptable(j) && Chosen(i) == Chosen(j)
    requires NoLower(i.likelihood, j.likelihood, LIKELIHOOD) && NoLower(i.technical, j.technical, TECHNICAL)
    requires i.business.Some? && j.business.Some? ==> NoLower(i.business.value, j.business.value, BUSINESS)
    ensures Exact(i).likelihood.score <= Exact(j).likelihood.score && Exact(i).impact.score <= Exact(j).impact.score
    ensures SeverityRank(Some(Exact(i).severity)) <= SeverityRank(Some(Exact(j).severity))
  {
    MeanIsMonotone(i.likelihood, j.likelihood, LIKELIHOOD);
    if Chosen(i) == Asked(Business) {
      MeanIsMonotone(i.business.value, j.business.value, BUSINESS);
    } else {
      MeanIsMonotone(i.technical, j.technical, TECHNICAL);
    }
    RankIsLevelSum(Exact(i).impact.level, Exact(i).likelihood.level);
    RankIsLevelSum(Exact(j).impact.level, Exact(j).likelihood.level);
  }

  // ----- The rating, told in sums -----

  /** Exactly these eight factors, integers from 0 to 9, and their sum. */
  ghost predicate EightFactors(f: FactorSet, sum: int) {
    && f.Factors?
    && f.values.Keys == {"skill_level", "motive", "opportunity", "population_size", "ease_of_discovery",
                         "ease_of_exploit", "awareness", "intrusion_detection"}
    && (forall name | name in f.values :: f.values[name].Int? && 0 <= f.values[name].n <= 9)
    && sum == f.values["skill_level"].n + f.values["motive"].n + f.values["opportunity"].n
              + f.values["population_size"].n + f.values["ease_of_discovery"].n + f.values["ease_of_exploit"].n
              + f.values["awareness"].n + f.values["intrusion_detection"].n
  }

  /** Exactly these four factors, integers from 0 to 9, and their sum. */
  ghost predicate FourFactors(f: FactorSet, a: string, b: string, c: string, d: string, sum: int) {
    && f.Factors? && f.values.Keys == {a, b, c, d}
    && (forall name | name in f.values :: f.values[name].Int? && 0 <= f.values[name].n <= 9)
    && sum == f.values[a].n + f.values[b].n + f.values[c].n + f.values[d].n
  }

  ghost predicate TechnicalFactors(f: FactorSet, sum: int) {
    FourFactors(f, "confidentiality", "integrity", "availability", "accountability", sum)
  }

  ghost predicate BusinessFactors(f: FactorSet, sum: int) {
    FourFactors(f, "financial", "reputation", "non_compliance", "privacy", sum)
  }

  lemma {:induction false} SumSplits(f: FactorSet, a: seq<string>, b: seq<string>)
    requires f.Factors?
    ensures Sum(f, a + b) == Sum(f, a) + Sum(f, b)
  {
    if a == [] {
      assert a + b == b;
    } else {
      assert (a + b)[0] == a[0] && (a + b)[1..] == a[1..] + b;
      SumSplits(f, a[1..], b);
    }
  }

  lemma FourNames(a: string, b: string, c: string, d: string)
    ensures Names([a, b, c, d]) == {a, b, c, d}
  {
  }

  lemma FourAreValid(f: FactorSet, a: string, b: string, c: string, d: string)
    ensures ValidFactors(f, [a, b, c, d]) ==> FourFactors(f, a, b, c, d, Sum(f, [a, b, c, d]))
    ensures forall sum :: FourFactors(f, a, b, c, d, sum) ==>
                            ValidFactors(f, [a, b, c, d]) && sum == Sum(f, [a, b, c, d])
  {
    FourNames(a, b, c, d);
    if f.Factors? && f.values.Keys == {a, b, c, d} && forall name | name in f.values :: InRange(f.values[name]) {
      ValidSum(f, [a, b, c, d]);
    }
    assert ValidFactors(f, [a, b, c, d]) ==> forall name | name in f.values :: name in [a, b, c, d];
  }

  lemma EightNames()
    ensures Names(LIKELIHOOD) == {"skill_level", "motive", "opportunity", "population_size", "ease_of_discovery",
                                  "ease_of_exploit", "awareness", "intrusion_detection"}
    ensures LIKELIHOOD == ["skill_level", "motive", "opportunity", "population_size"]
                          + ["ease_of_discovery", "ease_of_exploit", "awareness", "intrusion_detection"]
  {
  }

  lemma ValidSum(f: FactorSet, names: seq<string>)
    requires f.Factors? && forall k | 0 <= k < |names| :: names[k] in f.values && f.values[names[k]].Int?
    requires |names| == 4
    ensures Sum(f, names) == f.values[names[0]].n + f.values[names[1]].n + f.values[names[2]].n + f.values[names[3]].n
  {
    assert names[1..][1..] == names[2..] && names[2..][1..] == names[3..] && names[3..][1..] == [];
    assert Sum(f, names[3..]) == f.values[names[3]].n + Sum(f, []);
    assert Sum(f, names[2..]) == f.values[names[2]].n + Sum(f, names[3..]);
    assert Sum(f, names[1..]) == f.values[names[1]].n + Sum(f, names[2..]);
  }

  lemma EightAreValid(f: FactorSet)
    ensures ValidFactors(f, LIKELIHOOD) ==> EightFactors(f, Sum(f, LIKELIHOOD))
    ensures forall sum :: EightFactors(f, sum) ==> ValidFactors(f, LIKELIHOOD) && sum == Sum(f, LIKELIHOOD)
  {
    EightNames();
    if f.Factors? && f.values.Keys == Names(LIKELIHOOD) && forall name | name in f.values :: InRange(f.values[name]) {
      EightValues(f);
    }
    assert ValidFactors(f, LIKELIHOOD) ==> forall name | name in f.values :: name in LIKELIHOOD;
  }

  lemma EightValues(f: FactorSet)
    requires f.Factors? && f.values.Keys == Names(LIKELIHOOD)
    requires forall name | name in f.values :: InRange(f.values[name])
    ensures EightFactors(f, Sum(f, LIKELIHOOD))
  {
    EightNames();
    var a, b := LIKELIHOOD[..4], LIKELIHOOD[4..];
    assert LIKELIHOOD == a + b;
    assert forall k | 0 <= k < 8 :: LIKELIHOOD[k] in Names(LIKELIHOOD);
    ValidSum(f, a);
    ValidSum(f, b);
    SumSplits(f, a, b);
  }

  ghost predicate CompleteEight(f: FactorSet) {
    exists sum :: EightFactors(f, sum)
  }

  ghost predicate CompleteTechnical(f: FactorSet) {
    exists sum :: TechnicalFactors(f, sum)
  }

  ghost predicate CompleteBusiness(f: FactorSet) {
    exists sum :: BusinessFactors(f, sum)
  }

  lemma EightComplete(f: FactorSet)
    ensures CompleteEight(f) <==> ValidFactors(f, LIKELIHOOD)
  {
    EightAreValid(f);
  }

  lemma TechnicalComplete(f: FactorSet)
    ensures CompleteTechnical(f) <==> ValidFactors(f, TECHNICAL)
  {
    FourAreValid(f, "confidentiality", "integrity", "availability", "accountability");
    if ValidFactors(f, TECHNICAL) {
      assert TechnicalFactors(f, Sum(f, TECHNICAL));
    }
  }

  lemma BusinessComplete(f: FactorSet)
    ensures CompleteBusiness(f) <==> ValidFactors(f, BUSINESS)
  {
    FourAreValid(f, "financial", "reputation", "non_compliance", "privacy");
    if ValidFactors(f, BUSINESS) {
      assert BusinessFactors(f, Sum(f, BUSINESS));
    }
  }

  lemma EightSum(f: FactorSet, sum: int)
    requires EightFactors(f, sum)
    ensures Mean(f, LIKELIHOOD) == sum as real / 8.0 && 0 <= sum
  {
    EightAreValid(f);
  }

  lemma TechnicalSum(f: FactorSet, sum: int)
    requires TechnicalFactors(f, sum)
    ensures Mean(f, TECHNICAL) == sum as real / 4.0 && 0 <= sum
  {
    FourAreValid(f, "confidentiality", "integrity", "availability", "accountability");
  }

  lemma BusinessSum(f: FactorSet, sum: int)
    requires BusinessFactors(f, sum)
    ensures Mean(f, BUSINESS) == sum as real / 4.0 && 0 <= sum
  {
    FourAreValid(f, "financial", "reputation", "non_compliance", "privacy");
  }

  /** When a rating is built: complete factor sets, and a basis that has its set. */
  lemma RatedIfComplete(i: Input)
    ensures Acceptable(i) <==>
              && CompleteEight(i.likelihood) && CompleteTechnical(i.technical)
              && (i.business.Some? ==> CompleteBusiness(i.business.value))
              && i.basis != OtherBasis && (i.basis == Asked(Business) ==> i.business.Some?)
  {
    EightComplete(i.likelihood);
    TechnicalComplete(i.technical);
    if i.business.Some? {
      BusinessComplete(i.business.value);
    }
  }

  /** The sums a rating rests on: of the likelihood factors, and of the impact factors its basis asks for. */
  ghost predicate RestsOn(i: Input, l: int, m: int) {
    && EightFactors(i.likelihood, l)
    && if i.basis == Asked(Business) || (i.basis.Unset? && i.business.Some?)
       then i.business.Some? && BusinessFactors(i.business.value, m)
       else TechnicalFactors(i.technical, m)
  }

  /** 0 below 3, 1 below 6, and otherwise 2, of a mean of so many factors. */
  function Step(sum: int, count: nat): nat {
    if sum < 3 * count then 0 else if sum < 6 * count then 1 else 2
  }

  /** The rating, from its two sums: means, levels by thresholds on the sums, and the severity by both levels. */
  lemma RatingFollows(i: Input, l: int, m: int)
    requires Acceptable(i) && RestsOn(i, l, m)
    ensures var r := Exact(i);
            && r.likelihood.score == l as real / 8.0 && r.impact.score == m as real / 4.0
            && r.likelihood.level == [Low, Medium, High][Step(l, 8)]
            && r.impact.level == [Low, Medium, High][Step(m, 4)]
            && r.severity == [SNote, SLow, SMedium, SHigh, SCritical][Step(l, 8) + Step(m, 4)]
            && r.input == i.(basis := r.input.basis)
            && r.input.basis == (if i.basis.Asked? then i.basis
                                 else Asked(if i.business.Some? then Business else Technical))
  {
    MeansAre(i, l, m);
    LevelBySum(l, 8);
    LevelBySum(m, 4);
    TableBySteps(m, l);
  }

  lemma MeansAre(i: Input, l: int, m: int)
    requires Acceptable(i) && RestsOn(i, l, m)
    ensures 0 <= l && 0 <= m
    ensures Mean(i.likelihood, LIKELIHOOD) == l as real / 8.0 && ImpactMean(i) == m as real / 4.0
  {
    EightSum(i.likelihood, l);
    if i.basis == Asked(Business) || (i.basis.Unset? && i.business.Some?) {
      BusinessSum(i.business.value, m);
    } else {
      TechnicalSum(i.technical, m);
    }
  }

  lemma TableBySteps(m: int, l: int)
    ensures SeverityOf([Low, Medium, High][Step(m, 4)], [Low, Medium, High][Step(l, 8)])
            == [SNote, SLow, SMedium, SHigh, SCritical][Step(l, 8) + Step(m, 4)]
  {
  }

  lemma LevelBySum(sum: int, count: nat)
    requires count == 4 || count == 8
    ensures LevelOf(sum as real / count as real) == [Low, Medium, High][Step(sum, count)]
  {
    if count == 4 {
      assert sum as real / 4.0 < 3.0 <==> sum < 12;
      assert sum as real / 4.0 < 6.0 <==> sum < 24;
    } else {
      assert sum as real / 8.0 < 3.0 <==> sum < 24;
      assert sum as real / 8.0 < 6.0 <==> sum < 48;
    }
  }

  /** NaN, or a number that differs from the mean by a thousandth at most. */
  predicate Within(score: Score, mean: real) {
    score == NaN || (score.Number? && -0.001 <= score.x - mean <= 0.001)
  }

  /** A stored rating is accepted exactly if its values follow from the sums of its own factors. */
  lemma AcceptedIfFollows(s: Stored, l: int, m: int)
    requires s.Stored? && Acceptable(s.input) && RestsOn(s.input, l, m)
    ensures Consistent(s) <==>
              && s.isMethod && Within(s.likelihood.score, l as real / 8.0) && Within(s.impact.score, m as real / 4.0)
              && s.likelihood.level == Some([Low, Medium, High][Step(l, 8)])
              && s.impact.level == Some([Low, Medium, High][Step(m, 4)])
              && s.severity == Some([SNote, SLow, SMedium, SHigh, SCritical][Step(l, 8) + Step(m, 4)])
  {
    assert Defaulted(s.input) == s.input;
    RatingFollows(s.input, l, m);
  }

  /** Without complete factor sets it never is; an absent set counts as an empty one. */
  lemma AcceptedOnlyComplete(s: Stored)
    requires Consistent(s)
    ensures s.Stored? && Acceptable(s.input)
  {
    EightNames();
    assert "skill_level" in Names(LIKELIHOOD);
    FourNames("confidentiality", "integrity", "availability", "accountability");
    assert "integrity" in Names(TECHNICAL);
  }

  /** `round(x, 3)` is a number of thousandths nearest to `x`, and of two such numbers the even one. */
  lemma RoundsToNearest(x: real) returns (n: int)
    ensures Round3(x) == n as real / 1000.0
    ensures -0.5 <= 1000.0 * x - n as real <= 0.5
    ensures 1000.0 * x - n as real == 0.5 || 1000.0 * x - n as real == -0.5 ==> n % 2 == 0
  {
    var below := (x * 1000.0).Floor;
    var rest := x * 1000.0 - below as real;
    n := if rest < 0.5 || (rest == 0.5 && below % 2 == 0) then below else below + 1;
  }

  /** `severity_rank`: -1 without a severity, and otherwise its place from note up to critical. */
  lemma RankIsPlace(s: Severity)
    ensures SeverityRank(None) == -1
    ensures SeverityRank(Some(s)) ==
            match s case SNote => 0 case SLow => 1 case SMedium => 2 case SHigh => 3 case SCritical => 4
  {
    RankIsLevelSum(Low, Low);
    RankIsLevelSum(Low, Medium);
    RankIsLevelSum(Low, High);
    RankIsLevelSum(High, Medium);
    RankIsLevelSum(High, High);
  }
}
