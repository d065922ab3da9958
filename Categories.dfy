/** Keyword classification of indicator names (src/data_preparation.py,
    `assign_category` and `assign_economic_category`). Both lower-case the
    name, test keywords as substrings, and return the category of the first
    keyword that occurs. */
module Categories {
  import opened Text

  datatype Category = Environmental | Social | Governance | Economic | Other

  /** The label the panel stores in its Category column. */
  function Label(c: Category): string
  {
    match c
    case Environmental => "Environmental"
    case Social => "Social"
    case Governance => "Governance"
    case Economic => "Economic"
    case Other => "Other"
  }

  /** Position of a category in the order its keywords are checked. */
  function Rank(c: Category): nat
  {
    match c
    case Environmental => 0
    case Social => 1
    case Governance => 2
    case Economic => 3
    case Other => 4
  }

  /** `assign_category`, rule by rule as the source tests them. */
  function AssignCategory(name: string): Category
  {
    var n := Lower(name);
    if Contains(n, "co2") then Environmental
    else if Contains(n, "fossil") then Environmental
    else if Contains(n, "renewable") then Environmental
    else if Contains(n, "methane") then Environmental
    else if Contains(n, "nitrous") then Environmental
    else if Contains(n, "unemployment") then Social
    else if Contains(n, "gini") then Social
    else if Contains(n, "rights") then Social
    else if Contains(n, "corruption") then Governance
    else if Contains(n, "political") then Governance
    else if Contains(n, "gdp") then Economic
    else if Contains(n, "expenditure") then Economic
    else Other
  }

  /** `assign_economic_category`. */
  function AssignEconomicCategory(name: string): Category
  {
    var n := Lower(name);
    if Contains(n, "gdp") then Economic
    else if Contains(n, "inflation") then Economic
    else if Contains(n, "foreign direct investment") then Economic
    else if Contains(n, "research") || Contains(n, "r&d") then Economic
    else Other
  }

  // ---------------- the rule tables ----------------

  /** `assign_category`'s keywords with their categories, in test order. */
  const EsgRules: seq<(string, Category)> := [
    ("co2", Environmental), ("fossil", Environmental), ("renewable", Environmental),
    ("methane", Environmental), ("nitrous", Environmental),
    ("unemployment", Social), ("gini", Social), ("rights", Social),
    ("corruption", Governance), ("political", Governance),
    ("gdp", Economic), ("expenditure", Economic)
  ]

  /** `assign_economic_category`'s keywords, all mapped to Economic. */
  const EconomicKeywords: seq<string> :=
    ["gdp", "inflation", "foreign direct investment", "research", "r&d"]

  /** A rule table read top to bottom from rule `start`: the category of the
      first keyword that occurs in `s`, or Other when none does. */
  function FirstMatch(rules: seq<(string, Category)>, s: string, start: nat): Category
    decreases |rules| - start
  {
    if start >= |rules| then Other
    else if Contains(s, rules[start].0) then rules[start].1
    else FirstMatch(rules, s, start + 1)
  }

  /** What reading a rule table top to bottom means: the result is the
      category of the first matching rule, and Other exactly when no rule
      matches (provided no rule itself maps to Other). */
  lemma {:induction false} FirstMatchSpec(rules: seq<(string, Category)>, s: string, start: nat)
    requires start <= |rules|
    requires forall i :: 0 <= i < |rules| ==> rules[i].1 != Other
    ensures FirstMatch(rules, s, start) == Other
        <==> forall i :: start <= i < |rules| ==> !Contains(s, rules[i].0)
    ensures forall i :: start <= i < |rules| && Contains(s, rules[i].0)
                        && (forall j :: start <= j < i ==> !Contains(s, rules[j].0))
                        ==> FirstMatch(rules, s, start) == rules[i].1
    decreases |rules| - start
  {
    if start < |rules| {
      FirstMatchSpec(rules, s, start + 1);
    }
  }

  /** `assign_category` is the rule table `EsgRules` read top to bottom on
      the lower-cased name. */
  lemma AssignCategoryIsFirstMatch(name: string)
    ensures AssignCategory(name) == FirstMatch(EsgRules, Lower(name), 0)
  {
    var n := Lower(name);
    var r := EsgRules;
    assert FirstMatch(r, n, 12) == Other;
    assert FirstMatch(r, n, 11) == if Contains(n, r[11].0) then r[11].1 else FirstMatch(r, n, 12);
    assert FirstMatch(r, n, 10) == if Contains(n, r[10].0) then r[10].1 else FirstMatch(r, n, 11);
    assert FirstMatch(r, n, 9) == if Contains(n, r[9].0) then r[9].1 else FirstMatch(r, n, 10);
    assert FirstMatch(r, n, 8) == if Contains(n, r[8].0) then r[8].1 else FirstMatch(r, n, 9);
    assert FirstMatch(r, n, 7) == if Contains(n, r[7].0) then r[7].1 else FirstMatch(r, n, 8);
    assert FirstMatch(r, n, 6) == if Contains(n, r[6].0) then r[6].1 else FirstMatch(r, n, 7);
    assert FirstMatch(r, n, 5) == if Contains(n, r[5].0) then r[5].1 else FirstMatch(r, n, 6);
    assert FirstMatch(r, n, 4) == if Contains(n, r[4].0) then r[4].1 else FirstMatch(r, n, 5);
    assert FirstMatch(r, n, 3) == if Contains(n, r[3].0) then r[3].1 else FirstMatch(r, n, 4);
    assert FirstMatch(r, n, 2) == if Contains(n, r[2].0) then r[2].1 else FirstMatch(r, n, 3);
    assert FirstMatch(r, n, 1) == if Contains(n, r[1].0) then r[1].1 else FirstMatch(r, n, 2);
    assert FirstMatch(r, n, 0) == if Contains(n, r[0].0) then r[0].1 else FirstMatch(r, n, 1);
  }

  /** `assign_category` returns Other exactly when none of its twelve
      keywords occurs in the lower-cased name. */
  lemma AssignCategoryOther(name: string)
    ensures AssignCategory(name) == Other
        <==> forall i :: 0 <= i < |EsgRules| ==> !Contains(Lower(name), EsgRules[i].0)
  {
    AssignCategoryIsFirstMatch(name);
    FirstMatchSpec(EsgRules, Lower(name), 0);
  }

  /** The first keyword of `EsgRules` that occurs decides the category. */
  lemma AssignCategoryFirstWins(name: string, i: nat)
    requires i < |EsgRules| && Contains(Lower(name), EsgRules[i].0)
    requires forall j :: 0 <= j < i ==> !Contains(Lower(name), EsgRules[j].0)
    ensures AssignCategory(name) == EsgRules[i].1
  {
    AssignCategoryIsFirstMatch(name);
    FirstMatchSpec(EsgRules, Lower(name), 0);
  }

  /** Precedence: if a keyword occurs, the category is that keyword's own or
      one checked before it. So a name holding "co2" and "gdp" is
      Environmental, and one holding "rights" and "political" is Social
      unless an Environmental keyword or "unemployment" or "gini" occurs too. */
  lemma AssignCategoryPrecedence(name: string, i: nat)
    requires i < |EsgRules| && Contains(Lower(name), EsgRules[i].0)
    ensures Rank(AssignCategory(name)) <= Rank(EsgRules[i].1)
    ensures AssignCategory(name) != Other
  {
    AssignCategoryIsFirstMatch(name);
    FirstMatchSpec(EsgRules, Lower(name), 0);
    EsgRulesRanked();
    FirstMatchRank(EsgRules, Lower(name), 0, i);
  }

  /** The rules are grouped by category, in Rank order. */
  lemma EsgRulesRanked()
    ensures forall a, b :: 0 <= a <= b < |EsgRules| ==> Rank(EsgRules[a].1) <= Rank(EsgRules[b].1)
  {
  }

  /** With rules in Rank order, the first match ranks no later than any
      rule that matches. */
  lemma {:induction false} FirstMatchRank(rules: seq<(string, Category)>, s: string, start: nat, i: nat)
    requires start <= i < |rules| && Contains(s, rules[i].0)
    requires forall a, b :: 0 <= a <= b < |rules| ==> Rank(rules[a].1) <= Rank(rules[b].1)
    ensures Rank(FirstMatch(rules, s, start)) <= Rank(rules[i].1)
    decreases i - start
  {
    if !Contains(s, rules[start].0) {
      FirstMatchRank(rules, s, start + 1, i);
    }
  }

  /** Upper- or lower-casing a name does not change its category. */
  lemma AssignCategoryCaseInsensitive(name: string)
    ensures AssignCategory(Upper(name)) == AssignCategory(name)
    ensures AssignCategory(Lower(name)) == AssignCategory(name)
    ensures AssignEconomicCategory(Upper(name)) == AssignEconomicCategory(name)
    ensures AssignEconomicCategory(Lower(name)) == AssignEconomicCategory(name)
  {
    LowerIdempotent(name);
  }

  /** `assign_economic_category` answers only Economic or Other, and Economic
      exactly when one of its five keywords occurs in the lower-cased name. */
  lemma AssignEconomicCategorySpec(name: string)
    ensures AssignEconomicCategory(name) == Economic || AssignEconomicCategory(name) == Other
    ensures AssignEconomicCategory(name) == Economic
        <==> exists i :: 0 <= i < |EconomicKeywords| && Contains(Lower(name), EconomicKeywords[i])
  {
    var n := Lower(name);
    var ks := EconomicKeywords;
    if AssignEconomicCategory(name) == Economic {
      if Contains(n, "gdp") {
        assert Contains(n, ks[0]);
      } else if Contains(n, "inflation") {
        assert Contains(n, ks[1]);
      } else if Contains(n, "foreign direct investment") {
        assert Contains(n, ks[2]);
      } else if Contains(n, "research") {
        assert Contains(n, ks[3]);
      } else {
        assert Contains(n, ks[4]);
      }
    }
  }
}
