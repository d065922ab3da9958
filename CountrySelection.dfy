/** The 50-country sample and its summaries (src/country_selection.py). */
module CountrySelection {
  import opened Wrappers
  import opened Ordering
  import opened Collections
  import opened Panel

  // ---------------- the selection list ----------------

  // The selected countries, by Country Name, in the regional groups of the
  // source list.
  /** North America. */
  const NorthAmerica: seq<string> := [
    "United States", "Canada"
  ]

  /** South Asia. */
  const SouthAsia: seq<string> := [
    "India", "Sri Lanka", "Nepal", "Bangladesh", "Maldives", "Bhutan"
  ]

  /** Middle East and North Africa, with Afghanistan and Pakistan. */
  const MiddleEastNorthAfrica: seq<string> := [
    "Israel", "Iran, Islamic Rep.", "Egypt, Arab Rep.", "Tunisia", "Saudi Arabia",
    "Pakistan", "Algeria"
  ]

  /** Latin America and Caribbean. */
  const LatinAmericaCaribbean: seq<string> := [
    "Brazil", "Colombia", "Mexico", "Costa Rica", "Uruguay", "Chile", "Honduras",
    "Bolivia", "Dominican Republic", "Peru"
  ]

  /** East Asia and Pacific. */
  const EastAsiaPacific: seq<string> := [
    "Japan", "Korea, Rep.", "Australia", "China", "Indonesia", "Viet Nam", "Philippines",
    "Cambodia"
  ]

  /** Sub-Saharan Africa. */
  const SubSaharanAfrica: seq<string> := [
    "South Africa", "Mauritius", "Nigeria", "Ghana", "Kenya", "Madagascar", "Rwanda",
    "Burkina Faso"
  ]

  /** Europe and Central Asia. */
  const EuropeCentralAsia: seq<string> := [
    "Germany", "France", "United Kingdom", "Poland", "Romania", "Hungary", "Georgia",
    "Kazakhstan", "Uzbekistan"
  ]

  /** `SELECTED_COUNTRY_NAMES`. */
  const SelectedCountryNames: seq<string> :=
    NorthAmerica + SouthAsia + MiddleEastNorthAfrica + LatinAmericaCaribbean
    + EastAsiaPacific + SubSaharanAfrica + EuropeCentralAsia

  /** Where a name stands in the list; -1 for a name that is not listed.
      Names are told apart by length first. */
  function ListPosition(x: string): int
  {
    if |x| == 4 then
      if x == "Peru" then 24 else
      -1
    else if |x| == 5 then
      if x == "India" then 2 else
      if x == "Nepal" then 4 else
      if x == "Chile" then 20 else
      if x == "Japan" then 25 else
      if x == "China" then 28 else
      if x == "Ghana" then 36 else
      if x == "Kenya" then 37 else
      -1
    else if |x| == 6 then
      if x == "Canada" then 1 else
      if x == "Bhutan" then 7 else
      if x == "Israel" then 8 else
      if x == "Brazil" then 15 else
      if x == "Mexico" then 17 else
      if x == "Rwanda" then 39 else
      if x == "France" then 42 else
      if x == "Poland" then 44 else
      -1
    else if |x| == 7 then
      if x == "Tunisia" then 11 else
      if x == "Algeria" then 14 else
      if x == "Uruguay" then 19 else
      if x == "Bolivia" then 22 else
      if x == "Nigeria" then 35 else
      if x == "Germany" then 41 else
      if x == "Romania" then 45 else
      if x == "Hungary" then 46 else
      if x == "Georgia" then 47 else
      -1
    else if |x| == 8 then
      if x == "Maldives" then 6 else
      if x == "Pakistan" then 13 else
      if x == "Colombia" then 16 else
      if x == "Honduras" then 21 else
      if x == "Viet Nam" then 30 else
      if x == "Cambodia" then 32 else
      -1
    else if |x| == 9 then
      if x == "Sri Lanka" then 3 else
      if x == "Australia" then 27 else
      if x == "Indonesia" then 29 else
      if x == "Mauritius" then 34 else
      -1
    else if |x| == 10 then
      if x == "Bangladesh" then 5 else
      if x == "Costa Rica" then 18 else
      if x == "Madagascar" then 38 else
      if x == "Kazakhstan" then 48 else
      if x == "Uzbekistan" then 49 else
      -1
    else if |x| == 11 then
      if x == "Korea, Rep." then 26 else
      if x == "Philippines" then 31 else
      -1
    else if |x| == 12 then
      if x == "Saudi Arabia" then 12 else
      if x == "South Africa" then 33 else
      if x == "Burkina Faso" then 40 else
      -1
    else if |x| == 13 then
      if x == "United States" then 0 else
      -1
    else if |x| == 14 then
      if x == "United Kingdom" then 43 else
      -1
    else if |x| == 16 then
      if x == "Egypt, Arab Rep." then 10 else
      -1
    else if |x| == 18 then
      if x == "Iran, Islamic Rep." then 9 else
      if x == "Dominican Republic" then 23 else
      -1
    else -1
  }

  // Each regional group's names sit at consecutive positions.

  lemma {:induction false} ListPositionsInNorthAmerica()
    ensures forall j :: 0 <= j < |NorthAmerica| ==> ListPosition(NorthAmerica[j]) == j
  {
    forall j | 0 <= j < |NorthAmerica|
      ensures ListPosition(NorthAmerica[j]) == j
    {
      assert j == 0 || j == 1;
    }
  }

  lemma {:induction false} ListPositionsInSouthAsia()
    ensures forall j :: 0 <= j < |SouthAsia| ==> ListPosition(SouthAsia[j]) == 2 + j
  {
    forall j | 0 <= j < |SouthAsia|
      ensures ListPosition(SouthAsia[j]) == 2 + j
    {
      assert j == 0 || j == 1 || j == 2 || j == 3 || j == 4 || j == 5;
    }
  }

  lemma {:induction false} ListPositionsInMiddleEastNorthAfrica()
    ensures forall j :: 0 <= j < |MiddleEastNorthAfrica| ==> ListPosition(MiddleEastNorthAfrica[j]) == 8 + j
  {
    forall j | 0 <= j < |MiddleEastNorthAfrica|
      ensures ListPosition(MiddleEastNorthAfrica[j]) == 8 + j
    {
      assert j == 0 || j == 1 || j == 2 || j == 3 || j == 4 || j == 5 || j == 6;
    }
  }

  lemma {:induction false} ListPositionsInLatinAmericaCaribbean()
    ensures forall j :: 0 <= j < |LatinAmericaCaribbean| ==> ListPosition(LatinAmericaCaribbean[j]) == 15 + j
  {
    forall j | 0 <= j < |LatinAmericaCaribbean|
      ensures ListPosition(LatinAmericaCaribbean[j]) == 15 + j
    {
      assert j == 0 || j == 1 || j == 2 || j == 3 || j == 4 || j == 5 || j == 6 || j == 7 || j == 8 || j == 9;
    }
  }

  lemma {:induction false} ListPositionsInEastAsiaPacific()
    ensures forall j :: 0 <= j < |EastAsiaPacific| ==> ListPosition(EastAsiaPacific[j]) == 25 + j
  {
    forall j | 0 <= j < |EastAsiaPacific|
      ensures ListPosition(EastAsiaPacific[j]) == 25 + j
    {
      assert j == 0 || j == 1 || j == 2 || j == 3 || j == 4 || j == 5 || j == 6 || j == 7;
    }
  }

  lemma {:induction false} ListPositionsInSubSaharanAfrica()
    ensures forall j :: 0 <= j < |SubSaharanAfrica| ==> ListPosition(SubSaharanAfrica[j]) == 33 + j
  {
    forall j | 0 <= j < |SubSaharanAfrica|
      ensures ListPosition(SubSaharanAfrica[j]) == 33 + j
    {
      assert j == 0 || j == 1 || j == 2 || j == 3 || j == 4 || j == 5 || j == 6 || j == 7;
    }
  }

  lemma {:induction false} ListPositionsInEuropeCentralAsia()
    ensures forall j :: 0 <= j < |EuropeCentralAsia| ==> ListPosition(EuropeCentralAsia[j]) == 41 + j
  {
    forall j | 0 <= j < |EuropeCentralAsia|
      ensures ListPosition(EuropeCentralAsia[j]) == 41 + j
    {
      assert j == 0 || j == 1 || j == 2 || j == 3 || j == 4 || j == 5 || j == 6 || j == 7 || j == 8;
    }
  }

  /** Each name of the list is found at its own position. */
  lemma ListPositionOfEach()
    ensures forall i :: 0 <= i < |SelectedCountryNames| ==> ListPosition(SelectedCountryNames[i]) == i
  {
    ListPositionsInNorthAmerica();
    ListPositionsInSouthAsia();
    ListPositionsInMiddleEastNorthAfrica();
    ListPositionsInLatinAmericaCaribbean();
    ListPositionsInEastAsiaPacific();
    ListPositionsInSubSaharanAfrica();
    ListPositionsInEuropeCentralAsia();
  }

  /** The list names 50 countries, each once. */
  lemma SelectedCountryNamesDistinct()
    ensures |SelectedCountryNames| == 50
    ensures NoDuplicates(SelectedCountryNames)
    ensures |set n | n in SelectedCountryNames| == 50
  {
    ListPositionOfEach();
    NoDuplicatesCard(SelectedCountryNames);
  }

  // ---------------- select_50_countries ----------------

  datatype SelectionError = EmptySelection

  /** The rows whose Country Name is in `names`, in their order. */
  function KeepNamed(df: seq<PanelRow>, names: seq<string>): (r: seq<PanelRow>)
    ensures |r| <= |df|
  {
    if df == [] then []
    else (if df[0].countryName in names then [df[0]] else []) + KeepNamed(df[1..], names)
  }

  /** `select_50_countries`: without a list the default list is used; an
      empty list is an error; otherwise the rows whose Country Name is
      listed. */
  function Select50Countries(df: seq<PanelRow>, selectedNames: Option<seq<string>>)
    : (r: Result<seq<PanelRow>, SelectionError>)
    ensures r.Failure? <==> selectedNames == Some([])
  {
    var names := if selectedNames.None? then SelectedCountryNames else selectedNames.value;
    if names == [] then Failure(EmptySelection)
    else Success(KeepNamed(df, names))
  }

  /** `s` is `t` with some elements left out, the rest in order. */
  predicate IsSubsequence<T(==)>(s: seq<T>, t: seq<T>)
    decreases |t|
  {
    if s == [] then true
    else if t == [] then false
    else if s[0] == t[0] then IsSubsequence(s[1..], t[1..])
    else IsSubsequence(s, t[1..])
  }

  /** The filter keeps exactly the rows with a listed name, each as often as
      it occurs, unchanged and in order. */
  lemma {:induction false} KeepNamedSpec(df: seq<PanelRow>, names: seq<string>)
    ensures forall p :: p in KeepNamed(df, names) <==> p in df && p.countryName in names
    ensures forall p :: multiset(KeepNamed(df, names))[p] ==
              if p.countryName in names then multiset(df)[p] else 0
    ensures IsSubsequence(KeepNamed(df, names), df)
  {
    if df != [] {
      var rest := df[1..];
      KeepNamedSpec(rest, names);
      assert df == [df[0]] + rest;
      var r := KeepNamed(df, names);
      if df[0].countryName in names {
        assert r[0] == df[0] && r[1..] == KeepNamed(rest, names);
      } else {
        assert r == KeepNamed(rest, names);
        SubsequenceSkip(r, df);
      }
    }
  }

  lemma SubsequenceSkip<T>(s: seq<T>, t: seq<T>)
    requires t != [] && IsSubsequence(s, t[1..])
    ensures IsSubsequence(s, t)
    decreases |t|, 0
  {
    if s != [] && s[0] == t[0] {
      SubsequenceTail(s, t[1..]);
    }
  }

  lemma SubsequenceTail<T>(s: seq<T>, t: seq<T>)
    requires s != [] && IsSubsequence(s, t)
    ensures IsSubsequence(s[1..], t)
    decreases |t|, 1
  {
    if s[0] != t[0] {
      SubsequenceTail(s, t[1..]);
      SubsequenceSkip(s[1..], t);
    } else if s[1..] != [] {
      SubsequenceSkip(s[1..], t);
    }
  }

  /** Filtering a row followed by a table. */
  lemma KeepNamedCons(x: PanelRow, s: seq<PanelRow>, names: seq<string>)
    ensures KeepNamed([x] + s, names) == (if x.countryName in names then [x] else []) + KeepNamed(s, names)
  {
    assert ([x] + s)[0] == x && ([x] + s)[1..] == s;
  }

  /** Filtering a concatenation filters each part. */
  lemma {:induction false} KeepNamedAppend(a: seq<PanelRow>, b: seq<PanelRow>, names: seq<string>)
    ensures KeepNamed(a + b, names) == KeepNamed(a, names) + KeepNamed(b, names)
  {
    if a == [] {
      assert a + b == b;
    } else {
      var t := a[1..];
      var h := if a[0].countryName in names then [a[0]] else [];
      assert a == [a[0]] + t;
      assert a + b == [a[0]] + (t + b);
      KeepNamedCons(a[0], t, names);
      KeepNamedCons(a[0], t + b, names);
      KeepNamedAppend(t, b, names);
      assert h + (KeepNamed(t, names) + KeepNamed(b, names))
          == (h + KeepNamed(t, names)) + KeepNamed(b, names);
    }
  }

  /** Selecting again with the same list changes nothing. */
  lemma {:induction false} KeepNamedIdempotent(df: seq<PanelRow>, names: seq<string>)
    ensures KeepNamed(KeepNamed(df, names), names) == KeepNamed(df, names)
  {
    if df != [] {
      KeepNamedIdempotent(df[1..], names);
      var tail := KeepNamed(df[1..], names);
      if df[0].countryName in names {
        assert KeepNamed(df, names) == [df[0]] + tail;
        KeepNamedAppend([df[0]], tail, names);
        assert [df[0]][1..] == [];
        assert KeepNamed([df[0]], names) == [df[0]];
      } else {
        assert KeepNamed(df, names) == tail;
      }
    }
  }

  lemma Select50CountriesIdempotent(df: seq<PanelRow>, selectedNames: Option<seq<string>>)
    requires Select50Countries(df, selectedNames).Success?
    ensures Select50Countries(Select50Countries(df, selectedNames).value, selectedNames)
            == Select50Countries(df, selectedNames)
  {
    var names := if selectedNames.None? then SelectedCountryNames else selectedNames.value;
    KeepNamedIdempotent(df, names);
  }

  /** Without a list, the default list is the selection. */
  lemma SelectDefault(df: seq<PanelRow>)
    ensures Select50Countries(df, None) == Select50Countries(df, Some(SelectedCountryNames))
    ensures Select50Countries(df, None) == Success(KeepNamed(df, SelectedCountryNames))
  {
    SelectedCountryNamesDistinct();
  }

  /** The distinct Country Names of a table. */
  function DistinctNames(df: seq<PanelRow>): set<string>
  {
    set p | p in df :: p.countryName
  }

  /** The names in the output are the listed names that occur in the input;
      a listed name that no row carries (for instance, spelled differently)
      contributes nothing. */
  lemma KeepNamedNames(df: seq<PanelRow>, names: seq<string>)
    ensures DistinctNames(KeepNamed(df, names)) == (set n | n in names) * DistinctNames(df)
  {
    KeepNamedSpec(df, names);
    var r := KeepNamed(df, names);
    forall n | n in (set n | n in names) * DistinctNames(df)
      ensures n in DistinctNames(r)
    {
      var p :| p in df && p.countryName == n;
      assert p in r;
    }
  }

  /** With the default list the output covers at most 50 countries. */
  lemma SelectDefaultAtMost50(df: seq<PanelRow>)
    ensures Select50Countries(df, None).Success?
    ensures DistinctNames(Select50Countries(df, None).value) <= set n | n in SelectedCountryNames
    ensures |DistinctNames(Select50Countries(df, None).value)| <= 50
  {
    KeepNamedNames(df, SelectedCountryNames);
    SelectedCountryNamesDistinct();
    var r := Select50Countries(df, None).value;
    assert DistinctNames(r) <= set n | n in SelectedCountryNames;
    SubsetCard(DistinctNames(r), set n | n in SelectedCountryNames);
  }

  lemma SubsetCard<T>(a: set<T>, b: set<T>)
    requires a <= b
    ensures |a| <= |b|
  {
    assert b == a + (b - a);
  }

  // ---------------- make_region_income_table ----------------

  /** The (Country Name, Region, Income Group) columns of a row. */
  datatype Country = Country(name: string, region: Option<string>, incomeGroup: Option<string>)

  function CountryOf(p: PanelRow): Country
  {
    Country(p.countryName, p.region, p.incomeGroup)
  }

  function Countries(df: seq<PanelRow>): seq<Country>
  {
    seq(|df|, i requires 0 <= i < |df| => CountryOf(df[i]))
  }

  /** Both Region and Income Group are present: `crosstab` counts only
      such countries, in the cells and in the totals. */
  predicate Classified(c: Country)
  {
    c.region.Some? && c.incomeGroup.Some?
  }

  /** The (Region, Income Group) pairs of the classified countries, in
      order. */
  function Pairs(cs: seq<Country>): (ps: seq<(string, string)>)
    ensures forall x :: x in ps <==>
              exists c :: c in cs && c.region == Some(x.0) && c.incomeGroup == Some(x.1)
  {
    if cs == [] then []
    else
      var c := cs[0];
      var rest := Pairs(cs[1..]);
      assert forall x :: x in rest ==> exists d :: d in cs && d.region == Some(x.0) && d.incomeGroup == Some(x.1) by {
        forall x | x in rest
          ensures exists d :: d in cs && d.region == Some(x.0) && d.incomeGroup == Some(x.1)
        {
          var d :| d in cs[1..] && d.region == Some(x.0) && d.incomeGroup == Some(x.1);
          assert d in cs;
        }
      }
      (if Classified(c) then [(c.region.value, c.incomeGroup.value)] else []) + rest
  }

  function Fst(p: (string, string)): string { p.0 }
  function Snd(p: (string, string)): string { p.1 }

  function StrKey(s: string): seq<KeyPart> { [Str(s)] }

  /** The label `f` gives each pair, in order. */
  function Labels(ps: seq<(string, string)>, f: ((string, string)) -> string): (l: seq<string>)
    ensures |l| == |ps|
  {
    seq(|ps|, i requires 0 <= i < |ps| => f(ps[i]))
  }

  /** A crosstab axis: the labels `f` gives, each once, ascending. */
  function Axis(ps: seq<(string, string)>, f: ((string, string)) -> string): seq<string>
  {
    SortBy(Distinct(Labels(ps, f)), StrKey)
  }

  /** The pairs with region `r`, in order. */
  function InRegion(ps: seq<(string, string)>, r: string): seq<(string, string)>
  {
    if ps == [] then []
    else (if ps[0].0 == r then [ps[0]] else []) + InRegion(ps[1..], r)
  }

  /** The pairs with income group `g`, in order. */
  function InIncome(ps: seq<(string, string)>, g: string): seq<(string, string)>
  {
    if ps == [] then []
    else (if ps[0].1 == g then [ps[0]] else []) + InIncome(ps[1..], g)
  }

  /** The Region x Income Group table: the sorted row and column labels,
      the cell counts, the Total column (`regionTotals`), the Total row
      (`incomeTotals`) and the grand Total. */
  datatype CrossTable = CrossTable(
    regions: seq<string>,
    incomes: seq<string>,
    cells: seq<seq<nat>>,
    regionTotals: seq<nat>,
    incomeTotals: seq<nat>,
    total: nat)

  /** The counting `crosstab` does for `make_region_income_table`: the
      distinct (Country Name, Region, Income Group) rows, counted per
      (Region, Income Group), with totals. The totals are counts of the same
      data. */
  function Crosstab(df: seq<PanelRow>): CrossTable
  {
    var ps := Pairs(Distinct(Countries(df)));
    var regions := Axis(ps, Fst);
    var incomes := Axis(ps, Snd);
    CrossTable(
      regions,
      incomes,
      seq(|regions|, i requires 0 <= i < |regions| => CountsFor(InRegion(ps, regions[i]), Snd, incomes)),
      CountsFor(ps, Fst, regions),
      CountsFor(ps, Snd, incomes),
      |ps|)
  }

  /** The label of the margins, `margins_name="Total"`. */
  const MarginName: string := "Total"

  /** Why `crosstab(..., margins=True)` raises: a counted Region or Income
      Group is itself the margin label. */
  datatype CrosstabError = ConflictingMarginName

  /** `make_region_income_table`: the counts, or the error `crosstab`
      raises while adding the margins. When no row has both labels the
      margins have nothing to add, and the table is empty with a Total of
      zero (pandas 2 behaviour). */
  function MakeRegionIncomeTable(df: seq<PanelRow>): Result<CrossTable, CrosstabError>
  {
    var t := Crosstab(df);
    if MarginName in t.regions || MarginName in t.incomes then Failure(ConflictingMarginName)
    else Success(t)
  }

  /** Column `j` of a table of counts. */
  function Column(cells: seq<seq<nat>>, j: nat): seq<nat>
    requires forall i :: 0 <= i < |cells| ==> j < |cells[i]|
  {
    seq(|cells|, i requires 0 <= i < |cells| => cells[i][j])
  }

  // ---------------- properties of the table ----------------

  /** An axis lists each label once, ascending, and exactly the labels
      that occur. */
  lemma AxisSpec(ps: seq<(string, string)>, f: ((string, string)) -> string)
    ensures NoDuplicates(Axis(ps, f))
    ensures SortedBy(Axis(ps, f), StrKey)
    ensures forall x :: x in Axis(ps, f) <==> exists k :: 0 <= k < |ps| && f(ps[k]) == x
  {
    var d := Distinct(Labels(ps, f));
    DistinctSpec(Labels(ps, f));
    SortByPermutes(d, StrKey);
    NoDuplicatesPermutation(d, Axis(ps, f));
    SortBySorted(d, StrKey);
    AxisMembers(ps, f);
  }

  lemma AxisMembers(ps: seq<(string, string)>, f: ((string, string)) -> string)
    ensures forall x :: x in Axis(ps, f) <==> exists k :: 0 <= k < |ps| && f(ps[k]) == x
  {
    var l := Labels(ps, f);
    var d := Distinct(l);
    DistinctSpec(l);
    SortByPermutes(d, StrKey);
    forall x
      ensures x in Axis(ps, f) <==> exists k :: 0 <= k < |ps| && f(ps[k]) == x
    {
      assert x in Axis(ps, f) <==> x in multiset(Axis(ps, f));
      assert x in d <==> x in multiset(d);
      if x in l {
        var k :| 0 <= k < |l| && l[k] == x;
      }
      if exists k :: 0 <= k < |ps| && f(ps[k]) == x {
        var k :| 0 <= k < |ps| && f(ps[k]) == x;
        assert l[k] == x;
      }
    }
  }


  lemma {:induction false} InRegionCount(ps: seq<(string, string)>, r: string)
    ensures CountWith(ps, Fst, r) == |InRegion(ps, r)|
    ensures forall x :: x in InRegion(ps, r) <==> x in ps && x.0 == r
  {
    if ps != [] {
      InRegionCount(ps[1..], r);
      assert ps == [ps[0]] + ps[1..];
    }
  }

  lemma {:induction false} InIncomeCount(ps: seq<(string, string)>, g: string)
    ensures CountWith(ps, Snd, g) == |InIncome(ps, g)|
    ensures forall x :: x in InIncome(ps, g) <==> x in ps && x.1 == g
  {
    if ps != [] {
      InIncomeCount(ps[1..], g);
      assert ps == [ps[0]] + ps[1..];
    }
  }

  /** Counting one income group among a region's pairs is counting that
      region among the income group's pairs. */
  lemma {:induction false} CountSwap(ps: seq<(string, string)>, r: string, g: string)
    ensures CountWith(InRegion(ps, r), Snd, g) == CountWith(InIncome(ps, g), Fst, r)
  {
    if ps != [] {
      CountSwap(ps[1..], r, g);
      var x := ps[0];
      var a, b := InRegion(ps[1..], r), InIncome(ps[1..], g);
      if x.0 == r {
        assert InRegion(ps, r) == [x] + a;
        assert ([x] + a)[1..] == a;
      } else {
        assert InRegion(ps, r) == a;
      }
      if x.1 == g {
        assert InIncome(ps, g) == [x] + b;
        assert ([x] + b)[1..] == b;
      } else {
        assert InIncome(ps, g) == b;
      }
    }
  }

  /** Each region's Total is the sum of its row of cells. */
  lemma RegionTotalsAreRowSums(df: seq<PanelRow>)
    ensures var t := Crosstab(df);
      && |t.regionTotals| == |t.cells| == |t.regions|
      && forall i :: 0 <= i < |t.regions| ==> t.regionTotals[i] == Sum(t.cells[i])
  {
    var t := Crosstab(df);
    var ps := Pairs(Distinct(Countries(df)));
    AxisSpec(ps, Snd);
    forall i | 0 <= i < |t.regions|
      ensures t.regionTotals[i] == Sum(t.cells[i])
    {
      var inr := InRegion(ps, t.regions[i]);
      InRegionCount(ps, t.regions[i]);
      forall x | x in inr
        ensures Snd(x) in t.incomes
      {
        var k :| 0 <= k < |ps| && ps[k] == x;
      }
      SumCountsIsLength(inr, Snd, t.incomes);
    }
  }

  /** Each income group's Total is the sum of its column of cells. */
  lemma IncomeTotalsAreColumnSums(df: seq<PanelRow>)
    ensures var t := Crosstab(df);
      && |t.incomeTotals| == |t.incomes|
      && (forall i :: 0 <= i < |t.cells| ==> |t.cells[i]| == |t.incomes|)
      && forall j :: 0 <= j < |t.incomes| ==> t.incomeTotals[j] == Sum(Column(t.cells, j))
  {
    var t := Crosstab(df);
    var ps := Pairs(Distinct(Countries(df)));
    AxisSpec(ps, Fst);
    forall j | 0 <= j < |t.incomes|
      ensures t.incomeTotals[j] == Sum(Column(t.cells, j))
    {
      var g := t.incomes[j];
      var ing := InIncome(ps, g);
      InIncomeCount(ps, g);
      forall i | 0 <= i < |t.regions|
        ensures Column(t.cells, j)[i] == CountsFor(ing, Fst, t.regions)[i]
      {
        CountSwap(ps, t.regions[i], g);
      }
      assert Column(t.cells, j) == CountsFor(ing, Fst, t.regions);
      forall x | x in ing
        ensures Fst(x) in t.regions
      {
        var k :| 0 <= k < |ps| && ps[k] == x;
      }
      SumCountsIsLength(ing, Fst, t.regions);
    }
  }

  /** Number of countries of `cs` that satisfy `p`, with repeats. */
  function CountSat(cs: seq<Country>, p: Country -> bool): nat
  {
    if cs == [] then 0 else (if p(cs[0]) then 1 else 0) + CountSat(cs[1..], p)
  }

  /** Without repeats, that is the number of distinct such countries. */
  lemma {:induction false} CountSatCard(cs: seq<Country>, p: Country -> bool)
    requires NoDuplicates(cs)
    ensures CountSat(cs, p) == |set c | c in cs && p(c)|
  {
    if cs != [] {
      var rest := cs[1..];
      assert NoDuplicates(rest) by {
        forall i, j | 0 <= i < j < |rest|
          ensures rest[i] != rest[j]
        {
          assert rest[i] == cs[i + 1] && rest[j] == cs[j + 1];
        }
      }
      CountSatCard(rest, p);
      var tail := set c | c in rest && p(c);
      forall k | 0 <= k < |rest|
        ensures rest[k] != cs[0]
      {
        assert rest[k] == cs[k + 1];
      }
      if p(cs[0]) {
        assert (set c | c in cs && p(c)) == {cs[0]} + tail;
      } else {
        assert (set c | c in cs && p(c)) == tail;
      }
    }
  }

  lemma {:induction false} PairsCount(cs: seq<Country>)
    ensures |Pairs(cs)| == CountSat(cs, Classified)
  {
    if cs != [] {
      PairsCount(cs[1..]);
    }
  }

  /** The cell count is the number of classified countries with that region
      and that income group. */
  lemma {:induction false} CellCount(cs: seq<Country>, r: string, g: string)
    ensures CountWith(InRegion(Pairs(cs), r), Snd, g)
         == CountSat(cs, (c: Country) => c.region == Some(r) && c.incomeGroup == Some(g))
  {
    if cs != [] {
      CellCount(cs[1..], r, g);
      var c := cs[0];
      var rest := Pairs(cs[1..]);
      if Classified(c) {
        var x := (c.region.value, c.incomeGroup.value);
        assert Pairs(cs) == [x] + rest;
        assert ([x] + rest)[0] == x && ([x] + rest)[1..] == rest;
        if x.0 == r {
          assert InRegion(Pairs(cs), r) == [x] + InRegion(rest, r);
          assert ([x] + InRegion(rest, r))[1..] == InRegion(rest, r);
        } else {
          assert InRegion(Pairs(cs), r) == InRegion(rest, r);
        }
      } else {
        assert Pairs(cs) == rest;
      }
    }
  }

  /** Cell (i, j) counts the distinct countries of the table whose Region
      is row label i and whose Income Group is column label j; a country
      listed with several names counts once per name. */
  lemma CellIsCountryCount(df: seq<PanelRow>, i: nat, j: nat)
    requires i < |Crosstab(df).regions| && j < |Crosstab(df).incomes|
    ensures var t := Crosstab(df);
      |t.cells[i]| == |t.incomes|
      && t.cells[i][j] == |set c | c in Countries(df) && c.region == Some(t.regions[i])
                                   && c.incomeGroup == Some(t.incomes[j])|
  {
    var t := Crosstab(df);
    var d := Distinct(Countries(df));
    var r, g := t.regions[i], t.incomes[j];
    DistinctSpec(Countries(df));
    CellCount(d, r, g);
    var p := (c: Country) => c.region == Some(r) && c.incomeGroup == Some(g);
    CountSatCard(d, p);
    assert (set c | c in d && p(c)) == set c | c in Countries(df) && c.region == Some(r) && c.incomeGroup == Some(g);
  }

  /** Counting the pairs per label, over an axis, adds up to all pairs. */
  lemma AxisCountsSum(ps: seq<(string, string)>, f: ((string, string)) -> string)
    ensures Sum(CountsFor(ps, f, Axis(ps, f))) == |ps|
  {
    AxisSpec(ps, f);
    forall x | x in ps
      ensures f(x) in Axis(ps, f)
    {
      var k :| 0 <= k < |ps| && ps[k] == x;
    }
    SumCountsIsLength(ps, f, Axis(ps, f));
  }

  /** The grand Total is the sum of the Total column and of the Total row,
      and the number of distinct classified countries. */
  lemma GrandTotal(df: seq<PanelRow>)
    ensures var t := Crosstab(df);
      && t.total == Sum(t.regionTotals)
      && t.total == Sum(t.incomeTotals)
      && t.total == |set c | c in Countries(df) && Classified(c)|
  {
    var ps := Pairs(Distinct(Countries(df)));
    AxisCountsSum(ps, Fst);
    AxisCountsSum(ps, Snd);
    ClassifiedCount(Countries(df));
  }

  /** One pair per distinct classified country. */
  lemma ClassifiedCount(cs: seq<Country>)
    ensures |Pairs(Distinct(cs))| == |set c | c in cs && Classified(c)|
  {
    var d := Distinct(cs);
    DistinctSpec(cs);
    PairsCount(d);
    CountSatCard(d, Classified);
    var p: Country -> bool := Classified;
    assert (set c | c in d && p(c)) == set c | c in cs && Classified(c);
  }

  /** An axis of the pairs of `cs` holds the labels of its classified
      countries. */
  lemma AxisOfPairs(cs: seq<Country>)
    ensures forall r :: r in Axis(Pairs(cs), Fst) <==> exists c :: c in cs && Classified(c) && c.region == Some(r)
    ensures forall g :: g in Axis(Pairs(cs), Snd) <==> exists c :: c in cs && Classified(c) && c.incomeGroup == Some(g)
  {
    RegionAxisOfPairs(cs);
    IncomeAxisOfPairs(cs);
  }

  lemma RegionAxisOfPairs(cs: seq<Country>)
    ensures forall r :: r in Axis(Pairs(cs), Fst) <==> exists c :: c in cs && Classified(c) && c.region == Some(r)
  {
    var ps := Pairs(cs);
    AxisMembers(ps, Fst);
    forall r
      ensures r in Axis(ps, Fst) <==> exists c :: c in cs && Classified(c) && c.region == Some(r)
    {
      if r in Axis(ps, Fst) {
        var k :| 0 <= k < |ps| && Fst(ps[k]) == r;
        assert ps[k] in ps;
      }
      if exists c :: c in cs && Classified(c) && c.region == Some(r) {
        var c :| c in cs && Classified(c) && c.region == Some(r);
        var x := (r, c.incomeGroup.value);
        assert x in ps;
        var k :| 0 <= k < |ps| && ps[k] == x;
      }
    }
  }

  lemma IncomeAxisOfPairs(cs: seq<Country>)
    ensures forall g :: g in Axis(Pairs(cs), Snd) <==> exists c :: c in cs && Classified(c) && c.incomeGroup == Some(g)
  {
    var ps := Pairs(cs);
    AxisMembers(ps, Snd);
    forall g
      ensures g in Axis(ps, Snd) <==> exists c :: c in cs && Classified(c) && c.incomeGroup == Some(g)
    {
      if g in Axis(ps, Snd) {
        var k :| 0 <= k < |ps| && Snd(ps[k]) == g;
        assert ps[k] in ps;
      }
      if exists c :: c in cs && Classified(c) && c.incomeGroup == Some(g) {
        var c :| c in cs && Classified(c) && c.incomeGroup == Some(g);
        var x := (c.region.value, g);
        assert x in ps;
        var k :| 0 <= k < |ps| && ps[k] == x;
      }
    }
  }

  /** The row labels are the regions of the classified countries, each once
      and ascending; the column labels likewise for income groups. */
  lemma AxesSpec(df: seq<PanelRow>)
    ensures var t := Crosstab(df);
      && NoDuplicates(t.regions) && SortedBy(t.regions, StrKey)
      && NoDuplicates(t.incomes) && SortedBy(t.incomes, StrKey)
      && (forall r :: r in t.regions <==>
            exists c :: c in Countries(df) && Classified(c) && c.region == Some(r))
      && (forall g :: g in t.incomes <==>
            exists c :: c in Countries(df) && Classified(c) && c.incomeGroup == Some(g))
  {
    var d := Distinct(Countries(df));
    AxisSpec(Pairs(d), Fst);
    AxisSpec(Pairs(d), Snd);
    AxisOfPairs(d);
    DistinctSpec(Countries(df));
  }

  /** `make_region_income_table` fails with a conflicting name exactly
      when some counted row has "Total" as its Region or Income Group, and
      otherwise returns the counts. Those have no row labels exactly when
      no row has both labels, and then the table is empty with a Total of
      zero. */
  lemma MakeRegionIncomeTableSpec(df: seq<PanelRow>)
    ensures MakeRegionIncomeTable(df) == Failure(ConflictingMarginName) <==>
              exists c :: c in Countries(df) && Classified(c)
                && (c.region == Some(MarginName) || c.incomeGroup == Some(MarginName))
    ensures MakeRegionIncomeTable(df).Success? ==> MakeRegionIncomeTable(df).value == Crosstab(df)
    ensures MakeRegionIncomeTable(df).Success? && MakeRegionIncomeTable(df).value.regions == [] <==>
              forall c :: c in Countries(df) ==> !Classified(c)
    ensures (forall c :: c in Countries(df) ==> !Classified(c)) ==>
              MakeRegionIncomeTable(df) == Success(CrossTable([], [], [], [], [], 0))
  {
    AxesSpec(df);
    NoRegionsIffUnclassified(df);
    if forall c :: c in Countries(df) ==> !Classified(c) {
      EmptyCrosstab(df);
    }
  }

  /** With no row holding both labels the counts are the empty table. */
  lemma EmptyCrosstab(df: seq<PanelRow>)
    requires forall c :: c in Countries(df) ==> !Classified(c)
    ensures Crosstab(df) == CrossTable([], [], [], [], [], 0)
  {
    AxesSpec(df);
    NoRegionsIffUnclassified(df);
    GrandTotal(df);
    assert (set c | c in Countries(df) && Classified(c)) == {};
  }

  /** The table has no row labels exactly when no row has both labels. */
  lemma NoRegionsIffUnclassified(df: seq<PanelRow>)
    ensures Crosstab(df).regions == [] <==> forall c :: c in Countries(df) ==> !Classified(c)
  {
    var t := Crosstab(df);
    AxesSpec(df);
    if t.regions != [] {
      assert t.regions[0] in t.regions;
    }
    if exists c :: c in Countries(df) && Classified(c) {
      var c :| c in Countries(df) && Classified(c);
      assert c.region.value in t.regions;
    }
  }

  // ---------------- get_selected_countries_metadata ----------------

  /** The Country Name, Country Code, Region and Income Group of a row. */
  datatype Metadata = Metadata(name: string, code: string, region: Option<string>, incomeGroup: Option<string>)

  function MetadataOf(p: PanelRow): Metadata
  {
    Metadata(p.countryName, p.countryCode, p.region, p.incomeGroup)
  }

  /** A missing Region or Income Group sorts after every label. */
  function OptionKey(o: Option<string>): KeyPart
  {
    if o.None? then Na else Str(o.value)
  }

  /** The sort columns: Region, Income Group, Country Name. */
  function MetadataKey(m: Metadata): seq<KeyPart>
  {
    [OptionKey(m.region), OptionKey(m.incomeGroup), Str(m.name)]
  }

  /** A listing row: its index label, counted from 1, and its columns. */
  datatype Listed = Listed(index: nat, row: Metadata)

  /** The four metadata columns of every row, in table order. */
  function MetadataColumn(df: seq<PanelRow>): seq<Metadata>
  {
    seq(|df|, i requires 0 <= i < |df| => MetadataOf(df[i]))
  }

  lemma MetadataColumnSpec(df: seq<PanelRow>)
    ensures forall m :: m in MetadataColumn(df) <==> exists p :: p in df && MetadataOf(p) == m
  {
    var all := MetadataColumn(df);
    forall m
      ensures m in all <==> exists p :: p in df && MetadataOf(p) == m
    {
      if m in all {
        var i :| 0 <= i < |all| && all[i] == m;
        assert df[i] in df;
      }
      if exists p :: p in df && MetadataOf(p) == m {
        var p :| p in df && MetadataOf(p) == m;
        var i :| 0 <= i < |df| && df[i] == p;
        assert all[i] == m;
      }
    }
  }

  /** `get_selected_countries_metadata`: the four columns of every row, each
      distinct combination once, sorted, labelled 1, 2, ... */
  function GetSelectedCountriesMetadata(df: seq<PanelRow>): (r: seq<Listed>)
    ensures forall i :: 0 <= i < |r| ==> r[i].index == i + 1
  {
    var ms := SortBy(Distinct(MetadataColumn(df)), MetadataKey);
    seq(|ms|, i requires 0 <= i < |ms| => Listed(i + 1, ms[i]))
  }

  /** The rows of the listing, without labels. */
  function Rows(r: seq<Listed>): (ms: seq<Metadata>)
    ensures |ms| == |r|
  {
    seq(|r|, i requires 0 <= i < |r| => r[i].row)
  }

  /** The listing holds each combination of the four columns that occurs in
      the table, once, sorted by Region, Income Group and Country Name; it
      has as many rows as there are such combinations. */
  lemma MetadataSpec(df: seq<PanelRow>)
    ensures var ms := Rows(GetSelectedCountriesMetadata(df));
      && NoDuplicates(ms)
      && SortedBy(ms, MetadataKey)
      && (forall m :: m in ms <==> exists p :: p in df && MetadataOf(p) == m)
      && |ms| == |set p | p in df :: MetadataOf(p)|
  {
    var all := MetadataColumn(df);
    var d := Distinct(all);
    var sorted := SortBy(d, MetadataKey);
    var ms := Rows(GetSelectedCountriesMetadata(df));
    assert ms == sorted;
    DistinctSpec(all);
    MetadataColumnSpec(df);
    SortByPermutes(d, MetadataKey);
    SortBySorted(d, MetadataKey);
    NoDuplicatesPermutation(d, sorted);
    forall m
      ensures m in ms <==> m in all
    {
      assert m in sorted <==> m in multiset(sorted);
      assert m in d <==> m in multiset(d);
    }
    NoDuplicatesCard(ms);
    assert (set m | m in ms) == set p | p in df :: MetadataOf(p);
  }
}
