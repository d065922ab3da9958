/** The country classification table and the long panel
    (src/data_preparation.py, `prepare_country_classification` and
    `merge_to_panel`). */
module Panel {
  import opened Wrappers
  import opened Ordering
  import opened Categories
  import opened Reshape
  import opened Collections

  // ---------------- country classification ----------------

  /** One row of the raw classification file: Economy, Code, Region,
      Income group, Lending category. */
  datatype ClassRow = ClassRow(
    economy: string,
    code: string,
    region: Option<string>,
    incomeGroup: Option<string>,
    lendingCategory: Option<string>)

  /** One row of the cleaned classification table: Country Code, Country
      Name, Region, Income Group. */
  datatype Classification = Classification(
    countryCode: string,
    countryName: string,
    region: Option<string>,
    incomeGroup: Option<string>)

  /** Renames Economy, Code and Income group and keeps the four columns the
      panel needs, row for row. */
  function PrepareCountryClassification(raw: seq<ClassRow>): seq<Classification>
  {
    seq(|raw|, i requires 0 <= i < |raw| =>
      Classification(raw[i].code, raw[i].economy, raw[i].region, raw[i].incomeGroup))
  }

  /** The Lending category column has no influence on the cleaned table. */
  lemma LendingCategoryIgnored(raw1: seq<ClassRow>, raw2: seq<ClassRow>)
    requires |raw1| == |raw2|
    requires forall i :: 0 <= i < |raw1| ==>
               raw1[i].(lendingCategory := None) == raw2[i].(lendingCategory := None)
    ensures PrepareCountryClassification(raw1) == PrepareCountryClassification(raw2)
  {
    var c1, c2 := PrepareCountryClassification(raw1), PrepareCountryClassification(raw2);
    forall i | 0 <= i < |raw1|
      ensures c1[i] == c2[i]
    {
      var a, b := raw1[i].(lendingCategory := None), raw2[i].(lendingCategory := None);
      assert a.code == raw1[i].code && b.code == raw2[i].code;
    }
  }

  // ---------------- the panel ----------------

  /** One row of the panel: the long row's columns, Value made numeric, and
      the Region and Income Group of the classification (missing when the
      country code has no classification row). */
  datatype PanelRow = PanelRow(
    countryName: string,
    countryCode: string,
    indicator: string,
    year: int,
    value: Option<real>,
    category: Category,
    source: Source,
    region: Option<string>,
    incomeGroup: Option<string>)

  /** The sort columns of the combined long table: Country Code, Year,
      Category (by its label). */
  function SortKey(r: LongRow): seq<KeyPart>
  {
    [Str(r.countryCode), Int(r.year), Str(Label(r.category))]
  }

  /** The same columns, read on a panel row. */
  function PanelKey(p: PanelRow): seq<KeyPart>
  {
    [Str(p.countryCode), Int(p.year), Str(Label(p.category))]
  }

  /** `to_numeric(errors="coerce")` on one Value cell: a missing cell stays
      missing, a number is kept, text goes through `parse`, which yields
      None for text that is not a number (such as ".."). */
  function Coerce(c: Cell, parse: string -> Option<real>): Option<real>
  {
    match c
    case Missing => None
    case Num(x) => Some(x)
    case Raw(s) => parse(s)
  }

  /** The classification rows with country code `code`, in table order. */
  function Matches(code: string, cls: seq<Classification>): (ms: seq<Classification>)
    ensures |ms| <= |cls|
    ensures forall c :: c in ms <==> c in cls && c.countryCode == code
    ensures ms == [] <==> forall c :: c in cls ==> c.countryCode != code
  {
    if cls == [] then []
    else (if cls[0].countryCode == code then [cls[0]] else []) + Matches(code, cls[1..])
  }

  /** The panel row for long row `r` joined with a classification row's
      Region and Income Group. */
  function Joined(r: LongRow, region: Option<string>, income: Option<string>,
                  parse: string -> Option<real>): PanelRow
  {
    PanelRow(r.countryName, r.countryCode, r.indicator, r.year, Coerce(r.value, parse),
             r.category, r.source, region, income)
  }

  /** The left-merge output for one long row: one row per matching
      classification row, or a single row with no region and income. */
  function JoinOne(r: LongRow, ms: seq<Classification>, parse: string -> Option<real>): (out: seq<PanelRow>)
    ensures |out| == if ms == [] then 1 else |ms|
  {
    if ms == [] then [Joined(r, None, None, parse)]
    else seq(|ms|, i requires 0 <= i < |ms| => Joined(r, ms[i].region, ms[i].incomeGroup, parse))
  }

  /** `merge(..., on="Country Code", how="left")`: left rows in order, the
      left table's Country Name kept. */
  function LeftJoin(rows: seq<LongRow>, cls: seq<Classification>, parse: string -> Option<real>)
    : seq<PanelRow>
  {
    if rows == [] then []
    else JoinOne(rows[0], Matches(rows[0].countryCode, cls), parse) + LeftJoin(rows[1..], cls, parse)
  }

  /** The combined ESG and economic long rows, sorted by Country Code, Year
      and Category. */
  function SortedLong(esg: seq<LongRow>, gdp: seq<LongRow>): seq<LongRow>
  {
    SortBy(esg + gdp, SortKey)
  }

  /** `merge_to_panel`: concatenate, sort, left-merge the classification,
      coerce Value to numbers. */
  function MergeToPanel(esg: seq<LongRow>, gdp: seq<LongRow>, cls: seq<Classification>,
                        parse: string -> Option<real>): seq<PanelRow>
  {
    LeftJoin(SortedLong(esg, gdp), cls, parse)
  }

  // ---------------- properties ----------------

  /** Panel row `p` carries long row `r`'s own columns, with Value coerced. */
  predicate FromLongRow(p: PanelRow, r: LongRow, parse: string -> Option<real>)
  {
    && p.countryName == r.countryName
    && p.countryCode == r.countryCode
    && p.indicator == r.indicator
    && p.year == r.year
    && p.value == Coerce(r.value, parse)
    && p.category == r.category
    && p.source == r.source
  }

  /** Region and Income Group of `p` come from a classification row with
      its country code, or are missing when there is none. */
  predicate ClassifiedFrom(p: PanelRow, cls: seq<Classification>)
  {
    if Matches(p.countryCode, cls) == [] then p.region.None? && p.incomeGroup.None?
    else exists c :: c in cls && c.countryCode == p.countryCode
                     && p.region == c.region && p.incomeGroup == c.incomeGroup
  }

  lemma JoinOneRows(r: LongRow, cls: seq<Classification>, parse: string -> Option<real>)
    ensures forall p :: p in JoinOne(r, Matches(r.countryCode, cls), parse) ==>
              FromLongRow(p, r, parse) && ClassifiedFrom(p, cls)
  {
    var ms := Matches(r.countryCode, cls);
    forall p | p in JoinOne(r, ms, parse)
      ensures FromLongRow(p, r, parse) && ClassifiedFrom(p, cls)
    {
      if ms != [] {
        var i :| 0 <= i < |ms| && JoinOne(r, ms, parse)[i] == p;
        assert ms[i] in ms;
      }
    }
  }

  /** Every panel row comes from some long row and carries a matching
      classification, or none when the code has no classification row. */
  lemma {:induction false} LeftJoinOrigin(rows: seq<LongRow>, cls: seq<Classification>, parse: string -> Option<real>)
    ensures forall p :: p in LeftJoin(rows, cls, parse) ==>
              ClassifiedFrom(p, cls) && exists k :: 0 <= k < |rows| && FromLongRow(p, rows[k], parse)
  {
    if rows != [] {
      LeftJoinOrigin(rows[1..], cls, parse);
      JoinOneRows(rows[0], cls, parse);
      var head := JoinOne(rows[0], Matches(rows[0].countryCode, cls), parse);
      var tail := LeftJoin(rows[1..], cls, parse);
      forall p | p in LeftJoin(rows, cls, parse)
        ensures ClassifiedFrom(p, cls) && exists k :: 0 <= k < |rows| && FromLongRow(p, rows[k], parse)
      {
        if p in head {
          assert FromLongRow(p, rows[0], parse);
        } else {
          assert p in tail;
          var k :| 0 <= k < |rows[1..]| && FromLongRow(p, rows[1..][k], parse);
          assert FromLongRow(p, rows[k + 1], parse);
        }
      }
    }
  }

  /** A left merge loses no row: each long row appears in the panel. */
  lemma {:induction false} LeftJoinCovers(rows: seq<LongRow>, cls: seq<Classification>, parse: string -> Option<real>)
    ensures forall r :: r in rows ==> exists p :: p in LeftJoin(rows, cls, parse) && FromLongRow(p, r, parse)
  {
    if rows != [] {
      LeftJoinCovers(rows[1..], cls, parse);
      var head := JoinOne(rows[0], Matches(rows[0].countryCode, cls), parse);
      JoinOneRows(rows[0], cls, parse);
      assert head[0] in LeftJoin(rows, cls, parse);
      forall r | r in rows
        ensures exists p :: p in LeftJoin(rows, cls, parse) && FromLongRow(p, r, parse)
      {
        if r != rows[0] {
          assert r in rows[1..];
          var p :| p in LeftJoin(rows[1..], cls, parse) && FromLongRow(p, r, parse);
          assert p in LeftJoin(rows, cls, parse);
        }
      }
    }
  }

  /** The join keeps the order of its left table: a table sorted by Country
      Code, Year and Category stays sorted. */
  lemma {:induction false} LeftJoinSorted(rows: seq<LongRow>, cls: seq<Classification>, parse: string -> Option<real>)
    requires SortedBy(rows, SortKey)
    ensures SortedBy(LeftJoin(rows, cls, parse), PanelKey)
  {
    if rows != [] {
      var rest := rows[1..];
      assert SortedBy(rest, SortKey) by {
        forall i, j | 0 <= i < j < |rest|
          ensures KeyLe(SortKey(rest[i]), SortKey(rest[j]))
        {
          assert rest[i] == rows[i + 1] && rest[j] == rows[j + 1];
        }
      }
      LeftJoinSorted(rest, cls, parse);
      LeftJoinOrigin(rest, cls, parse);
      JoinOneRows(rows[0], cls, parse);
      var head := JoinOne(rows[0], Matches(rows[0].countryCode, cls), parse);
      var tail := LeftJoin(rest, cls, parse);
      KeyLeTotal(SortKey(rows[0]), SortKey(rows[0]));
      assert SortedBy(head, PanelKey) by {
        forall i, j | 0 <= i < j < |head|
          ensures KeyLe(PanelKey(head[i]), PanelKey(head[j]))
        {
          assert head[i] in head && head[j] in head;
        }
      }
      forall i, j | 0 <= i < |head| && 0 <= j < |tail|
        ensures KeyLe(PanelKey(head[i]), PanelKey(tail[j]))
      {
        assert head[i] in head && tail[j] in tail;
        var k :| 0 <= k < |rest| && FromLongRow(tail[j], rest[k], parse);
        assert rest[k] == rows[k + 1];
      }
      SortedAppend(head, tail, PanelKey);
    }
  }

  /** The panel is sorted by Country Code, Year and Category. */
  lemma MergeSorted(esg: seq<LongRow>, gdp: seq<LongRow>, cls: seq<Classification>,
                    parse: string -> Option<real>)
    ensures SortedBy(MergeToPanel(esg, gdp, cls, parse), PanelKey)
  {
    SortBySorted(esg + gdp, SortKey);
    LeftJoinSorted(SortedLong(esg, gdp), cls, parse);
  }

  /** Before the join, the sorted table holds exactly the ESG rows and the
      economic rows, sorted, and rows with equal sort columns keep their
      order of the concatenation: ESG rows before economic rows. */
  lemma SortedLongSpec(esg: seq<LongRow>, gdp: seq<LongRow>)
    ensures multiset(SortedLong(esg, gdp)) == multiset(esg) + multiset(gdp)
    ensures |SortedLong(esg, gdp)| == |esg| + |gdp|
    ensures SortedBy(SortedLong(esg, gdp), SortKey)
    ensures forall k :: WithKey(SortedLong(esg, gdp), SortKey, k) == WithKey(esg + gdp, SortKey, k)
  {
    SortByPermutes(esg + gdp, SortKey);
    SortBySorted(esg + gdp, SortKey);
    forall k {
      SortByStable(esg + gdp, SortKey, k);
    }
  }

  /** Every panel row carries the columns of an ESG or economic long row,
      and a classification of its code or none; every long row of either
      input appears in the panel. */
  lemma MergeRows(esg: seq<LongRow>, gdp: seq<LongRow>, cls: seq<Classification>,
                  parse: string -> Option<real>)
    ensures forall p :: p in MergeToPanel(esg, gdp, cls, parse) ==>
              ClassifiedFrom(p, cls) && exists r :: r in esg + gdp && FromLongRow(p, r, parse)
    ensures forall r :: r in esg + gdp ==>
              exists p :: p in MergeToPanel(esg, gdp, cls, parse) && FromLongRow(p, r, parse)
  {
    var s := SortedLong(esg, gdp);
    SortByPermutes(esg + gdp, SortKey);
    LeftJoinOrigin(s, cls, parse);
    LeftJoinCovers(s, cls, parse);
    forall p | p in MergeToPanel(esg, gdp, cls, parse)
      ensures exists r :: r in esg + gdp && FromLongRow(p, r, parse)
    {
      var k :| 0 <= k < |s| && FromLongRow(p, s[k], parse);
      assert s[k] in multiset(s);
    }
    forall r | r in esg + gdp
      ensures exists p :: p in MergeToPanel(esg, gdp, cls, parse) && FromLongRow(p, r, parse)
    {
      assert r in multiset(esg + gdp);
      assert r in s;
    }
  }

  // ---------------- unique country codes ----------------

  /** No two classification rows share a country code. */
  predicate UniqueCodes(cls: seq<Classification>)
  {
    forall i, j :: 0 <= i < j < |cls| ==> cls[i].countryCode != cls[j].countryCode
  }

  lemma {:induction false} MatchesUnique(code: string, cls: seq<Classification>)
    requires UniqueCodes(cls)
    ensures |Matches(code, cls)| <= 1
  {
    if cls != [] {
      var rest := cls[1..];
      assert UniqueCodes(rest) by {
        forall i, j | 0 <= i < j < |rest|
          ensures rest[i].countryCode != rest[j].countryCode
        {
          assert rest[i] == cls[i + 1] && rest[j] == cls[j + 1];
        }
      }
      MatchesUnique(code, rest);
      if cls[0].countryCode == code {
        forall c | c in rest
          ensures c.countryCode != code
        {
          var j :| 0 <= j < |rest| && rest[j] == c;
          assert cls[j + 1] == c;
        }
      }
    }
  }

  /** The classification row of `code`, if any. */
  function Lookup(code: string, cls: seq<Classification>): (m: Option<Classification>)
    ensures m.Some? ==> m.value in cls && m.value.countryCode == code
    ensures m.None? <==> forall c :: c in cls ==> c.countryCode != code
  {
    var ms := Matches(code, cls);
    if ms == [] then None
    else assert ms[0] in ms; Some(ms[0])
  }

  /** The panel row a long row gives when codes are unique. */
  function PanelRowOf(r: LongRow, cls: seq<Classification>, parse: string -> Option<real>): PanelRow
  {
    match Lookup(r.countryCode, cls)
    case None => Joined(r, None, None, parse)
    case Some(c) => Joined(r, c.region, c.incomeGroup, parse)
  }

  /** With unique codes one long row joins to exactly one panel row. */
  lemma JoinOneUnique(r: LongRow, cls: seq<Classification>, parse: string -> Option<real>)
    requires UniqueCodes(cls)
    ensures JoinOne(r, Matches(r.countryCode, cls), parse) == [PanelRowOf(r, cls, parse)]
  {
    MatchesUnique(r.countryCode, cls);
  }

  /** With unique codes the left merge is one row per left row, position for
      position. */
  lemma {:induction false} LeftJoinUnique(rows: seq<LongRow>, cls: seq<Classification>, parse: string -> Option<real>)
    requires UniqueCodes(cls)
    ensures |LeftJoin(rows, cls, parse)| == |rows|
    ensures forall k :: 0 <= k < |rows| ==> LeftJoin(rows, cls, parse)[k] == PanelRowOf(rows[k], cls, parse)
  {
    if rows != [] {
      LeftJoinUnique(rows[1..], cls, parse);
      var head := JoinOne(rows[0], Matches(rows[0].countryCode, cls), parse);
      JoinOneUnique(rows[0], cls, parse);
      var tail := LeftJoin(rows[1..], cls, parse);
      var all := LeftJoin(rows, cls, parse);
      assert all == head + tail;
      forall k | 0 <= k < |rows|
        ensures all[k] == PanelRowOf(rows[k], cls, parse)
      {
        if k > 0 {
          assert all[k] == tail[k - 1];
          assert rows[1..][k - 1] == rows[k];
        }
      }
    }
  }

  /** When no two classification rows share a code, the panel has one row
      per long row: position `k` is the `k`-th row of the sorted long table
      with its classification attached. */
  lemma MergeUnique(esg: seq<LongRow>, gdp: seq<LongRow>, cls: seq<Classification>,
                    parse: string -> Option<real>)
    requires UniqueCodes(cls)
    ensures |SortedLong(esg, gdp)| == |esg| + |gdp|
    ensures |MergeToPanel(esg, gdp, cls, parse)| == |esg| + |gdp|
    ensures forall k :: 0 <= k < |esg| + |gdp| ==>
              MergeToPanel(esg, gdp, cls, parse)[k] == PanelRowOf(SortedLong(esg, gdp)[k], cls, parse)
  {
    SortByPermutes(esg + gdp, SortKey);
    LeftJoinUnique(SortedLong(esg, gdp), cls, parse);
  }

  // ---------------- every left row is kept ----------------

  /** How many panel rows long row `r` gives: one per classification row
      with its code, or one when there is none. */
  function Width(r: LongRow, cls: seq<Classification>): nat
  {
    var n := |Matches(r.countryCode, cls)|;
    if n == 0 then 1 else n
  }

  /** The widths of `rows`, added up. */
  function TotalWidth(rows: seq<LongRow>, cls: seq<Classification>): nat
  {
    if rows == [] then 0 else Width(rows[0], cls) + TotalWidth(rows[1..], cls)
  }

  lemma LeftJoinCons(r: LongRow, rows: seq<LongRow>, cls: seq<Classification>, parse: string -> Option<real>)
    ensures LeftJoin([r] + rows, cls, parse)
         == JoinOne(r, Matches(r.countryCode, cls), parse) + LeftJoin(rows, cls, parse)
  {
    assert ([r] + rows)[0] == r && ([r] + rows)[1..] == rows;
  }

  /** Joining a concatenation joins each part. */
  lemma {:induction false} LeftJoinAppend(a: seq<LongRow>, b: seq<LongRow>, cls: seq<Classification>,
                                          parse: string -> Option<real>)
    ensures LeftJoin(a + b, cls, parse) == LeftJoin(a, cls, parse) + LeftJoin(b, cls, parse)
  {
    if a == [] {
      assert a + b == b;
    } else {
      var t := a[1..];
      var h := JoinOne(a[0], Matches(a[0].countryCode, cls), parse);
      var jt, jb := LeftJoin(t, cls, parse), LeftJoin(b, cls, parse);
      assert (a + b)[0] == a[0] && (a + b)[1..] == t + b;
      LeftJoinAppend(t, b, cls, parse);
      AppendRegroup(LeftJoin(a + b, cls, parse), LeftJoin(a, cls, parse), h, LeftJoin(t + b, cls, parse), jt, jb);
    }
  }

  /** The join has, for each left row, one row per classification row with
      its code, or one row when there is none; so it never has fewer rows
      than its left table. */
  lemma {:induction false} LeftJoinLength(rows: seq<LongRow>, cls: seq<Classification>, parse: string -> Option<real>)
    ensures |LeftJoin(rows, cls, parse)| == TotalWidth(rows, cls)
    ensures TotalWidth(rows, cls) >= |rows|
  {
    if rows != [] {
      LeftJoinLength(rows[1..], cls, parse);
    }
  }

  lemma TotalWidthCons(r: LongRow, rows: seq<LongRow>, cls: seq<Classification>)
    ensures TotalWidth([r] + rows, cls) == Width(r, cls) + TotalWidth(rows, cls)
  {
    assert ([r] + rows)[0] == r && ([r] + rows)[1..] == rows;
  }

  lemma {:induction false} TotalWidthAppend(a: seq<LongRow>, b: seq<LongRow>, cls: seq<Classification>)
    ensures TotalWidth(a + b, cls) == TotalWidth(a, cls) + TotalWidth(b, cls)
  {
    if a == [] {
      assert a + b == b;
    } else {
      var t := a[1..];
      assert a == [a[0]] + t;
      assert a + b == [a[0]] + (t + b);
      TotalWidthCons(a[0], t, cls);
      TotalWidthCons(a[0], t + b, cls);
      TotalWidthAppend(t, b, cls);
    }
  }

  /** The join cut around left row `k`. */
  lemma LeftJoinSplit(rows: seq<LongRow>, cls: seq<Classification>, parse: string -> Option<real>, k: nat)
    requires k < |rows|
    ensures LeftJoin(rows, cls, parse)
         == LeftJoin(rows[..k], cls, parse)
            + (JoinOne(rows[k], Matches(rows[k].countryCode, cls), parse) + LeftJoin(rows[k + 1..], cls, parse))
  {
    assert rows == rows[..k] + ([rows[k]] + rows[k + 1..]);
    LeftJoinAppend(rows[..k], [rows[k]] + rows[k + 1..], cls, parse);
    LeftJoinCons(rows[k], rows[k + 1..], cls, parse);
  }

  /** Left row `k` owns the block of the join that starts after the blocks
      of the rows before it and holds the rows `JoinOne` gives for it: a
      single row without Region and Income Group when no classification row
      has its code, otherwise one row per matching classification row, in
      table order. Blocks of different left rows do not overlap, so equal
      left rows each keep their own rows. */
  lemma LeftJoinAt(rows: seq<LongRow>, cls: seq<Classification>, parse: string -> Option<real>, k: nat, i: nat)
    requires k < |rows|
    requires i < |JoinOne(rows[k], Matches(rows[k].countryCode, cls), parse)|
    ensures TotalWidth(rows[..k], cls) + |JoinOne(rows[k], Matches(rows[k].countryCode, cls), parse)|
         <= |LeftJoin(rows, cls, parse)|
    ensures LeftJoin(rows, cls, parse)[TotalWidth(rows[..k], cls) + i]
         == JoinOne(rows[k], Matches(rows[k].countryCode, cls), parse)[i]
  {
    var pre := rows[..k];
    var head := JoinOne(rows[k], Matches(rows[k].countryCode, cls), parse);
    LeftJoinSplit(rows, cls, parse, k);
    LeftJoinLength(pre, cls, parse);
    IndexMiddle(LeftJoin(pre, cls, parse), head, LeftJoin(rows[k + 1..], cls, parse), i);
  }

  /** Block `k + 1` starts where block `k` ends. */
  lemma TotalWidthSnoc(rows: seq<LongRow>, cls: seq<Classification>, k: nat)
    requires k < |rows|
    ensures TotalWidth(rows[..k + 1], cls) == TotalWidth(rows[..k], cls) + Width(rows[k], cls)
  {
    assert rows[..k + 1] == rows[..k] + [rows[k]];
    TotalWidthAppend(rows[..k], [rows[k]], cls);
    TotalWidthCons(rows[k], [], cls);
    assert [rows[k]] + [] == [rows[k]];
  }

  /** The panel keeps every long row of both inputs with its multiplicity:
      the sorted table is the ESG rows and the economic rows rearranged,
      each of its rows owns a block of at least one panel row
      (`LeftJoinAt`), and the panel has never fewer rows than the two
      inputs together. */
  lemma MergeKeepsRows(esg: seq<LongRow>, gdp: seq<LongRow>, cls: seq<Classification>,
                       parse: string -> Option<real>)
    ensures multiset(SortedLong(esg, gdp)) == multiset(esg) + multiset(gdp)
    ensures |SortedLong(esg, gdp)| == |esg| + |gdp|
    ensures |MergeToPanel(esg, gdp, cls, parse)| == TotalWidth(SortedLong(esg, gdp), cls) >= |esg| + |gdp|
  {
    SortByPermutes(esg + gdp, SortKey);
    LeftJoinLength(SortedLong(esg, gdp), cls, parse);
  }

  // ---------------- numeric Value ----------------

  /** After `to_numeric(errors="coerce")` a panel Value is missing exactly
      when the long row's cell was missing or was text the parser does not
      read as a number. */
  lemma MergeValues(esg: seq<LongRow>, gdp: seq<LongRow>, cls: seq<Classification>,
                    parse: string -> Option<real>)
    ensures forall p :: p in MergeToPanel(esg, gdp, cls, parse) ==>
              exists r :: r in esg + gdp && FromLongRow(p, r, parse)
                && (p.value.None? <==> r.value.Missing? || (r.value.Raw? && parse(r.value.s).None?))
  {
    var s := SortedLong(esg, gdp);
    SortByPermutes(esg + gdp, SortKey);
    LeftJoinOrigin(s, cls, parse);
    forall p | p in MergeToPanel(esg, gdp, cls, parse)
      ensures exists r :: r in esg + gdp && FromLongRow(p, r, parse)
                && (p.value.None? <==> r.value.Missing? || (r.value.Raw? && parse(r.value.s).None?))
    {
      var k :| 0 <= k < |s| && FromLongRow(p, s[k], parse);
      assert s[k] in multiset(esg + gdp);
    }
  }

  /** With a parser that does not read "..", every ".." cell of either
      input reaches the panel as a missing Value. */
  lemma MergeDotsMissing(esg: seq<LongRow>, gdp: seq<LongRow>, cls: seq<Classification>,
                         parse: string -> Option<real>)
    requires parse("..").None?
    ensures forall r :: r in esg + gdp && r.value == Raw("..") ==>
              exists p :: p in MergeToPanel(esg, gdp, cls, parse) && FromLongRow(p, r, parse) && p.value.None?
  {
    MergeRows(esg, gdp, cls, parse);
  }

  // ---------------- the renamed classification in the merge ----------------

  /** No two raw classification rows share a Code. */
  predicate UniqueRawCodes(raw: seq<ClassRow>)
  {
    forall i, j :: 0 <= i < j < |raw| ==> raw[i].code != raw[j].code
  }

  /** After the renaming a Country Code finds the raw row with that Code,
      or nothing when no raw row has it. */
  lemma PreparedLookup(raw: seq<ClassRow>, code: string)
    requires UniqueRawCodes(raw)
    ensures forall w :: w in raw && w.code == code ==>
              Lookup(code, PrepareCountryClassification(raw))
                == Some(Classification(code, w.economy, w.region, w.incomeGroup))
    ensures (forall w :: w in raw ==> w.code != code) ==>
              Lookup(code, PrepareCountryClassification(raw)).None?
  {
    var cls := PrepareCountryClassification(raw);
    forall w | w in raw && w.code == code
      ensures Lookup(code, cls) == Some(Classification(code, w.economy, w.region, w.incomeGroup))
    {
      var j :| 0 <= j < |raw| && raw[j] == w;
      assert cls[j] in cls;
      var m := Lookup(code, cls).value;
      var i :| 0 <= i < |cls| && cls[i] == m;
      assert i == j;
    }
    if forall w :: w in raw ==> w.code != code {
      forall c | c in cls
        ensures c.countryCode != code
      {
        var i :| 0 <= i < |cls| && cls[i] == c;
        assert raw[i] in raw;
      }
    }
  }

  /** The renaming is what lets the merge find each country: with unique
      Codes, panel row `k` is sorted long row `k` with the Region and Income
      group of the raw row whose Code is its Country Code, and with neither
      when no raw row has that Code. */
  lemma MergeWithPreparedClassification(esg: seq<LongRow>, gdp: seq<LongRow>, raw: seq<ClassRow>,
                                        parse: string -> Option<real>)
    requires UniqueRawCodes(raw)
    ensures |SortedLong(esg, gdp)| == |esg| + |gdp|
    ensures |MergeToPanel(esg, gdp, PrepareCountryClassification(raw), parse)| == |esg| + |gdp|
    ensures forall k :: 0 <= k < |esg| + |gdp| ==>
              var p := MergeToPanel(esg, gdp, PrepareCountryClassification(raw), parse)[k];
              var r := SortedLong(esg, gdp)[k];
              && FromLongRow(p, r, parse)
              && (forall w :: w in raw && w.code == r.countryCode ==>
                    p.region == w.region && p.incomeGroup == w.incomeGroup)
              && ((forall w :: w in raw ==> w.code != r.countryCode) ==>
                    p.region.None? && p.incomeGroup.None?)
  {
    var cls := PrepareCountryClassification(raw);
    assert UniqueCodes(cls);
    MergeUnique(esg, gdp, cls, parse);
    forall k | 0 <= k < |esg| + |gdp|
      ensures var p := MergeToPanel(esg, gdp, cls, parse)[k];
              var r := SortedLong(esg, gdp)[k];
              && FromLongRow(p, r, parse)
              && (forall w :: w in raw && w.code == r.countryCode ==>
                    p.region == w.region && p.incomeGroup == w.incomeGroup)
              && ((forall w :: w in raw ==> w.code != r.countryCode) ==>
                    p.region.None? && p.incomeGroup.None?)
    {
      PreparedLookup(raw, SortedLong(esg, gdp)[k].countryCode);
    }
  }
}
