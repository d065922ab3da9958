/** Wide-to-long reshaping of the raw World Bank style tables
    (src/data_preparation.py, `clean_esg_dataset` and `clean_gdp_dataset`). */
module Reshape {
  import opened Wrappers
  import opened Text
  import opened Categories

  /** One cell as read from a raw file: missing, a number, or text such as
      the ".." placeholder the files use for missing data. */
  datatype Cell = Missing | Num(x: real) | Raw(s: string)

  /** One row of a raw wide table: the four named columns, then one cell per
      remaining column. */
  datatype WideRow = WideRow(
    countryName: string,
    countryCode: string,
    seriesName: Option<string>,
    seriesCode: Option<string>,
    cells: seq<Cell>)

  /** A raw wide table. `columns` holds the headers of the columns other than
      Country Name, Country Code, Series Name and Series Code; year columns
      look like "2005 [YR2005]". */
  datatype WideTable = WideTable(columns: seq<string>, rows: seq<WideRow>)

  predicate Rectangular(rows: seq<WideRow>, width: nat)
  {
    forall i :: 0 <= i < |rows| ==> |rows[i].cells| == width
  }

  /** Which raw file a long row came from. */
  datatype Source = Esg | EconomicData

  /** The Source column's label. */
  function SourceLabel(src: Source): string
  {
    match src
    case Esg => "ESG"
    case EconomicData => "Economic"
  }

  /** The category function each cleaner applies to the Indicator column. */
  function Classifier(src: Source): string -> Category
  {
    match src
    case Esg => AssignCategory
    case EconomicData => AssignEconomicCategory
  }

  /** The per-row steps a cleaner applies after `melt`: the Year
      conversion, the category function and the source label. */
  datatype Cleaner = Cleaner(yearOf: string -> Option<int>, classify: string -> Category, src: Source)

  /** The steps of `clean_esg_dataset` (Esg) or `clean_gdp_dataset`
      (EconomicData). */
  function CleanerFor(src: Source): Cleaner
  {
    Cleaner(YearOf, Classifier(src), src)
  }

  /** One cleaned observation. */
  datatype LongRow = LongRow(
    countryName: string,
    countryCode: string,
    indicator: string,
    year: int,
    value: Cell,
    category: Category,
    source: Source)

  /** `astype(int)` rejected a truncated year header. */
  datatype CleanError = YearNotInteger(text: string)

  // ---------------- year columns ----------------

  /** Indices, in order, of the columns from `start` on whose header holds "[". */
  function YearColumnsFrom(cols: seq<string>, start: nat): (ycs: seq<nat>)
    ensures forall k :: 0 <= k < |ycs| ==> start <= ycs[k] < |cols| && Contains(cols[ycs[k]], "[")
    ensures forall k, l :: 0 <= k < l < |ycs| ==> ycs[k] < ycs[l]
    ensures forall j :: start <= j < |cols| && Contains(cols[j], "[") ==> j in ycs
    decreases |cols| - start
  {
    if start >= |cols| then []
    else (if Contains(cols[start], "[") then [start] else []) + YearColumnsFrom(cols, start + 1)
  }

  /** The melt's `value_vars`: the columns whose header contains "[". */
  function YearColumns(cols: seq<string>): seq<nat>
  {
    YearColumnsFrom(cols, 0)
  }

  /** `str.slice(0, 4)`: the first four characters of a header. */
  function YearText(header: string): string
  {
    if |header| <= 4 then header else header[..4]
  }

  /** The integer `astype(int)` makes of a year header, if any. */
  function YearOf(header: string): Option<int>
  {
    ParseInt(YearText(header))
  }

  /** A header that starts with a four-digit year yields that year. */
  lemma YearOfRoundTrip(y: nat, rest: string)
    requires y < 10000
    ensures YearOf(FourDigits(y) + rest) == Some(y)
  {
    assert YearText(FourDigits(y) + rest) == FourDigits(y);
    ParseIntFourDigits(y);
  }

  /** A header whose first character is neither white space, a sign nor a
      digit is rejected, for instance every header that starts with "[" or
      with a letter. */
  lemma YearOfRejects(header: string)
    requires header != [] && !IsSpace(header[0]) && !IsDigit(header[0])
    requires header[0] != '+' && header[0] != '-'
    ensures YearOf(header).None?
  {
    assert YearText(header)[0] == header[0];
    ParseIntRejects(YearText(header));
  }

  // ---------------- melt, year parsing, dropna ----------------

  /** One row of `melt`'s output, before the Year column is converted. */
  datatype MeltRow = MeltRow(
    countryName: string,
    countryCode: string,
    seriesName: Option<string>,
    header: string,
    value: Cell)

  /** The melted rows of one year column, one per input row, in input order. */
  function MeltColumn(rows: seq<WideRow>, cols: seq<string>, c: nat): seq<MeltRow>
    requires Rectangular(rows, |cols|) && c < |cols|
  {
    if rows == [] then []
    else
      [MeltRow(rows[0].countryName, rows[0].countryCode, rows[0].seriesName, cols[c], rows[0].cells[c])]
      + MeltColumn(rows[1..], cols, c)
  }

  /** `melt` with the year columns `ycs` as `value_vars`: all rows for the
      first year column, then all rows for the next, and so on. */
  function Melt(rows: seq<WideRow>, cols: seq<string>, ycs: seq<nat>): seq<MeltRow>
    requires Rectangular(rows, |cols|)
    requires forall k :: 0 <= k < |ycs| ==> ycs[k] < |cols|
  {
    if ycs == [] then [] else MeltColumn(rows, cols, ycs[0]) + Melt(rows, cols, ycs[1..])
  }

  /** The rest of the cleaner on the melted rows: the Year column is cut to
      four characters and converted (failing on the first value that is not
      an integer), the category is assigned, rows without an indicator are
      dropped and the source label is stamped. */
  function LongRows(melted: seq<MeltRow>, cl: Cleaner): (r: Result<seq<LongRow>, CleanError>)
    ensures r.Success? ==> forall row :: row in r.value ==>
              row.source == cl.src && row.category == cl.classify(row.indicator)
  {
    if melted == [] then Success([])
    else
      var m := melted[0];
      match cl.yearOf(m.header)
      case None => Failure(YearNotInteger(YearText(m.header)))
      case Some(y) =>
        match LongRows(melted[1..], cl)
        case Failure(e) => Failure(e)
        case Success(rest) =>
          if m.seriesName.None? then Success(rest)
          else
            var indicator := m.seriesName.value;
            Success([LongRow(m.countryName, m.countryCode, indicator, y, m.value,
                             cl.classify(indicator), cl.src)] + rest)
  }

  /** `clean_esg_dataset` / `clean_gdp_dataset` with the given source. */
  function Clean(t: WideTable, src: Source): Result<seq<LongRow>, CleanError>
    requires Rectangular(t.rows, |t.columns|)
  {
    LongRows(Melt(t.rows, t.columns, YearColumns(t.columns)), CleanerFor(src))
  }

  function CleanEsgDataset(t: WideTable): Result<seq<LongRow>, CleanError>
    requires Rectangular(t.rows, |t.columns|)
  {
    Clean(t, Esg)
  }

  function CleanGdpDataset(t: WideTable): Result<seq<LongRow>, CleanError>
    requires Rectangular(t.rows, |t.columns|)
  {
    Clean(t, EconomicData)
  }

  // ---------------- what cleaning produces ----------------

  /** The input rows that have a Series Name, in order: those `dropna`
      keeps. */
  function Present(rows: seq<WideRow>): (p: seq<WideRow>)
    ensures |p| <= |rows|
    ensures forall w :: w in p ==> w in rows && w.seriesName.Some?
    ensures forall w :: w in rows && w.seriesName.Some? ==> w in p
  {
    if rows == [] then []
    else (if rows[0].seriesName.Some? then [rows[0]] else []) + Present(rows[1..])
  }

  /** Number of input rows without a Series Name. */
  function MissingIndicators(rows: seq<WideRow>): nat
  {
    if rows == [] then 0
    else (if rows[0].seriesName.None? then 1 else 0) + MissingIndicators(rows[1..])
  }

  /** Every year header among `ycs` converts. */
  predicate YearsConvert(cols: seq<string>, ycs: seq<nat>, cl: Cleaner)
    requires forall k :: 0 <= k < |ycs| ==> ycs[k] < |cols|
  {
    forall k :: 0 <= k < |ycs| ==> cl.yearOf(cols[ycs[k]]).Some?
  }

  predicate Kept(p: seq<WideRow>, width: nat)
  {
    forall w :: w in p ==> w.seriesName.Some? && |w.cells| == width
  }

  /** The long row that input row `w` gives for year column `c`. */
  function RowFor(w: WideRow, cols: seq<string>, c: nat, y: int, cl: Cleaner): LongRow
    requires w.seriesName.Some? && |w.cells| == |cols| && c < |cols|
  {
    LongRow(w.countryName, w.countryCode, w.seriesName.value, y, w.cells[c],
            cl.classify(w.seriesName.value), cl.src)
  }

  /** The long row `row` is what input row `w` gives for year column `c`. */
  predicate IsLongRowOf(row: LongRow, w: WideRow, cols: seq<string>, c: nat, cl: Cleaner)
    requires |w.cells| == |cols| && c < |cols|
  {
    && row.countryName == w.countryName
    && row.countryCode == w.countryCode
    && Some(row.indicator) == w.seriesName
    && cl.yearOf(cols[c]) == Some(row.year)
    && row.value == w.cells[c]
    && row.category == cl.classify(row.indicator)
    && row.source == cl.src
  }

  /** The rows kept from one melted year column. */
  function Block(p: seq<WideRow>, cols: seq<string>, c: nat, cl: Cleaner): (r: seq<LongRow>)
    requires Kept(p, |cols|) && c < |cols|
    requires p != [] ==> cl.yearOf(cols[c]).Some?
    ensures |r| == |p|
  {
    seq(|p|, b requires 0 <= b < |p| => RowFor(p[b], cols, c, cl.yearOf(cols[c]).value, cl))
  }

  /** The rows kept from the whole melt, year column after year column. */
  function Blocks(p: seq<WideRow>, cols: seq<string>, ycs: seq<nat>, cl: Cleaner): seq<LongRow>
    requires Kept(p, |cols|)
    requires forall k :: 0 <= k < |ycs| ==> ycs[k] < |cols|
    requires p != [] ==> YearsConvert(cols, ycs, cl)
  {
    if ycs == [] then []
    else Block(p, cols, ycs[0], cl) + Blocks(p, cols, ycs[1..], cl)
  }

  function Combine(a: Result<seq<LongRow>, CleanError>, b: Result<seq<LongRow>, CleanError>)
    : Result<seq<LongRow>, CleanError>
  {
    if a.Failure? then a else if b.Failure? then b else Success(a.value + b.value)
  }

  lemma {:induction false} LongRowsAppend(a: seq<MeltRow>, b: seq<MeltRow>, cl: Cleaner)
    ensures LongRows(a + b, cl) == Combine(LongRows(a, cl), LongRows(b, cl))
  {
    if a != [] {
      LongRowsAppend(a[1..], b, cl);
      assert (a + b)[0] == a[0];
      assert (a + b)[1..] == a[1..] + b;
      var ra, rb := LongRows(a[1..], cl), LongRows(b, cl);
      if cl.yearOf(a[0].header).Some? && ra.Success? && rb.Success? {
        var m := a[0];
        if m.seriesName.Some? {
          var row := LongRow(m.countryName, m.countryCode, m.seriesName.value, cl.yearOf(m.header).value,
                             m.value, cl.classify(m.seriesName.value), cl.src);
          assert LongRows(a, cl).value == [row] + ra.value;
          assert LongRows(a + b, cl).value == [row] + (ra.value + rb.value);
          assert [row] + (ra.value + rb.value) == ([row] + ra.value) + rb.value;
        }
      }
    } else {
      assert a + b == b;
      if LongRows(b, cl).Success? {
        assert [] + LongRows(b, cl).value == LongRows(b, cl).value;
      }
    }
  }

  lemma {:induction false} MissingPlusPresent(rows: seq<WideRow>)
    ensures |Present(rows)| + MissingIndicators(rows) == |rows|
  {
    if rows != [] {
      MissingPlusPresent(rows[1..]);
    }
  }

  lemma MeltColumnCons(rows: seq<WideRow>, cols: seq<string>, c: nat)
    requires Rectangular(rows, |cols|) && c < |cols| && rows != []
    ensures MeltColumn(rows, cols, c)[0].header == cols[c]
    ensures MeltColumn(rows, cols, c)[0].seriesName == rows[0].seriesName
    ensures MeltColumn(rows, cols, c)[1..] == MeltColumn(rows[1..], cols, c)
  {
  }

  /** A year column whose header does not convert fails the cleaning as soon
      as there is a row. */
  lemma LongRowsColumnFails(rows: seq<WideRow>, cols: seq<string>, c: nat, cl: Cleaner)
    requires Rectangular(rows, |cols|) && c < |cols|
    requires rows != [] && cl.yearOf(cols[c]).None?
    ensures LongRows(MeltColumn(rows, cols, c), cl) == Failure(YearNotInteger(YearText(cols[c])))
  {
    MeltColumnCons(rows, cols, c);
  }

  lemma BlockCons(w: WideRow, p: seq<WideRow>, cols: seq<string>, c: nat, cl: Cleaner)
    requires Kept([w] + p, |cols|) && c < |cols| && cl.yearOf(cols[c]).Some?
    ensures Kept(p, |cols|)
    ensures Block([w] + p, cols, c, cl) == [RowFor(w, cols, c, cl.yearOf(cols[c]).value, cl)] + Block(p, cols, c, cl)
  {
    assert forall v :: v in p ==> v in [w] + p;
  }

  /** A year column whose header converts gives one row per present input
      row. */
  lemma {:induction false} LongRowsColumn(rows: seq<WideRow>, cols: seq<string>, c: nat, cl: Cleaner)
    requires Rectangular(rows, |cols|) && c < |cols|
    requires rows != [] ==> cl.yearOf(cols[c]).Some?
    ensures LongRows(MeltColumn(rows, cols, c), cl) == Success(Block(Present(rows), cols, c, cl))
  {
    if rows != [] {
      var tail := rows[1..];
      assert Rectangular(tail, |cols|);
      LongRowsColumn(tail, cols, c, cl);
      MeltColumnCons(rows, cols, c);
      var w := rows[0];
      if w.seriesName.None? {
        assert Present(rows) == Present(tail);
      } else {
        assert Present(rows) == [w] + Present(tail);
        BlockCons(w, Present(tail), cols, c, cl);
      }
    }
  }

  /** Converting the Year column of the melt fails exactly when there are
      rows and some year header does not convert; the error names the first
      such header. */
  lemma {:induction false} LongRowsMeltFails(rows: seq<WideRow>, cols: seq<string>, ycs: seq<nat>, cl: Cleaner)
    requires Rectangular(rows, |cols|)
    requires forall k :: 0 <= k < |ycs| ==> ycs[k] < |cols|
    ensures LongRows(Melt(rows, cols, ycs), cl).Failure?
        <==> rows != [] && exists k :: 0 <= k < |ycs| && cl.yearOf(cols[ycs[k]]).None?
    ensures LongRows(Melt(rows, cols, ycs), cl).Failure? ==>
              exists k :: 0 <= k < |ycs| && cl.yearOf(cols[ycs[k]]).None?
                && (forall l :: 0 <= l < k ==> cl.yearOf(cols[ycs[l]]).Some?)
                && LongRows(Melt(rows, cols, ycs), cl).error == YearNotInteger(YearText(cols[ycs[k]]))
  {
    if ycs != [] {
      var rest := ycs[1..];
      LongRowsMeltFails(rows, cols, rest, cl);
      LongRowsAppend(MeltColumn(rows, cols, ycs[0]), Melt(rows, cols, rest), cl);
      var head := LongRows(MeltColumn(rows, cols, ycs[0]), cl);
      var tail := LongRows(Melt(rows, cols, rest), cl);
      var r := LongRows(Melt(rows, cols, ycs), cl);
      assert forall k :: 0 <= k < |rest| ==> rest[k] == ycs[k + 1];
      if rows != [] && cl.yearOf(cols[ycs[0]]).None? {
        LongRowsColumnFails(rows, cols, ycs[0], cl);
      } else {
        LongRowsColumn(rows, cols, ycs[0], cl);
        assert r == Combine(head, tail);
        if tail.Failure? {
          var k :| 0 <= k < |rest| && cl.yearOf(cols[rest[k]]).None?
                   && (forall l :: 0 <= l < k ==> cl.yearOf(cols[rest[l]]).Some?)
                   && tail.error == YearNotInteger(YearText(cols[rest[k]]));
          assert cl.yearOf(cols[ycs[k + 1]]).None?;
          forall l | 0 <= l < k + 1
            ensures cl.yearOf(cols[ycs[l]]).Some?
          {
            if l > 0 {
              assert ycs[l] == rest[l - 1];
            }
          }
        } else if rows != [] {
          forall k | 0 <= k < |ycs|
            ensures cl.yearOf(cols[ycs[k]]).Some?
          {
            if k > 0 {
              assert ycs[k] == rest[k - 1];
            }
          }
        }
      }
    }
  }

  /** When every year header converts (or there is no row), cleaning the
      melt yields the kept rows block by block. */
  lemma {:induction false} LongRowsMelt(rows: seq<WideRow>, cols: seq<string>, ycs: seq<nat>, cl: Cleaner)
    requires Rectangular(rows, |cols|)
    requires forall k :: 0 <= k < |ycs| ==> ycs[k] < |cols|
    requires rows != [] ==> YearsConvert(cols, ycs, cl)
    ensures Kept(Present(rows), |cols|)
    ensures LongRows(Melt(rows, cols, ycs), cl) == Success(Blocks(Present(rows), cols, ycs, cl))
  {
    if ycs != [] {
      var rest := ycs[1..];
      assert forall k :: 0 <= k < |rest| ==> rest[k] == ycs[k + 1];
      LongRowsMelt(rows, cols, rest, cl);
      LongRowsColumn(rows, cols, ycs[0], cl);
      LongRowsAppend(MeltColumn(rows, cols, ycs[0]), Melt(rows, cols, rest), cl);
    }
  }

  /** `a` times `n`, as repeated addition: the start of block `a` when every
      block holds `n` rows. */
  function Offset(a: nat, n: nat): nat
  {
    if a == 0 then 0 else Offset(a - 1, n) + n
  }

  lemma {:induction false} OffsetIsProduct(a: nat, n: nat)
    ensures Offset(a, n) == a * n
  {
    if a > 0 {
      OffsetIsProduct(a - 1, n);
      assert (a - 1) * n + n == a * n;
    }
  }

  lemma {:induction false} OffsetBound(a: nat, b: nat, m: nat, n: nat)
    requires a < m && b < n
    ensures Offset(a, n) + b < Offset(m, n)
    decreases m
  {
    if a < m - 1 {
      OffsetBound(a, b, m - 1, n);
    }
  }

  /** Every year column contributes one block of `|p|` rows. */
  lemma {:induction false} BlocksLength(p: seq<WideRow>, cols: seq<string>, ycs: seq<nat>, cl: Cleaner)
    requires Kept(p, |cols|)
    requires forall k :: 0 <= k < |ycs| ==> ycs[k] < |cols|
    requires p != [] ==> YearsConvert(cols, ycs, cl)
    ensures |Blocks(p, cols, ycs, cl)| == Offset(|ycs|, |p|)
  {
    if ycs != [] {
      BlocksLength(p, cols, ycs[1..], cl);
    }
  }

  /** The block layout: row `b` of year column `a` sits at `Offset(a, |p|) + b`. */
  lemma {:induction false} BlocksAt(p: seq<WideRow>, cols: seq<string>, ycs: seq<nat>, cl: Cleaner, a: nat, b: nat)
    requires Kept(p, |cols|)
    requires forall k :: 0 <= k < |ycs| ==> ycs[k] < |cols|
    requires p != [] ==> YearsConvert(cols, ycs, cl)
    requires a < |ycs| && b < |p|
    ensures Offset(a, |p|) + b < |Blocks(p, cols, ycs, cl)|
    ensures IsLongRowOf(Blocks(p, cols, ycs, cl)[Offset(a, |p|) + b], p[b], cols, ycs[a], cl)
    decreases a
  {
    var n := |p|;
    var rest := ycs[1..];
    var head, tail := Block(p, cols, ycs[0], cl), Blocks(p, cols, rest, cl);
    var all := Blocks(p, cols, ycs, cl);
    assert all == head + tail;
    BlocksLength(p, cols, ycs, cl);
    OffsetBound(a, b, |ycs|, n);
    if a == 0 {
      assert cl.yearOf(cols[ycs[0]]).Some?;
      assert all[b] == head[b];
    } else {
      BlocksAt(p, cols, rest, cl, a - 1, b);
      var k := Offset(a - 1, n) + b;
      assert Offset(a, n) + b == n + k;
      assert all[n + k] == tail[k];
      assert ycs[a] == rest[a - 1];
    }
  }

  /** `clean_esg_dataset` and `clean_gdp_dataset` fail exactly when the
      table has rows and the first four characters of some year column's
      header are not an integer; the error names the first such column. */
  lemma CleanFails(t: WideTable, src: Source)
    requires Rectangular(t.rows, |t.columns|)
    ensures var r := Clean(t, src); var ycs := YearColumns(t.columns);
      r.Failure? <==> t.rows != [] && exists k :: 0 <= k < |ycs| && YearOf(t.columns[ycs[k]]).None?
    ensures var r := Clean(t, src); var ycs := YearColumns(t.columns);
      r.Failure? ==> exists k :: 0 <= k < |ycs| && YearOf(t.columns[ycs[k]]).None?
                       && (forall l :: 0 <= l < k ==> YearOf(t.columns[ycs[l]]).Some?)
                       && r.error == YearNotInteger(YearText(t.columns[ycs[k]]))
  {
    var cl := CleanerFor(src);
    var ycs := YearColumns(t.columns);
    LongRowsMeltFails(t.rows, t.columns, ycs, cl);
  }

  /** On success the cleaned table is the kept rows, block by block. */
  lemma CleanBlocks(t: WideTable, src: Source)
    requires Rectangular(t.rows, |t.columns|)
    requires Clean(t, src).Success?
    ensures Kept(Present(t.rows), |t.columns|)
    ensures t.rows != [] ==> YearsConvert(t.columns, YearColumns(t.columns), CleanerFor(src))
    ensures Clean(t, src).value == Blocks(Present(t.rows), t.columns, YearColumns(t.columns), CleanerFor(src))
  {
    var cl := CleanerFor(src);
    var ycs := YearColumns(t.columns);
    LongRowsMeltFails(t.rows, t.columns, ycs, cl);
    LongRowsMelt(t.rows, t.columns, ycs, cl);
  }

  /** The cleaned table has one row per (input row with a Series Name, year
      column): the input row count, minus the rows without an indicator,
      times the number of year columns. */
  lemma CleanCount(t: WideTable, src: Source)
    requires Rectangular(t.rows, |t.columns|)
    requires Clean(t, src).Success?
    ensures |Clean(t, src).value| == (|t.rows| - MissingIndicators(t.rows)) * |YearColumns(t.columns)|
  {
    var p := Present(t.rows);
    var ycs := YearColumns(t.columns);
    CleanBlocks(t, src);
    BlocksLength(p, t.columns, ycs, CleanerFor(src));
    OffsetIsProduct(|ycs|, |p|);
    MissingPlusPresent(t.rows);
    var kept, years := |t.rows| - MissingIndicators(t.rows), |ycs|;
    assert |p| == kept;
    assert |Clean(t, src).value| == years * kept;
    assert years * kept == kept * years;
  }

  /** Row `b` of the block of year column `a` is what kept input row `b`
      gives for that column: its Country Name, Country Code and Series Name,
      the year of the column's header, the cell, the category of the
      indicator and the source. Blocks come in year-column order, rows within
      a block in input order. */
  lemma CleanRowAt(t: WideTable, src: Source, a: nat, b: nat)
    requires Rectangular(t.rows, |t.columns|)
    requires Clean(t, src).Success?
    requires a < |YearColumns(t.columns)| && b < |Present(t.rows)|
    ensures Kept(Present(t.rows), |t.columns|) && YearColumns(t.columns)[a] < |t.columns|
    ensures a * |Present(t.rows)| + b < |Clean(t, src).value|
    ensures IsLongRowOf(Clean(t, src).value[a * |Present(t.rows)| + b], Present(t.rows)[b],
                        t.columns, YearColumns(t.columns)[a], CleanerFor(src))
  {
    var p := Present(t.rows);
    var ycs := YearColumns(t.columns);
    var cl := CleanerFor(src);
    CleanBlocks(t, src);
    assert p[0] in t.rows;
    BlocksAt(p, t.columns, ycs, cl, a, b);
    var v := Blocks(p, t.columns, ycs, cl);
    var i := Offset(a, |p|) + b;
    assert i < |v| && IsLongRowOf(v[i], p[b], t.columns, ycs[a], cl);
    OffsetIsProduct(a, |p|);
    assert i == a * |p| + b;
  }

  /** After cleaning no row lacks an indicator (the type says so), every row
      of the ESG cleaner is labelled ESG and categorised by
      `assign_category`, and every row of the GDP cleaner is labelled
      Economic and categorised as Economic or Other. */
  lemma CleanLabels(t: WideTable)
    requires Rectangular(t.rows, |t.columns|)
    ensures CleanEsgDataset(t).Success? ==> forall row :: row in CleanEsgDataset(t).value ==>
              SourceLabel(row.source) == "ESG" && row.category == AssignCategory(row.indicator)
    ensures CleanGdpDataset(t).Success? ==> forall row :: row in CleanGdpDataset(t).value ==>
              SourceLabel(row.source) == "Economic"
              && (row.category == Economic || row.category == Other)
  {
    if CleanGdpDataset(t).Success? {
      forall row | row in CleanGdpDataset(t).value
        ensures row.category == Economic || row.category == Other
      {
        AssignEconomicCategorySpec(row.indicator);
      }
    }
  }
}
