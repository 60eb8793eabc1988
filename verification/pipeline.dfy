/**
 * The filter-and-paginate pipeline of the country table: every fetched
 * country becomes a display row, the rows are filtered by the submitted
 * criteria, and one page of at most `LIMIT` rows is cut out of the result.
 */
module DataTable {
  import opened TextOps

  datatype Option<T> = None | Some(value: T)

  /** A country as fetched: its currencies are still a list. */
  datatype Country = Country(
    code: string,
    name: string,
    capital: Option<string>,
    currencies: seq<string>,
    continent: string)

  /** A country as shown in the table: its currencies are one string. */
  datatype DisplayRow = DisplayRow(
    code: string,
    name: string,
    capital: Option<string>,
    currencies: string,
    continent: string)

  /** The submitted criteria; `picked` selects the mode. */
  datatype Filter = Filter(countryCode: string, continent: string, currency: string, picked: string)

  /** Rows per page. */
  const LIMIT: nat := 20

  /** What goes between two currencies in a display row. */
  const CURRENCY_SEPARATOR: string := ", "

  /** The `picked` value of the continent-and-currency mode; every other value means code mode. */
  const CONTINENT_MODE: string := "continent"

  /** The criteria in force before the first submission. */
  const INITIAL_FILTER: Filter := Filter("", "", "", CONTINENT_MODE)

  // ---------------------------------------------------------------------------
  // Mapping fetched countries to display rows

  /** A country with its currencies joined; every other field is kept as it is. */
  function ToRow(c: Country): (row: DisplayRow)
    ensures row.code == c.code && row.name == c.name && row.capital == c.capital && row.continent == c.continent
    ensures c.currencies == [] ==> row.currencies == ""
    ensures forall cur :: cur in c.currencies ==> Includes(row.currencies, cur)
  {
    JoinIncludesAll(c.currencies, CURRENCY_SEPARATOR);
    DisplayRow(c.code, c.name, c.capital, Join(c.currencies, CURRENCY_SEPARATOR), c.continent)
  }

  /** The display rows of `records`, one per record and in the same order. */
  function MapRows(records: seq<Country>): (rows: seq<DisplayRow>)
    ensures |rows| == |records|
    ensures forall i :: 0 <= i < |records| ==> rows[i] == ToRow(records[i])
  {
    if records == [] then [] else [ToRow(records[0])] + MapRows(records[1..])
  }

  /**
   * What a display row shows: code, name, capital and continent of its record,
   * and the record's currencies separated by a comma and a space.
   */
  lemma RowShowsRecord(records: seq<Country>, i: nat)
    requires i < |records|
    ensures MapRows(records)[i].code == records[i].code
    ensures MapRows(records)[i].name == records[i].name
    ensures MapRows(records)[i].capital == records[i].capital
    ensures MapRows(records)[i].continent == records[i].continent
    ensures MapRows(records)[i].currencies == Join(records[i].currencies, CURRENCY_SEPARATOR)
    ensures records[i].currencies == [] ==> MapRows(records)[i].currencies == ""
    ensures forall cur :: cur in records[i].currencies ==> Includes(MapRows(records)[i].currencies, cur)
  {
    forall cur | cur in records[i].currencies
      ensures Includes(MapRows(records)[i].currencies, cur)
    {
      JoinIncludesEachPart(records[i].currencies, CURRENCY_SEPARATOR, cur);
    }
  }

  /** The two currencies of the euro-dollar example are shown as "EUR, USD". */
  lemma JoinExample()
    ensures Join(["EUR", "USD"], CURRENCY_SEPARATOR) == "EUR, USD"
    ensures Join([], CURRENCY_SEPARATOR) == ""
    ensures Join(["EUR"], CURRENCY_SEPARATOR) == "EUR"
  {
  }

  // ---------------------------------------------------------------------------
  // Filtering

  /**
   * Whether a row passes the criteria: in continent mode both the continent
   * and the joined currencies must contain their filter text, in any other
   * mode the code must contain the code filter text.
   */
  function Keep(f: Filter, row: DisplayRow): (kept: bool)
    ensures IsPassthrough(f) ==> kept
    ensures f.picked != CONTINENT_MODE ==>
              (kept <==> exists i :: OccursAt(row.code, f.countryCode, i))
    ensures f.picked == CONTINENT_MODE ==>
              (kept <==> (exists i :: OccursAt(row.continent, f.continent, i)) &&
                         (exists j :: OccursAt(row.currencies, f.currency, j)))
  {
    IncludesIffOccurs(row.code, f.countryCode);
    IncludesIffOccurs(row.continent, f.continent);
    IncludesIffOccurs(row.currencies, f.currency);
    if f.picked == CONTINENT_MODE then
      Includes(row.continent, f.continent) && Includes(row.currencies, f.currency)
    else
      Includes(row.code, f.countryCode)
  }

  /** The rows that pass `f`, in their original order. */
  function FilterRows(rows: seq<DisplayRow>, f: Filter): (kept: seq<DisplayRow>)
    ensures |kept| <= |rows|
    ensures forall r :: r in kept <==> r in rows && Keep(f, r)
  {
    if rows == [] then []
    else if Keep(f, rows[0]) then [rows[0]] + FilterRows(rows[1..], f)
    else FilterRows(rows[1..], f)
  }

  /** Filtering keeps every copy of a passing row and no copy of a failing one. */
  lemma {:induction false} FilterRowsKeepsEveryCopy(rows: seq<DisplayRow>, f: Filter, r: DisplayRow)
    ensures multiset(FilterRows(rows, f))[r] == if Keep(f, r) then multiset(rows)[r] else 0
    decreases |rows|
  {
    if rows != [] {
      FilterRowsKeepsEveryCopy(rows[1..], f, r);
      assert rows == [rows[0]] + rows[1..];
      assert multiset(rows) == multiset([rows[0]]) + multiset(rows[1..]);
      if Keep(f, rows[0]) {
        assert multiset(FilterRows(rows, f)) == multiset([rows[0]]) + multiset(FilterRows(rows[1..], f));
      }
    }
  }

  /** `xs` can be obtained from `ys` by deleting elements. */
  predicate IsSubsequence<T(==)>(xs: seq<T>, ys: seq<T>)
    decreases |ys|
  {
    if xs == [] then true
    else if ys == [] then false
    else (xs[0] == ys[0] && IsSubsequence(xs[1..], ys[1..])) || IsSubsequence(xs, ys[1..])
  }

  /** Filtering never adds or reorders rows. */
  lemma {:induction false} FilterRowsIsSubsequence(rows: seq<DisplayRow>, f: Filter)
    ensures IsSubsequence(FilterRows(rows, f), rows)
    decreases |rows|
  {
    if rows != [] {
      FilterRowsIsSubsequence(rows[1..], f);
      var kept := FilterRows(rows, f);
      if Keep(f, rows[0]) {
        assert kept[0] == rows[0] && kept[1..] == FilterRows(rows[1..], f);
      }
    }
  }

  /** Filtering a concatenation filters each part on its own. */
  lemma {:induction false} FilterRowsAppend(a: seq<DisplayRow>, b: seq<DisplayRow>, f: Filter)
    ensures FilterRows(a + b, f) == FilterRows(a, f) + FilterRows(b, f)
    decreases |a|
  {
    if a == [] {
      assert a + b == b;
    } else {
      assert (a + b)[0] == a[0] && (a + b)[1..] == a[1..] + b;
      FilterRowsAppend(a[1..], b, f);
    }
  }

  /** Filtering twice with the same criteria gives the rows of the first filtering. */
  lemma {:induction false} FilterRowsIdempotent(rows: seq<DisplayRow>, f: Filter)
    ensures FilterRows(FilterRows(rows, f), f) == FilterRows(rows, f)
    decreases |rows|
  {
    if rows != [] {
      FilterRowsIdempotent(rows[1..], f);
      if Keep(f, rows[0]) {
        var inner := FilterRows(rows[1..], f);
        assert ([rows[0]] + inner)[0] == rows[0] && ([rows[0]] + inner)[1..] == inner;
      }
    }
  }

  /** Criteria that every row passes: empty texts in the selected mode. */
  predicate IsPassthrough(f: Filter) {
    if f.picked == CONTINENT_MODE then f.continent == "" && f.currency == "" else f.countryCode == ""
  }

  /** With empty filter texts every row is kept, so filtering changes nothing. */
  lemma {:induction false} PassthroughKeepsAll(rows: seq<DisplayRow>, f: Filter)
    requires IsPassthrough(f)
    ensures FilterRows(rows, f) == rows
    decreases |rows|
  {
    if rows != [] {
      PassthroughKeepsAll(rows[1..], f);
      assert [rows[0]] + rows[1..] == rows;
    }
  }

  /** The initial criteria (continent mode, empty texts) show every row. */
  lemma InitialFilterShowsAll(rows: seq<DisplayRow>)
    ensures FilterRows(rows, INITIAL_FILTER) == rows
  {
    PassthroughKeepsAll(rows, INITIAL_FILTER);
  }

  /** A row with the given code and otherwise blank fields, for examples. */
  function CodeRow(code: string): DisplayRow {
    DisplayRow(code, "", None, "", "")
  }

  /**
   * In code mode "US" keeps the codes US and USA and drops GB; any `picked`
   * value other than "continent" is code mode, and matching is case-sensitive.
   */
  lemma CodeModeExample(picked: string)
    requires picked != CONTINENT_MODE
    ensures FilterRows([CodeRow("US"), CodeRow("USA"), CodeRow("GB")], Filter("US", "", "", picked))
         == [CodeRow("US"), CodeRow("USA")]
    ensures FilterRows([CodeRow("US")], Filter("us", "", "", picked)) == []
  {
    var f := Filter("US", "", "", picked);
    assert Includes("US", "US") by { assert IsPrefix("US", "US"); }
    assert Includes("USA", "US") by { assert "USA"[..2] == "US"; }
    assert !Includes("GB", "US") by { assert "GB"[..2][0] == 'G'; }
    var rows := [CodeRow("US"), CodeRow("USA"), CodeRow("GB")];
    assert rows[1..] == [CodeRow("USA"), CodeRow("GB")];
    assert rows[1..][1..] == [CodeRow("GB")];
    assert FilterRows([CodeRow("GB")], f) == [];
    assert FilterRows(rows[1..], f) == [CodeRow("USA")];
    assert !Includes("US", "us") by { assert "US"[..2][0] == 'U'; }
  }

  /**
   * In continent mode both tests must pass: a row whose continent matches but
   * whose currencies do not is dropped, whatever the code filter says.
   */
  lemma ContinentModeNeedsBoth(row: DisplayRow, f: Filter)
    requires f.picked == CONTINENT_MODE
    ensures FilterRows([row], f) == [row] <==>
              Includes(row.continent, f.continent) && Includes(row.currencies, f.currency)
  {
  }

  // ---------------------------------------------------------------------------
  // Paging

  /**
   * A relative index of JavaScript's `Array.prototype.slice` turned into a
   * position: negative values count from the end, and the result is clamped
   * into `0..len`.
   */
  function ClampIndex(rel: int, len: nat): (k: nat)
    ensures k <= len
    ensures 0 <= rel <= len ==> k == rel
    ensures rel > len ==> k == len
    ensures rel < 0 && 0 <= len + rel ==> k == len + rel
    ensures len + rel < 0 ==> k == 0
  {
    if rel < 0 then (if len + rel < 0 then 0 else len + rel)
    else if rel < len then rel
    else len
  }

  /** `s.slice(start, end)`: an out-of-range window gives an empty result, never an error. */
  function JsSlice<T>(s: seq<T>, start: int, end: int): (out: seq<T>)
    ensures |out| <= |s|
    ensures forall x :: x in out ==> x in s
  {
    var from := ClampIndex(start, |s|);
    var to := ClampIndex(end, |s|);
    if from < to then s[from..to] else []
  }

  /** `rows.slice((page - 1) * LIMIT, page * LIMIT)`. */
  function PageOf<T>(rows: seq<T>, page: int): (out: seq<T>)
    ensures |out| <= LIMIT
    ensures page >= 1 && out != [] ==> (page - 1) * LIMIT + |out| <= |rows|
    ensures page >= 1 ==> forall i :: 0 <= i < |out| ==> out[i] == rows[(page - 1) * LIMIT + i]
  {
    JsSlice(rows, (page - 1) * LIMIT, page * LIMIT)
  }

  function Min(a: int, b: int): int { if a <= b then a else b }

  /**
   * A page is the window `[(page-1)*LIMIT, page*LIMIT)` cut to the rows that
   * exist: at most `LIMIT` rows, and empty exactly when the window starts at
   * or after the last row.
   */
  lemma PageWindow<T>(rows: seq<T>, page: int)
    requires page >= 1
    ensures (page - 1) * LIMIT <= |rows| ==>
              PageOf(rows, page) == rows[(page - 1) * LIMIT..Min(page * LIMIT, |rows|)]
    ensures |PageOf(rows, page)| <= LIMIT
    ensures PageOf(rows, page) == [] <==> (page - 1) * LIMIT >= |rows|
  {
  }

  /**
   * `slice` on concrete windows: a negative start counts from the end, an
   * inverted window is empty, and page 0 is empty.
   */
  lemma SliceExamples<T>(rows: seq<T>)
    ensures JsSlice([1, 2, 3, 4, 5], -2, 5) == [4, 5]
    ensures JsSlice([1, 2, 3, 4, 5], 3, 1) == []
    ensures PageOf(rows, 0) == []
  {
  }

  /** Pages `1..k` put one after another. */
  function Pages<T>(rows: seq<T>, k: nat): (all: seq<T>) {
    if k == 0 then [] else Pages(rows, k - 1) + PageOf(rows, k)
  }

  /** The first `k` pages are exactly the first `k * LIMIT` rows (or all of them). */
  lemma {:induction false} PagesArePrefix<T>(rows: seq<T>, k: nat)
    ensures Pages(rows, k) == rows[..Min(k * LIMIT, |rows|)]
  {
    if k > 0 {
      PagesArePrefix(rows, k - 1);
      PageWindow(rows, k);
      var lo := Min((k - 1) * LIMIT, |rows|);
      var hi := Min(k * LIMIT, |rows|);
      assert rows[..lo] + rows[lo..hi] == rows[..hi];
    }
  }

  /** Pages needed to show `n` rows: `ceil(n / LIMIT)`. */
  function PageCount(n: nat): (count: nat) {
    (n + LIMIT - 1) / LIMIT
  }

  /**
   * The pages `1..PageCount(|rows|)` together give back every row in order;
   * the last of them is not empty and the one after it is.
   */
  lemma PagesCoverAll<T>(rows: seq<T>)
    ensures Pages(rows, PageCount(|rows|)) == rows
    ensures |rows| > 0 ==> PageOf(rows, PageCount(|rows|)) != []
    ensures PageOf(rows, PageCount(|rows|) + 1) == []
  {
    var n := PageCount(|rows|);
    assert n * LIMIT >= |rows|;
    assert |rows| > 0 ==> n >= 1 && (n - 1) * LIMIT < |rows|;
    PagesArePrefix(rows, n);
    PageWindow(rows, n + 1);
    if |rows| > 0 {
      PageWindow(rows, n);
    }
  }

  // ---------------------------------------------------------------------------
  // The whole pipeline

  /** The rows the table shows for `records`, criteria `f` and page `page`. */
  function Render(records: seq<Country>, f: Filter, page: int): (shown: seq<DisplayRow>)
    ensures |shown| <= LIMIT
    ensures forall r :: r in shown ==> Keep(f, r)
  {
    PageOf(FilterRows(MapRows(records), f), page)
  }

  /**
   * Every shown row is the display row of a fetched record that passes the
   * criteria, and a page never shows more than `LIMIT` rows.
   */
  lemma RenderShowsOnlyMatches(records: seq<Country>, f: Filter, page: int)
    ensures |Render(records, f, page)| <= LIMIT
    ensures forall r :: r in Render(records, f, page) ==>
              Keep(f, r) && exists i :: 0 <= i < |records| && r == ToRow(records[i])
  {
    var kept := FilterRows(MapRows(records), f);
    forall r | r in Render(records, f, page)
      ensures Keep(f, r) && exists i :: 0 <= i < |records| && r == ToRow(records[i])
    {
      assert r in kept;
      var mapped := MapRows(records);
      var j :| 0 <= j < |mapped| && mapped[j] == r;
      assert r == ToRow(records[j]);
    }
  }

  /** With empty filter texts, the pages `1..ceil(n/LIMIT)` together list all rows of the `n` records. */
  lemma PassthroughPagesListEveryRow(records: seq<Country>, f: Filter)
    requires IsPassthrough(f)
    ensures forall p :: 1 <= p ==> Render(records, f, p) == PageOf(MapRows(records), p)
    ensures Pages(MapRows(records), PageCount(|records|)) == MapRows(records)
  {
    PassthroughKeepsAll(MapRows(records), f);
    PagesCoverAll(MapRows(records));
  }

  /** Twenty-five records, no filtering: page 2 holds exactly the records 21 to 25. */
  lemma SecondPageOfTwentyFive(records: seq<Country>, f: Filter)
    requires |records| == 25 && IsPassthrough(f)
    ensures Render(records, f, 2) == MapRows(records)[20..25]
    ensures |Render(records, f, 2)| == 5
    ensures Render(records, f, 3) == []
  {
    PassthroughKeepsAll(MapRows(records), f);
  }

  /** The total handed to the pager: the number of fetched records, not of filtered ones. */
  function PagerTotal(records: seq<Country>): (total: nat)
    ensures total == |MapRows(records)|
  {
    |records|
  }

  /**
   * Because the pager counts unfiltered records, it can offer pages that the
   * filtered rows do not reach: such a page shows nothing.
   */
  lemma PagerOffersEmptyPages(records: seq<Country>, f: Filter, page: int)
    requires 1 <= page <= PageCount(PagerTotal(records))
    requires (page - 1) * LIMIT >= |FilterRows(MapRows(records), f)|
    ensures Render(records, f, page) == []
  {
    PageWindow(FilterRows(MapRows(records), f), page);
  }
}
