/**
 * The state the country table keeps between renders: the page cursor, the
 * submitted criteria and the continent catalog. Submitting the form, moving to
 * another page and rendering are the three steps that touch it.
 */
module DataTableComponent {
  import opened DataTable
  import opened ContinentCatalog

  class DataTableState {
    /** The 1-based page cursor (any value the pager hands over is accepted). */
    var page: int
    /** The criteria of the last submission. */
    var filter: Filter
    /** The continents offered by the selector. */
    var continents: seq<string>

    /** The catalog never lists a continent twice. */
    ghost predicate Valid()
      reads this
    {
      NoDuplicates(continents)
    }

    /** First page, continent mode with empty texts, empty catalog. */
    constructor ()
      ensures Valid()
      ensures page == 1 && filter == INITIAL_FILTER && continents == []
    {
      page := 1;
      filter := INITIAL_FILTER;
      continents := [];
    }

    /** The form's submission replaces the criteria wholesale; the page cursor is not reset. */
    method SubmitFilter(values: Filter)
      requires Valid()
      modifies this
      ensures Valid()
      ensures filter == values
      ensures page == old(page) && continents == old(continents)
    {
      filter := values;
    }

    /** The pager moved to page `p`. */
    method ChangePage(p: int)
      requires Valid()
      modifies this
      ensures Valid()
      ensures page == p
      ensures filter == old(filter) && continents == old(continents)
    {
      page := p;
    }

    /**
     * One render with the fetched `records`: maps every record to its row,
     * issuing a catalog request for each record whose continent the catalog
     * lacked when the render began (the last request wins), then filters and
     * cuts out the current page. Also returns the total handed to the pager.
     */
    method RenderPass(records: seq<Country>) returns (rows: seq<DisplayRow>, total: nat)
      requires Valid()
      modifies this
      ensures Valid()
      ensures continents == CatalogPass(old(continents), records)
      ensures page == old(page) && filter == old(filter)
      ensures rows == Render(records, filter, page)
      ensures total == PagerTotal(records)
    {
      var snapshot := continents;
      var requested := snapshot;
      var mapped: seq<DisplayRow> := [];
      var i := 0;
      while i < |records|
        invariant 0 <= i <= |records|
        invariant |mapped| == i
        invariant forall k :: 0 <= k < i ==> mapped[k] == ToRow(records[k])
        invariant requested == CatalogPass(snapshot, records[..i])
      {
        var country := records[i];
        if country.continent !in snapshot {
          requested := snapshot + [country.continent];
        }
        mapped := mapped + [ToRow(country)];
        assert records[..i + 1][..i] == records[..i];
        i := i + 1;
      }
      assert records[..i] == records;
      assert mapped == MapRows(records);
      CatalogPassLastWins(snapshot, records);
      continents := requested;
      rows := PageOf(FilterRows(mapped, filter), page);
      total := |records|;
    }
  }
}
