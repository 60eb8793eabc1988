/**
 * The continent catalog that feeds the continent selector. It is grown while
 * the rows are mapped: for every record whose continent is missing from the
 * catalog, the component asks to replace the catalog by that catalog plus the
 * continent. Every such request is built from the catalog as it was when the
 * pass began, and only the last request of a pass takes effect, so one pass
 * adds at most one continent: the one of the last record that was missing.
 */
module ContinentCatalog {
  import opened DataTable

  /** No name appears twice. */
  predicate NoDuplicates(names: seq<string>) {
    forall i, j :: 0 <= i < j < |names| ==> names[i] != names[j]
  }

  /** The names listed in `names`. */
  function Elems(names: seq<string>): set<string> {
    set x | x in names
  }

  /** The continent names that occur in `records`. */
  function ContinentsOf(records: seq<Country>): set<string> {
    set r | r in records :: r.continent
  }

  /**
   * `records[i]` is the last record whose continent is not in `snapshot`,
   * i.e. the record that makes the last catalog request of a pass.
   */
  ghost predicate LastMissing(snapshot: seq<string>, records: seq<Country>, i: int) {
    0 <= i < |records| && records[i].continent !in snapshot &&
    forall j :: i < j < |records| ==> records[j].continent in snapshot
  }

  /**
   * The catalog after one pass over `records` that started from `snapshot`:
   * the value of the last request, or `snapshot` when no record asked.
   */
  function CatalogPass(snapshot: seq<string>, records: seq<Country>): (next: seq<string>)
    ensures snapshot <= next && |next| <= |snapshot| + 1
    decreases |records|
  {
    if records == [] then snapshot
    else
      var last := records[|records| - 1];
      if last.continent !in snapshot then snapshot + [last.continent]
      else CatalogPass(snapshot, records[..|records| - 1])
  }

  /**
   * The catalog changes exactly when some continent is missing; then it gains
   * the continent of the last record that was missing, and nothing else, so
   * no duplicate is ever introduced.
   */
  lemma {:induction false} CatalogPassLastWins(snapshot: seq<string>, records: seq<Country>)
    ensures CatalogPass(snapshot, records) == snapshot <==>
              forall i :: 0 <= i < |records| ==> records[i].continent in snapshot
    ensures CatalogPass(snapshot, records) != snapshot ==>
              exists i :: LastMissing(snapshot, records, i) &&
                          CatalogPass(snapshot, records) == snapshot + [records[i].continent]
    ensures NoDuplicates(snapshot) ==> NoDuplicates(CatalogPass(snapshot, records))
    decreases |records|
  {
    if records != [] {
      var n := |records|;
      var last := records[n - 1];
      if last.continent !in snapshot {
        assert LastMissing(snapshot, records, n - 1);
        assert |snapshot + [last.continent]| != |snapshot|;
      } else {
        var init := records[..n - 1];
        CatalogPassLastWins(snapshot, init);
        var next := CatalogPass(snapshot, init);
        assert CatalogPass(snapshot, records) == next;
        assert (forall i :: 0 <= i < n ==> records[i].continent in snapshot) <==>
               (forall i :: 0 <= i < n - 1 ==> init[i].continent in snapshot);
        if next != snapshot {
          var i :| LastMissing(snapshot, init, i) && next == snapshot + [init[i].continent];
          assert LastMissing(snapshot, records, i);
        }
      }
    }
  }

  /** A pass only ever adds continents that occur in the data. */
  lemma {:induction false} CatalogPassAddsOnlyDataContinents(snapshot: seq<string>, records: seq<Country>)
    ensures Elems(CatalogPass(snapshot, records)) <= Elems(snapshot) + ContinentsOf(records)
  {
    CatalogPassLastWins(snapshot, records);
    var next := CatalogPass(snapshot, records);
    if next != snapshot {
      var i :| LastMissing(snapshot, records, i) && next == snapshot + [records[i].continent];
      assert records[i] in records;
    }
  }

  /** The catalog after `k` passes over the same records. */
  function Passes(snapshot: seq<string>, records: seq<Country>, k: nat): (catalog: seq<string>)
    ensures snapshot <= catalog && |catalog| <= |snapshot| + k
    decreases k
  {
    if k == 0 then snapshot else Passes(CatalogPass(snapshot, records), records, k - 1)
  }

  /** A pass adds a name exactly when some continent of the data is missing, and then it adds one of those. */
  lemma {:induction false} PassAddsAMissingContinent(snapshot: seq<string>, records: seq<Country>)
    ensures ContinentsOf(records) - Elems(snapshot) == {} ==> CatalogPass(snapshot, records) == snapshot
    ensures ContinentsOf(records) - Elems(snapshot) != {} ==>
              exists c :: c in ContinentsOf(records) - Elems(snapshot) && CatalogPass(snapshot, records) == snapshot + [c]
  {
    CatalogPassLastWins(snapshot, records);
    var missing := ContinentsOf(records) - Elems(snapshot);
    var next := CatalogPass(snapshot, records);
    if missing == {} {
      forall i | 0 <= i < |records| ensures records[i].continent in snapshot {
        assert records[i].continent in ContinentsOf(records);
        assert records[i].continent !in missing;
      }
    } else {
      var c :| c in missing;
      var r :| r in records && r.continent == c;
      var ir :| 0 <= ir < |records| && records[ir] == r;
      assert records[ir].continent !in snapshot;
      assert next != snapshot;
      var i :| LastMissing(snapshot, records, i) && next == snapshot + [records[i].continent];
      var added := records[i].continent;
      assert added in ContinentsOf(records) by { assert records[i] in records; }
      assert added !in Elems(snapshot);
    }
  }

  /** Adding a missing continent removes exactly that one from the missing set. */
  lemma {:induction false} AddingShrinksMissing(snapshot: seq<string>, records: seq<Country>, c: string)
    requires c in ContinentsOf(records) - Elems(snapshot)
    ensures Elems(snapshot + [c]) == Elems(snapshot) + {c}
    ensures |ContinentsOf(records) - Elems(snapshot + [c])| == |ContinentsOf(records) - Elems(snapshot)| - 1
  {
    assert Elems(snapshot + [c]) == Elems(snapshot) + {c};
    assert ContinentsOf(records) - Elems(snapshot + [c]) == (ContinentsOf(records) - Elems(snapshot)) - {c};
  }

  /** A pass over data with a missing continent adds one of them and keeps the catalog duplicate-free. */
  lemma {:induction false} PassShrinksMissing(snapshot: seq<string>, records: seq<Country>)
    requires NoDuplicates(snapshot)
    requires ContinentsOf(records) - Elems(snapshot) != {}
    ensures NoDuplicates(CatalogPass(snapshot, records))
    ensures |CatalogPass(snapshot, records)| == |snapshot| + 1
    ensures Elems(CatalogPass(snapshot, records)) + ContinentsOf(records) == Elems(snapshot) + ContinentsOf(records)
    ensures |ContinentsOf(records) - Elems(CatalogPass(snapshot, records))| == |ContinentsOf(records) - Elems(snapshot)| - 1
  {
    PassAddsAMissingContinent(snapshot, records);
    CatalogPassLastWins(snapshot, records);
    var c :| c in ContinentsOf(records) - Elems(snapshot) && CatalogPass(snapshot, records) == snapshot + [c];
    AddingShrinksMissing(snapshot, records, c);
  }

  /** With no continent missing, a pass changes nothing and the catalog already holds every continent. */
  lemma {:induction false} CompleteCatalogIsFixed(snapshot: seq<string>, records: seq<Country>)
    requires ContinentsOf(records) - Elems(snapshot) == {}
    ensures CatalogPass(snapshot, records) == snapshot
    ensures Elems(snapshot) + ContinentsOf(records) == Elems(snapshot)
  {
    PassAddsAMissingContinent(snapshot, records);
    forall x | x in ContinentsOf(records) ensures x in Elems(snapshot) {
      assert x !in ContinentsOf(records) - Elems(snapshot);
    }
  }

  /**
   * Repeated passes converge: after as many passes as there are continents
   * still missing (`k`), the catalog lists each continent of the data exactly
   * once (besides what it held before), and a further pass leaves it unchanged.
   */
  lemma {:induction false} PassesReachAllContinents(snapshot: seq<string>, records: seq<Country>, k: nat)
    requires NoDuplicates(snapshot)
    requires k == |ContinentsOf(records) - Elems(snapshot)|
    ensures Elems(Passes(snapshot, records, k)) == Elems(snapshot) + ContinentsOf(records)
    ensures NoDuplicates(Passes(snapshot, records, k))
    ensures |Passes(snapshot, records, k)| == |snapshot| + k
    ensures CatalogPass(Passes(snapshot, records, k), records) == Passes(snapshot, records, k)
    decreases k
  {
    if k > 0 {
      PassShrinksMissing(snapshot, records);
      PassesReachAllContinents(CatalogPass(snapshot, records), records, k - 1);
    } else {
      CompleteCatalogIsFixed(snapshot, records);
    }
  }

  /** The catalog that the selector ends up with, starting from an empty catalog. */
  lemma {:induction false} EmptyCatalogConverges(records: seq<Country>)
    ensures var catalog := Passes([], records, |ContinentsOf(records)|);
            Elems(catalog) == ContinentsOf(records) &&
            NoDuplicates(catalog) &&
            |catalog| == |ContinentsOf(records)| &&
            CatalogPass(catalog, records) == catalog
  {
    assert Elems([]) == {};
    assert ContinentsOf(records) - Elems([]) == ContinentsOf(records);
    PassesReachAllContinents([], records, |ContinentsOf(records)|);
  }

  /** A record of the given continent with otherwise blank fields, for examples. */
  function OnContinent(continent: string): Country {
    Country("", "", None, [], continent)
  }

  /**
   * Records on Europe then Asia: the first pass adds only Asia, the second
   * adds Europe, so the catalog lists them in the reverse of their first
   * appearance; a third pass changes nothing.
   */
  lemma {:induction false} CatalogOrderExample()
    ensures CatalogPass([], [OnContinent("Europe"), OnContinent("Asia")]) == ["Asia"]
    ensures Passes([], [OnContinent("Europe"), OnContinent("Asia")], 2) == ["Asia", "Europe"]
    ensures Passes([], [OnContinent("Europe"), OnContinent("Asia")], 3) == ["Asia", "Europe"]
  {
    var records := [OnContinent("Europe"), OnContinent("Asia")];
    assert records[..1] == [OnContinent("Europe")];
    assert "Europe" != "Asia" by { assert "Europe"[0] != "Asia"[0]; }
    assert CatalogPass(["Asia"], records) == ["Asia", "Europe"];
    assert CatalogPass(["Asia", "Europe"], records) == ["Asia", "Europe"];
  }
}
