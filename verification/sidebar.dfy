/** The country sidebar: a search box and region checkboxes narrowing the
    directory to the list that is shown. */
module Sidebar {
  import opened Seqs
  import opened Text
  import opened Records

  /** `countries.map(c => c.region)`. */
  function RegionsOf(countries: seq<Country>): (all: seq<string>)
    ensures |all| == |countries|
    ensures forall i :: 0 <= i < |countries| ==> all[i] == countries[i].region
  {
    seq(|countries|, i requires 0 <= i < |countries| => countries[i].region)
  }

  /** The region checkbox list, `Array.from(new Set(regions))`: every region
      of the directory once, in the order of its first appearance. */
  function Regions(countries: seq<Country>): (regions: seq<string>)
    ensures NoDup(regions)
    ensures forall r :: r in regions <==> r in RegionsOf(countries)
    ensures forall r :: r in regions <==> exists i :: 0 <= i < |countries| && countries[i].region == r
    ensures forall i, j :: 0 <= i < j < |regions| ==>
              IndexOf(RegionsOf(countries), regions[i]) < IndexOf(RegionsOf(countries), regions[j])
  {
    var all := RegionsOf(countries);
    DistinctFirstOccurrenceOrder(all);
    assert forall r :: r in all <==> exists i :: 0 <= i < |countries| && countries[i].region == r by {
      forall r | r in all
        ensures exists i :: 0 <= i < |countries| && countries[i].region == r
      {
        var i :| 0 <= i < |all| && all[i] == r;
        assert countries[i].region == r;
      }
    }
    Distinct(all)
  }

  /** Passes every region other than `region`. */
  function Except(region: string): string -> bool {
    r => r != region
  }

  /** `handleRegionChange`'s new selection: a selected region is removed
      (every copy of it), an unselected one is appended. */
  function ToggleRegion(selected: seq<string>, region: string): (updated: seq<string>)
    ensures region in selected ==> region !in updated
    ensures region in selected ==> forall r :: r != region ==> (r in updated <==> r in selected)
    ensures region in selected ==> IsSubsequence(updated, selected)
    ensures region in selected ==> forall r :: r != region ==> multiset(updated)[r] == multiset(selected)[r]
    ensures region !in selected ==> updated == selected + [region]
  {
    if region in selected then
      KeepIsSubsequence(selected, Except(region));
      assert forall r :: r != region ==> multiset(Keep(selected, Except(region)))[r] == multiset(selected)[r] by {
        forall r | r != region
          ensures multiset(Keep(selected, Except(region)))[r] == multiset(selected)[r]
        {
          KeepCount(selected, Except(region), r);
        }
      }
      Keep(selected, Except(region))
    else selected + [region]
  }

  /** Clicking the same checkbox twice restores the selected set; starting
      from an unselected region it restores the selection exactly. */
  lemma ToggleTwice(selected: seq<string>, region: string)
    ensures forall r :: r in ToggleRegion(ToggleRegion(selected, region), region) <==> r in selected
    ensures region !in selected ==> ToggleRegion(ToggleRegion(selected, region), region) == selected
  {
    if region !in selected {
      KeepAppend(selected, [region], Except(region));
      KeepAll(selected, Except(region));
      assert Keep([region], Except(region)) == [] by {
        assert [region][1..] == [];
      }
    }
  }

  /** The search test of one country: its lower-cased common name contains
      the query, and it is in a selected region or no region is selected. */
  predicate Matches(c: Country, query: string, regions: seq<string>) {
    Contains(Lower(c.commonName), query) && (|regions| == 0 || c.region in regions)
  }

  function MatchesAll(query: string, regions: seq<string>): Country -> bool {
    c => Matches(c, query, regions)
  }

  /** `filterCountries`: the countries passing the search test, each as
      often as in the directory, in directory order. */
  function Filter(countries: seq<Country>, query: string, regions: seq<string>): (shown: seq<Country>)
    ensures IsSubsequence(shown, countries)
    ensures forall c :: c in shown <==> c in countries && Matches(c, query, regions)
    ensures forall c :: multiset(shown)[c] == if Matches(c, query, regions) then multiset(countries)[c] else 0
  {
    var shown := Keep(countries, MatchesAll(query, regions));
    KeepIsSubsequence(countries, MatchesAll(query, regions));
    assert forall c :: multiset(shown)[c] == if Matches(c, query, regions) then multiset(countries)[c] else 0 by {
      forall c
        ensures multiset(shown)[c] == if Matches(c, query, regions) then multiset(countries)[c] else 0
      {
        KeepCount(countries, MatchesAll(query, regions), c);
      }
    }
    shown
  }

  /** An empty query with no region selected shows the whole directory. */
  lemma FilterNothing(countries: seq<Country>)
    ensures Filter(countries, "", []) == countries
  {
    forall i | 0 <= i < |countries|
      ensures MatchesAll("", [])(countries[i])
    {
      ContainsEmpty(Lower(countries[i].commonName));
    }
    KeepAll(countries, MatchesAll("", []));
  }

  /** Names are lower-cased before the test, so a query holding an upper-case
      letter matches nothing; the search box lower-cases what is typed. */
  lemma UpperCaseQueryMatchesNothing(countries: seq<Country>, query: string, regions: seq<string>, k: nat)
    requires k < |query| && IsUpper(query[k])
    ensures Filter(countries, query, regions) == []
  {
    var shown := Filter(countries, query, regions);
    forall c | c in countries
      ensures !Matches(c, query, regions)
    {
      NoUpperNeverContainsUpper(Lower(c.commonName), query, k);
    }
  }

  /** What the sidebar holds: the directory, the selected regions, the
      (lower-cased) query, and the list on screen. */
  datatype View = View(countries: seq<Country>, selectedRegions: seq<string>, query: string, shown: seq<Country>)

  /** The list on screen is the directory filtered by the current query and
      selection. */
  predicate Consistent(v: View) {
    v.shown == Filter(v.countries, v.query, v.selectedRegions)
  }

  /** The sidebar before the directory arrives. */
  function Initial(): (v: View)
    ensures Consistent(v)
  {
    View([], [], "", [])
  }

  /** `handleSearchChange`: the typed text is lower-cased, stored and used. */
  function SearchChange(v: View, typed: string): (next: View)
    ensures next.query == Lower(typed)
    ensures next.countries == v.countries && next.selectedRegions == v.selectedRegions
    ensures Consistent(next)
  {
    v.(query := Lower(typed), shown := Filter(v.countries, Lower(typed), v.selectedRegions))
  }

  /** How the typed text is cased never changes the list. */
  lemma SearchIgnoresCase(v: View, typed1: string, typed2: string)
    requires Lower(typed1) == Lower(typed2)
    ensures SearchChange(v, typed1) == SearchChange(v, typed2)
  {
  }

  /** `handleRegionChange`: the selection is toggled and the list refiltered
      with the stored query. */
  function RegionChange(v: View, region: string): (next: View)
    ensures next.selectedRegions == ToggleRegion(v.selectedRegions, region)
    ensures next.countries == v.countries && next.query == v.query
    ensures Consistent(next)
  {
    var updated := ToggleRegion(v.selectedRegions, region);
    v.(selectedRegions := updated, shown := Filter(v.countries, v.query, updated))
  }

  /** The end of `loadCountries` as written: the whole directory is shown,
      whatever has been typed meanwhile. */
  function LoadedAsWritten(v: View, fetched: seq<Country>): (next: View)
    ensures next.countries == fetched && next.shown == fetched
    ensures next.query == v.query && next.selectedRegions == v.selectedRegions
  {
    v.(countries := fetched, shown := fetched)
  }

  lemma ArgentinaLowered()
    ensures Lower("Argentina") == "argentina"
  {
  }

  lemma NoBrInArgentina()
    ensures !Contains("argentina", "br")
  {
    ContainsAt("argentina", "br");
    forall i | 0 <= i <= 7
      ensures !OccursAt("argentina", "br", i)
    {
      assert "argentina"[i..i + 2][0] == "argentina"[i] != 'b';
    }
  }

  /** As written, the load shows every fetched country, so a fetched country
      that the current query or selection excludes is on screen. */
  lemma LoadedAsWrittenIgnoresQuery(v: View, fetched: seq<Country>, k: nat)
    requires k < |fetched| && !Matches(fetched[k], v.query, v.selectedRegions)
    ensures !Consistent(LoadedAsWritten(v, fetched))
  {
    assert fetched[k] in LoadedAsWritten(v, fetched).shown;
  }

  lemma BrLowered()
    ensures Lower("br") == "br"
  {
  }

  /** "br" typed while the directory is still loading leaves "Argentina" on
      screen once it arrives. */
  lemma BrTypedWhileLoading()
    ensures var v := SearchChange(Initial(), "br");
            var argentina := Country("Argentina", "Americas", Options.None, Options.None, Options.None);
            !Consistent(LoadedAsWritten(v, [argentina]))
  {
    var v := SearchChange(Initial(), "br");
    var argentina := Country("Argentina", "Americas", Options.None, Options.None, Options.None);
    BrLowered();
    ArgentinaLowered();
    NoBrInArgentina();
    assert v.query == "br";
    LoadedAsWrittenIgnoresQuery(v, [argentina], 0);
  }

  /** The end of `loadCountries` with the list filtered by the current query
      and selection. */
  function Loaded(v: View, fetched: seq<Country>): (next: View)
    ensures next.countries == fetched
    ensures next.query == v.query && next.selectedRegions == v.selectedRegions
    ensures Consistent(next)
  {
    v.(countries := fetched, shown := Filter(fetched, v.query, v.selectedRegions))
  }

  /** Loading into an untouched sidebar shows the whole directory, as the
      code as written does. */
  lemma LoadedIntoInitial(fetched: seq<Country>)
    ensures Loaded(Initial(), fetched) == LoadedAsWritten(Initial(), fetched)
  {
    FilterNothing(fetched);
  }
}
