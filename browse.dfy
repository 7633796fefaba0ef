/**
 * The browse page: its filter groups, its state (the search query and the selections), the
 * transitions its handlers perform, the active-filter chips, the `q` parameter of the page URL,
 * and the results summary line.
 */
module Browse {
  import opened Options
  import opened Seqs
  import opened Text
  import opened Catalog
  import opened Selections
  import opened Query
  import opened FilterPanel

  // ---------------------------------------------------------------------------
  // Filter groups
  // ---------------------------------------------------------------------------

  datatype FilterGroup = FilterGroup(id: string, name: string, options: seq<FilterOption>)

  /** `vocab.map(v => ({ id: v, label: v }))`: one option per entry, without a count. */
  function VocabularyOptions(vocab: seq<string>): (opts: seq<FilterOption>)
    ensures |opts| == |vocab|
    ensures forall i :: 0 <= i < |vocab| ==> opts[i] == FilterOption(vocab[i], vocab[i], None)
  {
    seq(|vocab|, i requires 0 <= i < |vocab| => FilterOption(vocab[i], vocab[i], None))
  }

  /** The ids of a vocabulary's options are the vocabulary itself. */
  lemma VocabularyOptionIds(vocab: seq<string>)
    ensures OptionIds(VocabularyOptions(vocab)) == vocab
  {
  }

  /** The three groups of the panel, in display order. */
  function FilterGroups(): (gs: seq<FilterGroup>)
    ensures |gs| == 3
    ensures gs[0].id == "campus" && gs[0].name == "Campus"
    ensures gs[1].id == "language" && gs[1].name == "Programming Language"
    ensures gs[2].id == "topic" && gs[2].name == "Topic"
    ensures forall g :: g in gs ==> IsKnownFacet(g.id) && |g.options| == |Vocabulary(g.id)|
    ensures forall g, i :: g in gs && 0 <= i < |g.options| ==>
              g.options[i].id == Vocabulary(g.id)[i] && g.options[i].optionLabel == Vocabulary(g.id)[i]
  {
    [ FilterGroup("campus", "Campus", VocabularyOptions(Campuses)),
      FilterGroup("language", "Programming Language", VocabularyOptions(Languages)),
      FilterGroup("topic", "Topic", VocabularyOptions(Topics)) ]
  }

  // ---------------------------------------------------------------------------
  // Page state and its transitions
  // ---------------------------------------------------------------------------

  datatype PageState = PageState(searchQuery: string, selectedFilters: Record)

  /** `{ campus: [], language: [], topic: [] }`. */
  function InitialFilters(): (r: Record)
    ensures DistinctKeys(r)
    ensures TotalActive(r) == 0
    ensures forall f :: IsKnownFacet(f) <==> HasKey(r, f)
    ensures forall f :: IsKnownFacet(f) ==> Lookup(r, f) == Some([])
  {
    var r := [Entry("campus", []), Entry("language", []), Entry("topic", [])];
    assert r[0] in r && r[1] in r && r[2] in r;
    r
  }

  /** The state the page starts in: the `q` parameter (or the empty string) and no selection. */
  function Initial(params: Params): (s: PageState)
    ensures s.searchQuery == InitialQuery(params)
    ensures s.selectedFilters == InitialFilters()
  {
    PageState(InitialQuery(params), InitialFilters())
  }

  /** `handleSearch`: only the query changes. */
  function Search(s: PageState, query: string): (s': PageState)
    ensures s'.searchQuery == query && s'.selectedFilters == s.selectedFilters
  {
    s.(searchQuery := query)
  }

  /** `handleFilterChange`: facet `filterId` takes `opts`, every other facet and the query stay. */
  function FilterChange(s: PageState, filterId: string, opts: seq<string>): (s': PageState)
    ensures s'.searchQuery == s.searchQuery
    ensures Lookup(s'.selectedFilters, filterId) == Some(opts)
    ensures forall g :: g != filterId ==> Lookup(s'.selectedFilters, g) == Lookup(s.selectedFilters, g)
    ensures DistinctKeys(s.selectedFilters) ==> DistinctKeys(s'.selectedFilters)
  {
    AssignDistinct(s.selectedFilters, filterId, opts);
    AssignLookup(s.selectedFilters, filterId, opts);
    s.(selectedFilters := Assign(s.selectedFilters, filterId, opts))
  }

  /** `handleClearAllFilters`: a fresh record with the three facets empty; the query stays. */
  function ClearAllFilters(s: PageState): (s': PageState)
    ensures s'.searchQuery == s.searchQuery
    ensures TotalActive(s'.selectedFilters) == 0
    ensures forall f :: IsKnownFacet(f) ==> SelectedFor(s'.selectedFilters, f) == []
    ensures forall f :: !IsKnownFacet(f) ==> !HasKey(s'.selectedFilters, f)
  {
    s.(selectedFilters := InitialFilters())
  }

  /**
   * The chip button: `selectedFilters[filterId].filter(o => o !== option)` written back through
   * `handleFilterChange`. A chip exists only for a facet present in the record.
   */
  function RemoveChip(s: PageState, filterId: string, option: string): (s': PageState)
    requires HasKey(s.selectedFilters, filterId)
    ensures s'.searchQuery == s.searchQuery
    ensures Lookup(s'.selectedFilters, filterId).Some?
    ensures option !in SelectedFor(s'.selectedFilters, filterId)
    ensures IsSubseq(SelectedFor(s'.selectedFilters, filterId), SelectedFor(s.selectedFilters, filterId))
    ensures forall x :: x != option ==>
              multiset(SelectedFor(s'.selectedFilters, filterId))[x] == multiset(SelectedFor(s.selectedFilters, filterId))[x]
    ensures forall g :: g != filterId ==> Lookup(s'.selectedFilters, g) == Lookup(s.selectedFilters, g)
  {
    var current := SelectedFor(s.selectedFilters, filterId);
    var kept := Filter(current, Other(option));
    FilterIsSubseq(current, Other(option));
    assert forall x :: x != option ==> multiset(kept)[x] == multiset(current)[x] by {
      forall x | x != option ensures multiset(kept)[x] == multiset(current)[x] {
        FilterMultiset(current, Other(option), x);
      }
    }
    FilterChange(s, filterId, kept)
  }

  /** A group's checkbox toggled, written back through `handleFilterChange`. */
  function ToggleFacetOption(s: PageState, groupId: string, optionId: string): (s': PageState)
    ensures s'.searchQuery == s.searchQuery
    ensures Lookup(s'.selectedFilters, groupId) == Some(ToggleOption(SelectedFor(s.selectedFilters, groupId), optionId))
    ensures forall g :: g != groupId ==> Lookup(s'.selectedFilters, g) == Lookup(s.selectedFilters, g)
  {
    FilterChange(s, groupId, ToggleOption(SelectedFor(s.selectedFilters, groupId), optionId))
  }

  /** A group's select-all button, written back through `handleFilterChange`. */
  function ToggleFacetAll(s: PageState, g: FilterGroup): (s': PageState)
    ensures s'.searchQuery == s.searchQuery
    ensures Lookup(s'.selectedFilters, g.id) == Some(ToggleAll(SelectedFor(s.selectedFilters, g.id), g.options))
    ensures forall h :: h != g.id ==> Lookup(s'.selectedFilters, h) == Lookup(s.selectedFilters, h)
  {
    FilterChange(s, g.id, ToggleAll(SelectedFor(s.selectedFilters, g.id), g.options))
  }

  // ---------------------------------------------------------------------------
  // The states the page can reach
  // ---------------------------------------------------------------------------

  /** Distinct facet keys, and no option selected twice within a facet. */
  predicate WellFormedState(s: PageState) {
    DistinctKeys(s.selectedFilters) && forall e :: e in s.selectedFilters ==> NoDup(e.selected)
  }

  /** Writing back a duplicate-free list keeps the state well formed. */
  lemma FilterChangeWellFormed(s: PageState, filterId: string, opts: seq<string>)
    requires WellFormedState(s) && NoDup(opts)
    ensures WellFormedState(FilterChange(s, filterId, opts))
  {
    AssignDistinct(s.selectedFilters, filterId, opts);
    AssignMembers(s.selectedFilters, filterId, opts);
  }

  /** The select-all button writes `[]` or the group's whole vocabulary, which has no repeats. */
  lemma ToggleAllNoDup(s: PageState, k: nat)
    requires k < |FilterGroups()|
    ensures NoDup(ToggleAll(SelectedFor(s.selectedFilters, FilterGroups()[k].id), FilterGroups()[k].options))
  {
    var g := FilterGroups()[k];
    var t := ToggleAll(SelectedFor(s.selectedFilters, g.id), g.options);
    VocabulariesDistinct();
    if t != [] {
      assert g in FilterGroups();
      assert t == Vocabulary(g.id);
    }
  }

  lemma ToggleFacetOptionWellFormed(s: PageState, groupId: string, optionId: string)
    requires WellFormedState(s)
    ensures WellFormedState(ToggleFacetOption(s, groupId, optionId))
  {
    var current := SelectedFor(s.selectedFilters, groupId);
    if HasKey(s.selectedFilters, groupId) {
      assert Entry(groupId, current) in s.selectedFilters;
    }
    ToggleNoDup(current, optionId);
    FilterChangeWellFormed(s, groupId, ToggleOption(current, optionId));
  }

  lemma ToggleFacetAllWellFormed(s: PageState, k: nat)
    requires WellFormedState(s) && k < |FilterGroups()|
    ensures WellFormedState(ToggleFacetAll(s, FilterGroups()[k]))
  {
    var g := FilterGroups()[k];
    ToggleAllNoDup(s, k);
    FilterChangeWellFormed(s, g.id, ToggleAll(SelectedFor(s.selectedFilters, g.id), g.options));
  }

  lemma RemoveChipWellFormed(s: PageState, filterId: string, option: string)
    requires WellFormedState(s) && HasKey(s.selectedFilters, filterId)
    ensures WellFormedState(RemoveChip(s, filterId, option))
  {
    var current := SelectedFor(s.selectedFilters, filterId);
    assert Entry(filterId, current) in s.selectedFilters;
    FilterNoDup(current, Other(option));
    FilterChangeWellFormed(s, filterId, Filter(current, Other(option)));
  }

  /** The fresh record of the initial state and of "Clear all" holds only empty lists. */
  lemma InitialFiltersWellFormed(s: PageState)
    requires s.selectedFilters == InitialFilters()
    ensures WellFormedState(s)
  {
    var r := InitialFilters();
    forall e | e in r ensures NoDup(e.selected) {
      assert HasKey(r, e.id);
      assert Lookup(r, e.id) == Some([]);
    }
  }

  /** In a well-formed state every facet reads as a duplicate-free list, as `RemoveChipCount` and
      `ToggleTwiceShowsSame` require. */
  lemma WellFormedFacetNoDup(s: PageState, id: string)
    requires WellFormedState(s)
    ensures DistinctKeys(s.selectedFilters) && NoDup(SelectedFor(s.selectedFilters, id))
  {
    if HasKey(s.selectedFilters, id) {
      assert Entry(id, SelectedFor(s.selectedFilters, id)) in s.selectedFilters;
    }
  }

  /**
   * Every handler of the page keeps it well formed, and so does its initial state: a facet never
   * lists an option twice, whatever the user does.
   */
  lemma TransitionsWellFormed(s: PageState, params: Params, query: string, groupId: string,
                              optionId: string, k: nat, filterId: string, option: string)
    requires WellFormedState(s)
    ensures WellFormedState(Initial(params))
    ensures WellFormedState(Search(s, query))
    ensures WellFormedState(ToggleFacetOption(s, groupId, optionId))
    ensures k < |FilterGroups()| ==> WellFormedState(ToggleFacetAll(s, FilterGroups()[k]))
    ensures HasKey(s.selectedFilters, filterId) ==> WellFormedState(RemoveChip(s, filterId, option))
    ensures WellFormedState(ClearAllFilters(s))
  {
    InitialFiltersWellFormed(Initial(params));
    InitialFiltersWellFormed(ClearAllFilters(s));
    ToggleFacetOptionWellFormed(s, groupId, optionId);
    if k < |FilterGroups()| {
      ToggleFacetAllWellFormed(s, k);
    }
    if HasKey(s.selectedFilters, filterId) {
      RemoveChipWellFormed(s, filterId, option);
    }
  }

  // ---------------------------------------------------------------------------
  // Active-filter chips
  // ---------------------------------------------------------------------------

  datatype Chip = Chip(filterId: string, option: string)

  /** One chip per selected option, facet by facet in record order. */
  function ActiveChips(r: Record): (chips: seq<Chip>)
    ensures |chips| == TotalActive(r)
    ensures forall c :: c in chips <==> exists e :: e in r && e.id == c.filterId && c.option in e.selected
  {
    if r == [] then []
    else
      var e := r[0];
      var front := seq(|e.selected|, i requires 0 <= i < |e.selected| => Chip(e.id, e.selected[i]));
      var rest := ActiveChips(r[1..]);
      assert forall c: Chip :: c in front <==> c.filterId == e.id && c.option in e.selected by {
        forall c: Chip | c.filterId == e.id && c.option in e.selected ensures c in front {
          var i :| 0 <= i < |e.selected| && e.selected[i] == c.option;
          assert front[i] == c;
        }
      }
      assert forall x :: x in r <==> x == e || x in r[1..] by {
        assert r == [e] + r[1..];
      }
      front + rest
  }

  /** Removing a chip of a duplicate-free facet lowers the active-filter count by one. */
  lemma RemoveChipCount(s: PageState, filterId: string, option: string)
    requires DistinctKeys(s.selectedFilters) && HasKey(s.selectedFilters, filterId)
    requires NoDup(SelectedFor(s.selectedFilters, filterId)) && option in SelectedFor(s.selectedFilters, filterId)
    ensures TotalActive(RemoveChip(s, filterId, option).selectedFilters) == TotalActive(s.selectedFilters) - 1
  {
    var current := SelectedFor(s.selectedFilters, filterId);
    var kept := Filter(current, Other(option));
    TotalActiveAssign(s.selectedFilters, filterId, kept);
    FilterCountLength(current, option);
    var i :| 0 <= i < |current| && current[i] == option;
    NoDupCountOne(current, i);
  }

  lemma {:induction false} FilterCountLength(s: seq<string>, option: string)
    ensures |Filter(s, Other(option))| == |s| - multiset(s)[option]
  {
    if s != [] {
      FilterCountLength(s[1..], option);
      assert s == [s[0]] + s[1..];
    }
  }

  // ---------------------------------------------------------------------------
  // The `q` parameter of the page URL
  // ---------------------------------------------------------------------------

  /** A `URLSearchParams` list: name-value pairs in order, names may repeat. */
  datatype Param = Param(name: string, value: string)

  type Params = seq<Param>

  function Named(n: string): Param -> bool {
    (p: Param) => p.name == n
  }

  function NotNamed(n: string): Param -> bool {
    (p: Param) => p.name != n
  }

  /** The pairs called `n`, in order. */
  function ParamsNamed(ps: Params, n: string): Params {
    Filter(ps, Named(n))
  }

  /** `params.get(n)`: the value of the first pair called `n`. */
  function GetParam(ps: Params, n: string): (o: Option<string>)
    ensures o.None? <==> ParamsNamed(ps, n) == []
    ensures o.Some? ==> o.value == ParamsNamed(ps, n)[0].value
  {
    if ps == [] then None
    else if ps[0].name == n then Some(ps[0].value)
    else GetParam(ps[1..], n)
  }

  /** `params.delete(n)`: every pair called `n` goes, the others stay in order. */
  function DeleteParam(ps: Params, n: string): (r: Params)
    ensures ParamsNamed(r, n) == []
    ensures Filter(r, NotNamed(n)) == Filter(ps, NotNamed(n))
  {
    var r := Filter(ps, NotNamed(n));
    FilterAll(r, NotNamed(n));
    FilterNone(r, Named(n));
    r
  }

  /** `k` is the position of the first pair called `n`. */
  predicate FirstNamed(ps: Params, n: string, k: int) {
    0 <= k < |ps| && ps[k].name == n && forall j :: 0 <= j < k ==> ps[j].name != n
  }

  /** `params.set(n, v)`: the first pair called `n` takes the value `v` in place and the later ones
      go; with no such pair, one is appended. The other pairs stay in order. */
  function SetParam(ps: Params, n: string, v: string): (r: Params)
    ensures ParamsNamed(r, n) == [Param(n, v)]
    ensures Filter(r, NotNamed(n)) == Filter(ps, NotNamed(n))
    ensures PlacedAsSet(ps, n, v, r)
  {
    if ps == [] then
      [Param(n, v)]
    else if ps[0].name == n then
      var r := [Param(n, v)] + DeleteParam(ps[1..], n);
      assert r[1..] == DeleteParam(ps[1..], n);
      SetParamHead(ps, n, v);
      r
    else
      var tail := SetParam(ps[1..], n, v);
      var r := [ps[0]] + tail;
      assert r[1..] == tail;
      SetParamCons(ps, n, v, tail);
      r
  }

  /** Where the pair called `n` goes, as `SetParam` promises it. */
  ghost predicate PlacedAsSet(ps: Params, n: string, v: string, r: Params) {
    && (ParamsNamed(ps, n) == [] ==> r == ps + [Param(n, v)])
    && (forall k :: FirstNamed(ps, n, k) ==> r == ps[..k] + [Param(n, v)] + DeleteParam(ps[k + 1..], n))
  }

  /** When the first pair has the name, it takes the value and the later pairs with the name go. */
  lemma SetParamHead(ps: Params, n: string, v: string)
    requires ps != [] && ps[0].name == n
    ensures PlacedAsSet(ps, n, v, [Param(n, v)] + DeleteParam(ps[1..], n))
  {
    assert ParamsNamed(ps, n) != [];
    assert forall k :: FirstNamed(ps, n, k) ==> k == 0;
    assert ps[..0] == [] && ps[1..] == ps[0 + 1..];
  }

  /** A leading pair with another name stays in front of the placement made in the tail. */
  lemma SetParamCons(ps: Params, n: string, v: string, tail: Params)
    requires ps != [] && ps[0].name != n
    requires PlacedAsSet(ps[1..], n, v, tail)
    ensures PlacedAsSet(ps, n, v, [ps[0]] + tail)
  {
    assert ParamsNamed(ps, n) == ParamsNamed(ps[1..], n);
    if ParamsNamed(ps, n) == [] {
      assert ps == [ps[0]] + ps[1..];
    }
    forall k | FirstNamed(ps, n, k)
      ensures [ps[0]] + tail == ps[..k] + [Param(n, v)] + DeleteParam(ps[k + 1..], n)
    {
      FirstNamedTail(ps, n, k);
      SetParamConsAt(ps, n, v, tail, k);
    }
  }

  lemma SetParamConsAt(ps: Params, n: string, v: string, tail: Params, k: int)
    requires 1 <= k < |ps|
    requires tail == ps[1..][..k - 1] + [Param(n, v)] + DeleteParam(ps[1..][k..], n)
    ensures [ps[0]] + tail == ps[..k] + [Param(n, v)] + DeleteParam(ps[k + 1..], n)
  {
    assert ps[..k] == [ps[0]] + ps[1..][..k - 1];
    assert ps[k + 1..] == ps[1..][k..];
  }

  lemma FirstNamedTail(ps: Params, n: string, k: int)
    requires FirstNamed(ps, n, k) && ps[0].name != n
    ensures k >= 1 && FirstNamed(ps[1..], n, k - 1)
  {
    forall j | 0 <= j < k - 1 ensures ps[1..][j].name != n {
      assert ps[1..][j] == ps[j + 1];
    }
  }

  /** Setting a parameter that is already present keeps its place: nothing before it moves. */
  lemma SetParamInPlace()
    ensures SetParam([Param("q", "a"), Param("b", "1")], "q", "c") == [Param("q", "c"), Param("b", "1")]
  {
    var ps := [Param("q", "a"), Param("b", "1")];
    assert FirstNamed(ps, "q", 0);
    assert DeleteParam([Param("b", "1")], "q") == [Param("b", "1")];
  }

  /** The effect run whenever the query changes: set `q` to a non-empty query, delete it for the
      empty one; the query is written untrimmed. */
  function SyncQuery(ps: Params, searchQuery: string): (r: Params)
    ensures searchQuery != "" ==> ParamsNamed(r, "q") == [Param("q", searchQuery)]
    ensures searchQuery == "" ==> ParamsNamed(r, "q") == []
    ensures Filter(r, NotNamed("q")) == Filter(ps, NotNamed("q"))
  {
    if searchQuery != "" then SetParam(ps, "q", searchQuery) else DeleteParam(ps, "q")
  }

  /** `searchParams.get('q') || ''`. */
  function InitialQuery(ps: Params): (q: string)
    ensures ParamsNamed(ps, "q") == [] ==> q == ""
    ensures ParamsNamed(ps, "q") != [] ==> q == ParamsNamed(ps, "q")[0].value
  {
    match GetParam(ps, "q")
    case None => ""
    case Some(v) => v
  }

  /** Reloading the page after the sync restores the query. */
  lemma SyncRoundTrip(ps: Params, searchQuery: string)
    ensures InitialQuery(SyncQuery(ps, searchQuery)) == searchQuery
  {
  }

  /** Running the sync again with the same query changes nothing more. */
  lemma {:induction false} SetParamIdempotent(ps: Params, n: string, v: string)
    ensures SetParam(SetParam(ps, n, v), n, v) == SetParam(ps, n, v)
  {
    if ps == [] {
      assert DeleteParam([], n) == [];
    } else if ps[0].name == n {
      var d := DeleteParam(ps[1..], n);
      assert forall x :: x in d ==> x.name != n;
      FilterAll(d, NotNamed(n));
      assert ([Param(n, v)] + d)[1..] == d;
    } else {
      SetParamIdempotent(ps[1..], n, v);
      assert ([ps[0]] + SetParam(ps[1..], n, v))[1..] == SetParam(ps[1..], n, v);
    }
  }

  lemma SyncIdempotent(ps: Params, searchQuery: string)
    ensures SyncQuery(SyncQuery(ps, searchQuery), searchQuery) == SyncQuery(ps, searchQuery)
  {
    if searchQuery != "" {
      SetParamIdempotent(ps, "q", searchQuery);
    } else {
      var d := DeleteParam(ps, "q");
      FilterAll(d, NotNamed("q"));
    }
  }

  // ---------------------------------------------------------------------------
  // The results summary
  // ---------------------------------------------------------------------------

  /** `project{totalCount === 1 ? '' : 's'}`. */
  function ProjectNoun(totalCount: nat): string {
    "project" + (if totalCount == 1 then "" else "s")
  }

  lemma ProjectNounSingular(totalCount: nat)
    ensures ProjectNoun(totalCount) == "project" <==> totalCount == 1
    ensures ProjectNoun(totalCount) == "project" || ProjectNoun(totalCount) == "projects"
  {
    if totalCount != 1 {
      assert |ProjectNoun(totalCount)| == 8;
    }
  }

  /** `Showing {totalCount} project(s)`, followed by ` for "<query>"` when the query is non-empty. */
  function ResultsSummary(totalCount: nat, searchQuery: string): string {
    "Showing " + NatToString(totalCount) + " " + ProjectNoun(totalCount)
    + (if searchQuery != "" then " for \"" + searchQuery + "\"" else "")
  }

  /** The summary determines the count it reports. */
  lemma SummaryDeterminesCount(a: nat, b: nat, qa: string, qb: string)
    requires ResultsSummary(a, qa) == ResultsSummary(b, qb)
    ensures a == b
  {
    var da, db := NatToString(a), NatToString(b);
    var sa, sb := ResultsSummary(a, qa), ResultsSummary(b, qb);
    assert sa[8..8 + |da|] == da;
    assert sb[8..8 + |db|] == db;
    assert sa[8 + |da|] == ' ';
    assert sb[8 + |db|] == ' ';
    NatToStringInjective(a, b);
  }

  // ---------------------------------------------------------------------------
  // What the page shows
  // ---------------------------------------------------------------------------

  function Shows(catalog: seq<Project>, s: PageState): seq<Project> {
    Results(catalog, s.searchQuery, s.selectedFilters)
  }

  /** After "Clear all" only the text filter remains. */
  lemma ClearAllShowsTextMatches(catalog: seq<Project>, s: PageState)
    ensures Shows(catalog, ClearAllFilters(s)) == Filter(catalog, TextTest(s.searchQuery))
  {
    var r := InitialFilters();
    ResultsAsStages(catalog, s.searchQuery, r);
    var t := Filter(catalog, TextTest(s.searchQuery));
    forall p | p in t ensures FacetsTest(r)(p) {
      TotalActiveZeroIff(r);
    }
    FilterAll(t, FacetsTest(r));
  }

  /** Opening the page without a non-blank `q` shows the whole catalog in stored order. */
  lemma InitialShowsCatalog(catalog: seq<Project>, params: Params)
    requires IsBlank(InitialQuery(params))
    ensures Shows(catalog, Initial(params)) == catalog
  {
    TotalActiveZeroIff(InitialFilters());
    NoConstraintShowsAll(catalog, InitialQuery(params), InitialFilters());
  }

  /** Two selections for one facet that every catalog record treats alike show the same records. */
  lemma ResultsAssignAgree(catalog: seq<Project>, searchQuery: string, r: Record, id: string, a: seq<string>, b: seq<string>)
    requires DistinctKeys(r)
    requires forall p :: p in catalog ==> FacetAccepts(Entry(id, a), p) == FacetAccepts(Entry(id, b), p)
    ensures Results(catalog, searchQuery, Assign(r, id, a)) == Results(catalog, searchQuery, Assign(r, id, b))
  {
    AssignMembers(r, id, a);
    AssignMembers(r, id, b);
    var ra, rb := Assign(r, id, a), Assign(r, id, b);
    forall p | p in catalog ensures PassesFacets(p, ra) == PassesFacets(p, rb) {
      if PassesFacets(p, ra) {
        assert Entry(id, a) in ra;
        forall e | e in rb ensures FacetAccepts(e, p) {
          if e != Entry(id, b) {
            assert e in ra;
          }
        }
      }
      if PassesFacets(p, rb) {
        assert Entry(id, b) in rb;
        forall e | e in ra ensures FacetAccepts(e, p) {
          if e != Entry(id, a) {
            assert e in rb;
          }
        }
      }
    }
    FilterExt(catalog, ShownTest(searchQuery, ra), ShownTest(searchQuery, rb));
  }

  /** Writing a facet's current selection back shows the same records. */
  lemma AssignCurrentShowsSame(catalog: seq<Project>, searchQuery: string, r: Record, id: string)
    requires DistinctKeys(r)
    ensures Results(catalog, searchQuery, Assign(r, id, SelectedFor(r, id))) == Results(catalog, searchQuery, r)
  {
    var v := SelectedFor(r, id);
    if HasKey(r, id) {
      AssignSame(r, id, v);
    } else {
      AssignAppends(r, id, v);
      InertEntryIgnored(catalog, searchQuery, r, [], Entry(id, v));
      assert r + [Entry(id, v)] + [] == r + [Entry(id, v)];
      assert r + [] == r;
    }
  }

  /** Lists with the same members are the same selection to every record. */
  lemma SameMembersSameTest(id: string, a: seq<string>, b: seq<string>, p: Project)
    requires forall x :: x in a <==> x in b
    ensures FacetAccepts(Entry(id, a), p) == FacetAccepts(Entry(id, b), p)
  {
    if |a| > 0 {
      assert a[0] in b;
    }
    if |b| > 0 {
      assert b[0] in a;
    }
  }

  /** On a duplicate-free facet, ticking and unticking the same box shows the same records as
      before, though the option may have moved to the end of the list. */
  lemma ToggleTwiceShowsSame(catalog: seq<Project>, s: PageState, groupId: string, optionId: string)
    requires DistinctKeys(s.selectedFilters)
    requires NoDup(SelectedFor(s.selectedFilters, groupId))
    ensures Shows(catalog, ToggleFacetOption(ToggleFacetOption(s, groupId, optionId), groupId, optionId)) == Shows(catalog, s)
  {
    var r := s.selectedFilters;
    var v := SelectedFor(r, groupId);
    var t1 := ToggleOption(v, optionId);
    var t2 := ToggleOption(t1, optionId);
    assert ToggleFacetOption(ToggleFacetOption(s, groupId, optionId), groupId, optionId).selectedFilters
        == Assign(Assign(r, groupId, t1), groupId, t2);
    AssignAssign(r, groupId, t1, t2);
    ToggleTwiceRestores(v, optionId);
    forall p | p in catalog ensures FacetAccepts(Entry(groupId, t2), p) == FacetAccepts(Entry(groupId, v), p) {
      SameMembersSameTest(groupId, t2, v, p);
    }
    ResultsAssignAgree(catalog, s.searchQuery, r, groupId, t2, v);
    AssignCurrentShowsSame(catalog, s.searchQuery, r, groupId);
  }

  /** On a generated catalog, "Select All" in a group shows the same records as leaving the group
      empty. */
  lemma SelectAllShowsSameAsNone(catalog: seq<Project>, s: PageState, k: nat)
    requires WellFormedCatalog(catalog) && DistinctKeys(s.selectedFilters) && k < 3
    requires |SelectedFor(s.selectedFilters, FilterGroups()[k].id)| != |FilterGroups()[k].options|
    ensures Shows(catalog, ToggleFacetAll(s, FilterGroups()[k]))
         == Shows(catalog, FilterChange(s, FilterGroups()[k].id, []))
  {
    var g := FilterGroups()[k];
    var all := ToggleAll(SelectedFor(s.selectedFilters, g.id), g.options);
    assert all == Vocabulary(g.id);
    forall p | p in catalog ensures FacetAccepts(Entry(g.id, all), p) == FacetAccepts(Entry(g.id, []), p) {
      var j :| 0 <= j < |catalog| && catalog[j] == p;
      assert Generated(catalog[j], j + 1);
      if g.id == "language" {
        assert p.languages[0] in p.languages;
      } else if g.id == "topic" {
        assert p.topics[0] in p.topics;
      }
    }
    ResultsAssignAgree(catalog, s.searchQuery, s.selectedFilters, g.id, all, []);
  }
}
