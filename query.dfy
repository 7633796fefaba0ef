/**
 * The query engine of `useProjects`: a free-text filter followed by one filter per facet that has
 * a non-empty selection. `Results` states what the engine shows; `Evaluate` is the engine as it
 * runs, step by step over the entries of the selections.
 */
module Query {
  import opened Options
  import opened Seqs
  import opened Text
  import opened Catalog
  import opened Selections

  /** The text test, for a query that is already lower-cased. */
  predicate MatchesText(p: Project, query: string) {
    || Includes(Lower(p.name), query)
    || Includes(Lower(p.description), query)
    || (exists t :: t in p.topics && Includes(Lower(t), query))
    || (exists l :: l in p.languages && Includes(Lower(l), query))
  }

  /** `values.some(v => selectedOptions.includes(v))`. */
  predicate AnySelected(values: seq<string>, selectedOptions: seq<string>) {
    exists v :: v in values && v in selectedOptions
  }

  predicate CampusSelected(p: Project, selectedOptions: seq<string>) {
    p.campus in selectedOptions
  }

  predicate LanguageSelected(p: Project, selectedOptions: seq<string>) {
    AnySelected(p.languages, selectedOptions)
  }

  predicate TopicSelected(p: Project, selectedOptions: seq<string>) {
    AnySelected(p.topics, selectedOptions)
  }

  /** The facet ids the engine knows; `switch` falls through to `default` for every other id. */
  predicate IsKnownFacet(id: string) {
    id == "campus" || id == "language" || id == "topic"
  }

  /** The test one entry imposes: none for an empty selection or an unknown facet id. */
  predicate FacetAccepts(e: Entry, p: Project) {
    if |e.selected| == 0 then true
    else if e.id == "campus" then CampusSelected(p, e.selected)
    else if e.id == "language" then LanguageSelected(p, e.selected)
    else if e.id == "topic" then TopicSelected(p, e.selected)
    else true
  }

  /** Facets are combined with AND. */
  predicate PassesFacets(p: Project, filters: Record) {
    forall e :: e in filters ==> FacetAccepts(e, p)
  }

  /** The text filter applies only when the trimmed query is non-empty, and then uses the
      lower-cased query as it is, untrimmed. */
  predicate PassesText(p: Project, searchQuery: string) {
    IsBlank(searchQuery) || MatchesText(p, Lower(searchQuery))
  }

  predicate Shown(p: Project, searchQuery: string, filters: Record) {
    PassesText(p, searchQuery) && PassesFacets(p, filters)
  }

  /** The tests as values, named once so that every use denotes the same predicate. */
  function TextTest(searchQuery: string): Project -> bool {
    p => PassesText(p, searchQuery)
  }

  function FacetTest(e: Entry): Project -> bool {
    p => FacetAccepts(e, p)
  }

  function FacetsTest(filters: Record): Project -> bool {
    p => PassesFacets(p, filters)
  }

  function ShownTest(searchQuery: string, filters: Record): Project -> bool {
    p => Shown(p, searchQuery, filters)
  }

  /** The projects the engine shows: the catalog records that pass every test, in catalog order. */
  function Results(catalog: seq<Project>, searchQuery: string, filters: Record): seq<Project> {
    Filter(catalog, ShownTest(searchQuery, filters))
  }

  /** The `forEach` body for one `[filterId, selectedOptions]` entry: narrows `result` by that
      entry's test, and leaves it alone for an empty selection or an unknown id. */
  method ApplyEntry(result: seq<Project>, entry: Entry) returns (narrowed: seq<Project>)
    ensures narrowed == Filter(result, FacetTest(entry))
  {
    var filterId, selectedOptions := entry.id, entry.selected;
    ghost var test := FacetTest(entry);
    narrowed := result;
    if |selectedOptions| > 0 && filterId == "campus" {
      narrowed := Filter(result, p => CampusSelected(p, selectedOptions));
      FilterExt(result, p => CampusSelected(p, selectedOptions), test);
    } else if |selectedOptions| > 0 && filterId == "language" {
      narrowed := Filter(result, p => LanguageSelected(p, selectedOptions));
      FilterExt(result, p => LanguageSelected(p, selectedOptions), test);
    } else if |selectedOptions| > 0 && filterId == "topic" {
      narrowed := Filter(result, p => TopicSelected(p, selectedOptions));
      FilterExt(result, p => TopicSelected(p, selectedOptions), test);
    } else {
      FilterAll(result, test);
    }
  }

  /** The text stage: when the trimmed query is non-empty, keep the records whose name,
      description, topics or languages include the lower-cased query. */
  method ApplyText(catalog: seq<Project>, searchQuery: string) returns (result: seq<Project>)
    ensures result == Filter(catalog, TextTest(searchQuery))
  {
    result := catalog;
    if Trim(searchQuery) != "" {
      var query := Lower(searchQuery);
      result := Filter(result, p => MatchesText(p, query));
      FilterExt(catalog, p => MatchesText(p, query), TextTest(searchQuery));
    } else {
      FilterAll(catalog, TextTest(searchQuery));
    }
  }

  /**
   * The body of the memoised computation in `useProjects`: copy the catalog, apply the text
   * filter, then walk the entries of `filters` in order, narrowing `result` for each known facet
   * with a non-empty selection. `totalCount` is the length of the list returned.
   */
  method Evaluate(catalog: seq<Project>, searchQuery: string, filters: Record)
    returns (projects: seq<Project>, totalCount: nat)
    ensures projects == Results(catalog, searchQuery, filters)
    ensures totalCount == |projects|
  {
    var result := ApplyText(catalog, searchQuery);
    ghost var afterText := result;
    FilterAll(afterText, FacetsTest(filters[..0]));
    var i := 0;
    while i < |filters|
      invariant 0 <= i <= |filters|
      invariant result == Filter(afterText, FacetsTest(filters[..i]))
    {
      result := ApplyEntry(result, filters[i]);
      PassesFacetsExtend(afterText, filters, i);
      i := i + 1;
    }
    WholePrefix(filters);
    projects := result;
    totalCount := |projects|;
    ResultsAsStages(catalog, searchQuery, filters);
  }

  lemma WholePrefix(filters: Record)
    ensures filters[..|filters|] == filters
  {
  }

  lemma PassesFacetsSnoc(p: Project, filters: Record, e: Entry)
    ensures PassesFacets(p, filters + [e]) == (PassesFacets(p, filters) && FacetAccepts(e, p))
  {
    assert forall x :: x in filters + [e] <==> x in filters || x == e;
  }

  /** One more entry of the walk is one more stable filter. */
  lemma PassesFacetsExtend(s: seq<Project>, filters: Record, i: nat)
    requires i < |filters|
    ensures Filter(Filter(s, FacetsTest(filters[..i])), FacetTest(filters[i]))
         == Filter(s, FacetsTest(filters[..i + 1]))
  {
    assert filters[..i + 1] == filters[..i] + [filters[i]];
    forall p | p in s
      ensures FacetsTest(filters[..i + 1])(p) == (FacetsTest(filters[..i])(p) && FacetTest(filters[i])(p))
    {
      PassesFacetsSnoc(p, filters[..i], filters[i]);
    }
    FilterFilter(s, FacetsTest(filters[..i]), FacetTest(filters[i]), FacetsTest(filters[..i + 1]));
  }

  /** The shown records are the text stage followed by the facet stage. */
  lemma ResultsAsStages(catalog: seq<Project>, searchQuery: string, filters: Record)
    ensures Results(catalog, searchQuery, filters)
         == Filter(Filter(catalog, TextTest(searchQuery)), FacetsTest(filters))
  {
    FilterFilter(catalog, TextTest(searchQuery), FacetsTest(filters), ShownTest(searchQuery, filters));
  }

  // ---------------------------------------------------------------------------
  // Properties of the shown list
  // ---------------------------------------------------------------------------

  /** A blank query and no non-empty selection show the whole catalog, in stored order. */
  lemma NoConstraintShowsAll(catalog: seq<Project>, searchQuery: string, filters: Record)
    requires IsBlank(searchQuery)
    requires forall e :: e in filters ==> e.selected == []
    ensures Results(catalog, searchQuery, filters) == catalog
  {
    FilterAll(catalog, ShownTest(searchQuery, filters));
  }

  /** The result is the catalog with records deleted: nothing is added, nothing reordered. */
  lemma ResultsSubseqOfCatalog(catalog: seq<Project>, searchQuery: string, filters: Record)
    ensures IsSubseq(Results(catalog, searchQuery, filters), catalog)
  {
    FilterIsSubseq(catalog, ShownTest(searchQuery, filters));
  }

  /** Adding an entry narrows the previous result by exactly that entry's test. */
  lemma AddEntry(catalog: seq<Project>, searchQuery: string, filters: Record, e: Entry)
    ensures Results(catalog, searchQuery, filters + [e])
         == Filter(Results(catalog, searchQuery, filters), FacetTest(e))
  {
    forall p | p in catalog
      ensures ShownTest(searchQuery, filters + [e])(p)
           == (ShownTest(searchQuery, filters)(p) && FacetTest(e)(p))
    {
      PassesFacetsSnoc(p, filters, e);
    }
    FilterFilter(catalog, ShownTest(searchQuery, filters), FacetTest(e), ShownTest(searchQuery, filters + [e]));
  }

  /** With a non-blank query and no selections, a record is shown exactly when the lower-cased,
      untrimmed query occurs in its lower-cased name, description, some topic or some language. */
  lemma TextFilterExact(catalog: seq<Project>, searchQuery: string, p: Project)
    requires !IsBlank(searchQuery)
    ensures p in Results(catalog, searchQuery, []) <==> p in catalog && MatchesText(p, Lower(searchQuery))
  {
  }

  /** A non-empty campus selection keeps exactly the records whose campus is selected. */
  lemma CampusFacetExact(catalog: seq<Project>, searchQuery: string, filters: Record, opts: seq<string>)
    requires |opts| > 0
    ensures Results(catalog, searchQuery, filters + [Entry("campus", opts)])
         == Filter(Results(catalog, searchQuery, filters), (p: Project) => p.campus in opts)
  {
    AddEntry(catalog, searchQuery, filters, Entry("campus", opts));
    FilterExt(Results(catalog, searchQuery, filters), FacetTest(Entry("campus", opts)),
              (p: Project) => p.campus in opts);
  }

  /** A non-empty language selection keeps exactly the records with at least one selected language. */
  lemma LanguageFacetExact(catalog: seq<Project>, searchQuery: string, filters: Record, opts: seq<string>)
    requires |opts| > 0
    ensures Results(catalog, searchQuery, filters + [Entry("language", opts)])
         == Filter(Results(catalog, searchQuery, filters), (p: Project) => exists l :: l in p.languages && l in opts)
  {
    AddEntry(catalog, searchQuery, filters, Entry("language", opts));
    FilterExt(Results(catalog, searchQuery, filters), FacetTest(Entry("language", opts)),
              (p: Project) => exists l :: l in p.languages && l in opts);
  }

  /** A non-empty topic selection keeps exactly the records with at least one selected topic. */
  lemma TopicFacetExact(catalog: seq<Project>, searchQuery: string, filters: Record, opts: seq<string>)
    requires |opts| > 0
    ensures Results(catalog, searchQuery, filters + [Entry("topic", opts)])
         == Filter(Results(catalog, searchQuery, filters), (p: Project) => exists t :: t in p.topics && t in opts)
  {
    AddEntry(catalog, searchQuery, filters, Entry("topic", opts));
    FilterExt(Results(catalog, searchQuery, filters), FacetTest(Entry("topic", opts)),
              (p: Project) => exists t :: t in p.topics && t in opts);
  }

  /** An entry with an empty selection, or with a facet id the engine does not know, changes
      nothing, wherever it stands. */
  lemma InertEntryIgnored(catalog: seq<Project>, searchQuery: string, front: Record, back: Record, e: Entry)
    requires |e.selected| == 0 || !IsKnownFacet(e.id)
    ensures Results(catalog, searchQuery, front + [e] + back) == Results(catalog, searchQuery, front + back)
  {
    assert forall x :: x in front + [e] + back <==> x in front + back || x == e;
    FilterExt(catalog, ShownTest(searchQuery, front + [e] + back), ShownTest(searchQuery, front + back));
  }

  /** The result depends only on which entries there are, not on their order, so the iteration
      order of `Object.entries` does not matter. */
  lemma OrderIndependent(catalog: seq<Project>, searchQuery: string, f1: Record, f2: Record)
    requires forall e :: e in f1 <==> e in f2
    ensures Results(catalog, searchQuery, f1) == Results(catalog, searchQuery, f2)
  {
    FilterExt(catalog, ShownTest(searchQuery, f1), ShownTest(searchQuery, f2));
  }

  /** Two facet filters applied in either order give the same list. */
  lemma FacetFiltersCommute(s: seq<Project>, a: Entry, b: Entry)
    ensures Filter(Filter(s, FacetTest(a)), FacetTest(b)) == Filter(Filter(s, FacetTest(b)), FacetTest(a))
  {
    FilterFilter(s, FacetTest(a), FacetTest(b), FacetsTest([a, b]));
    FilterFilter(s, FacetTest(b), FacetTest(a), FacetsTest([a, b]));
  }

  /** Adding an option to an already non-empty selection never removes a record: the old result
      is a subsequence of the new one. */
  lemma AddOptionWidens(catalog: seq<Project>, searchQuery: string, filters: Record, k: nat, o: string)
    requires k < |filters| && |filters[k].selected| > 0
    ensures IsSubseq(Results(catalog, searchQuery, filters),
                     Results(catalog, searchQuery, filters[k := Entry(filters[k].id, filters[k].selected + [o])]))
  {
    var wider := filters[k := Entry(filters[k].id, filters[k].selected + [o])];
    forall p | p in catalog && Shown(p, searchQuery, filters) ensures Shown(p, searchQuery, wider) {
      forall e | e in wider ensures FacetAccepts(e, p) {
        var j :| 0 <= j < |wider| && wider[j] == e;
        assert filters[j] in filters;
      }
    }
    FilterMonotone(catalog, ShownTest(searchQuery, filters), ShownTest(searchQuery, wider));
  }

  /** Going from an empty selection to a non-empty one never adds a record: the new result is a
      subsequence of the old one. */
  lemma FirstOptionNarrows(catalog: seq<Project>, searchQuery: string, filters: Record, k: nat, opts: seq<string>)
    requires k < |filters| && filters[k].selected == []
    ensures IsSubseq(Results(catalog, searchQuery, filters[k := Entry(filters[k].id, opts)]),
                     Results(catalog, searchQuery, filters))
  {
    var narrower := filters[k := Entry(filters[k].id, opts)];
    forall p | p in catalog && Shown(p, searchQuery, narrower) ensures Shown(p, searchQuery, filters) {
      forall e | e in filters ensures FacetAccepts(e, p) {
        var j :| 0 <= j < |filters| && filters[j] == e;
        if j != k {
          assert narrower[j] in narrower;
        }
      }
    }
    FilterMonotone(catalog, ShownTest(searchQuery, narrower), ShownTest(searchQuery, filters));
  }

  /** Matching is case-insensitive: a query and its lower-cased form show the same records. */
  lemma CaseInsensitive(catalog: seq<Project>, searchQuery: string, filters: Record)
    ensures Results(catalog, Lower(searchQuery), filters) == Results(catalog, searchQuery, filters)
  {
    LowerKeepsBlank(searchQuery);
    LowerIdempotent(searchQuery);
    FilterExt(catalog, ShownTest(Lower(searchQuery), filters), ShownTest(searchQuery, filters));
  }

  /** The record used to show that the query is matched untrimmed. */
  function RoboticsRecord(): Project {
    Project(1, "P", "D", "UC Davis", "Physics", ["C"], ["Robotics"], 0, 0, "", "", None, None, None)
  }

  lemma QueriesNotBlank()
    ensures !IsBlank("robotics") && !IsBlank(" robotics")
  {
    TrimEmptyIff("robotics");
    assert "robotics"[0] in "robotics";
    TrimEmptyIff(" robotics");
    assert " robotics"[1] in " robotics";
  }

  lemma RoboticsTopicIncludes()
    ensures Includes(Lower("Robotics"), "robotics")
  {
    assert Lower("Robotics") == "robotics";
    assert IsPrefix("robotics", "robotics");
  }

  lemma RoboticsRecordMatches()
    ensures MatchesText(RoboticsRecord(), Lower("robotics"))
  {
    assert Lower("robotics") == "robotics";
    RoboticsTopicIncludes();
    assert "Robotics" in RoboticsRecord().topics;
  }

  lemma RoboticsRecordMissesSpaced()
    ensures !MatchesText(RoboticsRecord(), Lower(" robotics"))
  {
    var q := Lower(" robotics");
    assert |q| == 9;
    IncludesTooLong(Lower("P"), q);
    IncludesTooLong(Lower("D"), q);
    IncludesTooLong(Lower("C"), q);
    IncludesTooLong(Lower("Robotics"), q);
  }

  /** The query is trimmed only to decide whether to filter, not for matching: a leading space
      keeps " robotics" from matching a record whose topic is "Robotics", which "robotics" matches. */
  lemma UntrimmedQueryMatters()
    ensures Results([RoboticsRecord()], "robotics", []) == [RoboticsRecord()]
    ensures Results([RoboticsRecord()], " robotics", []) == []
  {
    QueriesNotBlank();
    RoboticsRecordMatches();
    RoboticsRecordMissesSpaced();
    assert ShownTest("robotics", [])(RoboticsRecord());
    assert !ShownTest(" robotics", [])(RoboticsRecord());
  }

  /** A selection that every record of the catalog passes shows the same as an empty selection. */
  lemma CoveringSelectionLikeNone(catalog: seq<Project>, searchQuery: string, filters: Record, k: nat)
    requires k < |filters|
    requires forall p :: p in catalog ==> FacetAccepts(filters[k], p)
    ensures Results(catalog, searchQuery, filters) == Results(catalog, searchQuery, filters[k := Entry(filters[k].id, [])])
  {
    var cleared := filters[k := Entry(filters[k].id, [])];
    forall p | p in catalog ensures PassesFacets(p, filters) == PassesFacets(p, cleared) {
      if PassesFacets(p, filters) {
        forall e | e in cleared ensures FacetAccepts(e, p) {
          var j :| 0 <= j < |cleared| && cleared[j] == e;
          assert filters[j] in filters;
        }
      }
      if PassesFacets(p, cleared) {
        forall e | e in filters ensures FacetAccepts(e, p) {
          var j :| 0 <= j < |filters| && filters[j] == e;
          assert cleared[j] in cleared;
        }
      }
    }
    FilterExt(catalog, ShownTest(searchQuery, filters), ShownTest(searchQuery, cleared));
  }

  /** The vocabulary a facet's options are drawn from. */
  function Vocabulary(facet: string): seq<string> {
    if facet == "campus" then Campuses
    else if facet == "language" then Languages
    else if facet == "topic" then Topics
    else []
  }

  /** On a generated catalog, selecting a facet's whole vocabulary shows the same as selecting nothing. */
  lemma SelectAllLikeNone(catalog: seq<Project>, searchQuery: string, filters: Record, k: nat)
    requires WellFormedCatalog(catalog)
    requires k < |filters| && IsKnownFacet(filters[k].id) && filters[k].selected == Vocabulary(filters[k].id)
    ensures Results(catalog, searchQuery, filters) == Results(catalog, searchQuery, filters[k := Entry(filters[k].id, [])])
  {
    forall p | p in catalog ensures FacetAccepts(filters[k], p) {
      var j :| 0 <= j < |catalog| && catalog[j] == p;
      assert Generated(catalog[j], j + 1);
      if filters[k].id == "language" {
        assert p.languages[0] in p.languages;
      } else if filters[k].id == "topic" {
        assert p.topics[0] in p.topics;
      }
    }
    CoveringSelectionLikeNone(catalog, searchQuery, filters, k);
  }
}
