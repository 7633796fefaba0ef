/**
 * The catalog store: the project record, the fixed vocabularies, the mock generator and the
 * lookup by id. Every random draw of the generator is an input (a `ProjectDraw` per record,
 * a permutation for each shuffle, an index for the licence).
 */
module Catalog {
  import opened Options
  import opened Seqs
  import opened Text

  datatype Contributor = Contributor(name: string, avatar: string)

  /** A project record; the last three fields are only filled by the detail lookup. */
  datatype Project = Project(
    id: int,
    name: string,
    description: string,
    campus: string,
    department: string,
    languages: seq<string>,
    topics: seq<string>,
    stars: int,
    forks: int,
    lastUpdated: string,
    url: string,
    readme: Option<string>,
    contributors: Option<seq<Contributor>>,
    license: Option<string>)

  const Campuses: seq<string> := [
    "UC Berkeley", "UC Davis", "UC Los Angeles", "UC San Diego", "UC Santa Barbara", "UC Santa Cruz"
  ]

  const Languages: seq<string> := [
    "JavaScript", "Python", "Java", "C++", "TypeScript",
    "Go", "Rust", "C#", "R", "Jupyter", "PHP", "Ruby",
    "Swift", "Kotlin", "Scala", "C"
  ]

  const Topics: seq<string> := [
    "Machine Learning", "Data Science", "Web Development",
    "Mobile Development", "Computer Vision", "Natural Language Processing",
    "IoT", "Robotics", "Bioinformatics", "Climate Science",
    "Education", "Health", "Security", "Database", "Visualization",
    "API", "Tools", "Libraries", "Frameworks", "Documentation"
  ]

  const Departments: seq<string> := [
    "Computer Science", "Electrical Engineering", "Bioengineering", "Environmental Science",
    "Information Science", "Physics", "Chemistry", "Biology", "Mathematics",
    "Medical School", "Earth Sciences", "Astronomy"
  ]

  const Licenses: seq<string> := ["MIT", "Apache-2.0", "GPL-3.0"]

  /** The vocabularies have the sizes the generator draws indices from, and no repeated entry. */
  lemma VocabulariesDistinct()
    ensures |Campuses| == 6 && |Languages| == 16 && |Topics| == 20 && |Departments| == 12
    ensures NoDup(Campuses) && NoDup(Languages) && NoDup(Topics) && NoDup(Departments)
  {
  }

  // ---------------------------------------------------------------------------
  // getRandomItems: a random count, a shuffled copy, a prefix of it
  // ---------------------------------------------------------------------------

  /** `order` lists every index below `n` exactly once. */
  predicate IsPermutation(order: seq<nat>, n: nat) {
    |order| == n && (forall i :: 0 <= i < n ==> order[i] < n) && NoDup(order)
  }

  /** The shuffled copy `[...array].sort(random comparator)`, its order given by `order`. */
  function Shuffle(items: seq<string>, order: seq<nat>): (r: seq<string>)
    requires IsPermutation(order, |items|)
    ensures |r| == |items|
    ensures forall i :: 0 <= i < |r| ==> r[i] == items[order[i]]
  {
    seq(|items|, i requires 0 <= i < |items| => items[order[i]])
  }

  /** `order` without its first index, the indices above `k` moved down by one. */
  function DropIndex(order: seq<nat>, k: nat): (o: seq<nat>)
    requires |order| > 0
    ensures |o| == |order| - 1
  {
    seq(|order| - 1, i requires 0 <= i < |order| - 1 => if order[i + 1] > k then order[i + 1] - 1 else order[i + 1])
  }

  /** Dropping the first index of a permutation of `n` leaves a permutation of `n - 1`. */
  lemma DropIndexPermutation(order: seq<nat>, n: nat)
    requires n > 0 && IsPermutation(order, n)
    ensures IsPermutation(DropIndex(order, order[0]), n - 1)
  {
    var k := order[0];
    var o := DropIndex(order, k);
    forall i | 0 <= i < n - 1 ensures o[i] < n - 1 {
      assert order[i + 1] != order[0];
    }
    forall i, j | 0 <= i < j < n - 1 ensures o[i] != o[j] {
      assert order[i + 1] != order[j + 1] && order[i + 1] != k && order[j + 1] != k;
    }
  }

  /** Shuffling the input without the first drawn element gives the rest of the shuffle. */
  lemma ShuffleDrop(items: seq<string>, order: seq<nat>)
    requires |items| > 0 && IsPermutation(order, |items|)
    ensures IsPermutation(DropIndex(order, order[0]), |items| - 1)
    ensures var k := order[0];
            Shuffle(items[..k] + items[k + 1..], DropIndex(order, k)) == Shuffle(items, order)[1..]
  {
    var k := order[0];
    var rest := items[..k] + items[k + 1..];
    var o := DropIndex(order, k);
    DropIndexPermutation(order, |items|);
    var r := Shuffle(items, order);
    forall i | 0 <= i < |items| - 1 ensures Shuffle(rest, o)[i] == r[1..][i] {
      assert order[i + 1] != k;
    }
  }

  /** The shuffled copy is a permutation of the input: every element occurs as often as before. */
  lemma {:induction false} ShufflePermutes(items: seq<string>, order: seq<nat>)
    requires IsPermutation(order, |items|)
    ensures multiset(Shuffle(items, order)) == multiset(items)
    decreases |items|
  {
    if items != [] {
      var k := order[0];
      var rest := items[..k] + items[k + 1..];
      ShuffleDrop(items, order);
      ShufflePermutes(rest, DropIndex(order, k));
      var r := Shuffle(items, order);
      calc {
        multiset(r);
        { assert r == [r[0]] + r[1..]; }
        multiset([items[k]]) + multiset(rest);
        { assert items == items[..k] + [items[k]] + items[k + 1..]; }
        multiset(items);
      }
    }
  }

  /** A shuffle holds exactly the input's elements, and is duplicate-free when the input is. */
  lemma ShuffleElements(items: seq<string>, order: seq<nat>)
    requires IsPermutation(order, |items|)
    ensures multiset(Shuffle(items, order)) == multiset(items)
    ensures NoDup(items) ==> NoDup(Shuffle(items, order))
    ensures forall x :: x in Shuffle(items, order) <==> x in items
  {
    var r := Shuffle(items, order);
    ShufflePermutes(items, order);
    if NoDup(items) {
      forall i, j | 0 <= i < j < |r| ensures r[i] != r[j] {
        assert order[i] != order[j];
      }
    }
    forall x ensures x in r <==> x in items {
      assert x in r <==> x in multiset(r);
      assert x in items <==> x in multiset(items);
    }
  }

  /**
   * `getRandomItems(items, min, max)`: `countDraw` stands for `Math.floor(Math.random() * (max - min + 1))`,
   * `order` for the outcome of the randomised sort.
   */
  function GetRandomItems(items: seq<string>, min: nat, max: nat, countDraw: nat, order: seq<nat>): (r: seq<string>)
    requires min <= max && countDraw <= max - min
    requires IsPermutation(order, |items|)
    ensures |r| == if countDraw + min <= |items| then countDraw + min else |items|
    ensures min <= |items| ==> min <= |r| <= max
    ensures forall x :: x in r ==> x in items
    ensures NoDup(items) ==> NoDup(r)
  {
    var count := countDraw + min;
    var shuffled := Shuffle(items, order);
    ShuffleElements(items, order);
    if count <= |shuffled| then
      assert forall x :: x in shuffled[..count] ==> x in shuffled;
      assert NoDup(shuffled) ==> NoDup(shuffled[..count]);
      shuffled[..count]
    else
      shuffled
  }

  // ---------------------------------------------------------------------------
  // generateProjects
  // ---------------------------------------------------------------------------

  /** The random draws made for one generated record, in the order the loop body makes them. */
  datatype ProjectDraw = ProjectDraw(
    campusIndex: nat,
    languageCount: nat,
    languageOrder: seq<nat>,
    topicCount: nat,
    topicOrder: seq<nat>,
    departmentIndex: nat,
    stars: nat,
    forks: nat,
    lastUpdated: string)

  /** Each draw lies in the range `Math.floor(Math.random() * k)` can produce. */
  predicate ValidDraw(d: ProjectDraw) {
    && d.campusIndex < |Campuses|
    && d.languageCount < 4 && IsPermutation(d.languageOrder, |Languages|)
    && d.topicCount < 6 && IsPermutation(d.topicOrder, |Topics|)
    && d.departmentIndex < |Departments|
    && d.stars < 1000
    && d.forks < 200
  }

  function ProjectName(i: int): string {
    "Project " + IntToString(i)
  }

  function ProjectUrl(i: int): string {
    "https://github.com/uc-" + IntToString(i)
  }

  /** What the loop body builds for index `i` from the draws `d`. */
  ghost predicate DrawnFrom(p: Project, i: int, d: ProjectDraw)
    requires ValidDraw(d)
  {
    var topics := GetRandomItems(Topics, 1, 6, d.topicCount, d.topicOrder);
    && p.languages == GetRandomItems(Languages, 1, 4, d.languageCount, d.languageOrder)
    && p.topics == topics
    && p.campus == Campuses[d.campusIndex]
    && p.department == Departments[d.departmentIndex]
    && p.description == "This is a description for Project " + IntToString(i) + ". It's a "
                        + topics[0] + " project developed at " + Campuses[d.campusIndex] + "."
    && p.stars == d.stars && p.forks == d.forks && p.lastUpdated == d.lastUpdated
  }

  /** The shape of the `i`-th generated record (numbered from 1), whatever the draws were. */
  ghost predicate Generated(p: Project, i: int) {
    && p.id == i
    && p.name == ProjectName(i)
    && p.url == ProjectUrl(i)
    && p.campus in Campuses
    && p.department in Departments
    && 1 <= |p.languages| <= 4 && NoDup(p.languages) && (forall l :: l in p.languages ==> l in Languages)
    && 1 <= |p.topics| <= 6 && NoDup(p.topics) && (forall t :: t in p.topics ==> t in Topics)
    && 0 <= p.stars < 1000 && 0 <= p.forks < 200
    && p.readme.None? && p.contributors.None? && p.license.None?
  }

  /** A catalog as `generateProjects` produces it: record `k` is the `(k+1)`-th generated record. */
  ghost predicate WellFormedCatalog(catalog: seq<Project>) {
    forall k :: 0 <= k < |catalog| ==> Generated(catalog[k], k + 1)
  }

  /** `generateProjects(count)`, with `draws[i - 1]` supplying the random draws of iteration `i`. */
  method GenerateProjects(count: int, draws: seq<ProjectDraw>) returns (projects: seq<Project>)
    requires |draws| == if count > 0 then count else 0
    requires forall k :: 0 <= k < |draws| ==> ValidDraw(draws[k])
    ensures |projects| == |draws|
    ensures forall k :: 0 <= k < |projects| ==> DrawnFrom(projects[k], k + 1, draws[k])
    ensures WellFormedCatalog(projects)
  {
    VocabulariesDistinct();
    projects := [];
    var i := 1;
    while i <= count
      invariant 1 <= i <= |draws| + 1
      invariant |projects| == i - 1
      invariant forall k :: 0 <= k < |projects| ==> DrawnFrom(projects[k], k + 1, draws[k])
      invariant WellFormedCatalog(projects)
    {
      var d := draws[i - 1];
      var campus := Campuses[d.campusIndex];
      var projectLanguages := GetRandomItems(Languages, 1, 4, d.languageCount, d.languageOrder);
      var projectTopics := GetRandomItems(Topics, 1, 6, d.topicCount, d.topicOrder);
      var department := Departments[d.departmentIndex];
      var p := Project(
        i,
        ProjectName(i),
        "This is a description for Project " + IntToString(i) + ". It's a " + projectTopics[0]
          + " project developed at " + campus + ".",
        campus,
        department,
        projectLanguages,
        projectTopics,
        d.stars,
        d.forks,
        d.lastUpdated,
        ProjectUrl(i),
        None, None, None);
      assert Generated(p, i);
      projects := projects + [p];
      i := i + 1;
    }
  }

  /** Generated ids are 1..n in order, hence unique. */
  lemma GeneratedIdsUnique(catalog: seq<Project>)
    requires WellFormedCatalog(catalog)
    ensures forall j, k :: 0 <= j < k < |catalog| ==> catalog[j].id != catalog[k].id
    ensures forall k :: 0 <= k < |catalog| ==> catalog[k].id == k + 1
  {
    forall j, k | 0 <= j < k < |catalog| ensures catalog[j].id != catalog[k].id {
      assert Generated(catalog[j], j + 1) && Generated(catalog[k], k + 1);
    }
    forall k | 0 <= k < |catalog| ensures catalog[k].id == k + 1 {
      assert Generated(catalog[k], k + 1);
    }
  }

  /** Generated names are pairwise distinct, because distinct numbers render differently. */
  lemma GeneratedNamesUnique(catalog: seq<Project>)
    requires WellFormedCatalog(catalog)
    ensures forall j, k :: 0 <= j < k < |catalog| ==> catalog[j].name != catalog[k].name
  {
    forall j, k | 0 <= j < k < |catalog| ensures catalog[j].name != catalog[k].name {
      assert Generated(catalog[j], j + 1) && Generated(catalog[k], k + 1);
      NatToStringInjective(j + 1, k + 1);
      assert ProjectName(j + 1)[8..] == NatToString(j + 1);
      assert ProjectName(k + 1)[8..] == NatToString(k + 1);
    }
  }

  // ---------------------------------------------------------------------------
  // getProjectById
  // ---------------------------------------------------------------------------

  /** `catalog.find(p => p.id === id)`, as the index of the first match. */
  function FindIndex(catalog: seq<Project>, id: int): (r: Option<nat>)
    ensures r.None? <==> forall k :: 0 <= k < |catalog| ==> catalog[k].id != id
    ensures r.Some? ==> r.value < |catalog| && catalog[r.value].id == id
    ensures r.Some? ==> forall k :: 0 <= k < r.value ==> catalog[k].id != id
  {
    if catalog == [] then None
    else if catalog[0].id == id then Some(0)
    else match FindIndex(catalog[1..], id)
      case None => None
      case Some(k) => Some(k + 1)
  }

  /** `s.replace(/\s/g, '-')`. */
  function DashWhitespace(s: string): (r: string)
    ensures |r| == |s|
    ensures forall i :: 0 <= i < |s| ==> IsWhitespace(s[i]) ==> r[i] == '-'
    ensures forall i :: 0 <= i < |s| ==> !IsWhitespace(s[i]) ==> r[i] == s[i]
    ensures forall i :: 0 <= i < |s| ==> !IsWhitespace(r[i])
  {
    seq(|s|, i requires 0 <= i < |s| => if IsWhitespace(s[i]) then '-' else s[i])
  }

  /** The package slug used in the readme: lower-cased name with whitespace turned into dashes. */
  function Slug(name: string): string {
    DashWhitespace(Lower(name))
  }

  /** The readme text: a heading with the name, then the sections built from the record. */
  function Readme(p: Project): (r: string)
    ensures IsPrefix("# " + p.name, r)
  {
    var heading := "# " + p.name;
    PrefixOfConcat(heading, ReadmeSections(p));
    heading + ReadmeSections(p)
  }

  lemma PrefixOfConcat(a: string, b: string)
    ensures IsPrefix(a, a + b)
  {
  }

  /** The overview, features, installation, usage and contributing sections of the readme. */
  function ReadmeSections(p: Project): string {
    var slug := Slug(p.name);
    "\n\n## Overview\nThis is a detailed readme for " + p.name
    + ". This project is developed at " + p.campus + " by the " + p.department
    + " department.\n\n## Features\n- Feature 1\n- Feature 2\n- Feature 3\n\n## Installation\n```bash\nnpm install "
    + slug + "\n```\n\n## Usage\n```javascript\nimport { exampleFunction } from '" + slug
    + "';\n\nexampleFunction();\n```\n\n## Contributing\nContributions are welcome!"
  }

  /** `Array(5).fill(0).map(...)`: five contributors numbered from 1. */
  function Contributors(id: int): (cs: seq<Contributor>)
    ensures |cs| == 5
    ensures forall i :: 0 <= i < 5 ==> cs[i].name == "Contributor " + NatToString(i + 1)
  {
    seq(5, i requires 0 <= i < 5 =>
      Contributor("Contributor " + NatToString(i + 1),
                  "https://i.pravatar.cc/150?u=" + IntToString(id) + "-" + NatToString(i + 1)))
  }

  /** Two records agree on every field a catalog record carries before the detail lookup. */
  predicate SameBase(p: Project, q: Project) {
    p.(readme := None, contributors := None, license := None)
      == q.(readme := None, contributors := None, license := None)
  }

  /**
   * `getProjectById(id)` over `catalog`; `licenseDraw` stands for
   * `Math.floor(Math.random() * 3)`.
   */
  function GetProjectById(catalog: seq<Project>, id: int, licenseDraw: nat): (r: Option<Project>)
    requires licenseDraw < 3
    ensures r.None? <==> forall p :: p in catalog ==> p.id != id
    ensures r.Some? ==> exists k :: 0 <= k < |catalog| && catalog[k].id == id
                          && (forall j :: 0 <= j < k ==> catalog[j].id != id)
                          && SameBase(r.value, catalog[k])
    ensures r.Some? ==> r.value.id == id
    ensures r.Some? ==> r.value.contributors.Some? && |r.value.contributors.value| == 5
    ensures r.Some? ==> forall i :: 0 <= i < |r.value.contributors.value| ==>
                          r.value.contributors.value[i].name == "Contributor " + NatToString(i + 1)
    ensures r.Some? ==> r.value.license.Some? && r.value.license.value in Licenses
    ensures r.Some? ==> r.value.readme == Some(Readme(r.value))
  {
    match FindIndex(catalog, id)
    case None => None
    case Some(k) =>
      var p := catalog[k];
      Some(p.(readme := Some(Readme(p)), contributors := Some(Contributors(p.id)),
              license := Some(Licenses[licenseDraw])))
  }

  /** In a generated catalog, id `i` is found exactly when `1 <= i <= n`, at position `i - 1`. */
  lemma LookupGenerated(catalog: seq<Project>, id: int, licenseDraw: nat)
    requires WellFormedCatalog(catalog) && licenseDraw < 3
    ensures GetProjectById(catalog, id, licenseDraw).Some? <==> 1 <= id <= |catalog|
    ensures 1 <= id <= |catalog| ==> SameBase(GetProjectById(catalog, id, licenseDraw).value, catalog[id - 1])
  {
    GeneratedIdsUnique(catalog);
    var r := GetProjectById(catalog, id, licenseDraw);
    if 1 <= id <= |catalog| {
      assert catalog[id - 1] in catalog;
      var k :| 0 <= k < |catalog| && catalog[k].id == id && SameBase(r.value, catalog[k]);
      assert k == id - 1;
    } else {
      assert forall p :: p in catalog ==> p.id != id;
    }
  }
}
