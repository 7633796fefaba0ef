# UC open-source project browser — query engine and filter state in Dafny

This project models the logic core of the UC project browser, a React application. A user browses a catalog of mock
open-source projects from the University of California campuses. The user narrows the catalog with a
free-text query and with multi-select facets for campus, programming language and topic. The
model covers four parts:

- **Catalog store** (`catalog.dfy`): the `Project` record (the datatype `Catalog.Project`, modelling `interface Project` at src/lib/data.ts:2-17, with the optional `readme`, `contributors` and `license` as `Option`s), the campus, language, topic and department vocabularies,
  the mock generator `generateProjects` and its helper `getRandomItems`, and the detail lookup
  `getProjectById`. Every random draw is an explicit input:
  - a `ProjectDraw` per generated record;
  - a permutation for each randomised sort;
  - an index for the licence.
- **Query engine** (`query.dfy`): the memoised filter of `useProjects`, which runs a text stage first and then one stable
  filter per facet entry. `Results` states declaratively what is shown. `Evaluate` is the engine itself: a
  loop over the entries of the selection record, proved equal to `Results`. The lemmas state the
  engine's promises:
  - a blank query with no selections shows the whole catalog;
  - the result is a subsequence of the catalog;
  - each facet's test is exact;
  - inert and unknown facets are ignored;
  - the result does not depend on entry order;
  - facet filters commute;
  - adding options widens and a first option narrows;
  - the stage that lower-cases the query compares case-insensitively.
- **Selection state** (`selections.dfy`, `filter_panel.dfy`, `browse.dfy`):
  - the `Record<string, string[]>` of selections, with the copy-on-write updates made by the browse page and the filter panel;
  - toggling one option, select-all / deselect-all, replacing a facet, clearing all, and removing a chip;
  - the active-filter count, the chips, and the filter groups;
  - the sync of the `q` URL parameter and the results summary line.
- **String built-ins** (`text.dfy`, `seqs.dfy`): `toLowerCase`, `includes`, `trim`, the decimal rendering of numbers, and
  `Array.prototype.filter`.

A selection record is a sequence of entries with distinct keys, not a map. The page only ever
stores the facet ids `campus`, `language` and `topic` in it. For such keys a JavaScript object
keeps insertion order, and `Object.entries` / `Object.values` follow that order.
`{...prev, [id]: v}` keeps an existing key in place and appends a new one at the end.

Facts about the code that a reader might not expect:

- **Widening.** The options within one facet are combined with OR. Adding an option to a
  non-empty selection can only widen the result (`Query.AddOptionWidens`). Only the first option
  of a facet narrows it (`Query.FirstOptionNarrows`).
- **Select all versus clear.** "Select all" and an empty selection show the same records
  whenever every record passes the full selection (`Query.CoveringSelectionLikeNone`). That holds
  on a catalog whose records each have a campus, at least one language and at least one topic, all
  from the vocabularies, such as a generated catalog (`Query.SelectAllLikeNone`). A record with no
  language or no topic fails the full selection of that facet.
- **Option counts.** The filter groups the browse page builds carry no per-option counts.
- **Malformed records.** One `try`/`catch` around the whole computation returns an empty list
  when anything throws. A single malformed record is not skipped on its own.

## Model

| member | source | states |
|---|---|---|
| Text.Lower | src/lib/hooks/useProjects.ts:38 | `toLowerCase` keeps the length and maps each character by the ASCII letter mapping |
| Text.Includes | src/lib/hooks/useProjects.ts:41-44 | `hay.includes(needle)` as a left-to-right scan; `Text.IncludesIff` gives its meaning: some index where the needle occurs |
| Text.IncludesIff | src/lib/hooks/useProjects.ts:41-44 | the `includes` scan succeeds exactly when the needle occurs at some index of the haystack |
| Text.IncludesTooLong | src/lib/hooks/useProjects.ts:41-44 | a needle longer than the haystack is never included |
| Text.Trim | src/lib/hooks/useProjects.ts:37 | `trim()` as trailing removal after leading removal; `Text.TrimEmptyIff` gives its meaning for the truthiness test |
| Text.TrimEmptyIff | src/lib/hooks/useProjects.ts:37 | `trim()` gives the empty string exactly when every character is JavaScript whitespace |
| Text.LowerKeepsBlank | src/lib/hooks/useProjects.ts:37-38 | lower-casing never makes a blank query non-blank or the reverse |
| Text.NatToString | src/lib/data.ts:88-97 | `${i}` for a non-negative number: at least one decimal digit, no leading zero; `Text.NatToStringRoundTrip` and `Text.NatToStringInjective` give its meaning |
| Text.IntToString | src/lib/data.ts:88-89 | `${n}` for any integer: a minus sign before the digits of a negative number; the generator and the contributors only render non-negative ids, where it is `Text.NatToString` |
| Text.NatToStringRoundTrip | src/lib/data.ts:88 | reading the decimal rendering of a number back gives the number |
| Text.NatToStringInjective | src/lib/data.ts:88 | distinct numbers render as distinct strings in template literals |
| Seqs.Filter | src/lib/hooks/useProjects.ts:39-45 | `Array.prototype.filter`, also at useProjects.ts:53-63, FilterPanel.tsx:29 and Browse.tsx:200: at most as long as the input, holding exactly the input elements that pass; `Seqs.FilterIsSubseq` and `Seqs.FilterMultiset` add that order and multiplicities are kept |
| Catalog.VocabulariesDistinct | src/lib/data.ts:20-59 | there are 6 campuses, 16 languages, 20 topics and 12 departments, with no vocabulary repeating an entry |
| Catalog.Shuffle | src/lib/data.ts:72 | the shuffled copy has the same length and holds `items[order[i]]` at position `i`, for a permutation `order`; `Catalog.ShufflePermutes` proves it a permutation of the input |
| Catalog.ShufflePermutes | src/lib/data.ts:72 | the shuffled copy has the same multiset of elements as the input, as a sort does |
| Catalog.ShuffleElements | src/lib/data.ts:72 | the shuffled copy has exactly the input's elements, with the same multiplicities, and is duplicate-free when the input is |
| Catalog.GetRandomItems | src/lib/data.ts:70-74 | the result has `min + draw` elements, capped at the input length, and so between `min` and `max` when `min` does not exceed the input length; its elements come from the input; it is duplicate-free when the input is |
| Catalog.GenerateProjects | src/lib/data.ts:77-102 | record `k` is built from draw `k` with id `k + 1`, name `Project k+1`, url `https://github.com/uc-k+1`, a campus and department from the vocabularies, 1..4 distinct languages and 1..6 distinct topics |
| Catalog.GeneratedIdsUnique | src/lib/data.ts:80-87 | generated ids are 1..n in order, hence pairwise distinct |
| Catalog.GeneratedNamesUnique | src/lib/data.ts:88 | generated names are pairwise distinct |
| Catalog.FindIndex | src/lib/data.ts:109 | `find` returns the first record with the id, or nothing when no record has it |
| Catalog.DashWhitespace | src/lib/data.ts:115 | `replace(/\s/g, '-')` keeps the length, turns every whitespace character into `-`, keeps every other character, and so leaves no whitespace |
| Catalog.Slug | src/lib/data.ts:115 | `name.toLowerCase().replace(/\s/g, '-')`; `Text.Lower` and `Catalog.DashWhitespace` give its meaning |
| Catalog.Contributors | src/lib/data.ts:116-119 | exactly five contributors, named `Contributor 1` to `Contributor 5` in order |
| Catalog.Readme | src/lib/data.ts:115 | the readme starts with the heading `# ` followed by the project name |
| Catalog.GetProjectById | src/lib/data.ts:108-125 | undefined exactly when no record has the id; otherwise the first such record on every base field, with the same id, 5 numbered contributors, a licence among MIT / Apache-2.0 / GPL-3.0 and the readme built from that record |
| Catalog.LookupGenerated | src/lib/data.ts:105-111 | in a generated catalog of n records, id i is found exactly when 1 <= i <= n, and it is record i - 1 |
| Selections.Lookup | src/components/ui/FilterPanel.tsx:163 | for the facet ids the page stores, `r[id]` is undefined exactly when the key is absent, and otherwise it is the value stored under the key |
| Selections.Assign | src/pages/Browse.tsx:75-78 | `{...prev, [filterId]: opts}`; its meaning is given by `Selections.AssignLookup`, `Selections.AssignAppends` and `Selections.AssignReplaces` |
| Selections.AssignLookup | src/pages/Browse.tsx:74-79 | after `{...prev, [id]: opts}` the key holds `opts` and every other key reads as before |
| Selections.AssignAppends | src/pages/Browse.tsx:75-78 | a new facet id is appended at the end of the record |
| Selections.AssignReplaces | src/pages/Browse.tsx:75-78 | an existing key keeps its position and the other entries stay where they were |
| Selections.AssignDistinct | src/pages/Browse.tsx:75-78 | the record keeps distinct keys |
| Selections.AssignMembers | src/pages/Browse.tsx:75-78 | the entries afterwards are the other facets' entries plus the new one |
| Selections.AssignAssign | src/pages/Browse.tsx:74-79 | a second change of the same facet overrides the first |
| Selections.SelectedFor | src/components/ui/FilterPanel.tsx:163 | `r[id] \|\| []` is empty for an absent facet and is the stored list otherwise |
| Selections.TotalActive | src/pages/Browse.tsx:90-91 | the `reduce` over `Object.values` summing list lengths, also at FilterPanel.tsx:139-140; its meaning is given by `Selections.TotalActiveZeroIff` and `Selections.TotalActiveAssign` |
| Selections.TotalActiveZeroIff | src/pages/Browse.tsx:90-91 | the active-filter count is zero exactly when every selection is empty |
| Selections.TotalActiveAssign | src/pages/Browse.tsx:74-91 | replacing one facet changes the count by the difference of the two list lengths |
| Query.MatchesText | src/lib/hooks/useProjects.ts:40-44 | the `filter` callback of the text stage; `Query.TextFilterExact` and `Query.CaseInsensitive` give its meaning |
| Query.FacetAccepts | src/lib/hooks/useProjects.ts:50-66 | the length test and the `switch` of one `forEach` step; `Query.CampusFacetExact`, `Query.LanguageFacetExact`, `Query.TopicFacetExact` and `Query.InertEntryIgnored` give its meaning |
| Query.ApplyText | src/lib/hooks/useProjects.ts:36-46 | the text stage keeps exactly the records that pass the text test, in order |
| Query.ApplyEntry | src/lib/hooks/useProjects.ts:49-68 | the `forEach` body narrows by the entry's facet test, and leaves the list alone for an empty selection or an unknown id |
| Query.Evaluate | src/lib/hooks/useProjects.ts:32-82 | the engine returns exactly `Results`, and `totalCount` is the length of the returned list |
| Query.ResultsAsStages | src/lib/hooks/useProjects.ts:34-69 | the shown list is the text stage followed by the facet stage |
| Query.NoConstraintShowsAll | src/lib/hooks/useProjects.ts:34-50 | a blank query with every selection empty shows the whole catalog, in stored order |
| Query.ResultsSubseqOfCatalog | src/lib/hooks/useProjects.ts:34-69 | the result is a subsequence of the catalog: nothing is added or reordered |
| Query.AddEntry | src/lib/hooks/useProjects.ts:49-69 | one more entry narrows the previous result by exactly that entry's test |
| Query.TextFilterExact | src/lib/hooks/useProjects.ts:37-45 | with a non-blank query a record is shown exactly when the lower-cased, untrimmed query occurs in its lower-cased name, its description, some topic or some language |
| Query.CampusFacetExact | src/lib/hooks/useProjects.ts:52-54 | a non-empty campus selection keeps exactly the records whose campus is selected |
| Query.LanguageFacetExact | src/lib/hooks/useProjects.ts:55-59 | a non-empty language selection keeps exactly the records with some selected language |
| Query.TopicFacetExact | src/lib/hooks/useProjects.ts:60-64 | a non-empty topic selection keeps exactly the records with some selected topic |
| Query.InertEntryIgnored | src/lib/hooks/useProjects.ts:50-66 | an entry with an empty selection or an unknown facet id changes nothing, wherever it stands |
| Query.OrderIndependent | src/lib/hooks/useProjects.ts:49 | the result depends only on which entries there are, not on their order |
| Query.FacetFiltersCommute | src/lib/hooks/useProjects.ts:49-69 | two facet filters give the same list in either order |
| Query.AddOptionWidens | src/lib/hooks/useProjects.ts:50-63 | adding an option to a non-empty selection never removes a record |
| Query.FirstOptionNarrows | src/lib/hooks/useProjects.ts:50-63 | changing an empty selection to any selection never adds a record |
| Query.CaseInsensitive | src/lib/hooks/useProjects.ts:37-44 | a query and its lower-cased form show the same records |
| Query.UntrimmedQueryMatters | src/lib/hooks/useProjects.ts:37-38 | "robotics" finds a record whose topic is "Robotics", and " robotics", with a leading space, does not |
| Query.CoveringSelectionLikeNone | src/lib/hooks/useProjects.ts:50-63 | a selection that every catalog record passes shows the same as an empty one |
| Query.SelectAllLikeNone | src/lib/hooks/useProjects.ts:52-63 | on a generated catalog, selecting a facet's whole vocabulary shows the same as selecting nothing |
| FilterPanel.ToggleOption | src/components/ui/FilterPanel.tsx:27-33 | an absent id is appended at the end; a present id loses every occurrence while the others keep their order and multiplicity; membership flips for that id only |
| FilterPanel.IsChecked | src/components/ui/FilterPanel.tsx:88 | a checkbox is ticked when its option id is in the selection; `FilterPanel.ToggleFlipsOne` and `FilterPanel.SelectAllTicksEvery` state how it changes |
| FilterPanel.ToggleFlipsOne | src/components/ui/FilterPanel.tsx:88 | toggling flips the checkbox of the toggled option and of no other |
| FilterPanel.ToggleNoDup | src/components/ui/FilterPanel.tsx:27-31 | toggling keeps a list duplicate-free |
| FilterPanel.ToggleAbsentTwice | src/components/ui/FilterPanel.tsx:28-30 | toggling an absent id twice gives back the list exactly |
| FilterPanel.ToggleTwiceRestores | src/components/ui/FilterPanel.tsx:27-31 | on a duplicate-free list, toggling the same id twice gives back the same multiset |
| FilterPanel.OptionIds | src/components/ui/FilterPanel.tsx:39 | `options.map(o => o.id)` keeps the options' order |
| FilterPanel.ToggleAll | src/components/ui/FilterPanel.tsx:35-41 | a selection as long as the option list becomes empty; any other becomes every option id in option order |
| FilterPanel.ToggleAllCountsNotContents | src/components/ui/FilterPanel.tsx:36-37 | a selection of the right length that misses an option is still cleared |
| FilterPanel.ToggleAllTwice | src/components/ui/FilterPanel.tsx:35-41 | select-all followed by deselect-all clears the group |
| FilterPanel.SelectAllTicksEvery | src/components/ui/FilterPanel.tsx:65-88 | after select-all every checkbox of the group is ticked and the button reads "Deselect All" |
| FilterPanel.ToggleAllLabel | src/components/ui/FilterPanel.tsx:65-75 | the button reads either "Deselect All" or "Select All" |
| FilterPanel.LabelMatchesAction | src/components/ui/FilterPanel.tsx:36-75 | for a group with options, the button reads "Deselect All" exactly when pressing it clears the group |
| FilterPanel.ShowClearAll | src/components/ui/FilterPanel.tsx:146 | "Clear all" is shown when the active count is positive; `FilterPanel.ShowClearAllIff` gives its meaning |
| FilterPanel.ShowClearAllIff | src/components/ui/FilterPanel.tsx:139-146 | "Clear all" is offered exactly when some facet has a selected option |
| Browse.VocabularyOptions | src/pages/Browse.tsx:41-60 | one option per vocabulary entry, with `id == label ==` the entry, in vocabulary order |
| Browse.VocabularyOptionIds | src/pages/Browse.tsx:41-60 | the ids of a group's options are its vocabulary |
| Browse.FilterGroups | src/pages/Browse.tsx:37-62 | three groups, campus / language / topic, named "Campus", "Programming Language" and "Topic", whose options are their vocabularies |
| Browse.InitialFilters | src/pages/Browse.tsx:18-22 | the three facets, each empty, and no other key |
| Browse.Initial | src/pages/Browse.tsx:15-22 | the page starts with the `q` parameter as its query and no selection |
| Browse.Search | src/pages/Browse.tsx:70-72 | a search changes the query and nothing else |
| Browse.FilterChange | src/pages/Browse.tsx:74-79 | the facet takes the new list, while every other facet and the query are unchanged and the keys stay distinct |
| Browse.ClearAllFilters | src/pages/Browse.tsx:81-87 | campus, language and topic become empty, no other facet remains, the count is 0 and the query is unchanged |
| Browse.RemoveChip | src/pages/Browse.tsx:197-201 | the chip's option leaves its facet, the other options keep their order and multiplicity, and other facets and the query are unchanged |
| Browse.RemoveChipCount | src/pages/Browse.tsx:197-201 | removing a chip of a duplicate-free facet lowers the active count by one |
| Browse.ToggleFacetOption | src/components/ui/FilterPanel.tsx:158-165 | a checkbox writes the toggled list of its own group back and changes no other facet |
| Browse.ToggleFacetAll | src/components/ui/FilterPanel.tsx:158-165 | the select-all button writes its group's new list back and changes no other facet |
| Browse.TransitionsWellFormed | src/pages/Browse.tsx:15-201 | the initial state, a search, a checkbox toggle, select-all on a panel group, a chip removal and clear-all each keep facet keys distinct and no facet listing an option twice |
| Browse.WellFormedFacetNoDup | src/pages/Browse.tsx:189-201 | in such a state every facet reads as a duplicate-free list, which `Browse.RemoveChipCount` and `Browse.ToggleTwiceShowsSame` require |
| Browse.ActiveChips | src/pages/Browse.tsx:189-209 | one chip per selected option, so the number of chips is the active count, and a chip exists exactly for a selected option of a facet |
| Browse.GetParam | src/pages/Browse.tsx:15 | `get` is the value of the first pair with the name, and is absent when there is none |
| Browse.DeleteParam | src/pages/Browse.tsx:31 | `delete` removes every pair with the name and keeps the others in order |
| Browse.SetParam | src/pages/Browse.tsx:29 | after `set` exactly one pair has the name, with the value; the other pairs keep their order; without such a pair it is appended, otherwise it takes the place of the first one and the later ones go |
| Browse.SetParamInPlace | src/pages/Browse.tsx:29 | setting `q` in `q=a&b=1` gives `q=c&b=1`, not `b=1&q=c` |
| Browse.SyncQuery | src/pages/Browse.tsx:26-34 | `q` is set to a non-empty query and deleted for the empty one; other parameters are kept in order |
| Browse.InitialQuery | src/pages/Browse.tsx:15 | `get('q') \|\| ''` is the first `q` value, or empty |
| Browse.SyncRoundTrip | src/pages/Browse.tsx:15-33 | reading `q` back after the sync gives the query |
| Browse.SetParamIdempotent | src/pages/Browse.tsx:29 | setting the same value twice is setting it once |
| Browse.SyncIdempotent | src/pages/Browse.tsx:26-34 | re-running the sync with the same query changes nothing more |
| Browse.ProjectNoun | src/pages/Browse.tsx:225 | `project` with an `s` unless the count is 1; `Browse.ProjectNounSingular` gives its meaning |
| Browse.ProjectNounSingular | src/pages/Browse.tsx:225 | the label is "project" exactly when the count is 1, and "projects" otherwise |
| Browse.ResultsSummary | src/pages/Browse.tsx:224-227 | "Showing N project(s)", followed by the quoted query when it is non-empty; `Browse.SummaryDeterminesCount` states that the line determines N |
| Browse.SummaryDeterminesCount | src/pages/Browse.tsx:224-227 | two equal summary lines report the same count |
| Browse.Shows | src/pages/Browse.tsx:65-68 | the `useProjects({ searchQuery, filters: selectedFilters })` call: the page shows `Query.Results` of its state; `Browse.InitialShowsCatalog`, `Browse.ClearAllShowsTextMatches` and `Browse.ToggleTwiceShowsSame` give its meaning |
| Browse.ClearAllShowsTextMatches | src/pages/Browse.tsx:81-87 | after clear-all only the text filter remains |
| Browse.InitialShowsCatalog | src/pages/Browse.tsx:15-22 | opening the page without a non-blank `q` shows the whole catalog |
| Browse.ResultsAssignAgree | src/pages/Browse.tsx:74-79 | two lists for one facet that every record treats alike show the same records |
| Browse.ToggleTwiceShowsSame | src/components/ui/FilterPanel.tsx:27-33 | ticking and unticking the same box of a duplicate-free facet shows what was shown before |
| Browse.SelectAllShowsSameAsNone | src/components/ui/FilterPanel.tsx:35-41 | on a generated catalog, select-all in a group shows the same records as an empty group |

## Left out

- Selections.Assign / Selections.Lookup: keys that look like array indices (`"0"`, `"7"`) and names inherited from `Object.prototype` (`toString`, `constructor`) are not modelled. JavaScript lists the former first in ascending order and reads the latter as defined when absent. The page only uses the facet ids `campus`, `language` and `topic`, for which neither applies.
- Text.Lower: only the ASCII letters A-Z are lower-cased. Full Unicode case mapping, including characters whose lower case has a different length, is not modelled.
- Catalog.GetRandomItems: `min` and `max` are natural numbers with `min <= max`, which covers the two calls, `(1, 4)` and `(1, 6)`. `Math.random` is not modelled: the count and the order of the sort with a random comparator are inputs, and any permutation stands for the sort's outcome.
- Catalog.GenerateProjects: the stars, forks, indices and `lastUpdated` string are inputs in `ProjectDraw`. `getRandomDate` (`Date`, `toLocaleDateString`) is not modelled.
- Catalog.GetProjectById: the licence index is an input. JavaScript numbers are modelled as unbounded integers.
- Browse.RemoveChip: it requires the facet to be present in the record. Chips are only drawn for present facets; a missing facet would make the source's `filter` call throw.
- Query.Evaluate: `setError` and the `catch` branch, which returns an empty list, are not modelled. Only malformed records, queries or selection values could throw there (a `null` list at `selectedOptions.length`, a non-string query at `searchQuery.trim()`), and the `Project`, `string` and `Entry` types rule them out.
- The defaults `searchQuery = ''` and `filters = {}` of `useProjects`: the browse page always passes both values.
- The loading state: the `setTimeout` / `clearTimeout` delay, `isLoading`, the "Loading projects..." text and the skeleton grid are timer-driven presentation.
- `useProject`: the detail hook is its own timer effect around `getProjectById`, which is modelled.
- The option `count` field: it is carried in `FilterOption` but never set by the browse page, and its display is not modelled.
- `setSearchParams` and navigation: the sync is modelled as a function from the old parameter list to the new one. React Router's history handling is not modelled.
- The expanded / collapsed state of a filter group, the mobile filter drawer, icons, styling and all other JSX rendering.
- Catalog.Readme: only its heading line is stated; the avatar URL and the other readme sections are built but no property of their contents is stated.
