/**
 * The selection logic of the filter panel: toggling one option of a group, the select-all /
 * deselect-all button, and whether "Clear all" is offered. Every operation builds a new list;
 * nothing is changed in place.
 */
module FilterPanel {
  import opened Options
  import opened Seqs
  import opened Selections

  /** One option of a filter group; `count` is optional and only displayed. */
  datatype FilterOption = FilterOption(id: string, optionLabel: string, count: Option<int>)

  /** The test `id => id !== optionId`. */
  function Other(optionId: string): string -> bool {
    id => id != optionId
  }

  /**
   * `handleToggleOption`: an id that is absent is appended at the end; an id that is present is
   * removed, every occurrence of it, and the other ids keep their order and multiplicity.
   */
  function ToggleOption(selected: seq<string>, optionId: string): (r: seq<string>)
    ensures optionId !in selected ==> r == selected + [optionId]
    ensures optionId in selected ==> optionId !in r && IsSubseq(r, selected)
    ensures optionId in selected ==> forall x :: x != optionId ==> multiset(r)[x] == multiset(selected)[x]
    ensures forall x :: x in r <==> (x in selected) != (x == optionId)
  {
    if optionId in selected then
      FilterIsSubseq(selected, Other(optionId));
      var r := Filter(selected, Other(optionId));
      assert forall x :: x != optionId ==> multiset(r)[x] == multiset(selected)[x] by {
        forall x | x != optionId ensures multiset(r)[x] == multiset(selected)[x] {
          FilterMultiset(selected, Other(optionId), x);
        }
      }
      r
    else
      selected + [optionId]
  }

  /** The checkbox of an option is ticked when its id is selected. */
  predicate IsChecked(selected: seq<string>, option: FilterOption) {
    option.id in selected
  }

  /** Toggling flips exactly the toggled option's checkbox. */
  lemma ToggleFlipsOne(selected: seq<string>, options: seq<FilterOption>, k: nat)
    requires k < |options|
    ensures forall o :: o in options ==>
              IsChecked(ToggleOption(selected, options[k].id), o) == (IsChecked(selected, o) != (o.id == options[k].id))
  {
  }

  /** Toggling keeps a list duplicate-free. */
  lemma ToggleNoDup(selected: seq<string>, optionId: string)
    requires NoDup(selected)
    ensures NoDup(ToggleOption(selected, optionId))
  {
    if optionId in selected {
      FilterNoDup(selected, Other(optionId));
    } else {
      var r := selected + [optionId];
      forall i, j | 0 <= i < j < |r| ensures r[i] != r[j] {
        if j == |selected| {
          assert r[i] in selected;
        }
      }
    }
  }

  /** Toggling an absent id twice gives back the list exactly. */
  lemma ToggleAbsentTwice(selected: seq<string>, optionId: string)
    requires optionId !in selected
    ensures ToggleOption(ToggleOption(selected, optionId), optionId) == selected
  {
    var t := selected + [optionId];
    assert optionId in t;
    FilterAll(selected, Other(optionId));
    assert Filter(t, Other(optionId)) == Filter(selected, Other(optionId)) by {
      FilterAppendRejected(selected, optionId);
    }
  }

  lemma {:induction false} FilterAppendRejected(s: seq<string>, optionId: string)
    ensures Filter(s + [optionId], Other(optionId)) == Filter(s, Other(optionId))
  {
    if s == [] {
      assert [] + [optionId] == [optionId];
    } else {
      assert (s + [optionId])[1..] == s[1..] + [optionId];
      FilterAppendRejected(s[1..], optionId);
    }
  }

  /** On a duplicate-free list, toggling the same id twice gives back the same elements; only the
      toggled id may move to the end. */
  lemma ToggleTwiceRestores(selected: seq<string>, optionId: string)
    requires NoDup(selected)
    ensures multiset(ToggleOption(ToggleOption(selected, optionId), optionId)) == multiset(selected)
  {
    if optionId in selected {
      var once := ToggleOption(selected, optionId);
      var twice := once + [optionId];
      assert forall x :: multiset(twice)[x] == multiset(selected)[x] by {
        forall x ensures multiset(twice)[x] == multiset(selected)[x] {
          if x == optionId {
            FilterMultiset(selected, Other(optionId), x);
            var i :| 0 <= i < |selected| && selected[i] == optionId;
            NoDupCountOne(selected, i);
          }
        }
      }
    } else {
      ToggleAbsentTwice(selected, optionId);
    }
  }

  lemma {:induction false} NoDupCountOne(s: seq<string>, i: nat)
    requires NoDup(s) && i < |s|
    ensures multiset(s)[s[i]] == 1
  {
    assert s == s[..i] + [s[i]] + s[i + 1..];
    assert s[i] !in s[..i] by {
      forall k | 0 <= k < i ensures s[..i][k] != s[i] {
        assert s[k] != s[i];
      }
    }
    assert s[i] !in s[i + 1..] by {
      forall k | i < k < |s| ensures s[k] != s[i] {
        assert s[i] != s[k];
      }
    }
  }

  /** `options.map(option => option.id)`. */
  function OptionIds(options: seq<FilterOption>): (ids: seq<string>)
    ensures |ids| == |options|
    ensures forall i :: 0 <= i < |options| ==> ids[i] == options[i].id
  {
    seq(|options|, i requires 0 <= i < |options| => options[i].id)
  }

  /**
   * `handleToggleAll`: clears the group when the selection has as many entries as there are
   * options, and otherwise selects every option in option order. The test compares lengths, not
   * contents.
   */
  function ToggleAll(selected: seq<string>, options: seq<FilterOption>): (r: seq<string>)
    ensures |selected| == |options| ==> r == []
    ensures |selected| != |options| ==> |r| == |options| && forall o :: o in options ==> o.id in r
    ensures |selected| != |options| ==> forall i :: 0 <= i < |options| ==> r[i] == options[i].id
  {
    if |selected| == |options| then []
    else
      var ids := OptionIds(options);
      assert forall o :: o in options ==> o.id in ids by {
        forall o | o in options ensures o.id in ids {
          var i :| 0 <= i < |options| && options[i] == o;
          assert ids[i] == o.id;
        }
      }
      ids
  }

  /** The length test clears a group even when the selection holds ids that are not options and
      some options are unselected. */
  lemma ToggleAllCountsNotContents()
    ensures ToggleAll(["Robotics"], [FilterOption("Berkeley", "Berkeley", None)]) == []
    ensures !IsChecked(["Robotics"], FilterOption("Berkeley", "Berkeley", None))
  {
  }

  /** From any selection of the wrong length, "Select All" followed by "Deselect All" clears the
      group. */
  lemma ToggleAllTwice(selected: seq<string>, options: seq<FilterOption>)
    requires |selected| != |options|
    ensures ToggleAll(ToggleAll(selected, options), options) == []
  {
  }

  /** After "Select All" on a group with at least one option, every checkbox of the group is
      ticked and the button offers "Deselect All". */
  lemma SelectAllTicksEvery(selected: seq<string>, options: seq<FilterOption>)
    requires |selected| != |options|
    ensures forall o :: o in options ==> IsChecked(ToggleAll(selected, options), o)
    ensures ToggleAllLabel(ToggleAll(selected, options), options) == "Deselect All"
  {
  }

  /** The caption of the select-all button, decided by the same length test. */
  function ToggleAllLabel(selected: seq<string>, options: seq<FilterOption>): (caption: string)
    ensures caption == "Deselect All" || caption == "Select All"
  {
    if |selected| == |options| then "Deselect All" else "Select All"
  }

  /** For a group with options, the caption says "Deselect All" exactly when pressing the button
      clears the group. */
  lemma LabelMatchesAction(selected: seq<string>, options: seq<FilterOption>)
    requires |options| > 0
    ensures ToggleAllLabel(selected, options) == "Deselect All" <==> ToggleAll(selected, options) == []
  {
    if |selected| != |options| {
      assert ToggleAll(selected, options)[0] == options[0].id;
    }
  }

  /** "Clear all" is offered when at least one option of some group is selected. */
  predicate ShowClearAll(selectedFilters: Record) {
    TotalActive(selectedFilters) > 0
  }

  lemma ShowClearAllIff(selectedFilters: Record)
    ensures ShowClearAll(selectedFilters) <==> exists e :: e in selectedFilters && e.selected != []
  {
    TotalActiveZeroIff(selectedFilters);
  }
}
