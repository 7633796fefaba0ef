/**
 * The filter selections `Record<string, string[]>`: facet id to selected option ids. A JavaScript
 * object keeps its string keys in insertion order, and both `Object.entries` (which drives the
 * query's `forEach` and the chip list) and `Object.values` (the active-filter count) follow that
 * order, so the record is a sequence of entries with distinct keys.
 */
module Selections {
  import opened Options

  /** One `[facetId, selectedOptions]` pair. */
  datatype Entry = Entry(id: string, selected: seq<string>)

  type Record = seq<Entry>

  /** A JavaScript object never holds the same key twice. */
  predicate DistinctKeys(r: Record) {
    forall i, j :: 0 <= i < j < |r| ==> r[i].id != r[j].id
  }

  lemma DistinctKeysTail(r: Record)
    requires r != [] && DistinctKeys(r)
    ensures DistinctKeys(r[1..])
  {
    forall i, j | 0 <= i < j < |r[1..]| ensures r[1..][i].id != r[1..][j].id {
      assert r[i + 1].id != r[j + 1].id;
    }
  }

  predicate HasKey(r: Record, id: string) {
    exists e :: e in r && e.id == id
  }

  /** `r[id]`, `undefined` when the key is absent. */
  function Lookup(r: Record, id: string): (o: Option<seq<string>>)
    ensures o.None? <==> !HasKey(r, id)
    ensures o.Some? ==> Entry(id, o.value) in r
    ensures o.Some? && DistinctKeys(r) ==> forall e :: e in r && e.id == id ==> e.selected == o.value
  {
    if r == [] then None
    else if r[0].id == id then Some(r[0].selected)
    else Lookup(r[1..], id)
  }

  /**
   * `{ ...r, [id]: opts }`: an existing key keeps its position and takes the new value, a new key
   * is added at the end.
   */
  function Assign(r: Record, id: string, opts: seq<string>): Record {
    if r == [] then [Entry(id, opts)]
    else if r[0].id == id then [Entry(id, opts)] + r[1..]
    else [r[0]] + Assign(r[1..], id, opts)
  }

  /** After the assignment the key reads `opts` and every other key reads as before. */
  lemma {:induction false} AssignLookup(r: Record, id: string, opts: seq<string>)
    ensures Lookup(Assign(r, id, opts), id) == Some(opts)
    ensures forall g :: g != id ==> Lookup(Assign(r, id, opts), g) == Lookup(r, g)
  {
    if r != [] && r[0].id != id {
      AssignLookup(r[1..], id, opts);
      assert ([r[0]] + Assign(r[1..], id, opts))[1..] == Assign(r[1..], id, opts);
    } else if r != [] {
      assert ([Entry(id, opts)] + r[1..])[1..] == r[1..];
    }
  }

  /** A new key is added at the end. */
  lemma {:induction false} AssignAppends(r: Record, id: string, opts: seq<string>)
    requires !HasKey(r, id)
    ensures Assign(r, id, opts) == r + [Entry(id, opts)]
  {
    if r != [] {
      var tail := r[1..];
      assert r[0].id != id by {
        assert r[0] in r;
      }
      assert !HasKey(tail, id) by {
        forall e | e in tail ensures e.id != id {
          assert e in r;
        }
      }
      AssignAppends(tail, id, opts);
      assert r == [r[0]] + tail;
    }
  }

  /** An existing key keeps its position and every other entry stays where it was. */
  lemma {:induction false} AssignReplaces(r: Record, id: string, opts: seq<string>)
    requires DistinctKeys(r) && HasKey(r, id)
    ensures |Assign(r, id, opts)| == |r|
    ensures forall i :: 0 <= i < |r| ==>
              Assign(r, id, opts)[i] == if r[i].id == id then Entry(id, opts) else r[i]
  {
    var a := Assign(r, id, opts);
    if r[0].id == id {
      forall i | 1 <= i < |r| ensures r[i].id != id {
        assert r[0].id != r[i].id;
      }
    } else {
      DistinctKeysTail(r);
      assert HasKey(r[1..], id) by {
        var e :| e in r && e.id == id;
        assert e != r[0];
      }
      AssignReplaces(r[1..], id, opts);
      var tail := Assign(r[1..], id, opts);
      assert a == [r[0]] + tail;
      forall i | 1 <= i < |r|
        ensures a[i] == if r[i].id == id then Entry(id, opts) else r[i]
      {
        assert a[i] == tail[i - 1] && r[1..][i - 1] == r[i];
      }
    }
  }

  /** The assignment keeps the keys distinct. */
  lemma AssignDistinct(r: Record, id: string, opts: seq<string>)
    ensures DistinctKeys(r) ==> DistinctKeys(Assign(r, id, opts))
  {
    var a := Assign(r, id, opts);
    if DistinctKeys(r) && HasKey(r, id) {
      AssignReplaces(r, id, opts);
      forall i, j | 0 <= i < j < |a| ensures a[i].id != a[j].id {
        assert a[i].id == r[i].id && a[j].id == r[j].id;
      }
    } else if DistinctKeys(r) {
      AssignAppends(r, id, opts);
      forall i, j | 0 <= i < j < |a| ensures a[i].id != a[j].id {
        if j == |r| {
          assert r[i] in r;
        } else {
          assert a[i] == r[i] && a[j] == r[j];
        }
      }
    }
  }

  /** With distinct keys, the entries after an assignment are the other facets' entries and the
      new one. */
  lemma AssignMembers(r: Record, id: string, opts: seq<string>)
    requires DistinctKeys(r)
    ensures forall e :: e in Assign(r, id, opts) <==> (e in r && e.id != id) || e == Entry(id, opts)
  {
    var a := Assign(r, id, opts);
    if HasKey(r, id) {
      AssignReplaces(r, id, opts);
      var f :| f in r && f.id == id;
      var j :| 0 <= j < |r| && r[j] == f;
      assert a[j] == Entry(id, opts);
      forall e | e in r && e.id != id ensures e in a {
        var i :| 0 <= i < |r| && r[i] == e;
        assert a[i] == e;
      }
    } else {
      AssignAppends(r, id, opts);
    }
  }

  /** A second assignment to the same key overrides the first. */
  lemma {:induction false} AssignAssign(r: Record, id: string, a: seq<string>, b: seq<string>)
    ensures Assign(Assign(r, id, a), id, b) == Assign(r, id, b)
  {
    if r != [] && r[0].id != id {
      AssignAssign(r[1..], id, a, b);
      assert ([r[0]] + Assign(r[1..], id, a))[1..] == Assign(r[1..], id, a);
    } else if r != [] {
      assert ([Entry(id, a)] + r[1..])[1..] == r[1..];
    }
  }

  /** Writing back the list a facet already holds leaves the record as it was. */
  lemma AssignSame(r: Record, id: string, v: seq<string>)
    requires DistinctKeys(r) && Lookup(r, id) == Some(v)
    ensures Assign(r, id, v) == r
  {
    AssignReplaces(r, id, v);
    forall i | 0 <= i < |r| && r[i].id == id ensures r[i] == Entry(id, v) {
      assert r[i] in r;
    }
  }

  /** `r[id] || []`: the selection of one facet, empty when the facet is absent. */
  function SelectedFor(r: Record, id: string): (s: seq<string>)
    ensures !HasKey(r, id) ==> s == []
    ensures HasKey(r, id) ==> Entry(id, s) in r
    ensures DistinctKeys(r) ==> forall e :: e in r && e.id == id ==> e.selected == s
  {
    match Lookup(r, id)
    case None => []
    case Some(s) => s
  }

  /** `Object.values(r).reduce((total, selected) => total + selected.length, 0)`. */
  function TotalActive(r: Record): nat {
    if r == [] then 0 else |r[0].selected| + TotalActive(r[1..])
  }

  /** The count is zero exactly when every facet's selection is empty. */
  lemma {:induction false} TotalActiveZeroIff(r: Record)
    ensures TotalActive(r) == 0 <==> forall e :: e in r ==> e.selected == []
  {
    if r != [] {
      TotalActiveZeroIff(r[1..]);
      assert r == [r[0]] + r[1..];
    }
  }

  /** Replacing one facet's selection changes the count by the difference of the list lengths. */
  lemma {:induction false} TotalActiveAssign(r: Record, id: string, opts: seq<string>)
    requires DistinctKeys(r)
    ensures TotalActive(Assign(r, id, opts)) == TotalActive(r) - |SelectedFor(r, id)| + |opts|
  {
    if r == [] {
    } else if r[0].id == id {
      assert !HasKey(r[1..], id) by {
        forall i | 0 <= i < |r[1..]| ensures r[1..][i].id != id {
          assert r[0].id != r[i + 1].id;
        }
      }
      assert [Entry(id, opts)] + r[1..] == Assign(r, id, opts);
      assert ([Entry(id, opts)] + r[1..])[1..] == r[1..];
    } else {
      DistinctKeysTail(r);
      TotalActiveAssign(r[1..], id, opts);
      var tail := Assign(r[1..], id, opts);
      assert Assign(r, id, opts) == [r[0]] + tail;
      assert ([r[0]] + tail)[1..] == tail;
      assert Lookup(r, id) == Lookup(r[1..], id);
    }
  }
}
