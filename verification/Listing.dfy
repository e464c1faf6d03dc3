/** Rows of a directory listing: updating them from a walk, and removing what a walk did not see. */
module Listing {
  /** `id` is the identity of the native path; the placeholder row has the empty one. */
  datatype Entry = Entry(id: string, name: string, isDir: bool, details: int)

  const PLACEHOLDER := Entry("", "", false, 0)

  ghost function Ids(es: seq<Entry>): set<string> {
    set i | 0 <= i < |es| :: es[i].id
  }

  ghost predicate Distinct(es: seq<Entry>) {
    forall i, j | 0 <= i < j < |es| :: es[i].id != es[j].id
  }

  /** What a walk delivers: every entry once, none without an identity. */
  ghost predicate Snapshot(es: seq<Entry>) {
    Distinct(es) && forall i | 0 <= i < |es| :: es[i].id != ""
  }

  /** The row of an identity, or -1. */
  ghost function Find(rows: seq<Entry>, id: string): (r: int)
    ensures -1 <= r < |rows|
    ensures r >= 0 ==> rows[r].id == id
    ensures r < 0 ==> forall i | 0 <= i < |rows| :: rows[i].id != id
  {
    if rows == [] then -1
    else if rows[|rows| - 1].id == id then |rows| - 1
    else Find(rows[..|rows| - 1], id)
  }

  /** Replace the row of the same identity, or add one at the end. */
  ghost function Upsert(rows: seq<Entry>, e: Entry): seq<Entry> {
    if Find(rows, e.id) >= 0 then rows[Find(rows, e.id) := e] else rows + [e]
  }

  ghost function Merged(base: seq<Entry>, es: seq<Entry>): seq<Entry> {
    if es == [] then base else Upsert(Merged(base, es[..|es| - 1]), es[|es| - 1])
  }

  /** The rows whose identity is in `seen`, in order. */
  ghost function Kept(rows: seq<Entry>, seen: set<string>): seq<Entry> {
    if rows == [] then []
    else (if rows[0].id in seen then [rows[0]] else []) + Kept(rows[1..], seen)
  }

  lemma {:induction false} MergedKeepsPlaces(base: seq<Entry>, es: seq<Entry>)
    ensures |Merged(base, es)| >= |base|
    ensures forall i | 0 <= i < |base| :: Merged(base, es)[i].id == base[i].id
    decreases |es|
  {
    if es != [] {
      MergedKeepsPlaces(base, es[..|es| - 1]);
    }
  }

  lemma {:induction false} MergedTwice(base: seq<Entry>, a: seq<Entry>, b: seq<Entry>)
    ensures Merged(Merged(base, a), b) == Merged(base, a + b)
    decreases |b|
  {
    if b == [] {
      assert a + b == a;
    } else {
      MergedTwice(base, a, b[..|b| - 1]);
      assert (a + b)[..|a + b| - 1] == a + b[..|b| - 1];
    }
  }

  lemma DistinctFind(rows: seq<Entry>, i: nat)
    requires Distinct(rows) && i < |rows|
    ensures Find(rows, rows[i].id) == i
  {
  }

  lemma {:induction false} MergedDistinct(base: seq<Entry>, es: seq<Entry>)
    requires Distinct(base)
    ensures Distinct(Merged(base, es))
    ensures Ids(Merged(base, es)) == Ids(base) + Ids(es)
    decreases |es|
  {
    if es != [] {
      var init, e := es[..|es| - 1], es[|es| - 1];
      MergedDistinct(base, init);
      assert Ids(es) == Ids(init) + {e.id} by {
        assert es == init + [e];
        IdsAppend(init, e);
      }
      UpsertIds(Merged(base, init), e);
    }
  }

  lemma IdsAppend(rows: seq<Entry>, e: Entry)
    ensures Ids(rows + [e]) == Ids(rows) + {e.id}
  {
    var all := rows + [e];
    assert forall i | 0 <= i < |rows| :: all[i] == rows[i];
    assert all[|rows|] == e;
  }

  lemma UpsertIds(rows: seq<Entry>, e: Entry)
    requires Distinct(rows)
    ensures Distinct(Upsert(rows, e)) && Ids(Upsert(rows, e)) == Ids(rows) + {e.id}
  {
    var k := Find(rows, e.id);
    if k >= 0 {
      var r := rows[k := e];
      assert forall i | 0 <= i < |rows| :: r[i].id == rows[i].id;
    } else {
      IdsAppend(rows, e);
    }
  }

  /** The entry `es` has for an identity, else the row itself. */
  ghost function Fresh(row: Entry, es: seq<Entry>): Entry {
    if Find(es, row.id) >= 0 then es[Find(es, row.id)] else row
  }

  /** The entries of `es` whose identity is not among `known`, in order. */
  ghost function Added(es: seq<Entry>, known: set<string>): seq<Entry> {
    if es == [] then []
    else Added(es[..|es| - 1], known) + (if es[|es| - 1].id in known then [] else [es[|es| - 1]])
  }

  ghost function Refreshed(base: seq<Entry>, es: seq<Entry>): seq<Entry> {
    seq(|base|, i requires 0 <= i < |base| => Fresh(base[i], es))
  }

  /** Merging updates the rows in place and adds the new entries behind them. */
  lemma {:induction false} MergedShape(base: seq<Entry>, es: seq<Entry>)
    requires Distinct(base) && Distinct(es)
    ensures Merged(base, es) == Refreshed(base, es) + Added(es, Ids(base))
    decreases |es|
  {
    if es == [] {
      assert Refreshed(base, es) == base;
    } else {
      MergedShape(base, es[..|es| - 1]);
      ShapeStep(base, es, es[..|es| - 1], es[|es| - 1]);
    }
  }

  lemma {:induction false} ShapeStep(base: seq<Entry>, es: seq<Entry>, init: seq<Entry>, e: Entry)
    requires Distinct(base) && Distinct(es) && es == init + [e] && init == es[..|es| - 1]
    requires Merged(base, init) == Refreshed(base, init) + Added(init, Ids(base))
    ensures Upsert(Merged(base, init), e) == Refreshed(base, es) + Added(es, Ids(base))
  {
    var before, front, back, k := Merged(base, init), Refreshed(base, init), Added(init, Ids(base)), Find(base, e.id);
    FreshStep(base, es, k);
    if k >= 0 {
      MergedDistinct(base, init);
      UpsertOld(before, front, back, e, k);
    } else {
      NotAdded(base, init, e, before);
      UpsertNew(before, front, back, e);
    }
  }

  lemma UpsertOld(rows: seq<Entry>, front: seq<Entry>, back: seq<Entry>, e: Entry, k: nat)
    requires Distinct(rows) && rows == front + back && k < |front| && rows[k].id == e.id
    ensures Upsert(rows, e) == front[k := e] + back
  {
    DistinctFind(rows, k);
  }

  lemma UpsertNew(rows: seq<Entry>, front: seq<Entry>, back: seq<Entry>, e: Entry)
    requires rows == front + back && forall i | 0 <= i < |rows| :: rows[i].id != e.id
    ensures Upsert(rows, e) == front + (back + [e])
  {
    var k := Find(rows, e.id);
  }

  lemma NotAdded(base: seq<Entry>, init: seq<Entry>, e: Entry, before: seq<Entry>)
    requires Distinct(base) && Distinct(init + [e]) && Find(base, e.id) < 0
    requires before == Merged(base, init) && before == Refreshed(base, init) + Added(init, Ids(base))
    ensures forall i | 0 <= i < |before| :: before[i].id != e.id
  {
    AddedIds(init, Ids(base));
    forall i | 0 <= i < |before|
      ensures before[i].id != e.id
    {
      if i >= |base| {
        assert before[i] == Added(init, Ids(base))[i - |base|];
        var j :| 0 <= j < |init| && init[j] == before[i];
        assert (init + [e])[j].id != (init + [e])[|init|].id;
      }
    }
  }

  lemma FreshStep(base: seq<Entry>, es: seq<Entry>, k: int)
    requires Distinct(base) && Distinct(es) && es != [] && k == Find(base, es[|es| - 1].id)
    ensures Refreshed(base, es) ==
      if k >= 0 then Refreshed(base, es[..|es| - 1])[k := es[|es| - 1]] else Refreshed(base, es[..|es| - 1])
    ensures k >= 0 <==> es[|es| - 1].id in Ids(base)
  {
    var init, e := es[..|es| - 1], es[|es| - 1];
    forall i | 0 <= i < |base|
      ensures Fresh(base[i], es) == if i == k then e else Fresh(base[i], init)
    {
      if base[i].id == e.id {
        DistinctFind(base, i);
      }
    }
    if k >= 0 {
      assert base[k].id in Ids(base);
    }
  }

  lemma {:induction false} AddedIds(es: seq<Entry>, known: set<string>)
    ensures forall e | e in Added(es, known) :: e in es && e.id !in known
    decreases |es|
  {
    if es != [] {
      AddedIds(es[..|es| - 1], known);
    }
  }

  lemma {:induction false} KeptConcat(a: seq<Entry>, b: seq<Entry>, seen: set<string>)
    ensures Kept(a + b, seen) == Kept(a, seen) + Kept(b, seen)
  {
    if a == [] {
      assert a + b == b;
    } else {
      assert (a + b)[1..] == a[1..] + b && (a + b)[0] == a[0];
      KeptConcat(a[1..], b, seen);
      var first := if a[0].id in seen then [a[0]] else [];
      assert first + (Kept(a[1..], seen) + Kept(b, seen)) == (first + Kept(a[1..], seen)) + Kept(b, seen);
    }
  }

  lemma {:induction false} KeptAll(rows: seq<Entry>, seen: set<string>)
    requires forall i | 0 <= i < |rows| :: rows[i].id in seen
    ensures Kept(rows, seen) == rows
  {
    if rows != [] {
      KeptAll(rows[1..], seen);
    }
  }

  lemma {:induction false} KeptNone(rows: seq<Entry>, seen: set<string>)
    requires forall i | 0 <= i < |rows| :: rows[i].id !in seen
    ensures Kept(rows, seen) == []
  {
    if rows != [] {
      KeptNone(rows[1..], seen);
    }
  }

  lemma {:induction false} KeptMember(rows: seq<Entry>, seen: set<string>, e: Entry)
    ensures e in Kept(rows, seen) <==> e in rows && e.id in seen
  {
    if rows != [] {
      KeptMember(rows[1..], seen, e);
      assert rows == [rows[0]] + rows[1..];
    }
  }

  lemma {:induction false} KeptDistinct(rows: seq<Entry>, seen: set<string>)
    requires Distinct(rows)
    ensures Distinct(Kept(rows, seen))
  {
    if rows != [] {
      KeptDistinct(rows[1..], seen);
      forall e | e in Kept(rows[1..], seen)
        ensures e.id != rows[0].id
      {
        KeptMember(rows[1..], seen, e);
        var j :| 0 <= j < |rows[1..]| && rows[1..][j] == e;
        assert rows[1 + j] == e;
      }
    }
  }

  lemma {:induction false} MergedContains(base: seq<Entry>, es: seq<Entry>, e: Entry)
    requires Distinct(base) && Distinct(es) && e in es
    ensures e in Merged(base, es)
    decreases |es|
  {
    var init, last := es[..|es| - 1], es[|es| - 1];
    var before := Merged(base, init);
    if e == last {
      var k := Find(before, last.id);
      assert Merged(base, es)[if k >= 0 then k else |before|] == e;
    } else {
      var j :| 0 <= j < |es| && es[j] == e;
      assert init[j] == e && e.id != last.id;
      MergedContains(base, init, e);
      var i :| 0 <= i < |before| && before[i] == e;
      assert Merged(base, es)[i] == e;
    }
  }

  lemma {:induction false} DistinctCount(es: seq<Entry>, e: Entry)
    requires Distinct(es)
    ensures multiset(es)[e] == if e in es then 1 else 0
  {
    if es != [] {
      DistinctCount(es[1..], e);
      assert es == [es[0]] + es[1..];
      assert forall i | 0 <= i < |es[1..]| :: es[1..][i] == es[i + 1];
    }
  }

  /** The rows after a refresh have finished: those of `es` the list already knew, in the order of the
      list, then the others in the order of the walk. */
  ghost function Retained(base: seq<Entry>, es: seq<Entry>): seq<Entry> {
    if base == [] then []
    else (if Find(es, base[0].id) >= 0 then [es[Find(es, base[0].id)]] else []) + Retained(base[1..], es)
  }

  lemma {:induction false} KeptRefreshed(base: seq<Entry>, es: seq<Entry>)
    ensures Kept(Refreshed(base, es), Ids(es)) == Retained(base, es)
  {
    if base != [] {
      KeptRefreshed(base[1..], es);
      assert Refreshed(base, es)[1..] == Refreshed(base[1..], es);
    }
  }

  lemma RefreshShape(base: seq<Entry>, es: seq<Entry>)
    requires Distinct(base) && Distinct(es)
    ensures Kept(Merged(base, es), Ids(es)) == Retained(base, es) + Added(es, Ids(base))
  {
    MergedShape(base, es);
    KeptConcat(Refreshed(base, es), Added(es, Ids(base)), Ids(es));
    KeptRefreshed(base, es);
    AddedIds(es, Ids(base));
    var added := Added(es, Ids(base));
    forall i | 0 <= i < |added|
      ensures added[i].id in Ids(es)
    {
      assert added[i] in es;
    }
    KeptAll(added, Ids(es));
  }

  /** Refreshing gives exactly what reloading gives, up to the order of the rows. */
  lemma RefreshRefinesReload(base: seq<Entry>, es: seq<Entry>)
    requires Distinct(base) && Distinct(es)
    ensures multiset(Kept(Merged(base, es), Ids(es))) == multiset(es)
    ensures Distinct(Kept(Merged(base, es), Ids(es)))
  {
    var merged := Merged(base, es);
    var rows := Kept(merged, Ids(es));
    MergedDistinct(base, es);
    KeptDistinct(merged, Ids(es));
    forall e
      ensures multiset(rows)[e] == multiset(es)[e]
    {
      DistinctCount(rows, e);
      DistinctCount(es, e);
      KeptMember(merged, Ids(es), e);
      if e in es {
        MergedContains(base, es, e);
      } else if e in rows {
        var i :| 0 <= i < |es| && es[i].id == e.id;
        MergedContains(base, es, es[i]);
      }
    }
  }
}
