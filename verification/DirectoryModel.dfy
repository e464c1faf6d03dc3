/** The asynchronous listing of one directory: walks superseded by generation, refreshes that diff. */
module DirectoryModel {
  import opened Listing

  datatype Batch = Batch(generation: nat, diff: bool, entries: seq<Entry>, finished: bool, error: string)

  /** The model's state; `raised` are the generations whose walk has been told to stop. */
  datatype State = State(rows: seq<Entry>, seen: set<string>, path: string, error: string, generation: nat,
                         suspended: bool, scanning: bool, stopping: bool, raised: set<nat>)

  const INITIAL := State([], {}, "", "", 0, false, false, false, {})

  function Load(s: State, path: string): State {
    if s.stopping then s
    else State([], {}, path, "", s.generation + 1, false, true, false, s.raised + {s.generation})
  }

  predicate CanRefresh(s: State) {
    !s.stopping && !s.suspended && s.path != ""
  }

  function Refresh(s: State): State {
    if !CanRefresh(s) then s
    else s.(generation := s.generation + 1, raised := s.raised + {s.generation}, seen := {}, error := "",
            scanning := true)
  }

  function Suspend(s: State): State {
    s.(suspended := true, raised := s.raised + {s.generation}, scanning := false)
  }

  function Resume(s: State): State {
    if !s.suspended then s else Refresh(s.(suspended := false))
  }

  function ShutDown(s: State): State {
    if s.stopping then s else s.(stopping := true, raised := s.raised + {s.generation}, scanning := false)
  }

  ghost function TakeEntries(s: State, b: Batch): State {
    if b.diff then s.(rows := Merged(s.rows, b.entries), seen := s.seen + Ids(b.entries))
    else s.(rows := s.rows + b.entries)
  }

  ghost function Finish(s: State, diff: bool): State {
    if diff then s.(scanning := false, rows := Kept(s.rows, s.seen), seen := {}) else s.(scanning := false)
  }

  ghost function Apply(s: State, b: Batch): State {
    if b.generation != s.generation || s.suspended || s.stopping then s
    else
      var s' := TakeEntries(s, b);
      if b.error != "" then s'.(error := b.error, scanning := false)
      else if b.finished then Finish(s', b.diff)
      else s'
  }

  /** Rows have distinct identities, and the placeholder is the last row and there only while updates
      are suspended. */
  ghost predicate RowsOk(s: State) {
    && Distinct(s.rows)
    && forall i | 0 <= i < |s.rows| :: s.rows[i].id == "" ==> s.suspended && i == |s.rows| - 1
  }

  /** `index` maps every identity to its row, and nothing else. */
  ghost predicate Indexes(index: map<string, nat>, rows: seq<Entry>) {
    && (forall i | 0 <= i < |rows| && rows[i].id != "" :: rows[i].id in index && index[rows[i].id] == i)
    && (forall id | id in index :: index[id] < |rows| && rows[index[id]].id == id && id != "")
  }

  lemma IndexFinds(index: map<string, nat>, rows: seq<Entry>, id: string)
    requires Indexes(index, rows) && Distinct(rows) && id != ""
    ensures id in index ==> Find(rows, id) == index[id]
    ensures id !in index ==> Find(rows, id) < 0
  {
    if id in index {
      DistinctFind(rows, index[id]);
    }
  }

  class Model {
    var entries: seq<Entry>
    var identityToRow: map<string, nat>
    var seenThisRefresh: set<string>
    var directoryPath: string
    var directoryError: string
    var generation: nat
    var updatesSuspended: bool
    var scanning: bool
    var stopping: bool
    var raised: set<nat>

    ghost function View(): State
      reads this
    {
      State(entries, seenThisRefresh, directoryPath, directoryError, generation, updatesSuspended, scanning,
            stopping, raised)
    }

    ghost predicate Valid()
      reads this
    {
      RowsOk(View()) && Indexes(identityToRow, entries)
    }

    constructor ()
      ensures Valid() && View() == INITIAL
    {
      entries, identityToRow, seenThisRefresh := [], map[], {};
      directoryPath, directoryError, generation := "", "", 0;
      updatesSuspended, scanning, stopping, raised := false, false, false, {};
    }

    method LoadPath(path: string)
      requires Valid()
      modifies this
      ensures Valid() && View() == Load(old(View()), path)
    {
      if stopping {
        return;
      }
      updatesSuspended := false;
      raised := raised + {generation};
      generation := generation + 1;
      entries, identityToRow, seenThisRefresh := [], map[], {};
      directoryPath, directoryError, scanning := path, "", true;
    }

    method RefreshPath()
      requires Valid()
      modifies this
      ensures Valid() && View() == Refresh(old(View())) && identityToRow == old(identityToRow)
    {
      if stopping || updatesSuspended || directoryPath == "" {
        return;
      }
      raised := raised + {generation};
      generation := generation + 1;
      seenThisRefresh := {};
      directoryError := "";
      scanning := true;
    }

    method SuspendUpdates()
      requires Valid()
      modifies this
      ensures Valid() && View() == Suspend(old(View()))
    {
      updatesSuspended := true;
      raised := raised + {generation};
      scanning := false;
    }

    /** The placeholder must have been removed. */
    method ResumeUpdates()
      requires Valid() && forall i | 0 <= i < |entries| :: entries[i].id != ""
      modifies this
      ensures Valid() && View() == Resume(old(View()))
    {
      if !updatesSuspended {
        return;
      }
      updatesSuspended := false;
      RefreshPath();
    }

    /** Always appended, so that no row changes its index. */
    method InsertPlaceholderRow() returns (row: nat)
      requires Valid() && updatesSuspended && forall i | 0 <= i < |entries| :: entries[i].id != ""
      modifies this`entries
      ensures Valid() && row == |old(entries)| && entries == old(entries) + [PLACEHOLDER]
    {
      row := |entries|;
      entries := entries + [PLACEHOLDER];
    }

    method RemovePlaceholderRow(row: int)
      requires Valid()
      modifies this`entries
      ensures Valid()
      ensures entries ==
        if 0 <= row < |old(entries)| && old(entries)[row].id == "" then old(entries)[..row] else old(entries)
    {
      if row < 0 || row >= |entries| || entries[row].id != "" {
        return;
      }
      assert row == |entries| - 1 && entries[row + 1..] == [];
      entries := entries[..row] + entries[row + 1..];
    }

    method Shutdown()
      requires Valid()
      modifies this
      ensures Valid() && View() == ShutDown(old(View()))
    {
      if stopping {
        return;
      }
      stopping := true;
      raised := raised + {generation};
      scanning := false;
    }

    method AppendEntries(es: seq<Entry>)
      requires Valid() && !updatesSuspended && Snapshot(es) && Ids(entries) !! Ids(es)
      modifies this`entries, this`identityToRow
      ensures Valid() && entries == old(entries) + es
    {
      ghost var before := entries;
      for k := 0 to |es|
        invariant entries == before + es[..k]
        invariant Distinct(entries) && (forall i | 0 <= i < |entries| :: entries[i].id != "")
        invariant Indexes(identityToRow, entries)
      {
        NewIdentity(before, es, k);
        identityToRow := identityToRow[es[k].id := |entries|];
        entries := entries + [es[k]];
      }
      assert es[..|es|] == es;
    }

    /** Entries the list knows replace their row; the others are appended when all have been seen. */
    method ApplyDiffEntries(es: seq<Entry>)
      requires Valid() && !updatesSuspended && Snapshot(es)
      modifies this`entries, this`identityToRow, this`seenThisRefresh
      ensures Valid() && entries == Merged(old(entries), es)
      ensures seenThisRefresh == old(seenThisRefresh) + Ids(es)
    {
      var additions := [];
      ghost var before, seen, index := entries, seenThisRefresh, identityToRow;
      for k := 0 to |es|
        invariant Diffing(before, es[..k], entries, additions, index) && identityToRow == index
        invariant seenThisRefresh == seen + Ids(es[..k])
      {
        var e := es[k];
        NextEntry(es, k);
        seenThisRefresh := seenThisRefresh + {e.id};
        if e.id in identityToRow {
          DiffKnown(before, es[..k], e, entries, additions, index);
          var row := identityToRow[e.id];
          assert entries[row] == e ==> entries[row := e] == entries;
          if entries[row] != e {
            entries := entries[row := e];
          }
        } else {
          DiffNew(before, es[..k], e, entries, additions, index);
          additions := additions + [e];
        }
      }
      assert es[..|es|] == es;
      assert Merged(before, es) == entries + additions;
      AppendEntries(additions);
    }

    /** Removes every run of rows the walk did not see, from the back. */
    method RemoveUnseen()
      modifies this`entries
      ensures entries == Kept(old(entries), seenThisRefresh)
    {
      ghost var before := entries;
      var last := |entries| - 1;
      while last >= 0
        invariant -1 <= last < |before|
        invariant entries == before[..last + 1] + Kept(before[last + 1..], seenThisRefresh)
        decreases last
      {
        if entries[last].id in seenThisRefresh {
          KeepLast(before, last, seenThisRefresh);
          last := last - 1;
          continue;
        }
        var first := last;
        while first > 0 && entries[first - 1].id !in seenThisRefresh
          invariant 0 <= first <= last
          invariant entries == before[..last + 1] + Kept(before[last + 1..], seenThisRefresh)
          invariant forall i | first <= i <= last :: before[i].id !in seenThisRefresh
        {
          first := first - 1;
        }
        DropRun(before, first, last + 1, seenThisRefresh);
        entries := entries[..first] + entries[last + 1..];
        last := first - 1;
      }
      assert before[0..] == before;
    }

    method FinishDiff()
      requires Valid() && !updatesSuspended
      modifies this`entries, this`identityToRow, this`seenThisRefresh
      ensures Valid() && entries == Kept(old(entries), old(seenThisRefresh)) && seenThisRefresh == {}
    {
      KeptRows(entries, seenThisRefresh);
      RemoveUnseen();
      RebuildIndex();
      seenThisRefresh := {};
    }

    method RebuildIndex()
      requires Distinct(entries)
      requires forall i | 0 <= i < |entries| :: entries[i].id != ""
      modifies this`identityToRow
      ensures Indexes(identityToRow, entries)
    {
      identityToRow := map[];
      for row := 0 to |entries|
        invariant Indexes(identityToRow, entries[..row])
      {
        identityToRow := identityToRow[entries[row].id := row];
        assert entries[..row + 1] == entries[..row] + [entries[row]];
      }
      assert entries[..|entries|] == entries;
    }

    /** One delivery of a walk; a stale one, or one that comes while suspended, changes nothing. */
    method ApplyBatch(b: Batch)
      requires Valid() && Snapshot(b.entries)
      requires b.generation == generation && !updatesSuspended && !stopping && !b.diff ==>
        Ids(entries) !! Ids(b.entries)
      modifies this
      ensures Valid() && View() == Apply(old(View()), b)
    {
      if b.generation != generation || updatesSuspended || stopping {
        return;
      }
      if b.diff {
        ApplyDiffEntries(b.entries);
      } else {
        AppendEntries(b.entries);
      }
      if b.error != "" {
        directoryError := b.error;
        scanning := false;
        return;
      }
      if b.finished {
        scanning := false;
        if b.diff {
          FinishDiff();
        }
      }
    }
  }

  lemma NewIdentity(before: seq<Entry>, es: seq<Entry>, k: nat)
    requires Ids(before) !! Ids(es) && Distinct(before) && Snapshot(es) && k < |es|
    ensures es[..k] + [es[k]] == es[..k + 1]
    ensures forall i | 0 <= i < |before + es[..k]| :: (before + es[..k])[i].id != es[k].id
  {
    assert es[k].id in Ids(es);
    forall i | 0 <= i < |before|
      ensures before[i].id != es[k].id
    {
      assert before[i].id in Ids(before);
    }
  }

  lemma NextEntry(es: seq<Entry>, k: nat)
    requires Snapshot(es) && k < |es|
    ensures es[..k + 1] == es[..k] + [es[k]] && es[k].id !in Ids(es[..k]) && es[k].id != ""
    ensures Ids(es[..k + 1]) == Ids(es[..k]) + {es[k].id}
  {
    assert es[..k + 1] == es[..k] + [es[k]];
    IdsAppend(es[..k], es[k]);
  }

  /** The entries `done` of a refresh have been taken: known ones into `rows`, the others into `additions`. */
  ghost predicate Diffing(base: seq<Entry>, done: seq<Entry>, rows: seq<Entry>, additions: seq<Entry>,
                          index: map<string, nat>) {
    && Snapshot(rows) && Indexes(index, rows)
    && Merged(base, done) == rows + additions
    && Snapshot(additions) && Ids(rows) !! Ids(additions) && Ids(additions) <= Ids(done)
  }

  lemma DiffKnown(base: seq<Entry>, done: seq<Entry>, e: Entry, rows: seq<Entry>, additions: seq<Entry>,
                  index: map<string, nat>)
    requires Diffing(base, done, rows, additions, index) && e.id !in Ids(done) && e.id in index
    ensures Diffing(base, done + [e], rows[index[e.id] := e], additions, index)
  {
    var k := index[e.id];
    NotAmong(additions, e.id);
    FindInFront(rows, additions, e.id);
    IndexFinds(index, rows, e.id);
    IdsAppend(done, e);
    assert (rows + additions)[k := e] == rows[k := e] + additions;
    SameIds(rows, rows[k := e]);
  }

  lemma SameIds(a: seq<Entry>, b: seq<Entry>)
    requires |a| == |b| && forall i | 0 <= i < |a| :: a[i].id == b[i].id
    ensures Ids(a) == Ids(b)
  {
  }

  lemma DiffNew(base: seq<Entry>, done: seq<Entry>, e: Entry, rows: seq<Entry>, additions: seq<Entry>,
                index: map<string, nat>)
    requires Diffing(base, done, rows, additions, index)
    requires e.id !in Ids(done) && e.id !in index && e.id != ""
    ensures Diffing(base, done + [e], rows, additions + [e], index)
  {
    NotAmong(additions, e.id);
    FindInFront(rows, additions, e.id);
    IndexFinds(index, rows, e.id);
    IdsAppend(done, e);
    IdsAppend(additions, e);
    assert rows + additions + [e] == rows + (additions + [e]);
    NotAmongIds(rows, e.id);
    SnapshotAppend(additions, e);
  }

  lemma NotAmong(rows: seq<Entry>, id: string)
    requires id !in Ids(rows)
    ensures forall i | 0 <= i < |rows| :: rows[i].id != id
  {
    forall i | 0 <= i < |rows|
      ensures rows[i].id != id
    {
      assert rows[i].id in Ids(rows);
    }
  }

  lemma SnapshotAppend(rows: seq<Entry>, e: Entry)
    requires Snapshot(rows) && e.id != "" && forall i | 0 <= i < |rows| :: rows[i].id != e.id
    ensures Snapshot(rows + [e])
  {
  }

  lemma NotAmongIds(rows: seq<Entry>, id: string)
    requires Find(rows, id) < 0
    ensures id !in Ids(rows)
  {
  }

  lemma KeptRows(rows: seq<Entry>, seen: set<string>)
    requires Snapshot(rows)
    ensures Snapshot(Kept(rows, seen))
  {
    KeptDistinct(rows, seen);
    var kept := Kept(rows, seen);
    forall i | 0 <= i < |kept|
      ensures kept[i].id != ""
    {
      KeptMember(rows, seen, kept[i]);
    }
  }

  lemma {:induction false} FindInFront(rows: seq<Entry>, more: seq<Entry>, id: string)
    requires forall i | 0 <= i < |more| :: more[i].id != id
    ensures Find(rows + more, id) == Find(rows, id)
    decreases |more|
  {
    if more == [] {
      assert rows + more == rows;
    } else {
      var all := rows + more;
      assert all[..|all| - 1] == rows + more[..|more| - 1] && all[|all| - 1] == more[|more| - 1];
      FindInFront(rows, more[..|more| - 1], id);
    }
  }

  lemma KeepLast(rows: seq<Entry>, k: nat, seen: set<string>)
    requires k < |rows| && rows[k].id in seen
    ensures rows[..k + 1] + Kept(rows[k + 1..], seen) == rows[..k] + Kept(rows[k..], seen)
  {
    assert rows[k..][1..] == rows[k + 1..] && rows[..k + 1] == rows[..k] + [rows[k]];
    assert rows[..k] + [rows[k]] + Kept(rows[k + 1..], seen) == rows[..k] + ([rows[k]] + Kept(rows[k + 1..], seen));
  }

  lemma DropRun(rows: seq<Entry>, first: nat, end: nat, seen: set<string>)
    requires first < end <= |rows| && forall i | first <= i < end :: rows[i].id !in seen
    ensures var now := rows[..end] + Kept(rows[end..], seen);
      now[..first] + now[end..] == rows[..first] + Kept(rows[first..], seen)
  {
    KeptRun(rows, first, end, seen);
  }

  /** A run of rows that were not seen adds nothing. */
  lemma {:induction false} KeptRun(rows: seq<Entry>, first: nat, end: nat, seen: set<string>)
    requires first < end <= |rows| && forall i | first <= i < end :: rows[i].id !in seen
    ensures Kept(rows[first..], seen) == Kept(rows[end..], seen)
    decreases end - first
  {
    assert rows[first..][1..] == rows[first + 1..];
    if first + 1 < end {
      KeptRun(rows, first + 1, end, seen);
    }
  }

  lemma {:induction false} MergedRows(rows: seq<Entry>, es: seq<Entry>)
    requires Snapshot(rows) && Snapshot(es)
    ensures Snapshot(Merged(rows, es))
  {
    MergedDistinct(rows, es);
    var merged := Merged(rows, es);
    forall i | 0 <= i < |merged|
      ensures merged[i].id != ""
    {
      assert merged[i].id in Ids(merged);
    }
  }

  lemma {:induction false} ApplyKeepsRows(m: State, b: Batch)
    requires RowsOk(m) && Snapshot(b.entries)
    requires b.generation == m.generation && !b.diff ==> Ids(m.rows) !! Ids(b.entries)
    ensures RowsOk(Apply(m, b))
  {
    if b.generation == m.generation && !m.suspended && !m.stopping {
      if b.diff {
        MergedRows(m.rows, b.entries);
        KeptRows(Merged(m.rows, b.entries), m.seen + Ids(b.entries));
      } else {
        AppendedRows(m.rows, b.entries);
      }
    }
  }

  lemma AppendedRows(rows: seq<Entry>, es: seq<Entry>)
    requires Snapshot(rows) && Snapshot(es) && Ids(rows) !! Ids(es)
    ensures Snapshot(rows + es)
  {
    forall i, j | 0 <= i < |rows| && 0 <= j < |es|
      ensures rows[i].id != es[j].id
    {
      assert rows[i].id in Ids(rows);
    }
  }
}
