/** Whole runs of the directory model: loads, refreshes, suspensions and deliveries in any order. */
module DirectoryRuns {
  import opened Listing
  import opened DirectoryModel

  /** The walk of one generation: what it lists, the rows when it began, and how far it has delivered.
      `cleanly`: its final batch carried no error; `failure`: the last error it carried. */
  datatype Walk = Walk(diff: bool, listing: seq<Entry>, base: seq<Entry>, delivered: nat, over: bool, cleanly: bool,
                       failure: string)

  /** `walks[g - 1]` is the walk of generation g. */
  datatype System = System(m: State, walks: seq<Walk>)

  datatype Step =
    | Load(path: string, listing: seq<Entry>)
    | Refresh(listing: seq<Entry>)
    | Suspend
    | Resume(listing: seq<Entry>)
    | ShutDown
    | InsertPlaceholder
    | RemovePlaceholder
    | Deliver(batch: Batch, from: nat)

  const START := System(DirectoryModel.INITIAL, [])

  ghost predicate NoPlaceholder(m: State) {
    forall i | 0 <= i < |m.rows| :: m.rows[i].id != ""
  }

  /** A walk delivers its listing in order, and all of it before it ends without an error; once told to
      stop it may leave out any part. Nothing follows its last batch. */
  ghost predicate Delivers(s: System, b: Batch, from: nat) {
    && 0 < b.generation <= |s.walks|
    && var w := s.walks[b.generation - 1];
    && b.diff == w.diff && !w.over
    && w.delivered <= from && from + |b.entries| <= |w.listing|
    && b.entries == w.listing[from..from + |b.entries|]
    && (b.generation !in s.m.raised ==>
         from == w.delivered && (b.finished && b.error == "" ==> from + |b.entries| == |w.listing|))
  }

  /** No directory has the empty path, so a walk of it has nothing to list. */
  ghost predicate Enabled(s: System, step: Step) {
    match step
    case Load(path, listing) => Snapshot(listing) && (path == "" ==> listing == [])
    case Refresh(listing) => Snapshot(listing)
    case Resume(listing) => Snapshot(listing) && NoPlaceholder(s.m)
    case InsertPlaceholder => s.m.suspended && NoPlaceholder(s.m)
    case Deliver(b, from) => Delivers(s, b, from)
    case _ => true
  }

  /** A call that raised the generation began a walk. */
  ghost function Began(s: System, m: State, diff: bool, listing: seq<Entry>): System {
    System(m, if m.generation == s.m.generation then s.walks
              else s.walks + [Walk(diff, listing, m.rows, 0, false, false, "")])
  }

  ghost function WithoutPlaceholder(m: State): State {
    if m.rows != [] && m.rows[|m.rows| - 1].id == "" then m.(rows := m.rows[..|m.rows| - 1]) else m
  }

  ghost function Taken(w: Walk, b: Batch, from: nat): Walk {
    w.(delivered := from + |b.entries|, over := b.finished, cleanly := b.finished && b.error == "",
       failure := if b.error != "" then b.error else w.failure)
  }

  ghost function Next(s: System, step: Step): System
    requires Enabled(s, step)
  {
    match step
    case Load(path, listing) => Began(s, DirectoryModel.Load(s.m, path), false, listing)
    case Refresh(listing) => Began(s, DirectoryModel.Refresh(s.m), true, listing)
    case Suspend => s.(m := DirectoryModel.Suspend(s.m))
    case Resume(listing) => Began(s, DirectoryModel.Resume(s.m), true, listing)
    case ShutDown => s.(m := DirectoryModel.ShutDown(s.m))
    case InsertPlaceholder => s.(m := s.m.(rows := s.m.rows + [PLACEHOLDER]))
    case RemovePlaceholder => s.(m := WithoutPlaceholder(s.m))
    case Deliver(b, from) =>
      System(Apply(s.m, b), s.walks[b.generation - 1 := Taken(s.walks[b.generation - 1], b, from)])
  }

  ghost predicate Legal(s: System, steps: seq<Step>)
    decreases |steps|
  {
    steps == [] || (Enabled(s, steps[0]) && Legal(Next(s, steps[0]), steps[1..]))
  }

  ghost function Run(s: System, steps: seq<Step>): System
    requires Legal(s, steps)
    decreases |steps|
  {
    if steps == [] then s else Run(Next(s, steps[0]), steps[1..])
  }

  /** The rows of a model whose current walk has delivered this much. */
  ghost function Shown(w: Walk): seq<Entry>
    requires w.delivered <= |w.listing|
  {
    var taken := w.listing[..w.delivered];
    if !w.diff then taken
    else if w.cleanly then Kept(Merged(w.base, taken), Ids(taken))
    else Merged(w.base, taken)
  }

  ghost predicate WalkOk(w: Walk) {
    && Snapshot(w.listing) && Snapshot(w.base) && w.delivered <= |w.listing|
    && (w.cleanly ==> w.over)
    && (!w.diff ==> w.base == [])
  }

  /** The newest walk, unless it has been told to stop, is what the rows show. */
  ghost predicate Current(m: State, w: Walk) {
    && WalkOk(w)
    && (m.generation !in m.raised ==>
         && m.rows == Shown(w)
         && (w.diff && !w.over ==> m.seen == Ids(w.listing[..w.delivered])))
    && (!w.diff ==> Ids(m.rows) !! Ids(w.listing[w.delivered..]))
  }

  ghost predicate Inv(s: System) {
    && RowsOk(s.m)
    && |s.walks| == s.m.generation
    && (forall i | 0 <= i < |s.walks| :: WalkOk(s.walks[i]))
    && (forall g | g in s.m.raised :: g <= s.m.generation)
    && (s.m.generation == 0 ==> s.m.path == "")
    && (s.m.suspended || s.m.stopping ==> s.m.generation in s.m.raised)
    && (!s.m.suspended && !s.m.stopping && s.m.path != "" ==> s.m.generation !in s.m.raised)
    && (s.m.generation > 0 ==> Current(s.m, s.walks[s.m.generation - 1]))
    && (s.m.generation > 0 && s.m.path == "" ==> NothingListed(s.m, s.walks[s.m.generation - 1]))
  }

  /** What there is to see of the empty path, a placeholder aside. */
  ghost predicate NothingListed(m: State, w: Walk) {
    !w.diff && w.listing == [] && forall i | 0 <= i < |m.rows| :: m.rows[i].id == ""
  }

  lemma SliceSnapshot(es: seq<Entry>, a: nat, b: nat)
    requires Snapshot(es) && a <= b <= |es|
    ensures Snapshot(es[a..b]) && Ids(es[a..b]) !! Ids(es[b..])
    ensures Ids(es[a..b]) <= Ids(es[a..]) && Ids(es[b..]) <= Ids(es[a..])
  {
    IdsWithin(es[a..b], es[a..], 0);
    IdsWithin(es[b..], es[a..], b - a);
  }

  lemma IdsWithin(part: seq<Entry>, es: seq<Entry>, at: nat)
    requires at + |part| <= |es| && part == es[at..at + |part|]
    ensures Ids(part) <= Ids(es)
  {
    forall i | 0 <= i < |part|
      ensures part[i].id in Ids(es)
    {
      assert es[at + i] == part[i];
    }
  }

  lemma IdsConcat(a: seq<Entry>, b: seq<Entry>)
    ensures Ids(a + b) == Ids(a) + Ids(b)
  {
    IdsWithin(a, a + b, 0);
    IdsWithin(b, a + b, |a|);
  }

  /** What is still to come of a load is not shown yet. */
  lemma LoadedIsNew(s: System, b: Batch, from: nat)
    requires Inv(s) && Delivers(s, b, from) && b.generation == s.m.generation && !b.diff
    ensures Ids(s.m.rows) !! Ids(b.entries)
  {
    var w := s.walks[b.generation - 1];
    SliceSnapshot(w.listing, w.delivered, from);
    SliceSnapshot(w.listing, from, from + |b.entries|);
  }

  /** What the class demands of a delivery, every run provides. */
  lemma DeliveryIsWellFormed(s: System, b: Batch, from: nat)
    requires Inv(s) && Delivers(s, b, from)
    ensures Snapshot(b.entries)
    ensures b.generation == s.m.generation && !b.diff ==> Ids(s.m.rows) !! Ids(b.entries)
  {
    SliceSnapshot(s.walks[b.generation - 1].listing, from, from + |b.entries|);
    if b.generation == s.m.generation && !b.diff {
      LoadedIsNew(s, b, from);
    }
  }

  lemma BeganKeepsInv(s: System, m: State, diff: bool, listing: seq<Entry>)
    requires Inv(s) && Snapshot(listing)
    requires m.generation == s.m.generation + 1 && m.raised == s.m.raised + {s.m.generation}
    requires Snapshot(m.rows) && m.seen == {} && !m.suspended && !m.stopping && (!diff ==> m.rows == [])
    requires m.path == "" ==> !diff && listing == []
    ensures Inv(Began(s, m, diff, listing))
  {
    var w := Walk(diff, listing, m.rows, 0, false, false, "");
    assert listing[..0] == [];
    assert Shown(w) == m.rows;
  }

  lemma {:induction false} RefreshShows(m: State, w: Walk, b: Batch, before: seq<Entry>, taken: seq<Entry>)
    requires w.diff && b.diff && !m.suspended && !m.stopping && b.generation == m.generation
    requires w.delivered + |b.entries| <= |w.listing| && taken == w.listing[..w.delivered + |b.entries|]
    requires Merged(m.rows, b.entries) == Merged(w.base, taken)
    requires m.seen == Ids(before) && Ids(before) + Ids(b.entries) == Ids(taken)
    ensures Apply(m, b).rows == Shown(Taken(w, b, w.delivered))
    ensures !b.finished ==> Apply(m, b).seen == Ids(taken)
  {
    var m' := TakeEntries(m, b);
    assert m'.rows == Merged(w.base, taken) && m'.seen == Ids(taken);
    if b.error == "" && b.finished {
      assert Apply(m, b) == Finish(m', true);
      assert Taken(w, b, w.delivered).cleanly;
    } else {
      assert Apply(m, b).rows == m'.rows && Apply(m, b).seen == m'.seen;
      assert !Taken(w, b, w.delivered).cleanly;
    }
  }

  lemma ApplyKeepsGeneration(m: State, b: Batch)
    ensures Apply(m, b).generation == m.generation && Apply(m, b).raised == m.raised
    ensures Apply(m, b).path == m.path && Apply(m, b).suspended == m.suspended && Apply(m, b).stopping == m.stopping
  {
  }

  lemma {:induction false} DeliverKeepsInv(s: System, b: Batch, from: nat)
    requires Inv(s) && Delivers(s, b, from)
    ensures Inv(Next(s, Deliver(b, from)))
  {
    WalksStayOk(s, b, from);
    ApplyKeepsGeneration(s.m, b);
    if b.generation == s.m.generation {
      DeliveryIsWellFormed(s, b, from);
      ApplyKeepsRows(s.m, b);
      DeliverKeepsCurrent(s, b, from);
    } else {
      assert Apply(s.m, b) == s.m;
    }
  }

  lemma WalksStayOk(s: System, b: Batch, from: nat)
    requires Inv(s) && Delivers(s, b, from)
    ensures var walks := s.walks[b.generation - 1 := Taken(s.walks[b.generation - 1], b, from)];
      forall i | 0 <= i < |walks| :: WalkOk(walks[i])
  {
  }

  lemma DeliverKeepsCurrent(s: System, b: Batch, from: nat)
    requires Inv(s) && Delivers(s, b, from) && b.generation == s.m.generation
    ensures Current(Apply(s.m, b), Taken(s.walks[b.generation - 1], b, from))
  {
    var w := s.walks[b.generation - 1];
    if w.diff {
      RefreshStaysCurrent(s.m, w, b, from);
    } else {
      LoadStaysCurrent(s.m, w, b, from);
    }
  }

  /** What `Delivers` says of a walk of the current generation. */
  ghost predicate NextBatch(m: State, w: Walk, b: Batch, from: nat) {
    && b.generation == m.generation && b.diff == w.diff && !w.over
    && w.delivered <= from && from + |b.entries| <= |w.listing|
    && b.entries == w.listing[from..from + |b.entries|]
    && (m.generation !in m.raised ==> from == w.delivered && !m.suspended && !m.stopping)
  }

  lemma {:induction false} RefreshStaysCurrent(m: State, w: Walk, b: Batch, from: nat)
    requires Current(m, w) && NextBatch(m, w, b, from) && w.diff
    ensures Current(Apply(m, b), Taken(w, b, from))
  {
    ApplyKeepsGeneration(m, b);
    assert WalkOk(Taken(w, b, from));
    if m.generation !in m.raised {
      var before, taken := w.listing[..w.delivered], w.listing[..w.delivered + |b.entries|];
      RefreshKeepsCurrent(m, w, b, before, taken);
    }
  }

  lemma {:induction false} LoadStaysCurrent(m: State, w: Walk, b: Batch, from: nat)
    requires Current(m, w) && NextBatch(m, w, b, from) && !w.diff
    ensures Current(Apply(m, b), Taken(w, b, from))
  {
    LoadLeaves(m, w, b, from);
  }

  lemma {:induction false} RefreshKeepsCurrent(m: State, w: Walk, b: Batch, before: seq<Entry>, taken: seq<Entry>)
    requires w.diff && b.diff && !m.suspended && !m.stopping && b.generation == m.generation
    requires m.rows == Merged(w.base, before) && m.seen == Ids(before) && taken == before + b.entries
    requires w.delivered + |b.entries| <= |w.listing| && taken == w.listing[..w.delivered + |b.entries|]
    ensures Apply(m, b).rows == Shown(Taken(w, b, w.delivered))
    ensures !b.finished ==> Apply(m, b).seen == Ids(taken)
  {
    MergedTwice(w.base, before, b.entries);
    IdsConcat(before, b.entries);
    RefreshShows(m, w, b, before, taken);
  }

  lemma {:induction false} LoadLeaves(m: State, w: Walk, b: Batch, from: nat)
    requires WalkOk(w) && !w.diff && !b.diff && Ids(m.rows) !! Ids(w.listing[w.delivered..])
    requires w.delivered <= from && from + |b.entries| <= |w.listing|
    requires b.entries == w.listing[from..from + |b.entries|]
    ensures Ids(Apply(m, b).rows) !! Ids(w.listing[from + |b.entries|..])
  {
    SliceSnapshot(w.listing, w.delivered, from);
    SliceSnapshot(w.listing, from, from + |b.entries|);
    IdsConcat(m.rows, b.entries);
  }

  lemma {:induction false} InsertKeepsInv(s: System)
    requires Inv(s) && Enabled(s, InsertPlaceholder)
    ensures Inv(Next(s, InsertPlaceholder))
  {
    IdsAppend(s.m.rows, PLACEHOLDER);
    if s.m.generation > 0 {
      NoEmptyIdentity(s.walks[s.m.generation - 1]);
    }
  }

  lemma {:induction false} RemoveKeepsInv(s: System)
    requires Inv(s)
    ensures Inv(Next(s, RemovePlaceholder))
  {
    var rows := s.m.rows;
    if rows != [] && rows[|rows| - 1].id == "" {
      IdsWithin(rows[..|rows| - 1], rows, 0);
    } else {
      assert Next(s, RemovePlaceholder) == s;
    }
  }

  lemma NoEmptyIdentity(w: Walk)
    requires WalkOk(w)
    ensures "" !in Ids(w.listing[w.delivered..])
  {
  }

  lemma {:induction false} StepKeepsInv(s: System, step: Step)
    requires Inv(s) && Enabled(s, step)
    ensures Inv(Next(s, step))
  {
    match step
    case Load(path, listing) =>
      if !s.m.stopping {
        BeganKeepsInv(s, DirectoryModel.Load(s.m, path), false, listing);
      }
    case Refresh(listing) =>
      if CanRefresh(s.m) {
        BeganKeepsInv(s, DirectoryModel.Refresh(s.m), true, listing);
      }
    case Resume(listing) =>
      if s.m.suspended && CanRefresh(s.m.(suspended := false)) {
        BeganKeepsInv(s, DirectoryModel.Resume(s.m), true, listing);
      }
    case Suspend =>
    case ShutDown =>
    case InsertPlaceholder => InsertKeepsInv(s);
    case RemovePlaceholder => RemoveKeepsInv(s);
    case Deliver(b, from) => DeliverKeepsInv(s, b, from);
  }

  lemma {:induction false} RunKeepsInv(s: System, steps: seq<Step>)
    requires Inv(s) && Legal(s, steps)
    ensures Inv(Run(s, steps))
    decreases |steps|
  {
    if steps != [] {
      StepKeepsInv(s, steps[0]);
      RunKeepsInv(Next(s, steps[0]), steps[1..]);
    }
  }

  ghost predicate Reachable(s: System) {
    exists steps :: Legal(START, steps) && Run(START, steps) == s
  }

  lemma ReachableInv(s: System)
    requires Reachable(s)
    ensures Inv(s)
  {
    var steps :| Legal(START, steps) && Run(START, steps) == s;
    RunKeepsInv(START, steps);
  }

  /** The rows are exactly the entries of the walk. A load shows them in the order of the walk; a refresh
      keeps the rows that are still there, in their order, with the walk's details, and puts the new ones
      behind them. */
  ghost predicate ShowsAll(rows: seq<Entry>, w: Walk) {
    && multiset(rows) == multiset(w.listing) && Distinct(rows)
    && rows == if w.diff then Retained(w.base, w.listing) + Added(w.listing, Ids(w.base)) else w.listing
  }

  /** Whatever came before, when the walk of the shown directory ends without an error, it is shown. */
  lemma FinishedWalkIsShown(s: System, b: Batch, from: nat)
    requires Reachable(s) && Delivers(s, b, from) && b.finished && b.error == ""
    requires b.generation == s.m.generation && !s.m.suspended && !s.m.stopping
    ensures ShowsAll(Next(s, Deliver(b, from)).m.rows, s.walks[b.generation - 1])
  {
    ReachableInv(s);
    if s.m.path == "" {
      LastOfNothing(s, b, from);
    } else {
      LastBatch(s, b, from);
    }
    assert Next(s, Deliver(b, from)).m == Apply(s.m, b);
  }

  lemma {:induction false} LastBatch(s: System, b: Batch, from: nat)
    requires Inv(s) && Delivers(s, b, from) && b.finished && b.error == ""
    requires b.generation == s.m.generation && !s.m.suspended && !s.m.stopping && s.m.path != ""
    ensures ShowsAll(Apply(s.m, b).rows, s.walks[b.generation - 1])
  {
    DeliverKeepsCurrent(s, b, from);
    WholeWalk(Taken(s.walks[b.generation - 1], b, from));
  }

  lemma LastOfNothing(s: System, b: Batch, from: nat)
    requires Inv(s) && Delivers(s, b, from) && b.generation == s.m.generation && s.m.path == ""
    requires !s.m.suspended && !s.m.stopping
    ensures ShowsAll(Apply(s.m, b).rows, s.walks[b.generation - 1])
  {
    var w := s.walks[b.generation - 1];
    assert NothingListed(s.m, w);
    if s.m.rows != [] {
      RealRows(s.m);
      assert false;
    }
    assert w.listing == [];
  }

  lemma RealRows(m: State)
    requires RowsOk(m) && !m.suspended && m.rows != []
    ensures m.rows[0].id != ""
  {
  }

  lemma {:induction false} WholeWalk(w: Walk)
    requires WalkOk(w) && w.delivered == |w.listing| && w.cleanly
    ensures ShowsAll(Shown(w), w)
  {
    assert w.listing[..|w.listing|] == w.listing;
    if w.diff {
      RefreshRefinesReload(w.base, w.listing);
      RefreshShape(w.base, w.listing);
    }
  }

  /** Until a refresh ends cleanly, and for good when it fails, every row of before is still at its index. */
  lemma UnfinishedRefreshRemovesNothing(s: System, w: Walk)
    requires Reachable(s) && !s.m.suspended && !s.m.stopping
    requires s.m.generation == |s.walks| > 0 && w == s.walks[s.m.generation - 1] && !w.cleanly
    ensures |s.m.rows| >= |w.base| && forall i | 0 <= i < |w.base| :: s.m.rows[i].id == w.base[i].id
  {
    ReachableInv(s);
    if s.m.path != "" {
      MergedKeepsPlaces(w.base, w.listing[..w.delivered]);
    }
  }

  /** Resuming begins a new walk in place of the stopped one exactly when the model was suspended, has a path and is
      not shutting down; it never touches the rows. */
  lemma ResumeStartsAnew(s: System, listing: seq<Entry>)
    requires Reachable(s) && Enabled(s, Resume(listing))
    ensures var s' := Next(s, Resume(listing));
      && s'.m.rows == s.m.rows && s'.m.path == s.m.path && !s'.m.suspended
      && if s.m.suspended && !s.m.stopping && s.m.path != "" then
           |s'.walks| == |s.walks| + 1 == s'.m.generation && s'.m.generation !in s'.m.raised && s'.m.scanning
         else s'.walks == s.walks && s'.m == s.m.(suspended := false)
    ensures s.m.suspended && !s.m.stopping ==>
      (Next(s, Resume(listing)).m.generation !in Next(s, Resume(listing)).m.raised <==> s.m.path != "")
  {
    ReachableInv(s);
    StepKeepsInv(s, Resume(listing));
  }

  /** The window is told that the directory is being read exactly while the newest walk is under way, and of the
      error it met exactly if it met one. */
  ghost predicate Honest(s: System) {
    if s.m.generation == 0 || |s.walks| != s.m.generation then !s.m.scanning && s.m.error == ""
    else
      var w, going := s.walks[s.m.generation - 1], s.m.generation !in s.m.raised;
      (s.m.scanning <==> going && !w.over && w.failure == "") && (going ==> s.m.error == w.failure)
  }

  lemma {:induction false} BeganIsHonest(s: System, m: State, diff: bool, listing: seq<Entry>)
    requires |s.walks| == s.m.generation && m.generation == s.m.generation + 1
    requires m.scanning && m.error == "" && m.generation !in m.raised
    ensures Honest(Began(s, m, diff, listing))
  {
  }

  lemma {:induction false} DeliverIsHonest(s: System, b: Batch, from: nat)
    requires Inv(s) && Honest(s) && Delivers(s, b, from)
    ensures Honest(Next(s, Deliver(b, from)))
  {
    ApplyKeepsGeneration(s.m, b);
  }

  lemma {:induction false} StepIsHonest(s: System, step: Step)
    requires Inv(s) && Honest(s) && Enabled(s, step)
    ensures Honest(Next(s, step))
  {
    match step
    case Load(path, listing) =>
      if !s.m.stopping {
        BeganIsHonest(s, DirectoryModel.Load(s.m, path), false, listing);
      }
    case Refresh(listing) =>
      if CanRefresh(s.m) {
        BeganIsHonest(s, DirectoryModel.Refresh(s.m), true, listing);
      }
    case Resume(listing) =>
      if s.m.suspended && CanRefresh(s.m.(suspended := false)) {
        BeganIsHonest(s, DirectoryModel.Resume(s.m), true, listing);
      }
    case Deliver(b, from) => DeliverIsHonest(s, b, from);
    case _ =>
  }

  /** In every run. */
  lemma {:induction false} ProgressIsHonest(s: System, steps: seq<Step>)
    requires Inv(s) && Honest(s) && Legal(s, steps)
    ensures Honest(Run(s, steps))
    decreases |steps|
  {
    if steps != [] {
      StepKeepsInv(s, steps[0]);
      StepIsHonest(s, steps[0]);
      ProgressIsHonest(Next(s, steps[0]), steps[1..]);
    }
  }

  lemma StartsHonest(steps: seq<Step>)
    requires Legal(START, steps)
    ensures Honest(Run(START, steps))
  {
    ProgressIsHonest(START, steps);
  }
}
