/** Editing a name in the listing and searching it: the parts of the window that must stay in step. */
module Editing {
  import opened Listing
  import opened DirectoryModel
  import opened VimMode
  import P = ProxyOrder

  /** `editing` locks the order of the rows; `pin` is how the proxy places the placeholder; `active` its row. */
  datatype Lock = Lock(editing: bool, pin: P.Pin, active: int)

  const UNLOCKED := Lock(false, P.NO_PIN, -1)

  /** `listed` and `searched` are the revisions of the listing and of the search results. */
  datatype Editor = Editor(vim: Vim, lock: Lock, model: State, names: seq<string>, listed: nat, searched: nat)

  datatype Outcome = Invalid | Failed | Succeeded

  const START := Editor(VimMode.INITIAL, UNLOCKED, DirectoryModel.INITIAL, [], 0, 0)

  // ----- the operations -----

  /** The shown rows changed. While searching, the results follow at once; nothing can stay selected in an
      empty listing. */
  ghost function Listed(fuzzy: Matcher, e: Editor, names: seq<string>): Editor {
    var e' := e.(names := names, listed := e.listed + 1);
    if e.vim.mode == Visual && names == [] then e'.(vim := e.vim.(mode := Normal))
    else if e.vim.mode != Search then e'
    else e'.(searched := e'.listed, vim := e.vim.(found := Results(fuzzy, e.vim.query, names)))
  }

  ghost function EnsureCurrent(fuzzy: Matcher, e: Editor): Editor {
    if e.searched == e.listed then e
    else e.(searched := e.listed, vim := e.vim.(found := Results(fuzzy, ActiveQuery(e.vim), e.names)))
  }

  /** No row moves while a name is edited. */
  function Held(e: Editor): Editor {
    e.(lock := e.lock.(editing := true), model := Suspend(e.model))
  }

  function BeginRename(e: Editor, kind: InsertKind, onRow: bool): Editor {
    if !onRow then e
    else Held(e).(vim := e.vim.(mode := Insert, kind := kind))
  }

  /** The placeholder's sort key is that of the anchor, the row under the cursor; -1 when no row is shown. */
  function PinFor(m: State, kind: InsertKind, anchor: int): P.Pin
    requires anchor < |m.rows|
  {
    if anchor < 0 then P.Pin(|m.rows|, "", false, kind == CreateBelow)
    else P.Pin(|m.rows|, m.rows[anchor].name, m.rows[anchor].isDir, kind == CreateBelow)
  }

  /** The placeholder stands behind the rows, on the asked side of the row under the cursor; without such a row it
      has no anchor. */
  ghost predicate PinnedTo(pin: P.Pin, rows: seq<Entry>, kind: InsertKind, anchor: int) {
    && P.Pinned(pin, rows) && pin.below == (kind == CreateBelow)
    && if anchor >= 0 then P.Anchored(pin, rows, anchor) else pin.anchorName == "" && !pin.anchorIsDir
  }

  ghost function BeginCreate(fuzzy: Matcher, e: Editor, kind: InsertKind, anchor: int, names: seq<string>): Editor
    requires anchor < |e.model.rows|
  {
    var held, row := Held(e), |e.model.rows|;
    var pinned := held.(lock := held.lock.(pin := PinFor(e.model, kind, anchor)));
    var shown := Listed(fuzzy, pinned.(model := held.model.(rows := held.model.rows + [PLACEHOLDER])), names);
    shown.(lock := shown.lock.(active := row), vim := shown.vim.(mode := Insert, kind := kind))
  }

  function Removed(m: State, row: int): State {
    if 0 <= row < |m.rows| && m.rows[row].id == "" then m.(rows := m.rows[..row]) else m
  }

  ghost function DropPlaceholder(fuzzy: Matcher, e: Editor, names: seq<string>): Editor {
    if e.lock.active < 0 then e
    else
      var model := Removed(e.model, e.lock.active);
      var e' := if model == e.model then e else Listed(fuzzy, e.(model := model), names);
      e'.(lock := e.lock.(pin := P.NO_PIN, active := -1))
  }

  ghost function EndInsert(e: Editor): Editor {
    e.(lock := e.lock.(editing := false), model := Resume(e.model))
  }

  ghost function CommitInsert(fuzzy: Matcher, e: Editor, outcome: Outcome, names: seq<string>): Editor {
    if e.vim.mode != Insert || outcome != Succeeded then e
    else
      var e' := e.(vim := e.vim.(mode := Normal));
      EndInsert(if IsCreate(e.vim.kind) then DropPlaceholder(fuzzy, e', names) else e')
  }

  ghost function CancelInsert(fuzzy: Matcher, e: Editor, names: seq<string>): Editor {
    EndInsert(DropPlaceholder(fuzzy, e.(vim := e.vim.(mode := Normal)), names))
  }

  function EnterSearch(e: Editor, row: int): Editor {
    e.(vim := e.vim.(mode := Search, preRow := row, query := "", found := Found([], -1)))
  }

  ghost function UpdateQuery(fuzzy: Matcher, e: Editor, query: string): Editor {
    if e.vim.mode != Search then e
    else e.(searched := e.listed, vim := e.vim.(query := query, found := Results(fuzzy, query, e.names)))
  }

  function CommitSearch(e: Editor): Editor {
    e.(vim := e.vim.(mode := Normal, committed := e.vim.query, query := ""))
  }

  /** The results belonged to the cancelled query. */
  function CancelSearch(e: Editor): Editor {
    e.(listed := e.listed + 1, vim := e.vim.(mode := Normal, query := "", found := Found([], -1), preRow := -1))
  }

  ghost function Reset(fuzzy: Matcher, e: Editor, names: seq<string>): Editor {
    var dropped := DropPlaceholder(fuzzy, e.(vim := e.vim.(mode := Normal)), names);
    dropped.(lock := dropped.lock.(editing := false), listed := dropped.listed + 1,
             vim := dropped.vim.(mode := Normal, query := "", committed := "", found := Found([], -1), preRow := -1))
  }

  ghost function Navigate(fuzzy: Matcher, e: Editor, path: string, names: seq<string>): Editor {
    var reset := Reset(fuzzy, e, names);
    if e.model.stopping then reset else Listed(fuzzy, reset.(model := Load(reset.model, path)), [])
  }

  /** A delivery of a walk; unchanged rows are not announced. */
  ghost function Delivered(fuzzy: Matcher, e: Editor, b: Batch, names: seq<string>): Editor {
    var model := Apply(e.model, b);
    if model.rows == e.model.rows then e.(model := model) else Listed(fuzzy, e.(model := model), names)
  }

  /** Another order or another choice of rows; refused while a name is edited. */
  ghost function Rearranged(fuzzy: Matcher, e: Editor, names: seq<string>): Editor {
    if e.vim.mode == Insert || e.lock.editing then e else Listed(fuzzy, e, names)
  }

  // ----- what must stay in step -----

  ghost predicate NoPlaceholder(m: State) {
    forall i | 0 <= i < |m.rows| :: m.rows[i].id != ""
  }

  /** The placeholder is the last row, and pinned to its anchor if it has one; or there is none. */
  ghost predicate Placed(l: Lock, m: State) {
    if l.active < 0 then l.active == -1 && l.pin == P.NO_PIN && NoPlaceholder(m)
    else
      && l.pin.row == l.active == |m.rows| - 1 && m.rows[l.active].id == ""
      && (l.pin.anchorName != "" || l.pin.anchorIsDir ==>
           exists r | 0 <= r < l.active :: P.Anchored(l.pin, m.rows[..l.active], r))
  }

  ghost predicate Creating(e: Editor) {
    && (e.lock.active >= 0 <==> e.vim.mode == Insert && IsCreate(e.vim.kind))
    && (e.lock.active >= 0 ==> e.lock.pin.below == (e.vim.kind == CreateBelow))
  }

  /** A name is being edited exactly when the rows are locked and the listing is suspended, and there is a
      placeholder, as the last row and pinned, exactly when a new entry is being named. */
  ghost predicate Locked(e: Editor) {
    && (e.vim.mode == Insert <==> e.lock.editing) && (e.lock.editing <==> e.model.suspended)
    && Creating(e) && Placed(e.lock, e.model)
  }

  /** Results of the listing's revision are those of the active query among the names shown. */
  ghost predicate Agrees(fuzzy: Matcher, e: Editor) {
    e.searched == e.listed ==> e.vim.found == Results(fuzzy, ActiveQuery(e.vim), e.names)
  }

  ghost predicate InStep(fuzzy: Matcher, e: Editor) {
    (!e.model.stopping ==> Locked(e)) && Agrees(fuzzy, e)
  }

  ghost predicate Inv(fuzzy: Matcher, e: Editor) {
    && InStep(fuzzy, e) && RowsOk(e.model)
    && (e.vim.mode == Insert <==> e.lock.editing)
    && Creating(e) && Placed(e.lock, e.model)
    && e.searched <= e.listed && (e.vim.mode != Search ==> e.vim.query == "")
  }

  datatype Step =
    | StartRename(kind: InsertKind, onRow: bool)
    | StartCreate(kind: InsertKind, anchor: int, names: seq<string>)
    | FinishInsert(outcome: Outcome, names: seq<string>)
    | AbandonInsert(names: seq<string>)
    | StartSearch(row: int)
    | Type(query: string)
    | FinishSearch
    | AbandonSearch
    | JumpToMatch
    | StartVisual
    | EndVisual
    | Open(path: string, names: seq<string>)
    | Refreshed
    | Deliver(batch: Batch, names: seq<string>)
    | Rearrange(names: seq<string>)
    | SwitchView
    | ShutDown

  /** Keys reach these commands only in the mode they belong to, and the text fields that finish or abandon an
      insert or a search are shown only in theirs. */
  ghost predicate Enabled(e: Editor, step: Step) {
    match step
    case StartRename(kind, _) => e.vim.mode == Normal && !IsCreate(kind)
    case StartCreate(kind, anchor, _) => e.vim.mode == Normal && IsCreate(kind) && anchor < |e.model.rows|
    case StartSearch(_) => e.vim.mode == Normal
    case StartVisual => e.vim.mode == Normal
    case EndVisual => e.vim.mode == Visual
    case JumpToMatch => e.vim.mode == Normal
    case SwitchView => e.vim.mode == Normal
    case FinishSearch => e.vim.mode == Search
    case AbandonSearch => e.vim.mode == Search
    case AbandonInsert(_) => e.vim.mode == Insert
    case Deliver(b, _) =>
      Snapshot(b.entries) && (b.generation == e.model.generation && !b.diff ==> Ids(e.model.rows) !! Ids(b.entries))
    case _ => true
  }

  ghost function Next(fuzzy: Matcher, e: Editor, step: Step): Editor
    requires Enabled(e, step)
  {
    match step
    case StartRename(kind, onRow) => BeginRename(e, kind, onRow)
    case StartCreate(kind, anchor, names) => BeginCreate(fuzzy, e, kind, anchor, names)
    case FinishInsert(outcome, names) => CommitInsert(fuzzy, e, outcome, names)
    case AbandonInsert(names) => CancelInsert(fuzzy, e, names)
    case StartSearch(row) => EnterSearch(e, row)
    case Type(query) => UpdateQuery(fuzzy, e, query)
    case FinishSearch => CommitSearch(e)
    case AbandonSearch => CancelSearch(e)
    case JumpToMatch => EnsureCurrent(fuzzy, e)
    case StartVisual => e.(vim := e.vim.(mode := Visual))
    case EndVisual => e.(vim := e.vim.(mode := Normal))
    case Open(path, names) => Navigate(fuzzy, e, path, names)
    case Refreshed => e.(model := Refresh(e.model))
    case Deliver(b, names) => Delivered(fuzzy, e, b, names)
    case Rearrange(names) => Rearranged(fuzzy, e, names)
    case SwitchView => e.(listed := e.listed + 1)
    case ShutDown => e.(model := DirectoryModel.ShutDown(e.model))
  }

  /** Dropping the placeholder leaves the other rows, and either nothing was announced or all results are out
      of date. */
  lemma {:induction false} DropRemovesIt(fuzzy: Matcher, e: Editor, names: seq<string>)
    requires Distinct(e.model.rows) && Placed(e.lock, e.model) && e.searched <= e.listed && e.vim.mode == Normal
    requires forall i | 0 <= i < |e.model.rows| - 1 :: e.model.rows[i].id != ""
    ensures var e' := DropPlaceholder(fuzzy, e, names);
      && Snapshot(e'.model.rows) && e'.model == e.model.(rows := e'.model.rows)
      && e'.lock == Lock(e.lock.editing, P.NO_PIN, -1) && e'.vim == e.vim
      && e'.searched <= e'.listed
      && (e'.listed == e.listed ==> e'.names == e.names && e'.searched == e.searched)
      && (e'.listed != e.listed ==> e'.searched < e'.listed)
  {
  }

  lemma {:induction false} CancelInsertKeepsInv(fuzzy: Matcher, e: Editor, names: seq<string>)
    requires Inv(fuzzy, e) && e.vim.mode != Search
    ensures Inv(fuzzy, CancelInsert(fuzzy, e, names))
  {
    DropRemovesIt(fuzzy, e.(vim := e.vim.(mode := Normal)), names);
  }

  lemma {:induction false} CommitInsertKeepsInv(fuzzy: Matcher, e: Editor, outcome: Outcome, names: seq<string>)
    requires Inv(fuzzy, e)
    ensures Inv(fuzzy, CommitInsert(fuzzy, e, outcome, names))
  {
    if e.vim.mode == Insert {
      DropRemovesIt(fuzzy, e.(vim := e.vim.(mode := Normal)), names);
    }
  }

  lemma {:induction false} NavigateKeepsInv(fuzzy: Matcher, e: Editor, path: string, names: seq<string>)
    requires Inv(fuzzy, e)
    ensures Inv(fuzzy, Navigate(fuzzy, e, path, names))
  {
    DropRemovesIt(fuzzy, e.(vim := e.vim.(mode := Normal)), names);
  }

  lemma {:induction false} BeginCreateKeepsInv(fuzzy: Matcher, e: Editor, kind: InsertKind, anchor: int,
                                                names: seq<string>)
    requires Inv(fuzzy, e) && e.vim.mode == Normal && IsCreate(kind) && anchor < |e.model.rows|
    ensures Inv(fuzzy, BeginCreate(fuzzy, e, kind, anchor, names))
  {
    var rows, row := e.model.rows, |e.model.rows|;
    assert (rows + [PLACEHOLDER])[..row] == rows;
    if anchor >= 0 {
      assert P.Anchored(PinFor(e.model, kind, anchor), rows, anchor);
    }
  }

  lemma {:induction false} DeliverKeepsInv(fuzzy: Matcher, e: Editor, b: Batch, names: seq<string>)
    requires Inv(fuzzy, e) && Enabled(e, Deliver(b, names))
    ensures Inv(fuzzy, Delivered(fuzzy, e, b, names))
  {
    ApplyKeepsRows(e.model, b);
  }

  lemma {:induction false} StepKeepsInv(fuzzy: Matcher, e: Editor, step: Step)
    requires Inv(fuzzy, e) && Enabled(e, step)
    ensures Inv(fuzzy, Next(fuzzy, e, step))
  {
    match step
    case StartCreate(kind, anchor, names) => BeginCreateKeepsInv(fuzzy, e, kind, anchor, names);
    case FinishInsert(outcome, names) => CommitInsertKeepsInv(fuzzy, e, outcome, names);
    case AbandonInsert(names) => CancelInsertKeepsInv(fuzzy, e, names);
    case Open(path, names) => NavigateKeepsInv(fuzzy, e, path, names);
    case Deliver(b, names) => DeliverKeepsInv(fuzzy, e, b, names);
    case StartSearch(_) => NothingForNoQuery(fuzzy, e.names);
    case _ =>
  }

  ghost predicate Legal(fuzzy: Matcher, e: Editor, steps: seq<Step>)
    decreases |steps|
  {
    steps == [] || (Enabled(e, steps[0]) && Legal(fuzzy, Next(fuzzy, e, steps[0]), steps[1..]))
  }

  ghost function Run(fuzzy: Matcher, e: Editor, steps: seq<Step>): Editor
    requires Legal(fuzzy, e, steps)
    decreases |steps|
  {
    if steps == [] then e else Run(fuzzy, Next(fuzzy, e, steps[0]), steps[1..])
  }

  /** After every run: until shutdown begins the edit lock holds, and search results of the current revision
      are those of a fresh search. */
  lemma {:induction false} RunStaysInStep(fuzzy: Matcher, e: Editor, steps: seq<Step>)
    requires Inv(fuzzy, e) && Legal(fuzzy, e, steps)
    ensures Inv(fuzzy, Run(fuzzy, e, steps)) && InStep(fuzzy, Run(fuzzy, e, steps))
    decreases |steps|
  {
    if steps != [] {
      StepKeepsInv(fuzzy, e, steps[0]);
      RunStaysInStep(fuzzy, Next(fuzzy, e, steps[0]), steps[1..]);
    }
  }

  lemma StartsInStep(fuzzy: Matcher, steps: seq<Step>)
    requires Legal(fuzzy, START, steps)
    ensures InStep(fuzzy, Run(fuzzy, START, steps))
  {
    RunStaysInStep(fuzzy, START, steps);
  }

  /** Jumping to a match always looks at fresh results. */
  lemma JumpSeesFreshResults(fuzzy: Matcher, steps: seq<Step>)
    requires Legal(fuzzy, START, steps)
    ensures var e := EnsureCurrent(fuzzy, Run(fuzzy, START, steps));
      e.vim.found == Results(fuzzy, ActiveQuery(e.vim), e.names)
  {
    RunStaysInStep(fuzzy, START, steps);
  }

  // ----- no row moves while a name is edited -----

  /** The name being edited is not left, from here through all the steps. */
  ghost predicate StaysInsert(fuzzy: Matcher, e: Editor, steps: seq<Step>)
    decreases |steps|
  {
    && e.vim.mode == Insert
    && (steps == [] || (Enabled(e, steps[0]) && StaysInsert(fuzzy, Next(fuzzy, e, steps[0]), steps[1..])))
  }

  /** The same rows, in the same order, under the same lock. */
  ghost predicate SameRows(e: Editor, e': Editor) {
    && e'.model.rows == e.model.rows && e'.names == e.names && e'.lock == e.lock
    && e'.vim.kind == e.vim.kind
  }

  lemma {:induction false} RowsAreHeld(fuzzy: Matcher, e: Editor, steps: seq<Step>)
    requires Inv(fuzzy, e) && StaysInsert(fuzzy, e, steps) && Legal(fuzzy, e, steps)
    ensures SameRows(e, Run(fuzzy, e, steps)) && Run(fuzzy, e, steps).vim.mode == Insert
    decreases |steps|
  {
    if steps != [] {
      StepKeepsInv(fuzzy, e, steps[0]);
      RowsAreHeld(fuzzy, Next(fuzzy, e, steps[0]), steps[1..]);
    }
  }

  /** From the moment a name is edited to the moment it is not, whatever is delivered or asked for meanwhile, the
      rows stand as they stood, but for the placeholder behind them; and when the edit is committed or abandoned
      they are the rows of before. */
  lemma EditKeepsRows(fuzzy: Matcher, e: Editor, begin: Step, steps: seq<Step>, end: Step)
    requires Inv(fuzzy, e) && Enabled(e, begin) && (begin.StartRename? || begin.StartCreate?)
    requires StaysInsert(fuzzy, Next(fuzzy, e, begin), steps) && Legal(fuzzy, Next(fuzzy, e, begin), steps)
    requires var e2 := Run(fuzzy, Next(fuzzy, e, begin), steps);
      Enabled(e2, end) && (end.FinishInsert? || end.AbandonInsert?) && Next(fuzzy, e2, end).vim.mode != Insert
    ensures var e1, e2 := Next(fuzzy, e, begin), Run(fuzzy, Next(fuzzy, e, begin), steps);
      SameRows(e1, e2) && Next(fuzzy, e2, end).model.rows == e.model.rows
  {
    var e1 := Next(fuzzy, e, begin);
    StepKeepsInv(fuzzy, e, begin);
    RowsAreHeld(fuzzy, e1, steps);
    RunStaysInStep(fuzzy, e1, steps);
  }

  /** The pin is made for the row the cursor is on. */
  lemma CreatePinsToCursor(fuzzy: Matcher, e: Editor, kind: InsertKind, anchor: int, names: seq<string>)
    requires Enabled(e, StartCreate(kind, anchor, names))
    ensures var e' := Next(fuzzy, e, StartCreate(kind, anchor, names));
      && PinnedTo(e'.lock.pin, e.model.rows, kind, anchor) && e'.vim.mode == Insert && e'.vim.kind == kind
  {
  }

  /** From the moment an entry is to be created until its name is committed or abandoned, whatever is delivered or
      asked for meanwhile, the sorted list is the one without the placeholder, with the placeholder directly below
      or directly above the row that was under the cursor, as asked. */
  lemma PlaceholderIsShownBesideAnchor(fuzzy: Matcher, e: Editor, kind: InsertKind, anchor: nat, names: seq<string>,
      steps: seq<Step>, cmp: P.Compare, descending: bool, order: seq<nat>, withIt: seq<nat>, k: nat)
    requires Inv(fuzzy, e) && Enabled(e, StartCreate(kind, anchor, names))
    requires var e1 := Next(fuzzy, e, StartCreate(kind, anchor, names));
      StaysInsert(fuzzy, e1, steps) && Legal(fuzzy, e1, steps)
    requires P.DistinctKeys(e.model.rows) && P.TotalOrder(cmp)
    requires P.Sorted(cmp, P.NO_PIN, descending, e.model.rows, order) && k < |order| && order[k] == anchor
    requires var e2 := Run(fuzzy, Next(fuzzy, e, StartCreate(kind, anchor, names)), steps);
      P.Sorted(cmp, e2.lock.pin, descending, e.model.rows, withIt)
    requires P.Shown(withIt) == P.Shown(order) + {|e.model.rows|}
    ensures var e2 := Run(fuzzy, Next(fuzzy, e, StartCreate(kind, anchor, names)), steps);
      && e2.model.rows == e.model.rows + [PLACEHOLDER]
      && withIt == P.InsertAt(order, if kind == CreateBelow then k + 1 else k, |e.model.rows|)
  {
    var begin := StartCreate(kind, anchor, names);
    var e1 := Next(fuzzy, e, begin);
    CreatePinsToCursor(fuzzy, e, kind, anchor, names);
    StepKeepsInv(fuzzy, e, begin);
    RowsAreHeld(fuzzy, e1, steps);
    P.PlaceholderIsBesideAnchor(cmp, e1.lock.pin, descending, e.model.rows, anchor, order, withIt, k);
  }

  // ----- operations that check no mode -----

  /** A run of the program ends in this state. */
  ghost predicate Reached(fuzzy: Matcher, e: Editor) {
    exists steps :: Legal(fuzzy, START, steps) && Run(fuzzy, START, steps) == e
  }

  lemma {:induction false} RunOn(fuzzy: Matcher, e: Editor, steps: seq<Step>, step: Step)
    requires Legal(fuzzy, e, steps) && Enabled(Run(fuzzy, e, steps), step)
    ensures Legal(fuzzy, e, steps + [step])
    ensures Run(fuzzy, e, steps + [step]) == Next(fuzzy, Run(fuzzy, e, steps), step)
    decreases |steps|
  {
    if steps == [] {
      assert [] + [step] == [step] && [step][1..] == [];
    } else {
      RunOn(fuzzy, Next(fuzzy, e, steps[0]), steps[1..], step);
      assert (steps + [step])[1..] == steps[1..] + [step];
    }
  }

  lemma ReachedNext(fuzzy: Matcher, e: Editor, step: Step)
    requires Reached(fuzzy, e) && Enabled(e, step)
    ensures Reached(fuzzy, Next(fuzzy, e, step))
  {
    var steps :| Legal(fuzzy, START, steps) && Run(fuzzy, START, steps) == e;
    RunOn(fuzzy, START, steps, step);
  }

  lemma ReachedInv(fuzzy: Matcher, e: Editor)
    requires Reached(fuzzy, e)
    ensures Inv(fuzzy, e)
  {
    var steps :| Legal(fuzzy, START, steps) && Run(fuzzy, START, steps) == e;
    RunStaysInStep(fuzzy, START, steps);
  }

  function MatchesAll(): Matcher {
    (query: string, name: string) => Match(true, 0)
  }

  /** A directory is opened. */
  lemma OpenRun() returns (e: Editor)
    ensures Reached(MatchesAll(), e) && !e.model.stopping && e.lock == UNLOCKED && !e.model.suspended
    ensures e.vim == VimMode.INITIAL && e.model.generation == 1 && e.model.rows == []
  {
    var fuzzy := MatchesAll();
    assert Legal(fuzzy, START, []) && Run(fuzzy, START, []) == START;
    ReachedNext(fuzzy, START, Open("/d", []));
    e := Next(fuzzy, START, Open("/d", []));
  }

  /** Its one entry is listed. */
  lemma ListedRun() returns (e: Editor)
    ensures Reached(MatchesAll(), e) && !e.model.stopping && e.lock == UNLOCKED && !e.model.suspended
    ensures e.vim == VimMode.INITIAL && e.names == ["a"] && |e.model.rows| == 1
  {
    var fuzzy, rows := MatchesAll(), [Entry("1", "a", false, 0)];
    var batch := Batch(1, false, rows, true, "");
    e := OpenRun();
    ReachedNext(fuzzy, e, Deliver(batch, ["a"]));
    e := Next(fuzzy, e, Deliver(batch, ["a"]));
    assert e.model.rows == rows;
  }

  /** The cursor is on it, and "a" is typed as a search. */
  lemma SearchRun() returns (e: Editor)
    ensures Reached(MatchesAll(), e) && !e.model.stopping && e.lock == UNLOCKED && !e.model.suspended
    ensures e.vim.mode == Search && e.vim.query == "a" && e.vim.committed == "" && e.vim.found.rows == [0]
    ensures e.names == ["a"] && e.searched == e.listed
  {
    var fuzzy := MatchesAll();
    e := ListedRun();
    ReachedNext(fuzzy, e, StartSearch(0));
    e := Next(fuzzy, e, StartSearch(0));
    ReachedNext(fuzzy, e, Type("a"));
    e := Next(fuzzy, e, Type("a"));
    OneMatch();
  }

  lemma OneMatch()
    ensures MatchRows(MatchesAll(), "a", ["a"]) == [0]
  {
    assert ["a"][..0] == [];
  }

  /** The search is committed, and perhaps Visual mode entered or the name edited. */
  lemma CommittedRun(mode: Mode) returns (e: Editor)
    requires mode != Search
    ensures Reached(MatchesAll(), e) && !e.model.stopping && e.vim.mode == mode
    ensures e.vim.query == "" && e.vim.committed == "a" && e.vim.found.rows == [0] && e.searched == e.listed
  {
    e := SearchRun();
    ReachedNext(MatchesAll(), e, FinishSearch);
    e := Next(MatchesAll(), e, FinishSearch);
    if mode == Visual {
      ReachedNext(MatchesAll(), e, StartVisual);
      e := Next(MatchesAll(), e, StartVisual);
    } else if mode == Insert {
      ReachedNext(MatchesAll(), e, StartRename(Prepend, true));
      e := Next(MatchesAll(), e, StartRename(Prepend, true));
    }
  }

  ghost predicate CommitSearchIsSafe(mode: Mode) {
    forall fuzzy: Matcher, e: Editor ::
      Reached(fuzzy, e) && !e.model.stopping && e.vim.mode == mode ==> InStep(fuzzy, CommitSearch(e))
  }

  /** Committing a search is safe, in every state a run reaches, only while searching: in other modes it forgets
      the committed query but keeps its results, and while a name is edited it leaves the rows locked. */
  lemma CommitSearchNeedsSearch(mode: Mode)
    ensures CommitSearchIsSafe(mode) <==> mode == Search
  {
    if mode == Search {
      forall fuzzy: Matcher, e: Editor | Reached(fuzzy, e) && !e.model.stopping && e.vim.mode == mode
        ensures InStep(fuzzy, CommitSearch(e))
      {
        ReachedInv(fuzzy, e);
      }
    } else {
      var e := CommittedRun(mode);
      NothingForNoQuery(MatchesAll(), e.names);
      assert !InStep(MatchesAll(), CommitSearch(e));
    }
  }

  ghost predicate CancelSearchIsSafe(mode: Mode) {
    forall fuzzy: Matcher, e: Editor ::
      Reached(fuzzy, e) && !e.model.stopping && e.vim.mode == mode ==> InStep(fuzzy, CancelSearch(e))
  }

  /** Abandoning a search is safe except while a name is edited. */
  lemma CancelSearchNeedsNoInsert(mode: Mode)
    ensures CancelSearchIsSafe(mode) <==> mode != Insert
  {
    if mode != Insert {
      forall fuzzy: Matcher, e: Editor | Reached(fuzzy, e) && !e.model.stopping && e.vim.mode == mode
        ensures InStep(fuzzy, CancelSearch(e))
      {
        ReachedInv(fuzzy, e);
      }
    } else {
      var e := CommittedRun(mode);
      ReachedInv(MatchesAll(), e);
      assert !InStep(MatchesAll(), CancelSearch(e));
    }
  }

  ghost predicate CancelInsertIsSafe(mode: Mode) {
    forall fuzzy: Matcher, e: Editor, names: seq<string> ::
      Reached(fuzzy, e) && !e.model.stopping && e.vim.mode == mode ==> InStep(fuzzy, CancelInsert(fuzzy, e, names))
  }

  /** Abandoning an insert while searching leaves the results of the unfinished query behind. */
  lemma CancelInsertNeedsNoSearch(mode: Mode)
    ensures CancelInsertIsSafe(mode) <==> mode != Search
  {
    if mode == Search {
      var e := SearchRun();
      NothingForNoQuery(MatchesAll(), e.names);
      assert !InStep(MatchesAll(), CancelInsert(MatchesAll(), e, []));
    } else {
      forall fuzzy: Matcher, e: Editor, names: seq<string>
        | Reached(fuzzy, e) && !e.model.stopping && e.vim.mode == mode
        ensures InStep(fuzzy, CancelInsert(fuzzy, e, names))
      {
        ReachedInv(fuzzy, e);
        CancelInsertKeepsInv(fuzzy, e, names);
      }
    }
  }
}
