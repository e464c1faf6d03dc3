/** What a run of edits, searches and navigations leaves behind, told from its steps. */
module EditingOutcomes {
  import opened Listing
  import opened DirectoryModel
  import opened VimMode
  import opened Editing

  /** No name is being edited, and nothing of an edit is left. */
  ghost predicate AtRest(e: Editor) {
    e.vim.mode == Normal && e.lock == UNLOCKED && !e.model.suspended && NoPlaceholder(e.model)
  }

  /** The listing is read anew, if there is something to read. */
  ghost predicate RefreshBegun(m: State, m': State) {
    if m.stopping || m.path == "" then m'.generation == m.generation
    else m'.generation == m.generation + 1 && m'.scanning && m'.generation !in m'.raised
  }

  /** A successful commit ends the edit and reads the listing anew; an invalid or a failed one, or one that comes
      when no name is edited, changes nothing. */
  lemma CommitExactly(fuzzy: Matcher, e: Editor, outcome: Outcome, names: seq<string>)
    requires Inv(fuzzy, e) && RaisedAreOld(e.model)
    ensures var e' := Next(fuzzy, e, FinishInsert(outcome, names));
      if e.vim.mode == Insert && outcome == Succeeded then
        && AtRest(e') && (e.model.suspended ==> RefreshBegun(e.model, e'.model))
        && e'.vim == e.vim.(mode := Normal)
      else e' == e
  {
    if e.vim.mode == Insert {
      DropRemovesIt(fuzzy, e.(vim := e.vim.(mode := Normal)), names);
    }
  }

  ghost predicate RaisedAreOld(m: State) {
    forall g | g in m.raised :: g <= m.generation
  }

  /** Abandoning does the same without a commit. */
  lemma AbandonExactly(fuzzy: Matcher, e: Editor, names: seq<string>)
    requires Inv(fuzzy, e) && RaisedAreOld(e.model) && e.vim.mode == Insert
    ensures var e' := Next(fuzzy, e, AbandonInsert(names));
      AtRest(e') && (e.model.suspended ==> RefreshBegun(e.model, e'.model)) && e'.vim == e.vim.(mode := Normal)
  {
    DropRemovesIt(fuzzy, e.(vim := e.vim.(mode := Normal)), names);
  }

  /** Renaming needs a row under the cursor. */
  lemma RenameExactly(fuzzy: Matcher, e: Editor, kind: InsertKind, onRow: bool)
    requires Inv(fuzzy, e) && Enabled(e, StartRename(kind, onRow))
    ensures var e' := Next(fuzzy, e, StartRename(kind, onRow));
      if onRow then
        && e'.vim.mode == Insert && e'.vim.kind == kind && e'.lock.editing && e'.model.suspended
        && e'.model.rows == e.model.rows && e'.model.generation in e'.model.raised
      else e' == e
  {
  }

  /** Steps that announce other rows show the names announced; a delivery that changes no row announces none. */
  lemma AnnouncedNamesAreShown(fuzzy: Matcher, e: Editor, step: Step)
    requires Inv(fuzzy, e) && Enabled(e, step)
    ensures var e' := Next(fuzzy, e, step);
      match step
      case StartCreate(_, _, names) => e'.names == names
      case Deliver(_, names) => e'.names == if e'.model.rows == e.model.rows then e.names else names
      case Rearrange(names) => e'.names == if e.vim.mode == Insert then e.names else names
      case Open(_, _) => !e.model.stopping ==> e'.names == []
      case FinishInsert(outcome, names) =>
        e'.names == if outcome == Succeeded && e.lock.active >= 0 then names else e.names
      case AbandonInsert(names) => e'.names == if e.lock.active >= 0 then names else e.names
      case _ => e'.names == e.names
  {
  }

  /** Rearranging changes the announced names and nothing of the listing; while a name is edited it is refused. */
  lemma RearrangeKeepsModel(fuzzy: Matcher, e: Editor, names: seq<string>)
    requires Inv(fuzzy, e)
    ensures var e' := Next(fuzzy, e, Rearrange(names));
      e'.model == e.model && e'.lock == e.lock && (e.vim.mode == Insert ==> e' == e)
  {
  }

  /** Which mode each step leaves: among them, a visual selection ends by itself exactly when the rows announced are
      none. */
  lemma {:induction false} StepMode(fuzzy: Matcher, e: Editor, step: Step)
    requires Inv(fuzzy, e) && Enabled(e, step)
    ensures var mode, e' := e.vim.mode, Next(fuzzy, e, step);
      e'.vim.mode ==
        match step
        case StartRename(_, onRow) => if onRow then Insert else Normal
        case StartCreate(_, _, _) => Insert
        case FinishInsert(outcome, _) => if mode == Insert && outcome == Succeeded then Normal else mode
        case StartSearch(_) => Search
        case StartVisual => Visual
        case AbandonInsert(_) | FinishSearch | AbandonSearch | EndVisual | Open(_, _) => Normal
        case Deliver(_, names) =>
          if mode == Visual && names == [] && e'.model.rows != e.model.rows then Normal else mode
        case Rearrange(names) => if mode == Visual && names == [] then Normal else mode
        case _ => mode
  {
  }

  /** Committing a search keeps its results; abandoning one drops them, and the row to go back to. Neither touches
      the listing. */
  lemma EndSearchExactly(fuzzy: Matcher, e: Editor, step: Step)
    requires Enabled(e, step) && (step.FinishSearch? || step.AbandonSearch?)
    ensures var e' := Next(fuzzy, e, step);
      && e'.model == e.model && e'.names == e.names && e'.lock == e.lock && e'.vim.query == ""
      && (step.FinishSearch? ==> e'.vim.found == e.vim.found && e'.listed == e.listed && e'.searched == e.searched)
      && (step.AbandonSearch? ==> e'.vim.found == Found([], -1) && e'.vim.preRow == -1)
  {
  }

  /** A refresh asked for reads the listing anew, unless it is held; another view makes the results stale. */
  lemma RefreshAndSwitchExactly(fuzzy: Matcher, e: Editor)
    requires Inv(fuzzy, e) && RaisedAreOld(e.model)
    ensures var e' := Next(fuzzy, e, Refreshed);
      && e'.vim == e.vim && e'.names == e.names && e'.model.rows == e.model.rows
      && if e.model.suspended then e' == e else RefreshBegun(e.model, e'.model)
    ensures e.vim.mode == Normal ==>
      var e' := Next(fuzzy, e, SwitchView);
      && e'.searched < e'.listed && e'.model == e.model && e'.vim == e.vim && e'.names == e.names
  {
  }

  /** While the search field is open its results are at every moment those of what is typed, among the names shown. */
  ghost predicate Live(fuzzy: Matcher, e: Editor) {
    e.vim.mode == Search ==> e.vim.found == Results(fuzzy, e.vim.query, e.names)
  }

  lemma {:induction false} StepIsLive(fuzzy: Matcher, e: Editor, step: Step)
    requires Inv(fuzzy, e) && Live(fuzzy, e) && Enabled(e, step)
    ensures Live(fuzzy, Next(fuzzy, e, step))
  {
    match step
    case StartSearch(_) => NothingForNoQuery(fuzzy, e.names);
    case _ =>
  }

  // ----- from the start -----

  lemma {:induction false} RunSplit(fuzzy: Matcher, e: Editor, steps: seq<Step>)
    requires Legal(fuzzy, e, steps) && steps != []
    ensures var init := steps[..|steps| - 1];
      && Legal(fuzzy, e, init) && Enabled(Run(fuzzy, e, init), steps[|steps| - 1])
      && Run(fuzzy, e, steps) == Next(fuzzy, Run(fuzzy, e, init), steps[|steps| - 1])
    decreases |steps|
  {
    var init := steps[..|steps| - 1];
    if |steps| > 1 {
      RunSplit(fuzzy, Next(fuzzy, e, steps[0]), steps[1..]);
      assert steps[1..][..|steps| - 2] == init[1..] && init[0] == steps[0];
    } else {
      assert init == [] && steps[1..] == [];
    }
  }

  /** What the user has typed since the search field was opened. */
  function Typed(steps: seq<Step>): string
    decreases |steps|
  {
    if steps == [] then ""
    else
      match steps[|steps| - 1]
      case Type(query) => query
      case StartSearch(_) => ""
      case _ => Typed(steps[..|steps| - 1])
  }

  /** Where the cursor was when the search field was opened last. */
  function SearchedFrom(steps: seq<Step>): int
    decreases |steps|
  {
    if steps == [] then -1
    else if steps[|steps| - 1].StartSearch? then steps[|steps| - 1].row
    else SearchedFrom(steps[..|steps| - 1])
  }

  /** What was typed when a search was last committed, since a directory was last opened. */
  function Committed(steps: seq<Step>): string
    decreases |steps|
  {
    if steps == [] then ""
    else
      match steps[|steps| - 1]
      case FinishSearch => Typed(steps[..|steps| - 1])
      case Open(_, _) => ""
      case _ => Committed(steps[..|steps| - 1])
  }

  predicate Stopped(steps: seq<Step>) {
    exists i | 0 <= i < |steps| :: steps[i].ShutDown?
  }

  /** The directory opened last, before the window was closed. */
  function Opened(steps: seq<Step>): string
    decreases |steps|
  {
    if steps == [] then ""
    else
      var init, last := steps[..|steps| - 1], steps[|steps| - 1];
      if last.Open? && !Stopped(init) then last.path else Opened(init)
  }

  /** The state agrees with what the steps say. */
  ghost predicate Remembers(e: Editor, steps: seq<Step>) {
    && e.vim.committed == Committed(steps)
    && (e.vim.mode == Search ==> e.vim.query == Typed(steps) && e.vim.preRow == SearchedFrom(steps))
    && e.model.path == Opened(steps) && e.model.stopping == Stopped(steps) && RaisedAreOld(e.model)
  }

  /** What a step does to the queries. */
  lemma {:induction false} StepQueries(fuzzy: Matcher, e: Editor, step: Step)
    requires Enabled(e, step)
    ensures var v, v' := e.vim, Next(fuzzy, e, step).vim;
      && v'.committed == (match step case FinishSearch => v.query case Open(_, _) => "" case _ => v.committed)
      && (v'.mode == Search ==>
            match step
            case StartSearch(row) => v'.query == "" && v'.preRow == row
            case Type(query) => v.mode == Search && v'.query == query && v'.preRow == v.preRow
            case _ => v.mode == Search && v'.query == v.query && v'.preRow == v.preRow)
  {
  }

  /** The same directory and the same walk. */
  ghost predicate SameWalk(m: State, m': State) {
    m'.path == m.path && m'.stopping == m.stopping && m'.generation == m.generation && m'.raised == m.raised
  }

  lemma DropKeepsWalk(fuzzy: Matcher, e: Editor, names: seq<string>)
    ensures SameWalk(e.model, DropPlaceholder(fuzzy, e, names).model)
  {
  }

  lemma ApplyKeepsWalk(m: State, b: Batch)
    ensures SameWalk(m, Apply(m, b))
  {
  }

  /** What a step does to the directory shown. */
  ghost predicate DirectoryStep(m: State, m': State, step: Step) {
    && m'.path == (if step.Open? && !m.stopping then step.path else m.path)
    && m'.stopping == (m.stopping || step.ShutDown?) && RaisedAreOld(m')
  }

  lemma OpenDirectory(fuzzy: Matcher, e: Editor, path: string, names: seq<string>)
    requires RaisedAreOld(e.model)
    ensures DirectoryStep(e.model, Next(fuzzy, e, Open(path, names)).model, Open(path, names))
  {
    DropKeepsWalk(fuzzy, e.(vim := e.vim.(mode := Normal)), names);
  }

  lemma EndDirectory(fuzzy: Matcher, e: Editor, step: Step)
    requires RaisedAreOld(e.model) && Enabled(e, step) && (step.FinishInsert? || step.AbandonInsert?)
    ensures DirectoryStep(e.model, Next(fuzzy, e, step).model, step)
  {
    DropKeepsWalk(fuzzy, e.(vim := e.vim.(mode := Normal)), step.names);
  }

  lemma StepDirectory(fuzzy: Matcher, e: Editor, step: Step)
    requires Enabled(e, step) && RaisedAreOld(e.model)
    ensures DirectoryStep(e.model, Next(fuzzy, e, step).model, step)
  {
    match step
    case Open(path, names) => OpenDirectory(fuzzy, e, path, names);
    case FinishInsert(_, _) => EndDirectory(fuzzy, e, step);
    case AbandonInsert(_) => EndDirectory(fuzzy, e, step);
    case Deliver(b, _) => ApplyKeepsWalk(e.model, b);
    case _ =>
  }

  lemma {:induction false} StepRemembers(fuzzy: Matcher, e: Editor, steps: seq<Step>)
    requires steps != [] && Remembers(e, steps[..|steps| - 1]) && Enabled(e, steps[|steps| - 1])
    ensures Remembers(Next(fuzzy, e, steps[|steps| - 1]), steps)
  {
    StepQueries(fuzzy, e, steps[|steps| - 1]);
    StepDirectory(fuzzy, e, steps[|steps| - 1]);
  }

  /** In every run: the committed query is what was typed in the search committed last, however many searches were
      abandoned since; the query being typed, and the row to go back to, are those of the open search field; and
      the listing is that of the directory opened last. */
  lemma {:induction false} RunRemembers(fuzzy: Matcher, steps: seq<Step>)
    requires Legal(fuzzy, START, steps)
    ensures Remembers(Run(fuzzy, START, steps), steps)
    decreases |steps|
  {
    if steps != [] {
      RunSplit(fuzzy, START, steps);
      RunRemembers(fuzzy, steps[..|steps| - 1]);
      StepRemembers(fuzzy, Run(fuzzy, START, steps[..|steps| - 1]), steps);
    }
  }

  /** In every run. */
  lemma {:induction false} SearchIsLive(fuzzy: Matcher, steps: seq<Step>)
    requires Legal(fuzzy, START, steps)
    ensures Live(fuzzy, Run(fuzzy, START, steps))
    decreases |steps|
  {
    if steps != [] {
      var init := steps[..|steps| - 1];
      RunSplit(fuzzy, START, steps);
      SearchIsLive(fuzzy, init);
      RunStaysInStep(fuzzy, START, init);
      StepIsLive(fuzzy, Run(fuzzy, START, init), steps[|steps| - 1]);
    }
  }

  /** Opening a directory ends every mode, empties the listing, forgets both queries and begins a walk of it. */
  lemma OpenExactly(fuzzy: Matcher, e: Editor, path: string, names: seq<string>)
    requires Inv(fuzzy, e) && RaisedAreOld(e.model)
    ensures var e' := Next(fuzzy, e, Open(path, names));
      && e'.vim.mode == Normal && e'.vim.query == e'.vim.committed == "" && e'.vim.found == Found([], -1)
      && e'.vim.preRow == -1 && e'.lock == UNLOCKED && NoPlaceholder(e'.model)
      && if e.model.stopping then e'.model.path == e.model.path
         else
           && e'.model.path == path && e'.model.rows == [] && e'.names == [] && !e'.model.suspended
           && e'.model.scanning && e'.model.generation == e.model.generation + 1
           && e'.model.generation !in e'.model.raised && e.model.generation in e'.model.raised
  {
    DropRemovesIt(fuzzy, e.(vim := e.vim.(mode := Normal)), names);
  }
}
