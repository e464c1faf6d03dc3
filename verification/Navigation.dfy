/** Where the window is: the displayed path, the history behind it, the cursor still to be restored, and the
    answers it is waiting for. */
module Navigation {
  import opened JumpListModel

  /** `serial` counts the navigations. `dispatched` holds, for each bookmark being checked, the serial at which
      the check began. */
  datatype Nav = Nav(jumps: Jumps, path: string, serial: nat, awaiting: bool, pendingName: string,
                     candidate: string, candidateSerial: nat, dispatched: map<nat, nat>)

  const FRESH := Nav(Jumps([], -1), "", 0, false, "", "", 0, map[])

  /** The names shown and the cursor on them. */
  datatype Screen = Screen(names: seq<string>, cursor: int)

  function Cleaned(clean: string -> string, path: string): string {
    if path == "" then "" else clean(path)
  }

  /** Cleaning a path twice is cleaning it once. */
  ghost predicate Cleans(clean: string -> string) {
    forall p {:trigger Cleaned(clean, Cleaned(clean, p))} :: Cleaned(clean, Cleaned(clean, p)) == Cleaned(clean, p)
  }

  function OutgoingName(n: Nav, screen: Screen): string {
    if n.awaiting || screen.cursor < 0 || screen.cursor >= |screen.names| then "" else screen.names[screen.cursor]
  }

  ghost function Opened(n: Nav, jumps: Jumps, path: string, restoreName: string): Nav {
    n.(jumps := jumps, path := path, serial := n.serial + 1, awaiting := true, pendingName := restoreName)
  }

  ghost function Visited(n: Nav, requested: string, restoreName: string, screen: Screen, clean: string -> string): Nav
    requires n.jumps.index < |n.jumps.entries|
  {
    var path := Cleaned(clean, requested);
    Opened(n, Recorded(n.jumps, path, OutgoingName(n, screen)), path, restoreName)
  }

  /** History navigation: only the landing opens a directory; what is gone leaves the list either way. */
  ghost function WentTo(n: Nav, direction: int, count: int, screen: Screen, ok: string -> bool, clean: string -> string)
    : Nav
    requires WellFormed(n.jumps)
  {
    TraverseKeepsWellFormed(n.jumps, direction, count, OutgoingName(n, screen), ok);
    var jumps := Traversed(n.jumps, direction, count, OutgoingName(n, screen), ok);
    if n.jumps.index < 0 || (direction != 1 && direction != -1)
      || Moves(Left(n.jumps, OutgoingName(n, screen)), n.jumps.index, direction, ok) == 0
    then n.(jumps := jumps)
    else
      TraverseLands(n.jumps, direction, count, OutgoingName(n, screen), ok);
      Opened(n, jumps, Cleaned(clean, CurrentPath(jumps)), jumps.entries[jumps.index].cursorName)
  }

  function Settled(n: Nav): Nav {
    n.(awaiting := false, pendingName := "")
  }

  /** The first row with the name, or row 0. */
  ghost predicate RowOf(row: int, names: seq<string>, name: string) {
    if name != "" && name in names then
      0 <= row < |names| && names[row] == name && forall i | 0 <= i < row :: names[i] != name
    else row == 0
  }

  /** The row the cursor is set to once the listing of an opened directory has settled; -1 when nothing is to be
      restored or the listing is still being read. */
  ghost predicate Restores(n: Nav, scanning: bool, names: seq<string>, row: int) {
    if n.awaiting && !scanning then RowOf(row, names, n.pendingName) else row == -1
  }

  function Checking(n: Nav, id: nat): Nav {
    if id == 0 then n else n.(dispatched := n.dispatched[id := n.serial])
  }

  /** The serial recorded for a check; zero when there is none. */
  function DispatchSerial(n: Nav, id: nat): nat {
    if id in n.dispatched then n.dispatched[id] else 0
  }

  ghost function Resolved(n: Nav, id: nat, path: string, available: bool, quiet: bool, screen: Screen,
                          clean: string -> string): Nav
    requires n.jumps.index < |n.jumps.entries|
  {
    var taken := n.(dispatched := n.dispatched - {id});
    if DispatchSerial(n, id) != n.serial || !quiet || !available then taken
    else Visited(taken, path, "", screen, clean)
  }

  function Validating(n: Nav, path: string): Nav {
    n.(candidate := path, candidateSerial := n.serial)
  }

  ghost function Validated(n: Nav, path: string, ok: bool, home: string, screen: Screen, clean: string -> string): Nav
    requires n.jumps.index < |n.jumps.entries|
  {
    if path != n.candidate || n.candidateSerial != n.serial then n
    else Visited(n.(candidate := ""), if ok then path else home, "", screen, clean)
  }

  /** The history's current entry is what is displayed, and all its paths are clean. */
  ghost predicate InStep(n: Nav, clean: string -> string) {
    && WellFormed(n.jumps) && CurrentPath(n.jumps) == n.path
    && (forall v | v in n.jumps.entries :: Cleaned(clean, v.path) == v.path)
  }

  class NavigationSession {
    const jumpList: JumpList
    var currentPath: string
    var navigationSerial: nat
    var awaitingInitialLoad: bool
    var pendingRestoreName: string
    var restoreCandidate: string
    var restoreSerial: nat
    var bookmarkDispatch: map<nat, nat>

    ghost function View(): Nav
      reads this, jumpList
    {
      Nav(jumpList.View(), currentPath, navigationSerial, awaitingInitialLoad, pendingRestoreName, restoreCandidate,
          restoreSerial, bookmarkDispatch)
    }

    constructor ()
      ensures fresh(jumpList) && View() == FRESH
    {
      jumpList := new JumpList();
      currentPath, pendingRestoreName, restoreCandidate := "", "", "";
      navigationSerial, restoreSerial, awaitingInitialLoad, bookmarkDispatch := 0, 0, false, map[];
    }

    method OpenInternal(requestedPath: string, restoreName: string, recordHistory: bool, screen: Screen,
                        clean: string -> string)
      requires WellFormed(jumpList.View())
      modifies this, jumpList
      ensures View() ==
        if recordHistory then Visited(old(View()), requestedPath, restoreName, screen, clean)
        else Opened(old(View()), old(View()).jumps, Cleaned(clean, requestedPath), restoreName)
    {
      var path := if requestedPath == "" then requestedPath else clean(requestedPath);
      if recordHistory {
        jumpList.RecordVisit(path, OutgoingCursorName(screen));
      }
      navigationSerial := navigationSerial + 1;
      currentPath := path;
      awaitingInitialLoad := false;
      pendingRestoreName := restoreName;
      awaitingInitialLoad := true;
    }

    function OutgoingCursorName(screen: Screen): string
      reads this
    {
      if awaitingInitialLoad || screen.cursor < 0 || screen.cursor >= |screen.names| then ""
      else screen.names[screen.cursor]
    }

    method TraverseHistory(direction: int, count: int, enabled: bool, screen: Screen, isDirectory: string -> bool,
                           clean: string -> string)
      requires WellFormed(jumpList.View())
      modifies this, jumpList
      ensures View() ==
        if enabled then WentTo(old(View()), direction, count, screen, isDirectory, clean) else old(View())
    {
      if !enabled {
        return;
      }
      ghost var before, name := jumpList.View(), OutgoingCursorName(screen);
      TraverseKeepsWellFormed(before, direction, count, name, isDirectory);
      var result := jumpList.Traverse(direction, count, OutgoingCursorName(screen), isDirectory);
      if before.index >= 0 && (direction == 1 || direction == -1) {
        MovesIffAccepted(Left(before, name), before.index, direction, Max(1, count), isDirectory);
      }
      if result.moved {
        OpenInternal(result.targetPath, result.restoreName, false, screen, clean);
      }
    }

    /** To the parent directory; the cursor is to go to the directory left. */
    method NavigateParent(isRoot: string -> bool, parentOf: string -> string, nameOf: string -> string, screen: Screen,
                          clean: string -> string)
      requires WellFormed(jumpList.View())
      modifies this, jumpList
      ensures View() == if old(currentPath) == "" || isRoot(old(currentPath)) then old(View())
                        else Visited(old(View()), parentOf(old(currentPath)), nameOf(old(currentPath)), screen, clean)
    {
      if currentPath == "" || isRoot(currentPath) {
        return;
      }
      OpenInternal(parentOf(currentPath), nameOf(currentPath), true, screen, clean);
    }

    method CancelPendingRestore()
      modifies this
      ensures View() == Settled(old(View()))
    {
      awaitingInitialLoad := false;
      pendingRestoreName := "";
    }

    method MaybeApplyPendingRestore(scanning: bool, names: seq<string>) returns (row: int)
      modifies this
      ensures View() == if old(View()).awaiting && !scanning then Settled(old(View())) else old(View())
      ensures Restores(old(View()), scanning, names, row)
    {
      if !awaitingInitialLoad || scanning {
        return -1;
      }
      var name := pendingRestoreName;
      CancelPendingRestore();
      row := 0;
      if name != "" {
        for candidate := 0 to |names|
          invariant row == 0 && forall i | 0 <= i < candidate :: names[i] != name
        {
          if names[candidate] == name {
            row := candidate;
            break;
          }
        }
      }
    }

    method ActivateBookmark(quiet: bool, placeId: nat)
      modifies this
      ensures View() == if quiet then Checking(old(View()), placeId) else old(View())
    {
      if quiet {
        if placeId != 0 {
          bookmarkDispatch := bookmarkDispatch[placeId := navigationSerial];
        }
      }
    }

    method HandleBookmarkRecheckResolved(placeId: nat, path: string, available: bool, quiet: bool, screen: Screen,
                                         clean: string -> string)
      requires WellFormed(jumpList.View())
      modifies this, jumpList
      ensures View() == Resolved(old(View()), placeId, path, available, quiet, screen, clean)
    {
      var dispatchSerial := if placeId in bookmarkDispatch then bookmarkDispatch[placeId] else 0;
      bookmarkDispatch := bookmarkDispatch - {placeId};
      if dispatchSerial != navigationSerial || !quiet {
        return;
      }
      if available {
        OpenInternal(path, "", true, screen, clean);
      }
    }

    method OpenRestoreCandidate(path: string)
      modifies this
      ensures View() == Validating(old(View()), path)
    {
      restoreCandidate := path;
      restoreSerial := navigationSerial;
    }

    method HandleRestoreValidated(path: string, ok: bool, home: string, screen: Screen, clean: string -> string)
      requires WellFormed(jumpList.View())
      modifies this, jumpList
      ensures View() == Validated(old(View()), path, ok, home, screen, clean)
    {
      if path != restoreCandidate || restoreSerial != navigationSerial {
        return;
      }
      restoreCandidate := "";
      OpenInternal(if ok then path else home, "", true, screen, clean);
    }
  }

  lemma MovesIffAccepted(vs: seq<Visit>, index: nat, direction: int, wanted: nat, ok: string -> bool)
    requires index < |vs| && wanted > 0 && (direction == 1 || direction == -1)
    ensures var r := Range(vs, index, direction, wanted, ok);
      Accepted(vs[r.0..r.1], ok) == [] <==> Moves(vs, index, direction, ok) == 0
  {
    if direction == 1 {
      var ahead := vs[index + 1..];
      ExaminedSteps(ahead, ok, wanted);
      assert ahead[..Examined(ahead, ok, wanted)] == vs[index + 1..index + 1 + Examined(ahead, ok, wanted)];
    } else {
      ExaminedBackSteps(vs[..index], ok, wanted);
      var first := index - ExaminedBack(vs[..index], ok, wanted);
      assert vs[..index][first..] == vs[first..index];
    }
  }

  // ----- whole runs -----

  /** `quiet`: no mode, prompt or Quick Look stands in the way of a navigation. */
  datatype Step =
    | Visit(requested: string, restoreName: string, screen: Screen)
    | Traverse(direction: int, count: int, screen: Screen, ok: string -> bool)
    | MoveCursor
    | Settle(scanning: bool)
    | Check(id: nat)
    | Answer(id: nat, path: string, available: bool, quiet: bool, screen: Screen)
    | Validate(path: string)
    | Verdict(path: string, good: bool, home: string, screen: Screen)

  ghost function Next(n: Nav, step: Step, clean: string -> string): Nav
    requires WellFormed(n.jumps)
  {
    match step
    case Visit(requested, restoreName, screen) => Visited(n, requested, restoreName, screen, clean)
    case Traverse(direction, count, screen, ok) => WentTo(n, direction, count, screen, ok, clean)
    case MoveCursor => Settled(n)
    case Settle(scanning) => if n.awaiting && !scanning then Settled(n) else n
    case Check(id) => Checking(n, id)
    case Answer(id, path, available, quiet, screen) => Resolved(n, id, path, available, quiet, screen, clean)
    case Validate(path) => Validating(n, path)
    case Verdict(path, good, home, screen) => Validated(n, path, good, home, screen, clean)
  }

  lemma NextIsWellFormed(n: Nav, step: Step, clean: string -> string)
    requires WellFormed(n.jumps)
    ensures WellFormed(Next(n, step, clean).jumps)
  {
    match step
    case Visit(requested, _, screen) =>
      RecordKeepsWellFormed(n.jumps, Cleaned(clean, requested), OutgoingName(n, screen));
    case Answer(_, path, _, _, screen) =>
      RecordKeepsWellFormed(n.jumps, Cleaned(clean, path), OutgoingName(n, screen));
    case Verdict(path, good, home, screen) =>
      RecordKeepsWellFormed(n.jumps, Cleaned(clean, if good then path else home), OutgoingName(n, screen));
    case Traverse(direction, count, screen, ok) =>
      TraverseKeepsWellFormed(n.jumps, direction, count, OutgoingName(n, screen), ok);
    case _ =>
  }

  ghost function Run(n: Nav, steps: seq<Step>, clean: string -> string): Nav
    requires WellFormed(n.jumps)
    decreases |steps|
  {
    if steps == [] then n
    else
      NextIsWellFormed(n, steps[0], clean);
      Run(Next(n, steps[0], clean), steps[1..], clean)
  }

  lemma VisitKeepsInStep(n: Nav, requested: string, restoreName: string, screen: Screen, clean: string -> string)
    requires InStep(n, clean) && Cleans(clean)
    ensures InStep(Visited(n, requested, restoreName, screen, clean), clean)
  {
    var path, name := Cleaned(clean, requested), OutgoingName(n, screen);
    RecordKeepsWellFormed(n.jumps, path, name);
    assert Cleaned(clean, path) == path;
    var j := n.jumps;
    if !(j.index >= 0 && j.entries[j.index].path == path) {
      var vs := if j.index >= 0 then Left(j, name) else j.entries;
      AcceptedMembers(vs, p => p != path);
      PathsStayClean(j, vs, clean);
    }
  }

  /** Leaving for another path keeps, with the entry left, the name the cursor is on, and no name if the listing
      has not settled or the cursor is on no row; unless the entry is the oldest of a full list, which goes. */
  lemma LeavingKeepsName(n: Nav, requested: string, restoreName: string, screen: Screen, clean: string -> string)
    requires InStep(n, clean) && n.jumps.index >= 0 && Cleaned(clean, requested) != n.path
    requires |n.jumps.entries| < CAPACITY || n.jumps.index > 0 || HasPath(n.jumps.entries, Cleaned(clean, requested))
    ensures exists v | v in Visited(n, requested, restoreName, screen, clean).jumps.entries ::
      && v.path == n.path
      && if !n.awaiting && 0 <= screen.cursor < |screen.names| then v.cursorName == screen.names[screen.cursor]
         else v.cursorName == ""
  {
    VisitKeepsLeft(n.jumps, Cleaned(clean, requested), OutgoingName(n, screen));
  }

  lemma PathsStayClean(j: Jumps, vs: seq<JumpListModel.Visit>, clean: string -> string)
    requires |vs| == |j.entries| && forall i | 0 <= i < |vs| :: vs[i].path == j.entries[i].path
    requires forall v | v in j.entries :: Cleaned(clean, v.path) == v.path
    ensures forall v | v in vs :: Cleaned(clean, v.path) == v.path
  {
    forall v | v in vs
      ensures Cleaned(clean, v.path) == v.path
    {
      var i :| 0 <= i < |vs| && vs[i] == v;
      assert j.entries[i] in j.entries;
    }
  }

  lemma {:induction false} TraverseKeepsClean(j: Jumps, direction: int, count: int, name: string, ok: string -> bool,
                                              clean: string -> string)
    requires WellFormed(j) && forall v | v in j.entries :: Cleaned(clean, v.path) == v.path
    ensures forall v | v in Traversed(j, direction, count, name, ok).entries :: Cleaned(clean, v.path) == v.path
  {
    if j.index >= 0 && (direction == 1 || direction == -1) {
      TraverseAddsNothing(j, direction, count, name, ok);
      PathsStayClean(j, Left(j, name), clean);
    }
  }

  lemma {:induction false} TraverseKeepsInStep(n: Nav, direction: int, count: int, screen: Screen, ok: string -> bool,
                                               clean: string -> string)
    requires InStep(n, clean)
    ensures InStep(WentTo(n, direction, count, screen, ok, clean), clean)
  {
    var name := OutgoingName(n, screen);
    var jumps := Traversed(n.jumps, direction, count, name, ok);
    TraverseKeepsWellFormed(n.jumps, direction, count, name, ok);
    TraverseKeepsClean(n.jumps, direction, count, name, ok, clean);
    if Lands(n, direction, screen, ok) {
      assert jumps.entries[jumps.index] in jumps.entries;
    } else if n.jumps.index >= 0 && (direction == 1 || direction == -1) {
      TraverseLands(n.jumps, direction, count, name, ok);
    }
  }

  lemma TraverseAddsNothing(j: Jumps, direction: int, count: int, name: string, ok: string -> bool)
    requires WellFormed(j) && j.index >= 0 && (direction == 1 || direction == -1)
    ensures forall v | v in Traversed(j, direction, count, name, ok).entries :: v in Left(j, name)
  {
    var vs := Left(j, name);
    var r := Range(vs, j.index, direction, Max(1, count), ok);
    DropAddsNothing(vs, r.0, r.1, ok);
    TraversedShape(j, direction, count, name, ok);
  }

  /** Whether or not it lands, a traversal forgets exactly the entries it looks at and finds to be no directory. */
  lemma TraverseForgetsMissing(n: Nav, direction: int, count: int, screen: Screen, ok: string -> bool,
                               clean: string -> string, i: nat)
    requires WellFormed(n.jumps) && n.jumps.index >= 0 && (direction == 1 || direction == -1)
    requires i < |n.jumps.entries|
    ensures var vs := Left(n.jumps, OutgoingName(n, screen));
      vs[i] in WentTo(n, direction, count, screen, ok, clean).jumps.entries <==>
        !(LooksAt(vs, n.jumps.index, direction, Max(1, count), ok, i) && !ok(vs[i].path))
  {
    TraverseRemovesExactly(n.jumps, direction, count, OutgoingName(n, screen), ok, i);
  }

  lemma DropAddsNothing(vs: seq<JumpListModel.Visit>, lo: nat, hi: nat, ok: string -> bool)
    requires lo <= hi <= |vs|
    ensures forall v | v in vs[..lo] + Accepted(vs[lo..hi], ok) + vs[hi..] :: v in vs
  {
    AcceptedMembers(vs[lo..hi], ok);
    forall v | v in vs[..lo] + Accepted(vs[lo..hi], ok) + vs[hi..]
      ensures v in vs
    {
      assert v in vs[..lo] || v in vs[lo..hi] || v in vs[hi..];
    }
  }

  lemma StepKeepsInStep(n: Nav, step: Step, clean: string -> string)
    requires InStep(n, clean) && Cleans(clean)
    ensures InStep(Next(n, step, clean), clean)
  {
    match step
    case Visit(requested, restoreName, screen) => VisitKeepsInStep(n, requested, restoreName, screen, clean);
    case Traverse(direction, count, screen, ok) => TraverseKeepsInStep(n, direction, count, screen, ok, clean);
    case Answer(id, path, _, _, screen) =>
      VisitKeepsInStep(n.(dispatched := n.dispatched - {id}), path, "", screen, clean);
    case Verdict(path, good, home, screen) =>
      VisitKeepsInStep(n.(candidate := ""), if good then path else home, "", screen, clean);
    case _ =>
  }

  /** In every reachable state the history's current entry is the displayed path, its paths are distinct and
      clean, and there are at most a hundred. */
  lemma {:induction false} HistoryIsInStep(n: Nav, steps: seq<Step>, clean: string -> string)
    requires InStep(n, clean) && Cleans(clean)
    ensures InStep(Run(n, steps, clean), clean)
    decreases |steps|
  {
    if steps != [] {
      StepKeepsInStep(n, steps[0], clean);
      HistoryIsInStep(Next(n, steps[0], clean), steps[1..], clean);
    }
  }

  lemma FreshIsInStep(steps: seq<Step>, clean: string -> string)
    requires Cleans(clean)
    ensures InStep(Run(FRESH, steps, clean), clean)
  {
    HistoryIsInStep(FRESH, steps, clean);
  }

  /** Back over k directories and forward again shows the same path, with the cursor to be restored to the
      name it was on. */
  lemma BackAndForth(n: Nav, k: nat, screen: Screen, between: Screen, ok: string -> bool, clean: string -> string)
    requires InStep(n, clean) && n.jumps.index >= 0 && ok(n.path)
    requires 0 < k <= Moves(Left(n.jumps, OutgoingName(n, screen)), n.jumps.index, -1, ok)
    ensures var back := WentTo(n, -1, k, screen, ok, clean);
      && WellFormed(back.jumps)
      && var again := WentTo(back, 1, k, between, ok, clean);
      again.path == n.path && again.awaiting && again.pendingName == OutgoingName(n, screen)
  {
    var name := OutgoingName(n, screen);
    TraverseKeepsInStep(n, -1, k, screen, ok, clean);
    var back := WentTo(n, -1, k, screen, ok, clean);
    RoundTrip(n.jumps, k, name, OutgoingName(back, between), ok);
    MovesAgain(n.jumps, k, name, OutgoingName(back, between), ok);
    assert n.jumps.entries[n.jumps.index] in n.jumps.entries;
  }

  lemma MovesAgain(j: Jumps, k: nat, name: string, other: string, ok: string -> bool)
    requires WellFormed(j) && j.index >= 0 && ok(CurrentPath(j))
    requires 0 < k <= Moves(Left(j, name), j.index, -1, ok)
    ensures var back := Traversed(j, -1, k, name, ok);
      0 <= back.index < |back.entries| && Moves(Left(back, other), back.index, 1, ok) > 0
  {
    var vs, back := Left(j, name), Traversed(j, -1, k, name, ok);
    BackReaches(vs, j.index, k, ok);
    var ahead := Left(back, other)[back.index + 1..];
    AcceptedMembers(ahead, ok);
    assert ahead[0] == back.entries[back.index + 1] && ahead[0] in ahead && ok(ahead[0].path);
  }

  // ----- which steps navigate -----

  /** A traversal that finds a directory to land on. */
  ghost predicate Lands(n: Nav, direction: int, screen: Screen, ok: string -> bool)
    requires WellFormed(n.jumps)
  {
    && n.jumps.index >= 0 && (direction == 1 || direction == -1)
    && Moves(Left(n.jumps, OutgoingName(n, screen)), n.jumps.index, direction, ok) > 0
  }

  /** The moment the pending check of a bookmark began: after the last Check of it before step `i`, unless that
      has been answered; 0 when there is none. */
  function CheckBegan(steps: seq<Step>, i: nat, id: nat): (began: nat)
    requires i <= |steps|
    ensures began <= i
  {
    if i == 0 then 0
    else if id > 0 && steps[i - 1] == Check(id) then i
    else if steps[i - 1].Answer? && steps[i - 1].id == id then 0
    else CheckBegan(steps, i - 1, id)
  }

  /** The moment after the last validation asked for before step `i`, and the location it is for. */
  function ValidationBegan(steps: seq<Step>, i: nat): (began: nat)
    requires i <= |steps|
    ensures began <= i
  {
    if i == 0 || steps[i - 1].Validate? then i else ValidationBegan(steps, i - 1)
  }

  function Candidate(steps: seq<Step>, i: nat): string
    requires i <= |steps|
  {
    if i == 0 then "" else if steps[i - 1].Validate? then steps[i - 1].path else Candidate(steps, i - 1)
  }

  ghost function At(steps: seq<Step>, i: nat, clean: string -> string): Nav
    requires i <= |steps|
  {
    Run(FRESH, steps[..i], clean)
  }

  /** Step `i` of a run of the program opens a directory: a visit, a traversal that lands, a favourable answer
      that finds nothing opened since its check began, and the verdict on the last candidate if nothing was
      opened since it was asked for. */
  ghost predicate Opens(steps: seq<Step>, i: nat, clean: string -> string)
    requires i < |steps|
    decreases i, 1
  {
    match steps[i]
    case Visit(_, _, _) => true
    case Traverse(direction, _, screen, ok) =>
      AtIsWellFormed(steps, i, clean);
      Lands(At(steps, i, clean), direction, screen, ok)
    case Answer(id, _, available, quiet, _) =>
      available && quiet && NoneOpens(steps, CheckBegan(steps, i, id), i, clean)
    case Verdict(path, _, _, _) =>
      path == Candidate(steps, i) && NoneOpens(steps, ValidationBegan(steps, i), i, clean)
    case _ => false
  }

  /** No step from `from` on opens anything before step `i`. */
  ghost predicate NoneOpens(steps: seq<Step>, from: nat, i: nat, clean: string -> string)
    requires i <= |steps|
    decreases i, 0
  {
    i <= from || (NoneOpens(steps, from, i - 1, clean) && !Opens(steps, i - 1, clean))
  }

  ghost function OpensBefore(steps: seq<Step>, i: nat, clean: string -> string): nat
    requires i <= |steps|
  {
    if i == 0 then 0 else OpensBefore(steps, i - 1, clean) + if Opens(steps, i - 1, clean) then 1 else 0
  }

  lemma {:induction false} NoneOpened(steps: seq<Step>, from: nat, i: nat, clean: string -> string)
    requires from <= i <= |steps|
    ensures OpensBefore(steps, from, clean) <= OpensBefore(steps, i, clean)
    ensures OpensBefore(steps, from, clean) == OpensBefore(steps, i, clean) <==> NoneOpens(steps, from, i, clean)
    decreases i
  {
    if from < i {
      NoneOpened(steps, from, i - 1, clean);
    }
  }

  lemma {:induction false} RunIsWellFormed(n: Nav, steps: seq<Step>, clean: string -> string)
    requires WellFormed(n.jumps)
    ensures WellFormed(Run(n, steps, clean).jumps)
    decreases |steps|
  {
    if steps != [] {
      NextIsWellFormed(n, steps[0], clean);
      RunIsWellFormed(Next(n, steps[0], clean), steps[1..], clean);
    }
  }

  lemma AtIsWellFormed(steps: seq<Step>, i: nat, clean: string -> string)
    requires i <= |steps|
    ensures WellFormed(At(steps, i, clean).jumps)
  {
    RunIsWellFormed(FRESH, steps[..i], clean);
  }

  lemma {:induction false} RunLast(n: Nav, steps: seq<Step>, clean: string -> string)
    requires WellFormed(n.jumps) && steps != []
    ensures WellFormed(Run(n, steps[..|steps| - 1], clean).jumps)
    ensures Run(n, steps, clean) == Next(Run(n, steps[..|steps| - 1], clean), steps[|steps| - 1], clean)
    decreases |steps|
  {
    RunIsWellFormed(n, steps[..|steps| - 1], clean);
    if |steps| > 1 {
      var init := steps[..|steps| - 1];
      NextIsWellFormed(n, steps[0], clean);
      RunLast(Next(n, steps[0], clean), steps[1..], clean);
      assert init[0] == steps[0] && steps[1..][..|steps| - 2] == init[1..];
      assert Run(n, init, clean) == Run(Next(n, steps[0], clean), init[1..], clean);
    } else {
      assert steps[..0] == [] && steps[1..] == [];
    }
  }

  lemma AtNext(steps: seq<Step>, i: nat, clean: string -> string)
    requires i < |steps|
    ensures WellFormed(At(steps, i, clean).jumps)
    ensures At(steps, i + 1, clean) == Next(At(steps, i, clean), steps[i], clean)
  {
    RunLast(FRESH, steps[..i + 1], clean);
    assert steps[..i + 1][..i] == steps[..i];
  }

  /** The serial numbers in the state are counts of the openings of the run. */
  ghost predicate Agrees(n: Nav, steps: seq<Step>, i: nat, clean: string -> string)
    requires i <= |steps|
  {
    && n.serial == OpensBefore(steps, i, clean)
    && (forall id :: DispatchSerial(n, id) == OpensBefore(steps, CheckBegan(steps, i, id), clean))
    && n.candidateSerial == OpensBefore(steps, ValidationBegan(steps, i), clean)
    && (n.candidateSerial == n.serial ==> n.candidate == Candidate(steps, i))
  }

  /** The entry a traversal lands on. */
  ghost function Landing(n: Nav, direction: int, count: int, screen: Screen, ok: string -> bool): JumpListModel.Visit
    requires WellFormed(n.jumps) && Lands(n, direction, screen, ok)
  {
    Target(Left(n.jumps, OutgoingName(n, screen)), n.jumps.index, direction, Max(1, count), ok)
  }

  /** What a step opens, if it does. */
  ghost function Destination(n: Nav, step: Step, clean: string -> string): string
    requires WellFormed(n.jumps)
  {
    match step
    case Visit(requested, _, _) => Cleaned(clean, requested)
    case Traverse(direction, count, screen, ok) =>
      if Lands(n, direction, screen, ok) then Cleaned(clean, Landing(n, direction, count, screen, ok).path) else n.path
    case Answer(_, path, _, _, _) => Cleaned(clean, path)
    case Verdict(path, good, home, _) => Cleaned(clean, if good then path else home)
    case _ => n.path
  }

  /** The name an opening leaves to be restored: the one asked for with a visit, the one saved with the entry a
      traversal lands on, none for a bookmark or a stored location. */
  ghost function RestoreName(n: Nav, step: Step): string
    requires WellFormed(n.jumps)
  {
    match step
    case Visit(_, restoreName, _) => restoreName
    case Traverse(direction, count, screen, ok) =>
      if Lands(n, direction, screen, ok) then Landing(n, direction, count, screen, ok).cursorName else ""
    case _ => ""
  }

  /** Moving the cursor ends the waiting for a restore, and so does a listing that has settled. */
  ghost predicate EndsWaiting(step: Step) {
    step.MoveCursor? || step == Settle(false)
  }

  /** The step displays its destination, counts as a navigation and leaves its name to be restored, or it leaves
      what is displayed alone. */
  ghost predicate Navigates(n: Nav, n': Nav, step: Step, clean: string -> string, opens: bool)
    requires WellFormed(n.jumps)
  {
    if opens then
      && n'.path == Destination(n, step, clean) && n'.serial == n.serial + 1
      && n'.awaiting && n'.pendingName == RestoreName(n, step)
    else
      && n'.path == n.path && n'.serial == n.serial
      && n'.awaiting == (n.awaiting && !EndsWaiting(step))
      && (n'.awaiting ==> n'.pendingName == n.pendingName)
      && (step.Answer? ==> n' == n.(dispatched := n.dispatched - {step.id}))
      && (step.Verdict? ==> n' == n)
  }

  lemma VerdictStep(n: Nav, step: Step, clean: string -> string)
    requires WellFormed(n.jumps) && step.Verdict?
    ensures Navigates(n, Next(n, step, clean), step, clean, step.path == n.candidate && n.candidateSerial == n.serial)
  {
  }

  lemma TraverseStep(n: Nav, step: Step, clean: string -> string)
    requires WellFormed(n.jumps) && step.Traverse?
    ensures Navigates(n, Next(n, step, clean), step, clean, Lands(n, step.direction, step.screen, step.ok))
  {
    if Lands(n, step.direction, step.screen, step.ok) {
      TraverseLands(n.jumps, step.direction, step.count, OutgoingName(n, step.screen), step.ok);
    }
  }

  lemma AnswerOpens(n: Nav, steps: seq<Step>, i: nat, clean: string -> string)
    requires i < |steps| && steps[i].Answer? && Agrees(n, steps, i, clean)
    ensures Opens(steps, i, clean) ==
      (steps[i].available && steps[i].quiet && DispatchSerial(n, steps[i].id) == n.serial)
  {
    NoneOpened(steps, CheckBegan(steps, i, steps[i].id), i, clean);
  }

  lemma VerdictOpens(n: Nav, steps: seq<Step>, i: nat, clean: string -> string)
    requires i < |steps| && steps[i].Verdict? && Agrees(n, steps, i, clean)
    ensures Opens(steps, i, clean) == (steps[i].path == n.candidate && n.candidateSerial == n.serial)
  {
    NoneOpened(steps, ValidationBegan(steps, i), i, clean);
  }

  lemma OneStep(n: Nav, steps: seq<Step>, i: nat, clean: string -> string)
    requires i < |steps| && n == At(steps, i, clean) && WellFormed(n.jumps) && Agrees(n, steps, i, clean)
    ensures Navigates(n, Next(n, steps[i], clean), steps[i], clean, Opens(steps, i, clean))
  {
    var step := steps[i];
    if step.Answer? {
      AnswerOpens(n, steps, i, clean);
    } else if step.Verdict? {
      VerdictOpens(n, steps, i, clean);
      VerdictStep(n, step, clean);
    } else if step.Traverse? {
      TraverseStep(n, step, clean);
    }
  }

  /** What a step does to the serials that were recorded. */
  lemma StepRecords(n: Nav, step: Step, clean: string -> string)
    requires WellFormed(n.jumps)
    ensures var n' := Next(n, step, clean);
      && (forall id :: DispatchSerial(n', id) ==
            if step == Check(id) && id > 0 then n.serial
            else if step.Answer? && step.id == id then 0
            else DispatchSerial(n, id))
      && n'.candidateSerial == (if step.Validate? then n.serial else n.candidateSerial)
      && (if step.Validate? then n'.candidate == step.path
          else n'.candidate == n.candidate || n'.serial > n.serial)
  {
  }

  lemma ChecksAgree(steps: seq<Step>, i: nat, clean: string -> string, n: Nav, n': Nav, id: nat)
    requires i < |steps| && Agrees(n, steps, i, clean) && n'.serial == OpensBefore(steps, i + 1, clean)
    requires DispatchSerial(n', id) == if steps[i] == Check(id) && id > 0 then n.serial
                                       else if steps[i].Answer? && steps[i].id == id then 0
                                       else DispatchSerial(n, id)
    ensures DispatchSerial(n', id) == OpensBefore(steps, CheckBegan(steps, i + 1, id), clean)
  {
    if steps[i].Check? {
      assert !Opens(steps, i, clean);
    }
  }

  lemma CandidateAgrees(steps: seq<Step>, i: nat, clean: string -> string, n: Nav, n': Nav)
    requires i < |steps| && Agrees(n, steps, i, clean) && n'.serial == OpensBefore(steps, i + 1, clean)
    requires n'.candidateSerial == if steps[i].Validate? then n.serial else n.candidateSerial
    requires if steps[i].Validate? then n'.candidate == steps[i].path
             else n'.candidate == n.candidate || n'.serial > n.serial
    ensures n'.candidateSerial == OpensBefore(steps, ValidationBegan(steps, i + 1), clean)
    ensures n'.candidateSerial == n'.serial ==> n'.candidate == Candidate(steps, i + 1)
  {
    if steps[i].Validate? {
      assert !Opens(steps, i, clean);
    } else {
      NoneOpened(steps, ValidationBegan(steps, i), i, clean);
    }
  }

  lemma StepAgrees(steps: seq<Step>, i: nat, clean: string -> string)
    requires i < |steps| && WellFormed(At(steps, i, clean).jumps)
    requires Agrees(At(steps, i, clean), steps, i, clean)
    ensures Agrees(Next(At(steps, i, clean), steps[i], clean), steps, i + 1, clean)
  {
    var n := At(steps, i, clean);
    var n' := Next(n, steps[i], clean);
    OneStep(At(steps, i, clean), steps, i, clean);
    StepRecords(n, steps[i], clean);
    CandidateAgrees(steps, i, clean, n, n');
    forall id
      ensures DispatchSerial(n', id) == OpensBefore(steps, CheckBegan(steps, i + 1, id), clean)
    {
      ChecksAgree(steps, i, clean, n, n', id);
    }
  }

  /** In every run the serial counts the openings, and a check in flight keeps the count at which it began. */
  lemma {:induction false} SerialCountsOpens(steps: seq<Step>, i: nat, clean: string -> string)
    requires i <= |steps|
    ensures Agrees(At(steps, i, clean), steps, i, clean)
  {
    if i == 0 {
      assert steps[..0] == [];
    } else {
      SerialCountsOpens(steps, i - 1, clean);
      AtNext(steps, i - 1, clean);
      StepAgrees(steps, i - 1, clean);
    }
  }

  /** In every run, each step navigates exactly when Opens says so: in particular a late answer to a bookmark's
      check opens its path if and only if it is favourable, nothing stands in the way and nothing was opened
      since the check began; and the verdict on a stored location navigates only for the last candidate, and
      only if nothing was opened since it was asked for. */
  lemma LateAnswersAreIgnored(steps: seq<Step>, i: nat, clean: string -> string)
    requires i < |steps|
    ensures WellFormed(At(steps, i, clean).jumps)
    ensures Navigates(At(steps, i, clean), At(steps, i + 1, clean), steps[i], clean, Opens(steps, i, clean))
  {
    SerialCountsOpens(steps, i, clean);
    AtNext(steps, i, clean);
    OneStep(At(steps, i, clean), steps, i, clean);
  }

  /** From step `from` on up to step `i` nothing is opened and nothing ends the waiting for a restore. */
  ghost predicate Waits(steps: seq<Step>, from: nat, i: nat, clean: string -> string)
    requires i <= |steps|
  {
    forall k | from <= k < i :: !Opens(steps, k, clean) && !EndsWaiting(steps[k])
  }

  /** In every run, when the listing settles with nothing in between, the cursor goes to the first row with the
      name that the last opening left to be restored, or to row 0. */
  lemma {:induction false} RestoreComesBack(steps: seq<Step>, i: nat, j: nat, clean: string -> string)
    requires i < j <= |steps| && Opens(steps, i, clean) && Waits(steps, i + 1, j, clean)
    ensures WellFormed(At(steps, i, clean).jumps) && WellFormed(At(steps, j, clean).jumps)
    ensures At(steps, j, clean).awaiting
    ensures At(steps, j, clean).pendingName == RestoreName(At(steps, i, clean), steps[i])
    ensures forall names, row :: Restores(At(steps, j, clean), false, names, row) <==>
      RowOf(row, names, RestoreName(At(steps, i, clean), steps[i]))
    decreases j
  {
    AtIsWellFormed(steps, j, clean);
    LateAnswersAreIgnored(steps, j - 1, clean);
    if j == i + 1 {
    } else {
      RestoreComesBack(steps, i, j - 1, clean);
      assert !Opens(steps, j - 1, clean) && !EndsWaiting(steps[j - 1]);
    }
  }

  /** And only once: after the listing has settled or the cursor has been moved, nothing is restored until
      something is opened. */
  lemma {:induction false} RestoresOnce(steps: seq<Step>, i: nat, j: nat, clean: string -> string)
    requires i < j <= |steps| && EndsWaiting(steps[i]) && NoneOpens(steps, i, j, clean)
    ensures !At(steps, j, clean).awaiting
    ensures forall scanning, names, row :: Restores(At(steps, j, clean), scanning, names, row) <==> row == -1
    decreases j
  {
    LateAnswersAreIgnored(steps, j - 1, clean);
    if i + 1 < j {
      RestoresOnce(steps, i, j - 1, clean);
    }
  }
}
