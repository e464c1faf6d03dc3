/** The loops that work through the sources of one task. */
module TaskWorker {
  import opened Paths
  import opened World
  import opened Wrappers
  import opened TransferSpec
  import opened CopyService
  import opened MoveService
  import opened Names
  import T = TrashService
  import P = TaskProtocol

  datatype Summary = Summary(
    succeeded: nat, failed: nat, incomplete: nat, skipped: nat, failures: seq<FailedItem>, skippedChildren: seq<Path>)

  const NOTHING := Summary(0, 0, 0, 0, [], [])

  /** One copy or move: from which state of the disk to which, through which, and what it returned. */
  datatype Turn = Turn(source: Path, dest: Path, overwrite: bool, before: Moment, states: seq<Moment>, after: Moment,
                       stuck: set<Path>, result: ItemResult)

  /** What was decided about one source. */
  datatype Decided = SkippedByUser(taken: Path) | Done(turn: Turn)

  /** The summary with one more item taken in. */
  function Count(s: Summary, d: Decided): Summary {
    match d
    case SkippedByUser(_) => s.(skipped := s.skipped + 1)
    case Done(Turn(source, _, _, _, _, _, _, r)) =>
      var s' :=
        if r.Complete() then s.(succeeded := s.succeeded + 1)
        else
          s.(incomplete := s.incomplete + 1,
             failed := s.failed + if r.failed || r.nested != [] then 1 else 0,
             failures := s.failures
                         + [FailedItem(source, if r.reason == NoReason then TransferIncomplete else r.reason)]);
      s'.(failures := s'.failures + r.nested, skippedChildren := s'.skippedChildren + r.skipped)
  }

  function Tally(ds: seq<Decided>): Summary {
    if ds == [] then NOTHING else Count(Tally(ds[..|ds| - 1]), ds[|ds| - 1])
  }

  /** "x/y succeeded" counts every decided source once, and details are listed exactly when something
      was left incomplete. */
  lemma {:induction false} TallyAddsUp(ds: seq<Decided>)
    ensures Tally(ds).succeeded + Tally(ds).incomplete + Tally(ds).skipped == |ds|
    ensures Tally(ds).failed <= Tally(ds).incomplete
    ensures Tally(ds).failures != [] <==> Tally(ds).incomplete > 0
  {
    if ds != [] {
      TallyAddsUp(ds[..|ds| - 1]);
    }
  }

  // What a summary tells

  predicate IsComplete(d: Decided) {
    d.Done? && d.turn.result.Complete()
  }

  predicate IsIncomplete(d: Decided) {
    d.Done? && !d.turn.result.Complete()
  }

  /** The item failed, or something below it did. */
  predicate HasFailed(d: Decided) {
    d.Done? && (d.turn.result.failed || d.turn.result.nested != [])
  }

  predicate WasSkipped(d: Decided) {
    d.SkippedByUser?
  }

  /** The line of an item that was left incomplete, or of something that failed below an item. */
  predicate IsFailureOf(f: FailedItem, d: Decided) {
    d.Done? &&
    var r := d.turn.result;
    || f in r.nested
    || (!r.Complete() && f.path == d.turn.source
        && f.reason == if r.reason == NoReason then TransferIncomplete else r.reason)
  }

  predicate IsSkippedBelow(p: Path, d: Decided) {
    d.Done? && p in d.turn.result.skipped
  }

  /** The decisions of a kind. */
  ghost function Those<T>(ds: seq<T>, kind: T -> bool): set<nat> {
    set i: nat | i < |ds| && kind(ds[i])
  }

  /** The summary gives the numbers of items that were completed, left incomplete, failed and skipped by the user;
      it lists every incomplete item and every failure below an item with its reason, and every skipped child;
      and it lists nothing else. */
  ghost predicate Tells(s: Summary, ds: seq<Decided>) {
    && s.succeeded == |Those(ds, IsComplete)| && s.incomplete == |Those(ds, IsIncomplete)|
    && s.failed == |Those(ds, HasFailed)| && s.skipped == |Those(ds, WasSkipped)|
    && (forall f :: f in s.failures <==> exists d :: d in ds && IsFailureOf(f, d))
    && (forall p :: p in s.skippedChildren <==> exists d :: d in ds && IsSkippedBelow(p, d))
  }

  lemma OneMoreOfKind<T>(ds: seq<T>, d: T, kind: T -> bool)
    ensures |Those(ds + [d], kind)| == |Those(ds, kind)| + if kind(d) then 1 else 0
  {
    var n: nat := |ds|;
    assert n !in Those(ds, kind);
    assert forall i: nat | i < n :: (ds + [d])[i] == ds[i];
    assert Those(ds + [d], kind) == if kind(d) then Those(ds, kind) + {n} else Those(ds, kind);
  }

  lemma SomeOrLast<T>(ds: seq<T>, d: T, kind: T -> bool)
    ensures (exists e :: e in ds + [d] && kind(e)) <==> (exists e :: e in ds && kind(e)) || kind(d)
  {
    assert d in ds + [d] && forall e :: e in ds ==> e in ds + [d];
  }

  lemma {:induction false} CountTells(s: Summary, ds: seq<Decided>, d: Decided)
    requires Tells(s, ds)
    ensures Tells(Count(s, d), ds + [d])
  {
    var s' := Count(s, d);
    OneMoreOfKind(ds, d, IsComplete);
    OneMoreOfKind(ds, d, IsIncomplete);
    OneMoreOfKind(ds, d, HasFailed);
    OneMoreOfKind(ds, d, WasSkipped);
    forall f
      ensures f in s'.failures <==> exists e :: e in ds + [d] && IsFailureOf(f, e)
    {
      SomeOrLast(ds, d, e => IsFailureOf(f, e));
    }
    forall p
      ensures p in s'.skippedChildren <==> exists e :: e in ds + [d] && IsSkippedBelow(p, e)
    {
      SomeOrLast(ds, d, e => IsSkippedBelow(p, e));
      assert p in s'.skippedChildren <==> p in s.skippedChildren || IsSkippedBelow(p, d);
    }
  }

  lemma {:induction false} SummaryTells(ds: seq<Decided>)
    ensures Tells(Tally(ds), ds)
  {
    if ds == [] {
      assert Those(ds, IsComplete) == {} && Those(ds, IsIncomplete) == {};
      assert Those(ds, HasFailed) == {} && Those(ds, WasSkipped) == {};
    } else {
      var init := ds[..|ds| - 1];
      SummaryTells(init);
      CountTells(Tally(init), init, ds[|ds| - 1]);
      assert init + [ds[|ds| - 1]] == ds;
    }
  }

  /** Blocks until the prompt is answered or the task is cancelled, and gives the number in the answer cell.
      `answer` is what the user answers to this prompt; that the cell then holds its code, and never the
      sentinel, is TaskProtocol.DecisionIsTheUsers. */
  method WaitForPromptAnswer(w: Kernel, answer: P.Resolution) returns (code: Option<int>)
    requires w.Valid()
    modifies w`cancelled
    ensures old(w.cancelled) ==> w.cancelled
    ensures w.undisturbed ==> w.cancelled == old(w.cancelled)
    ensures code == if w.cancelled then None else Some(P.Code(answer))
  {
    var c := w.LoadCancel();
    code := if c then None else Some(P.Code(answer));
  }

  datatype Action = Proceed(path: Path, overwrite: bool) | SkipItem | CancelTask | Aborted

  /** The action is the one the user chose for the taken name. */
  ghost predicate Obeys(outcome: Action, t: Tree, destDir: Path, itemName: Name, answer: P.Resolution) {
    match answer
    case Skip => outcome == SkipItem
    case Cancel => outcome == CancelTask
    case Overwrite => outcome == Proceed(destDir + [itemName], true)
    case AutoRename =>
      && outcome.Proceed? && !outcome.overwrite && outcome.path != [] && Parent(outcome.path) == destDir
      && FirstFree(" (", ")", itemName, ChildNames(t, destDir), BaseName(outcome.path))
  }

  /** What happens to one item: a free name is used, a taken one is put to the user, and what the user answers is
      done; `asked` records whether lstat() found the name taken. */
  method ResolveConflictIfAny(w: Kernel, destDir: Path, itemName: Name, answer: P.Resolution)
    returns (outcome: Action, ghost asked: bool)
    requires w.Valid()
    modifies w`cancelled
    ensures old(w.cancelled) ==> w.cancelled
    ensures w.undisturbed ==> w.cancelled == old(w.cancelled)
    ensures asked ==> destDir + [itemName] in w.tree
    ensures w.undisturbed && destDir + [itemName] in w.tree ==> asked
    ensures !asked ==> outcome == Proceed(destDir + [itemName], false)
    ensures asked ==>
      if w.cancelled then outcome.Aborted? else Obeys(outcome, w.tree, destDir, itemName, answer)
  {
    var exists_ := DestinationExists(w, destDir, itemName);
    if !exists_ {
      return Proceed(destDir + [itemName], false), false;
    }
    var code := WaitForPromptAnswer(w, answer);
    if code.None? {
      return Aborted, true;
    }
    if code.value == P.Code(P.Skip) {
      return SkipItem, true;
    }
    if code.value == P.Code(P.Cancel) {
      return CancelTask, true;
    }
    if code.value == P.Code(P.AutoRename) {
      var candidate := AutoRenameCandidate(w, destDir, itemName);
      assert Parent(destDir + [candidate]) == destDir && BaseName(destDir + [candidate]) == candidate;
      return Proceed(destDir + [candidate], false), true;
    }
    return Proceed(destDir + [itemName], true), true;
  }

  /** What a turn's result says is true of the disk, at its end and at every moment on the way; a `sure` turn,
      which nothing disturbs, is carried out exactly when it can be. */
  ghost predicate Truthful(move: bool, sure: bool, t: Turn) {
    if move then
      && NothingLost(t.before, t.after, t.source, t.dest, t.overwrite)
      && NeverLost(t.states, 0, t.before, t.source, t.dest, t.overwrite)
      && MoveOutcome(t.before, t.after, t.stuck, t.source, t.dest, t.result)
      && (sure ==> (t.result.Complete() <==> Movable(t.before.tree, t.source, t.dest, t.overwrite)))
    else
      && CopyOutcome(t.before, t.after, t.stuck, t.source, t.dest, t.overwrite, t.result)
      && AllFaithful(t.states, 0, t.before, t.source, t.dest, t.overwrite)
      && (sure ==>
            && (t.result.Complete() <==> Copyable(t.before.tree, t.source, t.dest, t.overwrite))
            && (Startable(t.before.tree, t.source, t.dest, t.overwrite) ==>
                  Exact(t.before, t.after, t.source, t.dest, t.result)))
  }

  /** The disk went from `m0` to `m` by the turns of `ds` and by nothing else. */
  ghost predicate Chained(ds: seq<Decided>, move: bool, sure: bool, m0: Moment, m: Moment) {
    if ds == [] then m == m0
    else Follows(ds[|ds| - 1], move, sure, Before(ds[|ds| - 1], m), m) &&
         Chained(ds[..|ds| - 1], move, sure, m0, Before(ds[|ds| - 1], m))
  }

  /** The state in which a source was decided that left the disk as `m`. */
  ghost function Before(d: Decided, m: Moment): Moment {
    if d.Done? then d.turn.before else m
  }

  /** The states the disk passed through meanwhile. */
  function Passed(d: Decided): seq<Moment> {
    if d.Done? then d.turn.states else []
  }

  function States(ds: seq<Decided>): seq<Moment> {
    if ds == [] then [] else States(ds[..|ds| - 1]) + Passed(ds[|ds| - 1])
  }

  /** The decision leads from `m` to `m'`: a skipped name is taken, a turn is truthful. */
  ghost predicate Follows(d: Decided, move: bool, sure: bool, m: Moment, m': Moment) {
    match d
    case SkippedByUser(taken) => m' == m && taken in m.tree
    case Done(t) => t.before == m && t.after == m' && Truthful(move, sure, t)
  }

  function OwnPlace(destDir: Path, source: Path): Path {
    destDir + [BaseName(source)]
  }

  /** The decision about a source is what its name and the user's answer ask for: under its own name if that is
      free, and else skipped, overwriting or under a fresh name as the user chose. Only an lstat() that is
      refused can make a taken name look free, which a `sure` run has none of. */
  ghost predicate AsAnswered(d: Decided, source: Path, destDir: Path, answer: P.Resolution, sure: bool) {
    var own := OwnPlace(destDir, source);
    match d
    case SkippedByUser(taken) => answer == P.Skip && taken == own
    case Done(t) =>
      && t.source == source
      && if t.overwrite then answer == P.Overwrite && t.dest == own && own in t.before.tree
         else
           || (t.dest == own && (sure ==> own !in t.before.tree))
           || (answer == P.AutoRename && own in t.before.tree && t.dest != [] && Parent(t.dest) == destDir
               && FirstFree(" (", ")", BaseName(source), ChildNames(t.before.tree, destDir), BaseName(t.dest)))
  }

  /** The books of the loop: a decided prefix of the sources, decided as the user answered (`answers(i)` is the
      answer to a prompt about the i-th source), its tally, and the disk it accounts for. */
  ghost predicate Kept(ds: seq<Decided>, summary: Summary, sources: seq<Path>, destDir: Path,
                       answers: nat -> P.Resolution, sure: bool, move: bool, m0: Moment, m: Moment)
  {
    && |ds| <= |sources| && summary == Tally(ds) && Chained(ds, move, sure, m0, m)
    && forall k: nat | k < |ds| :: AsAnswered(ds[k], sources[k], destDir, answers(k), sure)
  }

  lemma {:induction false} AnsweredAppend(ds: seq<Decided>, sources: seq<Path>, destDir: Path,
      answers: nat -> P.Resolution, sure: bool, d: Decided)
    requires |ds| < |sources| && AsAnswered(d, sources[|ds|], destDir, answers(|ds|), sure)
    requires forall k: nat | k < |ds| :: AsAnswered(ds[k], sources[k], destDir, answers(k), sure)
    ensures forall k: nat | k < |ds + [d]| :: AsAnswered((ds + [d])[k], sources[k], destDir, answers(k), sure)
  {
    forall k: nat | k < |ds + [d]|
      ensures AsAnswered((ds + [d])[k], sources[k], destDir, answers(k), sure)
    {
      assert (ds + [d])[k] == if k < |ds| then ds[k] else d;
    }
  }

  lemma {:induction false} KeptAppend(ds: seq<Decided>, summary: Summary, sources: seq<Path>, destDir: Path,
      answers: nat -> P.Resolution, sure: bool, move: bool, m0: Moment, m: Moment, d: Decided, m': Moment)
    requires Kept(ds, summary, sources, destDir, answers, sure, move, m0, m) && |ds| < |sources|
    requires AsAnswered(d, sources[|ds|], destDir, answers(|ds|), sure) && Follows(d, move, sure, m, m')
    ensures Kept(ds + [d], Count(summary, d), sources, destDir, answers, sure, move, m0, m')
    ensures States(ds + [d]) == States(ds) + Passed(d)
  {
    AnsweredAppend(ds, sources, destDir, answers, sure, d);
  }

  lemma {:induction false} KeptBefore(ds: seq<Decided>, summary: Summary, sources: seq<Path>, destDir: Path,
      answers: nat -> P.Resolution, sure: bool, move: bool, m0: Moment, m: Moment)
    requires Kept(ds, summary, sources, destDir, answers, sure, move, m0, m) && ds != []
    ensures var init := ds[..|ds| - 1];
      Kept(init, Tally(init), sources, destDir, answers, sure, move, m0, Before(ds[|ds| - 1], m))
    ensures AsAnswered(ds[|ds| - 1], sources[|ds| - 1], destDir, answers(|ds| - 1), sure)
    ensures Follows(ds[|ds| - 1], move, sure, Before(ds[|ds| - 1], m), m)
  {
    var init := ds[..|ds| - 1];
    forall k: nat | k < |init|
      ensures AsAnswered(init[k], sources[k], destDir, answers(k), sure)
    {
      assert init[k] == ds[k];
    }
  }

  /** The user has answered that the i-th source is to overwrite `p`, and that source was of this kind and
      content when its turn came. */
  ghost predicate Overwrites(ds: seq<Decided>, sources: seq<Path>, destDir: Path, answers: nat -> P.Resolution,
                             i: nat, p: Path, kind: Kind)
  {
    && i < |ds| && i < |sources| && answers(i) == P.Overwrite && p == OwnPlace(destDir, sources[i])
    && ds[i].Done?
    && var t := ds[i].turn; t.source == sources[i] && t.source in t.before.tree && t.before.tree[t.source].kind == kind
  }

  /** The entry `p` is the old one, or the full copy of a source about which the user has answered Overwrite. */
  ghost predicate OldOrOverwritten(ds: seq<Decided>, sources: seq<Path>, destDir: Path,
                                   answers: nat -> P.Resolution, m0: Moment, m: Moment, p: Path)
    requires p in m0.tree
  {
    && p in m.tree
    && (m.tree[p] == m0.tree[p] || exists i: nat :: Overwrites(ds, sources, destDir, answers, i, p, m.tree[p].kind))
  }

  /** One more turn: what it leaves of `p`, or what it has left of it at some moment. */
  lemma {:induction false} OneMoreTurn(ds: seq<Decided>, sources: seq<Path>, destDir: Path,
      answers: nat -> P.Resolution, m0: Moment, m: Moment, m': Moment, p: Path)
    requires ds != [] && |ds| <= |sources| && p in m0.tree
    requires OldOrOverwritten(ds[..|ds| - 1], sources, destDir, answers, m0, m, p)
    requires p in m'.tree
    requires m'.tree[p] == m.tree[p]
      || Overwrites(ds, sources, destDir, answers, |ds| - 1, p, m'.tree[p].kind)
    ensures OldOrOverwritten(ds, sources, destDir, answers, m0, m', p)
  {
    var init := ds[..|ds| - 1];
    if m'.tree[p] == m.tree[p] && m.tree[p] != m0.tree[p] {
      var i: nat :| Overwrites(init, sources, destDir, answers, i, p, m.tree[p].kind);
      assert ds[i] == init[i];
      assert Overwrites(ds, sources, destDir, answers, i, p, m'.tree[p].kind);
    }
  }

  /** The entry `p` is as it was before the turn, or the turn has overwritten it with its whole source. */
  ghost predicate KeptBy(t: Turn, s: Moment, p: Path)
    requires p in t.before.tree
  {
    && p in s.tree
    && (s.tree[p] == t.before.tree[p]
        || (t.overwrite && p == t.dest && t.source in t.before.tree && s.tree[p].kind == t.before.tree[t.source].kind))
  }

  lemma {:induction false} MoveTurnKeeps(t: Turn, sure: bool, s: Moment, p: Path)
    requires Truthful(true, sure, t) && p in t.before.tree && !(t.source <= p) && (s == t.after || s in t.states)
    ensures KeptBy(t, s, p)
  {
    if s != t.after {
      var i :| 0 <= i < |t.states| && t.states[i] == s;
      assert NothingLost(t.before, t.states[i], t.source, t.dest, t.overwrite);
    }
  }

  /** What a turn leaves of an entry outside its source. */
  lemma {:induction false} TurnKeeps(ds: seq<Decided>, summary: Summary, sources: seq<Path>, destDir: Path,
      answers: nat -> P.Resolution, sure: bool, move: bool, m0: Moment, m: Moment, s: Moment, p: Path)
    requires ds != [] && Kept(ds, summary, sources, destDir, answers, sure, move, m0, m)
    requires var before := Before(ds[|ds| - 1], m); p in before.tree
    requires s == m || s in Passed(ds[|ds| - 1])
    requires move ==> !(sources[|ds| - 1] <= p)
    ensures var before := Before(ds[|ds| - 1], m);
      && p in s.tree
      && (s.tree[p] == before.tree[p] || Overwrites(ds, sources, destDir, answers, |ds| - 1, p, s.tree[p].kind))
  {
    KeptBefore(ds, summary, sources, destDir, answers, sure, move, m0, m);
    var last := ds[|ds| - 1];
    if last.Done? {
      if move {
        MoveTurnKeeps(last.turn, sure, s, p);
      }
    }
  }

  /** A copy task touches nothing that was there, at any moment, except what the user has answered to overwrite:
      that is the old entry or the full copy of the source. */
  lemma {:induction false} CopyTaskKeeps(ds: seq<Decided>, summary: Summary, sources: seq<Path>, destDir: Path,
      answers: nat -> P.Resolution, sure: bool, m0: Moment, m: Moment, p: Path)
    requires Kept(ds, summary, sources, destDir, answers, sure, false, m0, m) && p in m0.tree
    ensures OldOrOverwritten(ds, sources, destDir, answers, m0, m, p)
    ensures forall s | s in States(ds) :: OldOrOverwritten(ds, sources, destDir, answers, m0, s, p)
    decreases |ds|
  {
    if ds != [] {
      KeptBefore(ds, summary, sources, destDir, answers, sure, false, m0, m);
      var init, before := ds[..|ds| - 1], Before(ds[|ds| - 1], m);
      CopyTaskKeeps(init, Tally(init), sources, destDir, answers, sure, m0, before, p);
      forall s | s == m || s in States(ds)
        ensures OldOrOverwritten(ds, sources, destDir, answers, m0, s, p)
      {
        if s == m || s in Passed(ds[|ds| - 1]) {
          TurnKeeps(ds, summary, sources, destDir, answers, sure, false, m0, m, s, p);
          OneMoreTurn(ds, sources, destDir, answers, m0, before, s, p);
        } else {
          OneMoreTurn(ds, sources, destDir, answers, m0, s, s, p);
        }
      }
    }
  }

  /** Likewise a move task, for what lies outside the sources. */
  lemma {:induction false} MoveTaskKeeps(ds: seq<Decided>, summary: Summary, sources: seq<Path>, destDir: Path,
      answers: nat -> P.Resolution, sure: bool, m0: Moment, m: Moment, p: Path)
    requires Kept(ds, summary, sources, destDir, answers, sure, true, m0, m) && p in m0.tree
    requires forall i | 0 <= i < |ds| :: !(sources[i] <= p)
    ensures OldOrOverwritten(ds, sources, destDir, answers, m0, m, p)
    ensures forall s | s in States(ds) :: OldOrOverwritten(ds, sources, destDir, answers, m0, s, p)
    decreases |ds|
  {
    if ds != [] {
      KeptBefore(ds, summary, sources, destDir, answers, sure, true, m0, m);
      var init, before := ds[..|ds| - 1], Before(ds[|ds| - 1], m);
      MoveTaskKeeps(init, Tally(init), sources, destDir, answers, sure, m0, before, p);
      forall s | s == m || s in States(ds)
        ensures OldOrOverwritten(ds, sources, destDir, answers, m0, s, p)
      {
        if s == m || s in Passed(ds[|ds| - 1]) {
          TurnKeeps(ds, summary, sources, destDir, answers, sure, true, m0, m, s, p);
          OneMoreTurn(ds, sources, destDir, answers, m0, before, s, p);
        } else {
          OneMoreTurn(ds, sources, destDir, answers, m0, s, s, p);
        }
      }
    }
  }

  /** The states added to a history since it was `h`. */
  function Added(h: seq<Moment>, h': seq<Moment>): seq<Moment>
    requires h <= h'
  {
    h'[|h|..]
  }

  /** Copies or moves one source. */
  method Transfer(w: Kernel, move: bool, source: Path, dest: Path, overwrite: bool)
    returns (r: ItemResult, ghost turn: Turn)
    requires w.Valid()
    modifies w
    ensures w.Valid() && Progress(w) && (r.cancelled ==> w.cancelled)
    ensures turn.source == source && turn.result == r && turn.before == old(Now(w)) && turn.after == Now(w)
    ensures turn.dest == dest && turn.overwrite == overwrite && w.history == old(w.history) + turn.states
    ensures Truthful(move, w.undisturbed && !old(w.cancelled), turn)
  {
    ghost var h, m := w.history, Now(w);
    if move {
      r := MoveEntry(w, source, dest, overwrite);
    } else {
      r := CopyEntry(w, source, dest, overwrite);
    }
    turn := Turn(source, dest, overwrite, m, Added(h, w.history), Now(w), w.stuck, r);
  }

  /** Takes the result of one source into the summary. */
  method CountResult(summary: Summary, source: Path, result: ItemResult, ghost turn: Turn) returns (s: Summary)
    requires turn.source == source && turn.result == result
    ensures s == Count(summary, Done(turn))
  {
    s := summary;
    if result.Complete() {
      s := s.(succeeded := s.succeeded + 1);
    } else {
      s := s.(incomplete := s.incomplete + 1);
      if result.failed || result.nested != [] {
        s := s.(failed := s.failed + 1);
      }
      var reason := if result.reason == NoReason then TransferIncomplete else result.reason;
      s := s.(failures := s.failures + [FailedItem(source, reason)]);
    }
    s := s.(failures := s.failures + result.nested, skippedChildren := s.skippedChildren + result.skipped);
  }

  /** The transfer was cancelled on the way. */
  predicate Interrupted(d: Decided) {
    d.Done? && d.turn.result.cancelled
  }

  ghost predicate NoneInterrupted(ds: seq<Decided>) {
    forall d | d in ds :: !Interrupted(d)
  }

  /** Only the last transfer may have been cancelled on the way. */
  ghost predicate LastAtMost(ds: seq<Decided>) {
    ds != [] ==> NoneInterrupted(ds[..|ds| - 1])
  }

  /** One turn of the loop over the sources; `more` says that the loop goes on, `dropped` that the user cancelled
      at the prompt. */
  method ProcessItem(w: Kernel, move: bool, source: Path, destDir: Path, answer: P.Resolution, summary: Summary)
    returns (s: Summary, more: bool, ghost decided: Option<Decided>, ghost dropped: bool)
    requires w.Valid()
    modifies w
    ensures w.Valid() && Progress(w)
    ensures decided.None? ==>
      s == summary && Now(w) == old(Now(w)) && w.history == old(w.history) && !more && (w.cancelled || dropped)
    ensures dropped ==> decided.None? && answer == P.Cancel && OwnPlace(destDir, source) in w.tree
    ensures old(w.cancelled) ==> decided.None? && !dropped && Untouched(w)
    ensures decided.Some? ==> s == Count(summary, decided.value) && (!more ==> w.cancelled)
    ensures decided.Some? ==> (more <==> !Interrupted(decided.value))
    ensures decided.Some? ==>
      && AsAnswered(decided.value, source, destDir, answer, w.undisturbed)
      && Follows(decided.value, move, w.undisturbed, old(Now(w)), Now(w))
      && w.history == old(w.history) + Passed(decided.value)
  {
    s, more, decided, dropped := summary, false, None, false;
    var c := w.LoadCancel();
    if c {
      return;
    }
    var outcome;
    ghost var asked;
    outcome, asked := ResolveConflictIfAny(w, destDir, BaseName(source), answer);
    if outcome.Aborted? || outcome.CancelTask? {
      dropped := outcome.CancelTask?;
      return;
    }
    if outcome.SkipItem? {
      s := s.(skipped := s.skipped + 1);
      return s, true, Some(SkippedByUser(OwnPlace(destDir, source))), false;
    }
    var result;
    ghost var turn;
    result, turn := Transfer(w, move, source, outcome.path, outcome.overwrite);
    s := CountResult(s, source, result, turn);
    return s, !result.cancelled, Some(Done(turn)), false;
  }

  /** The books are in order, and the disk has passed through the states they name since its history was `h0`. */
  ghost predicate InOrder(ds: seq<Decided>, summary: Summary, sources: seq<Path>, destDir: Path,
                          answers: nat -> P.Resolution, sure: bool, move: bool, m0: Moment, m: Moment,
                          h0: seq<Moment>, h: seq<Moment>)
  {
    Kept(ds, summary, sources, destDir, answers, sure, move, m0, m) && h == h0 + States(ds)
  }

  lemma {:induction false} NextInOrder(ds: seq<Decided>, summary: Summary, sources: seq<Path>, destDir: Path,
      answers: nat -> P.Resolution, sure: bool, move: bool, m0: Moment, m: Moment, h0: seq<Moment>, h: seq<Moment>,
      d: Decided, m': Moment)
    requires InOrder(ds, summary, sources, destDir, answers, sure, move, m0, m, h0, h) && |ds| < |sources|
    requires AsAnswered(d, sources[|ds|], destDir, answers(|ds|), sure) && Follows(d, move, sure, m, m')
    ensures InOrder(ds + [d], Count(summary, d), sources, destDir, answers, sure, move, m0, m', h0, h + Passed(d))
  {
    KeptAppend(ds, summary, sources, destDir, answers, sure, move, m0, m, d, m');
    Associate(h0, States(ds), Passed(d));
  }

  lemma Associate(a: seq<Moment>, b: seq<Moment>, c: seq<Moment>)
    ensures (a + b) + c == a + (b + c)
  {
  }

  /** The turn for the source after those decided, taken into the books. */
  method TakeItem(w: Kernel, move: bool, sources: seq<Path>, i: nat, destDir: Path, answers: nat -> P.Resolution,
                  summary: Summary, ghost ds: seq<Decided>, ghost m0: Moment, ghost h0: seq<Moment>)
    returns (s: Summary, more: bool, ghost ds': seq<Decided>, ghost dropped: bool)
    requires w.Valid() && |ds| == i < |sources| && NoneInterrupted(ds)
    requires InOrder(ds, summary, sources, destDir, answers, w.undisturbed, move, m0, Now(w), h0, w.history)
    modifies w
    ensures w.Valid() && Progress(w)
    ensures InOrder(ds', s, sources, destDir, answers, w.undisturbed, move, m0, Now(w), h0, w.history)
    ensures |ds'| == i || |ds'| == i + 1
    ensures |ds'| == i ==> !more && (w.cancelled || dropped)
    ensures dropped ==> |ds'| == i && answers(i) == P.Cancel && OwnPlace(destDir, sources[i]) in w.tree
    ensures !more ==> w.cancelled || dropped
    ensures old(w.cancelled) ==> ds' == ds && !dropped && Untouched(w)
    ensures LastAtMost(ds') && (more ==> NoneInterrupted(ds'))
  {
    ghost var m, h := Now(w), w.history;
    ghost var d: Option<Decided>;
    s, more, d, dropped := ProcessItem(w, move, sources[i], destDir, answers(i), summary);
    ds' := ds;
    if d.Some? {
      NextInOrder(ds, summary, sources, destDir, answers, w.undisturbed, move, m0, m, h0, h, d.value, Now(w));
      ds' := ds + [d.value];
    }
  }

  /** The loop over the sources. */
  method WorkThrough(w: Kernel, move: bool, sources: seq<Path>, destDir: Path, answers: nat -> P.Resolution)
    returns (summary: Summary, ghost decided: seq<Decided>, ghost dropped: bool)
    requires w.Valid()
    modifies w
    ensures w.Valid() && Progress(w)
    ensures InOrder(decided, summary, sources, destDir, answers, w.undisturbed, move, old(Now(w)), Now(w),
                    old(w.history), w.history)
    ensures |decided| < |sources| ==> w.cancelled || dropped
    ensures dropped ==>
      && |decided| < |sources| && answers(|decided|) == P.Cancel
      && OwnPlace(destDir, sources[|decided|]) in w.tree
    ensures LastAtMost(decided)
    ensures old(w.cancelled) ==> decided == [] && !dropped && Untouched(w)
  {
    summary, decided, dropped := NOTHING, [], false;
    ghost var h0, s0, c0, m0 := w.history, w.stuck, w.cancelled, Now(w);
    for i := 0 to |sources|
      invariant w.Valid() && Since(w, h0, s0, c0)
      invariant !dropped && |decided| == i
      invariant InOrder(decided, summary, sources, destDir, answers, w.undisturbed, move, m0, Now(w), h0, w.history)
      invariant NoneInterrupted(decided)
      invariant c0 ==> decided == [] && Now(w) == m0 && w.history == h0
    {
      var more;
      summary, more, decided, dropped :=
        TakeItem(w, move, sources, i, destDir, answers, summary, decided, m0, h0);
      if !more {
        return;
      }
    }
  }

  /** Works through the sources: a prefix of them is decided, each as the user answered; it is proper only when
      the user cancelled, at a prompt about the next source or otherwise; the summary tells what was decided; and
      the disk passed through the states of the turns, each truthful, and through no other. */
  method ProcessCopyMoveTask(w: Kernel, move: bool, sources: seq<Path>, destDir: Path, answers: nat -> P.Resolution)
    returns (summary: Summary, ghost decided: seq<Decided>, ghost dropped: bool)
    requires w.Valid()
    modifies w
    ensures w.Valid() && Progress(w)
    ensures Kept(decided, summary, sources, destDir, answers, w.undisturbed, move, old(Now(w)), Now(w))
    ensures w.history == old(w.history) + States(decided)
    ensures |decided| < |sources| ==> w.cancelled || dropped
    ensures dropped ==>
      && |decided| < |sources| && answers(|decided|) == P.Cancel
      && OwnPlace(destDir, sources[|decided|]) in w.tree
    ensures Tells(summary, decided) && summary.succeeded + summary.incomplete + summary.skipped == |decided|
    ensures LastAtMost(decided)
    ensures old(w.cancelled) ==> decided == [] && !dropped && Untouched(w)
  {
    summary, decided, dropped := WorkThrough(w, move, sources, destDir, answers);
    TallyAddsUp(decided);
    SummaryTells(decided);
  }

  /** One trashed source: from which state of the disk to which, through which, under which name if it came to
      that, and what the call returned. */
  datatype TrashTurn = TrashTurn(source: Path, name: Name, before: Moment, states: seq<Moment>, after: Moment,
                                 stuck: set<Path>, result: T.TrashResult)

  function CountTrash(s: Summary, t: TrashTurn): Summary {
    if t.result.Failed? then
      s.(failed := s.failed + 1, incomplete := s.incomplete + 1,
         failures := s.failures + [FailedItem(t.source, Refused(t.result.errno))])
    else s.(succeeded := s.succeeded + 1)
  }

  function TrashTally(ts: seq<TrashTurn>): Summary {
    if ts == [] then NOTHING else CountTrash(TrashTally(ts[..|ts| - 1]), ts[|ts| - 1])
  }

  lemma {:induction false} TrashTallyAddsUp(ts: seq<TrashTurn>)
    ensures var s := TrashTally(ts);
      && s.succeeded + s.incomplete == |ts| && s.failed == s.incomplete == |s.failures| && s.skipped == 0
  {
    if ts != [] {
      TrashTallyAddsUp(ts[..|ts| - 1]);
    }
  }

  predicate WasTrashed(t: TrashTurn) {
    !t.result.Failed?
  }

  predicate FailedToTrash(t: TrashTurn) {
    t.result.Failed?
  }

  predicate IsTrashFailure(f: FailedItem, t: TrashTurn) {
    t.result.Failed? && f == FailedItem(t.source, Refused(t.result.errno))
  }

  /** The summary gives the numbers of items that were trashed and of those that failed, and lists exactly the
      latter, each with its reason. */
  ghost predicate TrashTells(s: Summary, ts: seq<TrashTurn>) {
    && s.succeeded == |Those(ts, WasTrashed)| && s.failed == s.incomplete == |Those(ts, FailedToTrash)|
    && s.skipped == 0 && s.skippedChildren == []
    && forall f :: f in s.failures <==> exists t :: t in ts && IsTrashFailure(f, t)
  }

  lemma {:induction false} TrashSummaryTells(ts: seq<TrashTurn>)
    ensures TrashTells(TrashTally(ts), ts)
  {
    if ts == [] {
      assert Those(ts, WasTrashed) == {} && Those(ts, FailedToTrash) == {};
    } else {
      var init, last := ts[..|ts| - 1], ts[|ts| - 1];
      assert ts == init + [last];
      TrashSummaryTells(init);
      OneMoreOfKind(init, last, WasTrashed);
      OneMoreOfKind(init, last, FailedToTrash);
      forall f
        ensures f in TrashTally(ts).failures <==> exists t :: t in ts && IsTrashFailure(f, t)
      {
        SomeOrLast(init, last, t => IsTrashFailure(f, t));
        assert f in TrashTally(ts).failures <==> f in TrashTally(init).failures || IsTrashFailure(f, last);
      }
    }
  }

  /** What the result of trashing one source says is true of the disk, at its end and at every moment on the
      way; a `sure` call, which nothing disturbs, trashes exactly what can be trashed. */
  ghost predicate TrashTruthful(d: Path, sure: bool, t: TrashTurn, contents: Path -> seq<byte>) {
    && T.AlwaysSafe(t.states, 0, t.before, d, t.source, t.name)
    && (sure ==> (t.result.Trashed? <==> T.Trashable(t.before.tree, d, t.source)))
    && match t.result
       case Trashed(name) => name == t.name && T.InTrash(t.before, t.after, d, t.source, name, contents(t.source))
       case _ => NothingTrashed(d, t.before, t.after, t.stuck)
  }

  /** Nothing has changed, but that a record may have been left behind. */
  ghost predicate NothingTrashed(d: Path, m: Moment, m': Moment, stuck: set<Path>) {
    m'.tree == m.tree || T.RecordStuck(m, m', stuck, d)
  }

  /** The disk went from `m0` to `m` by these turns and by nothing else. */
  ghost predicate TrashChained(ts: seq<TrashTurn>, d: Path, sure: bool, contents: Path -> seq<byte>, m0: Moment,
                               m: Moment)
  {
    if ts == [] then m == m0
    else
      var t := ts[|ts| - 1];
      && t.after == m && !t.result.Cancelled? && TrashTruthful(d, sure, t, contents)
      && TrashChained(ts[..|ts| - 1], d, sure, contents, m0, t.before)
  }

  function TrashStates(ts: seq<TrashTurn>): seq<Moment> {
    if ts == [] then [] else TrashStates(ts[..|ts| - 1]) + ts[|ts| - 1].states
  }

  /** Every payload has its record, at every moment. */
  twostate predicate KeepsRecordFirst(w: Kernel, d: Path)
    reads w
  {
    T.RecordFirst(old(w.tree), d) ==>
      T.AlwaysRecordFirst(w.history, |old(w.history)|, d) && T.RecordFirst(w.tree, d)
  }

  /** Payloads and records stay in one-to-one correspondence, unless a removal is refused. */
  twostate predicate KeepsPaired(w: Kernel, d: Path)
    reads w
  {
    T.Paired(old(w.tree), d) && w.stuck == {} ==> T.Paired(w.tree, d)
  }

  /** One call of trashEntry. */
  method TrashOne(w: Kernel, d: Path, source: Path, contents: Path -> seq<byte>)
    returns (result: T.TrashResult, ghost turn: TrashTurn)
    requires w.Valid()
    modifies w
    ensures w.Valid() && Progress(w) && (result.Cancelled? ==> w.cancelled)
    ensures !T.OwnRecord(d, source) ==> KeepsRecordFirst(w, d)
    ensures !T.OwnPiece(d, source) ==> KeepsPaired(w, d)
    ensures turn.source == source && turn.result == result && turn.before == old(Now(w)) && turn.after == Now(w)
    ensures turn.stuck == w.stuck && w.history == old(w.history) + turn.states
    ensures TrashTruthful(d, w.undisturbed && !old(w.cancelled), turn, contents)
  {
    ghost var h, m := w.history, Now(w);
    ghost var n;
    result, n := T.TrashEntry(w, d, source, contents(source));
    turn := TrashTurn(source, n, m, Added(h, w.history), Now(w), w.stuck, result);
  }

  /** One turn of the loop over the sources; `more` says that the loop goes on. */
  method TrashItem(w: Kernel, d: Path, source: Path, contents: Path -> seq<byte>, summary: Summary)
    returns (s: Summary, more: bool, ghost turn: Option<TrashTurn>)
    requires w.Valid()
    modifies w
    ensures w.Valid() && Progress(w)
    ensures !T.OwnRecord(d, source) ==> KeepsRecordFirst(w, d)
    ensures !T.OwnPiece(d, source) ==> KeepsPaired(w, d)
    ensures turn.None? ==> !more && Now(w) == old(Now(w)) && w.history == old(w.history)
    ensures turn.Some? ==>
      && turn.value.source == source && turn.value.before == old(Now(w)) && turn.value.after == Now(w)
      && turn.value.stuck == w.stuck && w.history == old(w.history) + turn.value.states
      && TrashTruthful(d, w.undisturbed, turn.value, contents) && more == !turn.value.result.Cancelled?
    ensures if more then s == CountTrash(summary, turn.value) else s == summary && w.cancelled
    ensures old(w.cancelled) ==> turn == None
  {
    s, more, turn := summary, false, None;
    var c := w.LoadCancel();
    if c {
      return;
    }
    var result;
    ghost var one;
    result, one := TrashOne(w, d, source, contents);
    turn := Some(one);
    if result.Cancelled? {
      return;
    }
    more := true;
    if result.Failed? {
      s := s.(failed := s.failed + 1, incomplete := s.incomplete + 1,
              failures := s.failures + [FailedItem(source, Refused(result.errno))]);
    } else {
      s := s.(succeeded := s.succeeded + 1);
    }
  }

  ghost predicate TrashBooks(ts: seq<TrashTurn>, summary: Summary, sources: seq<Path>, d: Path, sure: bool,
                             contents: Path -> seq<byte>, m0: Moment, m: Moment) {
    && |ts| <= |sources| && summary == TrashTally(ts) && TrashChained(ts, d, sure, contents, m0, m)
    && forall k | 0 <= k < |ts| :: ts[k].source == sources[k]
  }

  /** The call that the user cancelled, if there was one: it has touched nothing. */
  ghost predicate Stopped(stopped: Option<TrashTurn>, ts: seq<TrashTurn>, sources: seq<Path>, d: Path, sure: bool,
                          contents: Path -> seq<byte>, last: Moment, m: Moment)
  {
    match stopped
    case None => m == last
    case Some(t) =>
      && |ts| < |sources| && t.source == sources[|ts|] && t.before == last && t.after == m
      && t.result.Cancelled? && TrashTruthful(d, sure, t, contents)
  }

  /** The books are in order, and the disk has passed through the states they name since its history was `h0`. */
  ghost predicate TrashInOrder(ts: seq<TrashTurn>, summary: Summary, sources: seq<Path>, d: Path, sure: bool,
                               contents: Path -> seq<byte>, m0: Moment, m: Moment, h0: seq<Moment>, h: seq<Moment>)
  {
    TrashBooks(ts, summary, sources, d, sure, contents, m0, m) && h == h0 + TrashStates(ts)
  }

  lemma {:induction false} NextTrashInOrder(ts: seq<TrashTurn>, summary: Summary, sources: seq<Path>, d: Path,
      sure: bool, contents: Path -> seq<byte>, m0: Moment, h0: seq<Moment>, h: seq<Moment>, t: TrashTurn)
    requires TrashInOrder(ts, summary, sources, d, sure, contents, m0, t.before, h0, h)
    requires !t.result.Cancelled? && TrashTruthful(d, sure, t, contents)
    requires |ts| < |sources| && t.source == sources[|ts|]
    ensures TrashInOrder(ts + [t], CountTrash(summary, t), sources, d, sure, contents, m0, t.after, h0, h + t.states)
  {
    Associate(h0, TrashStates(ts), t.states);
  }

  lemma JoinRecordFirst(h: seq<Moment>, h': seq<Moment>, from: nat, d: Path)
    requires h <= h' && from <= |h| && T.AlwaysRecordFirst(h, from, d) && T.AlwaysRecordFirst(h', |h|, d)
    ensures T.AlwaysRecordFirst(h', from, d)
  {
    forall i | from <= i < |h'|
      ensures T.RecordFirst(h'[i].tree, d)
    {
      if i < |h| {
        assert h'[i] == h[i];
      }
    }
  }

  /** The turn for the source after those decided, taken into the books. */
  method TakeTrashItem(w: Kernel, d: Path, sources: seq<Path>, i: nat, contents: Path -> seq<byte>, summary: Summary,
                       ghost ts: seq<TrashTurn>, ghost m0: Moment, ghost h0: seq<Moment>)
    returns (s: Summary, more: bool, ghost ts': seq<TrashTurn>, ghost stopped: Option<TrashTurn>, ghost last: Moment)
    requires w.Valid() && |ts| == i < |sources|
    requires TrashInOrder(ts, summary, sources, d, w.undisturbed, contents, m0, Now(w), h0, w.history)
    modifies w
    ensures w.Valid() && Progress(w)
    ensures !T.OwnRecord(d, sources[i]) ==> KeepsRecordFirst(w, d)
    ensures !T.OwnPiece(d, sources[i]) ==> KeepsPaired(w, d)
    ensures more ==> |ts'| == i + 1 && stopped == None && last == Now(w)
    ensures !more ==> w.cancelled && ts' == ts && s == summary && last == old(Now(w))
    ensures old(w.cancelled) ==> !more && stopped == None && Untouched(w)
    ensures Stopped(stopped, ts', sources, d, w.undisturbed, contents, last, Now(w))
    ensures TrashBooks(ts', s, sources, d, w.undisturbed, contents, m0, last)
    ensures w.history == h0 + TrashStates(ts') + if stopped.Some? then stopped.value.states else []
  {
    ghost var h := w.history;
    ghost var turn;
    last := Now(w);
    s, more, turn := TrashItem(w, d, sources[i], contents, summary);
    ts', stopped := ts, None;
    if more {
      NextTrashInOrder(ts, summary, sources, d, w.undisturbed, contents, m0, h0, h, turn.value);
      ts', last := ts + [turn.value], Now(w);
    } else {
      stopped := turn;
    }
  }

  /** Trashes the sources one by one: a prefix of them is decided, proper only after a cancellation, the summary is
      its tally, and the disk passed through the states of these calls, each truthful, and through no other. */
  method ProcessTrashTask(w: Kernel, d: Path, sources: seq<Path>, contents: Path -> seq<byte>)
    returns (summary: Summary, ghost turns: seq<TrashTurn>, ghost stopped: Option<TrashTurn>, ghost last: Moment)
    requires w.Valid()
    modifies w
    ensures w.Valid() && Progress(w)
    ensures (forall s | s in sources :: !T.OwnRecord(d, s)) ==> KeepsRecordFirst(w, d)
    ensures (forall s | s in sources :: !T.OwnPiece(d, s)) ==> KeepsPaired(w, d)
    ensures TrashBooks(turns, summary, sources, d, w.undisturbed, contents, old(Now(w)), last)
    ensures Stopped(stopped, turns, sources, d, w.undisturbed, contents, last, Now(w))
    ensures w.history ==
      old(w.history) + TrashStates(turns) + if stopped.Some? then stopped.value.states else []
    ensures |turns| < |sources| ==> w.cancelled
    ensures TrashTells(summary, turns) && summary.succeeded + summary.incomplete == |turns|
    ensures old(w.cancelled) ==> turns == [] && Untouched(w)
  {
    summary, turns, stopped, last := NOTHING, [], None, Now(w);
    ghost var h0, s0, c0, m0 := w.history, w.stuck, w.cancelled, Now(w);
    ghost var first := T.RecordFirst(m0.tree, d) && forall s | s in sources :: !T.OwnRecord(d, s);
    ghost var apart := forall s | s in sources :: !T.OwnPiece(d, s);
    for i := 0 to |sources|
      invariant w.Valid() && Since(w, h0, s0, c0) && |turns| == i && last == Now(w) && stopped == None
      invariant first ==> T.AlwaysRecordFirst(w.history, |h0|, d) && T.RecordFirst(w.tree, d)
      invariant apart && T.Paired(m0.tree, d) && w.stuck == {} ==> T.Paired(w.tree, d)
      invariant TrashInOrder(turns, summary, sources, d, w.undisturbed, contents, m0, Now(w), h0, w.history)
      invariant c0 ==> turns == [] && Now(w) == m0 && w.history == h0
    {
      ghost var h := w.history;
      var more;
      summary, more, turns, stopped, last := TakeTrashItem(w, d, sources, i, contents, summary, turns, m0, h0);
      if first {
        JoinRecordFirst(h, w.history, |h0|, d);
      }
      if !more {
        break;
      }
    }
    TrashTallyAddsUp(turns);
    TrashSummaryTells(turns);
  }
}
