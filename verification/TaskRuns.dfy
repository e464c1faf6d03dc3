/** What becomes of every task: over any run, each accepted task has started, still waits or was given
    up by one of the four steps that give tasks up. */
module TaskRuns {
  import opened TaskProtocol

  /** The tasks that started, then those that wait, in the order of their start. */
  function Pending(s: State): seq<Task> {
    s.log.started + s.g.queue
  }

  /** The task a step adds: a request names something and comes before shutdown. */
  function Accepted(s: State, step: Step): seq<Task> {
    if step.Enqueue? && s.g.between == Free && step.sources != [] && !s.g.stopping
    then [Task(step.kind, step.sources, s.g.nextTaskId + 1)]
    else []
  }

  /** The user answers the prompt that is on the screen. */
  predicate Answers(s: State, kind: PromptKind, request: nat) {
    s.g.promptKind == kind && s.g.promptId == request
  }

  /** The waiting tasks a step gives up: all of them on a cancellation or at shutdown, the asked one on a
      no to its trash prompt. */
  function GivenUp(s: State, step: Step): seq<Task> {
    if s.g.between != Free then []
    else
      match step
      case CancelCurrent => s.g.queue
      case Shutdown => s.g.queue
      case Resolve(resolution, request) =>
        if resolution == Cancel && Answers(s, Conflict, request) then s.g.queue else []
      case RespondTrash(confirmed, request) =>
        if !confirmed && Answers(s, TrashConfirm, request) && s.g.queue != [] then s.g.queue[..1] else []
      case _ => []
  }

  function AcceptedIn(s: State, steps: seq<Step>): seq<Task>
    decreases |steps|
  {
    if steps == [] then []
    else
      var rest := steps[..|steps| - 1];
      AcceptedIn(s, rest) + Accepted(Run(s, rest), steps[|steps| - 1])
  }

  function GivenUpIn(s: State, steps: seq<Step>): seq<Task>
    decreases |steps|
  {
    if steps == [] then []
    else
      var rest := steps[..|steps| - 1];
      GivenUpIn(s, rest) + GivenUp(Run(s, rest), steps[|steps| - 1])
  }

  /** Dispatching moves the first waiting task to the end of the started ones, or moves none. */
  lemma DispatchMoves(s: State)
    ensures Pending(DispatchNext(s)) == Pending(s) && DispatchNext(s).g.nextTaskId == s.g.nextTaskId
  {
    if s.g.queue != [] {
      assert s.g.queue == [s.g.queue[0]] + s.g.queue[1..];
    }
  }

  /** What started stays first, what waited and is not given up keeps its order, and an accepted task comes
      last. */
  ghost predicate Conserves(s: State, step: Step) {
    && GivenUp(s, step) <= s.g.queue
    && Pending(Next(s, step)) == s.log.started + s.g.queue[|GivenUp(s, step)|..] + Accepted(s, step)
    && Next(s, step).g.nextTaskId == s.g.nextTaskId + |Accepted(s, step)|
  }

  lemma ConsentConserves(s: State, request: nat)
    requires s.g.between == Free && Answers(s, TrashConfirm, request) && s.g.queue != []
    ensures Conserves(s, RespondTrash(true, request))
  {
    assert s.g.queue == [s.g.queue[0]] + s.g.queue[1..];
  }

  lemma RespondConserves(s: State, confirmed: bool, request: nat)
    requires s.g.between == Free
    ensures Conserves(s, RespondTrash(confirmed, request))
  {
    if Answers(s, TrashConfirm, request) && s.g.queue != [] {
      if confirmed {
        ConsentConserves(s, request);
      }
    }
  }

  lemma EnqueueConserves(s: State, kind: TaskKind, sources: seq<string>)
    requires s.g.between == Free
    ensures Conserves(s, Enqueue(kind, sources))
  {
    DispatchMoves(s.(g := Append(s.g, kind, sources)));
  }

  lemma DeliverConserves(s: State)
    requires s.g.between == Free
    ensures Conserves(s, Deliver)
  {
    if s.w.inbox != [] && s.w.inbox[0].TaskFinished? {
      DispatchMoves(State(ResetPrompt(s.g).(activeTaskId := 0, busy := false), s.w.(inbox := s.w.inbox[1..]), s.log));
    }
  }

  lemma CancelConserves(s: State)
    requires s.g.between == Free
    ensures Conserves(s, CancelCurrent)
  {
  }

  lemma ShutdownConserves(s: State)
    requires Prompts(s) && s.g.between == Free
    ensures Conserves(s, Shutdown)
  {
  }

  lemma ResolveConserves(s: State, resolution: Resolution, request: nat)
    requires Inv(s) && s.g.between == Free
    ensures Conserves(s, Resolve(resolution, request))
  {
    if resolution == Cancel && Answers(s, Conflict, request) {
      assert s.g.busy && s.g.current in s.w.cells && s.g.current > 0 && !Cancelled(s);
      CancelConserves(s);
    }
  }

  /** The worker's steps, the release, and every GUI step while another GUI method is under way. */
  lemma OtherConserves(s: State, step: Step)
    requires step.Work? || step.Release? || s.g.between != Free
    ensures Conserves(s, step)
  {
  }

  lemma StepConserves(s: State, step: Step)
    requires Inv(s)
    ensures Conserves(s, step)
  {
    if step.Work? || step.Release? || s.g.between != Free {
      OtherConserves(s, step);
    } else {
      match step
      case Enqueue(kind, sources) => EnqueueConserves(s, kind, sources);
      case RespondTrash(confirmed, request) => RespondConserves(s, confirmed, request);
      case Deliver => DeliverConserves(s);
      case CancelCurrent => CancelConserves(s);
      case Shutdown => ShutdownConserves(s);
      case Resolve(resolution, request) => ResolveConserves(s, resolution, request);
    }
  }

  /** The accepted tasks, numbered from 1 in the order of the requests, are the started, the waiting and the
      given-up ones, each counted once. */
  ghost predicate Balanced(s: State, accepted: seq<Task>, gone: seq<Task>) {
    && |accepted| == s.g.nextTaskId && (forall i | 0 <= i < |accepted| :: accepted[i].id == i + 1)
    && multiset(s.log.started) + multiset(s.g.queue) + multiset(gone) == multiset(accepted)
  }

  lemma CarriesOver(a: multiset<Task>, a': multiset<Task>, out: multiset<Task>, in_: multiset<Task>,
                    gone: multiset<Task>, all: multiset<Task>)
    requires a' + out == a + in_ && a + gone == all
    ensures a' + (gone + out) == all + in_
  {
    calc {
      a' + (gone + out);
      (a' + out) + gone;
      (a + in_) + gone;
      (a + gone) + in_;
    }
  }

  lemma MoveBalances(s: State, s': State, given: seq<Task>, new_: seq<Task>, accepted: seq<Task>, gone: seq<Task>)
    requires Balanced(s, accepted, gone) && given <= s.g.queue
    requires Pending(s') == s.log.started + s.g.queue[|given|..] + new_
    requires s'.g.nextTaskId == s.g.nextTaskId + |new_|
    requires forall i | 0 <= i < |new_| :: new_[i].id == |accepted| + i + 1
    ensures Balanced(s', accepted + new_, gone + given)
  {
    Recount(s.log.started, s.g.queue, given, new_, s'.log.started, s'.g.queue);
    assert multiset(gone + given) == multiset(gone) + multiset(given);
    assert multiset(accepted + new_) == multiset(accepted) + multiset(new_);
    var pending := multiset(s.log.started) + multiset(s.g.queue);
    var pending' := multiset(s'.log.started) + multiset(s'.g.queue);
    CarriesOver(pending, pending', multiset(given), multiset(new_), multiset(gone), multiset(accepted));
    forall i | 0 <= i < |accepted + new_| ensures (accepted + new_)[i].id == i + 1 {
      if i >= |accepted| {
        assert (accepted + new_)[i] == new_[i - |accepted|];
      }
    }
  }

  lemma StepBalances(s: State, step: Step, accepted: seq<Task>, gone: seq<Task>)
    requires Inv(s) && Balanced(s, accepted, gone)
    ensures Balanced(Next(s, step), accepted + Accepted(s, step), gone + GivenUp(s, step))
  {
    StepConserves(s, step);
    MoveBalances(s, Next(s, step), GivenUp(s, step), Accepted(s, step), accepted, gone);
  }

  /** Over any run no task is lost and none is made up. */
  lemma {:induction false} NoTaskIsLost(steps: seq<Step>)
    ensures Balanced(Run(INITIAL, steps), AcceptedIn(INITIAL, steps), GivenUpIn(INITIAL, steps))
    decreases |steps|
  {
    if steps != [] {
      var rest := steps[..|steps| - 1];
      NoTaskIsLost(rest);
      RunKeepsInv(INITIAL, rest);
      StepBalances(Run(INITIAL, rest), steps[|steps| - 1], AcceptedIn(INITIAL, rest), GivenUpIn(INITIAL, rest));
    }
  }

  lemma Recount(started: seq<Task>, queue: seq<Task>, gone: seq<Task>, new_: seq<Task>,
                started': seq<Task>, queue': seq<Task>)
    requires gone <= queue && started' + queue' == started + queue[|gone|..] + new_
    ensures multiset(started') + multiset(queue') + multiset(gone)
            == multiset(started) + multiset(queue) + multiset(new_)
  {
    assert queue == gone + queue[|gone|..];
    assert multiset(started' + queue') == multiset(started') + multiset(queue');
  }

  ghost predicate Has(tasks: seq<Task>, id: nat) {
    exists i | 0 <= i < |tasks| :: tasks[i].id == id
  }

  /** Step `i` of the run gives the task up. */
  ghost predicate GivesUp(steps: seq<Step>, i: nat, id: nat)
    requires i < |steps|
  {
    Has(GivenUp(Run(INITIAL, steps[..i]), steps[i]), id)
  }

  ghost predicate WasGivenUp(steps: seq<Step>, id: nat) {
    exists i | 0 <= i < |steps| :: GivesUp(steps, i, id)
  }

  lemma HasEither(a: seq<Task>, b: seq<Task>, id: nat)
    ensures Has(a + b, id) <==> Has(a, id) || Has(b, id)
  {
    assert forall i | 0 <= i < |a| :: (a + b)[i] == a[i];
    assert forall i | 0 <= i < |b| :: (a + b)[|a| + i] == b[i];
  }

  lemma SameGift(steps: seq<Step>, n: nat, i: nat, id: nat)
    requires i < n <= |steps|
    ensures GivesUp(steps[..n], i, id) <==> GivesUp(steps, i, id)
  {
    assert steps[..n][..i] == steps[..i] && steps[..n][i] == steps[i];
  }

  lemma GivenUpEarlier(steps: seq<Step>, id: nat)
    requires steps != []
    ensures var n := |steps| - 1;
      WasGivenUp(steps, id) <==> WasGivenUp(steps[..n], id) || GivesUp(steps, n, id)
  {
    var n := |steps| - 1;
    forall i: nat | i < n ensures GivesUp(steps[..n], i, id) <==> GivesUp(steps, i, id) {
      SameGift(steps, n, i, id);
    }
  }

  lemma {:induction false} GivenUpSomewhere(steps: seq<Step>, id: nat)
    ensures Has(GivenUpIn(INITIAL, steps), id) <==> WasGivenUp(steps, id)
    decreases |steps|
  {
    if steps != [] {
      var rest, n := steps[..|steps| - 1], |steps| - 1;
      GivenUpSomewhere(rest, id);
      GivenUpEarlier(steps, id);
      HasEither(GivenUpIn(INITIAL, rest), GivenUp(Run(INITIAL, rest), steps[n]), id);
    }
  }

  /** The exact fate of a task: every accepted one has started, waits or was given up, never two of these;
      so it is neither started nor waiting if and only if a step of the run gave it up. */
  lemma EveryTaskHasOneFate(steps: seq<Step>, id: nat)
    requires 0 < id <= Run(INITIAL, steps).g.nextTaskId
    ensures var s := Run(INITIAL, steps);
      && (WasGivenUp(steps, id) <==> !Has(s.log.started, id) && !Has(s.g.queue, id))
      && !(Has(s.log.started, id) && Has(s.g.queue, id))
  {
    NoTaskIsLost(steps);
    GivenUpSomewhere(steps, id);
    var s := Run(INITIAL, steps);
    OneFate(s.log.started, s.g.queue, GivenUpIn(INITIAL, steps), AcceptedIn(INITIAL, steps), id);
  }

  lemma OneFate(started: seq<Task>, queue: seq<Task>, gone: seq<Task>, accepted: seq<Task>, id: nat)
    requires 0 < id <= |accepted| && forall i | 0 <= i < |accepted| :: accepted[i].id == i + 1
    requires multiset(started) + multiset(queue) + multiset(gone) == multiset(accepted)
    ensures Has(gone, id) <==> !Has(started, id) && !Has(queue, id)
    ensures !(Has(started, id) && Has(queue, id))
  {
    var t, all := accepted[id - 1], multiset(accepted);
    OnlyOnce(accepted, id - 1);
    assert forall u | u in all && u.id == id :: u == t by {
      forall u | u in all && u.id == id ensures u == t {
        var i :| 0 <= i < |accepted| && accepted[i] == u;
      }
    }
    assert multiset(started)[t] + multiset(queue)[t] + multiset(gone)[t] == all[t];
    HasIffIn(started, all, t);
    HasIffIn(queue, all, t);
    HasIffIn(gone, all, t);
  }

  lemma HasIffIn(tasks: seq<Task>, all: multiset<Task>, t: Task)
    requires multiset(tasks) <= all && forall u | u in all && u.id == t.id :: u == t
    ensures Has(tasks, t.id) <==> multiset(tasks)[t] > 0
  {
  }

  /** A task with a number of its own occurs once. */
  lemma {:induction false} OnlyOnce(tasks: seq<Task>, k: nat)
    requires k < |tasks| && forall i | 0 <= i < |tasks| :: tasks[i].id == i + 1
    ensures multiset(tasks)[tasks[k]] == 1
  {
    assert tasks == tasks[..k] + [tasks[k]] + tasks[k + 1..];
  }

  /** Steps that give no task up. */
  predicate Spares(step: Step) {
    Harmless(step) && !(step.RespondTrash? && !step.confirmed)
  }

  lemma SparingStep(s: State, step: Step, line: seq<Task>, added: seq<Task>)
    requires Inv(s) && Spares(step) && Pending(s) == line + added
    ensures Pending(Next(s, step)) == line + (added + Accepted(s, step))
  {
    StepConserves(s, step);
  }

  /** While nobody cancels or says no, nothing leaves the line and nothing overtakes. */
  lemma {:induction false} LineIsKept(s: State, steps: seq<Step>)
    requires Inv(s) && forall i | 0 <= i < |steps| :: Spares(steps[i])
    ensures Pending(Run(s, steps)) == Pending(s) + AcceptedIn(s, steps)
    decreases |steps|
  {
    if steps != [] {
      var rest := steps[..|steps| - 1];
      LineIsKept(s, rest);
      RunKeepsInv(s, rest);
      SparingStep(Run(s, rest), steps[|steps| - 1], Pending(s), AcceptedIn(s, rest));
    }
  }

  /** `low` tasks were accepted before these. */
  ghost predicate NumberedFrom(tasks: seq<Task>, low: nat) {
    forall i | 0 <= i < |tasks| :: tasks[i].id == low + i + 1
  }

  lemma NumberedOn(tasks: seq<Task>, low: nat, s: State, step: Step)
    requires Inv(s) && NumberedFrom(tasks, low) && s.g.nextTaskId == low + |tasks|
    ensures NumberedFrom(tasks + Accepted(s, step), low)
    ensures Next(s, step).g.nextTaskId == low + |tasks + Accepted(s, step)|
  {
    StepConserves(s, step);
  }

  lemma {:induction false} AcceptedAreNumbered(s: State, steps: seq<Step>)
    requires Inv(s)
    ensures Run(s, steps).g.nextTaskId == s.g.nextTaskId + |AcceptedIn(s, steps)|
    ensures NumberedFrom(AcceptedIn(s, steps), s.g.nextTaskId)
    decreases |steps|
  {
    if steps != [] {
      var rest := steps[..|steps| - 1];
      AcceptedAreNumbered(s, rest);
      RunKeepsInv(s, rest);
      NumberedOn(AcceptedIn(s, rest), s.g.nextTaskId, Run(s, rest), steps[|steps| - 1]);
    }
  }

  /** From a state in which no task waits, every later request starts in its turn or still waits for it. */
  lemma LaterTasksStay(s: State, steps: seq<Step>, id: nat)
    requires Inv(s) && s.g.queue == [] && forall i | 0 <= i < |steps| :: Spares(steps[i])
    ensures Pending(Run(s, steps)) == s.log.started + AcceptedIn(s, steps)
    ensures s.g.nextTaskId < id <= Run(s, steps).g.nextTaskId ==>
      Has(Run(s, steps).log.started, id) || Has(Run(s, steps).g.queue, id)
  {
    LineIsKept(s, steps);
    AcceptedAreNumbered(s, steps);
    assert Pending(s) == s.log.started;
    if s.g.nextTaskId < id <= Run(s, steps).g.nextTaskId {
      InLine(Run(s, steps), s.log.started, AcceptedIn(s, steps), id - s.g.nextTaskId - 1, id);
    }
  }

  /** Cancelling takes nothing from a task enqueued afterwards: it starts in its turn or still waits for it,
      and its flag is down. */
  lemma CancelSparesLaterTasks(s: State, steps: seq<Step>, id: nat)
    requires Inv(s) && s.g.between == Free && forall i | 0 <= i < |steps| :: Spares(steps[i])
    ensures var s' := Run(CancelTask(s), steps);
      && Pending(s') == s.log.started + AcceptedIn(CancelTask(s), steps)
      && (s.g.nextTaskId < id <= s'.g.nextTaskId ==>
            (Has(s'.log.started, id) || Has(s'.g.queue, id)) && !Flagged(s', id))
  {
    CancelKeepsInv(s);
    LaterTasksStay(CancelTask(s), steps, id);
    if id > s.g.nextTaskId {
      NoOldFlag(s, steps, id);
    }
  }

  lemma InLine(s: State, before: seq<Task>, added: seq<Task>, k: nat, id: nat)
    requires Pending(s) == before + added && k < |added| && added[k].id == id
    ensures Has(s.log.started, id) || Has(s.g.queue, id)
  {
    assert (before + added)[|before| + k] == added[k];
    HasEither(s.log.started, s.g.queue, id);
  }

  lemma NoOldFlag(s: State, steps: seq<Step>, id: nat)
    requires Inv(s) && s.g.between == Free && forall i | 0 <= i < |steps| :: Spares(steps[i])
    requires id > s.g.nextTaskId
    ensures !Flagged(Run(CancelTask(s), steps), id)
  {
    CancelKeepsInv(s);
    if Flagged(Run(CancelTask(s), steps), id) {
      CancelIsLocal(CancelTask(s), steps, id);
      assert false;
    }
  }
}
