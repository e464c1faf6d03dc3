/** What the user's word does to the running job, and what a job does with its items. */
module TaskOutcomes {
  import opened TaskProtocol

  // ----- cancelling -----

  /** The user calls the running job off: the cancel command, Cancel at the shown prompt, or closing the window. */
  predicate CallsOff(s: State, step: Step) {
    || step == CancelCurrent
    || (step.Shutdown? && !s.g.stopping)
    || (step.Resolve? && step.resolution == Cancel && s.g.promptKind == Conflict && step.request == s.g.promptId)
  }

  /** The flag of the running job is up at once, whatever it is doing; no prompt is left on the screen, nothing
      waits behind it, and a token is owed to the worker. */
  lemma CancelReachesJob(s: State, step: Step)
    requires Inv(s) && s.g.between == Free && s.g.busy && CallsOff(s, step)
    ensures var s' := Next(s, step);
      && Flagged(s', s.g.activeTaskId) && s'.g.between == MustRelease && s'.g.promptKind == NoPrompt
      && s'.g.queue == [] && s'.w.jobs == s.w.jobs
  {
  }

  /** What is owed is given: one token to the cell the GUI refers to, and to no other. */
  lemma ReleaseGivesToken(s: State)
    requires Inv(s) && s.g.between == MustRelease
    ensures var s' := Next(s, Release);
      && s'.g.between == Free && s.g.current in s.w.cells
      && s'.w.cells == s.w.cells[s.g.current :=
           s.w.cells[s.g.current].(tokens := s.w.cells[s.g.current].tokens + 1)]
  {
  }

  /** The job has left the worker, or is still at the item it was at, or past it and about to leave. */
  ghost predicate NoFurther(s: State, id: nat, item: nat) {
    && Flagged(s, id) && id <= LastId(s.log.started)
    && (s.w.jobs != [] && s.w.jobs[0].task.id == id ==>
          var j := s.w.jobs[0]; j.item == item || (j.item == item + 1 && j.phase in {Head, Finishing}))
  }

  lemma AskingGoesNoFurther(s: State, collides: bool, aborted: bool, id: nat, item: nat)
    requires OneJob(s) && NoFurther(s, id, item) && s.w.jobs != [] && OnConflictPath(s.w.jobs[0].phase)
    ensures NoFurther(Next(s, Work(collides, aborted)), id, item)
  {
  }

  lemma WorkGoesNoFurther(s: State, collides: bool, aborted: bool, id: nat, item: nat)
    requires Inv(s) && NoFurther(s, id, item)
    ensures NoFurther(Next(s, Work(collides, aborted)), id, item)
  {
    if s.w.jobs != [] {
      if OnConflictPath(s.w.jobs[0].phase) {
        AskingGoesNoFurther(s, collides, aborted, id, item);
      }
    }
  }

  lemma GuiGoesNoFurther(s: State, step: Step, id: nat, item: nat)
    requires Inv(s) && NoFurther(s, id, item) && !step.Work?
    ensures NoFurther(Next(s, step), id, item)
  {
    FlagIsKept(s, step, id);
    if Next(s, step).log.started == s.log.started {
      GuiKeepsJobs(s, step);
    } else {
      StartsOnlyWhenIdle(s, step);
      NewIsLater(s, step);
    }
  }

  lemma {:induction false} RunGoesNoFurther(s: State, steps: seq<Step>, id: nat, item: nat)
    requires Inv(s) && NoFurther(s, id, item)
    ensures NoFurther(Run(s, steps), id, item)
    decreases |steps|
  {
    if steps != [] {
      var rest, step := steps[..|steps| - 1], steps[|steps| - 1];
      RunGoesNoFurther(s, rest, id, item);
      RunKeepsInv(s, rest);
      if step.Work? {
        WorkGoesNoFurther(Run(s, rest), step.collides, step.aborted, id, item);
      } else {
        GuiGoesNoFurther(Run(s, rest), step, id, item);
      }
    }
  }

  /** In every run, a job that the user calls off begins no item after the one it is at, and has left the worker
      after seven of its own steps at most, whatever happens meanwhile. */
  lemma CalledOffJobEnds(before: seq<Step>, step: Step, after: seq<Step>)
    requires var s := Run(INITIAL, before); s.g.between == Free && s.g.busy && s.w.jobs != [] && CallsOff(s, step)
    ensures var s, s' := Run(INITIAL, before), Run(Next(Run(INITIAL, before), step), after);
      var id := s.g.activeTaskId;
      && NoFurther(s', id, s.w.jobs[0].item)
      && (WorkSteps(after) >= 7 ==> s'.w.jobs == [] || s'.w.jobs[0].task.id != id)
  {
    var s := Run(INITIAL, before);
    RunKeepsInv(INITIAL, before);
    CancelReachesJob(s, step);
    NextKeepsInv(s, step);
    CalledOffFrom(s, Next(s, step), after);
  }

  lemma CalledOffFrom(s: State, s1: State, after: seq<Step>)
    requires Inv(s) && Inv(s1) && s.w.jobs != [] && s1.w.jobs == s.w.jobs && Flagged(s1, s.g.activeTaskId)
    ensures NoFurther(Run(s1, after), s.g.activeTaskId, s.w.jobs[0].item)
    ensures WorkSteps(after) >= 7 ==>
      Run(s1, after).w.jobs == [] || Run(s1, after).w.jobs[0].task.id != s.g.activeTaskId
  {
    RunGoesNoFurther(s1, after, s.g.activeTaskId, s.w.jobs[0].item);
    CancelledJobEnds(s1, after, s.g.activeTaskId);
    NothingLeft(Run(s1, after), s.g.activeTaskId);
  }

  lemma NothingLeft(s: State, id: nat)
    ensures Left(s, id) == 0 ==> s.w.jobs == [] || s.w.jobs[0].task.id != id
  {
  }

  // ----- answers to the prompts -----

  /** A yes to the trash prompt starts the very task the prompt is about, at once. */
  lemma ConsentStarts(s: State, request: nat)
    requires Inv(s) && s.g.between == Free && s.g.promptKind == TrashConfirm && s.g.promptId == request
    ensures var s' := Next(s, RespondTrash(true, request));
      && s.g.queue != [] && s.w.issued[request] == s.g.queue[0].id
      && s'.log.started == s.log.started + [s.g.queue[0]] && s'.g.queue == s.g.queue[1..]
      && s'.g.busy && s'.w.jobs == [Job(s.g.queue[0], 0, Queued, 0, -1)] && !Cancelled(s')
  {
  }

  /** A no to it starts nothing of it: whatever starts instead is another task, that asks for nothing. */
  lemma RefusalDrops(s: State, request: nat)
    requires Inv(s) && s.g.between == Free && s.g.promptKind == TrashConfirm && s.g.promptId == request
    ensures var s' := Next(s, RespondTrash(false, request));
      && (s'.log.started == s.log.started
          || (|s.g.queue| > 1 && s.g.queue[1].kind != TrashTask
              && s'.log.started == s.log.started + [s.g.queue[1]]))
      && s.g.queue[0] !in s'.g.queue
  {
    var s' := Next(s, RespondTrash(false, request));
    assert forall t | t in s'.g.queue :: t in s.g.queue[1..];
    assert forall i | 0 < i < |s.g.queue| :: s.g.queue[0].id < s.g.queue[i].id;
  }

  /** An answer that is not to the prompt on the screen changes nothing. */
  lemma OtherAnswersAreIgnored(s: State, step: Step)
    requires s.g.between == Free
    requires (step.RespondTrash? && !(s.g.promptKind == TrashConfirm && step.request == s.g.promptId))
      || (step.Resolve? && !(s.g.promptKind == Conflict && step.request == s.g.promptId))
    ensures Next(s, step) == s
  {
  }

  /** A copy or a move that finds nothing running and nothing asked starts at once. */
  lemma IdleStartsAtOnce(s: State, kind: TaskKind, sources: seq<string>)
    requires Inv(s) && s.g.between == Free && !s.g.busy && s.g.promptKind == NoPrompt && !s.g.stopping
    requires kind != TrashTask && sources != []
    ensures var task := Task(kind, sources, s.g.nextTaskId + 1);
      var s' := Next(s, Enqueue(kind, sources));
      && s'.log.started == s.log.started + [task] && s'.w.jobs == [Job(task, 0, Queued, 0, -1)] && s'.g.busy
  {
  }

  /** The task the window names: the running one, or the one the trash prompt is about, and none when nothing runs
      and nothing is asked. */
  ghost predicate NamesTask(s: State) {
    if s.g.busy then s.g.activeTaskId == s.g.current > 0
    else if s.g.promptKind == TrashConfirm then s.g.queue != [] && s.g.activeTaskId == s.g.queue[0].id
    else !s.g.stopping ==> s.g.activeTaskId == 0
  }

  lemma StepNamesTask(s: State, step: Step)
    requires Inv(s) && NamesTask(s)
    ensures NamesTask(Next(s, step))
  {
    NextKeepsInv(s, step);
  }

  /** In every run. */
  lemma {:induction false} RunNamesTask(steps: seq<Step>)
    ensures NamesTask(Run(INITIAL, steps))
    decreases |steps|
  {
    if steps != [] {
      RunNamesTask(steps[..|steps| - 1]);
      RunKeepsInv(INITIAL, steps[..|steps| - 1]);
      StepNamesTask(Run(INITIAL, steps[..|steps| - 1]), steps[|steps| - 1]);
    }
  }

  /** Every delivery is taken from the queue. That an item began or ended changes nothing else; the end of a task
      leaves no prompt, and the worker free or at the next task; a conflict leaves all but the prompt as it was. */
  lemma DeliveriesAreTaken(s: State)
    requires Inv(s) && s.g.between == Free && s.w.inbox != []
    ensures var s' := Next(s, Deliver);
      && s'.w.inbox == s.w.inbox[1..]
      && match s.w.inbox[0]
         case ItemStarted(_) | ItemFinished(_) => s' == s.(w := s.w.(inbox := s.w.inbox[1..]))
         case TaskFinished(task) =>
           && task == s.g.activeTaskId && s'.g.promptKind != Conflict
           && (if s'.g.busy then s.g.queue != [] && s'.log.started == s.log.started + [s.g.queue[0]]
               else s'.log.started == s.log.started)
         case ConflictDetected(task, request) =>
           && task == s.g.activeTaskId && s'.w == s.w.(inbox := s.w.inbox[1..]) && s'.log == s.log
           && s'.g == s.g.(promptKind := s'.g.promptKind, promptId := s'.g.promptId,
                           lastPromptId := s'.g.lastPromptId)
           && (!Cancelled(s) ==> s'.g.promptKind == Conflict && s'.g.promptId == request)
  {
    if s.w.inbox[0].TaskFinished? {
      TaskIsOver(s);
    } else if s.w.inbox[0].ConflictDetected? && !Cancelled(s) {
      NoticeIsAlone(s);
    }
  }

  lemma TaskIsOver(s: State)
    requires Inv(s) && s.w.inbox != [] && s.w.inbox[0].TaskFinished?
    ensures s.g.busy && s.w.jobs == [] && s.w.inbox == [TaskFinished(s.g.activeTaskId)]
  {
    assert s.w.inbox[0] in s.w.inbox;
  }

  // ----- items -----

  /** A job stops before its last item only when it has been called off. */
  ghost predicate Diligent(s: State) {
    s.w.jobs != [] ==>
      var j := s.w.jobs[0];
      && j.item <= |j.task.sources|
      && (j.phase !in {Queued, Head, Finishing} ==> j.item < |j.task.sources|)
      && (j.phase == Finishing ==> j.item == |j.task.sources| || Flagged(s, j.task.id))
  }

  lemma AskingIsDiligent(s: State, collides: bool, aborted: bool)
    requires Inv(s) && Diligent(s) && s.w.jobs != [] && OnConflictPath(s.w.jobs[0].phase)
    ensures Diligent(Next(s, Work(collides, aborted)))
  {
    assert s.w.jobs[0].phase == Decoding ==> s.w.cells[s.g.current].answer != Code(Cancel);
  }

  lemma ItemIsDiligent(s: State, collides: bool, aborted: bool)
    requires OneJob(s) && Diligent(s) && s.w.jobs != [] && !OnConflictPath(s.w.jobs[0].phase)
    ensures Diligent(Next(s, Work(collides, aborted)))
  {
  }

  lemma WorkIsDiligent(s: State, collides: bool, aborted: bool)
    requires Inv(s) && Diligent(s)
    ensures Diligent(Next(s, Work(collides, aborted)))
  {
    if s.w.jobs != [] {
      if OnConflictPath(s.w.jobs[0].phase) {
        AskingIsDiligent(s, collides, aborted);
      } else {
        ItemIsDiligent(s, collides, aborted);
      }
    }
  }

  lemma GuiIsDiligent(s: State, step: Step)
    requires Inv(s) && Diligent(s) && !step.Work?
    ensures Diligent(Next(s, step))
  {
    if Next(s, step).log.started == s.log.started {
      GuiKeepsJobs(s, step);
      if s.w.jobs != [] && Flagged(s, s.w.jobs[0].task.id) {
        FlagIsKept(s, step, s.w.jobs[0].task.id);
      }
    } else {
      StartsOnlyWhenIdle(s, step);
    }
  }

  /** In every run a job that reports its end has been through all its items, or was called off. */
  lemma {:induction false} JobsAreDiligent(steps: seq<Step>)
    ensures Diligent(Run(INITIAL, steps))
    decreases |steps|
  {
    if steps != [] {
      var rest, step := steps[..|steps| - 1], steps[|steps| - 1];
      JobsAreDiligent(rest);
      RunKeepsInv(INITIAL, rest);
      if step.Work? {
        WorkIsDiligent(Run(INITIAL, rest), step.collides, step.aborted);
      } else {
        GuiIsDiligent(Run(INITIAL, rest), step);
      }
    }
  }

  /** Items are taken one after the other: the next one comes only when this one has been reported, and the end
      only once; an item that ended by a cancellation is not reported. */
  lemma ItemsOneByOne(s: State, collides: bool, aborted: bool)
    requires Inv(s) && s.w.jobs != []
    ensures var j, s' := s.w.jobs[0], Next(s, Work(collides, aborted));
      if j.phase == Finishing then
        s'.w.jobs == [] && s'.w.inbox == s.w.inbox + [TaskFinished(j.task.id)]
      else
        && s'.w.jobs != [] && s'.w.jobs[0].task == j.task
        && s'.w.jobs[0].item == (if j.phase == Reporting then j.item + 1 else j.item)
        && (j.phase == Reporting ==> s'.w.inbox == s.w.inbox + [ItemFinished(j.task.id)])
        && (j.phase == Announce ==> s'.w.inbox == s.w.inbox + [ItemStarted(j.task.id)])
        && (j.phase == Running ==>
              s'.w.jobs[0].phase == if aborted && Flagged(s, j.task.id) then Finishing else Reporting)
  {
  }

  /** What a job does about an item, step by step, up to the prompt if its name is found taken. */
  function Course(kind: TaskKind, collides: bool): seq<Phase> {
    if kind == TrashTask then [Head, Announce, Running, Reporting]
    else if collides then [Head, Announce, Lookup, ClearAnswer, TakeNumber, PostPrompt, Waiting]
    else [Head, Announce, Lookup, Running, Reporting]
  }

  /** The job `id` is at its item, after `k` steps of its course. */
  ghost predicate OnCourse(s: State, task: Task, item: nat, collides: bool, k: nat) {
    && !Flagged(s, task.id) && s.w.jobs != [] && s.w.jobs[0].task == task && s.w.jobs[0].item == item
    && k < |Course(task.kind, collides)| && s.w.jobs[0].phase == Course(task.kind, collides)[k]
  }

  lemma WorkStaysOnCourse(s: State, task: Task, item: nat, collides: bool, aborted: bool, k: nat)
    requires OneJob(s) && OnCourse(s, task, item, collides, k) && item < |task.sources| && task.id in s.w.cells
    requires k + 1 < |Course(task.kind, collides)|
    ensures OnCourse(Next(s, Work(collides, aborted)), task, item, collides, k + 1)
  {
  }

  lemma GuiStaysOnCourse(s: State, step: Step, task: Task, item: nat, collides: bool, k: nat)
    requires Inv(s) && OnCourse(s, task, item, collides, k) && Harmless(step) && !step.Work?
    ensures OnCourse(Next(s, step), task, item, collides, k)
  {
    if Next(s, step).log.started == s.log.started {
      GuiKeepsJobs(s, step);
    } else {
      StartsOnlyWhenIdle(s, step);
    }
    if Flagged(Next(s, step), task.id) {
      FlagStays(s, step, task.id);
    }
  }

  /** Whatever the GUI does meanwhile short of cancelling, each item is taken through its whole course: it is worked
      on and reported, after a look at its destination; or the user is asked about it. */
  lemma {:induction false} ItemTakesItsCourse(s: State, steps: seq<Step>, collides: bool)
    requires Inv(s) && s.w.jobs != [] && s.w.jobs[0].phase == Head && s.w.jobs[0].item < |s.w.jobs[0].task.sources|
    requires !Flagged(s, s.w.jobs[0].task.id)
    requires forall i | 0 <= i < |steps| :: Harmless(steps[i]) && (steps[i].Work? ==> steps[i].collides == collides)
    requires WorkSteps(steps) < |Course(s.w.jobs[0].task.kind, collides)|
    ensures OnCourse(Run(s, steps), s.w.jobs[0].task, s.w.jobs[0].item, collides, WorkSteps(steps))
    decreases |steps|
  {
    if steps != [] {
      var rest, step, j := steps[..|steps| - 1], steps[|steps| - 1], s.w.jobs[0];
      ItemTakesItsCourse(s, rest, collides);
      RunKeepsInv(s, rest);
      if step.Work? {
        WorkStaysOnCourse(Run(s, rest), j.task, j.item, collides, step.aborted, WorkSteps(rest));
      } else {
        GuiStaysOnCourse(Run(s, rest), step, j.task, j.item, collides, WorkSteps(rest));
      }
    }
  }

  /** The job `id` does nothing to the item before the user has been asked about it. */
  ghost predicate Asking(s: State, id: nat, item: nat) {
    && id <= LastId(s.log.started)
    && (s.w.jobs != [] && s.w.jobs[0].task.id == id ==>
          var j := s.w.jobs[0];
          || j.item > item
          || (j.item == item && (OnConflictPath(j.phase) || j.phase == Finishing
                                 || (j.phase in {Running, Reporting} && j.request > 0))))
  }

  lemma AskingAsksFirst(s: State, collides: bool, aborted: bool, id: nat, item: nat)
    requires Inv(s) && Asking(s, id, item) && s.w.jobs != [] && OnConflictPath(s.w.jobs[0].phase)
    ensures Asking(Next(s, Work(collides, aborted)), id, item)
  {
    assert s.w.jobs[0].phase in {PostPrompt, Waiting, Trying, Acquired, Decoding} ==> s.w.jobs[0].request > 0;
  }

  lemma WorkAsksFirst(s: State, collides: bool, aborted: bool, id: nat, item: nat)
    requires Inv(s) && Asking(s, id, item)
    ensures Asking(Next(s, Work(collides, aborted)), id, item)
  {
    if s.w.jobs != [] {
      if OnConflictPath(s.w.jobs[0].phase) {
        AskingAsksFirst(s, collides, aborted, id, item);
      }
    }
  }

  lemma GuiAsksFirst(s: State, step: Step, id: nat, item: nat)
    requires Inv(s) && Asking(s, id, item) && !step.Work?
    ensures Asking(Next(s, step), id, item)
  {
    if Next(s, step).log.started == s.log.started {
      GuiKeepsJobs(s, step);
    } else {
      StartsOnlyWhenIdle(s, step);
      NewIsLater(s, step);
    }
  }

  lemma {:induction false} RunAsksFirst(s: State, steps: seq<Step>, id: nat, item: nat)
    requires Inv(s) && Asking(s, id, item)
    ensures Asking(Run(s, steps), id, item)
    decreases |steps|
  {
    if steps != [] {
      var rest, step := steps[..|steps| - 1], steps[|steps| - 1];
      RunAsksFirst(s, rest, id, item);
      RunKeepsInv(s, rest);
      if step.Work? {
        WorkAsksFirst(Run(s, rest), step.collides, step.aborted, id, item);
      } else {
        GuiAsksFirst(Run(s, rest), step, id, item);
      }
    }
  }

  /** An item whose name is found taken is never worked on before the user has answered a prompt about it:
      together with DecisionIsTheUsers, it is worked on only as the user answered. */
  lemma CollisionIsAsked(s: State, aborted: bool, steps: seq<Step>)
    requires Inv(s) && s.w.jobs != [] && s.w.jobs[0].phase == Lookup
    ensures Asking(Run(Next(s, Work(true, aborted)), steps), s.w.jobs[0].task.id, s.w.jobs[0].item)
  {
    var s1 := Next(s, Work(true, aborted));
    NextKeepsInv(s, Work(true, aborted));
    assert Asking(s1, s.w.jobs[0].task.id, s.w.jobs[0].item);
    RunAsksFirst(s1, steps, s.w.jobs[0].task.id, s.w.jobs[0].item);
  }
}
