/** The task queue, prompt and cancel protocol between the GUI thread and the worker thread, as a
    state machine over the steps at which the two can be told apart. */
module TaskProtocol {
  datatype TaskKind = CopyTask | MoveTask | TrashTask

  datatype Task = Task(kind: TaskKind, sources: seq<string>, id: nat)

  datatype PromptKind = NoPrompt | Conflict | TrashConfirm

  datatype Resolution = Skip | Overwrite | AutoRename | Cancel

  /** The cancel flag, semaphore and answer cell one task shares with the GUI; -1 is "no answer". */
  datatype Cell = Cell(cancel: bool, tokens: nat, answer: int)

  /** What the worker posts to the GUI thread's queue. */
  datatype Delivery =
    | ItemStarted(task: nat)
    | ItemFinished(task: nat)
    | ConflictDetected(task: nat, request: nat)
    | TaskFinished(task: nat)

  /** The next thing a job does on the worker. */
  datatype Phase =
    | Queued | Head | Announce | Lookup | ClearAnswer | TakeNumber | PostPrompt
    | Waiting | Trying | Acquired | Decoding | Running | Reporting | Finishing

  /** A job posted to the worker: `request` is the prompt it last asked for and 0 when the current
      item met no conflict, `decision` the answer it decoded. */
  datatype Job = Job(task: Task, item: nat, phase: Phase, request: nat, decision: int)

  /** The GUI thread is between two accesses to shared memory only after it has stored an answer or
      raised the flag and before it releases the semaphore. */
  datatype Between = Free | MustRelease

  /** The GUI thread's own fields; `current` names the cell its pointers refer to, 0 before any task. */
  datatype Gui = Gui(
    queue: seq<Task>, busy: bool, promptKind: PromptKind, promptId: nat, lastPromptId: nat, activeTaskId: nat,
    nextTaskId: nat, stopping: bool, current: nat, between: Between)

  /** What the threads share: the prompt counter, the cells, the queue of deliveries to the GUI and of
      jobs to the worker; `issued` records which task each prompt number was taken for. */
  datatype Link = Link(serial: nat, cells: map<nat, Cell>, inbox: seq<Delivery>, jobs: seq<Job>, issued: map<nat, nat>)

  /** The record of the run: the tasks started, and the answers the user gave. */
  datatype Log = Log(started: seq<Task>, answered: map<nat, Resolution>)

  datatype State = State(g: Gui, w: Link, log: Log)

  const INITIAL := State(Gui([], false, NoPrompt, 0, 0, 0, 0, false, 0, Free),
                         Link(0, map[0 := Cell(false, 0, -1)], [], [], map[]),
                         Log([], map[]))

  function Code(r: Resolution): int {
    match r
    case Skip => 0
    case Overwrite => 1
    case AutoRename => 2
    case Cancel => 3
  }

  datatype Step =
    | Enqueue(kind: TaskKind, sources: seq<string>)
    | RespondTrash(confirmed: bool, request: nat)
    | Resolve(resolution: Resolution, request: nat)
    | CancelCurrent
    | Shutdown
    | Release
    | Deliver
    | Work(collides: bool, aborted: bool)

  // The GUI thread

  function ResetPrompt(g: Gui): Gui {
    g.(promptKind := NoPrompt, promptId := 0)
  }

  /** No task has run yet while `current` is 0: the cancellation pointer is null. */
  predicate Cancelled(s: State) {
    s.g.current != 0 && s.g.current in s.w.cells && s.w.cells[s.g.current].cancel
  }

  function WithCell(w: Link, id: nat, cell: Cell): Link {
    w.(cells := w.cells[id := cell])
  }

  function RaiseFlag(w: Link, current: nat): Link {
    if current != 0 && current in w.cells then WithCell(w, current, w.cells[current].(cancel := true)) else w
  }

  function StartTask(s: State, task: Task): State {
    State(s.g.(activeTaskId := task.id, busy := true, current := task.id),
          WithCell(s.w, task.id, Cell(false, 0, -1)).(jobs := s.w.jobs + [Job(task, 0, Queued, 0, -1)]),
          s.log.(started := s.log.started + [task]))
  }

  function AskTrash(s: State, task: Task): State {
    var r := s.w.serial + 1;
    s.(g := s.g.(activeTaskId := task.id, promptId := r, lastPromptId := r, promptKind := TrashConfirm),
       w := s.w.(serial := r, issued := s.w.issued[r := task.id]))
  }

  function DispatchNext(s: State): State {
    if s.g.busy || s.g.promptKind != NoPrompt || s.g.queue == [] || s.g.stopping then s
    else if s.g.queue[0].kind == TrashTask then AskTrash(s, s.g.queue[0])
    else StartTask(s.(g := s.g.(queue := s.g.queue[1..])), s.g.queue[0])
  }

  function Append(g: Gui, kind: TaskKind, sources: seq<string>): Gui {
    g.(queue := g.queue + [Task(kind, sources, g.nextTaskId + 1)], nextTaskId := g.nextTaskId + 1)
  }

  function EnqueueTask(s: State, kind: TaskKind, sources: seq<string>): State {
    if sources == [] || s.g.stopping then s else DispatchNext(s.(g := Append(s.g, kind, sources)))
  }

  function RespondToTrash(s: State, confirmed: bool, request: nat): State {
    if s.g.promptKind != TrashConfirm || request != s.g.promptId || s.g.queue == [] then s
    else
      var s' := s.(g := ResetPrompt(s.g).(queue := s.g.queue[1..], activeTaskId := 0));
      if confirmed then StartTask(s', s.g.queue[0]) else DispatchNext(s')
  }

  function CancelTask(s: State): State {
    s.(g := ResetPrompt(s.g).(queue := [], between := MustRelease,
                              activeTaskId := if s.g.busy then s.g.activeTaskId else 0),
       w := RaiseFlag(s.w, s.g.current))
  }

  function ResolveConflict(s: State, resolution: Resolution, request: nat): State {
    if s.g.promptKind != Conflict || request != s.g.promptId || s.g.current == 0 || s.g.current !in s.w.cells
       || Cancelled(s)
    then s
    else if resolution == Cancel then CancelTask(s)
    else
      State(ResetPrompt(s.g).(between := MustRelease),
            WithCell(s.w, s.g.current, s.w.cells[s.g.current].(answer := Code(resolution))),
            s.log.(answered := s.log.answered[request := resolution]))
  }

  function ShutDown(s: State): State {
    if s.g.stopping then s
    else
      s.(g := ResetPrompt(s.g).(stopping := true, queue := [], between := MustRelease),
         w := RaiseFlag(s.w, s.g.current))
  }

  function ReleaseToken(s: State): State {
    if s.g.current in s.w.cells then
      var cell := s.w.cells[s.g.current];
      s.(g := s.g.(between := Free), w := WithCell(s.w, s.g.current, cell.(tokens := cell.tokens + 1)))
    else s.(g := s.g.(between := Free))
  }

  function OnConflict(s: State, task: nat, request: nat): State {
    if task != s.g.activeTaskId || !s.g.busy || s.g.stopping || Cancelled(s) || request <= s.g.lastPromptId then s
    else s.(g := s.g.(promptId := request, lastPromptId := request, promptKind := Conflict))
  }

  function OnFinished(s: State, task: nat): State {
    if task != s.g.activeTaskId then s
    else DispatchNext(s.(g := ResetPrompt(s.g).(activeTaskId := 0, busy := false)))
  }

  function DeliverNext(s: State): State {
    if s.w.inbox == [] then s
    else
      var s' := s.(w := s.w.(inbox := s.w.inbox[1..]));
      match s.w.inbox[0]
      case ItemStarted(_) => s'
      case ItemFinished(_) => s'
      case ConflictDetected(task, request) => OnConflict(s', task, request)
      case TaskFinished(task) => OnFinished(s', task)
  }

  // The worker thread

  function Post(w: Link, d: Delivery): Link {
    w.(inbox := w.inbox + [d])
  }

  function WithJob(w: Link, job: Job): Link
    requires w.jobs != []
  {
    w.(jobs := [job] + w.jobs[1..])
  }

  /** What no step of the worker does: raise a flag, or give out an old number. */
  predicate WorkerFrame(w: Link, w': Link) {
    && w'.cells.Keys == w.cells.Keys && (forall id | id in w.cells :: w'.cells[id].cancel == w.cells[id].cancel)
    && ((w'.issued == w.issued && w'.serial == w.serial)
        || (w'.serial == w.serial + 1 && w'.serial in w'.issued
            && w'.issued == w.issued[w'.serial := w'.issued[w'.serial]]))
  }

  /** The loop over the sources. `collides` is the answer of lstat() on the destination, `aborted` the
      cancelled flag of the item's result. */
  function ItemStep(w: Link, collides: bool, aborted: bool): (w': Link)
    requires w.jobs != [] && w.jobs[0].task.id in w.cells
    ensures WorkerFrame(w, w')
  {
    var j := w.jobs[0];
    var id := j.task.id;
    var cell := w.cells[id];
    match j.phase
    case Queued => WithJob(w, j.(phase := Head))
    case Head =>
      WithJob(w, j.(phase := if j.item >= |j.task.sources| || cell.cancel then Finishing else Announce))
    case Announce =>
      WithJob(Post(w, ItemStarted(id)),
              j.(phase := if j.task.kind == TrashTask then Running else Lookup, request := 0, decision := -1))
    case Lookup => WithJob(w, j.(phase := if collides then ClearAnswer else Running))
    case Running => WithJob(w, j.(phase := if aborted && cell.cancel then Finishing else Reporting))
    case Reporting => WithJob(Post(w, ItemFinished(id)), j.(phase := Head, item := j.item + 1))
    case Finishing => Post(w, TaskFinished(id)).(jobs := w.jobs[1..])
    case _ => w
  }

  /** Asking the user about a collision, and waiting for the answer. */
  function ConflictStep(w: Link): (w': Link)
    requires w.jobs != [] && w.jobs[0].task.id in w.cells
    ensures WorkerFrame(w, w')
  {
    var j := w.jobs[0];
    var id := j.task.id;
    var cell := w.cells[id];
    match j.phase
    case ClearAnswer => WithJob(WithCell(w, id, cell.(answer := -1)), j.(phase := TakeNumber))
    case TakeNumber =>
      WithJob(w.(serial := w.serial + 1, issued := w.issued[w.serial + 1 := id]),
              j.(phase := PostPrompt, request := w.serial + 1))
    case PostPrompt => WithJob(Post(w, ConflictDetected(id, j.request)), j.(phase := Waiting))
    case Waiting => WithJob(w, j.(phase := if cell.cancel then Finishing else Trying))
    case Trying =>
      if cell.tokens > 0 then WithJob(WithCell(w, id, cell.(tokens := cell.tokens - 1)), j.(phase := Acquired))
      else WithJob(w, j.(phase := Waiting))
    case Acquired => WithJob(w, j.(phase := if cell.cancel then Finishing else Decoding))
    case Decoding =>
      WithJob(w, j.(decision := cell.answer,
                    phase := if cell.answer == Code(Skip) then Reporting
                             else if cell.answer == Code(Cancel) then Finishing
                             else Running))
    case _ => w
  }

  predicate OnConflictPath(phase: Phase) {
    match phase
    case ClearAnswer | TakeNumber | PostPrompt | Waiting | Trying | Acquired | Decoding => true
    case _ => false
  }

  /** One step of the job at the head of the worker's queue. */
  function WorkStep(w: Link, collides: bool, aborted: bool): (w': Link)
    ensures WorkerFrame(w, w')
  {
    if w.jobs == [] || w.jobs[0].task.id !in w.cells then w
    else if OnConflictPath(w.jobs[0].phase) then ConflictStep(w)
    else ItemStep(w, collides, aborted)
  }

  /** GUI steps happen when no GUI method is under way; worker steps at any time. */
  function Next(s: State, step: Step): State {
    match step
    case Work(collides, aborted) => s.(w := WorkStep(s.w, collides, aborted))
    case Release => if s.g.between == MustRelease then ReleaseToken(s) else s
    case _ => if s.g.between == Free then GuiStep(s, step) else s
  }

  function GuiStep(s: State, step: Step): State {
    match step
    case Enqueue(kind, sources) => EnqueueTask(s, kind, sources)
    case RespondTrash(confirmed, request) => RespondToTrash(s, confirmed, request)
    case Resolve(resolution, request) => ResolveConflict(s, resolution, request)
    case CancelCurrent => CancelTask(s)
    case Shutdown => ShutDown(s)
    case Deliver => DeliverNext(s)
    case _ => s
  }

  function Run(s: State, steps: seq<Step>): State
    decreases |steps|
  {
    if steps == [] then s else Next(Run(s, steps[..|steps| - 1]), steps[|steps| - 1])
  }

  // What holds in every reachable state

  ghost predicate NoConflicts(inbox: seq<Delivery>) {
    forall d | d in inbox :: !d.ConflictDetected?
  }

  ghost predicate OwnDeliveries(inbox: seq<Delivery>, id: nat) {
    forall d | d in inbox :: d.task == id && !d.TaskFinished?
  }

  /** At most one job, and every delivery belongs to the task the GUI regards as running. */
  ghost predicate OneJob(s: State) {
    && 0 in s.w.cells && s.g.current in s.w.cells
    && |s.w.jobs| <= 1
    && (!s.g.busy ==> s.w.jobs == [] && s.w.inbox == [])
    && (s.g.busy ==> s.g.current == s.g.activeTaskId && s.g.activeTaskId > 0)
    && (s.g.busy && s.w.jobs == [] ==>
          && s.w.inbox != [] && s.w.inbox[|s.w.inbox| - 1] == TaskFinished(s.g.activeTaskId)
          && OwnDeliveries(s.w.inbox[..|s.w.inbox| - 1], s.g.activeTaskId))
    && (s.w.jobs != [] ==> s.w.jobs[0].task.id == s.g.activeTaskId && OwnDeliveries(s.w.inbox, s.g.activeTaskId))
  }

  ghost predicate Increasing(tasks: seq<Task>, low: nat, high: nat) {
    && (forall i | 0 <= i < |tasks| :: low < tasks[i].id <= high)
    && (forall i, j | 0 <= i < j < |tasks| :: tasks[i].id < tasks[j].id)
  }

  function LastId(tasks: seq<Task>): nat {
    if tasks == [] then 0 else tasks[|tasks| - 1].id
  }

  /** Tasks start in the order they were enqueued, each at most once, each with a cell of its own. */
  ghost predicate InOrder(s: State) {
    && Increasing(s.log.started, 0, s.g.nextTaskId)
    && Increasing(s.g.queue, LastId(s.log.started), s.g.nextTaskId)
    && s.g.current <= LastId(s.log.started)
    && (forall id | id in s.w.cells :: id <= LastId(s.log.started))
  }

  /** A trash prompt belongs to the task at the front of the queue; nothing waits unprompted. */
  ghost predicate Prompts(s: State) {
    && s.g.lastPromptId <= s.w.serial
    && (forall r | r in s.w.issued :: 0 < r <= s.w.serial)
    && (forall r | r in s.log.answered :: r <= s.g.lastPromptId && (s.g.promptKind == Conflict ==> r != s.g.promptId))
    && (s.g.promptKind == NoPrompt ==> s.g.promptId == 0 && (!s.g.busy ==> s.g.queue == []))
    && (s.g.promptKind != NoPrompt ==> s.g.promptId == s.g.lastPromptId == s.w.serial > 0 && s.g.promptId in s.w.issued)
    && (s.g.promptKind == TrashConfirm ==>
          !s.g.busy && s.g.queue != [] && s.g.queue[0].kind == TrashTask && s.w.issued[s.g.promptId] == s.g.queue[0].id)
    && (s.g.promptKind == Conflict ==> s.g.busy && !Cancelled(s) && s.w.issued[s.g.promptId] == s.g.activeTaskId)
    && (s.g.stopping ==> s.g.queue == [] && s.g.promptKind == NoPrompt && (s.g.busy ==> Cancelled(s)))
  }

  /** The conflict notice `r` is queued for the GUI, behind everything else and alone. */
  ghost predicate NoticeQueued(s: State, r: nat) {
    && s.w.inbox != [] && s.w.inbox[|s.w.inbox| - 1] == ConflictDetected(s.g.activeTaskId, r)
    && NoConflicts(s.w.inbox[..|s.w.inbox| - 1])
    && s.g.lastPromptId < r
  }

  /** The user's answer to `r` is in the cell. */
  ghost predicate AnswerStored(s: State, r: nat) {
    && s.g.current in s.w.cells
    && r in s.log.answered && s.log.answered[r] != Cancel && s.w.cells[s.g.current].answer == Code(s.log.answered[r])
  }

  /** The worker waits on request `r` and exactly one of these holds: the notice is queued, the prompt
      is shown, one token has been released (or is about to be) with the answer stored. */
  ghost predicate Awaited(s: State, r: nat)
    requires s.g.current in s.w.cells
  {
    var cell := s.w.cells[s.g.current];
    || (s.g.promptKind == NoPrompt && NoticeQueued(s, r) && cell.tokens == 0 && s.g.between == Free)
    || (s.g.promptKind == Conflict && s.g.promptId == r && NoConflicts(s.w.inbox) && cell.tokens == 0
        && s.g.between == Free)
    || (s.g.promptKind == NoPrompt && NoConflicts(s.w.inbox) && AnswerStored(s, r)
        && cell.tokens + (if s.g.between == MustRelease then 1 else 0) == 1)
  }

  /** The meeting of worker and user over a conflict. */
  ghost predicate Rendezvous(s: State) {
    && s.g.current in s.w.cells
    && (s.g.busy && s.w.jobs == [] && !Cancelled(s) ==>
          s.g.promptKind == NoPrompt && s.g.between == Free && NoConflicts(s.w.inbox))
    && (s.w.jobs != [] ==>
          var j := s.w.jobs[0];
          && (j.phase in {PostPrompt, Waiting, Trying, Acquired, Decoding} ==>
                0 < j.request && j.request in s.w.issued && s.w.issued[j.request] == j.task.id)
          && (j.phase in {Lookup, ClearAnswer, TakeNumber} ==> j.request == 0 && j.decision == -1)
          && (j.phase == Decoding ==> AnswerStored(s, j.request))
          && (j.phase in {Running, Reporting} && j.request > 0 ==>
                j.request in s.log.answered && s.log.answered[j.request] != Cancel
                && j.decision == Code(s.log.answered[j.request]))
          && (j.phase == Running ==> j.decision != Code(Skip))
          && (!Cancelled(s) ==>
                if j.phase in {Waiting, Trying} then j.request == s.w.serial && Awaited(s, j.request)
                else
                  && s.g.promptKind == NoPrompt && NoConflicts(s.w.inbox) && s.g.between == Free
                  && s.w.cells[s.g.current].tokens == 0
                  && (j.phase == PostPrompt ==> j.request == s.w.serial > s.g.lastPromptId)
                  && (j.phase == Acquired ==> AnswerStored(s, j.request))))
  }

  ghost predicate Inv(s: State) {
    OneJob(s) && InOrder(s) && Prompts(s) && Rendezvous(s)
  }

  // Every step keeps it

  /** No task is running: the state from which the next one is dispatched. */
  ghost predicate Ready(s: State) {
    && !s.g.busy && s.w.jobs == [] && s.w.inbox == []
    && s.g.promptKind == NoPrompt && s.g.promptId == 0 && s.g.between == Free
    && 0 in s.w.cells && s.g.current in s.w.cells
    && InOrder(s)
    && s.g.lastPromptId <= s.w.serial
    && (forall r | r in s.w.issued :: 0 < r <= s.w.serial)
    && (forall r | r in s.log.answered :: r <= s.g.lastPromptId)
    && (s.g.stopping ==> s.g.queue == [])
  }

  ghost function WithQueue(s: State, queue: seq<Task>): State {
    s.(g := s.g.(queue := queue))
  }

  lemma StartInOrder(s: State, task: Task)
    requires InOrder(WithQueue(s, [task] + s.g.queue))
    ensures InOrder(StartTask(s, task))
  {
    var queue := [task] + s.g.queue;
    assert queue[0] == task && forall i | 0 <= i < |s.g.queue| :: s.g.queue[i] == queue[i + 1];
  }

  lemma StartKeepsInv(s: State, task: Task)
    requires Ready(WithQueue(s, [task] + s.g.queue)) && !s.g.stopping
    ensures Inv(StartTask(s, task))
  {
    StartInOrder(s, task);
    assert ([task] + s.g.queue)[0] == task;
  }

  lemma DispatchKeepsInv(s: State)
    requires Ready(s)
    ensures Inv(DispatchNext(s))
  {
    if s.g.queue != [] && !s.g.stopping && s.g.queue[0].kind != TrashTask {
      assert [s.g.queue[0]] + s.g.queue[1..] == s.g.queue;
      StartKeepsInv(WithQueue(s, s.g.queue[1..]), s.g.queue[0]);
    }
  }

  lemma EnqueuedInOrder(s: State, kind: TaskKind, sources: seq<string>)
    requires InOrder(s)
    ensures InOrder(s.(g := Append(s.g, kind, sources)))
  {
  }

  lemma EnqueueKeepsInv(s: State, kind: TaskKind, sources: seq<string>)
    requires Inv(s) && s.g.between == Free
    ensures Inv(EnqueueTask(s, kind, sources))
  {
    if sources == [] || s.g.stopping {
      return;
    }
    var s' := s.(g := Append(s.g, kind, sources));
    EnqueuedInOrder(s, kind, sources);
    if !s.g.busy && s.g.promptKind == NoPrompt {
      DispatchKeepsInv(s');
    }
  }

  lemma EnqueueStep(s: State, kind: TaskKind, sources: seq<string>)
    requires Inv(s) && s.g.between == Free
    ensures Next(s, Enqueue(kind, sources)) == EnqueueTask(s, kind, sources) && Inv(EnqueueTask(s, kind, sources))
  {
    EnqueueKeepsInv(s, kind, sources);
  }

  lemma RespondKeepsInv(s: State, confirmed: bool, request: nat)
    requires Inv(s) && s.g.between == Free
    ensures Inv(RespondToTrash(s, confirmed, request))
  {
    if s.g.promptKind == TrashConfirm && request == s.g.promptId {
      var s' := s.(g := ResetPrompt(s.g).(queue := s.g.queue[1..], activeTaskId := 0));
      assert [s.g.queue[0]] + s.g.queue[1..] == s.g.queue;
      if confirmed {
        StartKeepsInv(s', s.g.queue[0]);
      } else {
        DispatchKeepsInv(s');
      }
    }
  }

  lemma CancelKeepsInv(s: State)
    requires Inv(s) && s.g.between == Free
    ensures Inv(CancelTask(s))
  {
    var s' := CancelTask(s);
    assert s.g.busy ==> Cancelled(s');
  }

  lemma CancelStep(s: State)
    requires Inv(s) && s.g.between == Free
    ensures Next(s, CancelCurrent) == CancelTask(s) && Inv(CancelTask(s))
  {
    CancelKeepsInv(s);
  }

  lemma ResolveKeepsInv(s: State, resolution: Resolution, request: nat)
    requires Inv(s) && s.g.between == Free
    ensures Inv(ResolveConflict(s, resolution, request))
  {
    if resolution == Cancel {
      CancelKeepsInv(s);
    }
  }

  lemma ShutDownKeepsInv(s: State)
    requires Inv(s) && s.g.between == Free
    ensures Inv(ShutDown(s))
  {
  }

  lemma ReleaseKeepsInv(s: State)
    requires Inv(s) && s.g.between == MustRelease
    ensures Inv(ReleaseToken(s))
  {
  }

  /** Without its first element an inbox keeps its last and stays free of what it was free of. */
  lemma RestOfInbox(inbox: seq<Delivery>, id: nat)
    requires |inbox| > 1
    ensures inbox[1..][|inbox| - 2] == inbox[|inbox| - 1]
    ensures OwnDeliveries(inbox, id) ==> OwnDeliveries(inbox[1..], id)
    ensures OwnDeliveries(inbox[..|inbox| - 1], id) ==>
      OwnDeliveries(inbox[1..][..|inbox| - 2], id) && inbox[0].task == id && !inbox[0].TaskFinished?
    ensures NoConflicts(inbox) ==> NoConflicts(inbox[1..])
    ensures NoConflicts(inbox[..|inbox| - 1]) ==>
      NoConflicts(inbox[1..][..|inbox| - 2]) && !inbox[0].ConflictDetected?
  {
    assert inbox[1..][..|inbox| - 2] == inbox[..|inbox| - 1][1..];
    assert inbox[0] == inbox[..|inbox| - 1][0];
  }

  /** What does not decide anything can be taken from the inbox. */
  lemma DropFirst(s: State)
    requires Inv(s) && s.g.between == Free && s.w.inbox != []
    requires !s.w.inbox[0].TaskFinished? && (Cancelled(s) || !s.w.inbox[0].ConflictDetected?)
    ensures Inv(s.(w := s.w.(inbox := s.w.inbox[1..])))
  {
    assert s.w.inbox[0] in s.w.inbox;
    if |s.w.inbox| > 1 {
      RestOfInbox(s.w.inbox, s.g.activeTaskId);
    }
  }

  /** The notice of a live conflict is the only thing in the inbox when its turn comes, and the guard
      against stale numbers does not drop it. */
  lemma NoticeIsAlone(s: State)
    requires Inv(s) && s.w.inbox != [] && s.w.inbox[0].ConflictDetected? && !Cancelled(s)
    ensures s.g.busy && s.w.jobs != [] && s.w.jobs[0].phase in {Waiting, Trying} && s.g.promptKind == NoPrompt
    ensures s.w.inbox == [ConflictDetected(s.g.activeTaskId, s.w.serial)] && s.g.lastPromptId < s.w.serial
    ensures s.w.cells[s.g.current].tokens == 0 && s.w.jobs[0].request == s.w.serial
  {
    assert s.w.inbox[0] in s.w.inbox;
    if |s.w.inbox| > 1 {
      RestOfInbox(s.w.inbox, s.g.activeTaskId);
    }
  }

  lemma DeliverConflict(s: State)
    requires Inv(s) && s.g.between == Free && s.w.inbox != [] && s.w.inbox[0].ConflictDetected?
    ensures Inv(DeliverNext(s))
  {
    if Cancelled(s) {
      DropFirst(s);
    } else {
      NoticeIsAlone(s);
    }
  }

  lemma DeliverFinished(s: State)
    requires Inv(s) && s.g.between == Free && s.w.inbox != [] && s.w.inbox[0].TaskFinished?
    ensures Inv(DeliverNext(s))
  {
    var s' := s.(g := ResetPrompt(s.g).(activeTaskId := 0, busy := false), w := s.w.(inbox := []));
    assert DeliverNext(s) == DispatchNext(s');
    assert Ready(s') by {
      assert InOrder(s');
    }
    DispatchKeepsInv(s');
  }

  lemma DeliverKeepsInv(s: State)
    requires Inv(s) && s.g.between == Free
    ensures Inv(DeliverNext(s))
  {
    if s.w.inbox != [] {
      match s.w.inbox[0]
      case ItemStarted(_) => DropFirst(s);
      case ItemFinished(_) => DropFirst(s);
      case ConflictDetected(_, _) => DeliverConflict(s);
      case TaskFinished(_) => DeliverFinished(s);
    }
  }

  lemma WorkOnItem(s: State, collides: bool, aborted: bool)
    requires Inv(s) && s.w.jobs != [] && s.w.jobs[0].phase in {Queued, Head}
    ensures Inv(Next(s, Work(collides, aborted)))
  {
  }

  lemma WorkDecides(s: State, collides: bool, aborted: bool)
    requires Inv(s) && s.w.jobs != [] && s.w.jobs[0].phase in {Lookup, Running}
    ensures Inv(Next(s, Work(collides, aborted)))
  {
  }

  lemma WorkAsks(s: State, collides: bool, aborted: bool)
    requires Inv(s) && s.w.jobs != [] && s.w.jobs[0].phase in {ClearAnswer, TakeNumber}
    ensures Inv(Next(s, Work(collides, aborted)))
  {
  }

  lemma WorkWaits(s: State, collides: bool, aborted: bool)
    requires Inv(s) && s.w.jobs != [] && s.w.jobs[0].phase in {Waiting, Acquired, Decoding}
    ensures Inv(Next(s, Work(collides, aborted)))
  {
  }

  /** An uncancelled worker that gets a token gets it with the answer to its own request. */
  lemma TokenMeansAnswer(s: State)
    requires Inv(s) && s.w.jobs != [] && s.w.jobs[0].phase == Trying && !Cancelled(s)
    requires s.w.cells[s.g.current].tokens > 0
    ensures AnswerStored(s, s.w.jobs[0].request) && s.w.cells[s.g.current].tokens == 1 && s.g.between == Free
    ensures s.g.promptKind == NoPrompt && NoConflicts(s.w.inbox)
  {
  }

  lemma TakesTokenInVain(s: State, collides: bool, aborted: bool)
    requires Inv(s) && s.w.jobs != [] && s.w.jobs[0].phase == Trying && s.w.cells[s.g.current].tokens > 0
    requires Cancelled(s)
    ensures Inv(Next(s, Work(collides, aborted)))
  {
  }

  lemma TriesAgain(s: State, collides: bool, aborted: bool)
    requires Inv(s) && s.w.jobs != [] && s.w.jobs[0].phase == Trying && s.w.cells[s.g.current].tokens == 0
    ensures Inv(Next(s, Work(collides, aborted)))
  {
  }

  lemma WorkTries(s: State, collides: bool, aborted: bool)
    requires Inv(s) && s.w.jobs != [] && s.w.jobs[0].phase == Trying
    ensures Inv(Next(s, Work(collides, aborted)))
  {
    if s.w.cells[s.g.current].tokens == 0 {
      TriesAgain(s, collides, aborted);
    } else if Cancelled(s) {
      TakesTokenInVain(s, collides, aborted);
    }
  }

  lemma WorkPosts(s: State, collides: bool, aborted: bool)
    requires Inv(s) && s.w.jobs != [] && s.w.jobs[0].phase in {Announce, Reporting}
    ensures Inv(Next(s, Work(collides, aborted)))
  {
  }

  lemma WorkPrompts(s: State, collides: bool, aborted: bool)
    requires Inv(s) && s.w.jobs != [] && s.w.jobs[0].phase == PostPrompt
    ensures Inv(Next(s, Work(collides, aborted)))
  {
    var d := ConflictDetected(s.g.activeTaskId, s.w.jobs[0].request);
    assert (s.w.inbox + [d])[..|s.w.inbox|] == s.w.inbox;
  }

  lemma WorkFinishes(s: State, collides: bool, aborted: bool)
    requires Inv(s) && s.w.jobs != [] && s.w.jobs[0].phase == Finishing
    ensures Inv(Next(s, Work(collides, aborted)))
  {
    var d := TaskFinished(s.g.activeTaskId);
    assert (s.w.inbox + [d])[..|s.w.inbox|] == s.w.inbox;
  }

  lemma ConflictKeepsInv(s: State, collides: bool, aborted: bool)
    requires Inv(s) && s.w.jobs != [] && OnConflictPath(s.w.jobs[0].phase)
    ensures Inv(Next(s, Work(collides, aborted)))
  {
    match s.w.jobs[0].phase
    case ClearAnswer => WorkAsks(s, collides, aborted);
    case TakeNumber => WorkAsks(s, collides, aborted);
    case PostPrompt => WorkPrompts(s, collides, aborted);
    case Trying => WorkTries(s, collides, aborted);
    case _ => WorkWaits(s, collides, aborted);
  }

  lemma ItemKeepsInv(s: State, collides: bool, aborted: bool)
    requires Inv(s) && s.w.jobs != [] && !OnConflictPath(s.w.jobs[0].phase)
    ensures Inv(Next(s, Work(collides, aborted)))
  {
    match s.w.jobs[0].phase
    case Announce => WorkPosts(s, collides, aborted);
    case Reporting => WorkPosts(s, collides, aborted);
    case Finishing => WorkFinishes(s, collides, aborted);
    case Lookup => WorkDecides(s, collides, aborted);
    case Running => WorkDecides(s, collides, aborted);
    case _ => WorkOnItem(s, collides, aborted);
  }

  lemma WorkKeepsInv(s: State, collides: bool, aborted: bool)
    requires Inv(s)
    ensures Inv(Next(s, Work(collides, aborted)))
  {
    if s.w.jobs != [] {
      if OnConflictPath(s.w.jobs[0].phase) {
        ConflictKeepsInv(s, collides, aborted);
      } else {
        ItemKeepsInv(s, collides, aborted);
      }
    }
  }

  lemma GuiKeepsInv(s: State, step: Step)
    requires Inv(s) && s.g.between == Free && !step.Work? && !step.Release?
    ensures Inv(Next(s, step))
  {
    match step
    case Enqueue(kind, sources) => EnqueueKeepsInv(s, kind, sources);
    case RespondTrash(confirmed, request) => RespondKeepsInv(s, confirmed, request);
    case Resolve(resolution, request) => ResolveKeepsInv(s, resolution, request);
    case CancelCurrent => CancelKeepsInv(s);
    case Shutdown => ShutDownKeepsInv(s);
    case Deliver => DeliverKeepsInv(s);
  }

  lemma NextKeepsInv(s: State, step: Step)
    requires Inv(s)
    ensures Inv(Next(s, step))
  {
    match step
    case Work(collides, aborted) => WorkKeepsInv(s, collides, aborted);
    case Release => if s.g.between == MustRelease { ReleaseKeepsInv(s); }
    case _ => if s.g.between == Free { GuiKeepsInv(s, step); }
  }

  /** The invariant holds after every run, however the two threads interleave. */
  lemma {:induction false} RunKeepsInv(s: State, steps: seq<Step>)
    requires Inv(s)
    ensures Inv(Run(s, steps))
    decreases |steps|
  {
    if steps != [] {
      RunKeepsInv(s, steps[..|steps| - 1]);
      NextKeepsInv(Run(s, steps[..|steps| - 1]), steps[|steps| - 1]);
    }
  }

  // What the protocol promises, over every run

  /** No answer is lost or misdirected: while the worker waits on request `r` of a live task, exactly
      one of these holds: the notice is still queued, the GUI shows prompt `r`, one token is released
      with the user's answer to `r` in the cell. */
  lemma NoAnswerIsLost(steps: seq<Step>)
    ensures var s := Run(INITIAL, steps);
      s.w.jobs != [] && s.w.jobs[0].phase in {Waiting, Trying} && !Cancelled(s) && s.g.between == Free ==>
        var r := s.w.jobs[0].request;
        && s.g.current in s.w.cells
        && (if NoticeQueued(s, r) then 1 else 0)
           + (if s.g.promptKind == Conflict && s.g.promptId == r then 1 else 0)
           + (if s.w.cells[s.g.current].tokens == 1 && AnswerStored(s, r) then 1 else 0) == 1
        && s.w.cells[s.g.current].tokens <= 1
  {
    RunKeepsInv(INITIAL, steps);
    var s := Run(INITIAL, steps);
    if s.w.jobs != [] && s.w.jobs[0].phase in {Waiting, Trying} && !Cancelled(s) && s.g.between == Free {
      assert Awaited(s, s.w.jobs[0].request);
      if s.w.inbox != [] {
        assert s.w.inbox[|s.w.inbox| - 1] in s.w.inbox;
      }
    }
  }

  /** A live conflict is never dropped: when its notice is delivered, its prompt is shown. */
  lemma NoticeIsShown(steps: seq<Step>)
    ensures var s := Run(INITIAL, steps);
      s.g.between == Free && s.w.inbox != [] && s.w.inbox[0].ConflictDetected? && !Cancelled(s) ==>
        var s' := Next(s, Deliver);
        s'.g.promptKind == Conflict && s'.g.promptId == s.w.inbox[0].request
        && s.w.jobs != [] && s.w.jobs[0].phase in {Waiting, Trying} && s.w.jobs[0].request == s.w.inbox[0].request
  {
    RunKeepsInv(INITIAL, steps);
    var s := Run(INITIAL, steps);
    if s.g.between == Free && s.w.inbox != [] && s.w.inbox[0].ConflictDetected? && !Cancelled(s) {
      NoticeIsAlone(s);
    }
  }

  /** An item that met a conflict is skipped, overwritten or renamed only as the user answered that
      very prompt; in particular the sentinel -1 is never taken for an answer. */
  lemma DecisionIsTheUsers(steps: seq<Step>)
    ensures var s := Run(INITIAL, steps);
      s.w.jobs != [] && s.w.jobs[0].phase in {Running, Reporting} && s.w.jobs[0].request > 0 ==>
        var j := s.w.jobs[0];
        && j.request in s.log.answered && s.log.answered[j.request] != Cancel
        && j.decision == Code(s.log.answered[j.request]) && j.decision != -1
        && (j.phase == Running ==> s.log.answered[j.request] != Skip)
  {
    RunKeepsInv(INITIAL, steps);
  }

  /** Answers come from the user resolving the prompt on the screen, and are never changed. */
  lemma AnswersComeFromPrompts(s: State, step: Step, r: nat)
    requires Inv(s)
    requires r in Next(s, step).log.answered
    ensures r in s.log.answered ==> Next(s, step).log.answered[r] == s.log.answered[r]
    ensures r !in s.log.answered ==>
      step == Resolve(Next(s, step).log.answered[r], r) && s.g.promptKind == Conflict && s.g.promptId == r
  {
  }

  /** The only steps that start a task, and the task each starts. */
  lemma StartingSteps(s: State, step: Step)
    requires s.g.stopping ==> s.g.promptKind == NoPrompt
    requires Next(s, step).log.started != s.log.started
    ensures s.g.between == Free && !s.g.stopping
    ensures step.Enqueue? || step.RespondTrash? || (step.Deliver? && s.w.inbox != [] && s.w.inbox[0].TaskFinished?)
    ensures var s' := Next(s, step);
      && s'.log.started != [] && s'.log.started == s.log.started + [LastTask(s')]
      && s'.w.jobs == s.w.jobs + [Job(LastTask(s'), 0, Queued, 0, -1)]
    ensures step.Enqueue? ==> !s.g.busy
    ensures step.RespondTrash? ==>
      && s.g.promptKind == TrashConfirm && s.g.promptId == step.request && s.g.queue != []
      && (step.confirmed ==> LastTask(Next(s, step)) == s.g.queue[0])
    ensures !(step.RespondTrash? && step.confirmed) ==> LastTask(Next(s, step)).kind != TrashTask
  {
  }

  /** A task starts only when nothing runs, and becomes the one job of the worker. */
  lemma StartsOnlyWhenIdle(s: State, step: Step)
    requires Inv(s) && Next(s, step).log.started != s.log.started
    ensures var s' := Next(s, step);
      && s'.log.started != [] && s'.log.started == s.log.started + [LastTask(s')]
      && s.w.jobs == [] && s'.w.jobs == [Job(LastTask(s'), 0, Queued, 0, -1)]
  {
    StartingSteps(s, step);
  }

  /** At every moment at most one job is on the worker, and the tasks started so far are in the order
      in which they were enqueued, without repetition. */
  lemma StartsInOrder(steps: seq<Step>)
    ensures var s := Run(INITIAL, steps);
      && |s.w.jobs| <= 1 && Increasing(s.log.started, 0, s.g.nextTaskId)
      && Increasing(s.g.queue, LastId(s.log.started), s.g.nextTaskId)
  {
    RunKeepsInv(INITIAL, steps);
  }

  /** A trash task starts only on a yes to the prompt that was issued for it. */
  lemma TrashNeedsConsent(s: State, step: Step)
    requires Inv(s) && Next(s, step).log.started != s.log.started && LastTask(Next(s, step)).kind == TrashTask
    ensures step.RespondTrash? && step.confirmed && s.g.promptKind == TrashConfirm && s.g.promptId == step.request
    ensures step.request in s.w.issued && s.w.issued[step.request] == LastTask(Next(s, step)).id
  {
    StartingSteps(s, step);
  }

  function LastTask(s: State): Task {
    if s.log.started == [] then Task(CopyTask, [], 0) else s.log.started[|s.log.started| - 1]
  }

  /** A prompt number is given out once and stays with its task. */
  lemma NumbersAreNew(s: State, step: Step, r: nat)
    requires forall k | k in s.w.issued :: k <= s.w.serial
    ensures r in s.w.issued ==> r in Next(s, step).w.issued && Next(s, step).w.issued[r] == s.w.issued[r]
    ensures r in Next(s, step).w.issued && r !in s.w.issued ==> r == s.w.serial + 1 == Next(s, step).w.serial
  {
  }

  /** Steps that are no cancellation. */
  predicate Harmless(step: Step) {
    !step.CancelCurrent? && !step.Shutdown? && !(step.Resolve? && step.resolution == Cancel)
  }

  lemma FlagStays(s: State, step: Step, id: nat)
    requires Harmless(step)
    requires id in Next(s, step).w.cells && Next(s, step).w.cells[id].cancel
    ensures id in s.w.cells && s.w.cells[id].cancel
  {
  }

  /** Cancelling touches only what was there: without a further cancellation no task started later
      ever finds its flag raised. */
  lemma {:induction false} CancelIsLocal(s: State, steps: seq<Step>, id: nat)
    requires Inv(s) && forall i | 0 <= i < |steps| :: Harmless(steps[i])
    requires id in Run(s, steps).w.cells && Run(s, steps).w.cells[id].cancel
    ensures id in s.w.cells && s.w.cells[id].cancel
    decreases |steps|
  {
    if steps != [] {
      RunKeepsInv(s, steps[..|steps| - 1]);
      FlagStays(Run(s, steps[..|steps| - 1]), steps[|steps| - 1], id);
      CancelIsLocal(s, steps[..|steps| - 1], id);
    }
  }

  /** What was enqueued before a cancellation and had not started never starts. */
  lemma {:induction false} CancelDropsTheQueue(s: State, steps: seq<Step>)
    requires Inv(s) && s.g.between == Free
    ensures var s1, s2 := Next(s, CancelCurrent), Run(Next(s, CancelCurrent), steps);
      && s1.log.started == s.log.started <= s2.log.started && s1.g.nextTaskId == s.g.nextTaskId <= s2.g.nextTaskId
      && (forall i | |s.log.started| <= i < |s2.log.started| :: s2.log.started[i].id > s.g.nextTaskId)
      && (forall t | t in s2.g.queue :: t.id > s.g.nextTaskId)
    decreases |steps|
  {
    if steps != [] {
      var rest := steps[..|steps| - 1];
      CancelDropsTheQueue(s, rest);
      CancelKeepsInv(s);
      RunKeepsInv(CancelTask(s), rest);
      StartsFromQueue(Run(CancelTask(s), rest), steps[|steps| - 1], s.g.nextTaskId);
    }
  }

  /** One step starts at most the first of the queue or the task just enqueued. */
  lemma StartsFromQueue(s: State, step: Step, low: nat)
    requires low <= s.g.nextTaskId && forall t | t in s.g.queue :: t.id > low
    ensures var s' := Next(s, step);
      && s.log.started <= s'.log.started && s.g.nextTaskId <= s'.g.nextTaskId
      && (forall i | |s.log.started| <= i < |s'.log.started| :: s'.log.started[i].id > low)
      && (forall t | t in s'.g.queue :: t.id > low)
  {
    match step
    case Enqueue(kind, sources) => DispatchesFromQueue(s.(g := Append(s.g, kind, sources)), low);
    case RespondTrash(_, _) =>
      if s.g.queue != [] {
        DispatchesFromQueue(s.(g := ResetPrompt(s.g).(queue := s.g.queue[1..], activeTaskId := 0)), low);
      }
    case Deliver =>
      var g := ResetPrompt(s.g).(activeTaskId := 0, busy := false);
      if s.w.inbox != [] {
        DispatchesFromQueue(State(g, s.w.(inbox := s.w.inbox[1..]), s.log), low);
      }
    case _ =>
  }

  lemma DispatchesFromQueue(s: State, low: nat)
    requires forall t | t in s.g.queue :: t.id > low
    ensures var s' := DispatchNext(s);
      && s.log.started <= s'.log.started && s.g.nextTaskId == s'.g.nextTaskId
      && (forall i | |s.log.started| <= i < |s'.log.started| :: s'.log.started[i].id > low)
      && (forall t | t in s'.g.queue :: t.id > low)
  {
  }

  /** Nothing starts after shutdown. */
  lemma {:induction false} NothingAfterShutdown(s: State, steps: seq<Step>)
    requires Inv(s) && s.g.stopping
    ensures Run(s, steps).g.stopping && Run(s, steps).log.started == s.log.started
    decreases |steps|
  {
    if steps != [] {
      NothingAfterShutdown(s, steps[..|steps| - 1]);
      RunKeepsInv(s, steps[..|steps| - 1]);
      assert Prompts(Run(s, steps[..|steps| - 1]));
    }
  }

  /** No queued task is stranded: while tasks are queued, one runs or a prompt asks. */
  lemma QueueIsServed(steps: seq<Step>)
    ensures var s := Run(INITIAL, steps); s.g.queue != [] ==> s.g.busy || s.g.promptKind == TrashConfirm
  {
    RunKeepsInv(INITIAL, steps);
  }

  /** How many of its own steps a cancelled job still has to do at most. */
  function StepsLeft(phase: Phase): nat {
    match phase
    case Finishing => 1
    case Head | Waiting | Acquired => 2
    case Queued | Reporting | Trying | PostPrompt => 3
    case Running | TakeNumber => 4
    case Decoding | ClearAnswer => 5
    case Lookup => 6
    case Announce => 7
  }

  function Left(s: State, id: nat): nat {
    if s.w.jobs == [] || s.w.jobs[0].task.id != id then 0 else StepsLeft(s.w.jobs[0].phase)
  }

  predicate Flagged(s: State, id: nat) {
    id in s.w.cells && s.w.cells[id].cancel
  }

  /** The job has left the worker, or is nearer to leaving it. */
  ghost predicate NearerEnd(w: Link, w': Link)
    requires w.jobs != []
  {
    w'.jobs == [] || (|w'.jobs| == 1 && w'.jobs[0].task.id == w.jobs[0].task.id
                      && StepsLeft(w'.jobs[0].phase) < StepsLeft(w.jobs[0].phase))
  }

  lemma ConflictNearsEnd(w: Link)
    requires |w.jobs| == 1 && w.jobs[0].task.id in w.cells && w.cells[w.jobs[0].task.id].cancel
    requires OnConflictPath(w.jobs[0].phase)
    ensures NearerEnd(w, ConflictStep(w))
  {
  }

  lemma WorkNearsEnd(w: Link, collides: bool, aborted: bool)
    requires |w.jobs| == 1 && w.jobs[0].task.id in w.cells && w.cells[w.jobs[0].task.id].cancel
    ensures NearerEnd(w, WorkStep(w, collides, aborted))
  {
    if OnConflictPath(w.jobs[0].phase) {
      ConflictNearsEnd(w);
    }
  }

  lemma GuiKeepsJobs(s: State, step: Step)
    requires !step.Work? && Next(s, step).log.started == s.log.started
    ensures Next(s, step).w.jobs == s.w.jobs
  {
  }

  /** No step lowers a flag; only the cell of a new task is fresh. */
  lemma FlagIsKept(s: State, step: Step, id: nat)
    requires Inv(s) && Flagged(s, id)
    ensures Flagged(Next(s, step), id)
  {
    if step.RespondTrash? || step.Enqueue? || step.Deliver? {
      StartsElsewhere(s, step, id);
    }
  }

  lemma StartsElsewhere(s: State, step: Step, id: nat)
    requires Inv(s) && id in s.w.cells && (step.RespondTrash? || step.Enqueue? || step.Deliver?)
    ensures var s' := Next(s, step); id in s'.w.cells && s'.w.cells[id] == s.w.cells[id]
  {
    if Next(s, step).log.started != s.log.started {
      NewIsLater(s, step);
    }
    CellsOfStep(s, step);
  }

  /** Dispatching makes no cell but that of the task it starts. */
  ghost predicate OnlyNewCell(s: State, s': State) {
    if s'.log.started == s.log.started then s'.w.cells == s.w.cells
    else s'.w.cells == s.w.cells[LastTask(s').id := Cell(false, 0, -1)]
  }

  lemma CellsOfDispatch(s: State)
    ensures OnlyNewCell(s, DispatchNext(s))
  {
  }

  lemma CellsOfStep(s: State, step: Step)
    requires step.RespondTrash? || step.Enqueue? || step.Deliver?
    ensures OnlyNewCell(s, Next(s, step))
  {
    match step
    case Enqueue(kind, sources) => CellsOfDispatch(s.(g := Append(s.g, kind, sources)));
    case RespondTrash(_, _) =>
      if s.g.queue != [] {
        CellsOfDispatch(s.(g := ResetPrompt(s.g).(queue := s.g.queue[1..], activeTaskId := 0)));
      }
    case Deliver =>
      if s.w.inbox != [] {
        CellsOfDispatch(State(ResetPrompt(s.g).(activeTaskId := 0, busy := false),
                              s.w.(inbox := s.w.inbox[1..]), s.log));
      }
  }

  lemma GuiLeavesJob(s: State, step: Step, id: nat)
    requires Inv(s) && !step.Work? && Flagged(s, id)
    ensures Flagged(Next(s, step), id) && Left(Next(s, step), id) <= Left(s, id)
  {
    FlagIsKept(s, step, id);
    if Next(s, step).log.started == s.log.started {
      GuiKeepsJobs(s, step);
    } else {
      StartsOnlyWhenIdle(s, step);
      NewIsLater(s, step);
    }
  }

  /** What starts has a higher number than everything started before. */
  lemma NewIsLater(s: State, step: Step)
    requires Inv(s) && Next(s, step).log.started != s.log.started
    ensures LastTask(Next(s, step)).id > LastId(s.log.started)
  {
    StartsOnlyWhenIdle(s, step);
    NextKeepsInv(s, step);
    var started := Next(s, step).log.started;
    if s.log.started != [] {
      assert started[|s.log.started| - 1].id < started[|s.log.started|].id;
    }
  }

  lemma CancelledStep(s: State, step: Step, id: nat)
    requires Inv(s) && Flagged(s, id)
    ensures Flagged(Next(s, step), id)
    ensures Left(Next(s, step), id) == 0
      || Left(Next(s, step), id) + (if step.Work? then 1 else 0) <= Left(s, id)
  {
    if step.Work? {
      WorkOnCancelled(s, step.collides, step.aborted, id);
    } else {
      GuiLeavesJob(s, step, id);
    }
  }

  lemma WorkOnCancelled(s: State, collides: bool, aborted: bool, id: nat)
    requires OneJob(s) && Flagged(s, id)
    ensures var s' := Next(s, Work(collides, aborted));
      Flagged(s', id) && (Left(s', id) == 0 || Left(s', id) < Left(s, id))
  {
    if s.w.jobs != [] && s.w.jobs[0].task.id in s.w.cells {
      if s.w.jobs[0].task.id == id {
        WorkNearsEnd(s.w, collides, aborted);
      }
    }
  }

  function WorkSteps(steps: seq<Step>): nat {
    if steps == [] then 0
    else WorkSteps(steps[..|steps| - 1]) + if steps[|steps| - 1].Work? then 1 else 0
  }

  /** A cancelled job leaves the worker within seven of its own steps, whatever the GUI does meanwhile; in
      particular it never waits for an answer that is not coming. */
  lemma {:induction false} CancelledJobEnds(s: State, steps: seq<Step>, id: nat)
    requires Inv(s) && Flagged(s, id)
    ensures Flagged(Run(s, steps), id)
    ensures Left(Run(s, steps), id) == 0 || Left(Run(s, steps), id) + WorkSteps(steps) <= 7
    ensures WorkSteps(steps) >= 7 ==> Left(Run(s, steps), id) == 0
    decreases |steps|
  {
    if steps != [] {
      CancelledJobEnds(s, steps[..|steps| - 1], id);
      RunKeepsInv(s, steps[..|steps| - 1]);
      CancelledStep(Run(s, steps[..|steps| - 1]), steps[|steps| - 1], id);
    }
  }

  /** How many of its own steps a worker has done that waits for an answer: it looks at the flag, tries to take
      the token, looks at the flag again, and decodes. */
  function Stage(phase: Phase): nat {
    match phase
    case Waiting => 0
    case Trying => 1
    case Acquired => 2
    case Decoding => 3
    case _ => 4
  }

  /** The live job has an answer to its request `r`: released with a token and not yet taken, or taken, or
      decoded, and then an item not skipped is worked on. */
  ghost predicate Answered(s: State, r: nat) {
    && s.w.jobs != [] && s.w.jobs[0].request == r && r in s.log.answered && !Cancelled(s)
    && s.g.between == Free && s.g.promptKind == NoPrompt && NoConflicts(s.w.inbox) && s.g.current in s.w.cells
    && match s.w.jobs[0].phase
       case Waiting | Trying => s.w.cells[s.g.current].tokens == 1 && AnswerStored(s, r)
       case Acquired | Decoding => AnswerStored(s, r)
       case Running => s.w.jobs[0].decision == Code(s.log.answered[r]) && s.log.answered[r] != Skip
       case Reporting => s.w.jobs[0].decision == Code(s.log.answered[r]) && s.log.answered[r] == Skip
       case _ => false
  }

  lemma WorkTakesAnswer(s: State, collides: bool, aborted: bool, r: nat)
    requires Inv(s) && Answered(s, r) && Stage(s.w.jobs[0].phase) < 4
    ensures var s' := Next(s, Work(collides, aborted));
      && Answered(s', r) && s'.log.answered == s.log.answered
      && Stage(s'.w.jobs[0].phase) == Stage(s.w.jobs[0].phase) + 1
  {
  }

  lemma GuiLeavesAnswer(s: State, step: Step, r: nat)
    requires Inv(s) && Answered(s, r) && Harmless(step) && !step.Work?
    ensures var s' := Next(s, step);
      && Answered(s', r) && s'.w.jobs == s.w.jobs && s'.log.answered[r] == s.log.answered[r]
  {
    if step.Deliver? && s.w.inbox != [] {
      assert s.w.inbox[0] in s.w.inbox;
      if |s.w.inbox| > 1 {
        RestOfInbox(s.w.inbox, s.g.activeTaskId);
      }
    }
  }

  /** An answer is not only kept but taken: once it is stored and its token released, the worker has decoded it
      after at most four of its own steps, whatever the GUI does meanwhile short of cancelling, and has decided
      as the user answered. */
  lemma {:induction false} AnswerIsTaken(s: State, steps: seq<Step>, r: nat)
    requires Inv(s) && Answered(s, r) && forall i | 0 <= i < |steps| :: Harmless(steps[i])
    requires Stage(s.w.jobs[0].phase) + WorkSteps(steps) <= 4
    ensures var s' := Run(s, steps);
      && Answered(s', r) && s'.log.answered[r] == s.log.answered[r]
      && Stage(s'.w.jobs[0].phase) == Stage(s.w.jobs[0].phase) + WorkSteps(steps)
      && (Stage(s.w.jobs[0].phase) + WorkSteps(steps) == 4 ==>
            && s'.w.jobs[0].decision == Code(s.log.answered[r])
            && s'.w.jobs[0].phase == if s.log.answered[r] == Skip then Reporting else Running)
    decreases |steps|
  {
    if steps != [] {
      var rest, step := steps[..|steps| - 1], steps[|steps| - 1];
      AnswerIsTaken(s, rest, r);
      RunKeepsInv(s, rest);
      if step.Work? {
        WorkTakesAnswer(Run(s, rest), step.collides, step.aborted, r);
      } else {
        GuiLeavesAnswer(Run(s, rest), step, r);
      }
    }
  }

  /** Resolving the shown prompt and releasing the semaphore is such a state. */
  lemma ResolvedIsAnswered(s: State, resolution: Resolution, r: nat)
    requires Inv(s) && s.g.between == Free && s.g.promptKind == Conflict && s.g.promptId == r && resolution != Cancel
    ensures var s' := Next(Next(s, Resolve(resolution, r)), Release);
      Answered(s', r) && s'.log.answered[r] == resolution
  {
    ResolveKeepsInv(s, resolution, r);
    ReleaseKeepsInv(Next(s, Resolve(resolution, r)));
  }
}
