/** The GUI-thread object of the protocol: its methods update fields, and each is the step of the
    state machine that TaskProtocol reasons about. */
module TaskManagerModel {
  import P = TaskProtocol

  class TaskManager {
    var queue: seq<P.Task>
    var busy: bool
    var promptKind: P.PromptKind
    var promptId: nat
    var lastPromptId: nat
    var activeTaskId: nat
    var nextTaskId: nat
    var stopping: bool
    // The cell the pointers to the flag, the semaphore and the answer refer to; 0 before any task.
    var current: nat
    var between: P.Between
    // Shared with the worker.
    var link: P.Link
    ghost var log: P.Log

    ghost function View(): P.State
      reads this
    {
      P.State(P.Gui(queue, busy, promptKind, promptId, lastPromptId, activeTaskId, nextTaskId, stopping, current,
                    between), link, log)
    }

    ghost predicate Valid()
      reads this
    {
      P.Inv(View())
    }

    constructor ()
      ensures Valid() && View() == P.INITIAL
    {
      queue, busy, promptKind, promptId, lastPromptId, activeTaskId := [], false, P.NoPrompt, 0, 0, 0;
      nextTaskId, stopping, current, between := 0, false, 0, P.Free;
      link := P.INITIAL.w;
      log := P.INITIAL.log;
    }

    method ResetPromptState()
      modifies this`promptKind, this`promptId
      ensures View() == old(View()).(g := P.ResetPrompt(old(View()).g))
    {
      promptKind := P.NoPrompt;
      promptId := 0;
    }

    method RaiseFlag()
      modifies this`link
      ensures View() == old(View()).(w := P.RaiseFlag(old(link), current))
    {
      if current != 0 && current in link.cells {
        link := P.WithCell(link, current, link.cells[current].(cancel := true));
      }
    }

    method StartTask(task: P.Task)
      modifies this
      ensures View() == P.StartTask(old(View()), task)
    {
      activeTaskId := task.id;
      busy := true;
      current := task.id;
      link := P.WithCell(link, task.id, P.Cell(false, 0, -1));
      link := link.(jobs := link.jobs + [P.Job(task, 0, P.Queued, 0, -1)]);
      log := log.(started := log.started + [task]);
    }

    method DispatchNextTask()
      modifies this
      ensures View() == P.DispatchNext(old(View()))
    {
      if busy || promptKind != P.NoPrompt || queue == [] || stopping {
        return;
      }
      if queue[0].kind == P.TrashTask {
        activeTaskId := queue[0].id;
        link := link.(serial := link.serial + 1, issued := link.issued[link.serial + 1 := queue[0].id]);
        promptId := link.serial;
        lastPromptId := promptId;
        promptKind := P.TrashConfirm;
        return;
      }
      var task := queue[0];
      queue := queue[1..];
      StartTask(task);
    }

    /** enqueueCopy, enqueueMove and requestTrashConfirmation. */
    method Enqueue(kind: P.TaskKind, sources: seq<string>)
      requires Valid() && between == P.Free
      modifies this
      ensures Valid() && View() == P.Next(old(View()), P.Enqueue(kind, sources))
    {
      ghost var before := View();
      P.EnqueueStep(before, kind, sources);
      if sources == [] || stopping {
        return;
      }
      nextTaskId := nextTaskId + 1;
      queue := queue + [P.Task(kind, sources, nextTaskId)];
      assert View() == before.(g := P.Append(before.g, kind, sources));
      DispatchNextTask();
    }

    method RespondToTrashConfirm(confirmed: bool, requestId: nat)
      requires Valid() && between == P.Free
      modifies this
      ensures Valid() && View() == P.Next(old(View()), P.RespondTrash(confirmed, requestId))
    {
      P.NextKeepsInv(View(), P.RespondTrash(confirmed, requestId));
      if promptKind != P.TrashConfirm || requestId != promptId {
        return;
      }
      var task := queue[0];
      queue := queue[1..];
      ResetPromptState();
      activeTaskId := 0;
      if confirmed {
        StartTask(task);
      } else {
        DispatchNextTask();
      }
    }

    /** The part of cancelCurrentTask up to the release of the semaphore. */
    method CancelCurrentTask()
      requires Valid() && between == P.Free
      modifies this
      ensures Valid() && View() == P.Next(old(View()), P.CancelCurrent)
    {
      P.CancelStep(View());
      RaiseFlag();
      between := P.MustRelease;
      queue := [];
      ResetPromptState();
      if !busy {
        activeTaskId := 0;
      }
    }

    /** The part of resolveConflict up to the release of the semaphore. */
    method ResolveConflict(resolution: P.Resolution, requestId: nat)
      requires Valid() && between == P.Free
      modifies this
      ensures Valid() && View() == P.Next(old(View()), P.Resolve(resolution, requestId))
    {
      P.NextKeepsInv(View(), P.Resolve(resolution, requestId));
      if promptKind != P.Conflict || requestId != promptId || current == 0 || current !in link.cells ||
         link.cells[current].cancel
      {
        return;
      }
      if resolution == P.Cancel {
        CancelCurrentTask();
        return;
      }
      link := P.WithCell(link, current, link.cells[current].(answer := P.Code(resolution)));
      log := log.(answered := log.answered[requestId := resolution]);
      ResetPromptState();
      between := P.MustRelease;
    }

    /** prompt_semaphore_->release() at the end of the three methods that call it. */
    method ReleaseSemaphore()
      requires Valid() && between == P.MustRelease
      modifies this
      ensures Valid() && View() == P.Next(old(View()), P.Release)
    {
      P.NextKeepsInv(View(), P.Release);
      link := P.WithCell(link, current, link.cells[current].(tokens := link.cells[current].tokens + 1));
      between := P.Free;
    }

    method Shutdown()
      requires Valid() && between == P.Free
      modifies this
      ensures Valid() && View() == P.Next(old(View()), P.Shutdown)
    {
      P.NextKeepsInv(View(), P.Shutdown);
      if stopping {
        return;
      }
      stopping := true;
      queue := [];
      ResetPromptState();
      RaiseFlag();
      between := P.MustRelease;
    }

    method OnConflictDetected(taskId: nat, requestId: nat)
      modifies this
      ensures View() == P.OnConflict(old(View()), taskId, requestId)
    {
      if taskId != activeTaskId || !busy || stopping ||
         (current != 0 && current in link.cells && link.cells[current].cancel)
      {
        return;
      }
      if requestId <= lastPromptId {
        return;
      }
      promptId := requestId;
      lastPromptId := requestId;
      promptKind := P.Conflict;
    }

    method OnTaskFinished(taskId: nat)
      modifies this
      ensures View() == P.OnFinished(old(View()), taskId)
    {
      if taskId != activeTaskId {
        return;
      }
      ResetPromptState();
      activeTaskId := 0;
      busy := false;
      DispatchNextTask();
    }

    /** One queued delivery reaches the GUI thread. */
    method DeliverNext()
      requires Valid() && between == P.Free
      modifies this
      ensures Valid() && View() == P.Next(old(View()), P.Deliver)
    {
      P.NextKeepsInv(View(), P.Deliver);
      if link.inbox == [] {
        return;
      }
      var delivery := link.inbox[0];
      link := link.(inbox := link.inbox[1..]);
      match delivery
      case ItemStarted(_) =>
      case ItemFinished(_) =>
      case ConflictDetected(taskId, requestId) => OnConflictDetected(taskId, requestId);
      case TaskFinished(taskId) => OnTaskFinished(taskId);
    }
  }
}
