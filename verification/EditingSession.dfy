/** The object that keeps the mode, the directory model, the proxy and the search results in step. */
module EditingSessionModel {
  import opened Listing
  import opened DirectoryModel
  import opened VimMode
  import opened Editing
  import P = ProxyOrder

  class EditingSession {
    const vim: VimModeController
    const model: Model
    var proxyEditing: bool
    var placeholder: P.Pin
    var shownNames: seq<string>
    var activePlaceholderSourceRow: int
    var listingRevision: nat
    var searchRevision: nat
    var preSearchName: string

    ghost function View(): Editor
      reads this, vim, model
    {
      Editor(vim.View(), Lock(proxyEditing, placeholder, activePlaceholderSourceRow), model.View(), shownNames,
             listingRevision, searchRevision)
    }

    ghost predicate Valid()
      reads this, vim, model
    {
      model.Valid() && searchRevision <= listingRevision
    }

    constructor ()
      ensures Valid() && View() == START && fresh(vim) && fresh(model)
    {
      vim := new VimModeController();
      model := new Model();
      proxyEditing, placeholder, shownNames, activePlaceholderSourceRow := false, P.NO_PIN, [], -1;
      listingRevision, searchRevision, preSearchName := 0, 0, "";
    }

    /** The proxy announces the names it now shows. */
    method ListingChanged(fuzzy: Matcher, names: seq<string>)
      requires Valid()
      modifies this, vim
      ensures Valid() && View() == Listed(fuzzy, old(View()), names) && preSearchName == old(preSearchName)
    {
      shownNames := names;
      listingRevision := listingRevision + 1;
      if vim.mode == Visual && names == [] {
        vim.ExitVisual();
      }
      if vim.mode == Search {
        EnsureSearchCurrent(fuzzy);
      }
    }

    method EnsureSearchCurrent(fuzzy: Matcher)
      requires Valid()
      modifies this, vim
      ensures Valid() && View() == EnsureCurrent(fuzzy, old(View())) && preSearchName == old(preSearchName)
    {
      if searchRevision == listingRevision {
        return;
      }
      searchRevision := listingRevision;
      vim.RefreshSearch(fuzzy, shownNames);
    }

    method BeginRenaming(kind: InsertKind, cursor: int)
      requires Valid()
      modifies this, vim, model
      ensures Valid() && View() == BeginRename(old(View()), kind, 0 <= cursor < |old(shownNames)|)
    {
      if cursor < 0 || cursor >= |shownNames| {
        return;
      }
      HoldRows();
      vim.EnterInsert(kind);
    }

    method HoldRows()
      requires Valid()
      modifies this`proxyEditing, model
      ensures Valid() && View() == Held(old(View()))
    {
      proxyEditing := true;
      model.SuspendUpdates();
    }

    /** `anchor` is the source row under the cursor, -1 when none is shown; `names` is what the proxy shows
        once the placeholder is in. */
    method BeginCreating(fuzzy: Matcher, kind: InsertKind, anchor: int, names: seq<string>)
      requires Valid() && NoPlaceholder(model.View()) && anchor < |model.entries|
      modifies this, vim, model
      ensures Valid() && View() == BeginCreate(fuzzy, old(View()), kind, anchor, names)
      ensures PinnedTo(placeholder, old(model.entries), kind, anchor)
      ensures activePlaceholderSourceRow == |old(model.entries)|
    {
      HoldRows();
      var placeholderSourceRow := |model.entries|;
      PinPlaceholder(kind, anchor);
      ShowPlaceholder(fuzzy, names);
      activePlaceholderSourceRow := placeholderSourceRow;
      vim.EnterInsert(kind);
    }

    method PinPlaceholder(kind: InsertKind, anchor: int)
      requires anchor < |model.entries|
      modifies this`placeholder
      ensures View() == old(View()).(lock := old(View()).lock.(pin := PinFor(model.View(), kind, anchor)))
      ensures PinnedTo(placeholder, model.entries, kind, anchor)
    {
      if anchor < 0 {
        placeholder := P.Pin(|model.entries|, "", false, kind == CreateBelow);
      } else {
        placeholder := P.Pin(|model.entries|, model.entries[anchor].name, model.entries[anchor].isDir,
                             kind == CreateBelow);
      }
    }

    method ShowPlaceholder(fuzzy: Matcher, names: seq<string>)
      requires Valid() && model.updatesSuspended && NoPlaceholder(model.View())
      modifies this, vim, model
      ensures Valid() && model.View() == old(model.View()).(rows := old(model.entries) + [PLACEHOLDER])
      ensures View() == Listed(fuzzy, old(View()).(model := model.View()), names)
    {
      var row := model.InsertPlaceholderRow();
      ListingChanged(fuzzy, names);
    }

    method RemoveActivePlaceholderIfAny(fuzzy: Matcher, names: seq<string>)
      requires Valid()
      modifies this, vim, model
      ensures Valid() && View() == DropPlaceholder(fuzzy, old(View()), names)
      ensures model.identityToRow == old(model.identityToRow)
    {
      if activePlaceholderSourceRow < 0 {
        return;
      }
      var count := |model.entries|;
      model.RemovePlaceholderRow(activePlaceholderSourceRow);
      if |model.entries| != count {
        ListingChanged(fuzzy, names);
      }
      placeholder := P.NO_PIN;
      activePlaceholderSourceRow := -1;
    }

    method EndInserting()
      requires Valid() && NoPlaceholder(model.View())
      modifies this`proxyEditing, model
      ensures Valid() && View() == EndInsert(old(View()))
    {
      proxyEditing := false;
      model.ResumeUpdates();
    }

    /** `outcome` is what validation and the system call answered. */
    method CommitInsertEditing(fuzzy: Matcher, outcome: Outcome, names: seq<string>)
      requires Valid() && Placed(View().lock, model.View()) && Creating(View())
      modifies this, vim, model
      ensures Valid() && View() == CommitInsert(fuzzy, old(View()), outcome, names)
    {
      if vim.mode != Insert || outcome == Invalid {
        return;
      }
      if outcome == Failed {
        return;
      }
      var wasCreate := IsCreate(vim.insertKind);
      vim.LeaveInsert();
      if wasCreate {
        DropRemovesIt(fuzzy, View(), names);
        RemoveActivePlaceholderIfAny(fuzzy, names);
      }
      EndInserting();
    }

    method CancelInsertEditing(fuzzy: Matcher, names: seq<string>)
      requires Valid() && Placed(View().lock, model.View())
      modifies this, vim, model
      ensures Valid() && View() == CancelInsert(fuzzy, old(View()), names)
    {
      vim.LeaveInsert();
      DropRemovesIt(fuzzy, View(), names);
      RemoveActivePlaceholderIfAny(fuzzy, names);
      EndInserting();
    }

    method BeginSearching(cursor: int)
      requires Valid()
      modifies this`preSearchName, vim
      ensures Valid() && View() == EnterSearch(old(View()), cursor)
      ensures preSearchName == if 0 <= cursor < |shownNames| then shownNames[cursor] else ""
    {
      preSearchName := if 0 <= cursor < |shownNames| then shownNames[cursor] else "";
      vim.EnterSearch(cursor);
    }

    /** Returns the row of the best match, or -1 when the cursor stays. */
    method UpdateSearchQuery(fuzzy: Matcher, query: string) returns (best: int)
      requires Valid()
      modifies this`searchRevision, vim
      ensures Valid() && View() == UpdateQuery(fuzzy, old(View()), query)
      ensures best == if old(vim.mode) == Search then BestRow(fuzzy, query, shownNames) else -1
    {
      if vim.mode != Search {
        return -1;
      }
      vim.SetSearchQuery(fuzzy, query, shownNames);
      searchRevision := listingRevision;
      best := vim.searchBestRow;
    }

    method CommitSearchEditing()
      requires Valid()
      modifies vim
      ensures Valid() && View() == CommitSearch(old(View()))
    {
      vim.CommitSearch();
    }

    /** Returns the row of the entry the cursor was on before, wherever it is now; else the row it was. */
    method CancelSearchEditing() returns (restoreRow: int)
      requires Valid()
      modifies this`listingRevision, vim
      ensures Valid() && View() == CancelSearch(old(View()))
      ensures if preSearchName in shownNames then
          0 <= restoreRow < |shownNames| && shownNames[restoreRow] == preSearchName
          && forall i | 0 <= i < restoreRow :: shownNames[i] != preSearchName
        else restoreRow == old(vim.searchPreRow)
    {
      restoreRow := vim.CancelSearch();
      for row := 0 to |shownNames|
        invariant forall i | 0 <= i < row :: shownNames[i] != preSearchName
        invariant restoreRow == old(vim.searchPreRow)
      {
        if shownNames[row] == preSearchName {
          restoreRow := row;
          break;
        }
      }
      listingRevision := listingRevision + 1;
    }

    /** The row of the next or previous match of fresh results, or -1. */
    method GoToMatch(fuzzy: Matcher, cursor: int, forward: bool) returns (row: int)
      requires Valid() && Agrees(fuzzy, View())
      modifies this, vim
      ensures Valid() && View() == EnsureCurrent(fuzzy, old(View()))
      ensures Advances(MatchRows(fuzzy, ActiveQuery(vim.View()), shownNames), cursor, forward, row)
    {
      EnsureSearchCurrent(fuzzy);
      MatchRowsAre(fuzzy, ActiveQuery(vim.View()), shownNames);
      row := vim.AdvanceSearchMatch(cursor, forward);
    }

    method ResetForNavigation(fuzzy: Matcher, names: seq<string>)
      requires Valid()
      modifies this, vim, model
      ensures Valid() && View() == Reset(fuzzy, old(View()), names)
    {
      vim.LeaveInsert();
      RemoveActivePlaceholderIfAny(fuzzy, names);
      proxyEditing := false;
      vim.ExitVisual();
      vim.ResetSearch();
      preSearchName := "";
      listingRevision := listingRevision + 1;
    }

    /** The model's reset is announced with an empty listing; a stopping model does not reset. */
    method Open(fuzzy: Matcher, path: string, names: seq<string>)
      requires Valid()
      modifies this, vim, model
      ensures Valid() && View() == Navigate(fuzzy, old(View()), path, names)
    {
      ResetForNavigation(fuzzy, names);
      if model.stopping {
        return;
      }
      model.LoadPath(path);
      ListingChanged(fuzzy, []);
    }
  }
}
