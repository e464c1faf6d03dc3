/** The modes of the listing, and the rows that match a search. */
module VimMode {
  datatype Mode = Normal | Visual | Search | Insert

  datatype InsertKind = Prepend | Append | CreateBelow | CreateAbove

  datatype Match = Match(matched: bool, score: int)

  /** The fuzzy matcher: a query and a name. */
  type Matcher = (string, string) -> Match

  const MIN_SCORE := -0x8000_0000

  datatype Found = Found(rows: seq<int>, best: int)

  datatype Vim = Vim(mode: Mode, kind: InsertKind, query: string, committed: string, found: Found, preRow: int)

  const INITIAL := Vim(Normal, Prepend, "", "", Found([], -1), -1)

  predicate IsCreate(kind: InsertKind) {
    kind == CreateBelow || kind == CreateAbove
  }

  function ActiveQuery(v: Vim): string {
    if v.mode == Search then v.query else v.committed
  }

  /** All rows that match, from the top. */
  ghost function MatchRows(fuzzy: Matcher, query: string, names: seq<string>): seq<int> {
    if names == [] || query == "" then []
    else
      var rest := MatchRows(fuzzy, query, names[..|names| - 1]);
      if fuzzy(query, names[|names| - 1]).matched then rest + [|names| - 1] else rest
  }

  lemma {:induction false} MatchRowsAre(fuzzy: Matcher, query: string, names: seq<string>)
    ensures var rows := MatchRows(fuzzy, query, names);
      && Ascending(rows)
      && forall r :: r in rows <==> 0 <= r < |names| && query != "" && fuzzy(query, names[r]).matched
    decreases |names|
  {
    if names != [] && query != "" {
      var n := |names| - 1;
      MatchRowsAre(fuzzy, query, names[..n]);
      var rest := MatchRows(fuzzy, query, names[..n]);
      assert forall i | 0 <= i < |rest| :: rest[i] in rest;
      assert forall r | 0 <= r < n :: names[..n][r] == names[r];
    }
  }

  /** The topmost of the best matches; a match with the least possible score is never the best. */
  ghost predicate IsBest(fuzzy: Matcher, query: string, names: seq<string>, best: int) {
    if best < 0 then best == -1 && forall r | 0 <= r < |names| :: !Scores(fuzzy, query, names[r])
    else
      && best < |names| && Scores(fuzzy, query, names[best])
      && forall r | 0 <= r < |names| && Scores(fuzzy, query, names[r]) ::
           fuzzy(query, names[r]).score <= fuzzy(query, names[best]).score
           && (r < best ==> fuzzy(query, names[r]).score < fuzzy(query, names[best]).score)
  }

  predicate Scores(fuzzy: Matcher, query: string, name: string) {
    query != "" && fuzzy(query, name).matched && fuzzy(query, name).score > MIN_SCORE
  }

  ghost function BestRow(fuzzy: Matcher, query: string, names: seq<string>): (best: int)
    ensures -1 <= best < |names|
  {
    if names == [] then -1
    else
      var n := |names| - 1;
      var best := BestRow(fuzzy, query, names[..n]);
      if Scores(fuzzy, query, names[n])
        && (best < 0 || fuzzy(query, names[best]).score < fuzzy(query, names[n]).score) then n else best
  }

  lemma {:induction false} BestRowIsBest(fuzzy: Matcher, query: string, names: seq<string>)
    ensures IsBest(fuzzy, query, names, BestRow(fuzzy, query, names))
    decreases |names|
  {
    if names != [] {
      var n := |names| - 1;
      BestRowIsBest(fuzzy, query, names[..n]);
      assert forall r | 0 <= r < n :: names[..n][r] == names[r];
    }
  }

  /** What a search for `query` finds among the names. */
  ghost function Results(fuzzy: Matcher, query: string, names: seq<string>): Found {
    Found(MatchRows(fuzzy, query, names), BestRow(fuzzy, query, names))
  }

  lemma {:induction false} NothingForNoQuery(fuzzy: Matcher, names: seq<string>)
    ensures Results(fuzzy, "", names) == Found([], -1)
    decreases |names|
  {
    if names != [] {
      NothingForNoQuery(fuzzy, names[..|names| - 1]);
    }
  }

  lemma BestIsUnique(fuzzy: Matcher, query: string, names: seq<string>, a: int, b: int)
    requires IsBest(fuzzy, query, names, a) && IsBest(fuzzy, query, names, b)
    ensures a == b
  {
  }

  /** The best row is the only row that IsBest describes. */
  lemma BestRowExactly(fuzzy: Matcher, query: string, names: seq<string>)
    ensures forall b :: IsBest(fuzzy, query, names, b) <==> b == BestRow(fuzzy, query, names)
  {
    BestRowIsBest(fuzzy, query, names);
    forall b | IsBest(fuzzy, query, names, b)
      ensures b == BestRow(fuzzy, query, names)
    {
      BestIsUnique(fuzzy, query, names, b, BestRow(fuzzy, query, names));
    }
  }

  // ----- stepping through the matches -----

  /** The next match below the row, or the first; the next above, or the last. */
  ghost predicate Advances(rows: seq<int>, row: int, forward: bool, to: int) {
    if rows == [] then to == -1
    else
      && to in rows
      && if forward then
           if row < rows[|rows| - 1] then row < to && forall r | r in rows && row < r :: to <= r else to == rows[0]
         else
           if rows[0] < row then to < row && forall r | r in rows && r < row :: r <= to else to == rows[|rows| - 1]
  }

  ghost predicate Ascending(rows: seq<int>) {
    forall i, j | 0 <= i < j < |rows| :: rows[i] < rows[j]
  }

  function Wrap(i: int, n: nat): int {
    if i < 0 then i + n else if i < n then i else i - n
  }

  lemma AdvanceIsNextIndex(rows: seq<int>, i: nat, to: int)
    requires Ascending(rows) && i < |rows| && Advances(rows, rows[i], true, to)
    ensures to == rows[Wrap(i + 1, |rows|)]
  {
    if i + 1 < |rows| {
      assert rows[i + 1] in rows && rows[i] < rows[i + 1] <= rows[|rows| - 1];
      var k :| 0 <= k < |rows| && rows[k] == to;
    }
  }

  lemma AdvanceIsPreviousIndex(rows: seq<int>, i: nat, to: int)
    requires Ascending(rows) && i < |rows| && Advances(rows, rows[i], false, to)
    ensures to == rows[Wrap(i - 1, |rows|)]
  {
    if i > 0 {
      assert rows[i - 1] in rows && rows[0] <= rows[i - 1] < rows[i];
      var k :| 0 <= k < |rows| && rows[k] == to;
    }
  }

  /** From a match, N undoes n. */
  lemma PreviousUndoesNext(rows: seq<int>, row: int, to: int, back: int)
    requires Ascending(rows) && row in rows && Advances(rows, row, true, to) && Advances(rows, to, false, back)
    ensures back == row
  {
    var i :| 0 <= i < |rows| && rows[i] == row;
    AdvanceIsNextIndex(rows, i, to);
    AdvanceIsPreviousIndex(rows, Wrap(i + 1, |rows|), back);
  }

  lemma {:induction false} NextSteps(rows: seq<int>, i: nat, presses: nat, path: seq<int>)
    requires Ascending(rows) && i < |rows| && presses <= |rows| && |path| == presses + 1 && path[0] == rows[i]
    requires forall k | 0 <= k < presses :: Advances(rows, path[k], true, path[k + 1])
    ensures forall k | 0 <= k <= presses :: path[k] == rows[Wrap(i + k, |rows|)]
  {
    if presses > 0 {
      var init := path[..presses];
      assert forall k | 0 <= k < presses :: init[k] == path[k];
      NextSteps(rows, i, presses - 1, init);
      var last := presses - 1;
      assert init[last] == rows[Wrap(i + last, |rows|)];
      assert Advances(rows, path[last], true, path[last + 1]);
      AdvanceIsNextIndex(rows, Wrap(i + last, |rows|), path[presses]);
    }
  }

  /** Pressing n as often as there are matches visits every one of them and ends where it began. */
  lemma {:induction false} NextCycles(rows: seq<int>, i: nat, path: seq<int>)
    requires Ascending(rows) && i < |rows| && |path| == |rows| + 1 && path[0] == rows[i]
    requires forall k | 0 <= k < |rows| :: Advances(rows, path[k], true, path[k + 1])
    ensures path[|rows|] == path[0] && forall r | r in rows :: r in path
  {
    NextSteps(rows, i, |rows|, path);
    forall r | r in rows
      ensures r in path
    {
      var j :| 0 <= j < |rows| && rows[j] == r;
      assert path[if j >= i then j - i else j + |rows| - i] == r;
    }
  }

  class VimModeController {
    var mode: Mode
    var insertKind: InsertKind
    var searchQuery: string
    var committedQuery: string
    var searchMatchRows: seq<int>
    var searchBestRow: int
    var searchPreRow: int

    ghost function View(): Vim
      reads this
    {
      Vim(mode, insertKind, searchQuery, committedQuery, Found(searchMatchRows, searchBestRow), searchPreRow)
    }

    constructor ()
      ensures View() == INITIAL
    {
      mode, insertKind, searchQuery, committedQuery := Normal, Prepend, "", "";
      searchMatchRows, searchBestRow, searchPreRow := [], -1, -1;
    }

    method RefreshSearch(fuzzy: Matcher, visibleNames: seq<string>)
      modifies this`searchMatchRows, this`searchBestRow
      ensures View().found == Results(fuzzy, ActiveQuery(View()), visibleNames)
      ensures forall b :: IsBest(fuzzy, ActiveQuery(View()), visibleNames, b) <==> b == searchBestRow
    {
      var query := if mode == Search then searchQuery else committedQuery;
      searchMatchRows := [];
      searchBestRow := -1;
      NothingForNoQuery(fuzzy, visibleNames);
      if query != "" {
        var bestScore := MIN_SCORE;
        for row := 0 to |visibleNames|
          invariant -1 <= searchBestRow < row && bestScore >= MIN_SCORE
          invariant searchMatchRows == MatchRows(fuzzy, query, visibleNames[..row])
          invariant searchBestRow == BestRow(fuzzy, query, visibleNames[..row])
          invariant bestScore ==
            if searchBestRow < 0 then MIN_SCORE else fuzzy(query, visibleNames[searchBestRow]).score
        {
          assert visibleNames[..row + 1][..row] == visibleNames[..row];
          var found := fuzzy(query, visibleNames[row]);
          if !found.matched {
            continue;
          }
          searchMatchRows := searchMatchRows + [row];
          if found.score > bestScore {
            bestScore := found.score;
            searchBestRow := row;
          }
        }
        assert visibleNames[..|visibleNames|] == visibleNames;
      }
      BestRowExactly(fuzzy, query, visibleNames);
    }

    method AdvanceSearchMatch(currentRow: int, forward: bool) returns (row: int)
      requires Ascending(searchMatchRows)
      ensures Advances(searchMatchRows, currentRow, forward, row)
    {
      if searchMatchRows == [] {
        return -1;
      }
      if forward {
        for k := 0 to |searchMatchRows|
          invariant forall i | 0 <= i < k :: searchMatchRows[i] <= currentRow
        {
          if searchMatchRows[k] > currentRow {
            return searchMatchRows[k];
          }
        }
        return searchMatchRows[0];
      }
      for k := |searchMatchRows| downto 0
        invariant forall i | k <= i < |searchMatchRows| :: searchMatchRows[i] >= currentRow
      {
        if searchMatchRows[k] < currentRow {
          return searchMatchRows[k];
        }
      }
      return searchMatchRows[|searchMatchRows| - 1];
    }

    method EnterInsert(kind: InsertKind)
      modifies this`mode, this`insertKind
      ensures mode == Insert && insertKind == kind
    {
      mode := Insert;
      insertKind := kind;
    }

    method LeaveInsert()
      modifies this`mode
      ensures mode == Normal
    {
      mode := Normal;
    }

    method EnterSearch(currentRow: int)
      modifies this
      ensures View() == old(View()).(mode := Search, preRow := currentRow, query := "", found := Found([], -1))
    {
      mode := Search;
      searchPreRow := currentRow;
      searchQuery := "";
      searchBestRow := -1;
      searchMatchRows := [];
    }

    method SetSearchQuery(fuzzy: Matcher, query: string, visibleNames: seq<string>)
      modifies this
      ensures View() ==
        if old(mode) != Search then old(View())
        else old(View()).(query := query, found := Results(fuzzy, query, visibleNames))
    {
      if mode != Search {
        return;
      }
      searchQuery := query;
      RefreshSearch(fuzzy, visibleNames);
    }

    method CommitSearch()
      modifies this
      ensures View() == old(View()).(mode := Normal, committed := old(searchQuery), query := "")
    {
      committedQuery := searchQuery;
      mode := Normal;
      searchQuery := "";
    }

    /** Returns the row the cursor should be restored to. */
    method CancelSearch() returns (restoreRow: int)
      modifies this
      ensures View() == old(View()).(mode := Normal, query := "", found := Found([], -1), preRow := -1)
      ensures restoreRow == old(searchPreRow)
    {
      mode := Normal;
      restoreRow := searchPreRow;
      searchQuery := "";
      searchMatchRows := [];
      searchBestRow := -1;
      searchPreRow := -1;
    }

    method ResetSearch()
      modifies this
      ensures View() == old(View()).(query := "", committed := "", found := Found([], -1), preRow := -1)
    {
      searchQuery := "";
      committedQuery := "";
      searchMatchRows := [];
      searchBestRow := -1;
      searchPreRow := -1;
    }

    method ExitVisual()
      modifies this`mode
      ensures mode == Normal
    {
      mode := Normal;
    }
  }
}
