/** The sidebar's places: Home, the user directories and the bookmarks, each checked in the background. */
module Places {
  import opened Wrappers

  datatype Origin = Home | XdgUserDirectory | Bookmark

  datatype Status = Checking | Available | Unavailable

  datatype Place = Place(id: nat, name: string, path: string, origin: Origin, status: Status,
                         startsBookmarks: bool, generation: nat)

  datatype Named = Named(name: string, path: string, isHome: bool)

  /** A check in flight is known by the place it is for and the generation it began in; generation 0 is the
      startup check. */
  datatype Check = Check(id: nat, generation: nat)

  // ----- building -----

  ghost function PathsOf(ns: seq<Named>): set<string> {
    set i | 0 <= i < |ns| :: ns[i].path
  }

  ghost predicate Numbered(ps: seq<Place>) {
    forall i | 0 <= i < |ps| :: ps[i].id == i + 1
  }

  /** The bookmarks that repeat neither a place before them nor an earlier bookmark, in order. */
  ghost function Unrepeated(bookmarks: seq<Named>, seen: set<string>): seq<Named> {
    if bookmarks == [] then []
    else if bookmarks[0].path in seen then Unrepeated(bookmarks[1..], seen)
    else [bookmarks[0]] + Unrepeated(bookmarks[1..], seen + {bookmarks[0].path})
  }

  lemma {:induction false} UnrepeatedAreNew(bookmarks: seq<Named>, seen: set<string>)
    ensures forall b | b in Unrepeated(bookmarks, seen) :: b in bookmarks && b.path !in seen
  {
    if bookmarks != [] {
      var first := bookmarks[0];
      UnrepeatedAreNew(bookmarks[1..], if first.path in seen then seen else seen + {first.path});
      assert bookmarks == [first] + bookmarks[1..];
    }
  }

  ghost predicate DistinctPaths(ns: seq<Named>) {
    forall i, j | 0 <= i < j < |ns| :: ns[i].path != ns[j].path
  }

  lemma {:induction false} UnrepeatedAreDistinct(bookmarks: seq<Named>, seen: set<string>)
    ensures DistinctPaths(Unrepeated(bookmarks, seen))
  {
    if bookmarks != [] {
      var first := bookmarks[0];
      if first.path in seen {
        UnrepeatedAreDistinct(bookmarks[1..], seen);
      } else {
        var rest := Unrepeated(bookmarks[1..], seen + {first.path});
        UnrepeatedAreDistinct(bookmarks[1..], seen + {first.path});
        UnrepeatedAreNew(bookmarks[1..], seen + {first.path});
        assert forall j | 0 <= j < |rest| :: rest[j] in rest;
        assert DistinctPaths([first] + rest);
      }
    }
  }

  /** Every bookmark's path is shown by some row. */
  lemma {:induction false} UnrepeatedMissNone(bookmarks: seq<Named>, seen: set<string>)
    ensures PathsOf(bookmarks) <= seen + PathsOf(Unrepeated(bookmarks, seen))
  {
    if bookmarks != [] {
      var first := bookmarks[0];
      var seen' := if first.path in seen then seen else seen + {first.path};
      UnrepeatedMissNone(bookmarks[1..], seen');
      PathsOfFirst(bookmarks);
      var kept := Unrepeated(bookmarks, seen);
      if first.path !in seen {
        assert kept[1..] == Unrepeated(bookmarks[1..], seen');
        PathsOfFirst(kept);
      }
    }
  }

  lemma PathsOfFirst(ns: seq<Named>)
    requires ns != []
    ensures PathsOf(ns) == {ns[0].path} + PathsOf(ns[1..])
  {
    forall p
      ensures p in PathsOf(ns) <==> p in {ns[0].path} + PathsOf(ns[1..])
    {
      if p in PathsOf(ns) {
        var i :| 0 <= i < |ns| && ns[i].path == p;
        assert i > 0 ==> ns[1..][i - 1].path == p;
      }
      if p in PathsOf(ns[1..]) {
        var i :| 0 <= i < |ns[1..]| && ns[1..][i].path == p;
        assert ns[i + 1].path == p;
      }
    }
  }

  /** The first bookmark with its path, and not one of a standard place. */
  ghost predicate IsFirst(bookmarks: seq<Named>, seen: set<string>, k: nat) {
    && k < |bookmarks| && bookmarks[k].path !in seen
    && forall m | 0 <= m < k :: bookmarks[m].path != bookmarks[k].path
  }

  /** The kept bookmarks are those that are the first with their path; `ks` are their positions, in order. */
  ghost predicate AreFirst(kept: seq<Named>, bookmarks: seq<Named>, seen: set<string>, ks: seq<nat>) {
    && |ks| == |kept| && (forall i | 0 <= i < |ks| :: ks[i] < |bookmarks| && kept[i] == bookmarks[ks[i]])
    && (forall i, j | 0 <= i < j < |ks| :: ks[i] < ks[j])
    && (forall k: nat :: IsFirst(bookmarks, seen, k) <==> k in ks)
  }

  ghost function Later(ks: seq<nat>): (later: seq<nat>)
    ensures |later| == |ks| && forall i | 0 <= i < |ks| :: later[i] == ks[i] + 1
    ensures forall k: nat :: k in later <==> k > 0 && k - 1 in ks
  {
    var later := seq(|ks|, i requires 0 <= i < |ks| => ks[i] + 1);
    assert forall i | 0 <= i < |ks| :: later[i] in later;
    later
  }

  ghost function ZeroAndLater(ks: seq<nat>): (all: seq<nat>)
    ensures |all| == |ks| + 1 && all[0] == 0 && forall i | 0 < i <= |ks| :: all[i] == ks[i - 1] + 1
    ensures forall k: nat :: k in all <==> k == 0 || k - 1 in ks
  {
    [0] + Later(ks)
  }

  lemma RestIsFirst(bookmarks: seq<Named>, seen: set<string>, kept: seq<Named>, ks: seq<nat>)
    requires bookmarks != [] && bookmarks[0].path in seen && AreFirst(kept, bookmarks[1..], seen, ks)
    ensures AreFirst(kept, bookmarks, seen, Later(ks))
  {
    forall k: nat
      ensures IsFirst(bookmarks, seen, k) <==> k in Later(ks)
    {
      if k > 0 {
        FirstInRest(bookmarks, seen, k - 1);
      }
    }
  }

  lemma OneAndRestAreFirst(bookmarks: seq<Named>, seen: set<string>, kept: seq<Named>, ks: seq<nat>)
    requires bookmarks != [] && bookmarks[0].path !in seen
    requires AreFirst(kept, bookmarks[1..], seen + {bookmarks[0].path}, ks)
    ensures AreFirst([bookmarks[0]] + kept, bookmarks, seen, ZeroAndLater(ks))
  {
    forall k: nat
      ensures IsFirst(bookmarks, seen, k) <==> k in ZeroAndLater(ks)
    {
      if k > 0 {
        FirstInRest(bookmarks, seen, k - 1);
      }
    }
  }

  /** Kept are exactly the first bookmarks with their paths, in the order of the bookmarks. */
  lemma {:induction false} UnrepeatedAreFirst(bookmarks: seq<Named>, seen: set<string>)
    ensures exists ks :: AreFirst(Unrepeated(bookmarks, seen), bookmarks, seen, ks)
  {
    if bookmarks == [] {
      assert AreFirst(Unrepeated(bookmarks, seen), bookmarks, seen, []);
    } else {
      var first, rest := bookmarks[0], bookmarks[1..];
      var seen' := if first.path in seen then seen else seen + {first.path};
      UnrepeatedAreFirst(rest, seen');
      var ks :| AreFirst(Unrepeated(rest, seen'), rest, seen', ks);
      if first.path in seen {
        RestIsFirst(bookmarks, seen, Unrepeated(rest, seen'), ks);
        assert AreFirst(Unrepeated(bookmarks, seen), bookmarks, seen, Later(ks));
      } else {
        OneAndRestAreFirst(bookmarks, seen, Unrepeated(rest, seen'), ks);
        assert AreFirst(Unrepeated(bookmarks, seen), bookmarks, seen, ZeroAndLater(ks));
      }
    }
  }

  lemma FirstInRest(bookmarks: seq<Named>, seen: set<string>, k: nat)
    requires bookmarks != []
    ensures IsFirst(bookmarks, seen, k + 1) <==>
      IsFirst(bookmarks[1..], if bookmarks[0].path in seen then seen else seen + {bookmarks[0].path}, k)
  {
    if k + 1 < |bookmarks| {
      assert forall m | 0 <= m < k :: bookmarks[1..][m] == bookmarks[m + 1];
    }
  }

  ghost function StandardRow(n: Named, id: nat): Place {
    Place(id, n.name, n.path, if n.isHome then Home else XdgUserDirectory, Checking, false, 0)
  }

  ghost function BookmarkRow(n: Named, id: nat, first: bool): Place {
    Place(id, n.name, n.path, Bookmark, Checking, first, 0)
  }

  /** The standard places, then the bookmarks that repeat nothing; the first of those starts its section. */
  ghost predicate Built(rows: seq<Place>, standard: seq<Named>, kept: seq<Named>) {
    && |rows| == |standard| + |kept|
    && (forall i | 0 <= i < |standard| :: rows[i] == StandardRow(standard[i], i + 1))
    && (forall i | 0 <= i < |kept| ::
          rows[|standard| + i] == BookmarkRow(kept[i], |standard| + i + 1, i == 0))
  }

  ghost predicate Shows(p: Place, n: Named, origin: Origin) {
    p.name == n.name && p.path == n.path && p.origin == origin && p.status == Checking && p.generation == 0
  }

  /** Each row shows its own place, being checked: first the standard places, Home among them, then the bookmarks
      that are the first with their path, in order; the section of the bookmarks starts at the first of them. */
  lemma RowsAreTheirs(rows: seq<Place>, standard: seq<Named>, bookmarks: seq<Named>)
    requires Built(rows, standard, Unrepeated(bookmarks, PathsOf(standard)))
    ensures |rows| >= |standard| && forall i | 0 <= i < |standard| ::
      Shows(rows[i], standard[i], if standard[i].isHome then Home else XdgUserDirectory)
    ensures forall i | 0 <= i < |rows| :: rows[i].id == i + 1 && (rows[i].startsBookmarks <==> i == |standard|)
    ensures exists kept, ks ::
      && AreFirst(kept, bookmarks, PathsOf(standard), ks) && |kept| == |rows| - |standard|
      && forall i | 0 <= i < |kept| :: Shows(rows[|standard| + i], kept[i], Bookmark)
  {
    var kept := Unrepeated(bookmarks, PathsOf(standard));
    UnrepeatedAreFirst(bookmarks, PathsOf(standard));
    forall i | |standard| <= i < |rows|
      ensures rows[i] == BookmarkRow(kept[i - |standard|], i + 1, i == |standard|)
    {
      var k := i - |standard|;
      assert rows[|standard| + k] == BookmarkRow(kept[k], |standard| + k + 1, k == 0);
    }
  }

  // ----- delivering -----

  ghost function RowOf(rows: seq<Place>, id: nat): (r: int)
    ensures -1 <= r < |rows|
    ensures r >= 0 ==> rows[r].id == id && forall i | 0 <= i < r :: rows[i].id != id
    ensures r < 0 ==> forall i | 0 <= i < |rows| :: rows[i].id != id
  {
    if rows == [] then -1
    else if rows[0].id == id then 0
    else if RowOf(rows[1..], id) < 0 then
      assert forall i | 1 <= i < |rows| :: rows[i] == rows[1..][i - 1];
      -1
    else
      assert forall i | 1 <= i < |rows| :: rows[i] == rows[1..][i - 1];
      1 + RowOf(rows[1..], id)
  }

  function Answer(available: bool): Status {
    if available then Available else Unavailable
  }

  ghost function Delivered(rows: seq<Place>, c: Check, available: bool): seq<Place> {
    var r := RowOf(rows, c.id);
    if r < 0 || rows[r].generation != c.generation then rows
    else
      var p := rows[r];
      if c.generation > 0 then rows[r := p.(status := Answer(available))]
      else if p.origin == Home then rows[r := p.(status := Available)]
      else if p.origin == XdgUserDirectory && !available then rows[..r] + rows[r + 1..]
      else rows[r := p.(status := Answer(available))]
  }

  ghost predicate Announces(rows: seq<Place>, c: Check) {
    c.generation > 0 && RowOf(rows, c.id) >= 0 && rows[RowOf(rows, c.id)].generation == c.generation
  }

  ghost predicate CanRecheck(rows: seq<Place>, row: int) {
    0 <= row < |rows| && rows[row].origin == Bookmark
  }

  ghost function Rechecked(rows: seq<Place>, row: int): seq<Place> {
    if !CanRecheck(rows, row) then rows else rows[row := rows[row].(generation := rows[row].generation + 1)]
  }

  method StandardRows(standard: seq<Named>) returns (rows: seq<Place>, seen: set<string>)
    ensures Built(rows, standard, []) && seen == PathsOf(standard)
  {
    rows, seen := [], {};
    for i := 0 to |standard|
      invariant |rows| == i && forall k | 0 <= k < i :: rows[k] == StandardRow(standard[k], k + 1)
      invariant seen == set k | 0 <= k < i :: standard[k].path
    {
      var n := standard[i];
      var origin := if n.isHome then Home else XdgUserDirectory;
      rows := rows + [Place(|rows| + 1, n.name, n.path, origin, Checking, false, 0)];
      seen := seen + {n.path};
    }
  }

  lemma OneMore(rows: seq<Place>, standard: seq<Named>, kept: seq<Named>, b: Named)
    requires Built(rows, standard, kept)
    ensures Built(rows + [BookmarkRow(b, |rows| + 1, kept == [])], standard, kept + [b])
  {
  }

  /** The next bookmark is dropped, or kept as the last so far. */
  lemma UnrepeatedStep(bookmarks: seq<Named>, i: nat, seen: set<string>, kept: seq<Named>)
    requires i < |bookmarks|
    ensures var b := bookmarks[i];
      kept + Unrepeated(bookmarks[i..], seen) ==
        if b.path in seen then kept + Unrepeated(bookmarks[i + 1..], seen)
        else (kept + [b]) + Unrepeated(bookmarks[i + 1..], seen + {b.path})
  {
    assert bookmarks[i..][0] == bookmarks[i] && bookmarks[i..][1..] == bookmarks[i + 1..];
  }

  method BuildPlaces(standard: seq<Named>, bookmarks: seq<Named>) returns (rows: seq<Place>)
    ensures Built(rows, standard, Unrepeated(bookmarks, PathsOf(standard)))
  {
    var seen: set<string>;
    rows, seen := StandardRows(standard);
    ghost var kept: seq<Named> := [];
    ghost var all := Unrepeated(bookmarks, seen);
    var bookmarksStarted := false;
    for i := 0 to |bookmarks|
      invariant Built(rows, standard, kept) && bookmarksStarted == (kept != [])
      invariant all == kept + Unrepeated(bookmarks[i..], seen)
    {
      var b := bookmarks[i];
      UnrepeatedStep(bookmarks, i, seen, kept);
      if b.path in seen {
        continue;
      }
      OneMore(rows, standard, kept, b);
      rows := rows + [Place(|rows| + 1, b.name, b.path, Bookmark, Checking, !bookmarksStarted, 0)];
      kept := kept + [b];
      seen := seen + {b.path};
      bookmarksStarted := true;
    }
    assert kept == all;
  }

  class PlacesModel {
    var places: seq<Place>

    constructor (standard: seq<Named>, bookmarks: seq<Named>)
      ensures Built(places, standard, Unrepeated(bookmarks, PathsOf(standard)))
    {
      var rows := BuildPlaces(standard, bookmarks);
      places := rows;
    }

    method RowForId(placeId: nat) returns (row: int)
      ensures row == RowOf(places, placeId)
    {
      for i := 0 to |places|
        invariant forall k | 0 <= k < i :: places[k].id != placeId
      {
        if places[i].id == placeId {
          return i;
        }
      }
      return -1;
    }

    /** Returns the path and the answer when a recheck resolves. */
    method DeliverResult(placeId: nat, generation: nat, available: bool) returns (resolved: Option<(string, bool)>)
      modifies this`places
      ensures places == Delivered(old(places), Check(placeId, generation), available)
      ensures resolved ==
        if Announces(old(places), Check(placeId, generation))
        then Some((old(places)[RowOf(old(places), placeId)].path, available)) else None
    {
      var row := RowForId(placeId);
      if row < 0 {
        return None;
      }
      var place := places[row];
      if place.generation != generation {
        return None;
      }
      if generation == 0 {
        if place.origin == Home {
          places := places[row := place.(status := Available)];
        } else if place.origin == XdgUserDirectory {
          if available {
            places := places[row := place.(status := Available)];
          } else {
            places := places[..row] + places[row + 1..];
          }
        } else {
          places := places[row := place.(status := if available then Available else Unavailable)];
        }
        return None;
      }
      places := places[row := place.(status := if available then Available else Unavailable)];
      return Some((place.path, available));
    }

    /** Returns the id of the place, or 0 when there is nothing to check. */
    method RecheckBookmark(row: int) returns (placeId: nat)
      modifies this`places
      ensures places == Rechecked(old(places), row)
      ensures placeId == if CanRecheck(old(places), row) then old(places)[row].id else 0
    {
      if row < 0 || row >= |places| {
        return 0;
      }
      var place := places[row];
      if place.origin != Bookmark {
        return 0;
      }
      places := places[row := place.(generation := place.generation + 1)];
      return place.id;
    }
  }

  // ----- whole runs -----

  /** `inFlight`: checks dispatched and not yet delivered; `answers`: what the others said; `last`: for each place,
      what the last answer said that was to the newest check of its place when it came; `announced`: the rechecks
      whose answer was announced. */
  datatype Sidebar = Sidebar(
    rows: seq<Place>, inFlight: set<Check>, answers: map<Check, bool>, last: map<nat, bool>, announced: seq<Check>)

  datatype Step = Recheck(row: int) | Deliver(check: Check, available: bool)

  /** Every place is checked once at startup. */
  ghost predicate Begins(s: Sidebar, rows: seq<Place>) {
    && s.rows == rows && s.answers == map[] && s.last == map[] && s.announced == []
    && s.inFlight == set i | 0 <= i < |rows| :: Check(rows[i].id, 0)
  }

  ghost predicate Enabled(s: Sidebar, step: Step) {
    step.Deliver? ==> step.check in s.inFlight
  }

  /** No later check of the same place has been begun. */
  ghost predicate Newest(s: Sidebar, c: Check) {
    forall d | (d in s.inFlight || d in s.answers) && d.id == c.id :: d.generation <= c.generation
  }

  ghost function Next(s: Sidebar, step: Step): Sidebar {
    match step
    case Recheck(row) =>
      if !CanRecheck(s.rows, row) then s
      else
        s.(rows := Rechecked(s.rows, row),
           inFlight := s.inFlight + {Check(s.rows[row].id, s.rows[row].generation + 1)})
    case Deliver(c, available) =>
      s.(rows := Delivered(s.rows, c, available), inFlight := s.inFlight - {c},
         answers := s.answers[c := available], last := if Newest(s, c) then s.last[c.id := available] else s.last,
         announced := if Announces(s.rows, c) then s.announced + [c] else s.announced)
  }

  ghost predicate Ordered(rows: seq<Place>) {
    forall i, j | 0 <= i < j < |rows| :: rows[i].id < rows[j].id
  }

  ghost function IdsOf(rows: seq<Place>): set<nat> {
    set i | 0 <= i < |rows| :: rows[i].id
  }

  /** What the last answer that counted says about the place: nothing is known before the first. */
  ghost function Shown(p: Place, last: map<nat, bool>): Status {
    if p.id !in last then Checking
    else if p.origin == Home then Available
    else Answer(last[p.id])
  }

  /** Only a user directory whose startup check failed is gone. */
  ghost predicate Gone(first: Place, answers: map<Check, bool>) {
    && first.origin == XdgUserDirectory
    && Check(first.id, 0) in answers && !answers[Check(first.id, 0)]
  }

  /** A row now: only its status and generation have changed, and its status is what the last answer says that
      was the newest when it came. */
  ghost predicate RowOk(p: Place, s: Sidebar, first: seq<Place>) {
    && 0 < p.id <= |first| && p == first[p.id - 1].(status := p.status, generation := p.generation)
    && p.status == Shown(p, s.last)
    && (p.origin != Bookmark ==> p.generation == 0 && p.status != Unavailable)
    && (Check(p.id, p.generation) in s.inFlight || Check(p.id, p.generation) in s.answers)
    && Newest(s, Check(p.id, p.generation))
  }

  ghost predicate Inv(s: Sidebar, first: seq<Place>) {
    && Numbered(first) && Ordered(s.rows)
    && (forall i | 0 <= i < |s.rows| :: RowOk(s.rows[i], s, first))
    && (forall k | 0 <= k < |first| :: first[k].id !in IdsOf(s.rows) <==> Gone(first[k], s.answers))
    && (forall c | c in s.inFlight :: c !in s.answers)
    && (forall c | c in s.announced :: c in s.answers && c.generation > 0)
    && (forall i, j | 0 <= i < j < |s.announced| :: s.announced[i] != s.announced[j])
  }

  lemma BuiltRows(rows: seq<Place>, standard: seq<Named>, kept: seq<Named>)
    requires Built(rows, standard, kept)
    ensures Numbered(rows) && forall i | 0 <= i < |rows| :: rows[i].status == Checking && rows[i].generation == 0
  {
    forall i | 0 <= i < |rows|
      ensures rows[i].id == i + 1 && rows[i].status == Checking && rows[i].generation == 0
    {
      if i >= |standard| {
        var j := i - |standard|;
        assert rows[|standard| + j] == BookmarkRow(kept[j], |standard| + j + 1, j == 0);
      }
    }
  }

  lemma BeginKeepsRow(s: Sidebar, first: seq<Place>, i: nat)
    requires Numbered(first) && Begins(s, first) && i < |first|
    requires first[i].status == Checking && first[i].generation == 0
    ensures RowOk(first[i], s, first)
  {
    assert Check(first[i].id, 0) in s.inFlight;
  }

  lemma BeginKeepsInv(s: Sidebar, first: seq<Place>)
    requires Numbered(first) && Begins(s, first)
    requires forall i | 0 <= i < |first| :: first[i].status == Checking && first[i].generation == 0
    ensures Inv(s, first)
  {
    assert forall k | 0 <= k < |first| :: first[k].id in IdsOf(first) && !Gone(first[k], s.answers);
    forall i | 0 <= i < |s.rows|
      ensures RowOk(s.rows[i], s, first)
    {
      BeginKeepsRow(s, first, i);
    }
  }

  lemma RecheckKeepsRows(s: Sidebar, first: seq<Place>, row: int)
    requires CanRecheck(s.rows, row) && Ordered(s.rows)
    requires forall i | 0 <= i < |s.rows| :: RowOk(s.rows[i], s, first)
    ensures var s' := Next(s, Recheck(row));
      && Ordered(s'.rows) && IdsOf(s'.rows) == IdsOf(s.rows)
      && forall i | 0 <= i < |s'.rows| :: RowOk(s'.rows[i], s', first)
  {
    var s' := Next(s, Recheck(row));
    SameIds(s.rows, s'.rows);
    var checked := s.(inFlight := s'.inFlight);
    forall i | 0 <= i < |s'.rows|
      ensures RowOk(s'.rows[i], s', first)
    {
      assert RowOk(s'.rows[i], checked, first);
    }
  }

  lemma RecheckKeepsInv(s: Sidebar, first: seq<Place>, row: int)
    requires Inv(s, first) && CanRecheck(s.rows, row)
    ensures Inv(Next(s, Recheck(row)), first)
  {
    RecheckKeepsRows(s, first, row);
    var q := s.rows[row];
    assert RowOk(q, s, first);
    assert Check(q.id, q.generation + 1) !in s.answers;
  }

  lemma SameIds(a: seq<Place>, b: seq<Place>)
    requires |a| == |b| && forall i | 0 <= i < |a| :: a[i].id == b[i].id
    ensures IdsOf(a) == IdsOf(b)
  {
  }

  /** An answer that is not the newest of its place leaves every row as it was. */
  lemma OtherRowStays(p: Place, s: Sidebar, first: seq<Place>, c: Check, available: bool)
    requires RowOk(p, s, first) && c in s.inFlight && Check(p.id, p.generation) != c
    ensures RowOk(p, Next(s, Deliver(c, available)), first)
  {
  }

  lemma AnsweredRow(p: Place, status: Status, s: Sidebar, first: seq<Place>, c: Check, available: bool)
    requires RowOk(p, s, first) && c in s.inFlight && Check(p.id, p.generation) == c
    requires status == if p.origin == Home then Available else Answer(available)
    requires p.origin == XdgUserDirectory ==> available
    ensures RowOk(p.(status := status), Next(s, Deliver(c, available)), first)
  {
  }

  lemma RemovedIds(rows: seq<Place>, r: nat)
    requires Ordered(rows) && r < |rows|
    ensures var rest := rows[..r] + rows[r + 1..];
      Ordered(rest) && IdsOf(rest) == IdsOf(rows) - {rows[r].id}
  {
    var rest := rows[..r] + rows[r + 1..];
    forall id
      ensures id in IdsOf(rest) <==> id in IdsOf(rows) - {rows[r].id}
    {
      if id in IdsOf(rows) - {rows[r].id} {
        var i :| 0 <= i < |rows| && rows[i].id == id;
        assert rest[if i < r then i else i - 1].id == id;
      }
    }
  }

  lemma OtherRowsStay(s: Sidebar, first: seq<Place>, c: Check, available: bool)
    requires c in s.inFlight && forall i | 0 <= i < |s.rows| :: RowOk(s.rows[i], s, first)
    ensures var s' := Next(s, Deliver(c, available));
      forall i | 0 <= i < |s.rows| && Check(s.rows[i].id, s.rows[i].generation) != c :: RowOk(s.rows[i], s', first)
  {
    forall i | 0 <= i < |s.rows| && Check(s.rows[i].id, s.rows[i].generation) != c
      ensures RowOk(s.rows[i], Next(s, Deliver(c, available)), first)
    {
      OtherRowStays(s.rows[i], s, first, c, available);
    }
  }

  ghost predicate RowsOk(rows: seq<Place>, s: Sidebar, first: seq<Place>) {
    Ordered(rows) && forall i | 0 <= i < |rows| :: RowOk(rows[i], s, first)
  }

  lemma ReplacedRow(rows: seq<Place>, r: nat, p: Place, s: Sidebar, first: seq<Place>)
    requires Ordered(rows) && r < |rows| && p.id == rows[r].id && RowOk(p, s, first)
    requires forall i | 0 <= i < |rows| && i != r :: RowOk(rows[i], s, first)
    ensures RowsOk(rows[r := p], s, first)
  {
  }

  lemma RemovedRow(rows: seq<Place>, r: nat, s: Sidebar, first: seq<Place>)
    requires Ordered(rows) && r < |rows| && forall i | 0 <= i < |rows| && i != r :: RowOk(rows[i], s, first)
    ensures RowsOk(rows[..r] + rows[r + 1..], s, first)
  {
    var rest := rows[..r] + rows[r + 1..];
    RemovedIds(rows, r);
    forall i | 0 <= i < |rest|
      ensures RowOk(rest[i], s, first)
    {
      assert rest[i] == rows[if i < r then i else i + 1];
    }
  }

  lemma AnswerReplaces(s: Sidebar, first: seq<Place>, c: Check, available: bool, r: nat)
    requires Inv(s, first) && c in s.inFlight && r == RowOf(s.rows, c.id) && r < |s.rows|
    requires s.rows[r].generation == c.generation && !Expires(s, c, available)
    ensures var s' := Next(s, Deliver(c, available)); RowsOk(s'.rows, s', first)
  {
    var s', p := Next(s, Deliver(c, available)), s.rows[r];
    assert RowOk(p, s, first);
    OtherRowsStay(s, first, c, available);
    var status := if p.origin == Home then Available else Answer(available);
    AnsweredRow(p, status, s, first, c, available);
    ReplacedRow(s.rows, r, p.(status := status), s', first);
  }

  lemma AnswerRemoves(s: Sidebar, first: seq<Place>, c: Check, available: bool, r: nat)
    requires Inv(s, first) && c in s.inFlight && r == RowOf(s.rows, c.id) && r < |s.rows|
    requires Expires(s, c, available)
    ensures var s' := Next(s, Deliver(c, available)); RowsOk(s'.rows, s', first)
  {
    OtherRowsStay(s, first, c, available);
    RemovedRow(s.rows, r, Next(s, Deliver(c, available)), first);
  }

  lemma AnswerIgnored(s: Sidebar, first: seq<Place>, c: Check, available: bool)
    requires Inv(s, first) && c in s.inFlight
    requires var r := RowOf(s.rows, c.id); r < 0 || s.rows[r].generation != c.generation
    ensures var s' := Next(s, Deliver(c, available)); s'.rows == s.rows && RowsOk(s'.rows, s', first)
  {
    OtherRowsStay(s, first, c, available);
  }

  lemma DeliverKeepsRows(s: Sidebar, first: seq<Place>, c: Check, available: bool)
    requires Inv(s, first) && c in s.inFlight
    ensures var s' := Next(s, Deliver(c, available)); RowsOk(s'.rows, s', first)
  {
    var r := RowOf(s.rows, c.id);
    if r < 0 || s.rows[r].generation != c.generation {
      AnswerIgnored(s, first, c, available);
    } else if Expires(s, c, available) {
      AnswerRemoves(s, first, c, available, r);
    } else {
      AnswerReplaces(s, first, c, available, r);
    }
  }

  /** What becomes of the place that is answered. */
  lemma AnsweredStays(s: Sidebar, first: seq<Place>, c: Check, available: bool)
    requires Inv(s, first) && c in s.inFlight
    ensures var s' := Next(s, Deliver(c, available));
      IdsOf(s'.rows) == (if Expires(s, c, available) then IdsOf(s.rows) - {c.id} else IdsOf(s.rows))
  {
    var s', r := Next(s, Deliver(c, available)), RowOf(s.rows, c.id);
    if Expires(s, c, available) {
      RemovedIds(s.rows, r);
    } else {
      SameIds(s.rows, s'.rows);
    }
  }

  /** The answer removes the place. */
  ghost predicate Expires(s: Sidebar, c: Check, available: bool) {
    var r := RowOf(s.rows, c.id);
    && r >= 0 && s.rows[r].generation == c.generation == 0
    && s.rows[r].origin == XdgUserDirectory && !available
  }

  lemma DeliverKeepsInv(s: Sidebar, first: seq<Place>, c: Check, available: bool)
    requires Inv(s, first) && c in s.inFlight
    ensures Inv(Next(s, Deliver(c, available)), first)
  {
    DeliverKeepsRows(s, first, c, available);
    DeliverKeepsGone(s, first, c, available);
  }

  lemma {:induction false} DeliverKeepsGone(s: Sidebar, first: seq<Place>, c: Check, available: bool)
    requires Inv(s, first) && c in s.inFlight
    ensures var s' := Next(s, Deliver(c, available));
      forall k | 0 <= k < |first| :: first[k].id !in IdsOf(s'.rows) <==> Gone(first[k], s'.answers)
  {
    forall k | 0 <= k < |first|
      ensures var s' := Next(s, Deliver(c, available));
        first[k].id !in IdsOf(s'.rows) <==> Gone(first[k], s'.answers)
    {
      DeliverKeepsOneGone(s, first, c, available, k);
    }
  }

  lemma {:induction false} DeliverKeepsOneGone(s: Sidebar, first: seq<Place>, c: Check, available: bool, k: nat)
    requires Inv(s, first) && c in s.inFlight && k < |first|
    ensures var s' := Next(s, Deliver(c, available));
      first[k].id !in IdsOf(s'.rows) <==> Gone(first[k], s'.answers)
  {
    AnsweredStays(s, first, c, available);
    assert first[k].id !in IdsOf(s.rows) <==> Gone(first[k], s.answers);
    OneGone(s, c, available, first[k], IdsOf(Next(s, Deliver(c, available)).rows));
  }

  lemma OneGone(s: Sidebar, c: Check, available: bool, f: Place, ids: set<nat>)
    requires f.id !in IdsOf(s.rows) <==> Gone(f, s.answers)
    requires c !in s.answers
    requires var r := RowOf(s.rows, c.id);
      r >= 0 && f.id == c.id ==> s.rows[r].origin == f.origin && (f.origin != Bookmark ==> s.rows[r].generation == 0)
    requires ids == if Expires(s, c, available) then IdsOf(s.rows) - {c.id} else IdsOf(s.rows)
    ensures f.id !in ids <==> Gone(f, s.answers[c := available])
  {
  }

  ghost predicate Legal(s: Sidebar, steps: seq<Step>)
    decreases |steps|
  {
    steps == [] || (Enabled(s, steps[0]) && Legal(Next(s, steps[0]), steps[1..]))
  }

  ghost function Run(s: Sidebar, steps: seq<Step>): Sidebar
    requires Legal(s, steps)
    decreases |steps|
  {
    if steps == [] then s else Run(Next(s, steps[0]), steps[1..])
  }

  lemma {:induction false} RunKeepsInv(s: Sidebar, first: seq<Place>, steps: seq<Step>)
    requires Inv(s, first) && Legal(s, steps)
    ensures Inv(Run(s, steps), first)
    decreases |steps|
  {
    if steps != [] {
      match steps[0] {
        case Recheck(row) =>
          if CanRecheck(s.rows, row) {
            RecheckKeepsInv(s, first, row);
          }
        case Deliver(c, available) => DeliverKeepsInv(s, first, c, available);
      }
      RunKeepsInv(Next(s, steps[0]), first, steps[1..]);
    }
  }

  /** In whatever order the checks answer: a place shows what the last answer said that was to its newest check
      when it came, and is being checked before the first such answer; only user directories found missing at
      startup have gone, and all others are still there, in order; Home is never unavailable; and no recheck is
      announced twice. */
  lemma FreshestAnswerWins(standard: seq<Named>, bookmarks: seq<Named>, first: seq<Place>, s: Sidebar,
                           steps: seq<Step>)
    requires Built(first, standard, Unrepeated(bookmarks, PathsOf(standard)))
    requires Begins(s, first) && Legal(s, steps)
    ensures Inv(Run(s, steps), first)
  {
    BuiltRows(first, standard, Unrepeated(bookmarks, PathsOf(standard)));
    BeginKeepsInv(s, first);
    RunKeepsInv(s, first, steps);
  }

  /** The rows without the one at `r`. */
  ghost function Without(rows: seq<Place>, r: nat): seq<Place>
    requires r < |rows|
  {
    rows[..r] + rows[r + 1..]
  }

  /** A delivery, to a startup check or a recheck, changes something exactly when no later check of its place has
      been begun and the place is still there, and then only that place: it takes the status, or goes if it is a
      user directory found missing; and exactly then a recheck is announced, for the first time. */
  lemma OnlyTheNewestCounts(s: Sidebar, first: seq<Place>, c: Check, available: bool)
    requires Inv(s, first) && c in s.inFlight
    ensures var s', r := Next(s, Deliver(c, available)), RowOf(s.rows, c.id);
      if r >= 0 && Newest(s, c) then
        && s'.rows == (if s.rows[r].origin == XdgUserDirectory && !available then Without(s.rows, r)
                       else if s.rows[r].origin == Home then s.rows[r := s.rows[r].(status := Available)]
                       else s.rows[r := s.rows[r].(status := Answer(available))])
        && s'.announced == (if c.generation > 0 then s.announced + [c] else s.announced) && c !in s.announced
      else s'.announced == s.announced && s'.rows == s.rows
  {
    var r := RowOf(s.rows, c.id);
    if r >= 0 {
      assert RowOk(s.rows[r], s, first);
      assert Check(s.rows[r].id, s.rows[r].generation).id == c.id;
    }
  }

  /** Every bookmark, and nothing else, can be checked again: a new check of it begins, later than all others. */
  lemma RecheckBegins(s: Sidebar, first: seq<Place>, row: int)
    requires Inv(s, first)
    ensures var s' := Next(s, Recheck(row));
      if 0 <= row < |s.rows| && s.rows[row].origin == Bookmark then
        var c := Check(s.rows[row].id, s.rows[row].generation + 1);
        && c !in s.inFlight && c !in s.answers && s'.inFlight == s.inFlight + {c} && Newest(s', c)
        && s'.rows == s.rows[row := s.rows[row].(generation := c.generation)]
        && s'.answers == s.answers && s'.announced == s.announced
      else s' == s
  {
    if CanRecheck(s.rows, row) {
      var p := s.rows[row];
      assert RowOk(p, s, first) && Newest(s, Check(p.id, p.generation));
      assert Check(p.id, p.generation).id == Check(p.id, p.generation + 1).id == p.id;
    }
  }

  /** No step begins a check of this place. */
  ghost predicate LeavesAlone(s: Sidebar, steps: seq<Step>, id: nat)
    requires Legal(s, steps)
    decreases |steps|
  {
    steps != [] ==>
      && (steps[0].Recheck? && 0 <= steps[0].row < |s.rows| ==> s.rows[steps[0].row].id != id)
      && LeavesAlone(Next(s, steps[0]), steps[1..], id)
  }

  lemma {:induction false} NewestStays(s: Sidebar, steps: seq<Step>, c: Check)
    requires Legal(s, steps) && LeavesAlone(s, steps, c.id) && Newest(s, c)
    ensures Newest(Run(s, steps), c)
    decreases |steps|
  {
    if steps != [] {
      NewestStays(Next(s, steps[0]), steps[1..], c);
    }
  }

  lemma NewestAnswerShows(s: Sidebar, first: seq<Place>, c: Check, available: bool)
    requires Inv(s, first) && c in s.inFlight && Newest(s, c) && c.generation > 0
    requires 0 < c.id <= |first| && first[c.id - 1].origin == Bookmark
    ensures var after, r := Next(s, Deliver(c, available)), RowOf(s.rows, c.id);
      && after.announced == s.announced + [c] && r >= 0
      && after.rows == s.rows[r := s.rows[r].(status := if available then Available else Unavailable)]
  {
    OnlyTheNewestCounts(s, first, c, available);
  }

  /** Whatever else is answered or checked in between: the answer to the recheck of a bookmark, when no later
      recheck of it has begun, is announced and shown by its row. */
  lemma RecheckIsAnswered(s: Sidebar, first: seq<Place>, row: nat, steps: seq<Step>, available: bool)
    requires Inv(s, first) && row < |s.rows| && s.rows[row].origin == Bookmark
    requires Legal(Next(s, Recheck(row)), steps) && LeavesAlone(Next(s, Recheck(row)), steps, s.rows[row].id)
    ensures var c, s' := Check(s.rows[row].id, s.rows[row].generation + 1), Run(Next(s, Recheck(row)), steps);
      c in s'.inFlight ==>
        var after, r := Next(s', Deliver(c, available)), RowOf(s'.rows, c.id);
        && after.announced == s'.announced + [c] && r >= 0
        && after.rows == s'.rows[r := s'.rows[r].(status := if available then Available else Unavailable)]
  {
    var c, begun := Check(s.rows[row].id, s.rows[row].generation + 1), Next(s, Recheck(row));
    assert RowOk(s.rows[row], s, first);
    RecheckBegins(s, first, row);
    RecheckKeepsInv(s, first, row);
    RunKeepsInv(begun, first, steps);
    NewestStays(begun, steps, c);
    if c in Run(begun, steps).inFlight {
      NewestAnswerShows(Run(begun, steps), first, c, available);
    }
  }
}
