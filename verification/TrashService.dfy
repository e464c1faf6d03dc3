/** Moving an entry to a trash directory: the record in "info" first, then the payload in "files". */
module TrashService {
  import opened Paths
  import opened World
  import opened CopyService
  import opened Names
  import M = MoveService

  datatype FailureKind = SourceLookup | Metadata | Move

  datatype TrashResult = Trashed(name: Name) | Cancelled | Failed(kind: FailureKind, errno: Errno)

  const INFO_SUFFIX := ".trashinfo"

  function FilesDir(d: Path): Path { d + ["files"] }

  function InfoDir(d: Path): Path { d + ["info"] }

  function Payload(d: Path, n: Name): Path { FilesDir(d) + [n] }

  function Record(d: Path, n: Name): Path { InfoDir(d) + [n + INFO_SUFFIX] }

  /** Payloads and records are in one-to-one correspondence. */
  ghost predicate Paired(t: Tree, d: Path) {
    forall n :: Payload(d, n) in t <==> Record(d, n) in t
  }

  /** Every payload has its record. */
  ghost predicate RecordFirst(t: Tree, d: Path) {
    forall n :: Payload(d, n) in t ==> Record(d, n) in t
  }

  ghost predicate AlwaysRecordFirst(h: seq<Moment>, from: nat, d: Path) {
    forall i | from <= i < |h| :: RecordFirst(h[i].tree, d)
  }

  /** The source is a record of the trash directory `d`, or holds them all. */
  ghost predicate OwnRecord(d: Path, source: Path) {
    source == InfoDir(d) || exists n :: source == Record(d, n)
  }

  /** The source is itself a piece of the bookkeeping of the trash directory `d`. */
  ghost predicate OwnPiece(d: Path, source: Path) {
    source == InfoDir(d) || exists n :: source == Payload(d, n) || source == Record(d, n)
  }

  lemma PiecesApart(d: Path, m: Name, n: Name)
    ensures Payload(d, m) != Record(d, n)
    ensures Payload(d, m) == Payload(d, n) ==> m == n
    ensures Record(d, m) == Record(d, n) ==> m == n
    ensures Parent(Payload(d, m)) == FilesDir(d) && Parent(Record(d, m)) == InfoDir(d)
  {
    assert Payload(d, m)[|d|] == "files" && Record(d, n)[|d|] == "info";
    assert Payload(d, m)[|d| + 1] == m && Payload(d, n)[|d| + 1] == n;
    assert Record(d, m)[|d| + 1] == m + INFO_SUFFIX && Record(d, n)[|d| + 1] == n + INFO_SUFFIX;
    if m + INFO_SUFFIX == n + INFO_SUFFIX {
      assert (m + INFO_SUFFIX)[..|m|] == m && (n + INFO_SUFFIX)[..|n|] == n;
    }
  }

  /** Names for which the trash directory holds a payload or a record. */
  ghost function NamesInUse(t: Tree, d: Path): set<Name> {
    ChildNames(t, FilesDir(d))
    + set r | r in ChildNames(t, InfoDir(d)) && |r| >= |INFO_SUFFIX| :: r[..|r| - |INFO_SUFFIX|]
  }

  lemma InUse(t: Tree, d: Path, n: Name)
    requires Payload(d, n) in t || Record(d, n) in t
    ensures n in NamesInUse(t, d)
  {
    ChildNamesListed(t, FilesDir(d));
    ChildNamesListed(t, InfoDir(d));
    if Record(d, n) in t {
      var r := n + INFO_SUFFIX;
      assert r in ChildNames(t, InfoDir(d)) && r[..|r| - |INFO_SUFFIX|] == n;
    }
  }

  /** Whether lstat() finds a payload or a record of that name. */
  method NameTaken(w: Kernel, d: Path, n: Name) returns (b: bool)
    requires w.Valid()
    ensures b ==> n in NamesInUse(w.tree, d) && (Payload(d, n) in w.tree || Record(d, n) in w.tree)
    ensures w.undisturbed && !b ==> Payload(d, n) !in w.tree && Record(d, n) !in w.tree
  {
    b := DestinationExists(w, FilesDir(d), n);
    if !b {
      b := DestinationExists(w, InfoDir(d), n + INFO_SUFFIX);
    }
    if b {
      InUse(w.tree, d, n);
    }
  }

  /** The name itself if nothing holds it, or else the first free "name_n.ext" from 2. */
  method UniqueTrashName(w: Kernel, d: Path, itemName: Name) returns (candidate: Name)
    requires w.Valid()
    ensures w.undisturbed && Payload(d, itemName) !in w.tree && Record(d, itemName) !in w.tree ==>
      candidate == itemName
    ensures candidate != itemName ==>
      && (Payload(d, itemName) in w.tree || Record(d, itemName) in w.tree)
      && FirstFree("_", "", itemName, NamesInUse(w.tree, d), candidate)
    ensures w.undisturbed ==> Payload(d, candidate) !in w.tree && Record(d, candidate) !in w.tree
  {
    var taken := NameTaken(w, d, itemName);
    if !taken {
      return itemName;
    }
    var attempt: nat := 2;
    ghost var inUse := NamesInUse(w.tree, d);
    SearchEnds("_", "", itemName, inUse, attempt);
    while true
      invariant AllTaken("_", "", itemName, inUse, attempt) && attempt <= Settled("_", "", itemName) + |inUse|
      decreases Settled("_", "", itemName) + |inUse| - attempt
    {
      candidate := NthName("_", "", itemName, attempt);
      taken := NameTaken(w, d, candidate);
      if !taken {
        assert IsAttempt("_", "", itemName, inUse, candidate, attempt);
        return;
      }
      OneMoreTaken("_", "", itemName, inUse, attempt);
      attempt := attempt + 1;
      SearchEnds("_", "", itemName, inUse, attempt);
    }
  }

  /** `m` is `m0` with a record `n` that was not there. */
  ghost predicate WithRecord(m0: Moment, m: Moment, d: Path, n: Name) {
    && Record(d, n) !in m0.tree && Record(d, n) in m.tree
    && m.tree == m0.tree[Record(d, n) := m.tree[Record(d, n)]]
  }

  lemma RecordedFirst(m0: Moment, m: Moment, d: Path, n: Name)
    requires RecordFirst(m0.tree, d) && WithRecord(m0, m, d, n)
    ensures RecordFirst(m.tree, d)
  {
    forall k | Payload(d, k) in m.tree
      ensures Record(d, k) in m.tree
    {
      PiecesApart(d, k, n);
    }
  }

  /** The record was left behind because unlink() refused to take it back. */
  ghost predicate RecordStuck(m0: Moment, m: Moment, stuck: set<Path>, d: Path) {
    exists n :: Record(d, n) in stuck && WithRecord(m0, m, d, n)
  }

  /** Nothing has changed since `m0`, or there is just the record `n` in addition. */
  ghost predicate RecordOnly(m0: Moment, m: Moment, d: Path, n: Name) {
    m.tree == m0.tree || WithRecord(m0, m, d, n)
  }

  ghost predicate AlwaysRecordOnly(h: seq<Moment>, from: nat, m0: Moment, d: Path, n: Name) {
    forall i | from <= i < |h| :: RecordOnly(m0, h[i], d, n)
  }

  lemma RecordOnlyIsFirst(h: seq<Moment>, from: nat, m0: Moment, m: Moment, d: Path, n: Name)
    requires RecordFirst(m0.tree, d) && AlwaysRecordOnly(h, from, m0, d, n) && RecordOnly(m0, m, d, n)
    ensures AlwaysRecordFirst(h, from, d) && RecordFirst(m.tree, d)
  {
    if m.tree != m0.tree {
      RecordedFirst(m0, m, d, n);
    }
    forall i | from <= i < |h|
      ensures RecordFirst(h[i].tree, d)
    {
      if h[i].tree != m0.tree {
        RecordedFirst(m0, h[i], d, n);
      }
    }
  }

  /** Takes the record back, if it can. */
  method RemoveTrashInfo(w: Kernel, d: Path, name: Name, ghost m0: Moment)
    requires w.Valid() && WithRecord(m0, Now(w), d, name)
    modifies w
    ensures w.Valid() && Progress(w)
    ensures AlwaysRecordOnly(w.history, |old(w.history)|, m0, d, name)
    ensures w.tree == m0.tree || (Record(d, name) in w.stuck && WithRecord(m0, Now(w), d, name))
  {
    var ignored := w.Unlink(Record(d, name));
    assert ignored == Success ==> w.tree == m0.tree;
  }

  /** Writes the record `n`, which has just been created, and takes it back if that fails. */
  method FillRecord(w: Kernel, d: Path, n: Name, contents: seq<byte>, ghost m0: Moment) returns (err: Errno)
    requires w.Valid() && WithRecord(m0, Now(w), d, n) && w.tree[Record(d, n)].kind == Regular([])
    modifies w
    ensures w.Valid() && Progress(w)
    ensures AlwaysRecordOnly(w.history, |old(w.history)|, m0, d, n)
    ensures err == Success ==>
      && WithRecord(m0, Now(w), d, n) && w.tree[Record(d, n)].kind == Regular(contents)
      && Has(w.touched, w.tree[Record(d, n)], Sync)
    ensures err != Success ==>
      w.tree == m0.tree || (Record(d, n) in w.stuck && WithRecord(m0, Now(w), d, n))
    ensures w.undisturbed ==> err == Success
  {
    err := w.WriteWhole(Record(d, n), contents);
    if err == Success {
      err := w.TouchEntry(Record(d, n), Sync);
    }
    assert WithRecord(m0, Now(w), d, n);
    if err != Success {
      RemoveTrashInfo(w, d, n, m0);
    }
  }

  method WriteTrashInfo(w: Kernel, d: Path, n: Name, contents: seq<byte>) returns (err: Errno)
    requires w.Valid()
    modifies w
    ensures w.Valid() && Progress(w)
    ensures AlwaysRecordOnly(w.history, |old(w.history)|, old(Now(w)), d, n)
    ensures RecordFirst(old(w.tree), d) ==>
      AlwaysRecordFirst(w.history, |old(w.history)|, d) && RecordFirst(w.tree, d)
    ensures err == Success ==>
      && WithRecord(old(Now(w)), Now(w), d, n) && w.tree[Record(d, n)].kind == Regular(contents)
      && Has(w.touched, w.tree[Record(d, n)], Sync)
    ensures err != Success ==>
      w.tree == old(w.tree) || (Record(d, n) in w.stuck && WithRecord(old(Now(w)), Now(w), d, n))
    ensures err == Success ==> IsDirectory(old(w.tree), InfoDir(d))
    ensures w.undisturbed && IsDirectory(old(w.tree), InfoDir(d)) && Record(d, n) !in old(w.tree) ==> err == Success
  {
    ghost var m0 := Now(w);
    err := w.CreateExclusive(Record(d, n), Regular([]));
    if err != Success {
      return;
    }
    assert WithRecord(m0, Now(w), d, n);
    err := FillRecord(w, d, n, contents, m0);
    if RecordFirst(m0.tree, d) {
      RecordOnlyIsFirst(w.history, |old(w.history)|, m0, Now(w), d, n);
    }
  }

  /** Where payloads and records stand after the source became payload `n`. */
  lemma RenamedPieces(t: Tree, d: Path, source: Path, n: Name, k: Name)
    requires CanRename(t, source, Payload(d, n))
    ensures var t' := Renamed(t, source, Payload(d, n));
      && (source != Payload(d, k) ==> (Payload(d, k) in t' <==> k == n || Payload(d, k) in t))
      && (source != InfoDir(d) && source != Record(d, k) ==>
            (Record(d, k) in t' <==> Record(d, k) in t)
            && (Record(d, k) in t ==> t'[Record(d, k)] == t[Record(d, k)]))
      && (source == Payload(d, k) && k != n ==> Payload(d, k) !in t')
      && (source <= InfoDir(d) || source == Record(d, k) ==> Record(d, k) !in t')
  {
    var b := Payload(d, n);
    RenamedAt(t, source, b, Payload(d, k));
    RenamedAt(t, source, b, Record(d, k));
    PiecesApart(d, n, k);
    PiecesApart(d, k, n);
    assert Rebase(b, b, source) == source;
    BelowPiece(source, FilesDir(d), k);
    BelowPiece(source, InfoDir(d), k + INFO_SUFFIX);
    assert FilesDir(d) <= b && d <= b;
    BelowPiece(source, d, "info");
  }

  lemma BelowPiece(a: Path, dir: Path, n: Name)
    ensures a <= dir + [n] <==> a == dir + [n] || a <= dir
  {
    if a <= dir + [n] && |a| == |dir| + 1 {
      assert a == dir + [n];
    }
  }

  /** The pairing survives a completed trashing exactly when the source was no piece of it. */
  lemma PairedAfter(m0: Moment, m: Moment, d: Path, source: Path, n: Name)
    requires Paired(m0.tree, d) && WithRecord(m0, m, d, n) && source in m0.tree
    requires Payload(d, n) !in m.tree && CanRename(m.tree, source, Payload(d, n))
    ensures Paired(Renamed(m.tree, source, Payload(d, n)), d) <==> !OwnPiece(d, source)
  {
    var t' := Renamed(m.tree, source, Payload(d, n));
    if OwnPiece(d, source) {
      var k := if source == InfoDir(d) then n else Which(d, source);
      RenamedPieces(m.tree, d, source, n, k);
      PiecesApart(d, k, n);
      PiecesApart(d, k, k);
      assert Payload(d, k) in t' <==> Record(d, k) !in t';
    } else {
      forall k
        ensures Payload(d, k) in t' <==> Record(d, k) in t'
      {
        RenamedPieces(m.tree, d, source, n, k);
        PiecesApart(d, k, n);
        PiecesApart(d, n, k);
      }
    }
  }

  ghost function Which(d: Path, source: Path): (k: Name)
    requires exists n :: source == Payload(d, n) || source == Record(d, n)
    ensures source == Payload(d, k) || source == Record(d, k)
  {
    var k :| source == Payload(d, k) || source == Record(d, k);
    k
  }

  /** The record, or a piece of the source in its new place. */
  ghost predicate NewPiece(m0: Moment, m: Moment, d: Path, source: Path, n: Name, p: Path)
    requires p in m.tree
  {
    p == Record(d, n) ||
    (Payload(d, n) <= p &&
     var q := Rebase(p, Payload(d, n), source);
     q == Record(d, n) || (q in m0.tree && m.tree[p].kind == m0.tree[q].kind))
  }

  /** Every entry of the source stands where it stood, or below the payload `n`; nothing else that existed is
      touched; and nothing is new but the payload and its record. */
  ghost predicate Safe(m0: Moment, m: Moment, d: Path, source: Path, n: Name) {
    && (forall p | p in m0.tree && source <= p ::
          || (p in m.tree && m.tree[p] == m0.tree[p])
          || (Rebase(p, source, Payload(d, n)) in m.tree
              && m.tree[Rebase(p, source, Payload(d, n))] == m0.tree[p]))
    && (forall p | p in m0.tree && !(source <= p) :: p in m.tree && m.tree[p] == m0.tree[p])
    && (forall p | p in m.tree && p !in m0.tree :: NewPiece(m0, m, d, source, n, p))
  }

  ghost predicate AlwaysSafe(h: seq<Moment>, from: nat, m0: Moment, d: Path, source: Path, n: Name) {
    forall i | from <= i < |h| :: Safe(m0, h[i], d, source, n)
  }

  lemma RecordOnlyIsSafe(h: seq<Moment>, from: nat, m0: Moment, d: Path, source: Path, n: Name)
    requires AlwaysRecordOnly(h, from, m0, d, n)
    ensures AlwaysSafe(h, from, m0, d, source, n)
  {
  }

  lemma RenamedIsSafe(m0: Moment, m: Moment, m': Moment, d: Path, source: Path, n: Name)
    requires WellFormed(m.tree) && WithRecord(m0, m, d, n) && Payload(d, n) !in m.tree
    requires CanRename(m.tree, source, Payload(d, n)) && m'.tree == Renamed(m.tree, source, Payload(d, n))
    ensures Safe(m0, m', d, source, n)
  {
    forall p
      ensures p in m0.tree && source <= p ==>
        var q := Rebase(p, source, Payload(d, n)); q in m'.tree && m'.tree[q] == m0.tree[p]
      ensures p in m0.tree && !(source <= p) ==> p in m'.tree && m'.tree[p] == m0.tree[p]
      ensures p in m'.tree && p !in m0.tree ==> NewPiece(m0, m', d, source, n, p)
    {
      M.RenamedEntry(m.tree, source, Payload(d, n), p);
    }
  }

  /** What the disk holds once `source` has become payload `n` of the trash directory `d`; its record is there
      unless it went into the trash with the directory of the records. */
  ghost predicate InTrash(m0: Moment, m: Moment, d: Path, source: Path, n: Name, contents: seq<byte>) {
    && Safe(m0, m, d, source, n)
    && M.AllCopied(m0.tree, m.tree, source, Payload(d, n)) && Below(m.tree, source) == {}
    && Payload(d, n) !in m0.tree && Record(d, n) !in m0.tree
    && (source != InfoDir(d) ==> Record(d, n) in m.tree && m.tree[Record(d, n)].kind == Regular(contents))
    && (Paired(m0.tree, d) ==> (Paired(m.tree, d) <==> !OwnPiece(d, source)))
  }

  lemma TrashedState(m0: Moment, m: Moment, m': Moment, d: Path, source: Path, n: Name, contents: seq<byte>)
    requires WellFormed(m.tree) && WithRecord(m0, m, d, n) && m.tree[Record(d, n)].kind == Regular(contents)
    requires source in m0.tree && Payload(d, n) !in m.tree
    requires CanRename(m.tree, source, Payload(d, n)) && m'.tree == Renamed(m.tree, source, Payload(d, n))
    ensures InTrash(m0, m', d, source, n, contents)
    ensures RecordFirst(m0.tree, d) && !OwnRecord(d, source) ==> RecordFirst(m'.tree, d)
  {
    M.RenameLosesNothing(m, m', source, Payload(d, n), false);
    RenamedIsSafe(m0, m, m', d, source, n);
    RenamedPieces(m.tree, d, source, n, n);
    PiecesApart(d, n, n);
    if Paired(m0.tree, d) {
      PairedAfter(m0, m, d, source, n);
    }
    if RecordFirst(m0.tree, d) && !OwnRecord(d, source) {
      FirstAfter(m0, m, d, source, n);
    }
  }

  /** A payload may itself be trashed again; only a missing record breaks the order. */
  lemma FirstAfter(m0: Moment, m: Moment, d: Path, source: Path, n: Name)
    requires RecordFirst(m0.tree, d) && WithRecord(m0, m, d, n) && !OwnRecord(d, source)
    requires Payload(d, n) !in m.tree && CanRename(m.tree, source, Payload(d, n))
    ensures RecordFirst(Renamed(m.tree, source, Payload(d, n)), d)
  {
    RecordedFirst(m0, m, d, n);
    forall k
      ensures Payload(d, k) in Renamed(m.tree, source, Payload(d, n)) ==>
        Record(d, k) in Renamed(m.tree, source, Payload(d, n))
    {
      RenamedPieces(m.tree, d, source, n, k);
      PiecesApart(d, k, n);
    }
  }

  /** Removes the record of a source that stays. */
  method TakeBack(w: Kernel, d: Path, ghost source: Path, name: Name, ghost m0: Moment)
    requires w.Valid() && WithRecord(m0, Now(w), d, name)
    modifies w
    ensures w.Valid() && Progress(w)
    ensures RecordFirst(m0.tree, d) ==> AlwaysRecordFirst(w.history, |old(w.history)|, d) && RecordFirst(w.tree, d)
    ensures AlwaysSafe(w.history, |old(w.history)|, m0, d, source, name)
    ensures w.tree == m0.tree || (Record(d, name) in w.stuck && WithRecord(m0, Now(w), d, name))
  {
    RemoveTrashInfo(w, d, name, m0);
    RecordOnlyIsSafe(w.history, |old(w.history)|, m0, d, source, name);
    if RecordFirst(m0.tree, d) {
      RecordOnlyIsFirst(w.history, |old(w.history)|, m0, Now(w), d, name);
    }
  }

  /** The rename into the trash: all of the source, or nothing. */
  method MoveToTrash(w: Kernel, d: Path, source: Path, name: Name, contents: seq<byte>, ghost m0: Moment)
    returns (errno: Errno)
    requires w.Valid() && WithRecord(m0, Now(w), d, name) && w.tree[Record(d, name)].kind == Regular(contents)
    requires source in m0.tree && !w.cancelled
    modifies w
    ensures w.Valid() && Progress(w) && w.stuck == old(w.stuck)
    ensures errno != Success ==> Untouched(w)
    ensures errno == Success ==>
      && w.history == old(w.history) + [Now(w)] && InTrash(m0, Now(w), d, source, name, contents)
      && (RecordFirst(m0.tree, d) && !OwnRecord(d, source) ==> RecordFirst(w.tree, d))
    ensures w.undisturbed && Payload(d, name) !in m0.tree ==>
      (errno == Success <==> CanRename(old(w.tree), source, Payload(d, name)))
  {
    ghost var m := Now(w);
    PiecesApart(d, name, name);
    errno := w.Rename(source, Payload(d, name), true);
    if errno == Success {
      TrashedState(m0, m, Now(w), d, source, name, contents);
    }
  }

  /** The second half of TrashEntry: the record `name` has been written. */
  method MoveOrRollBack(w: Kernel, d: Path, source: Path, name: Name, contents: seq<byte>, ghost m0: Moment)
    returns (r: TrashResult)
    requires w.Valid() && WithRecord(m0, Now(w), d, name) && w.tree[Record(d, name)].kind == Regular(contents)
    requires source in m0.tree
    modifies w
    ensures w.Valid() && Progress(w)
    ensures RecordFirst(m0.tree, d) && !OwnRecord(d, source) ==>
      AlwaysRecordFirst(w.history, |old(w.history)|, d) && RecordFirst(w.tree, d)
    ensures AlwaysSafe(w.history, |old(w.history)|, m0, d, source, name)
    ensures (r.Cancelled? ==> w.cancelled) && (old(w.cancelled) ==> r.Cancelled?)
    ensures !r.Trashed? ==> w.tree == m0.tree || (Record(d, name) in w.stuck && WithRecord(m0, Now(w), d, name))
    ensures r.Trashed? ==> r.name == name && InTrash(m0, Now(w), d, source, name, contents)
    ensures w.undisturbed && !old(w.cancelled) && Payload(d, name) !in m0.tree ==>
      (r.Trashed? <==> CanRename(old(w.tree), source, Payload(d, name)))
  {
    r := Trashed(name);
    var c := w.LoadCancel();
    if c {
      r := Cancelled;
    } else {
      var errno := MoveToTrash(w, d, source, name, contents, m0);
      if errno != Success {
        r := Failed(Move, errno);
      }
    }
    if !r.Trashed? {
      TakeBack(w, d, source, name, m0);
    }
  }

  /** Exactly what an undisturbed call trashes: an entry on the device of the trash directory that does not
      contain it. */
  ghost predicate Trashable(t: Tree, d: Path, source: Path) {
    && source in t && IsDirectory(t, FilesDir(d)) && IsDirectory(t, InfoDir(d))
    && t[source].dev == t[FilesDir(d)].dev && !(source <= FilesDir(d))
  }

  lemma RenamesWhenTrashable(m0: Moment, m: Moment, d: Path, source: Path, n: Name)
    requires WellFormed(m0.tree) && source in m0.tree && WithRecord(m0, m, d, n) && Payload(d, n) !in m0.tree
    requires IsDirectory(m0.tree, InfoDir(d))
    ensures Payload(d, n) !in m.tree
    ensures CanRename(m.tree, source, Payload(d, n)) <==> Trashable(m0.tree, d, source)
  {
    PiecesApart(d, n, n);
    BelowPiece(source, FilesDir(d), n);
    assert |Record(d, n)| == |Payload(d, n)|;
    forall p | Payload(d, n) <= p
      ensures p !in m.tree
    {
      if p in m0.tree {
        Ancestors(m0.tree, Payload(d, n), p);
      }
    }
  }

  /** Trashes `source` into the trash directory `d`, under the name `n` if it comes to that. At every moment each
      payload has its record, all of the source is in its place or in the trash, and nothing else is touched; a
      call that does not complete leaves the source where it was, and nothing else if the record can be taken
      back. */
  method TrashEntry(w: Kernel, d: Path, source: Path, contents: seq<byte>) returns (r: TrashResult, ghost n: Name)
    requires w.Valid()
    modifies w
    ensures w.Valid() && Progress(w)
    ensures RecordFirst(old(w.tree), d) && !OwnRecord(d, source) ==>
      AlwaysRecordFirst(w.history, |old(w.history)|, d) && RecordFirst(w.tree, d)
    ensures AlwaysSafe(w.history, |old(w.history)|, old(Now(w)), d, source, n)
    ensures r.Cancelled? ==> w.cancelled
    ensures old(w.cancelled) ==> r.Cancelled? && Untouched(w)
    ensures !r.Trashed? ==> w.tree == old(w.tree) || RecordStuck(old(Now(w)), Now(w), w.stuck, d)
    ensures r.Trashed? ==> r.name == n && InTrash(old(Now(w)), Now(w), d, source, n, contents)
    ensures r.Trashed? && n != BaseName(source) ==>
      FirstFree("_", "", BaseName(source), NamesInUse(old(w.tree), d), n)
    ensures w.undisturbed && !old(w.cancelled) ==> (r.Trashed? <==> Trashable(old(w.tree), d, source))
  {
    ghost var m0 := Now(w);
    n := BaseName(source);
    var c := w.LoadCancel();
    if c {
      return Cancelled, n;
    }
    var node, errno := w.Lstat(source);
    if node.None? {
      return Failed(SourceLookup, errno), n;
    }
    var name := UniqueTrashName(w, d, BaseName(source));
    n := name;
    errno := WriteTrashInfo(w, d, name, contents);
    ghost var h := w.history;
    RecordOnlyIsSafe(h, |old(w.history)|, m0, d, source, n);
    if errno != Success {
      return Failed(Metadata, errno), n;
    }
    if w.undisturbed {
      RenamesWhenTrashable(m0, Now(w), d, source, name);
    }
    r := MoveOrRollBack(w, d, source, name, contents, m0);
  }
}
