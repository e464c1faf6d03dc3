/** Moving: an atomic rename where the kernel allows it, otherwise a complete copy followed by the
    removal of the source. */
module MoveService {
  import opened Paths
  import opened World
  import opened Wrappers
  import opened TransferSpec
  import opened CopyService

  /** Only entries at or below `path` have been removed since `m0`. */
  ghost predicate Pruned(m0: Moment, m: Moment, path: Path) {
    && WellFormed(m.tree) && m.staged <= m0.staged
    && (forall p | p in m.tree :: p in m0.tree && m.tree[p] == m0.tree[p])
    && (forall p | p in m0.tree && !(path <= p) :: p in m.tree)
  }

  ghost predicate AllPruned(h: seq<Moment>, from: nat, m0: Moment, path: Path) {
    forall i | from <= i < |h| :: Pruned(m0, h[i], path)
  }

  lemma PrunedChild(m0: Moment, m: Moment, m': Moment, path: Path, name: Name)
    requires Pruned(m0, m, path) && Pruned(m, m', path + [name])
    ensures Pruned(m0, m', path)
  {
    forall p | p in m0.tree && !(path <= p)
      ensures p in m'.tree
    {
      assert !(path + [name] <= p);
    }
  }

  lemma AllPrunedChild(h: seq<Moment>, from: nat, m0: Moment, m: Moment, path: Path, name: Name)
    requires Pruned(m0, m, path) && AllPruned(h, from, m, path + [name])
    ensures AllPruned(h, from, m0, path)
  {
    forall i | from <= i < |h|
      ensures Pruned(m0, h[i], path)
    {
      PrunedChild(m0, m, h[i], path, name);
    }
  }

  /** unlink() or rmdir() of one entry. */
  lemma PrunedEntry(m0: Moment, m: Moment, path: Path, p: Path, m': Moment)
    requires Pruned(m0, m, path) && path <= p
    requires m'.tree == m.tree - {p} && WellFormed(m'.tree) && m'.staged <= m.staged
    ensures Pruned(m0, m', path)
  {
  }

  /** The entry `p` below `path` is at, below or above one at which the system refuses calls. */
  ghost predicate HeldUp(troubled: iset<Path>, path: Path, p: Path) {
    exists q :: q in troubled && path <= q && (q <= p || p <= q)
  }

  /** Nothing is left at or below `path` but what is held up. */
  ghost predicate OnlyHeldUp(troubled: iset<Path>, t: Tree, path: Path) {
    forall p | p in t && path <= p :: HeldUp(troubled, path, p)
  }

  lemma HeldUpHere(troubled: iset<Path>, t: Tree, path: Path)
    requires WellFormed(t) && (path in t ==> path in troubled)
    ensures OnlyHeldUp(troubled, t, path)
  {
    forall p | p in t && path <= p
      ensures HeldUp(troubled, path, p)
    {
      Ancestors(t, path, p);
    }
  }

  /** Nothing is left of the first `pos` children but what is held up. */
  ghost predicate AllTried(troubled: iset<Path>, t: Tree, path: Path, names: seq<Name>, pos: nat)
    requires pos <= |names|
  {
    forall i {:trigger OnlyHeldUp(troubled, t, path + [names[i]])} | 0 <= i < pos ::
      OnlyHeldUp(troubled, t, path + [names[i]])
  }

  lemma StillTried(troubled: iset<Path>, m: Moment, m': Moment, path: Path, names: seq<Name>, pos: nat, at: Path)
    requires pos <= |names| && AllTried(troubled, m.tree, path, names, pos) && Pruned(m, m', at)
    ensures AllTried(troubled, m'.tree, path, names, pos)
  {
    forall i | 0 <= i < pos
      ensures OnlyHeldUp(troubled, m'.tree, path + [names[i]])
    {
      assert OnlyHeldUp(troubled, m.tree, path + [names[i]]);
    }
  }

  /** When every child has been tried, what is left below the directory is held up, and then so is the directory. */
  lemma RestIsHeldUp(troubled: iset<Path>, m0: Moment, m: Moment, path: Path, names: seq<Name>, q: Path)
    requires WellFormed(m0.tree) && Pruned(m0, m, path) && Listing(m0.tree, path, names)
    requires path in troubled || AllTried(troubled, m.tree, path, names, |names|)
    requires q in m.tree && path <= q && q != path
    ensures HeldUp(troubled, path, q) && HeldUp(troubled, path, path)
  {
    if path !in troubled {
      ChildOf(m.tree, path, q);
      var child := q[..|path| + 1];
      assert child == path + [q[|path|]] && child in m0.tree;
      var i :| 0 <= i < |names| && names[i] == q[|path|];
      assert OnlyHeldUp(troubled, m.tree, path + [names[i]]);
      assert HeldUp(troubled, child, q);
    }
  }

  /** One child of the directory being removed. */
  method RemoveChild(w: Kernel, path: Path, name: Name, firstErrno: Errno, ghost m0: Moment)
    returns (succeeded: bool, errno: Errno)
    requires w.Valid() && Pruned(m0, Now(w), path) && path in m0.tree
    modifies w
    ensures w.Valid() && Progress(w)
    ensures Pruned(old(Now(w)), Now(w), path + [name])
    ensures Pruned(m0, Now(w), path) && AllPruned(w.history, |old(w.history)|, m0, path)
    ensures !succeeded ==> errno != Success
    ensures firstErrno != Success ==> errno == firstErrno
    ensures w.undisturbed && path + [name] in old(w.tree) ==> succeeded && path + [name] !in w.tree
    ensures OnlyHeldUp(w.troubled, w.tree, path + [name])
    decreases Below(m0.tree, path), 0
  {
    var childPath := path + [name];
    errno := firstErrno;
    var childStat, e := w.Lstat(childPath);
    if childStat.None? {
      HeldUpHere(w.troubled, w.tree, childPath);
      errno := if errno == Success then e else errno;
      return false, errno;
    }
    ghost var m := Now(w);
    if childStat.value.kind.Directory? {
      assert path in Below(m0.tree, path) && path !in Below(m.tree, childPath);
      assert Below(m.tree, childPath) <= Below(m0.tree, path);
      succeeded, errno := RemoveDirectoryRecursively(w, childPath, errno);
      PrunedChild(m0, m, Now(w), path, name);
      AllPrunedChild(w.history, |old(w.history)|, m0, m, path, name);
      assert childPath in w.tree ==> childPath in Below(w.tree, childPath);
      return;
    }
    e := w.Unlink(childPath);
    HeldUpHere(w.troubled, w.tree, childPath);
    if e != Success {
      errno := if errno == Success then e else errno;
      return false, errno;
    }
    PrunedEntry(m0, m, path, childPath, Now(w));
    PrunedEntry(m, m, childPath, childPath, Now(w));
    return true, errno;
  }

  /** The first `pos` names are gone, the others are still there. */
  ghost predicate Swept(t: Tree, path: Path, names: seq<Name>, pos: nat)
    requires pos <= |names|
  {
    && (forall n {:trigger path + [n]} | path + [n] in t :: n !in Delivered(names, pos))
    && (forall i | pos <= i < |names| :: path + [names[i]] in t)
  }

  lemma SweptStep(m: Moment, m': Moment, path: Path, names: seq<Name>, pos: nat)
    requires pos < |names| && Repeatless(names) && Swept(m.tree, path, names, pos)
    requires Pruned(m, m', path + [names[pos]]) && path + [names[pos]] !in m'.tree
    ensures Swept(m'.tree, path, names, pos + 1)
  {
    forall i | pos + 1 <= i < |names|
      ensures path + [names[i]] in m'.tree
    {
      assert !(path + [names[pos]] <= path + [names[i]]) by {
        assert (path + [names[pos]])[|path|] != (path + [names[i]])[|path|];
      }
    }
  }

  /** When all children are gone the directory is empty. */
  lemma Emptied(m0: Moment, m: Moment, path: Path, names: seq<Name>, q: Path)
    requires WellFormed(m0.tree) && Pruned(m0, m, path) && Listing(m0.tree, path, names)
    requires Swept(m.tree, path, names, |names|) && q in m.tree && path <= q
    ensures q == path
  {
    AllDelivered(names);
    if q != path {
      ChildOf(m.tree, path, q);
    }
  }

  /** In the middle of the loop: only entries below the directory have gone, at every moment, and the first `pos`
      children have been tried. */
  ghost predicate Sweeping(troubled: iset<Path>, m0: Moment, m: Moment, h: seq<Moment>, from: nat, path: Path,
                           names: seq<Name>, pos: nat)
    requires pos <= |names|
  {
    && path in m.tree && Pruned(m0, m, path) && from <= |h| && AllPruned(h, from, m0, path)
    && AllTried(troubled, m.tree, path, names, pos)
  }

  /** One readdir() call and the removal of what it names; `finished` says that the loop ends here. */
  method RemoveNext(w: Kernel, path: Path, names: seq<Name>, pos: nat, firstErrno: Errno, ghost m0: Moment,
                    ghost from: nat)
    returns (finished: bool, ok: bool, errno: Errno)
    requires w.Valid() && pos <= |names| && Repeatless(names)
    requires Sweeping(w.troubled, m0, Now(w), w.history, from, path, names, pos)
    modifies w
    ensures w.Valid() && Progress(w)
    ensures !finished ==> pos < |names|
    ensures finished ==> pos == |names| || path in w.troubled
    ensures Sweeping(w.troubled, m0, Now(w), w.history, from, path, names, if finished then pos else pos + 1)
    ensures finished ==> ok && errno == firstErrno && (w.undisturbed ==> pos == |names|) && w.tree == old(w.tree)
    ensures !finished ==> (!ok ==> errno != Success)
    ensures firstErrno != Success ==> errno == firstErrno
    ensures w.undisturbed && !finished && Swept(old(w.tree), path, names, pos) ==>
      ok && Swept(w.tree, path, names, pos + 1)
    decreases Below(m0.tree, path), 1
  {
    var item := w.ReadDir(path, names, pos);
    if !item.Entry? {
      return true, true, firstErrno;
    }
    ghost var m, h := Now(w), w.history;
    ok, errno := RemoveChild(w, path, item.name, firstErrno, m0);
    StillTried(w.troubled, m, Now(w), path, names, pos, path + [names[pos]]);
    if w.undisturbed && Swept(m.tree, path, names, pos) {
      SweptStep(m, Now(w), path, names, pos);
    }
    return false, ok, errno;
  }

  /** The loop over readdir(): goes on past a failure. */
  method RemoveChildren(w: Kernel, path: Path, names: seq<Name>, firstErrno: Errno)
    returns (succeeded: bool, errno: Errno)
    requires w.Valid() && path in w.tree && Listing(w.tree, path, names) && Repeatless(names)
    modifies w
    ensures w.Valid() && Progress(w)
    ensures Pruned(old(Now(w)), Now(w), path) && AllPruned(w.history, |old(w.history)|, old(Now(w)), path)
    ensures !succeeded ==> errno != Success
    ensures firstErrno != Success ==> errno == firstErrno
    ensures path in w.tree
    ensures w.undisturbed ==> succeeded && Swept(w.tree, path, names, |names|)
    ensures path in w.troubled || AllTried(w.troubled, w.tree, path, names, |names|)
    decreases Below(w.tree, path), 2
  {
    ghost var m0 := Now(w);
    errno := firstErrno;
    succeeded := true;
    var pos := 0;
    ghost var h0, s0, c0 := w.history, w.stuck, w.cancelled;
    while true
      invariant pos <= |names| && Sweeping(w.troubled, m0, Now(w), w.history, |h0|, path, names, pos)
      invariant w.Valid() && Since(w, h0, s0, c0)
      invariant !succeeded ==> errno != Success
      invariant firstErrno != Success ==> errno == firstErrno
      invariant w.undisturbed ==> succeeded && Swept(w.tree, path, names, pos)
      decreases |names| - pos
    {
      var finished, ok;
      finished, ok, errno := RemoveNext(w, path, names, pos, errno, m0, |h0|);
      if finished {
        break;
      }
      succeeded := ok && succeeded;
      pos := pos + 1;
    }
  }

  /** Best effort: goes on past a failure, remembers the first errno. */
  method RemoveDirectoryRecursively(w: Kernel, path: Path, firstErrno: Errno) returns (succeeded: bool, errno: Errno)
    requires w.Valid()
    modifies w
    ensures w.Valid() && Progress(w)
    ensures Pruned(old(Now(w)), Now(w), path) && AllPruned(w.history, |old(w.history)|, old(Now(w)), path)
    ensures succeeded ==> Below(w.tree, path) == {}
    ensures !succeeded ==> errno != Success
    ensures firstErrno != Success ==> errno == firstErrno
    ensures w.undisturbed && path != [] && IsDirectory(old(w.tree), path) ==> succeeded
    ensures path != [] && IsDirectory(old(w.tree), path) ==> OnlyHeldUp(w.troubled, w.tree, path)
    decreases Below(w.tree, path), 3
  {
    ghost var m0 := Now(w);
    errno := firstErrno;
    var names, e := w.OpenDir(path);
    if names.None? {
      if IsDirectory(w.tree, path) {
        HeldUpHere(w.troubled, w.tree, path);
      }
      errno := if errno == Success then e else errno;
      return false, errno;
    }
    succeeded, errno := RemoveChildren(w, path, names.value, errno);
    ghost var m := Now(w);
    forall q | w.undisturbed && q in w.tree && path <= q
      ensures q == path
    {
      Emptied(m0, m, path, names.value, q);
    }
    forall q | q in w.tree && path <= q && q != path
      ensures HeldUp(w.troubled, path, q) && HeldUp(w.troubled, path, path)
    {
      RestIsHeldUp(w.troubled, m0, m, path, names.value, q);
    }
    e := w.Rmdir(path);
    if e != Success {
      errno := if errno == Success then e else errno;
      return false, errno;
    }
    PrunedEntry(m0, m, path, path, Now(w));
  }

  method RemoveCompletedSource(w: Kernel, path: Path) returns (r: Option<Errno>)
    requires w.Valid()
    modifies w
    ensures w.Valid() && Progress(w)
    ensures Pruned(old(Now(w)), Now(w), path) && AllPruned(w.history, |old(w.history)|, old(Now(w)), path)
    ensures r.None? ==> Below(w.tree, path) == {}
    ensures w.undisturbed && path != [] && path in old(w.tree) ==> r.None?
    ensures path != [] ==> OnlyHeldUp(w.troubled, w.tree, path)
  {
    ghost var m := Now(w);
    var entryStat, errno := w.Lstat(path);
    if entryStat.None? {
      HeldUpHere(w.troubled, w.tree, path);
      return Some(errno);
    }
    if entryStat.value.kind.Directory? {
      var succeeded;
      succeeded, errno := RemoveDirectoryRecursively(w, path, Success);
      return if succeeded then None else Some(errno);
    }
    LeafIsAlone(w.tree, path);
    errno := w.Unlink(path);
    HeldUpHere(w.troubled, w.tree, path);
    if errno != Success {
      return Some(errno);
    }
    PrunedEntry(m, m, path, path, Now(w));
    return None;
  }

  /** `p` equals the source entry at the same place. */
  ghost predicate IsCopy(t0: Tree, t: Tree, src: Path, dest: Path, p: Path) {
    dest <= p && p in t && Rebase(p, dest, src) in t0 && t[p].kind == t0[Rebase(p, dest, src)].kind
  }

  /** What stood at the destination stands there, or the full copy of what is to overwrite it does. */
  ghost predicate KeptOrReplaced(t0: Tree, t: Tree, src: Path, dest: Path, overwrite: bool)
    requires dest in t0
  {
    dest in t && (t[dest] == t0[dest] || (overwrite && src in t0 && t[dest].kind == t0[src].kind))
  }

  /** Every source entry stands where it stood, or has its equal at the matching destination path; nothing else
      that existed is touched, but for a destination that is overwritten, in one step; and what is new is a copy of
      its source entry, or a staging temporary at, below or beside the destination. */
  ghost predicate NothingLost(m0: Moment, m: Moment, src: Path, dest: Path, overwrite: bool) {
    && (forall p | p in m0.tree && src <= p ::
          || (p in m.tree && m.tree[p] == m0.tree[p])
          || (Rebase(p, src, dest) in m.tree && m.tree[Rebase(p, src, dest)].kind == m0.tree[p].kind))
    && (forall p | p in m0.tree && !(src <= p) && p != dest :: p in m.tree && m.tree[p] == m0.tree[p])
    && (dest in m0.tree && !(src <= dest) ==> KeptOrReplaced(m0.tree, m.tree, src, dest, overwrite))
    && (forall p | p in m.tree && p !in m0.tree ::
          || IsCopy(m0.tree, m.tree, src, dest, p)
          || (p in m.staged && (dest <= p || Parent(p) == Parent(dest))))
  }

  ghost predicate NeverLost(h: seq<Moment>, from: nat, m0: Moment, src: Path, dest: Path, overwrite: bool) {
    forall i | from <= i < |h| :: NothingLost(m0, h[i], src, dest, overwrite)
  }

  /** Every entry of the source has its equal at the destination. */
  ghost predicate AllCopied(t0: Tree, t: Tree, src: Path, dest: Path) {
    forall p | p in t0 && src <= p :: Rebase(p, src, dest) in t && t[Rebase(p, src, dest)].kind == t0[p].kind
  }

  lemma CopyLosesNothing(m0: Moment, m: Moment, src: Path, dest: Path, overwrite: bool)
    requires Separate(m0.tree, src, dest) && Faithful(m0, m, src, dest, overwrite)
    ensures NothingLost(m0, m, src, dest, overwrite)
  {
    SourceIntact(m0, m, src, dest, overwrite);
  }

  lemma RenamedEntry(t: Tree, src: Path, dest: Path, p: Path)
    requires WellFormed(t) && CanRename(t, src, dest)
    ensures p in t && src <= p ==>
      var q := Rebase(p, src, dest); q in Renamed(t, src, dest) && Renamed(t, src, dest)[q] == t[p]
    ensures p in t && !(src <= p) && p != dest ==> p in Renamed(t, src, dest) && Renamed(t, src, dest)[p] == t[p]
    ensures src <= p ==> p !in Renamed(t, src, dest)
    ensures p in Renamed(t, src, dest) && p !in t ==> IsCopy(t, Renamed(t, src, dest), src, dest, p)
  {
    RenamedAt(t, src, dest, p);
    if src <= p {
      RebaseBack(p, src, dest);
      RenamedAt(t, src, dest, Rebase(p, src, dest));
      if dest <= p {
        if dest <= src {
          Ancestors(t, dest, src);
        }
      }
    }
  }

  lemma RenameLosesNothing(m: Moment, m': Moment, src: Path, dest: Path, overwrite: bool)
    requires WellFormed(m.tree) && CanRename(m.tree, src, dest) && m'.tree == Renamed(m.tree, src, dest)
    requires overwrite || dest !in m.tree
    ensures NothingLost(m, m', src, dest, overwrite)
    ensures AllCopied(m.tree, m'.tree, src, dest) && Below(m'.tree, src) == {}
  {
    forall p
      ensures p in m.tree && src <= p ==>
        var q := Rebase(p, src, dest); q in m'.tree && m'.tree[q] == m.tree[p]
      ensures p in m.tree && !(src <= p) && p != dest ==> p in m'.tree && m'.tree[p] == m.tree[p]
      ensures src <= p ==> p !in m'.tree
      ensures p in m'.tree && p !in m.tree ==> IsCopy(m.tree, m'.tree, src, dest, p)
    {
      RenamedEntry(m.tree, src, dest, p);
    }
    assert Rebase(src, src, dest) == dest;
  }

  /** After a complete copy no destination entry lies inside the source, so removing the source
      cannot remove a copy. */
  lemma CopyOutsideSource(m0: Moment, m: Moment, stuck: set<Path>, src: Path, dest: Path, overwrite: bool,
                          r: ItemResult, p: Path)
    requires Separate(m0.tree, src, dest) && CopyOutcome(m0, m, stuck, src, dest, overwrite, r) && r.Complete()
    requires p in m0.tree && src <= p
    ensures Copied(m0.tree, m.tree, src, dest, p)
    ensures !(src <= Rebase(p, src, dest))
  {
    assert !Covered(r, p);
    var q := Rebase(p, src, dest);
    SourceIntact(m0, m, src, dest, overwrite);
    Ancestors(m.tree, dest, q);
    if src <= q && src <= dest {
      Ancestors(m.tree, src, dest);
    }
  }

  /** A complete copy leaves no temporary: what is new is a copy. */
  lemma NewAreCopies(m0: Moment, m: Moment, stuck: set<Path>, src: Path, dest: Path, overwrite: bool,
                     r: ItemResult, p: Path)
    requires CopyOutcome(m0, m, stuck, src, dest, overwrite, r) && r.Complete()
    requires (forall q | q in m0.staged :: q in m0.tree) && p in m.tree && p !in m0.tree
    ensures IsCopy(m0.tree, m.tree, src, dest, p)
  {
  }

  lemma RemovalLosesNothing(m0: Moment, m: Moment, m': Moment, stuck: set<Path>, src: Path, dest: Path,
                            overwrite: bool, r: ItemResult)
    requires Separate(m0.tree, src, dest) && CopyOutcome(m0, m, stuck, src, dest, overwrite, r) && r.Complete()
    requires Pruned(m, m', src) && forall q | q in m0.staged :: q in m0.tree
    ensures NothingLost(m0, m', src, dest, overwrite)
    ensures AllCopied(m0.tree, m'.tree, src, dest)
  {
    forall p | p in m0.tree && src <= p
      ensures Rebase(p, src, dest) in m'.tree && m'.tree[Rebase(p, src, dest)].kind == m0.tree[p].kind
    {
      CopyOutsideSource(m0, m, stuck, src, dest, overwrite, r, p);
    }
    forall p | p in m'.tree && p !in m0.tree
      ensures IsCopy(m0.tree, m'.tree, src, dest, p)
    {
      NewAreCopies(m0, m, stuck, src, dest, overwrite, r, p);
    }
  }

  lemma NeverLostCopying(h: seq<Moment>, from: nat, m0: Moment, src: Path, dest: Path, overwrite: bool)
    requires Separate(m0.tree, src, dest) && AllFaithful(h, from, m0, src, dest, overwrite)
    ensures NeverLost(h, from, m0, src, dest, overwrite)
  {
    forall i | from <= i < |h|
      ensures NothingLost(m0, h[i], src, dest, overwrite)
    {
      CopyLosesNothing(m0, h[i], src, dest, overwrite);
    }
  }

  lemma NeverLostRemoving(h: seq<Moment>, from: nat, m0: Moment, m: Moment, stuck: set<Path>, src: Path, dest: Path,
                          overwrite: bool, r: ItemResult)
    requires Separate(m0.tree, src, dest) && CopyOutcome(m0, m, stuck, src, dest, overwrite, r) && r.Complete()
    requires AllPruned(h, from, m, src) && forall q | q in m0.staged :: q in m0.tree
    ensures NeverLost(h, from, m0, src, dest, overwrite)
  {
    forall i | from <= i < |h|
      ensures NothingLost(m0, h[i], src, dest, overwrite)
    {
      RemovalLosesNothing(m0, m, h[i], stuck, src, dest, overwrite, r);
    }
  }

  /** What the result of a move says about the disk. */
  ghost predicate MoveOutcome(m0: Moment, m: Moment, stuck: set<Path>, src: Path, dest: Path, r: ItemResult) {
    && (forall p | p in m.staged :: p in m0.staged || p in stuck)
    && (r.sourceRetained ==>
          && SameBelow(m0.tree, m.tree, src) && !r.Complete()
          && r.reason.Retained? && r.reason.copiesExist == r.copiesExist
          && (r.copiesExist <==> Published(m0.tree, m, dest)))
    && (r.Complete() ==>
          || (Below(m.tree, src) == {} && AllCopied(m0.tree, m.tree, src, dest))
          || (m == m0 && src in m0.tree && dest in m0.tree && SameEntry(m0.tree[src], m0.tree[dest])))
    && (!r.Complete() && !r.sourceRetained ==>
          || m == m0
          || (r.failed && r.reason.SourceDeletionFailed? && AllCopied(m0.tree, m.tree, src, dest)))
  }

  /** The second half of CopyThenRemove: the copy is complete. */
  method RemoveOriginal(w: Kernel, src: Path, dest: Path, overwrite: bool, copied: ItemResult,
                        ghost m0: Moment, ghost stuck: set<Path>)
    returns (r: ItemResult)
    requires w.Valid() && Separate(m0.tree, src, dest)
    requires CopyOutcome(m0, Now(w), stuck, src, dest, overwrite, copied) && copied.Complete() && !w.cancelled
    requires forall q | q in m0.staged :: q in m0.tree
    modifies w
    ensures w.Valid() && Progress(w) && w.staged <= m0.staged
    ensures NeverLost(w.history, |old(w.history)|, m0, src, dest, overwrite)
    ensures NothingLost(m0, Now(w), src, dest, overwrite)
    ensures r == copied || (r.failed && r.reason.SourceDeletionFailed? && !r.cancelled && !r.sourceRetained)
    ensures AllCopied(m0.tree, w.tree, src, dest) && (r.Complete() ==> Below(w.tree, src) == {})
    ensures w.undisturbed ==> r.Complete()
    ensures OnlyHeldUp(w.troubled, w.tree, src)
  {
    ghost var m := Now(w);
    r := copied;
    SourceIntact(m0, m, src, dest, overwrite);
    NotTheRoot(m0.tree, src, dest);
    var removed := RemoveCompletedSource(w, src);
    RemovalLosesNothing(m0, m, Now(w), stuck, src, dest, overwrite, copied);
    NeverLostRemoving(w.history, |old(w.history)|, m0, m, stuck, src, dest, overwrite, copied);
    if removed.Some? {
      r := r.(failed := true, reason := SourceDeletionFailed(removed.value));
    }
  }

  lemma NotTheRoot(t: Tree, src: Path, dest: Path)
    requires Separate(t, src, dest)
    ensures src != []
  {
    assert [] <= dest;
    if !t[src].kind.Directory? {
      LeafIsAlone(t, src);
    }
  }

  /** Copies, then removes the source if and only if the copy is complete and was not cancelled. */
  method CopyThenRemove(w: Kernel, src: Path, dest: Path, overwrite: bool) returns (r: ItemResult)
    requires w.Valid() && Separate(w.tree, src, dest)
    modifies w
    ensures w.Valid() && Progress(w) && (r.cancelled ==> w.cancelled)
    ensures old(w.cancelled) ==> r.cancelled && !r.Complete() && Untouched(w)
    ensures NeverLost(w.history, |old(w.history)|, old(Now(w)), src, dest, overwrite)
    ensures NothingLost(old(Now(w)), Now(w), src, dest, overwrite)
    ensures MoveOutcome(old(Now(w)), Now(w), w.stuck, src, dest, r)
    ensures r.reason.SourceDeletionFailed? ==> OnlyHeldUp(w.troubled, w.tree, src)
    ensures w.undisturbed && !old(w.cancelled) ==> (r.Complete() <==> Copyable(old(w.tree), src, dest, overwrite))
  {
    ghost var m0 := Now(w);
    r := CopyEntry(w, src, dest, overwrite);
    ghost var m, h, stuck := Now(w), w.history, w.stuck;
    NeverLostCopying(h, |old(w.history)|, m0, src, dest, overwrite);
    SourceIntact(m0, m, src, dest, overwrite);
    CopyLosesNothing(m0, m, src, dest, overwrite);
    var c := w.LoadCancel();
    if c {
      r := r.(cancelled := true);
    }
    if !r.Complete() {
      var cause := if r.reason == NoReason then TransferIncomplete else r.reason;
      r := r.(sourceRetained := true, reason := Retained(cause, r.copiesExist));
      return;
    }
    r := RemoveOriginal(w, src, dest, overwrite, r, m0, stuck);
    JoinNeverLost(h, w.history, |old(w.history)|, m0, src, dest, overwrite);
  }

  lemma JoinNeverLost(h: seq<Moment>, h': seq<Moment>, from: nat, m0: Moment, src: Path, dest: Path,
                      overwrite: bool)
    requires h <= h' && from <= |h|
    requires NeverLost(h, from, m0, src, dest, overwrite) && NeverLost(h', |h|, m0, src, dest, overwrite)
    ensures NeverLost(h', from, m0, src, dest, overwrite)
  {
    forall i | from <= i < |h'|
      ensures NothingLost(m0, h'[i], src, dest, overwrite)
    {
      if i < |h| {
        assert h'[i] == h[i];
      }
    }
  }

  /** Nothing but a disturbance can keep this move from being complete: by a rename on one device, and by a
      copy across devices or into a directory that is there. */
  ghost predicate Movable(t: Tree, src: Path, dest: Path, overwrite: bool) {
    && Transferable(t, src, dest, overwrite) && IsDirectory(t, Parent(dest))
    && (OtherDevice(t, src, dest) || Merges(t, src, dest) ==> Clean(t, src, dest, overwrite))
  }

  ghost predicate Renameable(t: Tree, src: Path, dest: Path, overwrite: bool) {
    Transferable(t, src, dest, overwrite) && !Merges(t, src, dest)
  }

  /** An undisturbed rename fails across devices, and without a directory to rename into. */
  ghost predicate RenameDecides(t: Tree, src: Path, dest: Path, crossDevice: bool, r: ItemResult) {
    && crossDevice == OtherDevice(t, src, dest)
    && (!crossDevice ==> (r.Complete() <==> IsDirectory(t, Parent(dest))))
  }

  ghost predicate Merges(t: Tree, src: Path, dest: Path) {
    IsDirectory(t, src) && IsDirectory(t, dest)
  }

  lemma RenamesWhenMovable(t: Tree, src: Path, dest: Path, overwrite: bool)
    requires WellFormed(t) && Transferable(t, src, dest, overwrite) && IsDirectory(t, Parent(dest))
    requires !OtherDevice(t, src, dest) && !Merges(t, src, dest)
    ensures CanRename(t, src, dest)
  {
    if src <= dest {
      assert src <= Parent(dest);
      Ancestors(t, src, Parent(dest));
    }
    forall p | p in t && dest <= p
      ensures p == dest
    {
      Ancestors(t, dest, p);
    }
  }

  /** The kernel's answer to an undisturbed rename. */
  ghost predicate RenameAnswer(t: Tree, src: Path, dest: Path, errno: Errno) {
    && (errno == EXDEV <==> OtherDevice(t, src, dest))
    && (errno != EXDEV ==> (errno == Success <==> IsDirectory(t, Parent(dest))))
  }

  /** The rename itself: all of the subtree has moved, or nothing. */
  method RenameWhole(w: Kernel, src: Path, dest: Path, overwrite: bool) returns (errno: Errno)
    requires w.Valid() && !w.cancelled
    modifies w
    ensures w.Valid() && Progress(w)
    ensures errno != Success ==> Untouched(w)
    ensures errno == Success ==>
      && NothingLost(old(Now(w)), Now(w), src, dest, overwrite)
      && (w.history == old(w.history) || w.history == old(w.history) + [Now(w)])
      && MoveOutcome(old(Now(w)), Now(w), w.stuck, src, dest, DONE)
    ensures w.undisturbed && Renameable(old(w.tree), src, dest, overwrite) ==>
      RenameAnswer(old(w.tree), src, dest, errno)
  {
    ghost var m := Now(w);
    if Renameable(w.tree, src, dest, overwrite) && IsDirectory(w.tree, Parent(dest))
      && !OtherDevice(w.tree, src, dest)
    {
      RenamesWhenMovable(w.tree, src, dest, overwrite);
    }
    errno := w.Rename(src, dest, !overwrite);
    if errno == Success && !(dest in m.tree && SameEntry(m.tree[src], m.tree[dest])) {
      RenameLosesNothing(m, Now(w), src, dest, overwrite);
    }
  }

  /** Tries the rename, unless cancelled; the kernel refuses it across devices. */
  method RenameEntry(w: Kernel, src: Path, dest: Path, overwrite: bool) returns (crossDevice: bool, r: ItemResult)
    requires w.Valid() && Separate(w.tree, src, dest)
    modifies w
    ensures w.Valid() && Progress(w) && (r.cancelled ==> w.cancelled)
    ensures old(w.cancelled) ==> !crossDevice && r.cancelled && !r.Complete() && Untouched(w)
    ensures crossDevice ==> Untouched(w)
    ensures NeverLost(w.history, |old(w.history)|, old(Now(w)), src, dest, overwrite)
    ensures NothingLost(old(Now(w)), Now(w), src, dest, overwrite)
    ensures !r.reason.SourceDeletionFailed?
    ensures !crossDevice ==> MoveOutcome(old(Now(w)), Now(w), w.stuck, src, dest, r)
    ensures w.undisturbed && !old(w.cancelled) && Renameable(old(w.tree), src, dest, overwrite) ==>
      RenameDecides(old(w.tree), src, dest, crossDevice, r)
  {
    r, crossDevice := DONE, false;
    var c := w.LoadCancel();
    if c {
      return false, r.(cancelled := true);
    }
    var errno := RenameWhole(w, src, dest, overwrite);
    if errno == Success {
      return;
    }
    if errno != EXDEV {
      return false, Failure(Refused(errno));
    }
    return true, r;
  }

  /** Moves `src` to `dest`. Whatever calls are refused and whenever cancellation arrives, no state
      of the disk on the way has lost anything; undisturbed, what can be moved is moved. */
  method MoveEntry(w: Kernel, src: Path, dest: Path, overwrite: bool) returns (r: ItemResult)
    requires w.Valid()
    modifies w
    ensures w.Valid() && Progress(w) && (r.cancelled ==> w.cancelled)
    ensures old(w.cancelled) ==> r.cancelled && !r.Complete() && Untouched(w)
    ensures NeverLost(w.history, |old(w.history)|, old(Now(w)), src, dest, overwrite)
    ensures NothingLost(old(Now(w)), Now(w), src, dest, overwrite)
    ensures MoveOutcome(old(Now(w)), Now(w), w.stuck, src, dest, r)
    ensures r.reason.SourceDeletionFailed? ==> OnlyHeldUp(w.troubled, w.tree, src)
    ensures w.undisturbed && !old(w.cancelled) ==> (r.Complete() <==> Movable(old(w.tree), src, dest, overwrite))
  {
    r := DONE;
    var c := w.LoadCancel();
    if c {
      return r.(cancelled := true);
    }
    var validation := ValidateEndpoints(w, src, dest, overwrite);
    if validation.failed {
      return validation;
    }
    var srcStat, errno := w.Lstat(src);
    if srcStat.None? {
      return Failure(Refused(errno));
    }
    var destStat, _ := w.Lstat(dest);
    var needsMerge := overwrite && destStat.Some? && srcStat.value.kind.Directory? && destStat.value.kind.Directory?;
    if !needsMerge {
      var crossDevice;
      crossDevice, r := RenameEntry(w, src, dest, overwrite);
      if !crossDevice {
        return;
      }
    }
    r := CopyThenRemove(w, src, dest, overwrite);
  }
}
