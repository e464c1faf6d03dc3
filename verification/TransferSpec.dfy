/** What a transfer promises about the disk, as predicates on its states, and what follows. */
module TransferSpec {
  import opened Paths
  import opened World

  datatype Reason =
    | NoReason
    | Refused(errno: Errno)
    | SameSourceAndDestination
    | DestinationInsideSource
    | IncompatibleEntries
    | TargetTooLong
    | SourceChanged
    | UnsupportedType
    | Retained(cause: Reason, copiesExist: bool)
    | TransferIncomplete
    | SourceDeletionFailed(errno: Errno)

  const PATH_MAX := 4096

  datatype FailedItem = FailedItem(path: Path, reason: Reason)

  datatype ItemResult = ItemResult(
    failed: bool, cancelled: bool, sourceRetained: bool, copiesExist: bool, reason: Reason,
    skipped: seq<Path>, nested: seq<FailedItem>)
  {
    predicate Complete() {
      !failed && !cancelled && nested == [] && skipped == []
    }
  }

  const DONE := ItemResult(false, false, false, false, NoReason, [], [])

  function Failure(reason: Reason): ItemResult {
    DONE.(failed := true, reason := reason)
  }

  /** `p`, absent at the start, is the published copy of the source entry at the same place. */
  ghost predicate Mirrors(t0: Tree, t: Tree, src: Path, dest: Path, overwrite: bool, p: Path) {
    && p in t && dest <= p
    && (overwrite || dest !in t0)
    && (|p| > |dest| ==> p[..|dest| + 1] !in t0)
    && Rebase(p, dest, src) in t0
    && t[p].kind == t0[Rebase(p, dest, src)].kind
  }

  /** Where staging temporaries may stand: beside the destination, or below a part of it made by
      this transfer. */
  ghost predicate Placed(t0: Tree, dest: Path, overwrite: bool, p: Path) {
    || Parent(p) == Parent(dest)
    || (dest <= p && |p| > |dest| && (overwrite || dest !in t0) && p[..|dest| + 1] !in t0)
  }

  /** A leaf at `dest` that was replaced by the full copy of the leaf at `src`. */
  ghost predicate Replaced(t0: Tree, t: Tree, src: Path, dest: Path, overwrite: bool) {
    && overwrite && src in t0 && dest in t0 && dest in t
    && t[dest].kind == t0[src].kind
    && !t0[dest].kind.Directory? && !t0[src].kind.Directory?
  }

  /** A state that a copy of `src` to `dest`, begun in `m0`, may pass through: nothing that existed
      is touched, except that an overwritten leaf at `dest` may already be the full copy; and
      whatever is new is a staging temporary or the full copy of its source entry. */
  ghost predicate Faithful(m0: Moment, m: Moment, src: Path, dest: Path, overwrite: bool) {
    match m
    case Moment(t, staged) =>
      && WellFormed(t)
      && (forall p | p in m0.tree ::
            p in t && (t[p] == m0.tree[p] || (p == dest && Replaced(m0.tree, t, src, dest, overwrite))))
      && (forall p | p in t && p !in m0.tree ::
            || Mirrors(m0.tree, t, src, dest, overwrite, p)
            || (p in staged && Placed(m0.tree, dest, overwrite, p)))
      && (forall p | p in m0.staged :: p in staged || (overwrite && p == dest))
      && (forall p | p in staged && p in m0.tree :: p in m0.staged)
  }

  /** What a copy can reproduce: directories, files, and links whose target is not too long. */
  predicate Plain(kind: Kind) {
    match kind
    case Symlink(target) => |target| < PATH_MAX
    case Special => false
    case _ => true
  }

  ghost predicate AllPlain(t: Tree, src: Path) {
    forall p | p in t && src <= p :: Plain(t[p].kind)
  }

  /** The destination's directory is there, and so is the destination only if it is to be overwritten by
      its like. */
  ghost predicate Receptive(t: Tree, src: Path, dest: Path, overwrite: bool) {
    && src in t && IsDirectory(t, Parent(dest))
    && (dest in t ==> overwrite && t[dest].kind.Directory? == t[src].kind.Directory?)
  }

  /** A leaf and a place for it. */
  ghost predicate Ready(t: Tree, src: Path, dest: Path, overwrite: bool) {
    Receptive(t, src, dest, overwrite) && !t[src].kind.Directory? && Plain(t[src].kind)
  }

  ghost predicate NoClash(t: Tree, src: Path, dest: Path) {
    forall n {:trigger src + [n]} {:trigger dest + [n]} :: src + [n] in t ==> dest + [n] !in t
  }

  /** Nothing but a disturbance can keep this copy from being complete. */
  ghost predicate Clean(t: Tree, src: Path, dest: Path, overwrite: bool) {
    Receptive(t, src, dest, overwrite) && AllPlain(t, src) && NoClash(t, src, dest)
  }

  /** A directory is never copied into itself. */
  ghost predicate Separate(t0: Tree, src: Path, dest: Path) {
    && WellFormed(t0) && src in t0 && src != dest
    && (t0[src].kind.Directory? ==> !(src <= dest))
  }

  ghost predicate SameBelow(t0: Tree, t: Tree, src: Path) {
    forall p | src <= p :: (p in t <==> p in t0) && (p in t0 ==> t[p] == t0[p])
  }

  lemma SourceIntact(m0: Moment, m: Moment, src: Path, dest: Path, overwrite: bool)
    requires Separate(m0.tree, src, dest) && Faithful(m0, m, src, dest, overwrite)
    ensures SameBelow(m0.tree, m.tree, src)
  {
    forall p | src <= p
      ensures (p in m.tree <==> p in m0.tree) && (p in m0.tree ==> m.tree[p] == m0.tree[p])
    {
      if p in m0.tree {
        Ancestors(m0.tree, src, p);
      } else if p in m.tree {
        NothingNewInSource(m0, m, src, dest, overwrite, p);
      }
    }
  }

  lemma NothingNewInSource(m0: Moment, m: Moment, src: Path, dest: Path, overwrite: bool, p: Path)
    requires Separate(m0.tree, src, dest) && Faithful(m0, m, src, dest, overwrite)
    requires src <= p && p in m.tree
    ensures p in m0.tree
  {
    if p !in m0.tree {
      Ancestors(m.tree, src, p);
      if Parent(p) == Parent(dest) {
        SiblingBelow(src, p, dest);
      }
      if dest <= p {
        if |dest| < |src| {
          Ancestors(m0.tree, p[..|dest| + 1], src);
        }
      }
    }
  }

  /** What a state is to the copy of one child, it is to the copy of the whole directory. */
  lemma LiftFaithful(m0: Moment, m: Moment, m': Moment, src: Path, dest: Path, overwrite: bool, name: Name)
    requires Separate(m0.tree, src, dest) && m0.tree[src].kind.Directory?
    requires overwrite || dest !in m0.tree
    requires Faithful(m0, m, src, dest, overwrite)
    requires Faithful(m, m', src + [name], dest + [name], false)
    ensures Faithful(m0, m', src, dest, overwrite)
  {
    SourceIntact(m0, m, src, dest, overwrite);
    forall p | p in m'.tree && p !in m0.tree
      ensures Mirrors(m0.tree, m'.tree, src, dest, overwrite, p)
              || (p in m'.staged && Placed(m0.tree, dest, overwrite, p))
    {
      if p !in m.tree {
        if Mirrors(m.tree, m'.tree, src + [name], dest + [name], false, p) {
          assert p[..|dest| + 1] == dest + [name];
          RebaseStep(p, dest, src, name);
        } else if Parent(p) == dest {
          assert Parent(dest + [name]) == dest;
          assert Parent([]) == [];
          assert p[..|dest| + 1] == p;
        } else {
          assert Parent(dest + [name]) == dest;
          assert p[..|dest| + 1] == dest + [name];
        }
      }
    }
  }

  /** The source entry `p` has its full copy at the destination, and below `dest` itself the copy is
      a new entry. */
  ghost predicate Copied(t0: Tree, t: Tree, src: Path, dest: Path, p: Path) {
    && src <= p && p in t0
    && var q := Rebase(p, src, dest);
       q in t && t[q].kind == t0[p].kind && (p == src || q !in t0)
  }

  /** The result names `p` or something above it as skipped or failed. */
  ghost predicate Covered(r: ItemResult, p: Path) {
    || (exists s :: s in r.skipped && s <= p)
    || (exists f :: f in r.nested && f.path <= p)
  }

  ghost predicate Accounted(t0: Tree, t: Tree, src: Path, dest: Path, r: ItemResult) {
    forall p | p in t0 && src <= p :: Copied(t0, t, src, dest, p) || Covered(r, p)
  }

  /** Something at or below the destination changed, staging temporaries aside. */
  ghost predicate Published(t0: Tree, m: Moment, dest: Path) {
    exists p :: p in m.tree && dest <= p && p !in m.staged && (p !in t0 || m.tree[p] != t0[p])
  }

  /** The last state of a copy together with the result it returns. */
  ghost predicate CopyOutcome(m0: Moment, m: Moment, stuck: set<Path>, src: Path, dest: Path, overwrite: bool,
                              r: ItemResult)
  {
    match r
    case ItemResult(failed, cancelled, sourceRetained, copiesExist, _, _, _) =>
      && Faithful(m0, m, src, dest, overwrite)
      && (forall p | p in m.staged :: p in m0.staged || p in stuck)
      && (copiesExist <==> Published(m0.tree, m, dest))
      && (!failed && !cancelled ==> Accounted(m0.tree, m.tree, src, dest, r) && (overwrite || dest !in m0.tree))
      && (r.Complete() ==> m.staged <= m0.staged && AllPlain(m0.tree, src))
      && !sourceRetained
  }

  ghost predicate PlainBelow(t: Tree, src: Path, done: set<Name>) {
    forall p | p in t && src <= p && |src| < |p| && p[|src|] in done :: Plain(t[p].kind)
  }

  /** The same, in the middle of a directory: `done` are the children dealt with so far. */
  ghost predicate Underway(m0: Moment, m: Moment, stuck: set<Path>, src: Path, dest: Path, overwrite: bool,
                           r: ItemResult, done: set<Name>)
  {
    match r
    case ItemResult(failed, cancelled, sourceRetained, copiesExist, _, _, _) =>
      && Separate(m0.tree, src, dest) && m0.tree[src].kind.Directory?
      && (overwrite || dest !in m0.tree)
      && Faithful(m0, m, src, dest, overwrite)
      && dest in m.tree && m.tree[dest].kind.Directory?
      && (forall p | p in m.staged :: p in m0.staged || p in stuck)
      && (copiesExist <==> Published(m0.tree, m, dest))
      && (forall p | p in m0.tree && src <= p && |src| < |p| && p[|src|] in done ::
            Copied(m0.tree, m.tree, src, dest, p) || Covered(r, p))
      && (r.Complete() ==> m.staged <= m0.staged && PlainBelow(m0.tree, src, done))
      && !sourceRetained && !failed && !cancelled
  }

  /** The result so far with the result of one more child taken in. */
  function TakeChild(r: ItemResult, child: ItemResult, childSrc: Path): ItemResult {
    r.(copiesExist := r.copiesExist || child.copiesExist,
       skipped := r.skipped + child.skipped,
       nested := r.nested + child.nested + if child.failed then [FailedItem(childSrc, child.reason)] else [])
  }

  lemma ChildAccounted(m0: Moment, m: Moment, m': Moment, src: Path, dest: Path, overwrite: bool,
                       r: ItemResult, child: ItemResult, name: Name, stuck: set<Path>, p: Path)
    requires Separate(m0.tree, src, dest) && m0.tree[src].kind.Directory?
    requires Faithful(m0, m, src, dest, overwrite)
    requires CopyOutcome(m, m', stuck, src + [name], dest + [name], false, child) && !child.cancelled
    requires p in m0.tree && src + [name] <= p
    ensures Copied(m0.tree, m'.tree, src, dest, p) || Covered(TakeChild(r, child, src + [name]), p)
  {
    var r' := TakeChild(r, child, src + [name]);
    SourceIntact(m0, m, src, dest, overwrite);
    if child.failed {
      assert FailedItem(src + [name], child.reason) in r'.nested;
    } else if Copied(m.tree, m'.tree, src + [name], dest + [name], p) {
      RebaseStep(p, src, dest, name);
      assert p != src;
    } else {
      assert Covered(child, p);
      CoveredGrows(r, child, src + [name], p);
    }
  }

  lemma CoveredGrows(r: ItemResult, child: ItemResult, childSrc: Path, p: Path)
    ensures Covered(r, p) || Covered(child, p) ==> Covered(TakeChild(r, child, childSrc), p)
  {
    var r' := TakeChild(r, child, childSrc);
    assert forall s :: s in r.skipped || s in child.skipped ==> s in r'.skipped;
    assert forall f :: f in r.nested || f in child.nested ==> f in r'.nested;
  }

  lemma CopiedStays(m0: Moment, m: Moment, m': Moment, src: Path, dest: Path, name: Name, p: Path)
    requires Faithful(m, m', src + [name], dest + [name], false)
    requires Copied(m0.tree, m.tree, src, dest, p)
    ensures Copied(m0.tree, m'.tree, src, dest, p)
  {
  }

  lemma ChildrenAccounted(m0: Moment, m: Moment, m': Moment, stuck: set<Path>, stuck': set<Path>,
                          src: Path, dest: Path, overwrite: bool, r: ItemResult, child: ItemResult, name: Name,
                          done: set<Name>, p: Path)
    requires Underway(m0, m, stuck, src, dest, overwrite, r, done)
    requires CopyOutcome(m, m', stuck', src + [name], dest + [name], false, child) && !child.cancelled
    requires p in m0.tree && src <= p && |src| < |p| && p[|src|] in done + {name}
    ensures Copied(m0.tree, m'.tree, src, dest, p) || Covered(TakeChild(r, child, src + [name]), p)
  {
    if p[|src|] == name {
      assert src + [name] <= p;
      ChildAccounted(m0, m, m', src, dest, overwrite, r, child, name, stuck', p);
    } else if Copied(m0.tree, m.tree, src, dest, p) {
      CopiedStays(m0, m, m', src, dest, name, p);
    } else {
      CoveredGrows(r, child, src + [name], p);
    }
  }

  /** One more child has been copied, or has failed. */
  lemma ChildDone(m0: Moment, m: Moment, m': Moment, stuck: set<Path>, stuck': set<Path>, src: Path, dest: Path,
                  overwrite: bool, r: ItemResult, child: ItemResult, name: Name, done: set<Name>)
    requires Underway(m0, m, stuck, src, dest, overwrite, r, done) && stuck <= stuck'
    requires CopyOutcome(m, m', stuck', src + [name], dest + [name], false, child) && !child.cancelled
    ensures Underway(m0, m', stuck', src, dest, overwrite, TakeChild(r, child, src + [name]), done + {name})
  {
    var r' := TakeChild(r, child, src + [name]);
    LiftFaithful(m0, m, m', src, dest, overwrite, name);
    forall p | p in m0.tree && src <= p && |src| < |p| && p[|src|] in done + {name}
      ensures Copied(m0.tree, m'.tree, src, dest, p) || Covered(r', p)
    {
      ChildrenAccounted(m0, m, m', stuck, stuck', src, dest, overwrite, r, child, name, done, p);
    }
    StagedSettled(m, m', stuck', src, dest, r, child, name);
    if r'.Complete() {
      SourceIntact(m0, m, src, dest, overwrite);
      ChildPlain(m0.tree, m.tree, src, name, done);
    }
  }

  lemma ChildPlain(t0: Tree, t: Tree, src: Path, name: Name, done: set<Name>)
    requires PlainBelow(t0, src, done) && SameBelow(t0, t, src) && AllPlain(t, src + [name])
    ensures PlainBelow(t0, src, done + {name})
  {
    forall p | p in t0 && src <= p && |src| < |p| && p[|src|] in done + {name}
      ensures Plain(t0[p].kind)
    {
      if p[|src|] == name {
        assert src + [name] <= p;
      }
    }
  }

  lemma StagedSettled(m: Moment, m': Moment, stuck: set<Path>, src: Path, dest: Path, r: ItemResult,
                      child: ItemResult, name: Name)
    requires CopyOutcome(m, m', stuck, src + [name], dest + [name], false, child) && !child.cancelled
    ensures TakeChild(r, child, src + [name]).Complete() ==> r.Complete() && m'.staged <= m.staged
  {
  }

  /** Cancelled inside a child. */
  lemma ChildCancelled(m0: Moment, m: Moment, m': Moment, stuck: set<Path>, stuck': set<Path>, src: Path, dest: Path,
                       overwrite: bool, r: ItemResult, child: ItemResult, name: Name, done: set<Name>)
    requires Underway(m0, m, stuck, src, dest, overwrite, r, done) && stuck <= stuck'
    requires CopyOutcome(m, m', stuck', src + [name], dest + [name], false, child)
    ensures CopyOutcome(m0, m', stuck', src, dest, overwrite,
                        TakeChild(r, child, src + [name]).(cancelled := true))
  {
    LiftFaithful(m0, m, m', src, dest, overwrite, name);
  }

  /** A child whose name is taken at the destination is skipped and recorded. */
  lemma ChildSkipped(m0: Moment, m: Moment, stuck: set<Path>, src: Path, dest: Path, overwrite: bool,
                     r: ItemResult, name: Name, done: set<Name>)
    requires Underway(m0, m, stuck, src, dest, overwrite, r, done)
    ensures Underway(m0, m, stuck, src, dest, overwrite, r.(skipped := r.skipped + [src + [name]]), done + {name})
  {
    var r' := r.(skipped := r.skipped + [src + [name]]);
    forall p | p in m0.tree && src <= p && |src| < |p| && p[|src|] in done + {name}
      ensures Copied(m0.tree, m.tree, src, dest, p) || Covered(r', p)
    {
      assert p[|src|] == name ==> src + [name] <= p;
      SkippedCovers(r, src + [name], p);
    }
  }

  lemma SkippedCovers(r: ItemResult, s: Path, p: Path)
    ensures Covered(r, p) || s <= p ==> Covered(r.(skipped := r.skipped + [s]), p)
  {
    var r' := r.(skipped := r.skipped + [s]);
    assert s in r'.skipped && forall k :: k in r.skipped ==> k in r'.skipped;
  }

  lemma ChildOf(t: Tree, src: Path, p: Path)
    requires WellFormed(t) && p in t && src <= p && p != src
    ensures |src| < |p| && src + [p[|src|]] in t
  {
    assert src + [p[|src|]] <= p;
    Ancestors(t, src + [p[|src|]], p);
  }

  lemma AllChildrenPlain(t: Tree, src: Path, done: set<Name>)
    requires WellFormed(t) && src in t && t[src].kind.Directory? && PlainBelow(t, src, done)
    requires forall name | src + [name] in t :: name in done
    ensures AllPlain(t, src)
  {
    forall p | p in t && src <= p
      ensures Plain(t[p].kind)
    {
      if p != src {
        ChildOf(t, src, p);
      }
    }
  }

  lemma DirectoryAccounted(m0: Moment, m: Moment, stuck: set<Path>, src: Path, dest: Path, overwrite: bool,
                           r: ItemResult, done: set<Name>, extra: seq<FailedItem>, p: Path)
    requires Underway(m0, m, stuck, src, dest, overwrite, r, done)
    requires (exists f :: f in extra && f.path == src) || (forall name | src + [name] in m0.tree :: name in done)
    requires p in m0.tree && src <= p
    ensures Copied(m0.tree, m.tree, src, dest, p) || Covered(r.(nested := r.nested + extra), p)
  {
    if p == src {
      assert Rebase(p, src, dest) == dest;
    } else {
      ChildOf(m0.tree, src, p);
    }
  }

  /** All children are done, or the listing itself failed and `src` is recorded. */
  lemma DirectoryDone(m0: Moment, m: Moment, stuck: set<Path>, src: Path, dest: Path, overwrite: bool,
                      r: ItemResult, done: set<Name>, extra: seq<FailedItem>)
    requires Underway(m0, m, stuck, src, dest, overwrite, r, done)
    requires (exists f :: f in extra && f.path == src) || (forall name | src + [name] in m0.tree :: name in done)
    ensures CopyOutcome(m0, m, stuck, src, dest, overwrite, r.(nested := r.nested + extra))
  {
    var r' := r.(nested := r.nested + extra);
    forall p | p in m0.tree && src <= p
      ensures Copied(m0.tree, m.tree, src, dest, p) || Covered(r', p)
    {
      DirectoryAccounted(m0, m, stuck, src, dest, overwrite, r, done, extra, p);
    }
    if r'.Complete() {
      AllChildrenPlain(m0.tree, src, done);
    }
  }

  /** `m` is `m0` with a staging temporary beside the destination. */
  ghost predicate WithTemporary(m0: Moment, m: Moment, temporary: Path, dest: Path) {
    && WellFormed(m0.tree) && WellFormed(m.tree)
    && temporary !in m0.tree && temporary != dest && Parent(temporary) == Parent(dest)
    && temporary in m.tree && !m.tree[temporary].kind.Directory?
    && m == Moment(m0.tree[temporary := m.tree[temporary]], m0.staged + {temporary})
  }

  lemma TemporaryIsFaithful(m0: Moment, m: Moment, temporary: Path, src: Path, dest: Path, overwrite: bool)
    requires WithTemporary(m0, m, temporary, dest)
    ensures Faithful(m0, m, src, dest, overwrite) && !Published(m0.tree, m, dest)
  {
    forall p | p in m.tree && p !in m0.tree
      ensures p in m.staged && Placed(m0.tree, dest, overwrite, p)
    {
      assert p == temporary;
    }
  }

  lemma TemporaryRemoved(m0: Moment, m: Moment, temporary: Path, dest: Path)
    requires WithTemporary(m0, m, temporary, dest)
    requires forall p | p in m0.staged :: p in m0.tree
    ensures Moment(m.tree - {temporary}, m.staged - {temporary}) == m0
  {
  }

  lemma CommitTree(m0: Moment, m: Moment, temporary: Path, dest: Path)
    requires WithTemporary(m0, m, temporary, dest) && CanRename(m.tree, temporary, dest)
    ensures Renamed(m.tree, temporary, dest) == m0.tree[dest := m.tree[temporary]]
  {
    var t := Renamed(m.tree, temporary, dest);
    LeafIsAlone(m.tree, temporary);
    forall q
      ensures q in t <==> q in m0.tree || q == dest
      ensures q in t ==> t[q] == if q == dest then m.tree[temporary] else m0.tree[q]
    {
      RenamedAt(m.tree, temporary, dest, q);
      if dest <= q {
        RebaseBack(q, dest, temporary);
        assert Rebase(dest, dest, temporary) == temporary;
      }
    }
  }

  /** The state after the temporary has got its final name. */
  ghost predicate Committed(m0: Moment, m: Moment, m': Moment, temporary: Path, src: Path, dest: Path,
                            overwrite: bool)
  {
    && WithTemporary(m0, m, temporary, dest)
    && (forall p | p in m0.staged :: p in m0.tree)
    && src in m0.tree && m.tree[temporary].kind == m0.tree[src].kind
    && (overwrite || dest !in m0.tree)
    && (dest in m0.tree ==> !m0.tree[dest].kind.Directory? && !SameEntry(m0.tree[dest], m.tree[temporary]))
    && WellFormed(m'.tree)
    && m'.tree == m0.tree[dest := m.tree[temporary]] && m'.staged == m0.staged - {dest}
  }

  /** Only a disturbance can keep the temporary from becoming `dest`. */
  ghost predicate CanCommit(t: Tree, temporary: Path, dest: Path, overwrite: bool) {
    && temporary in t && !t[temporary].kind.Directory?
    && IsDirectory(t, Parent(dest)) && t[temporary].dev == t[Parent(dest)].dev
    && (dest in t ==> overwrite && !t[dest].kind.Directory?)
  }

  lemma CommitsWhenFree(t: Tree, temporary: Path, dest: Path, overwrite: bool)
    requires WellFormed(t) && CanCommit(t, temporary, dest, overwrite)
    requires Parent(temporary) == Parent(dest) && temporary != dest
    ensures CanRename(t, temporary, dest)
  {
    LeafIsAlone(t, temporary);
    if temporary <= dest {
      SiblingBelow(temporary, dest, dest);
    }
    forall p | p in t && dest <= p
      ensures p == dest
    {
      Ancestors(t, dest, p);
    }
  }

  lemma CommitReached(m0: Moment, m: Moment, m': Moment, temporary: Path, src: Path, dest: Path, overwrite: bool)
    requires WithTemporary(m0, m, temporary, dest) && CanRename(m.tree, temporary, dest)
    requires forall p | p in m0.staged :: p in m0.tree
    requires src in m0.tree && m.tree[temporary].kind == m0.tree[src].kind
    requires forall p | p in m0.tree :: !SameEntry(m0.tree[p], m.tree[temporary])
    requires overwrite || dest !in m.tree
    requires WellFormed(m'.tree) && m'.tree == Renamed(m.tree, temporary, dest)
    requires m'.staged == m.staged - Below(m.tree, temporary) - {dest}
    ensures Committed(m0, m, m', temporary, src, dest, overwrite)
  {
    CommitTree(m0, m, temporary, dest);
    LeafIsAlone(m.tree, temporary);
    assert Below(m.tree, temporary) == {temporary};
    assert m.staged - {temporary} == m0.staged;
  }

  lemma CommitFaithful(m0: Moment, m: Moment, m': Moment, temporary: Path, src: Path, dest: Path, overwrite: bool)
    requires Committed(m0, m, m', temporary, src, dest, overwrite)
    ensures Faithful(m0, m', src, dest, overwrite)
  {
    assert Rebase(dest, dest, src) == src;
    forall p | p in m'.tree && p !in m0.tree
      ensures Mirrors(m0.tree, m'.tree, src, dest, overwrite, p)
    {
      assert p == dest;
    }
  }

  lemma CommitAccounted(m0: Moment, m: Moment, m': Moment, temporary: Path, src: Path, dest: Path, overwrite: bool)
    requires Committed(m0, m, m', temporary, src, dest, overwrite)
    ensures Published(m0.tree, m', dest)
    ensures Accounted(m0.tree, m'.tree, src, dest, DONE)
  {
    assert dest in m'.tree && dest !in m'.staged;
    LeafIsAlone(m0.tree, src);
    assert Rebase(src, src, dest) == dest;
    assert Copied(m0.tree, m'.tree, src, dest, src);
  }

  /** Once the temporary has its final name, the copy of a leaf is complete. */
  lemma CommitOutcome(m0: Moment, m: Moment, m': Moment, stuck: set<Path>, temporary: Path, src: Path, dest: Path,
                      overwrite: bool)
    requires Committed(m0, m, m', temporary, src, dest, overwrite) && Plain(m0.tree[src].kind)
    ensures CopyOutcome(m0, m', stuck, src, dest, overwrite, DONE.(copiesExist := true))
  {
    LeafIsAlone(m0.tree, src);
    CommitFaithful(m0, m, m', temporary, src, dest, overwrite);
    CommitAccounted(m0, m, m', temporary, src, dest, overwrite);
    forall p | p in m0.tree && src <= p
      ensures Copied(m0.tree, m'.tree, src, dest, p) || Covered(DONE.(copiesExist := true), p)
    {
      assert !Covered(DONE, p);
    }
  }

  /** The destination directory was found, or made, and nothing else has happened yet. */
  lemma Prepared(m0: Moment, m: Moment, stuck: set<Path>, src: Path, dest: Path, overwrite: bool, made: bool)
    requires Separate(m0.tree, src, dest) && m0.tree[src].kind.Directory?
    requires WellFormed(m.tree) && m.staged == m0.staged
    requires forall p | p in m0.staged :: p in m0.tree
    requires dest in m.tree && m.tree[dest].kind.Directory?
    requires if made then dest !in m0.tree && m.tree == m0.tree[dest := m.tree[dest]]
             else overwrite && m.tree == m0.tree
    ensures Underway(m0, m, stuck, src, dest, overwrite, DONE.(copiesExist := made), {})
  {
    if made {
      assert Rebase(dest, dest, src) == src;
      assert forall p | p in m.tree && p !in m0.tree :: p == dest;
      assert dest in m.tree && dest !in m.staged;
    }
  }

  lemma ChildSeparate(m0: Moment, m: Moment, src: Path, dest: Path, overwrite: bool, name: Name)
    requires Separate(m0.tree, src, dest) && Faithful(m0, m, src, dest, overwrite)
    requires m0.tree[src].kind.Directory? && src + [name] in m0.tree
    ensures Separate(m.tree, src + [name], dest + [name])
    ensures Below(m.tree, src + [name]) < Below(m0.tree, src)
  {
    SourceIntact(m0, m, src, dest, overwrite);
    ChildrenApart(src, dest, name);
    assert src in Below(m0.tree, src) && src !in Below(m.tree, src + [name]);
    assert Below(m.tree, src + [name]) <= Below(m0.tree, src);
  }

  // What an undisturbed copy does, exactly

  /** The child of the source at or above `p` has a name that is taken at the destination. */
  ghost predicate Taken(t0: Tree, src: Path, dest: Path, p: Path) {
    src <= p && |src| < |p| && dest + [p[|src|]] in t0
  }

  /** A child of the source whose name is taken. */
  ghost predicate Clashes(t0: Tree, src: Path, dest: Path, s: Path) {
    s in t0 && |s| == |src| + 1 && Taken(t0, src, dest, s)
  }

  /** An entry below the source that is reached and cannot be reproduced. */
  ghost predicate Uncopyable(t0: Tree, src: Path, dest: Path, p: Path) {
    p in t0 && src <= p && p != src && !Taken(t0, src, dest, p) && !Plain(t0[p].kind)
  }

  ghost predicate Reports(nested: seq<FailedItem>, p: Path) {
    exists f :: f in nested && f.path == p
  }

  ghost predicate CopiesRest(t0: Tree, t: Tree, src: Path, dest: Path) {
    forall p | p in t0 && src <= p && !Taken(t0, src, dest, p) && Plain(t0[p].kind) :: Copied(t0, t, src, dest, p)
  }

  ghost predicate CopiesDone(t0: Tree, t: Tree, src: Path, dest: Path, done: set<Name>) {
    forall p | p in t0 && src <= p && |src| < |p| && p[|src|] in done
               && !Taken(t0, src, dest, p) && Plain(t0[p].kind) ::
      Copied(t0, t, src, dest, p)
  }

  /** Exactly the children with taken names are skipped, exactly what cannot be reproduced is reported as
      failed, and all the rest is copied; no temporary is left. */
  ghost predicate Exact(m0: Moment, m: Moment, src: Path, dest: Path, r: ItemResult)
    requires src in m0.tree
  {
    && !r.cancelled && (r.failed <==> !Plain(m0.tree[src].kind))
    && (forall s :: s in r.skipped <==> Clashes(m0.tree, src, dest, s))
    && (forall p :: Reports(r.nested, p) <==> Uncopyable(m0.tree, src, dest, p))
    && CopiesRest(m0.tree, m.tree, src, dest) && m.staged <= m0.staged
  }

  /** The same, in the middle of a directory: `done` are the children dealt with so far. */
  ghost predicate Merging(m0: Moment, m: Moment, src: Path, dest: Path, r: ItemResult, done: set<Name>) {
    && (forall s :: s in r.skipped <==> Clashes(m0.tree, src, dest, s) && s[|src|] in done)
    && (forall p :: Reports(r.nested, p) <==> Uncopyable(m0.tree, src, dest, p) && p[|src|] in done)
    && CopiesDone(m0.tree, m.tree, src, dest, done) && m.staged <= m0.staged
    && (forall n {:trigger dest + [n]} :: dest + [n] in m.tree ==> dest + [n] in m0.tree || n in done)
  }

  lemma NothingMerged(m0: Moment, m: Moment, src: Path, dest: Path, r: ItemResult)
    requires r.skipped == [] && r.nested == [] && m.staged <= m0.staged && WellFormed(m.tree)
    requires forall p | p in m.tree :: p in m0.tree || p == dest
    ensures Merging(m0, m, src, dest, r, {})
  {
    assert forall n :: |dest + [n]| > |dest|;
  }

  lemma SkipMerges(m0: Moment, m: Moment, src: Path, dest: Path, r: ItemResult, done: set<Name>, name: Name)
    requires Merging(m0, m, src, dest, r, done)
    requires name !in done && dest + [name] in m.tree && src + [name] in m0.tree
    ensures Merging(m0, m, src, dest, r.(skipped := r.skipped + [src + [name]]), done + {name})
  {
    var r' := r.(skipped := r.skipped + [src + [name]]);
    forall s
      ensures s in r'.skipped <==> Clashes(m0.tree, src, dest, s) && s[|src|] in done + {name}
    {
      if Clashes(m0.tree, src, dest, s) && s[|src|] == name {
        assert s == src + [name];
      }
    }
  }

  lemma ReportsOfChild(r: ItemResult, child: ItemResult, childSrc: Path, p: Path)
    ensures Reports(TakeChild(r, child, childSrc).nested, p) <==>
      Reports(r.nested, p) || Reports(child.nested, p) || (child.failed && p == childSrc)
  {
    var item := FailedItem(childSrc, child.reason);
    var nested := TakeChild(r, child, childSrc).nested;
    assert forall f :: f in nested <==> f in r.nested || f in child.nested || (child.failed && f == item);
  }

  /** Below a fresh destination no name is taken. */
  lemma NothingTaken(t: Tree, src: Path, dest: Path, p: Path)
    requires WellFormed(t) && dest !in t
    ensures !Taken(t, src, dest, p)
  {
    assert forall n :: Parent(dest + [n]) == dest;
  }

  lemma ChildReports(m0: Moment, m: Moment, src: Path, dest: Path, r: ItemResult, child: ItemResult,
                     done: set<Name>, name: Name, p: Path)
    requires forall q :: Reports(r.nested, q) <==> Uncopyable(m0.tree, src, dest, q) && q[|src|] in done
    requires WellFormed(m.tree) && src + [name] in m.tree && dest + [name] !in m.tree && dest + [name] !in m0.tree
    requires SameBelow(m0.tree, m.tree, src) && child.failed == !Plain(m.tree[src + [name]].kind)
    requires forall q :: Reports(child.nested, q) <==> Uncopyable(m.tree, src + [name], dest + [name], q)
    ensures Reports(TakeChild(r, child, src + [name]).nested, p) <==>
      Uncopyable(m0.tree, src, dest, p) && p[|src|] in done + {name}
  {
    ReportsOfChild(r, child, src + [name], p);
    NothingTaken(m.tree, src + [name], dest + [name], p);
    if src <= p && |src| < |p| && p[|src|] == name {
      assert src + [name] <= p;
    }
  }

  lemma ChildCopied(t0: Tree, t: Tree, t': Tree, src: Path, dest: Path, name: Name, p: Path)
    requires WellFormed(t) && SameBelow(t0, t, src)
    requires dest + [name] !in t && dest + [name] !in t0
    requires forall q | q in t0 :: q in t
    requires CopiesRest(t, t', src + [name], dest + [name])
    requires p in t0 && src + [name] <= p && Plain(t0[p].kind)
    ensures Copied(t0, t', src, dest, p)
  {
    assert src <= p;
    NothingTaken(t, src + [name], dest + [name], p);
    assert Copied(t, t', src + [name], dest + [name], p);
    RebaseStep(p, src, dest, name);
  }

  lemma ChildSkips(m0: Moment, m: Moment, src: Path, dest: Path, child: ItemResult, name: Name)
    requires WellFormed(m.tree) && dest + [name] !in m.tree
    requires forall s :: s in child.skipped <==> Clashes(m.tree, src + [name], dest + [name], s)
    ensures child.skipped == []
  {
    if child.skipped != [] {
      assert child.skipped[0] in child.skipped;
      NothingTaken(m.tree, src + [name], dest + [name], child.skipped[0]);
      assert false;
    }
  }

  lemma ChildPlace(m0: Moment, m: Moment, m': Moment, src: Path, dest: Path, name: Name, done: set<Name>, n: Name)
    requires Faithful(m, m', src + [name], dest + [name], false)
    requires m'.staged <= m.staged && forall p | p in m.staged :: p in m.tree
    requires dest + [n] in m.tree ==> dest + [n] in m0.tree || n in done
    requires dest + [n] in m'.tree
    ensures dest + [n] in m0.tree || n in done + {name}
  {
    if dest + [n] !in m.tree {
      assert Mirrors(m.tree, m'.tree, src + [name], dest + [name], false, dest + [n]);
      assert (dest + [n])[|dest|] == name;
    }
  }

  /** One more child has been copied, as far as it can be: what is reported. */
  lemma ChildMergesReports(m0: Moment, m: Moment, m': Moment, src: Path, dest: Path, r: ItemResult,
                           child: ItemResult, done: set<Name>, name: Name)
    requires Merging(m0, m, src, dest, r, done) && name !in done
    requires WellFormed(m.tree) && SameBelow(m0.tree, m.tree, src)
    requires src + [name] in m.tree && dest + [name] !in m.tree && dest + [name] !in m0.tree
    requires Exact(m, m', src + [name], dest + [name], child)
    ensures var r' := TakeChild(r, child, src + [name]);
      && (forall s :: s in r'.skipped <==> Clashes(m0.tree, src, dest, s) && s[|src|] in done + {name})
      && (forall p :: Reports(r'.nested, p) <==> Uncopyable(m0.tree, src, dest, p) && p[|src|] in done + {name})
  {
    ChildSkips(m0, m, src, dest, child, name);
    assert TakeChild(r, child, src + [name]).skipped == r.skipped;
    forall p
      ensures Reports(TakeChild(r, child, src + [name]).nested, p) <==>
        Uncopyable(m0.tree, src, dest, p) && p[|src|] in done + {name}
    {
      ChildReports(m0, m, src, dest, r, child, done, name, p);
    }
  }

  /** What is copied. */
  lemma ChildMergesCopies(m0: Moment, m: Moment, m': Moment, src: Path, dest: Path, done: set<Name>, name: Name)
    requires WellFormed(m.tree) && SameBelow(m0.tree, m.tree, src) && forall q | q in m0.tree :: q in m.tree
    requires dest + [name] !in m.tree && dest + [name] !in m0.tree
    requires CopiesDone(m0.tree, m.tree, src, dest, done)
    requires Faithful(m, m', src + [name], dest + [name], false)
    requires CopiesRest(m.tree, m'.tree, src + [name], dest + [name])
    ensures CopiesDone(m0.tree, m'.tree, src, dest, done + {name})
  {
    forall p | p in m0.tree && src <= p && |src| < |p| && p[|src|] in done + {name}
               && !Taken(m0.tree, src, dest, p) && Plain(m0.tree[p].kind)
      ensures Copied(m0.tree, m'.tree, src, dest, p)
    {
      if p[|src|] == name {
        assert src + [name] <= p;
        ChildCopied(m0.tree, m.tree, m'.tree, src, dest, name, p);
      } else {
        CopiedStays(m0, m, m', src, dest, name, p);
      }
    }
  }

  lemma ChildMerges(m0: Moment, m: Moment, m': Moment, stuck: set<Path>, src: Path, dest: Path, overwrite: bool,
                    r: ItemResult, child: ItemResult, done: set<Name>, name: Name)
    requires Separate(m0.tree, src, dest) && m0.tree[src].kind.Directory? && Faithful(m0, m, src, dest, overwrite)
    requires Merging(m0, m, src, dest, r, done) && name !in done
    requires src + [name] in m.tree && dest + [name] !in m.tree && dest + [name] !in m0.tree
    requires CopyOutcome(m, m', stuck, src + [name], dest + [name], false, child)
    requires Exact(m, m', src + [name], dest + [name], child)
    requires forall p | p in m.staged :: p in m.tree
    ensures Merging(m0, m', src, dest, TakeChild(r, child, src + [name]), done + {name})
  {
    SourceIntact(m0, m, src, dest, overwrite);
    ChildMergesReports(m0, m, m', src, dest, r, child, done, name);
    ChildMergesCopies(m0, m, m', src, dest, done, name);
    forall n {:trigger dest + [n]} | dest + [n] in m'.tree
      ensures dest + [n] in m0.tree || n in done + {name}
    {
      ChildPlace(m0, m, m', src, dest, name, done, n);
    }
  }

  /** All children are dealt with. */
  lemma MergedIsExact(m0: Moment, m: Moment, src: Path, dest: Path, r: ItemResult, done: set<Name>)
    requires WellFormed(m0.tree) && IsDirectory(m0.tree, src) && IsDirectory(m.tree, dest)
    requires Merging(m0, m, src, dest, r, done) && !r.failed && !r.cancelled
    requires forall name | src + [name] in m0.tree :: name in done
    ensures Exact(m0, m, src, dest, r)
  {
    assert Rebase(src, src, dest) == dest;
    forall p | p in m0.tree && src <= p && p != src
      ensures |src| < |p| && p[|src|] in done
    {
      ChildOf(m0.tree, src, p);
    }
  }

  /** What became of a leaf. */
  lemma LeafIsExact(m0: Moment, m: Moment, stuck: set<Path>, src: Path, dest: Path, overwrite: bool, r: ItemResult)
    requires WellFormed(m0.tree) && src in m0.tree && !m0.tree[src].kind.Directory?
    requires if Plain(m0.tree[src].kind) then r.Complete() && CopyOutcome(m0, m, stuck, src, dest, overwrite, r)
             else r == Failure(r.reason) && m == m0
    ensures Exact(m0, m, src, dest, r)
  {
    LeafIsAlone(m0.tree, src);
    assert forall p :: !Uncopyable(m0.tree, src, dest, p);
    assert forall s :: !Clashes(m0.tree, src, dest, s);
    assert forall p :: !Covered(r, p);
  }

  /** Where nothing stands in the way, all is copied. */
  lemma CleanIsComplete(m0: Moment, m: Moment, src: Path, dest: Path, overwrite: bool, r: ItemResult)
    requires Clean(m0.tree, src, dest, overwrite) && Exact(m0, m, src, dest, r)
    ensures r.Complete()
  {
    forall s
      ensures !Clashes(m0.tree, src, dest, s)
    {
      if src <= s && |s| == |src| + 1 {
        assert s == src + [s[|src|]];
      }
    }
    assert forall p :: !Uncopyable(m0.tree, src, dest, p);
    assert forall f :: f in r.nested ==> Reports(r.nested, f.path);
    NothingIn(r.skipped);
    NothingIn(r.nested);
  }

  lemma NothingIn<T>(s: seq<T>)
    ensures (forall x :: x !in s) ==> s == []
  {
    if s != [] {
      assert s[0] in s;
    }
  }

  /** What has a taken name is left alone, with all below it. */
  lemma TakenIsNotCopied(m0: Moment, m: Moment, src: Path, dest: Path, overwrite: bool, r: ItemResult, p: Path)
    requires src in m0.tree && Exact(m0, m, src, dest, r) && Faithful(m0, m, src, dest, overwrite)
    requires (forall q | q in m0.staged :: q in m0.tree) && Taken(m0.tree, src, dest, p)
    ensures !Copied(m0.tree, m.tree, src, dest, p)
  {
    var q := Rebase(p, src, dest);
    assert q[..|dest| + 1] == dest + [p[|src|]];
  }
}
