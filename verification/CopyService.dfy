/** Copying: files through a staging temporary, links by their target, directories by merging. */
module CopyService {
  import opened Paths
  import opened World
  import opened Wrappers
  import opened TransferSpec

  const CHUNK_SIZE := 0x10_0000

  ghost function Now(w: Kernel): Moment
    reads w`tree, w`staged
  {
    Moment(w.tree, w.staged)
  }

  /** History only grows, the flag is never lowered. */
  twostate predicate Progress(w: Kernel)
    reads w
  {
    && old(w.history) <= w.history
    && old(w.stuck) <= w.stuck
    && (old(w.cancelled) ==> w.cancelled)
    && (w.undisturbed ==> w.cancelled == old(w.cancelled))
  }

  /** The disk has not been touched. */
  twostate predicate Untouched(w: Kernel)
    reads w
  {
    Now(w) == old(Now(w)) && w.history == old(w.history)
  }

  /** The same since a loop was entered. */
  ghost predicate Since(w: Kernel, h0: seq<Moment>, s0: set<Path>, c0: bool)
    reads w
  {
    h0 <= w.history && s0 <= w.stuck && (c0 ==> w.cancelled) && (w.undisturbed ==> w.cancelled == c0)
  }

  /** Every state the disk passed through since `from`. */
  ghost predicate AllFaithful(h: seq<Moment>, from: nat, m0: Moment, src: Path, dest: Path, overwrite: bool) {
    forall i | from <= i < |h| :: Faithful(m0, h[i], src, dest, overwrite)
  }

  /** The state `m` with the staged file holding `bytes`. */
  ghost function WithBytes(m: Moment, temporary: Path, bytes: seq<byte>): Moment
    requires temporary in m.tree
  {
    Moment(m.tree[temporary := m.tree[temporary].(kind := Regular(bytes))], m.staged)
  }

  /** `m` is the state `m1` but for the staged file, which holds a prefix of the content. */
  ghost predicate PrefixStaged(m1: Moment, m: Moment, temporary: Path, content: seq<byte>) {
    && temporary in m1.tree && temporary in m.tree && m.tree[temporary].kind.Regular?
    && m.tree[temporary].kind.bytes <= content
    && m == WithBytes(m1, temporary, m.tree[temporary].kind.bytes)
  }

  ghost predicate AllPrefixStaged(h: seq<Moment>, from: nat, m1: Moment, temporary: Path, content: seq<byte>) {
    forall i | from <= i < |h| :: PrefixStaged(m1, h[i], temporary, content)
  }

  /** One more piece of the content keeps the staged file a prefix of it. */
  lemma PieceWritten(m1: Moment, m: Moment, m': Moment, temporary: Path, content: seq<byte>, from: nat, to: nat,
                     data: seq<byte>)
    requires temporary in m1.tree && from <= to <= |content| && data == content[from..to]
    requires m == WithBytes(m1, temporary, content[..from]) && m' == WithBytes(m, temporary, content[..from] + data)
    ensures m' == WithBytes(m1, temporary, content[..to])
  {
    assert content[..from] + content[from..to] == content[..to];
  }

  lemma BufferSlice(buffer: array<byte>, content: seq<byte>, done: nat, n: nat, from: nat, to: nat)
    requires n <= buffer.Length && done + n <= |content| && from <= to <= n
    requires buffer[..n] == content[done..done + n]
    ensures buffer[from..to] == content[done + from..done + to]
  {
    forall i | 0 <= i < to - from
      ensures buffer[from..to][i] == content[done + from..done + to][i]
    {
      assert buffer[from + i] == buffer[..n][from + i] == content[done..done + n][from + i];
    }
  }

  /** One write() of a part of the buffer: the staged file grows by what was taken. */
  method WriteOnce(w: Kernel, temporary: Path, buffer: array<byte>, written: nat, bytesRead: nat,
                   ghost m1: Moment, ghost content: seq<byte>, ghost done: nat)
    returns (chunk: int, errno: Errno)
    requires w.Valid() && written < bytesRead <= buffer.Length && done + bytesRead <= |content|
    requires buffer[..bytesRead] == content[done..done + bytesRead]
    requires temporary in m1.tree && Now(w) == WithBytes(m1, temporary, content[..done + written])
    requires !w.cancelled
    modifies w
    ensures w.Valid() && Progress(w) && w.interrupts <= old(w.interrupts) && chunk <= bytesRead - written
    ensures chunk < 0 ==> errno != Success && (errno == EINTR ==> w.interrupts < old(w.interrupts))
    ensures w.undisturbed ==> chunk > 0 || (chunk < 0 && errno == EINTR)
    ensures Now(w) == WithBytes(m1, temporary, content[..done + written + if chunk > 0 then chunk else 0])
    ensures w.history == old(w.history) || w.history == old(w.history) + [Now(w)]
  {
    ghost var m := Now(w);
    chunk, errno := w.Write(temporary, buffer, written, bytesRead);
    if chunk > 0 {
      PieceWritten(m1, m, Now(w), temporary, content, done + written, done + written + chunk,
                   buffer[written..written + chunk]) by {
        BufferSlice(buffer, content, done, bytesRead, written, written + chunk);
      }
    }
  }

  /** Writes buffer[..bytesRead] after the bytes already there. */
  method WriteChunk(w: Kernel, temporary: Path, buffer: array<byte>, bytesRead: nat,
                    ghost m1: Moment, ghost content: seq<byte>, ghost done: nat)
    returns (r: ItemResult)
    requires w.Valid() && bytesRead <= buffer.Length && done + bytesRead <= |content|
    requires buffer[..bytesRead] == content[done..done + bytesRead]
    requires temporary in m1.tree && Now(w) == WithBytes(m1, temporary, content[..done])
    modifies w
    ensures w.Valid() && Progress(w) && w.interrupts <= old(w.interrupts)
    ensures r == DONE || r == DONE.(cancelled := true) || (r.reason.Refused? && r == Failure(r.reason))
    ensures r.cancelled ==> w.cancelled
    ensures PrefixStaged(m1, Now(w), temporary, content)
    ensures AllPrefixStaged(w.history, |old(w.history)|, m1, temporary, content)
    ensures r.Complete() ==> Now(w) == WithBytes(m1, temporary, content[..done + bytesRead])
    ensures w.undisturbed && !old(w.cancelled) ==> r.Complete()
    ensures old(w.cancelled) && bytesRead > 0 ==> r.cancelled && Untouched(w)
  {
    r := DONE;
    var written := 0;
    ghost var h0, s0, c0, n0, before := w.history, w.stuck, w.cancelled, w.interrupts, Now(w);
    while written < bytesRead
      invariant w.Valid() && w.interrupts <= n0 && Since(w, h0, s0, c0)
      invariant r == DONE && written <= bytesRead
      invariant Now(w) == WithBytes(m1, temporary, content[..done + written])
      invariant AllPrefixStaged(w.history, |h0|, m1, temporary, content)
      invariant c0 ==> Now(w) == before && w.history == h0
      decreases bytesRead - written, w.interrupts
    {
      var c := w.LoadCancel();
      if c {
        r := r.(cancelled := true);
        break;
      }
      var chunk, errno := WriteOnce(w, temporary, buffer, written, bytesRead, m1, content, done);
      if chunk <= 0 {
        if chunk < 0 && errno == EINTR {
          continue;
        }
        r := Failure(Refused(if chunk == 0 then EIO else errno));
        break;
      }
      written := written + chunk;
    }
  }

  /** Streams the source into the staged file: at every moment the staged file is a prefix of the
      source, and on completion it is the source. */
  method StreamFile(w: Kernel, source: OpenFile, temporary: Path, ghost m1: Moment) returns (r: ItemResult)
    requires w.Valid() && source.offset == 0 && m1 == Now(w)
    requires source.path in w.tree && w.tree[source.path].kind.Regular? && source.path != temporary
    requires temporary in w.tree && w.tree[temporary].kind == Regular([])
    modifies w, source
    ensures w.Valid() && Progress(w)
    ensures r == DONE || r == DONE.(cancelled := true) || (r.reason.Refused? && r == Failure(r.reason))
    ensures r.cancelled ==> w.cancelled
    ensures PrefixStaged(m1, Now(w), temporary, m1.tree[source.path].kind.bytes)
    ensures AllPrefixStaged(w.history, |old(w.history)|, m1, temporary, m1.tree[source.path].kind.bytes)
    ensures r.Complete() ==> w.tree[temporary].kind == m1.tree[source.path].kind
    ensures w.undisturbed && !old(w.cancelled) ==> r.Complete()
    ensures old(w.cancelled) ==> r.cancelled && Untouched(w)
  {
    ghost var content := m1.tree[source.path].kind.bytes;
    r := DONE;
    var buffer := new byte[CHUNK_SIZE];
    assert m1.tree[temporary := m1.tree[temporary]] == m1.tree;
    ghost var h0, s0, c0 := w.history, w.stuck, w.cancelled;
    while r.Complete()
      invariant w.Valid() && Since(w, h0, s0, c0)
      invariant r == DONE || r == DONE.(cancelled := true) || (r.reason.Refused? && r == Failure(r.reason))
      invariant r.cancelled ==> w.cancelled
      invariant PrefixStaged(m1, Now(w), temporary, content)
      invariant AllPrefixStaged(w.history, |h0|, m1, temporary, content)
      invariant source.offset <= |content| && (w.undisturbed && !c0 ==> r.Complete())
      invariant r.Complete() ==> Now(w) == WithBytes(m1, temporary, content[..source.offset])
      invariant c0 ==> Now(w) == m1 && w.history == h0 && r.Complete()
      decreases r.Complete(), |content| - source.offset, w.interrupts
    {
      var c := w.LoadCancel();
      if c {
        r := r.(cancelled := true);
        break;
      }
      ghost var done := source.offset;
      var bytesRead, errno := w.Read(source, buffer);
      if bytesRead < 0 {
        if errno == EINTR {
          continue;
        }
        r := Failure(Refused(errno));
        break;
      }
      if bytesRead == 0 {
        assert content[..|content|] == content;
        break;
      }
      r := WriteChunk(w, temporary, buffer, bytesRead, m1, content, done);
    }
  }

  /** A name longer than all the given ones. */
  method Unused(names: set<Name>) returns (name: Name)
    ensures forall n | n in names :: |n| < |name|
  {
    name := "x";
    var rest := names;
    while rest != {}
      invariant rest <= names && forall n | n in names - rest :: |n| < |name|
      decreases rest
    {
      var n :| n in rest;
      rest := rest - {n};
      if |n| >= |name| {
        name := n + "x";
      }
    }
  }

  /** A name of its own beside the destination. Its random part is taken only when something disturbs. */
  method TemporarySibling(w: Kernel, destination: Path) returns (p: Path)
    ensures Parent(p) == Parent(destination) && p != destination
    ensures w.undisturbed ==> p !in w.tree
  {
    var uuid: string := *;
    p := Parent(destination) + [".holonight-transfer-" + uuid];
    if p == destination || w.undisturbed {
      ChildNamesListed(w.tree, Parent(destination));
      uuid := Unused(ChildNames(w.tree, Parent(destination)) + {BaseName(destination)});
      p := Parent(destination) + [".holonight-transfer-" + uuid];
      assert p[|p| - 1] == ".holonight-transfer-" + uuid;
    }
  }

  /** The outcome of a copy that left the disk as it found it. */
  lemma Unchanged(m0: Moment, stuck: set<Path>, src: Path, dest: Path, overwrite: bool, r: ItemResult)
    requires WellFormed(m0.tree)
    requires !r.copiesExist && !r.sourceRetained && (r.failed || r.cancelled)
    ensures CopyOutcome(m0, m0, stuck, src, dest, overwrite, r)
  {
  }

  /** unlink() of the temporary after a failure. */
  method DropTemporary(w: Kernel, temporary: Path, r: ItemResult,
                       ghost m0: Moment, ghost src: Path, ghost dest: Path, ghost overwrite: bool)
    requires w.Valid() && WithTemporary(m0, Now(w), temporary, dest)
    requires forall p | p in m0.staged :: p in m0.tree
    requires !r.copiesExist && !r.sourceRetained && (r.failed || r.cancelled)
    modifies w
    ensures w.Valid() && Progress(w)
    ensures CopyOutcome(m0, Now(w), w.stuck, src, dest, overwrite, r)
    ensures AllFaithful(w.history, |old(w.history)|, m0, src, dest, overwrite)
  {
    ghost var m := Now(w);
    var ignored := w.Unlink(temporary);
    if ignored == Success {
      TemporaryRemoved(m0, m, temporary, dest);
      Unchanged(m0, w.stuck, src, dest, overwrite, r);
      assert Now(w) == m0;
    }
  }

  /** The rename of a commit, if nobody has cancelled. */
  method RenameTemporary(w: Kernel, temporary: Path, destination: Path, overwrite: bool) returns (r: ItemResult)
    requires w.Valid() && Parent(temporary) == Parent(destination) && temporary != destination
    requires temporary in w.tree && (destination in w.tree ==> !SameEntry(w.tree[temporary], w.tree[destination]))
    modifies w
    ensures w.Valid() && Progress(w) && w.stuck == old(w.stuck) && (r.cancelled ==> w.cancelled)
    ensures w.touched == old(w.touched)
    ensures w.undisturbed && !old(w.cancelled) && CanCommit(old(w.tree), temporary, destination, overwrite) ==>
      r.Complete()
    ensures r == DONE || r == DONE.(cancelled := true) || (r.failed && r == Failure(r.reason))
    ensures !r.Complete() ==> Untouched(w)
    ensures old(w.cancelled) ==> r.cancelled
    ensures r.Complete() ==>
      && CanRename(old(w.tree), temporary, destination) && (overwrite || destination !in old(w.tree))
      && w.tree == Renamed(old(w.tree), temporary, destination)
      && w.staged == old(w.staged) - Below(old(w.tree), temporary) - {destination}
      && w.history == old(w.history) + [Now(w)]
  {
    r := DONE;
    var c := w.LoadCancel();
    if c {
      r := r.(cancelled := true);
    } else {
      if CanCommit(w.tree, temporary, destination, overwrite) {
        CommitsWhenFree(w.tree, temporary, destination, overwrite);
      }
      var errno := w.Rename(temporary, destination, !overwrite);
      if errno != Success {
        r := Failure(Refused(errno));
      }
    }
  }

  /** Gives the finished temporary its final name, atomically replacing a leaf when overwriting. */
  method CommitTemporary(w: Kernel, temporary: Path, destination: Path, overwrite: bool,
                         ghost m0: Moment, ghost src: Path)
    returns (r: ItemResult)
    requires w.Valid() && WithTemporary(m0, Now(w), temporary, destination)
    requires forall p | p in m0.staged :: p in m0.tree
    requires src in m0.tree && w.tree[temporary].kind == m0.tree[src].kind && Plain(m0.tree[src].kind)
    requires forall p | p in m0.tree :: !SameEntry(m0.tree[p], w.tree[temporary])
    modifies w
    ensures w.Valid() && Progress(w) && (r.cancelled ==> w.cancelled) && (old(w.cancelled) ==> r.cancelled)
    ensures r.Complete() ==>
      destination in w.tree && w.tree[destination] == old(w.tree)[temporary] && w.touched == old(w.touched)
    ensures w.undisturbed && !old(w.cancelled) && CanCommit(old(w.tree), temporary, destination, overwrite) ==>
      r.Complete()
    ensures CopyOutcome(m0, Now(w), w.stuck, src, destination, overwrite, r)
    ensures AllFaithful(w.history, |old(w.history)|, m0, src, destination, overwrite)
  {
    ghost var m := Now(w);
    r := RenameTemporary(w, temporary, destination, overwrite);
    if !r.Complete() {
      DropTemporary(w, temporary, r, m0, src, destination, overwrite);
    } else {
      r := r.(copiesExist := true);
      CommitReached(m0, m, Now(w), temporary, src, destination, overwrite);
      CommitOutcome(m0, m, Now(w), w.stuck, temporary, src, destination, overwrite);
    }
  }

  /** A link is copied as a link, never followed. */
  method CopySymlink(w: Kernel, src: Path, dest: Path, overwrite: bool) returns (r: ItemResult)
    requires w.Valid() && src in w.tree && w.tree[src].kind.Symlink?
    modifies w
    ensures w.Valid() && Progress(w) && (r.cancelled ==> w.cancelled)
    ensures w.undisturbed && !old(w.cancelled) && Ready(old(w.tree), src, dest, overwrite) ==> r.Complete()
    ensures w.undisturbed && !Plain(old(w.tree)[src].kind) ==> r == Failure(TargetTooLong) && Now(w) == old(Now(w))
    ensures CopyOutcome(old(Now(w)), Now(w), w.stuck, src, dest, overwrite, r)
    ensures AllFaithful(w.history, |old(w.history)|, old(Now(w)), src, dest, overwrite)
  {
    ghost var m0 := Now(w);
    var target, errno := w.ReadLink(src);
    if target.None? {
      r := Failure(Refused(errno));
      Unchanged(m0, w.stuck, src, dest, overwrite, r);
      return;
    }
    if |target.value| >= PATH_MAX {
      r := Failure(TargetTooLong);
      Unchanged(m0, w.stuck, src, dest, overwrite, r);
      return;
    }
    var temporary := TemporarySibling(w, dest);
    errno := w.CreateExclusive(temporary, Symlink(target.value));
    if errno != Success {
      r := Failure(Refused(errno));
      Unchanged(m0, w.stuck, src, dest, overwrite, r);
      return;
    }
    TemporaryIsFaithful(m0, Now(w), temporary, src, dest, overwrite);
    r := CommitTemporary(w, temporary, dest, overwrite, m0, src);
  }

  /** While the content is being streamed only the temporary differs from the first state. */
  lemma StreamingIsFaithful(m0: Moment, m1: Moment, m: Moment, temporary: Path, content: seq<byte>,
                            src: Path, dest: Path, overwrite: bool)
    requires WithTemporary(m0, m1, temporary, dest) && PrefixStaged(m1, m, temporary, content)
    requires WellFormed(m.tree)
    ensures WithTemporary(m0, m, temporary, dest) && Faithful(m0, m, src, dest, overwrite)
    ensures m.tree[temporary].dev == m1.tree[temporary].dev && m.tree[temporary].ino == m1.tree[temporary].ino
  {
    assert m.tree == m0.tree[temporary := m.tree[temporary]];
    TemporaryIsFaithful(m0, m, temporary, src, dest, overwrite);
  }

  lemma StreamedStatesFaithful(h: seq<Moment>, from: nat, m0: Moment, m1: Moment, temporary: Path,
                               content: seq<byte>, src: Path, dest: Path, overwrite: bool)
    requires WithTemporary(m0, m1, temporary, dest) && AllPrefixStaged(h, from, m1, temporary, content)
    ensures AllFaithful(h, from, m0, src, dest, overwrite)
  {
    forall i | from <= i < |h|
      ensures Faithful(m0, h[i], src, dest, overwrite)
    {
      var kind := h[i].tree[temporary].kind;
      StreamingIsFaithful(m0, m1, h[i], temporary, content, src, dest, overwrite);
    }
  }

  /** The file is still the one that was looked up, and there is a place for it. */
  ghost predicate ReadyFor(t: Tree, src: Path, dest: Path, srcStat: Node, overwrite: bool) {
    Ready(t, src, dest, overwrite) && t[src] == srcStat && srcStat.kind.Regular?
  }

  /** Opens the source and makes sure that it is still the file that was looked up. */
  method OpenSource(w: Kernel, src: Path, srcStat: Node) returns (source: OpenFile?, r: ItemResult)
    requires w.Valid() && src in w.tree
    ensures source == null ==> r.failed && r == Failure(r.reason)
    ensures source != null ==>
      fresh(source) && source.path == src && source.offset == 0 && w.tree[src].kind.Regular?
      && SameEntry(w.tree[src], srcStat)
    ensures w.undisturbed && w.tree[src].kind.Regular? && SameEntry(w.tree[src], srcStat) ==> source != null
  {
    r := DONE;
    var errno;
    source, errno := w.OpenExisting(src);
    if source == null {
      return null, Failure(Refused(errno));
    }
    var found := w.Fstat(source);
    if found.None? || !found.value.kind.Regular? || found.value.dev != srcStat.dev ||
       found.value.ino != srcStat.ino
    {
      return null, Failure(SourceChanged);
    }
  }

  /** The file has its times and its mode, was brought to the disk as it stands and closed without an error. */
  ghost predicate Finished(touched: set<Touched>, t: Tree, p: Path) {
    && p in t && Has(touched, t[p], Times) && Has(touched, t[p], Mode)
    && Has(touched, t[p], Sync) && Has(touched, t[p], Close)
  }

  /** The directory has its times and its mode. */
  ghost predicate Dressed(touched: set<Touched>, t: Tree, p: Path) {
    p in t && Has(touched, t[p], Times) && Has(touched, t[p], Mode)
  }

  /** A copied file is finished, a directory that was made has its times and its mode. */
  ghost predicate Polished(t0: Tree, t: Tree, touched: set<Touched>, src: Path, dest: Path) {
    src in t0 ==>
      && (t0[src].kind.Regular? ==> Finished(touched, t, dest))
      && (t0[src].kind.Directory? && dest !in t0 ==> Dressed(touched, t, dest))
  }

  /** Streams into a temporary, sets its metadata, and commits it. */
  method CopyRegularFile(w: Kernel, src: Path, dest: Path, srcStat: Node, overwrite: bool) returns (r: ItemResult)
    requires w.Valid() && src in w.tree
    modifies w
    ensures w.Valid() && Progress(w) && (r.cancelled ==> w.cancelled)
    ensures w.undisturbed && !old(w.cancelled) && ReadyFor(old(w.tree), src, dest, srcStat, overwrite) ==> r.Complete()
    ensures r.Complete() ==> Finished(w.touched, w.tree, dest)
    ensures CopyOutcome(old(Now(w)), Now(w), w.stuck, src, dest, overwrite, r)
    ensures AllFaithful(w.history, |old(w.history)|, old(Now(w)), src, dest, overwrite)
  {
    ghost var m0 := Now(w);
    var source;
    source, r := OpenSource(w, src, srcStat);
    if source == null {
      Unchanged(m0, w.stuck, src, dest, overwrite, r);
      return;
    }
    var temporary := TemporarySibling(w, dest);
    var errno := w.CreateExclusive(temporary, Regular([]));
    if errno != Success {
      r := Failure(Refused(errno));
      Unchanged(m0, w.stuck, src, dest, overwrite, r);
      return;
    }
    TemporaryIsFaithful(m0, Now(w), temporary, src, dest, overwrite);
    r := FillAndCommit(w, source, temporary, dest, overwrite, m0);
  }

  /** The second half of CopyRegularFile: the temporary exists and is empty. */
  method FillAndCommit(w: Kernel, source: OpenFile, temporary: Path, dest: Path, overwrite: bool, ghost m0: Moment)
    returns (r: ItemResult)
    requires w.Valid() && WithTemporary(m0, Now(w), temporary, dest)
    requires w.tree[temporary].kind == Regular([])
    requires forall p | p in m0.staged :: p in m0.tree
    requires forall p | p in m0.tree :: !SameEntry(m0.tree[p], w.tree[temporary])
    requires source.offset == 0 && source.path in m0.tree && m0.tree[source.path].kind.Regular?
    modifies w, source
    ensures w.Valid() && Progress(w) && (r.cancelled ==> w.cancelled)
    ensures w.undisturbed && !old(w.cancelled) && CanCommit(old(w.tree), temporary, dest, overwrite) ==> r.Complete()
    ensures r.Complete() ==> Finished(w.touched, w.tree, dest)
    ensures CopyOutcome(m0, Now(w), w.stuck, source.path, dest, overwrite, r)
    ensures AllFaithful(w.history, |old(w.history)|, m0, source.path, dest, overwrite)
  {
    ghost var src := source.path;
    ghost var m1 := Now(w);
    r := StreamFile(w, source, temporary, m1);
    StreamedStatesFaithful(w.history, |old(w.history)|, m0, m1, temporary, m1.tree[src].kind.bytes,
                           src, dest, overwrite);
    StreamingIsFaithful(m0, m1, Now(w), temporary, m1.tree[src].kind.bytes, src, dest, overwrite);
    r := FinishFile(w, temporary, r);
    if !r.Complete() {
      DropTemporary(w, temporary, r, m0, src, dest, overwrite);
      return;
    }
    r := CommitTemporary(w, temporary, dest, overwrite, m0, source.path);
  }

  /** Times, mode, fsync and close of the staged file. */
  method FinishFile(w: Kernel, temporary: Path, streamed: ItemResult) returns (r: ItemResult)
    requires w.Valid() && temporary in w.tree
    requires streamed == DONE || streamed.failed || streamed.cancelled
    modifies w`touched
    ensures w.undisturbed ==> r == streamed
    ensures r == streamed || (streamed == DONE && r.failed && r == Failure(r.reason))
    ensures r.Complete() ==> Finished(w.touched, w.tree, temporary)
  {
    r := streamed;
    if r.Complete() {
      var errno := w.TouchEntry(temporary, Times);
      if errno == Success {
        errno := w.TouchEntry(temporary, Mode);
      }
      if errno == Success {
        errno := w.TouchEntry(temporary, Sync);
      }
      if errno != Success {
        r := Failure(Refused(errno));
      }
    }
    var closed := w.TouchEntry(temporary, Close);
    if closed != Success && r.Complete() {
      r := Failure(Refused(closed));
    }
  }

  /** lstat() of destDir/itemName. */
  method DestinationExists(w: Kernel, destDir: Path, itemName: Name) returns (b: bool)
    requires w.Valid()
    ensures b ==> destDir + [itemName] in w.tree
    ensures w.undisturbed && destDir + [itemName] in w.tree ==> b
  {
    var node, errno := w.Lstat(destDir + [itemName]);
    b := node.Some?;
  }

  ghost predicate ReadyDirectory(t: Tree, dest: Path, overwrite: bool) {
    IsDirectory(t, Parent(dest)) && (dest in t ==> overwrite && t[dest].kind.Directory?)
  }

  /** An existing directory is merged into when overwriting; otherwise a fresh one is made. */
  method PrepareDestinationDirectory(w: Kernel, dest: Path, overwrite: bool) returns (r: ItemResult)
    requires w.Valid()
    modifies w
    ensures w.Valid() && Progress(w) && w.staged == old(w.staged)
    ensures r.failed ==> r == Failure(r.reason) && Now(w) == old(Now(w)) && w.history == old(w.history)
    ensures !r.failed ==>
      && r == DONE.(copiesExist := r.copiesExist)
      && dest in w.tree && w.tree[dest].kind.Directory?
      && if r.copiesExist then
           && dest !in old(w.tree) && w.tree == old(w.tree)[dest := w.tree[dest]]
           && w.history == old(w.history) + [Now(w)]
         else
           overwrite && Now(w) == old(Now(w)) && w.history == old(w.history)
    ensures w.undisturbed && ReadyDirectory(old(w.tree), dest, overwrite) ==> !r.failed
  {
    var node, errno := w.Lstat(dest);
    if node.Some? {
      if overwrite && node.value.kind.Directory? {
        return DONE;
      }
      return Failure(Refused(EEXIST));
    }
    errno := w.Mkdir(dest);
    if errno != Success {
      return Failure(Refused(errno));
    }
    return DONE.(copiesExist := true);
  }

  /** A child whose name is free has a place to go to. */
  lemma ChildFits(m0: Moment, m: Moment, src: Path, dest: Path, overwrite: bool, r: ItemResult, stuck: set<Path>,
                  done: set<Name>, name: Name)
    requires Underway(m0, m, stuck, src, dest, overwrite, r, done)
    requires src + [name] in m0.tree && dest + [name] !in m.tree
    ensures src + [name] in m.tree && Receptive(m.tree, src + [name], dest + [name], false)
    ensures dest + [name] !in m0.tree
  {
    SourceIntact(m0, m, src, dest, overwrite);
    assert Parent(dest + [name]) == dest;
  }

  ghost predicate Repeatless(names: seq<Name>) {
    forall i, j | 0 <= i < j < |names| :: names[i] != names[j]
  }

  lemma {:induction false} NotYetDelivered(names: seq<Name>, pos: nat, i: nat)
    requires pos <= i < |names| && Repeatless(names)
    ensures names[i] !in Delivered(names, pos)
    decreases pos
  {
    if pos > 0 {
      NotYetDelivered(names, pos - 1, i);
    }
  }

  /** One turn of the loop over the children: skip the child if its name is taken, else copy it. */
  method CopyChild(w: Kernel, src: Path, dest: Path, overwrite: bool, name: Name, sofar: ItemResult,
                   ghost m0: Moment, ghost done: set<Name>)
    returns (r: ItemResult)
    requires w.Valid() && Underway(m0, Now(w), w.stuck, src, dest, overwrite, sofar, done)
    requires src + [name] in m0.tree && !w.cancelled
    modifies w
    ensures w.Valid() && Progress(w)
    ensures r.cancelled ==> w.cancelled && CopyOutcome(m0, Now(w), w.stuck, src, dest, overwrite, r)
    ensures !r.cancelled ==> Underway(m0, Now(w), w.stuck, src, dest, overwrite, r, done + {name})
    ensures AllFaithful(w.history, |old(w.history)|, m0, src, dest, overwrite)
    ensures w.undisturbed && !old(w.cancelled) && Merging(m0, old(Now(w)), src, dest, sofar, done) && name !in done ==>
      !r.cancelled && Merging(m0, Now(w), src, dest, r, done + {name})
    decreases Below(m0.tree, src), 0
  {
    ghost var m, stuck := Now(w), w.stuck;
    ghost var good := w.undisturbed && !w.cancelled && Merging(m0, m, src, dest, sofar, done) && name !in done;
    var taken := DestinationExists(w, dest, name);
    if taken {
      ChildSkipped(m0, m, stuck, src, dest, overwrite, sofar, name, done);
      if good {
        SkipMerges(m0, m, src, dest, sofar, done, name);
      }
      return sofar.(skipped := sofar.skipped + [src + [name]]);
    }
    ChildSeparate(m0, m, src, dest, overwrite, name);
    if good {
      ChildFits(m0, m, src, dest, overwrite, sofar, stuck, done, name);
    }
    var child := CopyEntryImpl(w, src + [name], dest + [name], false);
    LiftHistory(w.history, |old(w.history)|, m0, m, src, dest, overwrite, name);
    r := TakeChild(sofar, child, src + [name]);
    if child.cancelled {
      ChildCancelled(m0, m, Now(w), stuck, w.stuck, src, dest, overwrite, sofar, child, name, done);
      r := r.(cancelled := true);
    } else {
      ChildDone(m0, m, Now(w), stuck, w.stuck, src, dest, overwrite, sofar, child, name, done);
      if good {
        ChildMerges(m0, m, Now(w), w.stuck, src, dest, overwrite, sofar, child, done, name);
      }
    }
  }

  /** The listing has come to its end, or reading it has failed. */
  lemma ListingEnds(m0: Moment, m: Moment, stuck: set<Path>, src: Path, dest: Path, overwrite: bool, r: ItemResult,
                    names: seq<Name>, pos: nat, errors: seq<FailedItem>)
    requires pos <= |names| && Listing(m0.tree, src, names)
    requires Underway(m0, m, stuck, src, dest, overwrite, r, Delivered(names, pos))
    requires if errors == [] then pos == |names| else errors[0].path == src
    ensures CopyOutcome(m0, m, stuck, src, dest, overwrite, r.(nested := r.nested + errors))
    ensures errors == [] && Merging(m0, m, src, dest, r, Delivered(names, pos)) ==>
      Exact(m0, m, src, dest, r.(nested := r.nested + errors))
  {
    if errors != [] {
      assert errors[0] in errors;
    } else {
      AllDelivered(names);
      assert r.(nested := r.nested + errors) == r;
      if Merging(m0, m, src, dest, r, Delivered(names, pos)) {
        MergedIsExact(m0, m, src, dest, r, Delivered(names, pos));
      }
    }
    DirectoryDone(m0, m, stuck, src, dest, overwrite, r, Delivered(names, pos), errors);
  }

  /** One readdir() call and what follows from it; `finished` says that the loop ends here. */
  method CopyNext(w: Kernel, src: Path, dest: Path, overwrite: bool, names: seq<Name>, pos: nat, sofar: ItemResult,
                  ghost m0: Moment)
    returns (finished: bool, r: ItemResult)
    requires w.Valid() && pos <= |names| && Listing(m0.tree, src, names)
    requires Repeatless(names)
    requires Underway(m0, Now(w), w.stuck, src, dest, overwrite, sofar, Delivered(names, pos))
    modifies w
    ensures w.Valid() && Progress(w)
    ensures AllFaithful(w.history, |old(w.history)|, m0, src, dest, overwrite)
    ensures finished ==> CopyOutcome(m0, Now(w), w.stuck, src, dest, overwrite, r)
    ensures finished && r.cancelled ==> w.cancelled
    ensures finished && !r.cancelled ==> dest in w.tree
    ensures old(w.cancelled) ==> finished && Untouched(w)
    ensures !finished ==>
      pos < |names| && Underway(m0, Now(w), w.stuck, src, dest, overwrite, r, Delivered(names, pos + 1))
    ensures w.undisturbed && !old(w.cancelled) && Merging(m0, old(Now(w)), src, dest, sofar, Delivered(names, pos)) ==>
      if finished then Exact(m0, Now(w), src, dest, r)
      else Merging(m0, Now(w), src, dest, r, Delivered(names, pos + 1))
    decreases Below(m0.tree, src), 1
  {
    var item := w.ReadDir(src, names, pos);
    if !item.Entry? {
      var errors := if item.ReadError? then [FailedItem(src, Refused(item.errno))] else [];
      ListingEnds(m0, Now(w), w.stuck, src, dest, overwrite, sofar, names, pos, errors);
      return true, sofar.(nested := sofar.nested + errors);
    }
    var c := w.LoadCancel();
    if c {
      return true, sofar.(cancelled := true);
    }
    NotYetDelivered(names, pos, pos);
    r := CopyChild(w, src, dest, overwrite, item.name, sofar, m0, Delivered(names, pos));
    finished := r.cancelled;
  }

  lemma JoinFaithful(h: seq<Moment>, h': seq<Moment>, from: nat, m0: Moment, src: Path, dest: Path, overwrite: bool)
    requires h <= h' && from <= |h|
    requires AllFaithful(h, from, m0, src, dest, overwrite) && AllFaithful(h', |h|, m0, src, dest, overwrite)
    ensures AllFaithful(h', from, m0, src, dest, overwrite)
  {
    forall i | from <= i < |h'|
      ensures Faithful(m0, h'[i], src, dest, overwrite)
    {
      if i < |h| {
        assert h'[i] == h[i];
      }
    }
  }

  /** The loop over readdir(). */
  method CopyChildren(w: Kernel, src: Path, dest: Path, overwrite: bool, names: seq<Name>, sofar: ItemResult,
                      ghost m0: Moment)
    returns (r: ItemResult)
    requires w.Valid() && Underway(m0, Now(w), w.stuck, src, dest, overwrite, sofar, {})
    requires Listing(m0.tree, src, names) && Repeatless(names)
    modifies w
    ensures w.Valid() && Progress(w)
    ensures if r.cancelled then w.cancelled else dest in w.tree
    ensures old(w.cancelled) ==> Untouched(w)
    ensures CopyOutcome(m0, Now(w), w.stuck, src, dest, overwrite, r)
    ensures AllFaithful(w.history, |old(w.history)|, m0, src, dest, overwrite)
    ensures w.undisturbed && !old(w.cancelled) && Merging(m0, old(Now(w)), src, dest, sofar, {}) ==>
      Exact(m0, Now(w), src, dest, r)
    decreases Below(m0.tree, src), 2
  {
    r := sofar;
    var pos := 0;
    ghost var done: set<Name> := {};
    ghost var h0, s0, c0 := w.history, w.stuck, w.cancelled;
    ghost var before := Now(w);
    ghost var good := w.undisturbed && !w.cancelled && Merging(m0, before, src, dest, sofar, {});
    while true
      invariant pos <= |names| && done == Delivered(names, pos)
      invariant w.Valid() && Since(w, h0, s0, c0)
      invariant AllFaithful(w.history, |h0|, m0, src, dest, overwrite)
      invariant Underway(m0, Now(w), w.stuck, src, dest, overwrite, r, done)
      invariant good ==> Merging(m0, Now(w), src, dest, r, done)
      invariant c0 ==> Now(w) == before && w.history == h0
      decreases |names| - pos
    {
      ghost var h := w.history;
      var finished;
      finished, r := CopyNext(w, src, dest, overwrite, names, pos, r, m0);
      JoinFaithful(h, w.history, |h0|, m0, src, dest, overwrite);
      if finished {
        return;
      }
      pos := pos + 1;
      done := Delivered(names, pos);
    }
  }

  /** Copies a directory child by child; a child whose name is taken is skipped and recorded. */
  method CopyDirectoryTree(w: Kernel, src: Path, dest: Path, overwrite: bool) returns (r: ItemResult)
    requires w.Valid() && Separate(w.tree, src, dest) && w.tree[src].kind.Directory?
    modifies w
    ensures w.Valid() && Progress(w) && (r.cancelled ==> w.cancelled)
    ensures r.Complete() ==> Polished(old(w.tree), w.tree, w.touched, src, dest)
    ensures CopyOutcome(old(Now(w)), Now(w), w.stuck, src, dest, overwrite, r)
    ensures AllFaithful(w.history, |old(w.history)|, old(Now(w)), src, dest, overwrite)
    ensures w.undisturbed && !old(w.cancelled) && Receptive(old(w.tree), src, dest, overwrite) ==>
      Exact(old(Now(w)), Now(w), src, dest, r)
    decreases Below(w.tree, src), 5
  {
    ghost var m0 := Now(w);
    r := PrepareDestinationDirectory(w, dest, overwrite);
    var created := r.copiesExist;
    if r.failed {
      Unchanged(m0, w.stuck, src, dest, overwrite, r);
      return;
    }
    Prepared(m0, Now(w), w.stuck, src, dest, overwrite, created);
    SourceIntact(m0, Now(w), src, dest, overwrite);
    NothingMerged(m0, Now(w), src, dest, r);
    r := CopyContents(w, src, dest, overwrite, created, r, m0);
  }

  /** The rest of CopyDirectoryTree: the destination directory is there. */
  method CopyContents(w: Kernel, src: Path, dest: Path, overwrite: bool, created: bool, sofar: ItemResult,
                      ghost m0: Moment)
    returns (r: ItemResult)
    requires w.Valid() && Underway(m0, Now(w), w.stuck, src, dest, overwrite, sofar, {}) && sofar.Complete()
    requires SameBelow(m0.tree, w.tree, src)
    modifies w
    ensures w.Valid() && Progress(w) && (r.cancelled ==> w.cancelled)
    ensures created && r.Complete() ==> Dressed(w.touched, w.tree, dest)
    ensures CopyOutcome(m0, Now(w), w.stuck, src, dest, overwrite, r)
    ensures AllFaithful(w.history, |old(w.history)|, m0, src, dest, overwrite)
    ensures w.undisturbed && !old(w.cancelled) && Merging(m0, old(Now(w)), src, dest, sofar, {}) ==>
      Exact(m0, Now(w), src, dest, r)
    decreases Below(m0.tree, src), 4
  {
    var names, errno := w.OpenDir(src);
    if names.None? {
      return sofar.(failed := true, reason := Refused(errno));
    }
    r := CopyListed(w, src, dest, overwrite, created, names.value, sofar, m0);
  }

  /** The children, and then the times and the mode of the directory if it was made. */
  method CopyListed(w: Kernel, src: Path, dest: Path, overwrite: bool, created: bool, names: seq<Name>,
                    sofar: ItemResult, ghost m0: Moment)
    returns (r: ItemResult)
    requires w.Valid() && Underway(m0, Now(w), w.stuck, src, dest, overwrite, sofar, {})
    requires Listing(m0.tree, src, names) && Repeatless(names)
    modifies w
    ensures w.Valid() && Progress(w) && (r.cancelled ==> w.cancelled)
    ensures created && r.Complete() ==> Dressed(w.touched, w.tree, dest)
    ensures CopyOutcome(m0, Now(w), w.stuck, src, dest, overwrite, r)
    ensures AllFaithful(w.history, |old(w.history)|, m0, src, dest, overwrite)
    ensures w.undisturbed && !old(w.cancelled) && Merging(m0, old(Now(w)), src, dest, sofar, {}) ==>
      Exact(m0, Now(w), src, dest, r)
    decreases Below(m0.tree, src), 3
  {
    r := CopyChildren(w, src, dest, overwrite, names, sofar, m0);
    if created && !r.cancelled {
      r := FinishDirectory(w, src, dest, overwrite, r, m0);
    }
  }

  /** Times and mode of a directory that was made. */
  method FinishDirectory(w: Kernel, src: Path, dest: Path, overwrite: bool, sofar: ItemResult, ghost m0: Moment)
    returns (r: ItemResult)
    requires w.Valid() && dest in w.tree && CopyOutcome(m0, Now(w), w.stuck, src, dest, overwrite, sofar)
    modifies w`touched
    ensures CopyOutcome(m0, Now(w), w.stuck, src, dest, overwrite, r) && r.cancelled == sofar.cancelled
    ensures r.Complete() ==> Dressed(w.touched, w.tree, dest)
    ensures w.undisturbed ==> r == sofar
  {
    r := sofar;
    var errno := w.TouchEntry(dest, Times);
    if errno == Success {
      errno := w.TouchEntry(dest, Mode);
    }
    if errno != Success {
      MoreNested(m0, Now(w), w.stuck, src, dest, overwrite, r, FailedItem(dest, Refused(errno)));
      r := r.(nested := r.nested + [FailedItem(dest, Refused(errno))]);
    }
  }

  lemma MoreNested(m0: Moment, m: Moment, stuck: set<Path>, src: Path, dest: Path, overwrite: bool, r: ItemResult,
                   item: FailedItem)
    requires CopyOutcome(m0, m, stuck, src, dest, overwrite, r)
    ensures CopyOutcome(m0, m, stuck, src, dest, overwrite, r.(nested := r.nested + [item]))
  {
    var r' := r.(nested := r.nested + [item]);
    assert forall f | f in r.nested :: f in r'.nested;
    assert forall p :: Covered(r, p) ==> Covered(r', p);
  }

  /** The part of CopyEntryImpl for what is not a directory. */
  method CopyLeaf(w: Kernel, src: Path, dest: Path, srcStat: Node, overwrite: bool) returns (r: ItemResult)
    requires w.Valid() && src in w.tree && w.tree[src] == srcStat && !srcStat.kind.Directory?
    modifies w
    ensures w.Valid() && Progress(w) && (r.cancelled ==> w.cancelled)
    ensures r.Complete() ==> Polished(old(w.tree), w.tree, w.touched, src, dest)
    ensures CopyOutcome(old(Now(w)), Now(w), w.stuck, src, dest, overwrite, r)
    ensures AllFaithful(w.history, |old(w.history)|, old(Now(w)), src, dest, overwrite)
    ensures w.undisturbed && !old(w.cancelled) && Receptive(old(w.tree), src, dest, overwrite) ==>
      Exact(old(Now(w)), Now(w), src, dest, r)
  {
    ghost var m0 := Now(w);
    if srcStat.kind.Symlink? {
      r := CopySymlink(w, src, dest, overwrite);
    } else if srcStat.kind.Special? {
      r := Failure(UnsupportedType);
      Unchanged(m0, w.stuck, src, dest, overwrite, r);
    } else {
      r := CopyRegularFile(w, src, dest, srcStat, overwrite);
    }
    if w.undisturbed && !w.cancelled && Receptive(m0.tree, src, dest, overwrite) {
      LeafIsExact(m0, Now(w), w.stuck, src, dest, overwrite, r);
    }
  }

  method CopyEntryImpl(w: Kernel, src: Path, dest: Path, overwrite: bool) returns (r: ItemResult)
    requires w.Valid() && Separate(w.tree, src, dest)
    modifies w
    ensures w.Valid() && Progress(w) && (r.cancelled ==> w.cancelled)
    ensures old(w.cancelled) ==> r.cancelled && Untouched(w)
    ensures r.Complete() ==> Polished(old(w.tree), w.tree, w.touched, src, dest)
    ensures CopyOutcome(old(Now(w)), Now(w), w.stuck, src, dest, overwrite, r)
    ensures AllFaithful(w.history, |old(w.history)|, old(Now(w)), src, dest, overwrite)
    ensures w.undisturbed && !old(w.cancelled) && Receptive(old(w.tree), src, dest, overwrite) ==>
      Exact(old(Now(w)), Now(w), src, dest, r)
    decreases Below(w.tree, src), 6
  {
    ghost var m0 := Now(w);
    r := DONE;
    var c := w.LoadCancel();
    if c {
      r := r.(cancelled := true);
      Unchanged(m0, w.stuck, src, dest, overwrite, r);
      return;
    }
    var srcStat, errno := w.Lstat(src);
    if srcStat.None? {
      r := r.(failed := true, reason := Refused(errno));
      Unchanged(m0, w.stuck, src, dest, overwrite, r);
      return;
    }
    if srcStat.value.kind.Directory? {
      r := CopyDirectoryTree(w, src, dest, overwrite);
    } else {
      r := CopyLeaf(w, src, dest, srcStat.value, overwrite);
    }
  }

  /** The states a child's copy passes through are states of the whole copy. */
  lemma LiftHistory(h: seq<Moment>, from: nat, m0: Moment, m: Moment, src: Path, dest: Path, overwrite: bool,
                    name: Name)
    requires Separate(m0.tree, src, dest) && m0.tree[src].kind.Directory?
    requires overwrite || dest !in m0.tree
    requires Faithful(m0, m, src, dest, overwrite)
    requires AllFaithful(h, from, m, src + [name], dest + [name], false)
    ensures AllFaithful(h, from, m0, src, dest, overwrite)
  {
    forall i | from <= i < |h|
      ensures Faithful(m0, h[i], src, dest, overwrite)
    {
      LiftFaithful(m0, m, h[i], src, dest, overwrite, name);
    }
  }

  /** Walks up from the destination to the first ancestor that exists and compares that one. */
  method DestinationWithinSource(w: Kernel, src: Path, dest: Path) returns (b: bool)
    requires w.Valid() && src in w.tree
    ensures b <==> src <= Parent(dest)
  {
    var ancestor := Parent(dest);
    while true
      invariant ancestor <= Parent(dest)
      invariant src <= Parent(dest) ==> src <= ancestor
      decreases |ancestor|
    {
      if ancestor in w.tree {
        return src <= ancestor;
      }
      assert src != ancestor;
      var parent := Parent(ancestor);
      if parent == ancestor {
        break;
      }
      ancestor := parent;
    }
    return false;
  }

  /** The endpoints allow the transfer. */
  ghost predicate Transferable(t: Tree, src: Path, dest: Path, overwrite: bool) {
    && src in t && src != dest && (t[src].kind.Directory? ==> !(src <= Parent(dest)))
    && (dest in t ==>
          overwrite && !SameEntry(t[src], t[dest]) && t[src].kind.Directory? == t[dest].kind.Directory?)
  }

  /** What is checked before anything is touched. An lstat() of the destination that is refused
      reads as "does not exist". */
  method ValidateEndpoints(w: Kernel, src: Path, dest: Path, overwrite: bool) returns (r: ItemResult)
    requires w.Valid()
    ensures r == DONE || r == Failure(r.reason)
    ensures (r.failed <==> r != DONE) && !r.reason.SourceDeletionFailed?
    ensures !r.failed ==> Separate(w.tree, src, dest)
    ensures w.undisturbed ==> (!r.failed <==> Transferable(w.tree, src, dest, overwrite))
    ensures w.undisturbed && r.reason.Refused? ==>
      if src in w.tree then r.reason.errno == EEXIST && dest in w.tree && !overwrite else r.reason.errno == ENOENT
    ensures r.reason.SameSourceAndDestination? ==>
      src in w.tree && (src == dest || (dest in w.tree && SameEntry(w.tree[src], w.tree[dest])))
    ensures r.reason.DestinationInsideSource? ==> src in w.tree && w.tree[src].kind.Directory? && src <= Parent(dest)
    ensures r.reason.IncompatibleEntries? ==>
      && overwrite && src in w.tree && dest in w.tree
      && w.tree[src].kind.Directory? != w.tree[dest].kind.Directory?
  {
    var source, errno := w.Lstat(src);
    if source.None? {
      return Failure(Refused(errno));
    }
    var destination, _ := w.Lstat(dest);
    if src == dest || (destination.Some? && source.value.dev == destination.value.dev
                       && source.value.ino == destination.value.ino)
    {
      return Failure(SameSourceAndDestination);
    }
    if source.value.kind.Directory? {
      var within := DestinationWithinSource(w, src, dest);
      if within {
        return Failure(DestinationInsideSource);
      }
    }
    if destination.Some? && !overwrite {
      return Failure(Refused(EEXIST));
    }
    if destination.Some? && source.value.kind.Directory? != destination.value.kind.Directory? {
      return Failure(IncompatibleEntries);
    }
    return DONE;
  }

  /** The endpoints allow the transfer, and there is a directory to copy into. */
  ghost predicate Startable(t: Tree, src: Path, dest: Path, overwrite: bool) {
    Transferable(t, src, dest, overwrite) && IsDirectory(t, Parent(dest))
  }

  /** Exactly what an undisturbed copy completes. */
  ghost predicate Copyable(t: Tree, src: Path, dest: Path, overwrite: bool) {
    Transferable(t, src, dest, overwrite) && Clean(t, src, dest, overwrite)
  }

  /** A complete copy shows that nothing stood in its way. */
  lemma CompleteMeansClean(m0: Moment, m: Moment, stuck: set<Path>, src: Path, dest: Path, overwrite: bool,
                           r: ItemResult)
    requires Separate(m0.tree, src, dest) && CopyOutcome(m0, m, stuck, src, dest, overwrite, r) && r.Complete()
    requires forall p | p in m0.staged :: p in m0.tree
    requires dest in m0.tree ==> m0.tree[dest].kind.Directory? == m0.tree[src].kind.Directory?
    ensures Clean(m0.tree, src, dest, overwrite)
  {
    assert forall p :: !Covered(r, p);
    assert Copied(m0.tree, m.tree, src, dest, src);
    assert Rebase(src, src, dest) == dest;
    var parent := Parent(dest);
    assert parent in m.tree && m.tree[parent].kind.Directory?;
    forall n | src + [n] in m0.tree
      ensures dest + [n] !in m0.tree
    {
      assert Copied(m0.tree, m.tree, src, dest, src + [n]);
      assert Rebase(src + [n], src, dest) == dest + [n];
    }
  }

  /** Copies `src` to `dest`. */
  method CopyEntry(w: Kernel, src: Path, dest: Path, overwrite: bool) returns (r: ItemResult)
    requires w.Valid()
    modifies w
    ensures w.Valid() && Progress(w) && (r.cancelled ==> w.cancelled)
    ensures old(w.cancelled) ==> r.cancelled && !r.Complete() && Untouched(w)
    ensures r.Complete() ==> Polished(old(w.tree), w.tree, w.touched, src, dest)
    ensures CopyOutcome(old(Now(w)), Now(w), w.stuck, src, dest, overwrite, r)
    ensures AllFaithful(w.history, |old(w.history)|, old(Now(w)), src, dest, overwrite)
    ensures w.undisturbed && !old(w.cancelled) ==> (r.Complete() <==> Copyable(old(w.tree), src, dest, overwrite))
    ensures w.undisturbed && !old(w.cancelled) && Startable(old(w.tree), src, dest, overwrite) ==>
      Exact(old(Now(w)), Now(w), src, dest, r)
  {
    ghost var m0 := Now(w);
    var c := w.LoadCancel();
    if c {
      r := DONE.(cancelled := true);
      Unchanged(m0, w.stuck, src, dest, overwrite, r);
      return;
    }
    var validation := ValidateEndpoints(w, src, dest, overwrite);
    if validation.failed {
      Unchanged(m0, w.stuck, src, dest, overwrite, validation);
      return validation;
    }
    r := CopyEntryImpl(w, src, dest, overwrite);
    if w.undisturbed && r.Complete() {
      CompleteMeansClean(m0, Now(w), w.stuck, src, dest, overwrite, r);
    }
    if w.undisturbed && !w.cancelled && Copyable(m0.tree, src, dest, overwrite) {
      CleanIsComplete(m0, Now(w), src, dest, overwrite, r);
    }
  }
}
