/** The state file on the disk: saving replaces it in one step, loading reads what was saved last. */
module StateFile {
  import opened Paths
  import opened World
  import opened Wrappers
  import opened CopyService
  import S = State
  import T = TransferSpec

  const FILE_NAME := "state.toml"

  /** How text is written as bytes, and read back. */
  ghost predicate RoundTrips(encode: string -> seq<byte>, decode: seq<byte> -> string) {
    forall s :: decode(encode(s)) == s
  }

  /** Nothing has changed but that directories at or above `dir` were made. */
  ghost predicate OnlyMade(t0: Tree, t: Tree, dir: Path) {
    && (forall p | p in t0 :: p in t && t[p] == t0[p])
    && (forall p | p in t && p !in t0 :: p <= dir && t[p].kind.Directory?)
  }

  ghost predicate AlwaysOnlyMade(h: seq<Moment>, from: nat, t0: Tree, dir: Path) {
    forall i | from <= i < |h| :: OnlyMade(t0, h[i].tree, dir)
  }

  /** All of the path that exists is directories. */
  ghost predicate Makeable(t: Tree, dir: Path) {
    forall p | p in t && p <= dir :: t[p].kind.Directory?
  }

  lemma ProperPrefix(p: Path, dir: Path)
    requires p <= dir && p != dir
    ensures p <= Parent(dir)
  {
    assert p == dir[..|p|] && dir[..|dir|] == dir;
  }

  lemma MadeAbove(t: Tree, dir: Path)
    requires WellFormed(t)
    ensures dir in t ==> (Makeable(t, dir) <==> t[dir].kind.Directory?)
    ensures dir !in t ==> dir != [] && (Makeable(t, dir) <==> Makeable(t, Parent(dir)))
  {
    if dir in t {
      forall p | p in t && p <= dir && p != dir
        ensures t[p].kind.Directory?
      {
        Ancestors(t, p, dir);
      }
    } else {
      forall p | p in t && p <= dir
        ensures p <= Parent(dir)
      {
        ProperPrefix(p, dir);
      }
      forall p | p in t && p <= Parent(dir)
        ensures p <= dir
      {
        assert Parent(dir) <= dir;
      }
    }
  }

  /** Creates the directory and those above it that are missing. */
  method MakeStateDirectory(w: Kernel, dir: Path) returns (ok: bool)
    requires w.Valid()
    modifies w
    ensures w.Valid() && Progress(w) && w.staged == old(w.staged) && w.stuck == old(w.stuck)
    ensures OnlyMade(old(w.tree), w.tree, dir) && AlwaysOnlyMade(w.history, |old(w.history)|, old(w.tree), dir)
    ensures w.undisturbed ==> (ok <==> Makeable(old(w.tree), dir)) && (ok ==> IsDirectory(w.tree, dir))
    decreases |dir|
  {
    ghost var t0 := w.tree;
    MadeAbove(t0, dir);
    var info, errno := w.Lstat(dir);
    if info.Some? {
      return info.value.kind.Directory?;
    }
    var parent := Parent(dir);
    if parent != dir {
      ok := MakeStateDirectory(w, parent);
      if !ok {
        return;
      }
    }
    errno := w.Mkdir(dir);
    ok := errno == Success || errno == EEXIST;
  }

  /** The file stands as it stood, or holds the new content, whole. */
  ghost predicate OldOrNew(t0: Tree, t: Tree, file: Path, bytes: seq<byte>) {
    if file in t then (file in t0 && t[file] == t0[file]) || t[file].kind == Regular(bytes) else file !in t0
  }

  /** A state of a save: the file is old or new; nothing else that existed has changed; and what else is new is a
      directory on the way to the file or a temporary beside it. */
  ghost predicate Atomic(t0: Tree, m: Moment, file: Path, bytes: seq<byte>) {
    && OldOrNew(t0, m.tree, file, bytes)
    && (forall p | p in t0 && p != file :: p in m.tree && m.tree[p] == t0[p])
    && (forall p | p in m.tree && p !in t0 && p != file ::
          || (p <= Parent(file) && m.tree[p].kind.Directory?)
          || (p in m.staged && Parent(p) == Parent(file)))
  }

  ghost predicate AlwaysAtomic(h: seq<Moment>, from: nat, t0: Tree, file: Path, bytes: seq<byte>) {
    forall i | from <= i < |h| :: Atomic(t0, h[i], file, bytes)
  }

  lemma MadeIsAtomic(t0: Tree, m: Moment, file: Path, bytes: seq<byte>)
    requires OnlyMade(t0, m.tree, Parent(file)) && file != []
    ensures Atomic(t0, m, file, bytes) && (file in m.tree <==> file in t0)
  {
    assert |Parent(file)| < |file|;
  }

  /** A temporary beside the file changes nothing about it. */
  lemma StagedIsAtomic(t0: Tree, m: Moment, m': Moment, temporary: Path, file: Path, bytes: seq<byte>)
    requires file != [] && OnlyMade(t0, m.tree, Parent(file)) && T.WithTemporary(m, m', temporary, file)
    ensures Atomic(t0, m', file, bytes) && (file in m'.tree <==> file in t0)
  {
    MadeIsAtomic(t0, m, file, bytes);
    forall p | p in m'.tree && p !in t0 && p != file
      ensures (p <= Parent(file) && m'.tree[p].kind.Directory?) || (p in m'.staged && Parent(p) == Parent(file))
    {
      assert p == temporary || p in m.tree;
    }
  }

  lemma CommittedIsAtomic(t0: Tree, m: Moment, m': Moment, file: Path, bytes: seq<byte>, node: Node)
    requires file != [] && OnlyMade(t0, m.tree, Parent(file)) && node.kind == Regular(bytes)
    requires m'.tree == m.tree[file := node]
    ensures Atomic(t0, m', file, bytes)
  {
    MadeIsAtomic(t0, m, file, bytes);
  }

  /** A file can be put there, replacing one that is there. */
  ghost predicate Writable(t: Tree, file: Path) {
    IsDirectory(t, Parent(file)) && (file in t ==> !t[file].kind.Directory?)
  }

  lemma JoinAtomic(h: seq<Moment>, h': seq<Moment>, from: nat, t0: Tree, file: Path, bytes: seq<byte>)
    requires h <= h' && from <= |h|
    requires AlwaysAtomic(h, from, t0, file, bytes) && AlwaysAtomic(h', |h|, t0, file, bytes)
    ensures AlwaysAtomic(h', from, t0, file, bytes)
  {
    forall i | from <= i < |h'|
      ensures Atomic(t0, h'[i], file, bytes)
    {
      if i < |h| {
        assert h'[i] == h[i];
      }
    }
  }

  /** The rename that makes the finished temporary the file. */
  method CommitFile(w: Kernel, temporary: Path, file: Path, ghost m: Moment) returns (ok: bool)
    requires w.Valid() && T.WithTemporary(m, Now(w), temporary, file)
    requires forall p | p in m.tree :: !SameEntry(m.tree[p], w.tree[temporary])
    requires w.tree[temporary].dev == w.tree[Parent(file)].dev
    modifies w
    ensures w.Valid() && Progress(w) && w.stuck == old(w.stuck)
    ensures ok ==> w.tree == m.tree[file := old(w.tree)[temporary]] && w.staged <= old(w.staged) - {temporary}
    ensures ok ==> w.history == old(w.history) + [Now(w)]
    ensures !ok ==> Now(w) == old(Now(w)) && w.history == old(w.history)
    ensures w.undisturbed ==> (ok <==> Writable(m.tree, file))
  {
    ghost var m1 := Now(w);
    assert Parent(file) in m1.tree && m1.tree[Parent(file)].kind.Directory?;
    if Writable(m.tree, file) {
      T.CommitsWhenFree(m1.tree, temporary, file, true);
    }
    var errno := w.Rename(temporary, file, false);
    if errno == Success {
      T.CommitTree(m, m1, temporary, file);
      assert temporary in Below(m1.tree, temporary);
    }
    return errno == Success;
  }

  /** Takes the temporary back after a failure. */
  method DropStaged(w: Kernel, temporary: Path, file: Path, bytes: seq<byte>, ghost t0: Tree, ghost m: Moment)
    requires w.Valid() && file != [] && OnlyMade(t0, m.tree, Parent(file))
    requires T.WithTemporary(m, Now(w), temporary, file) && forall p | p in m.staged :: p in m.tree
    modifies w
    ensures w.Valid() && Progress(w)
    ensures AlwaysAtomic(w.history, |old(w.history)|, t0, file, bytes) && Atomic(t0, Now(w), file, bytes)
    ensures (file in w.tree <==> file in t0) && (file in t0 ==> w.tree[file] == t0[file])
    ensures forall p | p in w.staged && p !in m.staged :: p in w.stuck
  {
    ghost var m1 := Now(w);
    StagedIsAtomic(t0, m, m1, temporary, file, bytes);
    var ignored := w.Unlink(temporary);
    if ignored == Success {
      T.TemporaryRemoved(m, m1, temporary, file);
      MadeIsAtomic(t0, m, file, bytes);
    }
  }

  /** The last part of SaveFile: all is written, if `complete`. */
  method CommitOrDrop(w: Kernel, complete: bool, temporary: Path, file: Path, bytes: seq<byte>, ghost t0: Tree,
                      ghost m: Moment)
    returns (ok: bool)
    requires w.Valid() && file != [] && OnlyMade(t0, m.tree, Parent(file))
    requires T.WithTemporary(m, Now(w), temporary, file) && (complete ==> w.tree[temporary].kind == Regular(bytes))
    requires forall p | p in m.staged :: p in m.tree
    requires forall p | p in m.tree :: !SameEntry(m.tree[p], w.tree[temporary])
    requires w.tree[temporary].dev == w.tree[Parent(file)].dev
    modifies w
    ensures w.Valid() && Progress(w)
    ensures AlwaysAtomic(w.history, |old(w.history)|, t0, file, bytes) && Atomic(t0, Now(w), file, bytes)
    ensures ok ==> file in w.tree && w.tree[file].kind == Regular(bytes)
    ensures !ok ==> (file in w.tree <==> file in t0) && (file in t0 ==> w.tree[file] == t0[file])
    ensures forall p | p in w.staged && p !in m.staged :: p in w.stuck
    ensures w.undisturbed && complete ==> (ok <==> Writable(m.tree, file))
  {
    ghost var node := w.tree[temporary];
    ok := false;
    if complete {
      ok := CommitFile(w, temporary, file, m);
    }
    if ok {
      CommittedIsAtomic(t0, m, Now(w), file, bytes, node);
    } else {
      DropStaged(w, temporary, file, bytes, t0, m);
    }
  }

  /** The second half of SaveFile: the temporary exists and is empty. */
  method WriteAndCommit(w: Kernel, temporary: Path, file: Path, bytes: seq<byte>, ghost t0: Tree, ghost m: Moment)
    returns (ok: bool)
    requires w.Valid() && file != [] && OnlyMade(t0, m.tree, Parent(file))
    requires T.WithTemporary(m, Now(w), temporary, file) && w.tree[temporary].kind == Regular([])
    requires forall p | p in m.staged :: p in m.tree
    requires forall p | p in m.tree :: !SameEntry(m.tree[p], w.tree[temporary])
    requires w.tree[temporary].dev == w.tree[Parent(file)].dev
    modifies w
    ensures w.Valid() && Progress(w)
    ensures AlwaysAtomic(w.history, |old(w.history)|, t0, file, bytes) && Atomic(t0, Now(w), file, bytes)
    ensures ok ==> file in w.tree && w.tree[file].kind == Regular(bytes)
    ensures !ok ==> (file in w.tree <==> file in t0) && (file in t0 ==> w.tree[file] == t0[file])
    ensures forall p | p in w.staged && p !in m.staged :: p in w.stuck
    ensures w.undisturbed ==> (ok <==> Writable(m.tree, file))
  {
    var errno := w.WriteWhole(temporary, bytes);
    StagedIsAtomic(t0, m, Now(w), temporary, file, bytes);
    ghost var h := w.history;
    ok := CommitOrDrop(w, errno == Success, temporary, file, bytes, t0, m);
    JoinAtomic(h, w.history, |old(w.history)|, t0, file, bytes);
  }

  /** QSaveFile: writes a temporary beside the file, and gives it the file's name when all is written. */
  method SaveFile(w: Kernel, file: Path, bytes: seq<byte>, ghost t0: Tree) returns (ok: bool)
    requires w.Valid() && file != [] && OnlyMade(t0, w.tree, Parent(file))
    modifies w
    ensures w.Valid() && Progress(w)
    ensures AlwaysAtomic(w.history, |old(w.history)|, t0, file, bytes) && Atomic(t0, Now(w), file, bytes)
    ensures ok ==> file in w.tree && w.tree[file].kind == Regular(bytes)
    ensures !ok ==> (file in w.tree <==> file in t0) && (file in t0 ==> w.tree[file] == t0[file])
    ensures forall p | p in w.staged && p !in old(w.staged) :: p in w.stuck
    ensures w.undisturbed ==> (ok <==> Writable(old(w.tree), file))
  {
    ghost var m := Now(w);
    MadeIsAtomic(t0, m, file, bytes);
    var temporary := TemporarySibling(w, file);
    var errno := w.CreateExclusive(temporary, Regular([]));
    if errno != Success {
      return false;
    }
    StagedIsAtomic(t0, m, Now(w), temporary, file, bytes);
    ok := WriteAndCommit(w, temporary, file, bytes, t0, m);
  }

  method ReadAll(w: Kernel, file: Path) returns (bytes: Option<seq<byte>>)
    requires w.Valid() && file in w.tree
    ensures bytes.Some? ==> w.tree[file].kind == Regular(bytes.value)
    ensures w.undisturbed && w.tree[file].kind.Regular? ==> bytes.Some?
  {
    var errno := w.Inert();
    return if errno == Success && w.tree[file].kind.Regular? then Some(w.tree[file].kind.bytes) else None;
  }

  /** What the disk has stored. */
  ghost function Recorded(t: Tree, file: Path, decode: seq<byte> -> string, clean: string -> string): Option<string> {
    if file in t && t[file].kind.Regular? then S.Stored(decode(t[file].kind.bytes), clean) else None
  }

  class StateStore {
    const directory: Path

    constructor (directory: Path)
      ensures this.directory == directory
    {
      this.directory := directory;
    }

    function File(): Path {
      directory + [FILE_NAME]
    }

    /** `warned`: something is stored but cannot be used. */
    method Load(w: Kernel, decode: seq<byte> -> string, clean: string -> string)
      returns (lastLocation: Option<string>, warned: bool)
      requires w.Valid()
      ensures lastLocation.Some? ==> lastLocation == Recorded(w.tree, File(), decode, clean)
      ensures warned ==> lastLocation.None? && File() in w.tree
      ensures w.undisturbed ==>
        lastLocation == Recorded(w.tree, File(), decode, clean)
        && (warned <==> File() in w.tree && lastLocation.None?)
    {
      var found, errno := w.Lstat(File());
      if found.None? {
        return None, false;
      }
      var file;
      file, errno := w.OpenExisting(File());
      if file == null {
        return None, true;
      }
      var bytes := ReadAll(w, File());
      if bytes.None? {
        return None, true;
      }
      var document := S.Parse(decode(bytes.value));
      if document.None? {
        return None, true;
      }
      if ("", "version") !in document.value || document.value[("", "version")] != S.Integer(S.VERSION) {
        return None, true;
      }
      if ("navigation", "last_location") !in document.value {
        return None, true;
      }
      var location := document.value[("navigation", "last_location")];
      if !location.Text? || !S.IsAbsolute(location.text) {
        return None, true;
      }
      return Some(clean(location.text)), false;
    }

    /** Whatever calls are refused, at every moment the file is the old one or the whole new one, and nothing
        else that was there is touched; undisturbed, it is saved wherever it can be. */
    method Save(w: Kernel, lastLocation: string, encode: string -> seq<byte>) returns (ok: bool)
      requires w.Valid()
      modifies w
      ensures w.Valid() && Progress(w)
      ensures AlwaysAtomic(w.history, |old(w.history)|, old(w.tree), File(), encode(S.Content(lastLocation)))
      ensures Atomic(old(w.tree), Now(w), File(), encode(S.Content(lastLocation)))
      ensures ok ==> File() in w.tree && w.tree[File()].kind == Regular(encode(S.Content(lastLocation)))
      ensures !ok ==>
        && (File() in w.tree <==> File() in old(w.tree))
        && (File() in old(w.tree) ==> w.tree[File()] == old(w.tree)[File()])
      ensures forall p | p in w.staged && p !in old(w.staged) :: p in w.stuck
      ensures w.undisturbed ==>
        (ok <==> Makeable(old(w.tree), directory) && !IsDirectory(old(w.tree), File()))
    {
      ghost var t0, h := w.tree, w.history;
      ghost var bytes := encode(S.Content(lastLocation));
      assert Parent(File()) == directory;
      var made := MakeStateDirectory(w, directory);
      MadeIsAtomic(t0, Now(w), File(), bytes);
      forall i | |h| <= i < |w.history|
        ensures Atomic(t0, w.history[i], File(), bytes)
      {
        MadeIsAtomic(t0, w.history[i], File(), bytes);
      }
      if !made {
        return false;
      }
      ok := SaveFile(w, File(), encode(S.Content(lastLocation)), t0);
    }
  }

  /** In every state that a save passes through, completed or not, what is stored is what was stored before or
      the location being saved, which reads back cleaned if it is absolute; never anything in between. */
  lemma SavedOrAsBefore(t0: Tree, m: Moment, file: Path, lastLocation: string, encode: string -> seq<byte>,
                        decode: seq<byte> -> string, clean: string -> string)
    requires RoundTrips(encode, decode) && Atomic(t0, m, file, encode(S.Content(lastLocation)))
    ensures var found := Recorded(m.tree, file, decode, clean);
      || found == Recorded(t0, file, decode, clean)
      || found == if S.IsAbsolute(lastLocation) then Some(clean(lastLocation)) else None
  {
    S.LoadUndoesSave(lastLocation, clean);
    assert decode(encode(S.Content(lastLocation))) == S.Content(lastLocation);
  }

  /** After a completed save the location is what a load finds. */
  lemma SavedIsFound(t: Tree, file: Path, lastLocation: string, encode: string -> seq<byte>,
                     decode: seq<byte> -> string, clean: string -> string)
    requires RoundTrips(encode, decode) && file in t && t[file].kind == Regular(encode(S.Content(lastLocation)))
    ensures Recorded(t, file, decode, clean) ==
      if S.IsAbsolute(lastLocation) then Some(clean(lastLocation)) else None
  {
    S.LoadUndoesSave(lastLocation, clean);
    assert decode(encode(S.Content(lastLocation))) == S.Content(lastLocation);
  }
}
