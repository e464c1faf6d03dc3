/** The world one file operation runs in: a filesystem whose every call may be refused, the
    cancellation flag, and a ghost record of every state the disk passes through. */
module World {
  import opened Paths
  import opened Wrappers

  newtype byte = x: int | 0 <= x < 256

  datatype Errno = Success | ENOENT | EEXIST | EXDEV | EINTR | EIO | Other(code: nat)

  datatype Kind = Directory | Regular(bytes: seq<byte>) | Symlink(target: string) | Special

  /** What lstat() tells about an entry: device, inode and type with contents. */
  datatype Node = Node(dev: nat, ino: nat, kind: Kind)

  type Tree = map<Path, Node>

  /** One state of the disk: the tree, and which of its entries were made under a name of their own
      (open with O_EXCL, symlink) and not yet renamed or removed. */
  datatype Moment = Moment(tree: Tree, staged: set<Path>)

  /** What is done to an entry besides filling it: its times or its mode are set, it is brought to the disk, or it is
      closed without an error. */
  datatype Touch = Times | Mode | Sync | Close

  /** This was done to the entry of the inode number, when it was of this kind and had these contents. */
  datatype Touched = Touched(ino: nat, touch: Touch, kind: Kind)

  ghost predicate Has(touched: set<Touched>, n: Node, touch: Touch) {
    Touched(n.ino, touch, n.kind) in touched
  }

  datatype DirItem = End | ReadError(errno: Errno) | Entry(name: Name)

  ghost predicate WellFormed(t: Tree) {
    [] in t && forall p {:trigger Parent(p)} | p in t :: Parent(p) in t && t[Parent(p)].kind.Directory?
  }

  /** Inode numbers below `n` are taken; only leaves are staged. */
  ghost predicate Sound(t: Tree, staged: set<Path>, n: nat) {
    && WellFormed(t)
    && (forall p | p in t :: t[p].ino < n)
    && (forall p | p in staged :: p in t && !t[p].kind.Directory?)
  }

  predicate IsDirectory(t: Tree, p: Path) {
    p in t && t[p].kind.Directory?
  }

  ghost predicate SameEntry(a: Node, b: Node) {
    a.dev == b.dev && a.ino == b.ino
  }

  /** The entries at or below a path. */
  ghost function Below(t: Tree, p: Path): set<Path> {
    set q | q in t && p <= q
  }

  /** Every ancestor of an entry is a directory of the tree. */
  lemma {:induction false} Ancestors(t: Tree, a: Path, p: Path)
    requires WellFormed(t) && p in t && a <= p
    ensures a in t && (a != p ==> t[a].kind.Directory?)
    decreases |p|
  {
    if a != p {
      assert a <= Parent(p);
      Ancestors(t, a, Parent(p));
    }
  }

  /** rename(2): the entries below `a` move below `b`, whatever stood at `b` is replaced. */
  function Renamed(t: Tree, a: Path, b: Path): Tree {
    map q | q in (set p | p in t && !(a <= p) && p != b) + (set p | p in t && a <= p :: Rebase(p, a, b)) ::
      if b <= q && Rebase(q, b, a) in t then t[Rebase(q, b, a)] else if q in t then t[q] else Node(0, 0, Special)
  }

  ghost predicate CanRename(t: Tree, a: Path, b: Path) {
    && a in t && a != b
    && !(a <= b)
    && Parent(b) in t && t[Parent(b)].kind.Directory?
    && t[a].dev == t[Parent(b)].dev
    && (forall p | p in t && b <= p :: p == b)
    && (b in t ==> t[a].kind.Directory? == t[b].kind.Directory?)
  }

  ghost predicate OtherDevice(t: Tree, a: Path, b: Path) {
    a in t && IsDirectory(t, Parent(b)) && t[a].dev != t[Parent(b)].dev
  }

  lemma RenamedAt(t: Tree, a: Path, b: Path, q: Path)
    requires CanRename(t, a, b)
    ensures q in Renamed(t, a, b) <==> ((b <= q && Rebase(q, b, a) in t) || (!(a <= q) && !(b <= q) && q in t))
    ensures q in Renamed(t, a, b) && b <= q ==> Renamed(t, a, b)[q] == t[Rebase(q, b, a)]
    ensures q in Renamed(t, a, b) && !(b <= q) ==> q in t && Renamed(t, a, b)[q] == t[q]
  {
    if b <= q {
      RebaseBack(q, b, a);
      var p := Rebase(q, b, a);
      if p in t {
        assert Rebase(p, a, b) == q;
      }
      forall p0 | p0 in t && a <= p0 && Rebase(p0, a, b) == q
        ensures p0 == p
      {
        RebaseBack(p0, a, b);
      }
    } else {
      forall p0 | p0 in t && a <= p0
        ensures Rebase(p0, a, b) != q
      {
        RebaseBack(p0, a, b);
      }
    }
  }

  lemma RenamedWellFormed(t: Tree, a: Path, b: Path)
    requires WellFormed(t) && CanRename(t, a, b)
    ensures WellFormed(Renamed(t, a, b))
  {
    var r := Renamed(t, a, b);
    RenamedAt(t, a, b, []);
    Ancestors(t, [], a);
    assert b != [] by { assert [] <= a; }
    assert a != [] by { assert [] <= b; }
    forall q {:trigger Parent(q)} | q in r
      ensures Parent(q) in r && r[Parent(q)].kind.Directory?
    {
      RenamedParent(t, a, b, q);
    }
  }

  lemma RenamedParent(t: Tree, a: Path, b: Path, q: Path)
    requires WellFormed(t) && CanRename(t, a, b) && a != [] && b != [] && q in Renamed(t, a, b)
    ensures Parent(q) in Renamed(t, a, b) && Renamed(t, a, b)[Parent(q)].kind.Directory?
  {
    RenamedAt(t, a, b, q);
    RenamedAt(t, a, b, Parent(q));
    if b <= q {
      if q == b {
        assert Rebase(q, b, a) == a;
        assert !(b <= Parent(b));
        assert !(a <= Parent(b));
      } else {
        RebaseParent(q, b, a);
      }
    } else {
      assert !(b <= Parent(q)) && (a <= Parent(q) ==> a <= q);
    }
  }

  lemma RenamedSound(t: Tree, a: Path, b: Path, staged: set<Path>, n: nat)
    requires Sound(t, staged, n) && CanRename(t, a, b)
    ensures Sound(Renamed(t, a, b), staged - Below(t, a) - {b}, n)
  {
    RenamedWellFormed(t, a, b);
    forall p | p in Renamed(t, a, b)
      ensures Renamed(t, a, b)[p].ino < n
    {
      RenamedAt(t, a, b, p);
    }
    forall p | p in staged - Below(t, a) - {b}
      ensures p in Renamed(t, a, b) && !Renamed(t, a, b)[p].kind.Directory?
    {
      RenamedAt(t, a, b, p);
    }
  }

  ghost predicate EmptyDirectory(t: Tree, p: Path) {
    p != [] && IsDirectory(t, p) && forall q | q in t && p <= q :: q == p
  }

  /** An entry that is no directory has nothing below it. */
  lemma LeafIsAlone(t: Tree, p: Path)
    requires WellFormed(t) && p in t && !t[p].kind.Directory?
    ensures p != [] && forall q | q in t && p <= q :: q == p
  {
    assert Parent([]) == [];
    forall q | q in t && p <= q
      ensures q == p
    {
      Ancestors(t, p, q);
    }
  }

  /** An open descriptor: the entry it refers to and its file offset. */
  class OpenFile {
    const path: Path
    var offset: nat
    constructor (p: Path)
      ensures path == p && offset == 0
    {
      path := p;
      offset := 0;
    }
  }

  /** The names already delivered. */
  ghost function Delivered(names: seq<Name>, pos: nat): set<Name>
    requires pos <= |names|
  {
    if pos == 0 then {} else Delivered(names, pos - 1) + {names[pos - 1]}
  }

  lemma {:induction false} AllDelivered(names: seq<Name>)
    ensures forall n | n in names :: n in Delivered(names, |names|)
  {
    forall i | 0 <= i < |names|
      ensures names[i] in Delivered(names, |names|)
    {
      DeliveredAt(names, i, |names|);
    }
  }

  lemma {:induction false} DeliveredAt(names: seq<Name>, i: nat, pos: nat)
    requires i < pos <= |names|
    ensures names[i] in Delivered(names, pos)
    decreases pos
  {
    if i < pos - 1 {
      DeliveredAt(names, i, pos - 1);
    }
  }

  ghost predicate ListsChildren(t: Tree, p: Path, names: set<Name>) {
    forall n :: n in names <==> p + [n] in t
  }

  /** `names` is what readdir() gives for `p`. */
  ghost predicate Listing(t: Tree, p: Path, names: seq<Name>) {
    forall n {:trigger p + [n]} :: n in names <==> p + [n] in t
  }

  function ChildNames(t: Tree, p: Path): set<Name> {
    set q | q in t && q != [] && Parent(q) == p :: q[|q| - 1]
  }

  lemma ChildNamesListed(t: Tree, p: Path)
    ensures ListsChildren(t, p, ChildNames(t, p))
  {
    forall n
      ensures n in ChildNames(t, p) <==> p + [n] in t
    {
      if p + [n] in t {
        assert Parent(p + [n]) == p && (p + [n])[|p|] == n;
      }
      if n in ChildNames(t, p) {
        var q :| q in t && q != [] && Parent(q) == p && q[|q| - 1] == n;
        assert q == p + [n];
      }
    }
  }

  /** Some order of a set of names. */
  method Enumerate(names: set<Name>) returns (listed: seq<Name>)
    ensures forall n :: n in listed <==> n in names
    ensures forall i, j | 0 <= i < j < |listed| :: listed[i] != listed[j]
  {
    listed := [];
    var rest := names;
    while rest != {}
      invariant rest <= names
      invariant forall n :: n in listed <==> n in names && n !in rest
      invariant forall i, j | 0 <= i < j < |listed| :: listed[i] != listed[j]
      decreases rest
    {
      var n :| n in rest;
      rest := rest - {n};
      listed := listed + [n];
    }
  }

  class Kernel {
    /** No call is refused, and nobody raises the flag; interruptions and short transfers still happen. */
    const undisturbed: bool
    /** Any paths: only at these does the system refuse to look up, to list or to remove an entry. */
    const troubled: iset<Path>
    var tree: Tree
    var cancelled: bool
    var nextIno: nat
    /** How many more calls will be interrupted by a signal. */
    var interrupts: nat
    ghost var staged: set<Path>
    /** Paths that unlink() refused to remove. */
    ghost var stuck: set<Path>
    ghost var history: seq<Moment>
    ghost var touched: set<Touched>

    ghost predicate Valid()
      reads `tree, `staged, `nextIno
    {
      Sound(tree, staged, nextIno)
    }

    /** What every call keeps: nothing happens to the disk. */
    twostate predicate Quiet()
      reads this
    {
      && tree == old(tree) && staged == old(staged) && stuck == old(stuck) && history == old(history)
      && nextIno == old(nextIno) && interrupts == old(interrupts) && touched == old(touched)
      && (old(cancelled) ==> cancelled) && (undisturbed ==> cancelled == old(cancelled))
    }

    /** The disk took one step. */
    twostate predicate Step()
      reads this
    {
      && history == old(history) + [Moment(tree, staged)] && touched == old(touched)
      && old(nextIno) <= nextIno && (old(cancelled) ==> cancelled)
      && (undisturbed ==> cancelled == old(cancelled))
    }

    /** The errno with which the system refuses a call, if it does. */
    method Refusal() returns (refused: Errno)
      ensures undisturbed ==> refused == Success
    {
      refused := *;
      if undisturbed {
        refused := Success;
      }
    }

    /** The same for a call that looks up, lists or removes the entry `p`. */
    method RefusalAt(p: Path) returns (refused: Errno)
      ensures undisturbed || p !in troubled ==> refused == Success
    {
      refused := Refusal();
      if p !in troubled {
        refused := Success;
      }
    }

    /** cancel->load(): the flag may have been raised since, and is never lowered. */
    method LoadCancel() returns (b: bool)
      requires Valid()
      modifies this`cancelled
      ensures b == cancelled && (old(cancelled) ==> cancelled)
      ensures undisturbed ==> cancelled == old(cancelled)
    {
      var raised: bool := *;
      cancelled := cancelled || (raised && !undisturbed);
      b := cancelled;
    }

    method Lstat(p: Path) returns (r: Option<Node>, err: Errno)
      requires Valid()
      ensures r.Some? ==> p in tree && r.value == tree[p] && err == Success
      ensures r.None? ==> err != Success && (p !in tree ==> err == ENOENT)
      ensures (undisturbed || p !in troubled) && p in tree ==> r.Some?
    {
      var refused := RefusalAt(p);
      if p !in tree {
        return None, ENOENT;
      }
      if refused != Success {
        return None, refused;
      }
      return Some(tree[p]), Success;
    }

    /** open() of an existing entry for reading. */
    method OpenExisting(p: Path) returns (f: OpenFile?, err: Errno)
      requires Valid()
      ensures f == null ==> err != Success
      ensures f != null ==> fresh(f) && f.path == p && f.offset == 0 && p in tree
      ensures undisturbed && p in tree ==> f != null
    {
      var refused := Refusal();
      if refused != Success {
        return null, refused;
      }
      if p !in tree {
        return null, ENOENT;
      }
      f := new OpenFile(p);
      return f, Success;
    }

    method Fstat(f: OpenFile) returns (r: Option<Node>)
      requires Valid() && f.path in tree
      ensures r.Some? ==> r.value == tree[f.path]
      ensures undisturbed ==> r.Some?
    {
      var refused := Refusal();
      return if refused == Success then Some(tree[f.path]) else None;
    }

    /** futimens(), fchmod(), fsync() or close() of an open file, or utimensat() or chmod() of an entry. */
    method TouchEntry(p: Path, touch: Touch) returns (err: Errno)
      requires Valid()
      modifies this`touched
      ensures err == Success ==> p in tree && touched == old(touched) + {Touched(tree[p].ino, touch, tree[p].kind)}
      ensures err != Success ==> touched == old(touched)
      ensures undisturbed && p in tree ==> err == Success
    {
      err := Refusal();
      if p !in tree {
        return ENOENT;
      }
      if err == Success {
        touched := touched + {Touched(tree[p].ino, touch, tree[p].kind)};
      }
    }

    /** A call that changes nothing this model sees. */
    method Inert() returns (err: Errno)
      ensures undisturbed ==> err == Success
    {
      err := Refusal();
    }

    method Mkdir(p: Path) returns (err: Errno)
      requires Valid()
      modifies this
      ensures Valid()
      ensures stuck == old(stuck)
      ensures err != Success ==> Quiet()
      ensures err == Success ==>
        && Step() && staged == old(staged)
        && p !in old(tree) && Parent(p) in old(tree) && old(tree)[Parent(p)].kind.Directory?
        && tree == old(tree)[p := Node(old(tree)[Parent(p)].dev, old(nextIno), Directory)]
      ensures undisturbed && p !in old(tree) && IsDirectory(old(tree), Parent(p)) ==> err == Success
    {
      var refused := Refusal();
      if refused != Success {
        return refused;
      }
      if p in tree {
        return EEXIST;
      }
      if Parent(p) !in tree || tree[Parent(p)].kind != Directory {
        return ENOENT;
      }
      tree := tree[p := Node(tree[Parent(p)].dev, nextIno, Directory)];
      nextIno := nextIno + 1;
      history := history + [Moment(tree, staged)];
      return Success;
    }

    /** open(O_CREAT | O_EXCL) of an empty file, or symlink(): a new entry under a name of its own. */
    method CreateExclusive(p: Path, kind: Kind) returns (err: Errno)
      requires Valid() && kind != Directory
      modifies this
      ensures Valid()
      ensures stuck == old(stuck)
      ensures err != Success ==> Quiet()
      ensures err == Success ==>
        && Step() && staged == old(staged) + {p}
        && p !in old(tree) && Parent(p) in old(tree) && old(tree)[Parent(p)].kind.Directory?
        && tree == old(tree)[p := Node(old(tree)[Parent(p)].dev, old(nextIno), kind)]
      ensures undisturbed && p !in old(tree) && IsDirectory(old(tree), Parent(p)) ==> err == Success
    {
      var refused := Refusal();
      if refused != Success {
        return refused;
      }
      if p in tree {
        return EEXIST;
      }
      if Parent(p) !in tree || tree[Parent(p)].kind != Directory {
        return ENOENT;
      }
      tree := tree[p := Node(tree[Parent(p)].dev, nextIno, kind)];
      nextIno := nextIno + 1;
      staged := staged + {p};
      history := history + [Moment(tree, staged)];
      return Success;
    }

    /** renameat2() with flags 0 or RENAME_NOREPLACE. */
    method Rename(a: Path, b: Path, noReplace: bool) returns (err: Errno)
      requires Valid()
      modifies this
      ensures Valid()
      ensures stuck == old(stuck)
      ensures err != Success ==> Quiet()
      ensures err == Success ==>
        && a in old(tree) && (noReplace ==> b !in old(tree))
      ensures err == Success && b in old(tree) && SameEntry(old(tree)[a], old(tree)[b]) ==> Quiet()
      ensures err == Success && !(b in old(tree) && SameEntry(old(tree)[a], old(tree)[b])) ==>
        && Step() && CanRename(old(tree), a, b)
        && tree == Renamed(old(tree), a, b) && staged == old(staged) - Below(old(tree), a) - {b}
      ensures undisturbed && CanRename(old(tree), a, b) && !(noReplace && b in old(tree)) ==> err == Success
      ensures undisturbed && !(noReplace && b in old(tree)) ==> (err == EXDEV <==> OtherDevice(old(tree), a, b))
    {
      var refused := Refusal();
      if refused != Success {
        return refused;
      }
      if a !in tree || Parent(b) !in tree || tree[Parent(b)].kind != Directory {
        return ENOENT;
      }
      if b in tree && noReplace {
        return EEXIST;
      }
      if tree[a].dev != tree[Parent(b)].dev {
        return EXDEV;
      }
      if b in tree && tree[a].dev == tree[b].dev && tree[a].ino == tree[b].ino {
        return Success;
      }
      if a <= b || (exists p | p in tree :: b <= p && p != b) ||
         (b in tree && (tree[a].kind == Directory) != (tree[b].kind == Directory))
      {
        return Other(0);
      }
      RenamedSound(tree, a, b, staged, nextIno);
      staged := staged - Below(tree, a) - {b};
      tree := Renamed(tree, a, b);
      history := history + [Moment(tree, staged)];
      return Success;
    }

    /** The names of the children, each once, in no particular order ("." and ".." aside). */
    method OpenDir(p: Path) returns (names: Option<seq<Name>>, err: Errno)
      requires Valid()
      ensures names.None? ==> err != Success
      ensures names.Some? ==> p in tree && tree[p].kind.Directory?
      ensures names.Some? ==> Listing(tree, p, names.value)
      ensures (undisturbed || p !in troubled) && IsDirectory(tree, p) ==> names.Some?
      ensures names.Some? ==> forall i, j | 0 <= i < j < |names.value| :: names.value[i] != names.value[j]
    {
      var refused := RefusalAt(p);
      if refused != Success {
        return None, refused;
      }
      if p !in tree || tree[p].kind != Directory {
        return None, ENOENT;
      }
      ChildNamesListed(tree, p);
      var listed := Enumerate(ChildNames(tree, p));
      return Some(listed), Success;
    }

    /** readdir() on a stream opened over the `names` in `p`, of which `pos` have been delivered. */
    method ReadDir(p: Path, names: seq<Name>, pos: nat) returns (item: DirItem)
      requires pos <= |names|
      ensures item.Entry? ==> pos < |names| && item.name == names[pos]
      ensures item.End? ==> pos == |names|
      ensures undisturbed || p !in troubled ==> !item.ReadError?
    {
      var refused := RefusalAt(p);
      if refused != Success {
        return ReadError(refused);
      }
      return if pos == |names| then End else Entry(names[pos]);
    }

    /** read(2): what it returns goes to the front of the buffer; 0 only at the end of the file. */
    method Read(f: OpenFile, buffer: array<byte>) returns (n: int, err: Errno)
      requires Valid() && buffer.Length > 0
      requires f.path in tree && tree[f.path].kind.Regular? && f.offset <= |tree[f.path].kind.bytes|
      modifies f, buffer, this`interrupts
      ensures n < 0 ==> err != Success && f.offset == old(f.offset)
      ensures interrupts <= old(interrupts) && (n < 0 && err == EINTR ==> interrupts < old(interrupts))
      ensures n >= 0 ==>
        && n <= buffer.Length
        && f.offset == old(f.offset) + n <= |tree[f.path].kind.bytes|
        && buffer[..n] == tree[f.path].kind.bytes[old(f.offset)..f.offset]
      ensures n == 0 ==> f.offset == |tree[f.path].kind.bytes|
      ensures undisturbed && n < 0 ==> err == EINTR
    {
      var refused := Refusal();
      var interrupted: bool := *;
      if interrupted && interrupts > 0 {
        interrupts := interrupts - 1;
        return -1, EINTR;
      }
      if refused != Success && refused != EINTR {
        return -1, refused;
      }
      var bytes := tree[f.path].kind.bytes;
      var left := |bytes| - f.offset;
      var short: nat := *;
      var take := if left == 0 then 0
                  else if 0 < short < left && short < buffer.Length then short
                  else if left < buffer.Length then left else buffer.Length;
      forall i | 0 <= i < take {
        buffer[i] := bytes[f.offset + i];
      }
      f.offset := f.offset + take;
      return take, Success;
    }

    /** write(2) at the end of the file `p`; it may write less than asked, even nothing. */
    method Write(p: Path, buffer: array<byte>, from: nat, to: nat) returns (n: int, err: Errno)
      requires Valid() && from < to <= buffer.Length
      requires p in tree && tree[p].kind.Regular?
      modifies this
      ensures Valid() && staged == old(staged) && stuck == old(stuck) && (old(cancelled) ==> cancelled)
      ensures n <= 0 ==> tree == old(tree) && history == old(history)
      ensures n < 0 ==> err != Success
      ensures interrupts <= old(interrupts) && (n < 0 && err == EINTR ==> interrupts < old(interrupts))
      ensures n > 0 ==>
        && n <= to - from && Step()
        && tree == old(tree)[p := old(tree)[p].(kind := Regular(old(tree)[p].kind.bytes + buffer[from..from + n]))]
      ensures undisturbed ==> cancelled == old(cancelled) && (n > 0 || (n < 0 && err == EINTR))
    {
      var refused := Refusal();
      var interrupted: bool := *;
      if interrupted && interrupts > 0 {
        interrupts := interrupts - 1;
        return -1, EINTR;
      }
      if refused != Success && refused != EINTR {
        return -1, refused;
      }
      var short: int := *;
      n := if 0 <= short < to - from && !(undisturbed && short == 0) then short else to - from;
      if n > 0 {
        var kind := Regular(tree[p].kind.bytes + buffer[from..from + n]);
        tree := tree[p := tree[p].(kind := kind)];
        history := history + [Moment(tree, staged)];
      }
      return n, Success;
    }

    /** Writes `bytes` to the empty file `p`; on failure some part of them may have arrived. */
    method WriteWhole(p: Path, bytes: seq<byte>) returns (err: Errno)
      requires Valid() && p in tree && tree[p].kind.Regular?
      modifies this
      ensures Valid() && Step() && staged == old(staged) && stuck == old(stuck)
      ensures p in tree && tree == old(tree)[p := tree[p]] && tree[p] == old(tree)[p].(kind := tree[p].kind)
      ensures tree[p].kind.Regular? && tree[p].kind.bytes <= bytes && (err == Success ==> tree[p].kind.bytes == bytes)
      ensures undisturbed ==> err == Success && cancelled == old(cancelled)
    {
      var refused := Refusal();
      var part: int := *;
      var arrived := if refused != Success && 0 <= part < |bytes| then bytes[..part] else bytes;
      tree := tree[p := tree[p].(kind := Regular(arrived))];
      history := history + [Moment(tree, staged)];
      return refused;
    }

    method ReadLink(p: Path) returns (r: Option<string>, err: Errno)
      requires Valid()
      ensures r.Some? ==> p in tree && tree[p].kind == Symlink(r.value)
      ensures undisturbed && p in tree && tree[p].kind.Symlink? ==> r.Some?
      ensures r.None? ==> err != Success
    {
      var refused := Refusal();
      if refused != Success {
        return None, refused;
      }
      if p !in tree || !tree[p].kind.Symlink? {
        return None, ENOENT;
      }
      return Some(tree[p].kind.target), Success;
    }

    method Unlink(p: Path) returns (err: Errno)
      requires Valid()
      modifies this
      ensures Valid()
      ensures err != Success ==>
        && tree == old(tree) && staged == old(staged) && history == old(history) && stuck == old(stuck) + {p}
        && nextIno == old(nextIno) && interrupts == old(interrupts) && (old(cancelled) ==> cancelled)
        && touched == old(touched)
      ensures err == Success ==>
        && Step() && stuck == old(stuck)
        && p in old(tree) && !old(tree)[p].kind.Directory?
        && tree == old(tree) - {p} && staged == old(staged) - {p}
      ensures (undisturbed || p !in troubled) && p in old(tree) && !old(tree)[p].kind.Directory? ==> err == Success
      ensures undisturbed ==> cancelled == old(cancelled)
    {
      var refused := RefusalAt(p);
      if refused != Success || p !in tree || tree[p].kind == Directory {
        stuck := stuck + {p};
        return if refused == Success then ENOENT else refused;
      }
      LeafIsAlone(tree, p);
      tree := tree - {p};
      staged := staged - {p};
      history := history + [Moment(tree, staged)];
      return Success;
    }

    method Rmdir(p: Path) returns (err: Errno)
      requires Valid()
      modifies this
      ensures Valid()
      ensures stuck == old(stuck)
      ensures err != Success ==> Quiet()
      ensures err == Success ==>
        && Step() && staged == old(staged)
        && p != [] && p in old(tree) && old(tree)[p].kind.Directory?
        && (forall q | q in old(tree) && p <= q :: q == p)
        && tree == old(tree) - {p}
      ensures (undisturbed || p !in troubled) && EmptyDirectory(old(tree), p) ==> err == Success
    {
      var refused := RefusalAt(p);
      if refused != Success {
        return refused;
      }
      if p == [] || p !in tree || tree[p].kind != Directory ||
         (exists q | q in tree :: p <= q && p != q)
      {
        return Other(0);
      }
      tree := tree - {p};
      history := history + [Moment(tree, staged)];
      return Success;
    }
  }
}
