/** Canonical absolute paths as sequences of names; the root is the empty sequence. */
module Paths {
  type Name = string
  type Path = seq<Name>

  /** The parent directory; as for "/" in QFileInfo, the root is its own parent. */
  function Parent(p: Path): Path {
    if p == [] then [] else p[..|p| - 1]
  }

  /** QFileInfo::fileName(): empty for the root. */
  function BaseName(p: Path): Name {
    if p == [] then "" else p[|p| - 1]
  }

  /** The path that stands below `to` where `p` stands below `from`. */
  function Rebase(p: Path, from: Path, to: Path): Path
    requires from <= p
  {
    to + p[|from|..]
  }

  lemma RebaseBack(p: Path, from: Path, to: Path)
    requires from <= p
    ensures to <= Rebase(p, from, to)
    ensures Rebase(Rebase(p, from, to), to, from) == p
  {
    assert Rebase(p, from, to)[|to|..] == p[|from|..];
  }

  lemma RebaseStep(p: Path, from: Path, to: Path, name: Name)
    requires from + [name] <= p
    ensures from <= p
    ensures Rebase(p, from + [name], to + [name]) == Rebase(p, from, to)
  {
    assert p[|from|] == (from + [name])[|from|];
    assert p[|from|..] == [p[|from|]] + p[|from| + 1..];
  }

  lemma RebaseParent(p: Path, from: Path, to: Path)
    requires from <= p && from != p
    ensures from <= Parent(p)
    ensures Parent(Rebase(p, from, to)) == Rebase(Parent(p), from, to)
  {
    assert p[|from|..][..|p| - 1 - |from|] == p[..|p| - 1][|from|..];
  }

  lemma SiblingBelow(a: Path, p: Path, q: Path)
    requires a <= p && a != p && Parent(p) == Parent(q)
    ensures a <= q
  {
    assert a <= Parent(p);
    assert Parent(q) <= q;
  }

  lemma ChildrenApart(a: Path, b: Path, name: Name)
    requires a != b
    ensures a + [name] != b + [name]
    ensures a + [name] <= b + [name] ==> a <= b
  {
    assert (a + [name])[..|a|] == a && (b + [name])[..|b|] == b;
    if a + [name] <= b + [name] {
      assert (b + [name])[..|a|] == a;
    }
  }
}
