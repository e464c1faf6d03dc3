/** The list of visited directories: revisiting moves an entry to the end, going back and forward drops the
    entries that are gone. */
module JumpListModel {
  datatype Visit = Visit(path: string, cursorName: string)

  datatype Jumps = Jumps(entries: seq<Visit>, index: int)

  datatype TraverseResult =
    TraverseResult(moved: bool, targetPath: string, restoreName: string, skippedPaths: seq<string>)

  const UNMOVED := TraverseResult(false, "", "", [])

  const CAPACITY := 100

  ghost predicate DistinctPaths(vs: seq<Visit>) {
    forall i, j | 0 <= i < j < |vs| :: vs[i].path != vs[j].path
  }

  ghost predicate WellFormed(j: Jumps) {
    && DistinctPaths(j.entries) && |j.entries| <= CAPACITY
    && -1 <= j.index < |j.entries|
    && (j.index < 0 ==> j.entries == [])
  }

  function CurrentPath(j: Jumps): string
    requires j.index < |j.entries|
  {
    if j.index >= 0 then j.entries[j.index].path else ""
  }

  function Accepted(vs: seq<Visit>, ok: string -> bool): seq<Visit> {
    if vs == [] then [] else (if ok(vs[0].path) then [vs[0]] else []) + Accepted(vs[1..], ok)
  }

  function Rejected(vs: seq<Visit>, ok: string -> bool): seq<string> {
    if vs == [] then [] else (if ok(vs[0].path) then [] else [vs[0].path]) + Rejected(vs[1..], ok)
  }

  function Reverse<T>(s: seq<T>): seq<T> {
    if s == [] then [] else Reverse(s[1..]) + [s[0]]
  }

  function Max(a: int, b: int): int {
    if a < b then b else a
  }

  function Min(a: int, b: int): int {
    if a < b then a else b
  }

  // ----- the specification -----

  /** How many of `vs`, from the front, must be looked at to accept `wanted` of them. */
  ghost function Examined(vs: seq<Visit>, ok: string -> bool, wanted: nat): (n: nat)
    ensures n <= |vs|
  {
    if wanted == 0 || vs == [] then 0
    else 1 + Examined(vs[1..], ok, if ok(vs[0].path) then wanted - 1 else wanted)
  }

  /** How many of `vs`, from the back. */
  ghost function ExaminedBack(vs: seq<Visit>, ok: string -> bool, wanted: nat): (n: nat)
    ensures n <= |vs|
  {
    if wanted == 0 || vs == [] then 0
    else 1 + ExaminedBack(vs[..|vs| - 1], ok, if ok(vs[|vs| - 1].path) then wanted - 1 else wanted)
  }

  ghost function Left(j: Jumps, cursorName: string): seq<Visit>
    requires 0 <= j.index < |j.entries|
  {
    j.entries[j.index := j.entries[j.index].(cursorName := cursorName)]
  }

  /** Of the examined entries only the accepted ones stay; the current one becomes the farthest of them. */
  ghost function Forward(vs: seq<Visit>, index: nat, wanted: nat, ok: string -> bool): Jumps
    requires index < |vs|
  {
    var end := index + 1 + Examined(vs[index + 1..], ok, wanted);
    var stay := Accepted(vs[index + 1..end], ok);
    Jumps(vs[..index + 1] + stay + vs[end..], index + |stay|)
  }

  ghost function Back(vs: seq<Visit>, index: nat, wanted: nat, ok: string -> bool): Jumps
    requires index < |vs|
  {
    var first := index - ExaminedBack(vs[..index], ok, wanted);
    Jumps(vs[..first] + Accepted(vs[first..index], ok) + vs[index..], first)
  }

  ghost function Moves(vs: seq<Visit>, index: nat, direction: int, ok: string -> bool): nat
    requires index < |vs|
  {
    |Accepted(if direction == 1 then vs[index + 1..] else vs[..index], ok)|
  }

  ghost function GoneTo(vs: seq<Visit>, index: nat, direction: int, wanted: nat, ok: string -> bool): Jumps
    requires index < |vs|
  {
    if direction == 1 then Forward(vs, index, wanted, ok) else Back(vs, index, wanted, ok)
  }

  ghost function Traversed(j: Jumps, direction: int, count: int, cursorName: string, ok: string -> bool): Jumps
    requires j.index < |j.entries|
  {
    if j.index < 0 || (direction != -1 && direction != 1) then j
    else GoneTo(Left(j, cursorName), j.index, direction, Max(1, count), ok)
  }

  ghost function Without(vs: seq<Visit>, path: string): seq<Visit> {
    Accepted(vs, p => p != path)
  }

  ghost function Recorded(j: Jumps, path: string, cursorName: string): Jumps
    requires j.index < |j.entries|
  {
    if j.index >= 0 && j.entries[j.index].path == path then j
    else
      var vs := Without(if j.index >= 0 then Left(j, cursorName) else j.entries, path) + [Visit(path, "")];
      var kept := if |vs| > CAPACITY then vs[1..] else vs;
      Jumps(kept, |kept| - 1)
  }

  ghost predicate HasPath(vs: seq<Visit>, path: string) {
    exists q | 0 <= q < |vs| :: vs[q].path == path
  }

  /** A visit to another path: the entry left has the cursor's name; every entry but an earlier one of that path
      stays where it was, only the oldest goes and only from a full list; and the path comes last. */
  ghost predicate MovesToEnd(j: Jumps, after: Jumps, path: string, name: string)
    requires j.index < |j.entries|
  {
    if j.index >= 0 && CurrentPath(j) == path then after == j
    else
      var vs := if j.index >= 0 then Left(j, name) else j.entries;
      && after.index == |after.entries| - 1
      && if HasPath(vs, path) then
           forall q | 0 <= q < |vs| && vs[q].path == path ::
             after.entries == vs[..q] + vs[q + 1..] + [Visit(path, "")]
         else after.entries == (if |vs| < CAPACITY then vs else vs[1..]) + [Visit(path, "")]
  }

  // ----- the specification's properties -----

  lemma {:induction false} AcceptedConcat(a: seq<Visit>, b: seq<Visit>, ok: string -> bool)
    ensures Accepted(a + b, ok) == Accepted(a, ok) + Accepted(b, ok)
    ensures Rejected(a + b, ok) == Rejected(a, ok) + Rejected(b, ok)
  {
    if a == [] {
      assert a + b == b;
    } else {
      assert (a + b)[1..] == a[1..] + b && (a + b)[0] == a[0];
      AcceptedConcat(a[1..], b, ok);
      var v := if ok(a[0].path) then [a[0]] else [];
      assert v + (Accepted(a[1..], ok) + Accepted(b, ok)) == (v + Accepted(a[1..], ok)) + Accepted(b, ok);
      var p := if ok(a[0].path) then [] else [a[0].path];
      assert p + (Rejected(a[1..], ok) + Rejected(b, ok)) == (p + Rejected(a[1..], ok)) + Rejected(b, ok);
    }
  }

  lemma {:induction false} AcceptedMembers(vs: seq<Visit>, ok: string -> bool)
    ensures forall v :: v in Accepted(vs, ok) <==> v in vs && ok(v.path)
    ensures |Accepted(vs, ok)| <= |vs|
  {
    if vs != [] {
      AcceptedMembers(vs[1..], ok);
      assert vs == [vs[0]] + vs[1..];
    }
  }

  lemma {:induction false} AcceptedDistinct(vs: seq<Visit>, ok: string -> bool)
    requires DistinctPaths(vs)
    ensures DistinctPaths(Accepted(vs, ok))
  {
    if vs != [] {
      AcceptedDistinct(vs[1..], ok);
      AcceptedMembers(vs[1..], ok);
      forall v | v in Accepted(vs[1..], ok)
        ensures v.path != vs[0].path
      {
        var k :| 0 <= k < |vs[1..]| && vs[1..][k] == v;
        assert vs[k + 1] == v;
      }
    }
  }

  lemma {:induction false} AcceptedLast(vs: seq<Visit>, v: Visit, ok: string -> bool)
    ensures Accepted(vs + [v], ok) == Accepted(vs, ok) + if ok(v.path) then [v] else []
    ensures Rejected(vs + [v], ok) == Rejected(vs, ok) + if ok(v.path) then [] else [v.path]
  {
    AcceptedConcat(vs, [v], ok);
  }

  /** A traversal takes as many steps as asked for, or as there are. */
  lemma {:induction false} ExaminedSteps(vs: seq<Visit>, ok: string -> bool, wanted: nat)
    ensures |Accepted(vs[..Examined(vs, ok, wanted)], ok)| == Min(wanted, |Accepted(vs, ok)|)
  {
    if vs == [] {
    } else if wanted == 0 {
      assert vs[..0] == [];
    } else {
      var rest := if ok(vs[0].path) then wanted - 1 else wanted;
      ExaminedSteps(vs[1..], ok, rest);
      var n := Examined(vs[1..], ok, rest);
      assert vs[..1 + n][1..] == vs[1..][..n];
    }
  }

  lemma Tail<T>(s: seq<T>, n: nat)
    requires n < |s|
    ensures s == s[..|s| - 1] + [s[|s| - 1]]
    ensures s[|s| - 1 - n..] == s[..|s| - 1][|s| - 1 - n..] + [s[|s| - 1]]
  {
  }

  lemma {:induction false} OneMoreBehind(vs: seq<Visit>, ok: string -> bool, n: nat)
    requires n < |vs|
    ensures var init, one := vs[..|vs| - 1], if ok(vs[|vs| - 1].path) then 1 else 0;
      && |Accepted(vs, ok)| == |Accepted(init, ok)| + one
      && |Accepted(vs[|vs| - 1 - n..], ok)| == |Accepted(init[|init| - n..], ok)| + one
  {
    var init, last := vs[..|vs| - 1], vs[|vs| - 1];
    Tail(vs, n);
    AcceptedLast(init, last, ok);
    AcceptedLast(init[|init| - n..], last, ok);
  }

  lemma {:induction false} ExaminedBackSteps(vs: seq<Visit>, ok: string -> bool, wanted: nat)
    ensures |Accepted(vs[|vs| - ExaminedBack(vs, ok, wanted)..], ok)| == Min(wanted, |Accepted(vs, ok)|)
    decreases |vs|
  {
    if vs == [] {
    } else if wanted == 0 {
      assert vs[|vs|..] == [];
    } else {
      var init, last := vs[..|vs| - 1], vs[|vs| - 1];
      var rest := if ok(last.path) then wanted - 1 else wanted;
      ExaminedBackSteps(init, ok, rest);
      var n := ExaminedBack(init, ok, rest);
      OneMoreBehind(vs, ok, n);
    }
  }

  /** All accepted: exactly as many are examined as wanted. */
  lemma {:induction false} ExaminedPrefix(vs: seq<Visit>, ok: string -> bool, wanted: nat)
    requires wanted <= |vs| && forall i | 0 <= i < wanted :: ok(vs[i].path)
    ensures Examined(vs, ok, wanted) == wanted && Accepted(vs[..wanted], ok) == vs[..wanted]
  {
    if wanted > 0 {
      ExaminedPrefix(vs[1..], ok, wanted - 1);
      assert vs[..wanted][1..] == vs[1..][..wanted - 1];
    }
  }

  /** The examined entry farthest away is accepted unless too few are. */
  lemma {:induction false} FarthestIsAccepted(vs: seq<Visit>, ok: string -> bool, wanted: nat)
    requires 0 < wanted <= |Accepted(vs, ok)|
    ensures var n := ExaminedBack(vs, ok, wanted); 0 < n <= |vs| && ok(vs[|vs| - n].path)
    decreases |vs|
  {
    var init, last := vs[..|vs| - 1], vs[|vs| - 1];
    assert vs == init + [last];
    AcceptedLast(init, last, ok);
    var rest := if ok(last.path) then wanted - 1 else wanted;
    if rest > 0 {
      FarthestIsAccepted(init, ok, rest);
    }
  }

  // ----- the loops -----

  /** Entries lo..hi are the examined ones. */
  ghost function Range(vs: seq<Visit>, index: nat, direction: int, wanted: nat, ok: string -> bool): (r: (nat, nat))
    requires index < |vs|
    ensures r.0 <= r.1 <= |vs| && (if direction == 1 then r.0 == index + 1 else r.1 == index)
  {
    if direction == 1 then (index + 1, index + 1 + Examined(vs[index + 1..], ok, wanted))
    else (index - ExaminedBack(vs[..index], ok, wanted), index)
  }

  ghost predicate MarksRejected(missing: seq<bool>, vs: seq<Visit>, lo: nat, hi: nat, ok: string -> bool) {
    |missing| == |vs| && forall i | 0 <= i < |vs| :: missing[i] <==> lo <= i < hi && !ok(vs[i].path)
  }

  /** The last accepted one in the direction of travel, or -1. */
  ghost predicate Lands(landing: int, vs: seq<Visit>, lo: nat, hi: nat, direction: int, ok: string -> bool)
    requires lo <= hi <= |vs|
  {
    if landing < 0 then landing == -1 && forall i | lo <= i < hi :: !ok(vs[i].path)
    else
      && lo <= landing < hi && ok(vs[landing].path)
      && forall i | lo <= i < hi && (if direction == 1 then landing < i else i < landing) :: !ok(vs[i].path)
  }

  ghost function Skipped(vs: seq<Visit>, lo: nat, hi: nat, direction: int, ok: string -> bool): seq<string>
    requires lo <= hi <= |vs|
  {
    if direction == 1 then Rejected(vs[lo..hi], ok) else Reverse(Rejected(vs[lo..hi], ok))
  }

  ghost function Unmarked(vs: seq<Visit>, missing: seq<bool>): seq<Visit>
    requires |vs| == |missing|
  {
    if vs == [] then []
    else Unmarked(vs[..|vs| - 1], missing[..|vs| - 1]) + if missing[|vs| - 1] then [] else [vs[|vs| - 1]]
  }

  ghost function Place(vs: seq<Visit>, missing: seq<bool>, row: nat): nat
    requires |vs| == |missing| && row <= |vs|
  {
    |Unmarked(vs[..row], missing[..row])|
  }

  lemma ExamineForward(vs: seq<Visit>, from: nat, at: nat, ok: string -> bool)
    requires from <= at < |vs|
    ensures vs[at..][0] == vs[at] && vs[at..][1..] == vs[at + 1..]
    ensures Rejected(vs[from..at + 1], ok) == Rejected(vs[from..at], ok) + if ok(vs[at].path) then [] else [vs[at].path]
  {
    assert vs[from..at + 1] == vs[from..at] + [vs[at]];
    AcceptedLast(vs[from..at], vs[at], ok);
  }

  lemma ExamineBackward(vs: seq<Visit>, at: nat, to: nat, ok: string -> bool)
    requires at < to <= |vs|
    ensures var before := vs[..at + 1]; before[|before| - 1] == vs[at] && before[..|before| - 1] == vs[..at]
    ensures Reverse(Rejected(vs[at..to], ok)) ==
      Reverse(Rejected(vs[at + 1..to], ok)) + if ok(vs[at].path) then [] else [vs[at].path]
  {
    var before := vs[..at + 1];
    assert before[|before| - 1] == vs[at] && before[..|before| - 1] == vs[..at];
    assert vs[at..to][1..] == vs[at + 1..to] && vs[at..to][0] == vs[at];
    assert ok(vs[at].path) ==> Rejected(vs[at..to], ok) == Rejected(vs[at + 1..to], ok);
  }

  lemma {:induction false} UnmarkedConcat(a: seq<Visit>, b: seq<Visit>, m: seq<bool>, n: seq<bool>)
    requires |a| == |m| && |b| == |n|
    ensures Unmarked(a + b, m + n) == Unmarked(a, m) + Unmarked(b, n)
    decreases |b|
  {
    if b == [] {
      assert a + b == a && m + n == m;
    } else {
      assert (a + b)[..|a + b| - 1] == a + b[..|b| - 1] && (m + n)[..|a + b| - 1] == m + n[..|b| - 1];
      UnmarkedConcat(a, b[..|b| - 1], m, n[..|b| - 1]);
    }
  }

  lemma {:induction false} UnmarkedAccepts(vs: seq<Visit>, missing: seq<bool>, ok: string -> bool)
    requires |vs| == |missing| && forall i | 0 <= i < |vs| :: missing[i] <==> !ok(vs[i].path)
    ensures Unmarked(vs, missing) == Accepted(vs, ok)
    decreases |vs|
  {
    if vs != [] {
      UnmarkedAccepts(vs[..|vs| - 1], missing[..|vs| - 1], ok);
      assert vs == vs[..|vs| - 1] + [vs[|vs| - 1]];
      AcceptedLast(vs[..|vs| - 1], vs[|vs| - 1], ok);
    }
  }

  lemma {:induction false} UnmarkedAll(vs: seq<Visit>, missing: seq<bool>)
    requires |vs| == |missing| && forall i | 0 <= i < |vs| :: !missing[i]
    ensures Unmarked(vs, missing) == vs
    decreases |vs|
  {
    if vs != [] {
      UnmarkedAll(vs[..|vs| - 1], missing[..|vs| - 1]);
    }
  }

  /** What is unmarked among the first rows: all before the examined ones, and the accepted ones. */
  lemma UnmarkedBefore(vs: seq<Visit>, missing: seq<bool>, lo: nat, hi: nat, row: nat, ok: string -> bool)
    requires lo <= hi <= |vs| && MarksRejected(missing, vs, lo, hi, ok) && row <= lo
    ensures Unmarked(vs[..row], missing[..row]) == vs[..row]
  {
    UnmarkedAll(vs[..row], missing[..row]);
  }

  lemma Slices<T>(s: seq<T>, a: nat, b: nat)
    requires a <= b <= |s|
    ensures s[..a] + s[a..b] == s[..b]
  {
  }

  lemma MarkedSlice(vs: seq<Visit>, missing: seq<bool>, lo: nat, hi: nat, row: nat, ok: string -> bool)
    requires hi <= |vs| && MarksRejected(missing, vs, lo, hi, ok) && lo <= row <= hi
    ensures Unmarked(vs[lo..row], missing[lo..row]) == Accepted(vs[lo..row], ok)
  {
    UnmarkedAccepts(vs[lo..row], missing[lo..row], ok);
  }

  lemma UnmarkedWithin(vs: seq<Visit>, missing: seq<bool>, lo: nat, hi: nat, row: nat, ok: string -> bool)
    requires hi <= |vs| && MarksRejected(missing, vs, lo, hi, ok) && lo <= row <= hi
    ensures Unmarked(vs[..row], missing[..row]) == vs[..lo] + Accepted(vs[lo..row], ok)
  {
    UnmarkedBefore(vs, missing, lo, hi, lo, ok);
    MarkedSlice(vs, missing, lo, hi, row, ok);
    Slices(vs, lo, row);
    Slices(missing, lo, row);
    UnmarkedConcat(vs[..lo], vs[lo..row], missing[..lo], missing[lo..row]);
  }

  lemma UnmarkedAfter(vs: seq<Visit>, missing: seq<bool>, lo: nat, hi: nat, row: nat, ok: string -> bool)
    requires lo <= hi <= row <= |vs| && MarksRejected(missing, vs, lo, hi, ok)
    ensures Unmarked(vs[..row], missing[..row]) == vs[..lo] + Accepted(vs[lo..hi], ok) + vs[hi..row]
  {
    UnmarkedWithin(vs, missing, lo, hi, hi, ok);
    UnmarkedAll(vs[hi..row], missing[hi..row]);
    Slices(vs, hi, row);
    Slices(missing, hi, row);
    UnmarkedConcat(vs[..hi], vs[hi..row], missing[..hi], missing[hi..row]);
  }

  lemma {:induction false} NoneAccepted(vs: seq<Visit>, ok: string -> bool)
    requires forall i | 0 <= i < |vs| :: !ok(vs[i].path)
    ensures Accepted(vs, ok) == []
  {
    if vs != [] {
      NoneAccepted(vs[1..], ok);
    }
  }

  lemma AcceptedAround(vs: seq<Visit>, lo: nat, landing: nat, hi: nat, ok: string -> bool)
    requires lo <= landing < hi <= |vs| && ok(vs[landing].path)
    ensures Accepted(vs[lo..hi], ok) ==
      Accepted(vs[lo..landing], ok) + [vs[landing]] + Accepted(vs[landing + 1..hi], ok)
  {
    assert vs[lo..hi] == vs[lo..landing] + [vs[landing]] + vs[landing + 1..hi];
    AcceptedLast(vs[lo..landing], vs[landing], ok);
    AcceptedConcat(vs[lo..landing] + [vs[landing]], vs[landing + 1..hi], ok);
  }

  /** Where the landing ends up. */
  lemma LandingPlace(vs: seq<Visit>, missing: seq<bool>, lo: nat, hi: nat, landing: nat, direction: int,
                     ok: string -> bool)
    requires lo <= hi <= |vs| && MarksRejected(missing, vs, lo, hi, ok)
    requires Lands(landing, vs, lo, hi, direction, ok)
    ensures direction == 1 ==> Place(vs, missing, landing) == lo - 1 + |Accepted(vs[lo..hi], ok)|
    ensures direction != 1 ==> Place(vs, missing, landing) == lo
    ensures Accepted(vs[lo..hi], ok) != []
  {
    UnmarkedWithin(vs, missing, lo, hi, landing, ok);
    AcceptedAround(vs, lo, landing, hi, ok);
    if direction == 1 {
      NoneAccepted(vs[landing + 1..hi], ok);
    } else {
      NoneAccepted(vs[lo..landing], ok);
    }
  }

  /** What the first loop has found when it has examined entries lo..hi. */
  datatype Scan = Scan(missing: seq<bool>, skipped: seq<string>, landing: int, steps: nat)

  function Look(s: Scan, candidate: nat, path: string, accepted: bool): Scan
    requires candidate < |s.missing|
  {
    if accepted then s.(steps := s.steps + 1, landing := candidate)
    else s.(missing := s.missing[candidate := true], skipped := s.skipped + [path])
  }

  ghost predicate Scanned(s: Scan, vs: seq<Visit>, lo: nat, hi: nat, direction: int, ok: string -> bool)
    requires lo <= hi <= |vs|
  {
    && MarksRejected(s.missing, vs, lo, hi, ok)
    && Lands(s.landing, vs, lo, hi, direction, ok)
    && s.skipped == Skipped(vs, lo, hi, direction, ok)
  }

  lemma LookForward(s: Scan, vs: seq<Visit>, lo: nat, hi: nat, ok: string -> bool)
    requires lo <= hi < |vs| && Scanned(s, vs, lo, hi, 1, ok)
    ensures Scanned(Look(s, hi, vs[hi].path, ok(vs[hi].path)), vs, lo, hi + 1, 1, ok)
  {
    ExamineForward(vs, lo, hi, ok);
  }

  lemma LookBackward(s: Scan, vs: seq<Visit>, lo: nat, hi: nat, ok: string -> bool)
    requires lo < hi + 1 && 0 < lo && hi <= |vs| && Scanned(s, vs, lo, hi, -1, ok)
    ensures Scanned(Look(s, lo - 1, vs[lo - 1].path, ok(vs[lo - 1].path)), vs, lo - 1, hi, -1, ok)
  {
    ExamineBackward(vs, lo - 1, hi, ok);
  }

  /** Examining from entry `at` on still has to find `wanted`. */
  ghost predicate StillWants(vs: seq<Visit>, index: nat, lo: nat, hi: nat, direction: int, wanted: nat, steps: nat,
                             ok: string -> bool)
    requires index < |vs| && lo <= hi <= |vs|
  {
    steps <= wanted &&
    if direction == 1 then
      lo == index + 1
      && Examined(vs[lo..], ok, wanted) == hi - lo + Examined(vs[hi..], ok, wanted - steps)
    else
      hi == index
      && ExaminedBack(vs[..hi], ok, wanted) == hi - lo + ExaminedBack(vs[..lo], ok, wanted - steps)
  }

  lemma ScanBegins(vs: seq<Visit>, index: nat, lo: nat, direction: int, wanted: nat, ok: string -> bool, s: Scan)
    requires index < |vs| && lo == (if direction == 1 then index + 1 else index)
    requires |s.missing| == |vs| && (forall i | 0 <= i < |vs| :: !s.missing[i])
    requires s.skipped == [] && s.landing == -1 && s.steps == 0
    ensures Scanning(s, vs, index, lo, lo, direction, wanted, ok)
  {
    assert vs[lo..lo] == [];
  }

  lemma ScanIsDone(vs: seq<Visit>, index: nat, lo: nat, hi: nat, direction: int, wanted: nat, steps: nat,
                   ok: string -> bool)
    requires index < |vs| && lo <= hi <= |vs| && StillWants(vs, index, lo, hi, direction, wanted, steps, ok)
    requires steps == wanted || (if direction == 1 then hi == |vs| else lo == 0)
    ensures Range(vs, index, direction, wanted, ok) == (lo, hi)
  {
  }

  lemma StillWantsBackward(vs: seq<Visit>, index: nat, lo: nat, wanted: nat, steps: nat, ok: string -> bool)
    requires 0 < lo <= index < |vs| && StillWants(vs, index, lo, index, -1, wanted, steps, ok) && steps < wanted
    ensures StillWants(vs, index, lo - 1, index, -1, wanted, if ok(vs[lo - 1].path) then steps + 1 else steps, ok)
  {
    ExamineBackward(vs, lo - 1, index, ok);
  }

  ghost predicate Scanning(s: Scan, vs: seq<Visit>, index: nat, lo: nat, hi: nat, direction: int, wanted: nat,
                           ok: string -> bool)
    requires index < |vs| && lo <= hi <= |vs|
  {
    Scanned(s, vs, lo, hi, direction, ok) && StillWants(vs, index, lo, hi, direction, wanted, s.steps, ok)
  }

  lemma LookFurtherAhead(s: Scan, vs: seq<Visit>, index: nat, lo: nat, hi: nat, wanted: nat, ok: string -> bool)
    requires index < |vs| && lo <= hi < |vs| && Scanning(s, vs, index, lo, hi, 1, wanted, ok) && s.steps < wanted
    ensures Scanning(Look(s, hi, vs[hi].path, ok(vs[hi].path)), vs, index, lo, hi + 1, 1, wanted, ok)
  {
    LookForward(s, vs, lo, hi, ok);
  }

  lemma LookFurtherBack(s: Scan, vs: seq<Visit>, index: nat, lo: nat, hi: nat, wanted: nat, ok: string -> bool)
    requires index < |vs| && 0 < lo <= hi <= |vs| && Scanning(s, vs, index, lo, hi, -1, wanted, ok)
    requires s.steps < wanted
    ensures Scanning(Look(s, lo - 1, vs[lo - 1].path, ok(vs[lo - 1].path)), vs, index, lo - 1, hi, -1, wanted, ok)
  {
    LookBackward(s, vs, lo, hi, ok);
    StillWantsBackward(vs, index, lo, wanted, s.steps, ok);
  }

  lemma LookFurther(s: Scan, vs: seq<Visit>, index: nat, lo: nat, hi: nat, direction: int, wanted: nat,
                    ok: string -> bool)
    requires index < |vs| && lo <= hi <= |vs| && (direction == 1 || direction == -1)
    requires Scanning(s, vs, index, lo, hi, direction, wanted, ok) && s.steps < wanted
    ensures direction == 1 && hi < |vs| ==>
      Scanning(Look(s, hi, vs[hi].path, ok(vs[hi].path)), vs, index, lo, hi + 1, direction, wanted, ok)
    ensures direction == -1 && lo > 0 ==>
      Scanning(Look(s, lo - 1, vs[lo - 1].path, ok(vs[lo - 1].path)), vs, index, lo - 1, hi, direction, wanted, ok)
  {
    if direction == 1 && hi < |vs| {
      LookFurtherAhead(s, vs, index, lo, hi, wanted, ok);
    } else if direction == -1 && lo > 0 {
      LookFurtherBack(s, vs, index, lo, hi, wanted, ok);
    }
  }

  /** What the first loop leaves behind. */
  ghost predicate Examines(s: Scan, vs: seq<Visit>, index: nat, direction: int, wanted: nat, ok: string -> bool)
    requires index < |vs|
  {
    var r := Range(vs, index, direction, wanted, ok);
    Scanned(s, vs, r.0, r.1, direction, ok)
  }

  /** What a traversal returns: whether some examined entry was accepted, the entry it is now at, and the
      rejected ones in the order they were examined. */
  ghost predicate Reports(result: TraverseResult, after: Jumps, vs: seq<Visit>, index: nat, direction: int,
                          wanted: nat, ok: string -> bool)
    requires index < |vs|
  {
    var r := Range(vs, index, direction, wanted, ok);
    && result.moved == (Accepted(vs[r.0..r.1], ok) != [])
    && result.skippedPaths == Skipped(vs, r.0, r.1, direction, ok)
    && 0 <= after.index < |after.entries|
    && result.targetPath == (if result.moved then after.entries[after.index].path else "")
    && result.restoreName == (if result.moved then after.entries[after.index].cursorName else "")
  }

  class JumpList {
    var entries: seq<Visit>
    var index: int

    ghost function View(): Jumps
      reads this
    {
      Jumps(entries, index)
    }

    constructor ()
      ensures View() == Jumps([], -1) && WellFormed(View())
    {
      entries, index := [], -1;
    }

    method RecordVisit(newPath: string, outgoingCursorName: string)
      requires WellFormed(View())
      modifies this
      ensures MovesToEnd(old(View()), View(), newPath, outgoingCursorName)
      ensures View() == Recorded(old(View()), newPath, outgoingCursorName)
    {
      RecordMovesToEnd(View(), newPath, outgoingCursorName);
      if index >= 0 && entries[index].path == newPath {
        return;
      }
      if index >= 0 {
        entries := entries[index := entries[index].(cursorName := outgoingCursorName)];
      }
      entries := Accepted(entries, p => p != newPath);
      entries := entries + [Visit(newPath, "")];
      if |entries| > CAPACITY {
        entries := entries[1..];
      }
      index := |entries| - 1;
    }

    method Traverse(direction: int, count: int, outgoingCursorName: string, isDirectory: string -> bool)
      returns (result: TraverseResult)
      requires WellFormed(View())
      modifies this
      ensures View() == Traversed(old(View()), direction, count, outgoingCursorName, isDirectory)
      ensures old(index) < 0 || (direction != -1 && direction != 1) ==> result == UNMOVED
      ensures old(index) >= 0 && (direction == -1 || direction == 1) ==>
        Reports(result, View(), Left(old(View()), outgoingCursorName), old(index), direction, Max(1, count),
                isDirectory)
    {
      if index < 0 || (direction != -1 && direction != 1) {
        return UNMOVED;
      }
      entries := entries[index := entries[index].(cursorName := outgoingCursorName)];
      result := TraverseFrom(direction, count, isDirectory);
    }

    /** The rest of Traverse: the name under the cursor has been stored. */
    method TraverseFrom(direction: int, count: int, isDirectory: string -> bool) returns (result: TraverseResult)
      requires 0 <= index < |entries| && (direction == -1 || direction == 1)
      modifies this
      ensures View() == GoneTo(old(entries), old(index), direction, Max(1, count), isDirectory)
      ensures Reports(result, View(), old(entries), old(index), direction, Max(1, count), isDirectory)
    {
      ghost var vs, at := entries, index;
      var scan := Examine(direction, count, isDirectory);
      TraversalShape(vs, at, scan, direction, Max(1, count), isDirectory);
      TraversalReports(vs, at, scan, direction, Max(1, count), isDirectory);
      var landing := scan.landing;
      if scan.skipped != [] {
        landing := Compact(scan.missing, landing);
      } else {
        NothingSkipped(vs, scan, at, direction, Max(1, count), isDirectory);
      }
      if landing < 0 {
        return UNMOVED.(skippedPaths := scan.skipped);
      }
      index := landing;
      return TraverseResult(true, entries[landing].path, entries[landing].cursorName, scan.skipped);
    }

    method Examine(direction: int, count: int, isDirectory: string -> bool) returns (scan: Scan)
      requires 0 <= index < |entries| && (direction == -1 || direction == 1)
      ensures Examines(scan, entries, index, direction, Max(1, count), isDirectory)
    {
      var vs, at, wanted := entries, index, Max(1, count);
      scan := Scan(seq(|vs|, _ => false), [], -1, 0);
      var candidate := at + direction;
      ghost var lo, hi := if direction == 1 then at + 1 else at, if direction == 1 then at + 1 else at;
      ScanBegins(vs, at, lo, direction, wanted, isDirectory, scan);
      while candidate >= 0 && candidate < |vs| && scan.steps < wanted
        invariant 0 <= lo <= hi <= |vs| && candidate == if direction == 1 then hi else lo - 1
        invariant Scanning(scan, vs, at, lo, hi, direction, wanted, isDirectory)
        decreases if direction == 1 then |vs| - candidate else candidate
      {
        LookFurther(scan, vs, at, lo, hi, direction, wanted, isDirectory);
        ghost var further := Look(scan, candidate, vs[candidate].path, isDirectory(vs[candidate].path));
        if isDirectory(vs[candidate].path) {
          scan := scan.(steps := scan.steps + 1, landing := candidate);
        } else {
          scan := scan.(missing := scan.missing[candidate := true], skipped := scan.skipped + [vs[candidate].path]);
        }
        assert scan == further;
        lo, hi := if direction == 1 then lo else lo - 1, if direction == 1 then hi + 1 else hi;
        candidate := candidate + direction;
      }
      ScanIsDone(vs, at, lo, hi, direction, wanted, scan.steps, isDirectory);
    }

    /** Removes the marked entries in one pass; the index and the landing follow their entries. */
    method Compact(missing: seq<bool>, landing: int) returns (newLanding: int)
      requires 0 <= index < |entries| == |missing| && -1 <= landing < |entries|
      modifies this
      ensures entries == Unmarked(old(entries), missing)
      ensures index == Place(old(entries), missing, old(index))
      ensures newLanding == if landing < 0 then -1 else Place(old(entries), missing, landing)
    {
      ghost var vs := entries;
      var kept := [];
      var newIndex := index;
      newLanding := landing;
      for row := 0 to |entries|
        invariant entries == vs && index == old(index)
        invariant kept == Unmarked(vs[..row], missing[..row])
        invariant newIndex == if row <= index then index - row + |kept| else Place(vs, missing, index)
        invariant newLanding ==
          if landing < 0 then -1 else if row <= landing then landing - row + |kept| else Place(vs, missing, landing)
      {
        assert vs[..row + 1][..row] == vs[..row] && missing[..row + 1][..row] == missing[..row];
        if !missing[row] {
          kept := kept + [entries[row]];
        } else {
          newIndex := newIndex - if row < index then 1 else 0;
          newLanding := newLanding - if row < landing then 1 else 0;
        }
      }
      assert vs[..|vs|] == vs && missing[..|vs|] == missing;
      entries := kept;
      index := newIndex;
    }
  }

  /** Dropping what the scan marked gives the specified list and index. */
  lemma TraversalShape(vs: seq<Visit>, index: nat, s: Scan, direction: int, wanted: nat, ok: string -> bool)
    requires index < |vs| && (direction == 1 || direction == -1)
    requires Examines(s, vs, index, direction, wanted, ok)
    ensures |s.missing| == |vs| && -1 <= s.landing < |vs|
    ensures var r, after := Range(vs, index, direction, wanted, ok), GoneTo(vs, index, direction, wanted, ok);
      && Unmarked(vs, s.missing) == after.entries
      && after.index == Place(vs, s.missing, if s.landing < 0 then index else s.landing)
      && (s.landing < 0 <==> Accepted(vs[r.0..r.1], ok) == [])
      && 0 <= after.index < |after.entries|
  {
    var (lo, hi) := Range(vs, index, direction, wanted, ok);
    EntriesShape(vs, s.missing, lo, hi, ok);
    GoneToShape(vs, index, direction, wanted, ok);
    if s.landing < 0 {
      IndexPlace(vs, s.missing, lo, hi, index, direction, ok);
    } else {
      LandingPlace(vs, s.missing, lo, hi, s.landing, direction, ok);
    }
  }

  ghost function Report(s: Scan, after: Jumps): TraverseResult
    requires 0 <= after.index < |after.entries|
  {
    if s.landing < 0 then UNMOVED.(skippedPaths := s.skipped)
    else
      var v := after.entries[after.index];
      TraverseResult(true, v.path, v.cursorName, s.skipped)
  }

  /** What is returned after the scan reports the traversal. */
  lemma TraversalReports(vs: seq<Visit>, index: nat, s: Scan, direction: int, wanted: nat, ok: string -> bool)
    requires index < |vs| && (direction == 1 || direction == -1)
    requires Examines(s, vs, index, direction, wanted, ok)
    ensures var after := GoneTo(vs, index, direction, wanted, ok);
      0 <= after.index < |after.entries| && Reports(Report(s, after), after, vs, index, direction, wanted, ok)
  {
    TraversalShape(vs, index, s, direction, wanted, ok);
  }

  /** The specified list drops the rejected entries of the range, and its index is within. */
  lemma GoneToShape(vs: seq<Visit>, index: nat, direction: int, wanted: nat, ok: string -> bool)
    requires index < |vs| && (direction == 1 || direction == -1)
    ensures var r, after := Range(vs, index, direction, wanted, ok), GoneTo(vs, index, direction, wanted, ok);
      var stay := Accepted(vs[r.0..r.1], ok);
      && after.entries == vs[..r.0] + stay + vs[r.1..] && 0 <= after.index < |after.entries|
      && after.index == if direction == 1 then index + |stay| else r.0
  {
  }

  lemma EntriesShape(vs: seq<Visit>, missing: seq<bool>, lo: nat, hi: nat, ok: string -> bool)
    requires lo <= hi <= |vs| && MarksRejected(missing, vs, lo, hi, ok)
    ensures Unmarked(vs, missing) == vs[..lo] + Accepted(vs[lo..hi], ok) + vs[hi..]
  {
    UnmarkedAfter(vs, missing, lo, hi, |vs|, ok);
    assert vs[..|vs|] == vs && missing[..|vs|] == missing && vs[hi..|vs|] == vs[hi..];
  }

  /** Where the current entry ends up when there is no landing. */
  lemma IndexPlace(vs: seq<Visit>, missing: seq<bool>, lo: nat, hi: nat, index: nat, direction: int,
                   ok: string -> bool)
    requires lo <= hi <= |vs| && MarksRejected(missing, vs, lo, hi, ok) && Lands(-1, vs, lo, hi, direction, ok)
    requires index < |vs| && if direction == 1 then lo == index + 1 else hi == index
    ensures Accepted(vs[lo..hi], ok) == []
    ensures Place(vs, missing, index) == if direction == 1 then index else lo
  {
    NoneAccepted(vs[lo..hi], ok);
    if direction == 1 {
      UnmarkedBefore(vs, missing, lo, hi, index, ok);
    } else {
      UnmarkedWithin(vs, missing, lo, hi, index, ok);
    }
  }

  /** Nothing skipped, nothing to drop. */
  lemma NothingSkipped(vs: seq<Visit>, s: Scan, index: nat, direction: int, wanted: nat, ok: string -> bool)
    requires index < |vs| && Examines(s, vs, index, direction, wanted, ok) && s.skipped == []
    ensures |s.missing| == |vs| && Unmarked(vs, s.missing) == vs
    ensures forall row | 0 <= row <= |vs| :: Place(vs, s.missing, row) == row
  {
    var (lo, hi) := Range(vs, index, direction, wanted, ok);
    NoneRejected(vs[lo..hi], ok);
    assert forall i | lo <= i < hi :: vs[i] == vs[lo..hi][i - lo];
    AllPlaces(vs, s.missing);
  }

  lemma AllPlaces(vs: seq<Visit>, missing: seq<bool>)
    requires |missing| == |vs| && forall i | 0 <= i < |vs| :: !missing[i]
    ensures Unmarked(vs, missing) == vs
    ensures forall row | 0 <= row <= |vs| :: Place(vs, missing, row) == row
  {
    UnmarkedAll(vs, missing);
    forall row | 0 <= row <= |vs|
      ensures Place(vs, missing, row) == row
    {
      UnmarkedAll(vs[..row], missing[..row]);
    }
  }

  lemma {:induction false} NoneRejected(vs: seq<Visit>, ok: string -> bool)
    requires Rejected(vs, ok) == [] || Reverse(Rejected(vs, ok)) == []
    ensures forall i | 0 <= i < |vs| :: ok(vs[i].path)
  {
    if vs != [] {
      NoneRejected(vs[1..], ok);
    }
  }

  // ----- what a traversal and a visit do -----

  lemma {:induction false} ForwardLands(vs: seq<Visit>, index: nat, wanted: nat, ok: string -> bool)
    requires index < |vs| && wanted > 0
    ensures var j, all := Forward(vs, index, wanted, ok), Accepted(vs[index + 1..], ok);
      var steps := Min(wanted, |all|);
      && j.index == index + steps < |j.entries| && j.entries[..index + 1] == vs[..index + 1]
      && (steps > 0 ==> j.entries[j.index] == all[steps - 1])
  {
    StayAreFirst(vs, index, wanted, ok);
  }

  lemma StayAreFirst(vs: seq<Visit>, index: nat, wanted: nat, ok: string -> bool)
    requires index < |vs|
    ensures var ahead := vs[index + 1..];
      var all := Accepted(ahead, ok);
      Accepted(vs[index + 1..index + 1 + Examined(ahead, ok, wanted)], ok) == all[..Min(wanted, |all|)]
  {
    var ahead := vs[index + 1..];
    var n := Examined(ahead, ok, wanted);
    AcceptedOfExamined(ahead, ok, wanted);
    assert ahead[..n] == vs[index + 1..index + 1 + n];
  }

  /** The accepted among the examined are the first of all that are accepted. */
  lemma AcceptedOfExamined(vs: seq<Visit>, ok: string -> bool, wanted: nat)
    ensures var n, all := Examined(vs, ok, wanted), Accepted(vs, ok);
      Accepted(vs[..n], ok) == all[..Min(wanted, |all|)]
  {
    var n := Examined(vs, ok, wanted);
    ExaminedSteps(vs, ok, wanted);
    assert vs == vs[..n] + vs[n..];
    AcceptedConcat(vs[..n], vs[n..], ok);
  }

  lemma {:induction false} BackLands(vs: seq<Visit>, index: nat, wanted: nat, ok: string -> bool)
    requires index < |vs| && wanted > 0
    ensures var j, all := Back(vs, index, wanted, ok), Accepted(vs[..index], ok);
      var steps := Min(wanted, |all|);
      && 0 <= j.index < |j.entries| && j.index + steps < |j.entries|
      && j.entries[j.index + steps..] == vs[index..]
      && j.entries[j.index..j.index + steps] == all[|all| - steps..]
  {
    var behind := vs[..index];
    var first := index - ExaminedBack(behind, ok, wanted);
    ExaminedBackSteps(behind, ok, wanted);
    assert behind == behind[..first] + behind[first..] && behind[first..] == vs[first..index];
    AcceptedConcat(behind[..first], behind[first..], ok);
  }

  /** The min(wanted, available)-th entry that is a directory, or the current one. */
  ghost function Target(vs: seq<Visit>, index: nat, direction: int, wanted: nat, ok: string -> bool): Visit
    requires index < |vs|
  {
    var all := Accepted(if direction == 1 then vs[index + 1..] else vs[..index], ok);
    var steps := Min(wanted, |all|);
    if steps == 0 then vs[index] else if direction == 1 then all[steps - 1] else all[|all| - steps]
  }

  lemma GoneToLands(vs: seq<Visit>, index: nat, direction: int, wanted: nat, ok: string -> bool)
    requires index < |vs| && wanted > 0
    ensures var after := GoneTo(vs, index, direction, wanted, ok);
      0 <= after.index < |after.entries| && after.entries[after.index] == Target(vs, index, direction, wanted, ok)
  {
    var after := GoneTo(vs, index, direction, wanted, ok);
    if direction == 1 {
      ForwardLands(vs, index, wanted, ok);
      assert after.entries[index] == after.entries[..index + 1][index] == vs[index];
    } else {
      BackLands(vs, index, wanted, ok);
      var all := Accepted(vs[..index], ok);
      var steps := Min(wanted, |all|);
      if steps == 0 {
        assert after.entries[after.index] == after.entries[after.index..][0] == vs[index..][0];
      } else {
        assert after.entries[after.index] == after.entries[after.index..after.index + steps][0];
      }
    }
  }

  /** A traversal lands on the min(count, available)-th entry that is a directory, or stays. */
  lemma TraverseLands(j: Jumps, direction: int, count: int, name: string, ok: string -> bool)
    requires WellFormed(j) && j.index >= 0 && (direction == 1 || direction == -1)
    ensures var after := Traversed(j, direction, count, name, ok);
      && 0 <= after.index < |after.entries|
      && after.entries[after.index] == Target(Left(j, name), j.index, direction, Max(1, count), ok)
  {
    GoneToLands(Left(j, name), j.index, direction, Max(1, count), ok);
  }

  lemma {:induction false} UnmarkedDistinct(vs: seq<Visit>, missing: seq<bool>)
    requires |vs| == |missing| && DistinctPaths(vs)
    ensures DistinctPaths(Unmarked(vs, missing)) && |Unmarked(vs, missing)| <= |vs|
    ensures forall v | v in Unmarked(vs, missing) :: v in vs
    decreases |vs|
  {
    if vs != [] {
      var n := |vs| - 1;
      UnmarkedDistinct(vs[..n], missing[..n]);
      forall v | v in Unmarked(vs[..n], missing[..n])
        ensures v.path != vs[n].path && v in vs
      {
        var k :| 0 <= k < n && vs[..n][k] == v;
        assert vs[k] == v;
      }
    }
  }

  lemma {:induction false} DropKeepsDistinct(vs: seq<Visit>, lo: nat, hi: nat, ok: string -> bool)
    requires DistinctPaths(vs) && lo <= hi <= |vs|
    ensures var after := vs[..lo] + Accepted(vs[lo..hi], ok) + vs[hi..];
      DistinctPaths(after) && |after| <= |vs|
  {
    var missing := seq(|vs|, i requires 0 <= i < |vs| => lo <= i < hi && !ok(vs[i].path));
    UnmarkedAfter(vs, missing, lo, hi, |vs|, ok);
    UnmarkedDistinct(vs, missing);
    assert vs[..|vs|] == vs && missing[..|vs|] == missing && vs[hi..|vs|] == vs[hi..];
  }

  lemma TraversedEntries(j: Jumps, direction: int, count: int, name: string, ok: string -> bool)
    requires WellFormed(j) && j.index >= 0 && (direction == 1 || direction == -1)
    ensures var after := Traversed(j, direction, count, name, ok).entries;
      DistinctPaths(after) && |after| <= |j.entries|
  {
    var vs := Left(j, name);
    var r := Range(vs, j.index, direction, Max(1, count), ok);
    DropKeepsDistinct(vs, r.0, r.1, ok);
    TraversedShape(j, direction, count, name, ok);
  }

  lemma TraversedShape(j: Jumps, direction: int, count: int, name: string, ok: string -> bool)
    requires WellFormed(j) && j.index >= 0 && (direction == 1 || direction == -1)
    ensures var vs := Left(j, name);
      var r := Range(vs, j.index, direction, Max(1, count), ok);
      && DistinctPaths(vs)
      && Traversed(j, direction, count, name, ok).entries == vs[..r.0] + Accepted(vs[r.0..r.1], ok) + vs[r.1..]
  {
  }

  lemma TraverseKeepsWellFormed(j: Jumps, direction: int, count: int, name: string, ok: string -> bool)
    requires WellFormed(j)
    ensures WellFormed(Traversed(j, direction, count, name, ok))
  {
    if j.index >= 0 && (direction == 1 || direction == -1) {
      TraverseLands(j, direction, count, name, ok);
      TraversedEntries(j, direction, count, name, ok);
    }
  }

  /** The traversal looks at entry `i`: it lies in the direction of travel, and fewer directories than wanted lie
      before it. */
  ghost predicate LooksAt(vs: seq<Visit>, index: nat, direction: int, wanted: nat, ok: string -> bool, i: nat)
    requires index < |vs| && i < |vs|
  {
    if direction == 1 then index < i && |Accepted(vs[index + 1..i], ok)| < wanted
    else i < index && |Accepted(vs[i + 1..index], ok)| < wanted
  }

  lemma {:induction false} ExaminedExactly(vs: seq<Visit>, ok: string -> bool, wanted: nat, i: nat)
    requires i < |vs|
    ensures i < Examined(vs, ok, wanted) <==> |Accepted(vs[..i], ok)| < wanted
  {
    if i == 0 {
      assert vs[..0] == [];
    } else if wanted > 0 {
      ExaminedExactly(vs[1..], ok, if ok(vs[0].path) then wanted - 1 else wanted, i - 1);
      assert vs[..i][1..] == vs[1..][..i - 1];
    }
  }

  lemma {:induction false} ExaminedBackExactly(vs: seq<Visit>, ok: string -> bool, wanted: nat, i: nat)
    requires i < |vs|
    ensures |vs| - ExaminedBack(vs, ok, wanted) <= i <==> |Accepted(vs[i + 1..], ok)| < wanted
    decreases |vs|
  {
    var init, last := vs[..|vs| - 1], vs[|vs| - 1];
    if i == |vs| - 1 {
      assert vs[i + 1..] == [];
    } else if wanted > 0 {
      ExaminedBackExactly(init, ok, if ok(last.path) then wanted - 1 else wanted, i);
      assert vs[i + 1..] == init[i + 1..] + [last];
      AcceptedLast(init[i + 1..], last, ok);
    }
  }

  lemma RangeIsLookedAt(vs: seq<Visit>, index: nat, direction: int, wanted: nat, ok: string -> bool, i: nat)
    requires index < |vs| && i < |vs|
    ensures var r := Range(vs, index, direction, wanted, ok);
      r.0 <= i < r.1 <==> LooksAt(vs, index, direction, wanted, ok, i)
  {
    if direction == 1 && index < i {
      ExaminedExactly(vs[index + 1..], ok, wanted, i - index - 1);
      assert vs[index + 1..][..i - index - 1] == vs[index + 1..i];
    } else if direction != 1 && i < index {
      ExaminedBackExactly(vs[..index], ok, wanted, i);
      assert vs[..index][i + 1..] == vs[i + 1..index];
    }
  }

  lemma DroppedFromRange(vs: seq<Visit>, lo: nat, hi: nat, ok: string -> bool, i: nat)
    requires DistinctPaths(vs) && lo <= hi <= |vs| && i < |vs|
    ensures vs[i] in vs[..lo] + Accepted(vs[lo..hi], ok) + vs[hi..] <==> !(lo <= i < hi && !ok(vs[i].path))
  {
    AcceptedMembers(vs[lo..hi], ok);
    if i < lo {
      assert vs[i] in vs[..lo];
    } else if i >= hi {
      assert vs[i] in vs[hi..];
    } else {
      assert vs[i] in vs[lo..hi];
      assert vs[i] !in vs[..lo] && vs[i] !in vs[hi..];
    }
  }

  /** A traversal removes exactly the entries it looks at and finds to be no directory. */
  lemma TraverseRemovesExactly(j: Jumps, direction: int, count: int, name: string, ok: string -> bool, i: nat)
    requires WellFormed(j) && j.index >= 0 && (direction == 1 || direction == -1) && i < |j.entries|
    ensures var vs := Left(j, name);
      vs[i] in Traversed(j, direction, count, name, ok).entries <==>
        !(LooksAt(vs, j.index, direction, Max(1, count), ok, i) && !ok(vs[i].path))
  {
    var vs := Left(j, name);
    var r := Range(vs, j.index, direction, Max(1, count), ok);
    RangeIsLookedAt(vs, j.index, direction, Max(1, count), ok, i);
    TraversedShape(j, direction, count, name, ok);
    DroppedFromRange(vs, r.0, r.1, ok, i);
  }

  lemma {:induction false} MovedToEnd(vs: seq<Visit>, path: string)
    requires DistinctPaths(vs)
    ensures DistinctPaths(Without(vs, path) + [Visit(path, "")]) && |Without(vs, path)| <= |vs|
  {
    var others := Without(vs, path);
    AcceptedMembers(vs, p => p != path);
    AcceptedDistinct(vs, p => p != path);
    forall i | 0 <= i < |others|
      ensures others[i].path != path
    {
      assert others[i] in others;
    }
  }

  lemma {:induction false} AllAccepted(vs: seq<Visit>, ok: string -> bool)
    requires forall i | 0 <= i < |vs| :: ok(vs[i].path)
    ensures Accepted(vs, ok) == vs
  {
    if vs != [] {
      AllAccepted(vs[1..], ok);
    }
  }

  /** Removing a path from distinct ones removes the one entry that has it. */
  lemma {:induction false} WithoutOne(vs: seq<Visit>, q: nat, path: string)
    requires DistinctPaths(vs) && q < |vs| && vs[q].path == path
    ensures Without(vs, path) == vs[..q] + vs[q + 1..]
  {
    if q == 0 {
      AllAccepted(vs[1..], p => p != path);
      assert vs[..0] + vs[1..] == vs[1..];
    } else {
      WithoutOne(vs[1..], q - 1, path);
      assert vs[0].path != path;
      assert vs[..q] + vs[q + 1..] == [vs[0]] + (vs[1..][..q - 1] + vs[1..][q..]);
    }
  }

  /** A list without the path, with the path behind it, and without the oldest if that is too long. */
  lemma NewAtEnd(vs: seq<Visit>, path: string)
    requires |vs| <= CAPACITY && !HasPath(vs, path)
    ensures var all := Without(vs, path) + [Visit(path, "")];
      (if |all| > CAPACITY then all[1..] else all) ==
        (if |vs| < CAPACITY then vs else vs[1..]) + [Visit(path, "")]
  {
    AllAccepted(vs, p => p != path);
    if |vs| == CAPACITY {
      assert (vs + [Visit(path, "")])[1..] == vs[1..] + [Visit(path, "")];
    }
  }

  /** What a visit does to the list. */
  lemma RecordMovesToEnd(j: Jumps, path: string, name: string)
    requires WellFormed(j)
    ensures MovesToEnd(j, Recorded(j, path, name), path, name)
  {
    var vs := if j.index >= 0 then Left(j, name) else j.entries;
    if !(j.index >= 0 && CurrentPath(j) == path) {
      if HasPath(vs, path) {
        forall q | 0 <= q < |vs| && vs[q].path == path
          ensures Without(vs, path) == vs[..q] + vs[q + 1..]
        {
          WithoutOne(vs, q, path);
        }
      } else {
        NewAtEnd(vs, path);
      }
    }
  }

  lemma LeftHasPath(j: Jumps, path: string, name: string)
    requires 0 <= j.index < |j.entries|
    ensures HasPath(Left(j, name), path) <==> HasPath(j.entries, path)
  {
    assert forall q | 0 <= q < |j.entries| :: Left(j, name)[q].path == j.entries[q].path;
  }

  lemma KeptAt(vs: seq<Visit>, i: nat, q: nat, last: Visit)
    requires i < |vs| && q < |vs| && i != q
    ensures vs[i] in vs[..q] + vs[q + 1..] + [last]
  {
    assert (vs[..q] + vs[q + 1..] + [last])[if i < q then i else i - 1] == vs[i];
  }

  lemma KeptBehindFirst(vs: seq<Visit>, i: nat, last: Visit)
    requires 0 < i < |vs|
    ensures vs[i] in vs[1..] + [last]
  {
    assert (vs[1..] + [last])[i - 1] == vs[i];
  }

  /** The entry left stays in the list with its name, unless it is the oldest of a full list. */
  lemma VisitKeepsLeft(j: Jumps, path: string, name: string)
    requires WellFormed(j) && j.index >= 0 && CurrentPath(j) != path
    requires |j.entries| < CAPACITY || j.index > 0 || HasPath(j.entries, path)
    ensures Visit(CurrentPath(j), name) in Recorded(j, path, name).entries
  {
    RecordMovesToEnd(j, path, name);
    LeftHasPath(j, path, name);
    var vs := Left(j, name);
    if HasPath(vs, path) {
      var q :| 0 <= q < |vs| && vs[q].path == path;
      KeptAt(vs, j.index, q, Visit(path, ""));
    } else if |vs| == CAPACITY {
      KeptBehindFirst(vs, j.index, Visit(path, ""));
    } else {
      assert vs[j.index] in vs;
    }
  }

  /** A visit makes its path the current one, at the end. */
  lemma RecordKeepsWellFormed(j: Jumps, path: string, name: string)
    requires WellFormed(j)
    ensures WellFormed(Recorded(j, path, name)) && CurrentPath(Recorded(j, path, name)) == path
    ensures Recorded(j, path, name) == j || Recorded(j, path, name).index == |Recorded(j, path, name).entries| - 1
  {
    if !(j.index >= 0 && j.entries[j.index].path == path) {
      var vs := if j.index >= 0 then Left(j, name) else j.entries;
      MovedToEnd(vs, path);
    }
  }

  /** After going back k entries the one left is k entries ahead, and all between are directories. */
  lemma BackReaches(vs: seq<Visit>, index: nat, k: nat, ok: string -> bool)
    requires index < |vs| && 0 < k <= |Accepted(vs[..index], ok)|
    ensures var j := Back(vs, index, k, ok);
      && 0 <= j.index && j.index + k < |j.entries| && j.entries[j.index + k] == vs[index]
      && forall i | j.index < i < j.index + k :: ok(j.entries[i].path)
  {
    var j, behind := Back(vs, index, k, ok), Accepted(vs[..index], ok);
    BackLands(vs, index, k, ok);
    AcceptedMembers(vs[..index], ok);
    forall i | j.index < i < j.index + k
      ensures ok(j.entries[i].path)
    {
      assert j.entries[i] == j.entries[j.index..j.index + k][i - j.index] == behind[|behind| - k..][i - j.index];
      assert j.entries[i] in behind;
    }
    assert j.entries[j.index + k] == j.entries[j.index + k..][0];
  }

  /** Going back over k entries that are directories, and forward again, returns to the entry left, with the
      name under the cursor saved when it was left. */
  lemma {:induction false} RoundTrip(j: Jumps, k: nat, name: string, other: string, ok: string -> bool)
    requires WellFormed(j) && j.index >= 0 && ok(CurrentPath(j))
    requires 0 < k <= Moves(Left(j, name), j.index, -1, ok)
    ensures var back := Traversed(j, -1, k, name, ok);
      && 0 <= back.index < |back.entries|
      && var again := Traversed(back, 1, k, other, ok);
      && 0 <= again.index < |again.entries|
      && again.entries[again.index] == Visit(CurrentPath(j), name)
  {
    var back := Traversed(j, -1, k, name, ok);
    assert back == Back(Left(j, name), j.index, k, ok);
    BackReaches(Left(j, name), j.index, k, ok);
    assert back.entries[back.index + k].path == CurrentPath(j);
    Return(back.entries, back.index, k, other, ok);
  }

  lemma {:induction false} Return(vs: seq<Visit>, at: nat, k: nat, name: string, ok: string -> bool)
    requires 0 < k && at + k < |vs| && forall i | at < i <= at + k :: ok(vs[i].path)
    ensures var j := Traversed(Jumps(vs, at), 1, k, name, ok);
      j.index == at + k < |j.entries| && j.entries[j.index] == vs[at + k]
  {
    var left := Left(Jumps(vs, at), name);
    var ahead := left[at + 1..];
    assert forall i | 0 <= i < k :: ahead[i] == vs[at + 1 + i];
    PrefixAccepted(ahead, ok, k);
    ForwardLands(left, at, k, ok);
  }

  lemma {:induction false} PrefixAccepted(vs: seq<Visit>, ok: string -> bool, k: nat)
    requires 0 < k <= |vs| && forall i | 0 <= i < k :: ok(vs[i].path)
    ensures |Accepted(vs, ok)| >= k && Accepted(vs, ok)[k - 1] == vs[k - 1]
  {
    ExaminedPrefix(vs, ok, k);
    assert vs == vs[..k] + vs[k..];
    AcceptedConcat(vs[..k], vs[k..], ok);
  }
}
