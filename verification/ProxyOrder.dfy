/** The order of the shown rows, with the placeholder of an entry being created next to its anchor. */
module ProxyOrder {
  import opened Listing

  /** The placeholder's source row (negative: none), the sort key it borrows, and its side of the anchor. */
  datatype Pin = Pin(row: int, anchorName: string, anchorIsDir: bool, below: bool)

  const NO_PIN := Pin(-1, "", false, false)

  type Compare = (string, string) -> int

  ghost predicate TotalOrder(cmp: Compare) {
    && (forall a, b :: cmp(a, b) == 0 <==> a == b)
    && (forall a, b :: cmp(a, b) < 0 <==> cmp(b, a) > 0)
    && (forall a, b, c :: cmp(a, b) < 0 && cmp(b, c) < 0 ==> cmp(a, c) < 0)
  }

  /** Directories first, then by name. */
  function BaseLess(cmp: Compare, left: Entry, right: Entry): bool {
    if left.isDir != right.isDir then left.isDir else cmp(left.name, right.name) < 0
  }

  /** Source row `pin.row` is the placeholder; it need not be among `rows` yet. */
  function LessThan(cmp: Compare, pin: Pin, descending: bool, rows: seq<Entry>, left: nat, right: nat): bool
    requires left < |rows| || left == pin.row
    requires right < |rows| || right == pin.row
  {
    if pin.row < 0 || (left != pin.row && right != pin.row) then BaseLess(cmp, rows[left], rows[right])
    else
      var leftIs, rightIs := left == pin.row, right == pin.row;
      var leftIsDir := if leftIs then pin.anchorIsDir else rows[left].isDir;
      var rightIsDir := if rightIs then pin.anchorIsDir else rows[right].isDir;
      if leftIsDir != rightIsDir then leftIsDir
      else
        var order := cmp(if leftIs then pin.anchorName else rows[left].name,
                         if rightIs then pin.anchorName else rows[right].name);
        var belowInAscending := pin.below != descending;
        if order != 0 then order < 0
        else if leftIs != rightIs then (if leftIs then !belowInAscending else belowInAscending)
        else false
  }

  /** Sorting in descending order asks the opposite question. */
  function Before(cmp: Compare, pin: Pin, descending: bool, rows: seq<Entry>, a: nat, b: nat): bool
    requires a < |rows| || a == pin.row
    requires b < |rows| || b == pin.row
  {
    if descending then LessThan(cmp, pin, descending, rows, b, a) else LessThan(cmp, pin, descending, rows, a, b)
  }

  ghost predicate DistinctKeys(rows: seq<Entry>) {
    forall i, j | 0 <= i < j < |rows| :: rows[i].isDir != rows[j].isDir || rows[i].name != rows[j].name
  }

  /** The placeholder stands behind the last row of the model. */
  ghost predicate Pinned(pin: Pin, rows: seq<Entry>) {
    pin.row == |rows|
  }

  ghost predicate Known(pin: Pin, rows: seq<Entry>, r: nat) {
    r < |rows| || r == pin.row
  }

  /** With the placeholder among the rows the comparison is still a strict total order. */
  lemma LessIsIrreflexive(cmp: Compare, pin: Pin, descending: bool, rows: seq<Entry>, a: nat)
    requires TotalOrder(cmp) && Known(pin, rows, a)
    ensures !LessThan(cmp, pin, descending, rows, a, a)
  {
    if a != pin.row {
      assert cmp(rows[a].name, rows[a].name) == 0;
    }
  }

  lemma LessIsTotal(cmp: Compare, pin: Pin, descending: bool, rows: seq<Entry>, a: nat, b: nat)
    requires TotalOrder(cmp) && DistinctKeys(rows) && Pinned(pin, rows)
    requires Known(pin, rows, a) && Known(pin, rows, b) && a != b
    ensures LessThan(cmp, pin, descending, rows, a, b) != LessThan(cmp, pin, descending, rows, b, a)
  {
    var an := if a == pin.row then pin.anchorName else rows[a].name;
    var bn := if b == pin.row then pin.anchorName else rows[b].name;
    assert cmp(an, bn) < 0 || cmp(bn, an) < 0 || cmp(an, bn) == 0;
    assert cmp(an, bn) == 0 <==> cmp(bn, an) == 0;
  }

  /** The sort keys: the placeholder's is the anchor's, shifted by half a place. */
  ghost function Side(pin: Pin, descending: bool, r: nat): int {
    if r != pin.row then 0 else if pin.below != descending then 1 else -1
  }

  lemma LessIsTransitive(cmp: Compare, pin: Pin, descending: bool, rows: seq<Entry>, a: nat, b: nat, c: nat)
    requires TotalOrder(cmp) && DistinctKeys(rows) && Pinned(pin, rows)
    requires Known(pin, rows, a) && Known(pin, rows, b) && Known(pin, rows, c)
    requires LessThan(cmp, pin, descending, rows, a, b) && LessThan(cmp, pin, descending, rows, b, c)
    ensures LessThan(cmp, pin, descending, rows, a, c)
  {
    var an := if a == pin.row then pin.anchorName else rows[a].name;
    var bn := if b == pin.row then pin.anchorName else rows[b].name;
    var cn := if c == pin.row then pin.anchorName else rows[c].name;
    LessByKey(cmp, pin, descending, rows, a, b);
    LessByKey(cmp, pin, descending, rows, b, c);
    LessByKey(cmp, pin, descending, rows, a, c);
    assert cmp(an, bn) < 0 && cmp(bn, cn) < 0 ==> cmp(an, cn) < 0;
    assert cmp(an, bn) == 0 ==> an == bn;
    assert cmp(bn, cn) == 0 ==> bn == cn;
    assert cmp(an, cn) == 0 <==> an == cn;
  }

  lemma LessByKey(cmp: Compare, pin: Pin, descending: bool, rows: seq<Entry>, a: nat, b: nat)
    requires TotalOrder(cmp) && Known(pin, rows, a) && Known(pin, rows, b) && Pinned(pin, rows)
    ensures var ad := if a == pin.row then pin.anchorIsDir else rows[a].isDir;
      var bd := if b == pin.row then pin.anchorIsDir else rows[b].isDir;
      var order := cmp(if a == pin.row then pin.anchorName else rows[a].name,
                       if b == pin.row then pin.anchorName else rows[b].name);
      LessThan(cmp, pin, descending, rows, a, b) <==>
        if ad != bd then ad else order < 0 || (order == 0 && Side(pin, descending, a) < Side(pin, descending, b))
  {
  }

  // ----- the sorted list -----

  /** Each shown row comes before all later ones. */
  ghost predicate Sorted(cmp: Compare, pin: Pin, descending: bool, rows: seq<Entry>, order: seq<nat>) {
    && (forall i | 0 <= i < |order| :: Known(pin, rows, order[i]))
    && (forall i, j | 0 <= i < j < |order| :: Before(cmp, pin, descending, rows, order[i], order[j]))
  }

  ghost function Shown(order: seq<nat>): set<nat> {
    set i | 0 <= i < |order| :: order[i]
  }

  /** There is only one sorted list of the same rows. */
  lemma {:induction false} SortedIsUnique(cmp: Compare, pin: Pin, descending: bool, rows: seq<Entry>, x: seq<nat>,
                                          y: seq<nat>)
    requires TotalOrder(cmp) && DistinctKeys(rows) && Pinned(pin, rows)
    requires Sorted(cmp, pin, descending, rows, x) && Sorted(cmp, pin, descending, rows, y) && Shown(x) == Shown(y)
    ensures x == y
  {
    FirstIsShown(x);
    FirstIsShown(y);
    if x != [] && y != [] {
      var j :| 0 <= j < |y| && y[j] == x[0];
      var i :| 0 <= i < |x| && x[i] == y[0];
      NotBothBefore(cmp, pin, descending, rows, x[0], y[0]);
      assert x[0] == y[0];
      TailShows(cmp, pin, descending, rows, x);
      TailShows(cmp, pin, descending, rows, y);
      SortedIsUnique(cmp, pin, descending, rows, x[1..], y[1..]);
    }
  }

  lemma FirstIsShown(x: seq<nat>)
    ensures x == [] <==> Shown(x) == {}
    ensures x != [] ==> x[0] in Shown(x)
  {
    if x != [] {
      assert x[0] in Shown(x);
    }
  }

  lemma NotBothBefore(cmp: Compare, pin: Pin, descending: bool, rows: seq<Entry>, a: nat, b: nat)
    requires TotalOrder(cmp) && DistinctKeys(rows) && Pinned(pin, rows)
    requires Known(pin, rows, a) && Known(pin, rows, b)
    ensures !(Before(cmp, pin, descending, rows, a, b) && Before(cmp, pin, descending, rows, b, a))
  {
    LessIsIrreflexive(cmp, pin, descending, rows, a);
    if a != b {
      LessIsTotal(cmp, pin, descending, rows, a, b);
    }
  }

  lemma TailShows(cmp: Compare, pin: Pin, descending: bool, rows: seq<Entry>, x: seq<nat>)
    requires TotalOrder(cmp) && DistinctKeys(rows) && Pinned(pin, rows)
    requires x != [] && Sorted(cmp, pin, descending, rows, x)
    ensures Sorted(cmp, pin, descending, rows, x[1..]) && Shown(x[1..]) == Shown(x) - {x[0]}
  {
    forall k | 0 < k < |x|
      ensures x[k] != x[0]
    {
      NotBothBefore(cmp, pin, descending, rows, x[0], x[k]);
    }
    forall r
      ensures r in Shown(x[1..]) <==> r in Shown(x) - {x[0]}
    {
      if r in Shown(x) - {x[0]} {
        var k :| 0 <= k < |x| && x[k] == r;
        assert x[1..][k - 1] == r;
      }
    }
  }

  ghost function InsertAt(order: seq<nat>, k: nat, r: nat): seq<nat>
    requires k <= |order|
  {
    order[..k] + [r] + order[k..]
  }

  /** The anchor's row, whose sort key the placeholder borrows. */
  ghost predicate Anchored(pin: Pin, rows: seq<Entry>, anchor: nat) {
    anchor < |rows| && rows[anchor].name == pin.anchorName && rows[anchor].isDir == pin.anchorIsDir
  }

  lemma BesideAnchor(cmp: Compare, pin: Pin, descending: bool, rows: seq<Entry>, anchor: nat)
    requires TotalOrder(cmp) && Pinned(pin, rows) && Anchored(pin, rows, anchor)
    ensures Before(cmp, pin, descending, rows, anchor, pin.row) == pin.below
    ensures Before(cmp, pin, descending, rows, pin.row, anchor) == !pin.below
  {
    assert cmp(pin.anchorName, pin.anchorName) == 0;
  }

  /** The list with the placeholder is the list without it, and the placeholder directly below or directly
      above its anchor as asked, whichever way the list is sorted. */
  lemma PlaceholderIsBesideAnchor(cmp: Compare, pin: Pin, descending: bool, rows: seq<Entry>, anchor: nat,
                                  order: seq<nat>, withIt: seq<nat>, k: nat)
    requires TotalOrder(cmp) && DistinctKeys(rows) && Pinned(pin, rows) && Anchored(pin, rows, anchor)
    requires Sorted(cmp, NO_PIN, descending, rows, order) && k < |order| && order[k] == anchor
    requires Sorted(cmp, pin, descending, rows, withIt) && Shown(withIt) == Shown(order) + {|rows|}
    ensures withIt == InsertAt(order, if pin.below then k + 1 else k, |rows|)
  {
    var at := if pin.below then k + 1 else k;
    var expected := InsertAt(order, at, |rows|);
    InsertedIsSorted(cmp, pin, descending, rows, anchor, order, k);
    assert Shown(expected) == Shown(order) + {|rows|} by {
      InsertShows(order, at, |rows|);
    }
    SortedIsUnique(cmp, pin, descending, rows, withIt, expected);
  }

  lemma InsertShows(order: seq<nat>, at: nat, r: nat)
    requires at <= |order|
    ensures Shown(InsertAt(order, at, r)) == Shown(order) + {r}
  {
    var all := InsertAt(order, at, r);
    forall x
      ensures x in Shown(all) <==> x in Shown(order) + {r}
    {
      if x in Shown(order) {
        var i :| 0 <= i < |order| && order[i] == x;
        assert all[if i < at then i else i + 1] == x;
      }
      if x == r {
        assert all[at] == x;
      }
    }
  }

  /** Every shown row stands to the placeholder as to the anchor. */
  lemma StandsBeside(cmp: Compare, pin: Pin, descending: bool, rows: seq<Entry>, anchor: nat, order: seq<nat>, k: nat,
                     i: nat)
    requires TotalOrder(cmp) && DistinctKeys(rows) && Pinned(pin, rows) && Anchored(pin, rows, anchor)
    requires Sorted(cmp, NO_PIN, descending, rows, order) && k < |order| && order[k] == anchor && i < |order|
    ensures i < (if pin.below then k + 1 else k) ==> Before(cmp, pin, descending, rows, order[i], pin.row)
    ensures i >= (if pin.below then k + 1 else k) ==> Before(cmp, pin, descending, rows, pin.row, order[i])
  {
    BesideAnchor(cmp, pin, descending, rows, anchor);
  }

  lemma InsertedIsSorted(cmp: Compare, pin: Pin, descending: bool, rows: seq<Entry>, anchor: nat, order: seq<nat>,
                         k: nat)
    requires TotalOrder(cmp) && DistinctKeys(rows) && Pinned(pin, rows) && Anchored(pin, rows, anchor)
    requires Sorted(cmp, NO_PIN, descending, rows, order) && k < |order| && order[k] == anchor
    ensures Sorted(cmp, pin, descending, rows, InsertAt(order, if pin.below then k + 1 else k, |rows|))
  {
    var at := if pin.below then k + 1 else k;
    var all := InsertAt(order, at, |rows|);
    forall i | 0 <= i < |order|
      ensures Known(NO_PIN, rows, order[i])
    {
    }
    forall i, j | 0 <= i < j < |all|
      ensures Before(cmp, pin, descending, rows, all[i], all[j])
    {
      if i == at {
        StandsBeside(cmp, pin, descending, rows, anchor, order, k, j - 1);
      } else if j == at {
        StandsBeside(cmp, pin, descending, rows, anchor, order, k, i);
      } else {
        var a, b := if i < at then i else i - 1, if j < at then j else j - 1;
        assert all[i] == order[a] && all[j] == order[b];
        assert Before(cmp, NO_PIN, descending, rows, order[a], order[b]);
      }
    }
  }
}
