/** The renderer's bookkeeping in one `update` pass: the keyed data join, the
    extent scan that sizes the canvas, and the margins it uses. */
module Reconcile {

  /** A laid-out position. As in d3's horizontal tidy tree, `x` is the row
      (vertical) coordinate and `y` the column (horizontal) one. */
  datatype Point = Point(x: real, y: real)

  const MarginTop: real := 10.0
  const MarginRight: real := 10.0
  const MarginBottom: real := 10.0
  const MarginLeft: real := 40.0

  /** The outcome of `selection.data(items, key)` followed by `enter()` / `exit()`:
      the keys that get new elements, the keys whose elements are kept, and the keys
      whose elements are removed. */
  datatype Join = Join(enter: set<nat>, update: set<nat>, exit: set<nat>)

  /** The join of the keys on screen (`prev`) with the keys of the new data (`next`). */
  function KeyedJoin(prev: set<nat>, next: set<nat>): (j: Join)
    ensures j.enter + j.update == next
    ensures j.update + j.exit == prev
    ensures j.enter !! j.update && j.update !! j.exit && j.enter !! j.exit
  {
    Join(next - prev, next * prev, prev - next)
  }

  /** The partition laws determine the join: any three sets meeting them are
      entering = new minus old, updating = old and new, exiting = old minus new. */
  lemma JoinDetermined(prev: set<nat>, next: set<nat>, j: Join)
    requires j.enter + j.update == next && j.update + j.exit == prev
    requires j.enter !! j.update && j.update !! j.exit && j.enter !! j.exit
    ensures j == KeyedJoin(prev, next)
  {
    var k := KeyedJoin(prev, next);
    assert j.enter == k.enter;
    assert j.update == k.update;
    assert j.exit == k.exit;
  }

  /** Re-joining the keys already on screen enters nothing and removes nothing. */
  lemma JoinSameKeys(keys: set<nat>)
    ensures KeyedJoin(keys, keys) == Join({}, keys, {})
  {
  }

  /** The nodes with the smallest and the largest `x` found so far. */
  datatype Extent = Extent(left: nat, right: nat)

  /** The scan of `update` after it has visited the first `n` nodes of `order`: it starts
      with `left = right = order[0]` (the root) and moves `left` (`right`) to a visited
      node only when that node's `x` is strictly smaller (larger). */
  function Scan(order: seq<nat>, pos: map<nat, Point>, n: nat): (e: Extent)
    requires 0 < |order| && n <= |order| && forall k :: 0 <= k < |order| ==> order[k] in pos
    ensures e.left in order && e.right in order
  {
    if n == 0 then Extent(order[0], order[0])
    else
      var e := Scan(order, pos, n - 1);
      var node := order[n - 1];
      Extent(if pos[node].x < pos[e.left].x then node else e.left,
             if pos[node].x > pos[e.right].x then node else e.right)
  }

  /** After `n > 0` steps, `left` has the smallest and `right` the largest `x` among the
      visited nodes, and each is the first visited node with that `x`. */
  lemma {:induction false} ScanExtremes(order: seq<nat>, pos: map<nat, Point>, n: nat)
    requires 0 < n <= |order| && forall k :: 0 <= k < |order| ==> order[k] in pos
    ensures forall k :: 0 <= k < n ==>
              pos[Scan(order, pos, n).left].x <= pos[order[k]].x <= pos[Scan(order, pos, n).right].x
    ensures exists q :: 0 <= q < n && order[q] == Scan(order, pos, n).left &&
              forall k :: 0 <= k < q ==> pos[order[k]].x > pos[Scan(order, pos, n).left].x
    ensures exists q :: 0 <= q < n && order[q] == Scan(order, pos, n).right &&
              forall k :: 0 <= k < q ==> pos[order[k]].x < pos[Scan(order, pos, n).right].x
  {
    var e := Scan(order, pos, n);
    if n == 1 {
      assert Scan(order, pos, 0) == Extent(order[0], order[0]);
      assert e == Extent(order[0], order[0]);
    } else {
      ScanExtremes(order, pos, n - 1);
      var e' := Scan(order, pos, n - 1);
      var ql :| 0 <= ql < n - 1 && order[ql] == e'.left &&
                forall k :: 0 <= k < ql ==> pos[order[k]].x > pos[e'.left].x;
      var qr :| 0 <= qr < n - 1 && order[qr] == e'.right &&
                forall k :: 0 <= k < qr ==> pos[order[k]].x < pos[e'.right].x;
      if e.left != e'.left {
        assert order[n - 1] == e.left;
      } else {
        assert order[ql] == e.left;
      }
      if e.right != e'.right {
        assert order[n - 1] == e.right;
      } else {
        assert order[qr] == e.right;
      }
    }
  }

  /** Ties go to the node visited first: the scan's `left` comes no later than any node
      that lies as far up, and its `right` no later than any that lies as far down. */
  lemma ScanFirst(order: seq<nat>, pos: map<nat, Point>)
    requires 0 < |order| && forall k :: 0 <= k < |order| ==> order[k] in pos
    ensures forall k :: 0 <= k < |order| && pos[order[k]].x <= pos[Scan(order, pos, |order|).left].x ==>
              Scan(order, pos, |order|).left in order[..k + 1]
    ensures forall k :: 0 <= k < |order| && pos[order[k]].x >= pos[Scan(order, pos, |order|).right].x ==>
              Scan(order, pos, |order|).right in order[..k + 1]
  {
    ScanExtremes(order, pos, |order|);
    var e := Scan(order, pos, |order|);
    var ql :| 0 <= ql < |order| && order[ql] == e.left && forall k :: 0 <= k < ql ==> pos[order[k]].x > pos[e.left].x;
    var qr :| 0 <= qr < |order| && order[qr] == e.right && forall k :: 0 <= k < qr ==> pos[order[k]].x < pos[e.right].x;
    forall k | 0 <= k < |order| && pos[order[k]].x <= pos[e.left].x ensures e.left in order[..k + 1] {
      assert order[..k + 1][ql] == e.left;
    }
    forall k | 0 <= k < |order| && pos[order[k]].x >= pos[e.right].x ensures e.right in order[..k + 1] {
      assert order[..k + 1][qr] == e.right;
    }
  }

  /** The scan of `update`: visit the visible nodes in `eachBefore` order and keep the
      node with the smallest and the one with the largest `x`. */
  method ScanExtent(order: seq<nat>, pos: map<nat, Point>) returns (left: nat, right: nat)
    requires |order| > 0 && forall k :: 0 <= k < |order| ==> order[k] in pos
    ensures Extent(left, right) == Scan(order, pos, |order|)
  {
    left, right := order[0], order[0];
    for i := 0 to |order|
      invariant Extent(left, right) == Scan(order, pos, i)
    {
      var node := order[i];
      if pos[node].x < pos[left].x {
        left := node;
      }
      if pos[node].x > pos[right].x {
        right := node;
      }
    }
  }

  /** The canvas height `right.x - left.x + marginTop + marginBottom`; never less
      than the two margins, since `left` is no lower than `right`. */
  function CanvasHeight(left: Point, right: Point): (r: real)
    requires left.x <= right.x
    ensures r >= MarginTop + MarginBottom
    ensures r - (MarginTop + MarginBottom) == right.x - left.x
  {
    right.x - left.x + MarginTop + MarginBottom
  }
}
