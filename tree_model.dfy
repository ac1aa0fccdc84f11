/** The hierarchy the tidy tree works on and the visibility structure laid over it.

    A node is named by its index in d3's `descendants()` order (breadth-first), which is
    also the `id` the component gives it. Nothing here assumes pre-order numbering: the
    only ordering fact used is that a child comes after its parent. */
module TreeModel {
  import opened Common

  /** For each node, its child list, or `None` when `children` is null or undefined. */
  type Shape = seq<Option<seq<nat>>>

  /** The children of `i` in `cs`, empty when they are null, undefined or `i` is out of range. */
  function Kids(cs: Shape, i: nat): seq<nat>
  {
    if i < |cs| && cs[i].Some? then cs[i].value else []
  }

  /** Every child is numbered after its parent (true of d3's breadth-first numbering). */
  ghost predicate Forward(cs: Shape)
  {
    forall i, k :: 0 <= i < |cs| && 0 <= k < |Kids(cs, i)| ==> i < Kids(cs, i)[k] < |cs|
  }

  lemma ForwardKid(cs: Shape, i: nat, c: nat)
    requires Forward(cs) && i < |cs| && c in Kids(cs, i)
    ensures i < c < |cs|
  {
    var k :| 0 <= k < |Kids(cs, i)| && Kids(cs, i)[k] == c;
  }

  /** The nodes reachable from `i` through `children`, in the order d3's `eachBefore`
      visits them: a node, then each child's subtree in child order. */
  function PreOrder(cs: Shape, i: nat): (r: seq<nat>)
    requires Forward(cs) && i < |cs|
    ensures |r| > 0 && r[0] == i
    ensures forall k :: k in r ==> i <= k < |cs|
    decreases |cs| - i + 1, 0
  {
    forall c | c in Kids(cs, i) ensures i < c < |cs| { ForwardKid(cs, i, c); }
    [i] + PreOrderAll(cs, Kids(cs, i), i)
  }

  /** Every node in `ks` is numbered after `lo` and below `n`. */
  ghost predicate After(ks: seq<nat>, lo: nat, n: nat)
  {
    forall k :: k in ks ==> lo < k < n
  }

  /** The subtrees of the nodes `ks` (all numbered after `lo`), one after the other. */
  function PreOrderAll(cs: Shape, ks: seq<nat>, lo: nat): (r: seq<nat>)
    requires Forward(cs) && After(ks, lo, |cs|)
    ensures forall k :: k in r ==> lo < k < |cs|
    ensures forall k :: k in ks ==> k in r
    decreases |cs| - lo, |ks|
  {
    if ks == [] then []
    else
      assert ks[0] in ks;
      assert forall k :: k in ks[1..] ==> k in ks;
      PreOrder(cs, ks[0]) + PreOrderAll(cs, ks[1..], lo)
  }

  /** The nodes listed in `s`. */
  function Elems(s: seq<nat>): set<nat>
  {
    set k | k in s
  }

  lemma ElemsConcat(a: seq<nat>, b: seq<nat>)
    ensures Elems(a + b) == Elems(a) + Elems(b)
  {
  }

  /** The set of nodes reachable from `i` through `children`, `i` included. */
  function Reach(cs: Shape, i: nat): set<nat>
    requires Forward(cs) && i < |cs|
  {
    Elems(PreOrder(cs, i))
  }

  /** A node's visible subtree is the node and the visible subtrees of its children. */
  lemma ReachUnfold(cs: Shape, i: nat)
    requires Forward(cs) && i < |cs|
    ensures After(Kids(cs, i), i, |cs|)
    ensures Reach(cs, i) == {i} + Elems(PreOrderAll(cs, Kids(cs, i), i))
  {
    forall c | c in Kids(cs, i) ensures i < c < |cs| { ForwardKid(cs, i, c); }
    ElemsConcat([i], PreOrderAll(cs, Kids(cs, i), i));
  }

  /** The d3 hierarchy of one data record, flattened in `descendants()` order: each
      node's data, its full child list (`_children`), its parent (-1 for the root)
      and its depth. */
  datatype Hierarchy = Hierarchy(data: seq<Gazette>, kids: Shape, parent: seq<int>, depth: seq<nat>)

  function Size(h: Hierarchy): nat { |h.kids| }

  /** What `d3.hierarchy` guarantees of the tree it builds: one root at index 0 with
      depth 0, children numbered after their parent, every non-root node in exactly
      its parent's child list, one more level deep, and no empty child list (d3 leaves
      `children` undefined on a leaf). */
  ghost predicate WellFormed(h: Hierarchy)
  {
    && |h.kids| > 0
    && |h.data| == |h.kids| && |h.parent| == |h.kids| && |h.depth| == |h.kids|
    && Forward(h.kids)
    && h.parent[0] == -1 && h.depth[0] == 0
    && (forall i :: 0 <= i < |h.kids| && h.kids[i].Some? ==> |h.kids[i].value| > 0)
    && (forall i, k :: 0 <= i < |h.kids| && 0 <= k < |Kids(h.kids, i)| ==> h.parent[Kids(h.kids, i)[k]] == i)
    && (forall c :: 0 < c < |h.kids| ==>
          0 <= h.parent[c] < c && c in Kids(h.kids, h.parent[c]) && h.depth[c] == h.depth[h.parent[c]] + 1)
  }

  lemma ParentOfKid(h: Hierarchy, p: nat, c: nat)
    requires WellFormed(h) && p < |h.kids| && c in Kids(h.kids, p)
    ensures 0 < c < |h.kids| && h.parent[c] == p
  {
    ForwardKid(h.kids, p, c);
    var k :| 0 <= k < |Kids(h.kids, p)| && Kids(h.kids, p)[k] == c;
  }

  /** The root is the only node at depth 0. */
  lemma DepthZeroIsRoot(h: Hierarchy, i: nat)
    requires WellFormed(h) && i < |h.kids|
    ensures h.depth[i] == 0 <==> i == 0
  {
    if i > 0 {
      assert h.depth[i] == h.depth[h.parent[i]] + 1;
    }
  }

  /** `root.height`: the greatest depth in the full hierarchy. */
  function MaxDepth(ds: seq<nat>): (m: nat)
    ensures forall k :: 0 <= k < |ds| ==> ds[k] <= m
    ensures |ds| > 0 ==> m in ds
  {
    if ds == [] then 0
    else
      var rest := MaxDepth(ds[1..]);
      assert forall k :: 1 <= k < |ds| ==> ds[k] == ds[1..][k - 1];
      assert |ds| > 1 ==> rest in ds[1..];
      if ds[0] >= rest then ds[0] else rest
  }

  function Height(h: Hierarchy): nat { MaxDepth(h.depth) }

  // ---------------------------------------------------------------------------
  // Ancestry along parent links

  /** `k` is `d` or lies below it in the full hierarchy. */
  ghost predicate InSubtree(h: Hierarchy, d: nat, k: nat)
    requires WellFormed(h) && k < |h.kids|
    decreases k
  {
    k == d || (k != 0 && InSubtree(h, d, h.parent[k] as nat))
  }

  /** Node `i` currently shows its children. */
  predicate Expanded(cs: Shape, i: nat)
  {
    i < |cs| && cs[i].Some?
  }

  /** `k` lies below `d` (or is `d`) and every node on the way down from `d` to `k`,
      `k` itself excepted, shows its children in `cs`. */
  ghost predicate OpenPath(h: Hierarchy, cs: Shape, d: nat, k: nat)
    requires WellFormed(h) && k < |h.kids|
    decreases k
  {
    k == d || (k != 0 && Expanded(cs, h.parent[k] as nat) && OpenPath(h, cs, d, h.parent[k] as nat))
  }

  lemma {:induction false} SubtreeAfter(h: Hierarchy, d: nat, k: nat)
    requires WellFormed(h) && k < |h.kids| && InSubtree(h, d, k)
    ensures d <= k
    decreases k
  {
    if k != d {
      SubtreeAfter(h, d, h.parent[k] as nat);
    }
  }

  lemma {:induction false} OpenPathInSubtree(h: Hierarchy, cs: Shape, d: nat, k: nat)
    requires WellFormed(h) && k < |h.kids| && OpenPath(h, cs, d, k)
    ensures InSubtree(h, d, k)
    decreases k
  {
    if k != d {
      OpenPathInSubtree(h, cs, d, h.parent[k] as nat);
    }
  }

  /** A proper ancestor of `d` is not in `d`'s subtree. */
  lemma AncestorNotBelow(h: Hierarchy, a: nat, d: nat)
    requires WellFormed(h) && d < |h.kids| && a < |h.kids|
    requires InSubtree(h, a, d) && a != d
    ensures !InSubtree(h, d, a)
  {
    SubtreeAfter(h, a, d);
    if InSubtree(h, d, a) {
      SubtreeAfter(h, d, a);
    }
  }

  /** A sibling of `d` is not in `d`'s subtree. */
  lemma SiblingNotBelow(h: Hierarchy, s: nat, d: nat)
    requires WellFormed(h) && 0 < d < |h.kids| && 0 < s < |h.kids|
    requires s != d && h.parent[s] == h.parent[d]
    ensures !InSubtree(h, d, s)
  {
    if InSubtree(h, d, s) {
      SubtreeAfter(h, d, h.parent[s] as nat);
    }
  }

  // ---------------------------------------------------------------------------
  // Visible structure: `children` is either null or the original `_children`

  /** `cs` keeps, for every node, either no visible children or exactly its original ones. */
  ghost predicate PrunedFrom(cs: Shape, full: Shape)
  {
    |cs| == |full| && forall i :: 0 <= i < |cs| ==> cs[i].None? || cs[i] == full[i]
  }

  lemma PrunedForward(cs: Shape, full: Shape)
    requires Forward(full) && PrunedFrom(cs, full)
    ensures Forward(cs)
  {
    forall i, k | 0 <= i < |cs| && 0 <= k < |Kids(cs, i)|
      ensures i < Kids(cs, i)[k] < |cs|
    {
      assert Kids(cs, i) == Kids(full, i);
    }
  }

  /** A node shown as a child in `cs` hangs off its hierarchy parent. */
  lemma VisibleKidParent(h: Hierarchy, cs: Shape, p: nat, c: nat)
    requires WellFormed(h) && PrunedFrom(cs, h.kids) && p < |cs| && c in Kids(cs, p)
    ensures Expanded(cs, p) && c in Kids(h.kids, p) && 0 < c < |h.kids| && h.parent[c] == p
  {
    assert Kids(cs, p) == Kids(h.kids, p);
    ParentOfKid(h, p, c);
  }

  /** What is reachable from a reached node is reached. */
  lemma {:induction false} ReachClosed(cs: Shape, i: nat, p: nat, k: nat)
    requires Forward(cs) && i < |cs| && p in PreOrder(cs, i) && k in Kids(cs, p)
    ensures k in PreOrder(cs, i)
    decreases |cs| - i + 1, 0
  {
    forall c | c in Kids(cs, i) ensures i < c < |cs| { ForwardKid(cs, i, c); }
    if p != i {
      ReachClosedAll(cs, Kids(cs, i), i, p, k);
    }
  }

  lemma {:induction false} ReachClosedAll(cs: Shape, ks: seq<nat>, lo: nat, p: nat, k: nat)
    requires Forward(cs) && After(ks, lo, |cs|)
    requires p in PreOrderAll(cs, ks, lo) && k in Kids(cs, p)
    ensures k in PreOrderAll(cs, ks, lo)
    decreases |cs| - lo, |ks|
  {
    assert ks[0] in ks;
    assert forall x :: x in ks[1..] ==> x in ks;
    if p in PreOrder(cs, ks[0]) {
      ReachClosed(cs, ks[0], p, k);
    } else {
      ReachClosedAll(cs, ks[1..], lo, p, k);
    }
  }

  /** Everything reached from `j` lies on an open path from `d`, when `j` does. */
  lemma {:induction false} ReachSound(h: Hierarchy, cs: Shape, d: nat, j: nat, k: nat)
    requires WellFormed(h) && PrunedFrom(cs, h.kids) && Forward(cs)
    requires j < |cs| && OpenPath(h, cs, d, j) && k in PreOrder(cs, j)
    ensures k < |cs| && OpenPath(h, cs, d, k)
    decreases |cs| - j + 1, 0
  {
    forall c | c in Kids(cs, j) ensures j < c < |cs| { ForwardKid(cs, j, c); }
    if k != j {
      ReachSoundAll(h, cs, d, j, Kids(cs, j), k);
    }
  }

  lemma {:induction false} ReachSoundAll(h: Hierarchy, cs: Shape, d: nat, q: nat, ks: seq<nat>, k: nat)
    requires WellFormed(h) && PrunedFrom(cs, h.kids) && Forward(cs)
    requires q < |cs| && OpenPath(h, cs, d, q)
    requires forall x :: x in ks ==> q < x < |cs| && x in Kids(cs, q)
    requires k in PreOrderAll(cs, ks, q)
    ensures k < |cs| && OpenPath(h, cs, d, k)
    decreases |cs| - q, |ks|
  {
    var c := ks[0];
    assert c in ks;
    assert forall x :: x in ks[1..] ==> x in ks;
    if k in PreOrder(cs, c) {
      VisibleKidParent(h, cs, q, c);
      assert OpenPath(h, cs, d, c);
      ReachSound(h, cs, d, c, k);
    } else {
      ReachSoundAll(h, cs, d, q, ks[1..], k);
    }
  }

  lemma {:induction false} ReachComplete(h: Hierarchy, cs: Shape, d: nat, k: nat)
    requires WellFormed(h) && PrunedFrom(cs, h.kids) && Forward(cs)
    requires d < |cs| && k < |cs| && OpenPath(h, cs, d, k)
    ensures k in PreOrder(cs, d)
    decreases k
  {
    if k != d {
      var p := h.parent[k] as nat;
      ReachComplete(h, cs, d, p);
      ParentOfKidInverse(h, k);
      assert Kids(cs, p) == Kids(h.kids, p);
      ReachClosed(cs, d, p, k);
    }
  }

  lemma ParentOfKidInverse(h: Hierarchy, c: nat)
    requires WellFormed(h) && 0 < c < |h.kids|
    ensures c in Kids(h.kids, h.parent[c] as nat)
  {
  }

  /** The nodes reachable from `d` through visible children are exactly the nodes
      joined to `d` by a path of expanded nodes: the subtree `highlightNodes` marks. */
  lemma ReachExact(h: Hierarchy, cs: Shape, d: nat)
    requires WellFormed(h) && PrunedFrom(cs, h.kids) && d < |cs|
    ensures Forward(cs)
    ensures forall k :: k in Reach(cs, d) ==> d <= k < |cs|
    ensures forall k :: 0 <= k < |cs| ==> (k in Reach(cs, d) <==> OpenPath(h, cs, d, k))
  {
    PrunedForward(cs, h.kids);
    forall k | 0 <= k < |cs|
      ensures k in Reach(cs, d) <==> OpenPath(h, cs, d, k)
    {
      if k in Reach(cs, d) {
        ReachSound(h, cs, d, d, k);
      }
      if OpenPath(h, cs, d, k) {
        ReachComplete(h, cs, d, k);
      }
    }
  }

  /** No proper ancestor and no sibling of `d` is reachable from `d`. */
  lemma ReachStaysBelow(h: Hierarchy, cs: Shape, d: nat, k: nat)
    requires WellFormed(h) && PrunedFrom(cs, h.kids) && d < |cs| && k < |cs|
    ensures Forward(cs)
    ensures k in Reach(cs, d) ==> InSubtree(h, d, k)
    ensures InSubtree(h, k, d) && k != d ==> k !in Reach(cs, d)
    ensures 0 < d && 0 < k && k != d && h.parent[k] == h.parent[d] ==> k !in Reach(cs, d)
  {
    ReachExact(h, cs, d);
    if k in Reach(cs, d) {
      OpenPathInSubtree(h, cs, d, k);
      if InSubtree(h, k, d) && k != d {
        AncestorNotBelow(h, k, d);
      }
      if 0 < d && 0 < k && k != d && h.parent[k] == h.parent[d] {
        SiblingNotBelow(h, k, d);
      }
    }
  }

  /** Walking the children one at a time: the subtrees of the first `j + 1` children are
      those of the first `j` followed by the subtree of child `j`. */
  lemma PreOrderAllSnoc(cs: Shape, ks: seq<nat>, lo: nat, j: nat)
    requires Forward(cs) && After(ks, lo, |cs|) && j < |ks|
    ensures After(ks[..j], lo, |cs|) && After(ks[..j + 1], lo, |cs|)
    ensures ks[j] in ks
    ensures PreOrderAll(cs, ks[..j + 1], lo) == PreOrderAll(cs, ks[..j], lo) + PreOrder(cs, ks[j])
    decreases j
  {
    AfterPrefix(ks, lo, |cs|, j);
    assert ks[..j + 1] == ks[..j] + [ks[j]];
    assert ks[j] in ks;
    PreOrderAllAppend(cs, ks[..j], ks[j], lo);
  }

  /** The subtrees of `init` followed by `k` are those of `init`, then that of `k`. */
  lemma {:induction false} PreOrderAllAppend(cs: Shape, init: seq<nat>, k: nat, lo: nat)
    requires Forward(cs) && After(init, lo, |cs|) && lo < k < |cs|
    ensures After(init + [k], lo, |cs|)
    ensures PreOrderAll(cs, init + [k], lo) == PreOrderAll(cs, init, lo) + PreOrder(cs, k)
    decreases |init|
  {
    var all := init + [k];
    forall x | x in all ensures lo < x < |cs| {
      if x != k {
        assert x in init;
      }
    }
    if init == [] {
      assert all[1..] == [];
    } else {
      assert all[1..] == init[1..] + [k];
      assert forall x :: x in init[1..] ==> x in init;
      PreOrderAllAppend(cs, init[1..], k, lo);
    }
  }

  /** The nodes reached from the first `j + 1` of `ks` are those reached from the first
      `j` and those reached from `ks[j]`. */
  lemma ReachAllSnoc(cs: Shape, ks: seq<nat>, lo: nat, j: nat)
    requires Forward(cs) && After(ks, lo, |cs|) && j < |ks|
    ensures After(ks[..j], lo, |cs|) && After(ks[..j + 1], lo, |cs|) && lo < ks[j] < |cs|
    ensures Elems(PreOrderAll(cs, ks[..j + 1], lo)) == Elems(PreOrderAll(cs, ks[..j], lo)) + Reach(cs, ks[j])
  {
    PreOrderAllSnoc(cs, ks, lo, j);
    ElemsConcat(PreOrderAll(cs, ks[..j], lo), PreOrder(cs, ks[j]));
  }

  /** The prefixes of a sequence of nodes numbered after `lo` are too. */
  lemma AfterPrefix(ks: seq<nat>, lo: nat, n: nat, j: nat)
    requires After(ks, lo, n) && j < |ks|
    ensures After(ks[..j], lo, n) && After(ks[..j + 1], lo, n) && After(ks[1..], lo, n)
    ensures ks[j] in ks
  {
    var upto, before, rest := ks[..j + 1], ks[..j], ks[1..];
    forall x | x in upto ensures lo < x < n {
      assert x in ks;
    }
    forall x | x in before ensures lo < x < n {
      assert x in ks;
    }
    forall x | x in rest ensures lo < x < n {
      assert x in ks;
    }
  }

  /** A node's visible subtree lies inside the visible subtree of any node it is reached from. */
  lemma ReachNested(h: Hierarchy, cs: Shape, a: nat, d: nat)
    requires WellFormed(h) && PrunedFrom(cs, h.kids) && a < |cs| && d < |cs|
    requires Forward(cs) && d in Reach(cs, a)
    ensures Reach(cs, d) <= Reach(cs, a)
  {
    ReachExact(h, cs, a);
    ReachExact(h, cs, d);
    OpenPathInSubtree(h, cs, a, d);
    forall k | k in Reach(cs, d) ensures k in Reach(cs, a) {
      OpenPathInSubtree(h, cs, d, k);
      OpenPathSplit(h, cs, a, d, k);
    }
  }

  // ---------------------------------------------------------------------------
  // How a change at one node affects visibility elsewhere

  /** Open paths that do not step down out of `d` do not read `cs[d]`. */
  lemma {:induction false} OpenPathFrame(h: Hierarchy, cs: Shape, cs': Shape, d: nat, a: nat, k: nat)
    requires WellFormed(h) && k < |h.kids| && |cs| == |cs'| == |h.kids| && d < |cs|
    requires forall i :: 0 <= i < |cs| && i != d ==> cs'[i] == cs[i]
    requires !InSubtree(h, d, k) || k == d
    ensures OpenPath(h, cs, a, k) <==> OpenPath(h, cs', a, k)
    decreases k
  {
    if k != a && k != 0 {
      var p := h.parent[k] as nat;
      if InSubtree(h, d, p) {
        SubtreeAfter(h, d, p);
      }
      assert p != d;
      assert !InSubtree(h, d, p);
      OpenPathFrame(h, cs, cs', d, a, p);
    }
  }

  /** Below `d`, an open path from the root is an open path to `d` followed by one from `d`. */
  lemma {:induction false} OpenPathSplit(h: Hierarchy, cs: Shape, a: nat, d: nat, k: nat)
    requires WellFormed(h) && k < |h.kids| && d < |h.kids| && a < |h.kids|
    requires InSubtree(h, d, k) && InSubtree(h, a, d)
    ensures OpenPath(h, cs, a, k) <==> OpenPath(h, cs, a, d) && OpenPath(h, cs, d, k)
    decreases k
  {
    if k != d {
      SubtreeAfter(h, d, k);
      SubtreeAfter(h, a, d);
      OpenPathSplit(h, cs, a, d, h.parent[k] as nat);
    }
  }

  /** Nothing strictly below a collapsed `d` lies on an open path from `d`. */
  lemma {:induction false} ClosedBelow(h: Hierarchy, cs: Shape, d: nat, k: nat)
    requires WellFormed(h) && k < |h.kids| && InSubtree(h, d, k) && k != d && !Expanded(cs, d)
    ensures !OpenPath(h, cs, d, k)
    decreases k
  {
    var p := h.parent[k] as nat;
    if p != d {
      ClosedBelow(h, cs, d, p);
    }
  }

  // ---------------------------------------------------------------------------
  // The click toggle

  /** `d.children = !d.children ? d._children : null`. */
  function Toggled(cs: Shape, full: Shape, d: nat): (r: Shape)
    requires PrunedFrom(cs, full) && d < |cs|
    ensures PrunedFrom(r, full)
    ensures forall i :: 0 <= i < |r| && i != d ==> r[i] == cs[i]
    ensures cs[d].Some? ==> r[d].None?
    ensures cs[d].None? ==> r[d] == full[d]
  {
    cs[d := if cs[d].None? then full[d] else None]
  }

  /** Toggling a node with children twice (collapse then expand, or expand then
      collapse) restores every node's child list, its own and all its descendants'. */
  lemma ToggleTwice(cs: Shape, full: Shape, d: nat)
    requires PrunedFrom(cs, full) && d < |cs| && full[d].Some?
    ensures Toggled(Toggled(cs, full, d), full, d) == cs
  {
  }

  /** Clicking a leaf (`_children` undefined) changes no node's visibility. */
  lemma ToggleLeaf(cs: Shape, full: Shape, d: nat)
    requires PrunedFrom(cs, full) && d < |cs| && full[d].None?
    ensures Toggled(cs, full, d) == cs
  {
    assert cs[d].None?;
  }

  /** Collapsing a visible node hides exactly the nodes that were visible strictly below it. */
  lemma CollapseHides(h: Hierarchy, cs: Shape, d: nat)
    requires WellFormed(h) && PrunedFrom(cs, h.kids) && d < |cs| && cs[d].Some?
    requires Forward(cs) && d in Reach(cs, 0)
    ensures Forward(Toggled(cs, h.kids, d))
    ensures Reach(Toggled(cs, h.kids, d), 0) == Reach(cs, 0) - (Reach(cs, d) - {d})
  {
    var cs' := Toggled(cs, h.kids, d);
    ReachExact(h, cs, 0);
    ReachExact(h, cs, d);
    ReachExact(h, cs', 0);
    OpenPathFrame(h, cs, cs', d, 0, d);
    forall k | 0 <= k < |cs|
      ensures k in Reach(cs', 0) <==> k in Reach(cs, 0) && (k !in Reach(cs, d) || k == d)
    {
      if InSubtree(h, d, k) && k != d {
        assert InSubtree(h, 0, d) by { ReachStaysBelow(h, cs, 0, d); }
        OpenPathSplit(h, cs, 0, d, k);
        OpenPathSplit(h, cs', 0, d, k);
        ClosedBelow(h, cs', d, k);
      } else {
        OpenPathFrame(h, cs, cs', d, 0, k);
        if k in Reach(cs, d) {
          ReachStaysBelow(h, cs, d, k);
        }
      }
    }
  }

  /** Expanding a visible node shows, besides what was visible, exactly the nodes
      reachable from it through visible children, and none of those below it was
      visible before. */
  lemma ExpandShows(h: Hierarchy, cs: Shape, d: nat)
    requires WellFormed(h) && PrunedFrom(cs, h.kids) && d < |cs| && cs[d].None?
    requires Forward(cs) && d in Reach(cs, 0)
    ensures Forward(Toggled(cs, h.kids, d))
    ensures Reach(Toggled(cs, h.kids, d), 0) == Reach(cs, 0) + Reach(Toggled(cs, h.kids, d), d)
    ensures Reach(cs, 0) * Reach(Toggled(cs, h.kids, d), d) == {d}
  {
    var cs' := Toggled(cs, h.kids, d);
    ReachExact(h, cs, 0);
    ReachExact(h, cs', d);
    ReachExact(h, cs', 0);
    OpenPathFrame(h, cs, cs', d, 0, d);
    forall k | 0 <= k < |cs|
      ensures k in Reach(cs', 0) <==> k in Reach(cs, 0) || k in Reach(cs', d)
      ensures k in Reach(cs, 0) && k in Reach(cs', d) <==> k == d
    {
      if InSubtree(h, d, k) && k != d {
        assert InSubtree(h, 0, d) by { ReachStaysBelow(h, cs, 0, d); }
        OpenPathSplit(h, cs, 0, d, k);
        OpenPathSplit(h, cs', 0, d, k);
        ClosedBelow(h, cs, d, k);
      } else {
        OpenPathFrame(h, cs, cs', d, 0, k);
        if k in Reach(cs', d) {
          ReachStaysBelow(h, cs', d, k);
        }
      }
    }
  }

  // ---------------------------------------------------------------------------
  // The initial state

  /** The visible structure right after initialisation: only the depth-0 node keeps its children. */
  function InitialShape(h: Hierarchy): Shape
    requires |h.depth| == |h.kids|
  {
    seq(|h.kids|, i requires 0 <= i < |h.kids| => if h.depth[i] > 0 then None else h.kids[i])
  }

  lemma {:induction false} LeafSubtrees(cs: Shape, ks: seq<nat>, lo: nat)
    requires Forward(cs) && forall x :: x in ks ==> lo < x < |cs| && cs[x].None?
    ensures PreOrderAll(cs, ks, lo) == ks
    decreases |ks|
  {
    if ks != [] {
      assert ks[0] in ks;
      assert forall x :: x in ks[1..] ==> x in ks;
      assert Kids(cs, ks[0]) == [];
      assert PreOrder(cs, ks[0]) == [ks[0]];
      LeafSubtrees(cs, ks[1..], lo);
      assert ks == [ks[0]] + ks[1..];
    }
  }

  /** After initialisation the visible nodes are the root followed by its children, in order. */
  lemma InitialVisible(h: Hierarchy)
    requires WellFormed(h)
    ensures PrunedFrom(InitialShape(h), h.kids) && Forward(InitialShape(h))
    ensures PreOrder(InitialShape(h), 0) == [0] + Kids(h.kids, 0)
    ensures Reach(InitialShape(h), 0) == {0} + Elems(Kids(h.kids, 0))
  {
    var cs := InitialShape(h);
    PrunedForward(cs, h.kids);
    assert Kids(cs, 0) == Kids(h.kids, 0);
    forall x | x in Kids(cs, 0) ensures 0 < x < |cs| && cs[x].None? {
      ParentOfKid(h, 0, x);
    }
    LeafSubtrees(cs, Kids(cs, 0), 0);
    ElemsConcat([0], Kids(h.kids, 0));
  }

  // ---------------------------------------------------------------------------
  // The hierarchy of an application graph

  /** `d3.hierarchy(graph)`: the parent at index 0, its amendments at 1..k as leaves.
      An empty `children` array leaves the root a leaf, as d3 does. */
  function HierarchyOf(g: Graph): Hierarchy
  {
    var k := |g.children|;
    Hierarchy(
      [g.root] + g.children,
      [if k > 0 then Some(seq(k, i => i + 1)) else None] + seq(k, i => None),
      [-1] + seq(k, i => 0),
      [0] + seq(k, i => 1))
  }

  /** Every application graph yields a well-formed hierarchy of height at most one whose
      node data lists the parent and then each child, in order. */
  lemma GraphHierarchy(g: Graph)
    ensures WellFormed(HierarchyOf(g))
    ensures Size(HierarchyOf(g)) == |g.children| + 1
    ensures Height(HierarchyOf(g)) == if |g.children| > 0 then 1 else 0
    ensures HierarchyOf(g).data[0] == g.root
    ensures forall i :: 0 <= i < |g.children| ==> HierarchyOf(g).data[i + 1] == g.children[i]
  {
    var h := HierarchyOf(g);
    var k := |g.children|;
    assert forall c :: 0 < c < |h.kids| ==> Kids(h.kids, c) == [];
    assert k > 0 ==> Kids(h.kids, 0) == seq(k, i => i + 1);
    forall c | 0 < c < |h.kids| ensures c in Kids(h.kids, 0) {
      assert Kids(h.kids, 0)[c - 1] == c;
    }
    if k > 0 {
      assert h.depth[1] == 1;
    }
  }
}
