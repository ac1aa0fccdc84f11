/** The collapsible tidy tree: the per-node state the component keeps on d3's
    hierarchy nodes, the `update` pass, `highlightNodes` and the click handler. */
module TidyTree {
  import opened Common
  import opened TreeModel
  import opened Reconcile

  /** What one call of `update(event, source)` did to the drawing. */
  datatype Pass = Pass(
    nodes: Join,       // node groups, keyed by `d.id`
    links: Join,       // link paths, keyed by `d.target.id`
    enterFrom: Point,  // where entering nodes and links start: the source's (x0, y0)
    exitTo: Point,     // where exiting nodes and links go: the source's new (x, y)
    left: nat,         // the visible node with the smallest x
    right: nat,        // the visible node with the largest x
    height: real,      // the canvas height
    top: real)         // the top edge of the viewBox, left.x - marginTop

  /** `dy`, the column spacing: the width left after the side margins, shared out over
      the `1 + root.height` columns of the full hierarchy. */
  function ColumnSpacing(width: real, h: Hierarchy): (dy: real)
    ensures dy * (1.0 + Height(h) as real) == width - MarginRight - MarginLeft
  {
    (width - MarginRight - MarginLeft) / (1.0 + Height(h) as real)
  }

  /** The positions `tree(root)` gives the visible nodes `vis`. */
  function LaidOut(layout: (Shape, nat) -> Point, cs: Shape, vis: set<nat>): map<nat, Point>
  {
    map i | i in vis :: layout(cs, i)
  }

  /** The visible nodes `cs` holds in `pos`. */
  ghost predicate Placed(cs: Shape, pos: map<nat, Point>)
    requires Forward(cs) && 0 < |cs|
  {
    forall i :: i in Reach(cs, 0) ==> i in pos
  }

  /** What one `update` pass computes once the layout has put the visible nodes of `cs`
      at `pos` (their previous positions being `pos0`), for the node groups and link
      paths `drawnNodes` and `drawnLinks` on the canvas: the two keyed joins, where
      entering elements start and exiting ones go, the nodes with the smallest and the
      largest `x` found by the scan in `eachBefore` order, and the canvas height and
      top edge they give. */
  function PassOf(cs: Shape, source: nat, pos0: map<nat, Point>, pos: map<nat, Point>,
                  drawnNodes: set<nat>, drawnLinks: set<nat>): (p: Pass)
    requires Forward(cs) && 0 < |cs| && source in Reach(cs, 0) && source in pos0 && Placed(cs, pos)
    ensures p.left in Reach(cs, 0) && p.right in Reach(cs, 0)
  {
    var order := PreOrder(cs, 0);
    assert forall k :: 0 <= k < |order| ==> order[k] in Reach(cs, 0);
    ScanExtremes(order, pos, |order|);
    var e := Scan(order, pos, |order|);
    Pass(KeyedJoin(drawnNodes, Reach(cs, 0)), KeyedJoin(drawnLinks, Reach(cs, 0) - {0}),
         pos0[source], pos[source], e.left, e.right,
         CanvasHeight(pos[e.left], pos[e.right]), pos[e.left].x - MarginTop)
  }

  /** What a pass promises: the joins partition the old and the new ids; entering
      elements start at the source's previous position and exiting ones end at its new
      one; `left` and `right` are visible nodes with the least and the greatest `x`; the
      canvas spans exactly their distance plus the top and bottom margins, and its top
      edge sits a margin above `left`. */
  lemma PassFacts(cs: Shape, source: nat, pos0: map<nat, Point>, pos: map<nat, Point>,
                  drawnNodes: set<nat>, drawnLinks: set<nat>)
    requires Forward(cs) && 0 < |cs| && source in Reach(cs, 0) && source in pos0 && Placed(cs, pos)
    ensures var p := PassOf(cs, source, pos0, pos, drawnNodes, drawnLinks);
      && p.nodes.enter + p.nodes.update == Reach(cs, 0) && p.nodes.update + p.nodes.exit == drawnNodes
      && p.nodes.enter !! p.nodes.update && p.nodes.update !! p.nodes.exit && p.nodes.enter !! p.nodes.exit
      && p.links.enter + p.links.update == Reach(cs, 0) - {0} && p.links.update + p.links.exit == drawnLinks
      && p.links.enter !! p.links.update && p.links.update !! p.links.exit && p.links.enter !! p.links.exit
      && p.enterFrom == pos0[source] && p.exitTo == pos[source]
      && p.left in Reach(cs, 0) && p.right in Reach(cs, 0)
      && (forall k :: k in Reach(cs, 0) ==> pos[p.left].x <= pos[k].x <= pos[p.right].x)
      && p.height - (MarginTop + MarginBottom) == pos[p.right].x - pos[p.left].x
      && p.top == pos[p.left].x - MarginTop
  {
    var order := PreOrder(cs, 0);
    assert forall k :: 0 <= k < |order| ==> order[k] in Reach(cs, 0);
    ScanExtremes(order, pos, |order|);
  }

  /** Ties go to the node `eachBefore` visits first: `left` comes no later than any
      node that lies as far up, and `right` no later than any that lies as far down. */
  lemma PassFirstExtremes(cs: Shape, source: nat, pos0: map<nat, Point>, pos: map<nat, Point>,
                          drawnNodes: set<nat>, drawnLinks: set<nat>)
    requires Forward(cs) && 0 < |cs| && source in Reach(cs, 0) && source in pos0 && Placed(cs, pos)
    ensures var p := PassOf(cs, source, pos0, pos, drawnNodes, drawnLinks); var order := PreOrder(cs, 0);
      forall k :: 0 <= k < |order| && pos[order[k]].x <= pos[p.left].x ==> p.left in order[..k + 1]
    ensures var p := PassOf(cs, source, pos0, pos, drawnNodes, drawnLinks); var order := PreOrder(cs, 0);
      forall k :: 0 <= k < |order| && pos[order[k]].x >= pos[p.right].x ==> p.right in order[..k + 1]
  {
    var order := PreOrder(cs, 0);
    assert forall k :: 0 <= k < |order| ==> order[k] in Reach(cs, 0);
    ScanFirst(order, pos);
    var p := PassOf(cs, source, pos0, pos, drawnNodes, drawnLinks);
    assert p.left == Scan(order, pos, |order|).left && p.right == Scan(order, pos, |order|).right;
  }

  /** The stash at the end of `update`, over the visible nodes `order` in `eachBefore` order:
      the previous positions `pos0` with each visited node's current position copied in. */
  method StashPositions(order: seq<nat>, pos: map<nat, Point>, pos0: map<nat, Point>) returns (r: map<nat, Point>)
    requires forall k :: 0 <= k < |order| ==> order[k] in pos
    ensures r == pos0 + map i | i in order :: pos[i]
  {
    r := pos0;
    for k := 0 to |order|
      invariant r == pos0 + map i | i in order[..k] :: pos[i]
    {
      var v := order[k];
      assert order[..k + 1] == order[..k] + [v];
      r := r[v := pos[v]];
    }
    assert order[..|order|] == order;
  }

  /** Copying the laid-out positions of the nodes `order` visits copies the layout. */
  lemma StashIsLayout(layout: (Shape, nat) -> Point, cs: Shape, order: seq<nat>, pos: map<nat, Point>)
    ensures (map i | i in order :: (pos + LaidOut(layout, cs, Elems(order)))[i]) == LaidOut(layout, cs, Elems(order))
  {
  }

  /** After the layout, every visible node sits where the layout put it. */
  lemma LaidOutAt(layout: (Shape, nat) -> Point, cs: Shape, vis: set<nat>, pos: map<nat, Point>)
    ensures forall i :: i in vis ==> i in pos + LaidOut(layout, cs, vis) && (pos + LaidOut(layout, cs, vis))[i] == layout(cs, i)
  {
  }

  /** Laying out nodes that already sit where the layout puts them moves nothing. */
  lemma RelayoutStable(layout: (Shape, nat) -> Point, cs: Shape, vis: set<nat>, pos: map<nat, Point>)
    requires forall i :: i in vis ==> i in pos && pos[i] == layout(cs, i)
    ensures pos + LaidOut(layout, cs, vis) == pos
  {
  }

  /** The measuring half of `update` once the layout has run: the joins, the extent scan
      over `eachBefore` and the canvas height. */
  method Measure(cs: Shape, source: nat, pos: map<nat, Point>, pos0: map<nat, Point>,
                 drawnNodes: set<nat>, drawnLinks: set<nat>) returns (p: Pass)
    requires Forward(cs) && 0 < |cs| && source in Reach(cs, 0) && source in pos0 && Placed(cs, pos)
    ensures p == PassOf(cs, source, pos0, pos, drawnNodes, drawnLinks)
  {
    var vis := Reach(cs, 0);
    var order := PreOrder(cs, 0);
    assert forall k :: 0 <= k < |order| ==> order[k] in pos;
    var left, right := ScanExtent(order, pos);
    ScanExtremes(order, pos, |order|);
    var height := CanvasHeight(pos[left], pos[right]);
    p := Pass(KeyedJoin(drawnNodes, vis), KeyedJoin(drawnLinks, vis - {0}),
              pos0[source], pos[source], left, right, height, pos[left].x - MarginTop);
  }

  /** One `update(event, source)` over the visible children `cs`: returns what it drew
      and the new current and previous positions. */
  method Render(cs: Shape, layout: (Shape, nat) -> Point, source: nat, pos: map<nat, Point>,
                pos0: map<nat, Point>, drawnNodes: set<nat>, drawnLinks: set<nat>)
    returns (p: Pass, pos': map<nat, Point>, pos0': map<nat, Point>)
    requires Forward(cs) && 0 < |cs| && source in Reach(cs, 0) && source in pos0
    ensures pos' == pos + LaidOut(layout, cs, Reach(cs, 0))
    ensures pos0' == pos0 + LaidOut(layout, cs, Reach(cs, 0))
    ensures Placed(cs, pos')
    ensures p == PassOf(cs, source, pos0, pos', drawnNodes, drawnLinks)
  {
    var order := PreOrder(cs, 0);
    // tree(root)
    pos' := pos + LaidOut(layout, cs, Reach(cs, 0));
    p := Measure(cs, source, pos', pos0, drawnNodes, drawnLinks);
    // stash the positions over root.eachBefore
    pos0' := StashPositions(order, pos', pos0);
    StashIsLayout(layout, cs, order, pos);
  }

  /** The first `update` draws onto an empty canvas: the root and its children enter,
      with a link into each child, and nothing is kept or removed. */
  lemma FirstDrawJoins(h: Hierarchy)
    requires WellFormed(h)
    ensures Forward(InitialShape(h)) && 0 < |InitialShape(h)|
    ensures KeyedJoin({}, Reach(InitialShape(h), 0)) == Join({0} + Elems(Kids(h.kids, 0)), {}, {})
    ensures KeyedJoin({}, Reach(InitialShape(h), 0) - {0}) == Join(Elems(Kids(h.kids, 0)), {}, {})
  {
    InitialVisible(h);
    forall c | c in Elems(Kids(h.kids, 0)) ensures c != 0 {
      ParentOfKid(h, 0, c);
    }
    assert ({0} + Elems(Kids(h.kids, 0))) - {0} == Elems(Kids(h.kids, 0));
  }

  /** Collapsing a visible node `d` enters nothing and removes the nodes strictly below
      it, with the links into them. */
  lemma CollapseJoins(h: Hierarchy, cs: Shape, d: nat)
    requires WellFormed(h) && PrunedFrom(cs, h.kids) && d < |cs| && cs[d].Some?
    requires Forward(cs) && d in Reach(cs, 0)
    ensures Forward(Toggled(cs, h.kids, d)) && d in Reach(Toggled(cs, h.kids, d), 0)
    ensures KeyedJoin(Reach(cs, 0), Reach(Toggled(cs, h.kids, d), 0))
         == Join({}, Reach(Toggled(cs, h.kids, d), 0), Reach(cs, d) - {d})
    ensures KeyedJoin(Reach(cs, 0) - {0}, Reach(Toggled(cs, h.kids, d), 0) - {0})
         == Join({}, Reach(Toggled(cs, h.kids, d), 0) - {0}, Reach(cs, d) - {d})
  {
    var after := Toggled(cs, h.kids, d);
    ReachExact(h, cs, d);
    ReachNested(h, cs, 0, d);
    CollapseHides(h, cs, d);
    JoinDetermined(Reach(cs, 0), Reach(after, 0), Join({}, Reach(after, 0), Reach(cs, d) - {d}));
    JoinDetermined(Reach(cs, 0) - {0}, Reach(after, 0) - {0}, Join({}, Reach(after, 0) - {0}, Reach(cs, d) - {d}));
  }

  /** Expanding a visible node `d` removes nothing and enters the nodes strictly below
      it in its newly visible subtree, with the links into them. */
  lemma ExpandJoins(h: Hierarchy, cs: Shape, d: nat)
    requires WellFormed(h) && PrunedFrom(cs, h.kids) && d < |cs| && cs[d].None?
    requires Forward(cs) && d in Reach(cs, 0)
    ensures Forward(Toggled(cs, h.kids, d)) && d in Reach(Toggled(cs, h.kids, d), 0)
    ensures KeyedJoin(Reach(cs, 0), Reach(Toggled(cs, h.kids, d), 0))
         == Join(Reach(Toggled(cs, h.kids, d), d) - {d}, Reach(cs, 0), {})
    ensures KeyedJoin(Reach(cs, 0) - {0}, Reach(Toggled(cs, h.kids, d), 0) - {0})
         == Join(Reach(Toggled(cs, h.kids, d), d) - {d}, Reach(cs, 0) - {0}, {})
  {
    var after := Toggled(cs, h.kids, d);
    ExpandShows(h, cs, d);
    ReachExact(h, after, d);
    JoinDetermined(Reach(cs, 0), Reach(after, 0), Join(Reach(after, d) - {d}, Reach(cs, 0), {}));
    JoinDetermined(Reach(cs, 0) - {0}, Reach(after, 0) - {0}, Join(Reach(after, d) - {d}, Reach(cs, 0) - {0}, {}));
  }

  /** The per-node state of a hierarchy `h` once its nodes are numbered: each node's id
      is its index, `_children` holds its children, and its visible children are some
      of them. */
  ghost predicate Numbered(h: Hierarchy, ids: seq<Option<nat>>, children: Shape, hidden: Shape)
  {
    && WellFormed(h)
    && |ids| == Size(h) && |children| == Size(h)
    && (forall i :: 0 <= i < |ids| ==> ids[i] == Some(i))
    && hidden == h.kids
    && PrunedFrom(children, h.kids)
    && Forward(children)
  }

  /** The drawing after an `update` over the visible children `cs`: the canvas shows the
      visible nodes and the links into them, every visible node sits where the layout
      puts it, and it has stashed that position. */
  ghost predicate Pictured(cs: Shape, layout: (Shape, nat) -> Point, drawnNodes: set<nat>, drawnLinks: set<nat>,
                           pos: map<nat, Point>, pos0: map<nat, Point>)
    requires Forward(cs) && 0 < |cs|
  {
    && drawnNodes == Reach(cs, 0)
    && drawnLinks == Reach(cs, 0) - {0}
    && (forall i :: i in drawnNodes ==> i in pos && i in pos0 && pos0[i] == pos[i] && pos[i] == layout(cs, i))
  }

  /** Toggling the children of a visible node keeps the numbering, and keeps the node
      visible. */
  lemma ToggleKeepsNumbered(h: Hierarchy, ids: seq<Option<nat>>, cs: Shape, hidden: Shape, d: nat)
    requires Numbered(h, ids, cs, hidden) && d < |cs| && d in Reach(cs, 0)
    ensures Numbered(h, ids, Toggled(cs, h.kids, d), hidden)
    ensures d in Reach(Toggled(cs, h.kids, d), 0)
  {
    PrunedForward(Toggled(cs, h.kids, d), h.kids);
    if cs[d].None? {
      ExpandShows(h, cs, d);
    } else {
      CollapseHides(h, cs, d);
    }
  }

  /** The initialisation loop over `descendants()`: give each node its index as id, park
      its children in `_children`, and hide the children of every node below the root. */
  method Number(h: Hierarchy) returns (ids: seq<Option<nat>>, children: Shape, hidden: Shape)
    requires WellFormed(h)
    ensures hidden == h.kids
    ensures children == InitialShape(h)
    ensures Numbered(h, ids, children, hidden) && 0 in Reach(children, 0)
  {
    ids, children, hidden := seq(Size(h), i => None), h.kids, seq(Size(h), i => None);
    for i := 0 to Size(h)
      invariant |ids| == |children| == |hidden| == Size(h)
      invariant forall k :: 0 <= k < i ==> ids[k] == Some(k) && hidden[k] == h.kids[k]
      invariant forall k :: 0 <= k < i ==> children[k] == if h.depth[k] > 0 then None else h.kids[k]
      invariant forall k :: i <= k < Size(h) ==> children[k] == h.kids[k]
    {
      ids := ids[i := Some(i)];
      hidden := hidden[i := children[i]];
      if h.depth[i] > 0 {
        children := children[i := None];
      }
    }
    assert children == InitialShape(h);
    assert ids == seq(Size(h), i => Some(i));
    InitialVisible(h);
  }

  class Tree {
    /** The d3 hierarchy of the data, in `descendants()` order. */
    const h: Hierarchy
    const width: real
    const dy: real
    /** d3's tidy layout: the position it gives node `i` when the visible children are `cs`. */
    const layout: (Shape, nat) -> Point

    /** `d.id` of each node (`None` until assigned). */
    var ids: seq<Option<nat>>
    /** `d.children`: the visible children. */
    var children: Shape
    /** `d._children`: the original children, parked at initialisation. */
    var hidden: Shape
    /** `d.x`, `d.y` of each node that has been laid out. */
    var pos: map<nat, Point>
    /** `d.x0`, `d.y0` of each node that has them. */
    var pos0: map<nat, Point>
    /** The `data-id`s of the node groups on the canvas. */
    var drawnNodes: set<nat>
    /** The target ids of the link paths on the canvas. */
    var drawnLinks: set<nat>
    /** The ids of the nodes whose circle and text carry the `highlight` class. */
    var highlighted: set<nat>
    /** What the effect's first `update(null, root)` drew. */
    ghost var firstDraw: Pass

    /** The node state between a toggle and the `update` that follows it. */
    ghost predicate Shaped()
      reads this`ids, this`children, this`hidden
    {
      Numbered(h, ids, children, hidden)
    }

    /** The component's state between events. */
    ghost predicate Valid()
      reads this`ids, this`children, this`hidden, this`drawnNodes, this`drawnLinks, this`pos, this`pos0
    {
      Numbered(h, ids, children, hidden) && Pictured(children, layout, drawnNodes, drawnLinks, pos, pos0)
    }

    /** The effect of a new `data` or `width`: build the hierarchy, size the columns from
        its height, then number, collapse and draw it. */
    constructor (h: Hierarchy, width: real, layout: (Shape, nat) -> Point)
      requires WellFormed(h)
      ensures this.h == h && this.width == width && this.layout == layout
      ensures dy == ColumnSpacing(width, h)
      ensures Valid()
      ensures hidden == h.kids
      ensures children == InitialShape(h)
      ensures highlighted == {}
      ensures Forward(children) && 0 in Reach(children, 0) && Placed(children, pos)
      ensures firstDraw == PassOf(children, 0, map[0 := Point(dy / 2.0, 0.0)], pos, {}, {})
      ensures firstDraw.enterFrom == Point(dy / 2.0, 0.0)
      ensures firstDraw.nodes == Join({0} + Elems(Kids(h.kids, 0)), {}, {})
      ensures firstDraw.links == Join(Elems(Kids(h.kids, 0)), {}, {})
    {
      this.h := h;
      this.width := width;
      this.layout := layout;
      dy := ColumnSpacing(width, h);
      new;
      Start();
    }

    /** The rest of the effect, on a fresh canvas: number the nodes in `descendants()`
        order, park each node's children in `_children`, collapse every node below the
        root, and draw it for the first time, so everything visible enters from the
        root's starting point `(dy / 2, 0)`. */
    method Start()
      requires WellFormed(h)
      modifies this`ids, this`children, this`hidden, this`pos, this`pos0
      modifies this`drawnNodes, this`drawnLinks, this`highlighted, this`firstDraw
      ensures Valid()
      ensures hidden == h.kids
      ensures children == InitialShape(h)
      ensures highlighted == {}
      ensures Forward(children) && 0 in Reach(children, 0) && Placed(children, pos)
      ensures firstDraw == PassOf(children, 0, map[0 := Point(dy / 2.0, 0.0)], pos, {}, {})
      ensures firstDraw.enterFrom == Point(dy / 2.0, 0.0)
      ensures firstDraw.nodes == Join({0} + Elems(Kids(h.kids, 0)), {}, {})
      ensures firstDraw.links == Join(Elems(Kids(h.kids, 0)), {}, {})
    {
      var numbered, visible, parked := Number(h);
      ids, children, hidden := numbered, visible, parked;
      pos, pos0 := map[], map[];
      drawnNodes, drawnLinks, highlighted := {}, {}, {};
      DrawFirst();
    }

    /** The end of the effect: give the root the previous position `(dy / 2, 0)` and run
        the first `update(null, root)` on the empty canvas. */
    method DrawFirst()
      requires Shaped() && children == InitialShape(h)
      requires pos0 == map[] && drawnNodes == {} && drawnLinks == {}
      modifies this`pos, this`pos0, this`drawnNodes, this`drawnLinks, this`firstDraw
      ensures Valid()
      ensures Forward(children) && 0 in Reach(children, 0) && Placed(children, pos)
      ensures firstDraw == PassOf(children, 0, map[0 := Point(dy / 2.0, 0.0)], pos, {}, {})
      ensures firstDraw.enterFrom == Point(dy / 2.0, 0.0)
      ensures firstDraw.nodes == Join({0} + Elems(Kids(h.kids, 0)), {}, {})
      ensures firstDraw.links == Join(Elems(Kids(h.kids, 0)), {}, {})
    {
      pos0 := map[0 := Point(dy / 2.0, 0.0)];
      var p := Update(0);
      firstDraw := p;
      FirstDrawJoins(h);
    }

    /** `update(event, source)`: lay out the visible nodes, size the canvas from the
        extreme rows, join the drawn nodes and links with the visible ones by id, and
        stash every visible node's position as its previous position. */
    method Update(source: nat) returns (p: Pass)
      requires Shaped() && source in Reach(children, 0) && source in pos0
      modifies this`pos, this`pos0, this`drawnNodes, this`drawnLinks
      ensures Valid()
      ensures pos == old(pos) + LaidOut(layout, children, Reach(children, 0))
      ensures pos0 == old(pos0) + LaidOut(layout, children, Reach(children, 0))
      ensures Placed(children, pos)
      ensures p == PassOf(children, source, old(pos0), pos, old(drawnNodes), old(drawnLinks))
    {
      LaidOutAt(layout, children, Reach(children, 0), pos);
      p, pos, pos0 := Render(children, layout, source, pos, pos0, drawnNodes, drawnLinks);
      // the joins key by `d.id`, which Shaped() fixes to the node's own index
      drawnNodes, drawnLinks := Reach(children, 0), Reach(children, 0) - {0};
    }

    /** `highlightNodes(node)`: mark the node, then each visible child's subtree in turn. */
    method HighlightNodes(node: nat)
      requires Shaped() && node < |children|
      modifies this`highlighted
      ensures highlighted == old(highlighted) + Reach(children, node)
      decreases |children| - node
    {
      highlighted := highlighted + {ids[node].value};
      if children[node].Some? {
        var cs := children[node].value;
        assert cs == Kids(children, node);
        ReachUnfold(children, node);
        for j := 0 to |cs|
          invariant After(cs[..j], node, |children|)
          invariant highlighted == old(highlighted) + {node} + Elems(PreOrderAll(children, cs[..j], node))
        {
          ReachAllSnoc(children, cs, node, j);
          HighlightNodes(cs[j]);
        }
        assert cs[..|cs|] == cs;
      } else {
        ReachUnfold(children, node);
      }
    }

    /** `d.children = isExpanding ? d._children : null` for a drawn node `d`. */
    method Toggle(d: nat)
      requires Valid() && d in drawnNodes
      modifies this`children
      ensures Shaped()
      ensures children == Toggled(old(children), h.kids, d)
      ensures d in Reach(children, 0) && d in pos0
    {
      ToggleKeepsNumbered(h, ids, children, hidden, d);
      children := Toggled(children, hidden, d);
    }

    /** The first half of a click on a drawn node `d`: toggle its children, `update`,
        and clear every highlight. The pass joins the old canvas with the new one;
        `CollapseJoins` and `ExpandJoins` say what enters and what leaves. */
    method ToggleUpdate(d: nat) returns (first: Pass)
      requires Valid() && d in drawnNodes
      modifies this`children, this`pos, this`pos0, this`drawnNodes, this`drawnLinks, this`highlighted
      ensures Valid()
      ensures children == Toggled(old(children), h.kids, d)
      ensures pos == old(pos) + LaidOut(layout, children, Reach(children, 0))
      ensures pos0 == old(pos0) + LaidOut(layout, children, Reach(children, 0))
      ensures d in drawnNodes && highlighted == {}
      ensures first == PassOf(children, d, old(pos0), pos, old(drawnNodes), old(drawnLinks))
    {
      Toggle(d);
      first := Update(d);
      highlighted := {};
    }

    /** The expanding half of a click, after the first `update`: highlight the visible
        subtree of `d` and `update` again. Nothing is laid out anew, so the second pass
        enters and removes nothing and starts and ends every transition at the node's
        own position. */
    method HighlightAndRedraw(d: nat) returns (again: Pass)
      requires Valid() && d in drawnNodes
      modifies this`highlighted, this`pos, this`pos0, this`drawnNodes, this`drawnLinks
      ensures Valid()
      ensures highlighted == old(highlighted) + Reach(children, d)
      ensures pos == old(pos) && pos0 == old(pos0)
      ensures drawnNodes == old(drawnNodes) && drawnLinks == old(drawnLinks)
      ensures again == PassOf(children, d, pos0, pos, drawnNodes, drawnLinks)
      ensures again.nodes == Join({}, drawnNodes, {}) && again.links == Join({}, drawnLinks, {})
      ensures again.enterFrom == again.exitTo
    {
      HighlightNodes(d);
      RelayoutStable(layout, children, drawnNodes, pos);
      RelayoutStable(layout, children, drawnNodes, pos0);
      JoinSameKeys(drawnNodes);
      JoinSameKeys(drawnLinks);
      again := Update(d);
    }

    /** A click on a drawn node `d` whose children are hidden, or a leaf: toggle, `update`,
        highlight the visible subtree of `d` and `update` a second time. */
    method Expand(d: nat) returns (first: Pass, again: Pass)
      requires Valid() && d in drawnNodes && children[d].None?
      modifies this`children, this`pos, this`pos0, this`drawnNodes, this`drawnLinks, this`highlighted
      ensures Valid()
      ensures children == Toggled(old(children), h.kids, d) && d in drawnNodes
      ensures first == PassOf(children, d, old(pos0), pos, old(drawnNodes), old(drawnLinks))
      ensures pos == old(pos) + LaidOut(layout, children, Reach(children, 0))
      ensures pos0 == old(pos0) + LaidOut(layout, children, Reach(children, 0))
      ensures again == PassOf(children, d, pos0, pos, drawnNodes, drawnLinks)
      ensures highlighted == Reach(children, d)
    {
      first := ToggleUpdate(d);
      again := HighlightAndRedraw(d);
    }

    /** A click on a drawn node `d` whose children are visible: toggle, `update` and
        clear the highlights. */
    method Collapse(d: nat) returns (first: Pass)
      requires Valid() && d in drawnNodes && children[d].Some?
      modifies this`children, this`pos, this`pos0, this`drawnNodes, this`drawnLinks, this`highlighted
      ensures Valid()
      ensures children == Toggled(old(children), h.kids, d) && d in drawnNodes
      ensures pos == old(pos) + LaidOut(layout, children, Reach(children, 0))
      ensures pos0 == old(pos0) + LaidOut(layout, children, Reach(children, 0))
      ensures first == PassOf(children, d, old(pos0), pos, old(drawnNodes), old(drawnLinks))
      ensures highlighted == {}
    {
      first := ToggleUpdate(d);
    }

    /** The click handler on a drawn node `d`: toggle, `update` and clear the
        highlights; when the click expanded (`d.children` was null, a leaf included),
        highlight the visible subtree of `d` and `update` a second time; then report the
        node's display fields as the selection. */
    method Click(d: nat) returns (first: Pass, second: Option<Pass>, selected: Gazette)
      requires Valid() && d in drawnNodes
      modifies this`children, this`pos, this`pos0, this`drawnNodes, this`drawnLinks, this`highlighted
      ensures Valid()
      ensures children == Toggled(old(children), h.kids, d) && d in drawnNodes
      ensures first == PassOf(children, d, old(pos0), pos, old(drawnNodes), old(drawnLinks))
      ensures second.Some? <==> old(children)[d].None?
      ensures second.Some? ==> second.value == PassOf(children, d, pos0, pos, drawnNodes, drawnLinks)
      ensures highlighted == if old(children)[d].None? then Reach(children, d) else {}
      ensures pos == old(pos) + LaidOut(layout, children, Reach(children, 0))
      ensures pos0 == old(pos0) + LaidOut(layout, children, Reach(children, 0))
      ensures selected == h.data[d]
    {
      if children[d].None? {
        var again;
        first, again := Expand(d);
        second := Some(again);
      } else {
        first := Collapse(d);
        second := None;
      }
      selected := h.data[d];
    }
  }
}
