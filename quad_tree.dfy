/**
 * A quadtree of uuid-tagged points. A node keeps points in its own list
 * while the list has room or the node is at the deepest level; otherwise
 * it splits into four quadrant children and passes each point to the
 * quadrant that holds it. Points on one of a node's two midlines stay in
 * that node.
 *
 * Coordinates are reals. Rectangles are closed: a point on an edge is
 * inside, and two rectangles that share an edge intersect.
 *
 * The tree is specified by a value (`Tree`) and the operations on it
 * (`Insert`, `Query`, `Remove`); the class `QuadTree` updates a linked
 * structure in place and is proved against them through `Snapshot`.
 */
module QuadTrees {
  import opened Uuid
  import opened Wrappers

  datatype Vec2 = Vec2(x: real, y: real)

  /** A rectangle with its origin at the corner of smallest coordinates. */
  datatype Rect = Rect(x: real, y: real, width: real, height: real)

  predicate Contains(r: Rect, p: Vec2)
  {
    r.x <= p.x <= r.x + r.width && r.y <= p.y <= r.y + r.height
  }

  predicate Intersects(a: Rect, b: Rect)
  {
    a.x <= b.x + b.width && b.x <= a.x + a.width && a.y <= b.y + b.height && b.y <= a.y + a.height
  }

  /** A point inside two rectangles shows that they intersect. */
  lemma CommonPointIntersects(a: Rect, b: Rect, p: Vec2)
    requires Contains(a, p) && Contains(b, p)
    ensures Intersects(a, b)
  {
  }

  datatype Component = Component(uuid: Uuid, position: Vec2)

  /** The rectangle of quadrant `i`, as splitting creates it. */
  function ChildRect(b: Rect, i: nat): (r: Rect)
    requires i < 4
    ensures r.width == b.width / 2.0 && r.height == b.height / 2.0
  {
    var w, h := b.width / 2.0, b.height / 2.0;
    if i == 0 then Rect(b.x + w, b.y, w, h)
    else if i == 1 then Rect(b.x, b.y, w, h)
    else if i == 2 then Rect(b.x, b.y + h, w, h)
    else Rect(b.x + w, b.y + h, w, h)
  }

  /**
   * The quadrant a point belongs to: -1 on a midline, else 0 (right, low
   * y), 1 (left, low y), 2 (left, high y) or 3 (right, high y).
   */
  function QuadIndex(b: Rect, p: Vec2): int
  {
    var vertical := b.x + b.width / 2.0;
    var horizontal := b.y + b.height / 2.0;
    var top, bottom := p.y > horizontal, p.y < horizontal;
    var left, right := p.x < vertical, p.x > vertical;
    if left then (if top then 2 else if bottom then 1 else -1)
    else if right then (if top then 3 else if bottom then 0 else -1)
    else -1
  }

  /**
   * The index is -1 exactly on a midline; otherwise a point of the
   * rectangle lies in the quadrant it is sent to, and a point of a
   * quadrant off the midlines is sent to that quadrant.
   */
  lemma QuadIndexSpec(b: Rect, p: Vec2)
    ensures -1 <= QuadIndex(b, p) < 4
    ensures QuadIndex(b, p) == -1 <==> (p.x == b.x + b.width / 2.0 || p.y == b.y + b.height / 2.0)
    ensures Contains(b, p) && QuadIndex(b, p) != -1 ==> Contains(ChildRect(b, QuadIndex(b, p)), p)
    ensures forall i :: 0 <= i < 4 && Contains(ChildRect(b, i), p) && QuadIndex(b, p) != -1 ==> QuadIndex(b, p) == i
  {
  }

  lemma QuadIndexInChild(b: Rect, p: Vec2)
    requires Contains(b, p) && QuadIndex(b, p) != -1
    ensures 0 <= QuadIndex(b, p) < 4 && Contains(ChildRect(b, QuadIndex(b, p)), p)
  {
  }

  /** The four quadrants tile the rectangle: each lies inside it, and together they cover it. */
  lemma QuadrantsTile(b: Rect, p: Vec2)
    requires b.width >= 0.0 && b.height >= 0.0
    ensures (exists i :: 0 <= i < 4 && Contains(ChildRect(b, i), p)) <==> Contains(b, p)
  {
    if Contains(b, p) {
      var v, h := b.x + b.width / 2.0, b.y + b.height / 2.0;
      var i := if p.x >= v then (if p.y >= h then 3 else 0) else (if p.y >= h then 2 else 1);
      assert Contains(ChildRect(b, i), p);
    }
  }

  lemma QuadrantInside(b: Rect, i: nat, p: Vec2)
    requires i < 4 && Contains(ChildRect(b, i), p)
    ensures Contains(b, p)
  {
  }

  /**
   * A node: its rectangle, the capacity and depth limits it shares with
   * the whole tree, its depth, its own points, and its four child slots.
   */
  datatype Tree = Tree(
    bounds: Rect, maxNodes: int, maxLevels: int, level: int,
    nodes: seq<Component>, children: seq<Option<Tree>>)

  /** An empty node with no children. */
  function Leaf(bounds: Rect, maxNodes: int, maxLevels: int, level: int): Tree
  {
    Tree(bounds, maxNodes, maxLevels, level, [], [None, None, None, None])
  }

  /** Every point stored in the tree: the node's own, then each child's in slot order. */
  function Contents(t: Tree): seq<Component>
  {
    t.nodes + Sub(t, 0) + Sub(t, 1) + Sub(t, 2) + Sub(t, 3)
  }

  function Sub(t: Tree, i: nat): seq<Component>
    decreases t, 0
  {
    if i < |t.children| && t.children[i].Some? then Contents(t.children[i].value) else []
  }

  lemma ContentsParts(t: Tree)
    ensures forall e :: e in Contents(t) <==> e in t.nodes || e in Sub(t, 0) || e in Sub(t, 1) || e in Sub(t, 2) || e in Sub(t, 3)
  {
  }

  lemma Multiset5(a: seq<Component>, b: seq<Component>, c: seq<Component>, d: seq<Component>, e: seq<Component>)
    ensures multiset(a + b + c + d + e) == multiset(a) + multiset(b) + multiset(c) + multiset(d) + multiset(e)
  {
  }

  /** Growing one of four parts grows the concatenation by the same points. */
  lemma GrowPart(a: seq<Component>, p0: seq<Component>, p1: seq<Component>, p2: seq<Component>, p3: seq<Component>,
                 q0: seq<Component>, q1: seq<Component>, q2: seq<Component>, q3: seq<Component>, i: nat, x: multiset<Component>)
    requires i < 4
    requires i == 0 ==> multiset(q0) == multiset(p0) + x && q1 == p1 && q2 == p2 && q3 == p3
    requires i == 1 ==> multiset(q1) == multiset(p1) + x && q0 == p0 && q2 == p2 && q3 == p3
    requires i == 2 ==> multiset(q2) == multiset(p2) + x && q0 == p0 && q1 == p1 && q3 == p3
    requires i == 3 ==> multiset(q3) == multiset(p3) + x && q0 == p0 && q1 == p1 && q2 == p2
    ensures multiset(a + q0 + q1 + q2 + q3) == multiset(a + p0 + p1 + p2 + p3) + x
  {
    Multiset5(a, p0, p1, p2, p3);
    Multiset5(a, q0, q1, q2, q3);
    var A, P0, P1, P2, P3 := multiset(a), multiset(p0), multiset(p1), multiset(p2), multiset(p3);
    if i == 0 {
      assert multiset(a + q0 + q1 + q2 + q3) == A + (P0 + x) + P1 + P2 + P3;
    } else if i == 1 {
      assert multiset(a + q0 + q1 + q2 + q3) == A + P0 + (P1 + x) + P2 + P3;
    } else if i == 2 {
      assert multiset(a + q0 + q1 + q2 + q3) == A + P0 + P1 + (P2 + x) + P3;
    } else {
      assert multiset(a + q0 + q1 + q2 + q3) == A + P0 + P1 + P2 + (P3 + x);
    }
  }

  /** Replacing child i by one with more points adds those points to the node's contents. */
  lemma SwapContents(s: Tree, i: nat, c': Tree, x: multiset<Component>)
    requires |s.children| == 4 && i < 4 && s.children[i].Some?
    requires multiset(Contents(c')) == multiset(Contents(s.children[i].value)) + x
    ensures multiset(Contents(s.(children := s.children[i := Some(c')]))) == multiset(Contents(s)) + x
  {
    var r := s.(children := s.children[i := Some(c')]);
    var p0, p1, p2, p3 := Sub(s, 0), Sub(s, 1), Sub(s, 2), Sub(s, 3);
    var q0, q1, q2, q3 := Sub(r, 0), Sub(r, 1), Sub(r, 2), Sub(r, 3);
    if i == 0 {
      assert q1 == p1 && q2 == p2 && q3 == p3 && q0 == Contents(c');
    } else if i == 1 {
      assert q0 == p0 && q2 == p2 && q3 == p3 && q1 == Contents(c');
    } else if i == 2 {
      assert q0 == p0 && q1 == p1 && q3 == p3 && q2 == Contents(c');
    } else {
      assert q0 == p0 && q1 == p1 && q2 == p2 && q3 == Contents(c');
    }
    GrowPart(s.nodes, p0, p1, p2, p3, q0, q1, q2, q3, i, x);
    assert Contents(s) == s.nodes + p0 + p1 + p2 + p3;
    assert Contents(r) == s.nodes + q0 + q1 + q2 + q3;
  }

  /** The node has four slots, and the first is set exactly when all are. */
  predicate Split4(t: Tree)
  {
    |t.children| == 4
    && (t.children[0].Some? <==> t.children[1].Some?)
    && (t.children[0].Some? <==> t.children[2].Some?)
    && (t.children[0].Some? <==> t.children[3].Some?)
  }

  predicate AllInside(cs: seq<Component>, b: Rect)
  {
    forall e :: e in cs ==> Contains(b, e.position)
  }

  predicate AllPlaced(cs: seq<Component>, b: Rect, i: int)
  {
    forall e :: e in cs ==> QuadIndex(b, e.position) == i
  }

  /** `c` is what slot i of `t` may hold: the quadrant one level down, with the same limits. */
  predicate Fits(t: Tree, i: nat, c: Tree)
    requires i < 4
  {
    c.bounds == ChildRect(t.bounds, i)
    && c.maxNodes == t.maxNodes && c.maxLevels == t.maxLevels && c.level == t.level + 1
  }

  /**
   * A well-formed tree: every node has all four children or none; each
   * child is the quadrant of its parent one level down; every point lies
   * in its node's rectangle, and every point below child i is sent to
   * quadrant i by its parent.
   */
  ghost predicate WF(t: Tree)
    decreases t, 1
  {
    && Split4(t)
    && AllInside(t.nodes, t.bounds)
    && forall i :: 0 <= i < 4 && t.children[i].Some? ==> ChildWF(t, i)
  }

  /** Slot i of `t` holds a well-formed quadrant child whose points all belong to quadrant i. */
  ghost predicate ChildWF(t: Tree, i: nat)
    requires i < |t.children| <= 4 && t.children[i].Some?
    decreases t, 0
  {
    var c := t.children[i].value;
    Fits(t, i, c) && WF(c) && AllPlaced(Contents(c), t.bounds, i)
  }

  /** Creates the four empty quadrant children. */
  function SplitTree(t: Tree): (r: Tree)
  {
    var b, m, l, d := t.bounds, t.maxNodes, t.maxLevels, t.level + 1;
    t.(children := [Some(Leaf(ChildRect(b, 0), m, l, d)), Some(Leaf(ChildRect(b, 1), m, l, d)),
                    Some(Leaf(ChildRect(b, 2), m, l, d)), Some(Leaf(ChildRect(b, 3), m, l, d))])
  }

  lemma LeafWF(bounds: Rect, maxNodes: int, maxLevels: int, level: int)
    ensures WF(Leaf(bounds, maxNodes, maxLevels, level))
    ensures Contents(Leaf(bounds, maxNodes, maxLevels, level)) == []
  {
  }

  /** The empty child that splitting puts in slot i fits there. */
  lemma SplitChild(t: Tree, i: nat)
    requires i < 4
    ensures SplitTree(t).children[i] == Some(Leaf(ChildRect(t.bounds, i), t.maxNodes, t.maxLevels, t.level + 1))
    ensures ChildWF(SplitTree(t), i) && Sub(SplitTree(t), i) == []
  {
    LeafWF(ChildRect(t.bounds, i), t.maxNodes, t.maxLevels, t.level + 1);
  }

  /**
   * Splitting a childless well-formed node keeps it well formed and its
   * points, and gives it four empty children, one per quadrant.
   */
  lemma SplitWF(t: Tree)
    requires WF(t) && t.children[0].None?
    ensures WF(SplitTree(t)) && Contents(SplitTree(t)) == Contents(t)
    ensures forall i :: 0 <= i < 4 ==> SplitTree(t).children[i] == Some(Leaf(ChildRect(t.bounds, i), t.maxNodes, t.maxLevels, t.level + 1))
  {
    SplitChild(t, 0);
    SplitChild(t, 1);
    SplitChild(t, 2);
    SplitChild(t, 3);
    SplitContents(t);
  }

  lemma SplitContents(t: Tree)
    requires Split4(t) && t.children[0].None?
    ensures Contents(SplitTree(t)) == Contents(t) == t.nodes
  {
    var s := SplitTree(t);
    SplitChild(t, 0);
    SplitChild(t, 1);
    SplitChild(t, 2);
    SplitChild(t, 3);
    assert Contents(s) == t.nodes;
    assert Sub(t, 0) == [] && Sub(t, 1) == [] && Sub(t, 2) == [] && Sub(t, 3) == [];
  }

  // ------------------------------------------------------------------ insert

  function InsertMeasure(t: Tree): nat
  {
    if t.level < t.maxLevels then t.maxLevels - t.level else 0
  }

  /**
   * Whether the node keeps a new point locally. The count is unsigned and
   * the capacity signed, so a negative capacity converts to a huge one.
   */
  predicate HasRoom(t: Tree)
  {
    t.maxNodes < 0 || |t.nodes| < t.maxNodes || t.level >= t.maxLevels
  }

  /** The node split if it has no children yet. */
  function Prepared(t: Tree): Tree
    requires |t.children| == 4
  {
    if t.children[0].None? then SplitTree(t) else t
  }

  lemma PreparedWF(t: Tree)
    requires WF(t)
    ensures WF(Prepared(t)) && Contents(Prepared(t)) == Contents(t) && Prepared(t).children[0].Some?
    ensures Prepared(t).bounds == t.bounds && Prepared(t).nodes == t.nodes && Prepared(t).level == t.level
    ensures Prepared(t).maxNodes == t.maxNodes && Prepared(t).maxLevels == t.maxLevels
  {
    if t.children[0].None? {
      SplitWF(t);
    }
  }

  /**
   * Inserting a point: nothing when it is outside the node; kept locally
   * while the node has room or is at the deepest level; otherwise, after
   * splitting a childless node, passed to its quadrant, or kept locally
   * when it lies on a midline.
   */
  function TreeInsert(t: Tree, n: Component): (r: Tree)
    requires WF(t)
    ensures r.bounds == t.bounds && r.level == t.level && r.maxNodes == t.maxNodes && r.maxLevels == t.maxLevels
    ensures |r.children| == 4
    decreases InsertMeasure(t)
  {
    if !Contains(t.bounds, n.position) then t
    else if HasRoom(t) then t.(nodes := t.nodes + [n])
    else
      var s := Prepared(t);
      PreparedWF(t);
      var i := QuadIndex(t.bounds, n.position);
      if i != -1 then s.(children := s.children[i := Some(TreeInsert(s.children[i].value, n))])
      else s.(nodes := s.nodes + [n])
  }

  /**
   * Inserting keeps the tree well formed, and it stores the point exactly
   * once when it lies in the rectangle and not at all otherwise.
   */
  lemma {:induction false} InsertWF(t: Tree, n: Component)
    requires WF(t)
    ensures WF(TreeInsert(t, n))
    ensures multiset(Contents(TreeInsert(t, n))) ==
              multiset(Contents(t)) + (if Contains(t.bounds, n.position) then multiset{n} else multiset{})
    decreases InsertMeasure(t), 1
  {
    if !Contains(t.bounds, n.position) {
    } else if HasRoom(t) {
      AppendLocal(t, n);
    } else {
      PreparedWF(t);
      if QuadIndex(t.bounds, n.position) != -1 {
        QuadIndexInChild(t.bounds, n.position);
        InsertIntoChild(t, n);
      } else {
        AppendLocal(Prepared(t), n);
      }
    }
  }

  lemma InsertKeepsWF(t: Tree, n: Component)
    requires WF(t)
    ensures WF(TreeInsert(t, n))
  {
    InsertWF(t, n);
  }

  /** A point off the midlines goes into its quadrant's child. */
  lemma {:induction false} InsertIntoChild(t: Tree, n: Component)
    requires WF(t) && Contains(t.bounds, n.position) && !HasRoom(t)
    requires 0 <= QuadIndex(t.bounds, n.position) < 4
    ensures WF(TreeInsert(t, n))
    ensures multiset(Contents(TreeInsert(t, n))) == multiset(Contents(t)) + multiset{n}
    decreases InsertMeasure(t), 0
  {
    var s := Prepared(t);
    PreparedWF(t);
    var i := QuadIndex(t.bounds, n.position);
    QuadIndexInChild(t.bounds, n.position);
    var c := s.children[i].value;
    assert ChildWF(s, i);
    InsertWF(c, n);
    assert TreeInsert(t, n) == s.(children := s.children[i := Some(TreeInsert(c, n))]);
    ReplaceChild(s, i, TreeInsert(c, n), n);
  }

  /** Inserting off the midlines, below the node's local capacity, goes through the quadrant's child. */
  lemma InsertUnfoldChild(t: Tree, n: Component)
    requires WF(t) && Contains(t.bounds, n.position) && !HasRoom(t)
    requires 0 <= QuadIndex(t.bounds, n.position) < 4
    ensures var s, i := Prepared(t), QuadIndex(t.bounds, n.position);
            s.children[i].Some? && WF(s.children[i].value) &&
            TreeInsert(t, n) == s.(children := s.children[i := Some(TreeInsert(s.children[i].value, n))])
  {
    PreparedWF(t);
    assert ChildWF(Prepared(t), QuadIndex(t.bounds, n.position));
  }

  /** A point on a midline, below the node's local capacity, stays in the (split) node. */
  lemma InsertUnfoldMidline(t: Tree, n: Component)
    requires WF(t) && Contains(t.bounds, n.position) && !HasRoom(t)
    requires QuadIndex(t.bounds, n.position) == -1
    ensures TreeInsert(t, n) == Prepared(t).(nodes := Prepared(t).nodes + [n])
  {
  }

  /** Appending a point of the rectangle to the node's own list. */
  lemma AppendLocal(t: Tree, n: Component)
    requires WF(t) && Contains(t.bounds, n.position)
    ensures WF(t.(nodes := t.nodes + [n]))
    ensures multiset(Contents(t.(nodes := t.nodes + [n]))) == multiset(Contents(t)) + multiset{n}
  {
    AppendLocalWF(t, n);
    AppendLocalContents(t, n);
  }

  lemma AppendLocalWF(t: Tree, n: Component)
    requires WF(t) && Contains(t.bounds, n.position)
    ensures WF(t.(nodes := t.nodes + [n]))
  {
    var r := t.(nodes := t.nodes + [n]);
    forall j | 0 <= j < 4 && r.children[j].Some? ensures ChildWF(r, j) {
      assert ChildWF(t, j);
    }
  }

  lemma AppendLocalContents(t: Tree, n: Component)
    ensures multiset(Contents(t.(nodes := t.nodes + [n]))) == multiset(Contents(t)) + multiset{n}
  {
    var r := t.(nodes := t.nodes + [n]);
    var p0, p1, p2, p3 := Sub(t, 0), Sub(t, 1), Sub(t, 2), Sub(t, 3);
    assert Sub(r, 0) == p0 && Sub(r, 1) == p1 && Sub(r, 2) == p2 && Sub(r, 3) == p3;
    assert Contents(t) == t.nodes + p0 + p1 + p2 + p3;
    assert Contents(r) == (t.nodes + [n]) + p0 + p1 + p2 + p3;
    Multiset5(t.nodes, p0, p1, p2, p3);
    Multiset5(t.nodes + [n], p0, p1, p2, p3);
  }

  /** Putting a grown child, holding one more point of its quadrant, into its slot. */
  lemma ReplaceChild(s: Tree, i: nat, c': Tree, n: Component)
    requires WF(s) && i < 4 && s.children[i].Some?
    requires QuadIndex(s.bounds, n.position) == i
    requires WF(c') && Fits(s, i, c')
    requires multiset(Contents(c')) == multiset(Contents(s.children[i].value)) + multiset{n}
    ensures WF(s.(children := s.children[i := Some(c')]))
    ensures multiset(Contents(s.(children := s.children[i := Some(c')]))) == multiset(Contents(s)) + multiset{n}
  {
    var r := s.(children := s.children[i := Some(c')]);
    ReplacePlaced(s, i, c', n);
    assert ChildWF(r, i);
    ReplaceKeepsOthers(s, r, i);
    SwapContents(s, i, c', multiset{n});
  }

  lemma ReplacePlaced(s: Tree, i: nat, c': Tree, n: Component)
    requires WF(s) && i < 4 && s.children[i].Some?
    requires QuadIndex(s.bounds, n.position) == i
    requires multiset(Contents(c')) == multiset(Contents(s.children[i].value)) + multiset{n}
    ensures AllPlaced(Contents(c'), s.bounds, i)
  {
    var c := s.children[i].value;
    assert ChildWF(s, i);
    forall e | e in Contents(c') ensures QuadIndex(s.bounds, e.position) == i {
      assert e in multiset(Contents(c'));
      if e != n {
        assert e in multiset(Contents(c));
      }
    }
  }

  /** The slots other than i keep their children, their well-formedness and their points. */
  lemma ReplaceKeepsOthers(s: Tree, r: Tree, i: nat)
    requires WF(s) && i < 4 && |r.children| == 4
    requires r.bounds == s.bounds && r.nodes == s.nodes && r.maxNodes == s.maxNodes
    requires r.maxLevels == s.maxLevels && r.level == s.level
    requires forall j :: 0 <= j < 4 && j != i ==> r.children[j] == s.children[j]
    requires r.children[i].Some? && ChildWF(r, i) && s.children[0].Some?
    ensures WF(r)
  {
    forall j | 0 <= j < 4 && r.children[j].Some? ensures ChildWF(r, j) {
      if j != i {
        assert ChildWF(s, j);
      }
    }
  }

  // ------------------------------------------------------------------- query

  /** Every node with a first child has all four, all the way down: the tree can be searched without a missing child. */
  predicate Searchable(t: Tree)
    decreases t
  {
    |t.children| == 4 && (t.children[0].Some? ==> forall i :: 0 <= i < 4 ==> t.children[i].Some? && Searchable(t.children[i].value))
  }

  lemma {:induction false} WFSearchable(t: Tree)
    requires WF(t)
    ensures Searchable(t)
    decreases t
  {
    forall i | 0 <= i < 4 && t.children[i].Some? ensures Searchable(t.children[i].value) {
      WFSearchable(t.children[i].value);
    }
  }

  /** The uuids of the points that lie in the area, in order. */
  function InArea(cs: seq<Component>, area: Rect): (r: seq<Uuid>)
  {
    if cs == [] then []
    else InArea(cs[..|cs| - 1], area) + (if Contains(area, cs[|cs| - 1].position) then [cs[|cs| - 1].uuid] else [])
  }

  lemma {:induction false} InAreaAppend(a: seq<Component>, b: seq<Component>, area: Rect)
    ensures InArea(a + b, area) == InArea(a, area) + InArea(b, area)
    decreases |b|
  {
    if b == [] {
      assert a + b == a;
    } else {
      assert (a + b)[..|a + b| - 1] == a + b[..|b| - 1];
      assert (a + b)[|a + b| - 1] == b[|b| - 1];
      InAreaAppend(a, b[..|b| - 1], area);
    }
  }

  /** The uuids the query appends: this node's points in the area, then each child's, when the node meets the area. */
  function TreeQuery(t: Tree, area: Rect): seq<Uuid>
    requires Searchable(t)
    decreases t
  {
    if !Intersects(t.bounds, area) then []
    else if t.children[0].Some? then
      InArea(t.nodes, area) + TreeQuery(t.children[0].value, area) + TreeQuery(t.children[1].value, area)
      + TreeQuery(t.children[2].value, area) + TreeQuery(t.children[3].value, area)
    else InArea(t.nodes, area)
  }

  /** Every point of a well-formed tree lies in its rectangle. */
  lemma {:induction false} ContentsInBounds(t: Tree)
    requires WF(t)
    ensures AllInside(Contents(t), t.bounds)
    decreases t
  {
    forall i | 0 <= i < 4 ensures AllInside(Sub(t, i), t.bounds) {
      if t.children[i].Some? {
        var c := t.children[i].value;
        ContentsInBounds(c);
        forall e | e in Sub(t, i) ensures Contains(t.bounds, e.position) {
          assert Contains(ChildRect(t.bounds, i), e.position);
          QuadrantInside(t.bounds, i, e.position);
        }
      }
    }
    ContentsParts(t);
  }

  /** Points outside the area contribute nothing. */
  lemma {:induction false} InAreaNone(cs: seq<Component>, area: Rect)
    requires forall e :: e in cs ==> !Contains(area, e.position)
    ensures InArea(cs, area) == []
  {
    if cs != [] {
      assert cs[|cs| - 1] in cs;
      assert forall e :: e in cs[..|cs| - 1] ==> e in cs;
      InAreaNone(cs[..|cs| - 1], area);
    }
  }

  /**
   * In a well-formed tree the query returns exactly the uuids of the
   * stored points in the area, in content order; a node that misses the
   * area returns none.
   */
  lemma {:induction false} QueryExact(t: Tree, area: Rect)
    requires WF(t)
    ensures Searchable(t)
    ensures TreeQuery(t, area) == InArea(Contents(t), area)
    decreases t, 1
  {
    WFSearchable(t);
    if !Intersects(t.bounds, area) {
      QueryMisses(t, area);
    } else {
      QueryMeets(t, area);
    }
  }

  /** A node that misses the area holds no point of it. */
  lemma QueryMisses(t: Tree, area: Rect)
    requires WF(t) && !Intersects(t.bounds, area)
    ensures InArea(Contents(t), area) == []
  {
    ContentsInBounds(t);
    forall e | e in Contents(t) ensures !Contains(area, e.position) {
      if Contains(area, e.position) {
        CommonPointIntersects(t.bounds, area, e.position);
      }
    }
    InAreaNone(Contents(t), area);
  }

  lemma {:induction false} QueryMeets(t: Tree, area: Rect)
    requires WF(t) && Searchable(t) && Intersects(t.bounds, area)
    ensures TreeQuery(t, area) == InArea(Contents(t), area)
    decreases t, 0
  {
    if t.children[0].Some? {
      forall i | 0 <= i < 4 ensures TreeQuery(t.children[i].value, area) == InArea(Sub(t, i), area) {
        assert ChildWF(t, i);
        QueryExact(t.children[i].value, area);
      }
      QueryParts(t, area);
    } else {
      QueryLeaf(t, area);
    }
    InArea5(t.nodes, Sub(t, 0), Sub(t, 1), Sub(t, 2), Sub(t, 3), area);
    assert Contents(t) == t.nodes + Sub(t, 0) + Sub(t, 1) + Sub(t, 2) + Sub(t, 3);
  }

  /** The queries of the first i children, in slot order. */
  function ChildQueries(t: Tree, area: Rect, i: nat): seq<Uuid>
    requires Searchable(t) && t.children[0].Some? && i <= 4
  {
    if i == 0 then [] else ChildQueries(t, area, i - 1) + TreeQuery(t.children[i - 1].value, area)
  }

  /** A split node meeting the area answers with its own points, then its children's queries. */
  lemma QuerySplit(t: Tree, area: Rect)
    requires Searchable(t) && t.children[0].Some? && Intersects(t.bounds, area)
    ensures TreeQuery(t, area) == InArea(t.nodes, area) + ChildQueries(t, area, 4)
  {
    var q0, q1, q2, q3 := TreeQuery(t.children[0].value, area), TreeQuery(t.children[1].value, area),
                          TreeQuery(t.children[2].value, area), TreeQuery(t.children[3].value, area);
    assert ChildQueries(t, area, 0) == [];
    assert ChildQueries(t, area, 1) == [] + q0 == q0;
    assert ChildQueries(t, area, 2) == q0 + q1;
    assert ChildQueries(t, area, 3) == q0 + q1 + q2;
    assert ChildQueries(t, area, 4) == q0 + q1 + q2 + q3;
    assert InArea(t.nodes, area) + (q0 + q1 + q2 + q3) == InArea(t.nodes, area) + q0 + q1 + q2 + q3;
  }

  lemma QueryParts(t: Tree, area: Rect)
    requires Searchable(t) && Intersects(t.bounds, area) && t.children[0].Some?
    requires forall i :: 0 <= i < 4 ==> TreeQuery(t.children[i].value, area) == InArea(Sub(t, i), area)
    ensures TreeQuery(t, area) == InArea(t.nodes, area) + InArea(Sub(t, 0), area) + InArea(Sub(t, 1), area)
                              + InArea(Sub(t, 2), area) + InArea(Sub(t, 3), area)
  {
  }

  lemma QueryLeaf(t: Tree, area: Rect)
    requires Split4(t) && Searchable(t) && Intersects(t.bounds, area) && t.children[0].None?
    ensures TreeQuery(t, area) == InArea(t.nodes, area) + InArea(Sub(t, 0), area) + InArea(Sub(t, 1), area)
                              + InArea(Sub(t, 2), area) + InArea(Sub(t, 3), area)
  {
    assert Sub(t, 0) == Sub(t, 1) == Sub(t, 2) == Sub(t, 3) == [];
  }

  lemma InArea5(a: seq<Component>, b: seq<Component>, c: seq<Component>, d: seq<Component>, e: seq<Component>, area: Rect)
    ensures InArea(a + b + c + d + e, area) == InArea(a, area) + InArea(b, area) + InArea(c, area) + InArea(d, area) + InArea(e, area)
  {
    InAreaAppend(a + b + c + d, e, area);
    InAreaAppend(a + b + c, d, area);
    InAreaAppend(a + b, c, area);
    InAreaAppend(a, b, area);
  }

  // ------------------------------------------------------------------ remove

  /** The position of the first point with the uuid, if any. */
  function FirstWithUuid(ns: seq<Component>, id: Uuid): (r: Option<nat>)
    ensures r.Some? ==> r.value < |ns| && ns[r.value].uuid == id && forall k :: 0 <= k < r.value ==> ns[k].uuid != id
    ensures r.None? ==> forall k :: 0 <= k < |ns| ==> ns[k].uuid != id
  {
    if ns == [] then None
    else if ns[0].uuid == id then Some(0)
    else match FirstWithUuid(ns[1..], id)
      case None => None
      case Some(k) => Some(k + 1)
  }

  /** The node with its k-th local point erased. */
  function Erase(t: Tree, k: nat): Tree
    requires k < |t.nodes|
  {
    t.(nodes := t.nodes[..k] + t.nodes[k + 1..])
  }

  /**
   * Removing the point with a uuid: false when its position is outside
   * the node; otherwise the first local point with that uuid is erased,
   * or else the removal goes on in the quadrant of its position. A
   * child that has been removed from stays in its slot.
   */
  function TreeRemove(t: Tree, n: Component): (r: (Tree, bool))
    requires WF(t)
    ensures r.0.bounds == t.bounds && r.0.level == t.level && r.0.maxNodes == t.maxNodes && r.0.maxLevels == t.maxLevels
    ensures !r.1 ==> r.0 == t
    decreases t, 1
  {
    if !Contains(t.bounds, n.position) then (t, false)
    else match FirstWithUuid(t.nodes, n.uuid)
      case Some(k) => (Erase(t, k), true)
      case None => TreeRemoveBelow(t, n)
  }

  /** Removal from the child of the point's quadrant, when the node has children and the point is off the midlines. */
  function TreeRemoveBelow(t: Tree, n: Component): (r: (Tree, bool))
    requires WF(t)
    ensures r.0.bounds == t.bounds && r.0.level == t.level && r.0.maxNodes == t.maxNodes && r.0.maxLevels == t.maxLevels
    ensures !r.1 ==> r.0 == t
    decreases t, 0
  {
    var i := QuadIndex(t.bounds, n.position);
    if t.children[0].Some? && 0 <= i < 4 then
      assert ChildWF(t, i);
      var sub := TreeRemove(t.children[i].value, n);
      if sub.1 then (t.(children := t.children[i := Some(sub.0)]), true) else (t, false)
    else (t, false)
  }

  lemma RemoveKeepsWF(t: Tree, n: Component)
    requires WF(t)
    ensures WF(TreeRemove(t, n).0)
  {
    RemoveWF(t, n);
  }

  /**
   * Removal keeps the tree well formed. It fails for a position outside
   * the rectangle; when it succeeds it has taken out exactly one stored
   * point with the uuid; when it fails nothing changes.
   */
  lemma {:induction false} RemoveWF(t: Tree, n: Component)
    requires WF(t)
    ensures WF(TreeRemove(t, n).0)
    ensures !Contains(t.bounds, n.position) ==> !TreeRemove(t, n).1
    ensures TreeRemove(t, n).1 ==> exists e :: e in Contents(t) && e.uuid == n.uuid
                                           && multiset(Contents(t)) == multiset(Contents(TreeRemove(t, n).0)) + multiset{e}
    decreases t, 2
  {
    if Contains(t.bounds, n.position) {
      match FirstWithUuid(t.nodes, n.uuid)
      case Some(k) =>
        RemoveLocal(t, k);
        assert TreeRemove(t, n) == (Erase(t, k), true);
      case None =>
        RemoveFromChild(t, n);
        assert TreeRemove(t, n) == TreeRemoveBelow(t, n);
    }
  }

  /** Erasing the k-th local point. */
  lemma RemoveLocal(t: Tree, k: nat)
    requires WF(t) && k < |t.nodes|
    ensures WF(Erase(t, k))
    ensures t.nodes[k] in Contents(t)
    ensures multiset(Contents(t)) == multiset(Contents(Erase(t, k))) + multiset{t.nodes[k]}
  {
    var rest := t.nodes[..k] + t.nodes[k + 1..];
    assert t.nodes == t.nodes[..k] + [t.nodes[k]] + t.nodes[k + 1..];
    assert multiset(t.nodes) == multiset(rest) + multiset{t.nodes[k]};
    EraseWF(t, k);
    EraseContents(t, k);
    ContentsParts(t);
  }

  lemma EraseWF(t: Tree, k: nat)
    requires WF(t) && k < |t.nodes|
    requires multiset(t.nodes) == multiset(Erase(t, k).nodes) + multiset{t.nodes[k]}
    ensures WF(Erase(t, k))
  {
    var r := Erase(t, k);
    forall x | x in r.nodes ensures Contains(t.bounds, x.position) {
      assert x in multiset(r.nodes);
      assert x in multiset(t.nodes);
    }
    forall j | 0 <= j < 4 && r.children[j].Some? ensures ChildWF(r, j) {
      assert ChildWF(t, j);
    }
  }

  lemma EraseContents(t: Tree, k: nat)
    requires k < |t.nodes|
    requires multiset(t.nodes) == multiset(Erase(t, k).nodes) + multiset{t.nodes[k]}
    ensures multiset(Contents(t)) == multiset(Contents(Erase(t, k))) + multiset{t.nodes[k]}
  {
    var r := Erase(t, k);
    var p0, p1, p2, p3 := Sub(t, 0), Sub(t, 1), Sub(t, 2), Sub(t, 3);
    assert Sub(r, 0) == p0 && Sub(r, 1) == p1 && Sub(r, 2) == p2 && Sub(r, 3) == p3;
    assert Contents(t) == t.nodes + p0 + p1 + p2 + p3;
    assert Contents(r) == r.nodes + p0 + p1 + p2 + p3;
    Multiset5(t.nodes, p0, p1, p2, p3);
    Multiset5(r.nodes, p0, p1, p2, p3);
  }

  /** Removal from the child of the point's quadrant. */
  lemma {:induction false} RemoveFromChild(t: Tree, n: Component)
    requires WF(t)
    ensures WF(TreeRemoveBelow(t, n).0)
    ensures TreeRemoveBelow(t, n).1 ==> exists e :: e in Contents(t) && e.uuid == n.uuid
                                               && multiset(Contents(t)) == multiset(Contents(TreeRemoveBelow(t, n).0)) + multiset{e}
    decreases t, 1
  {
    var i := QuadIndex(t.bounds, n.position);
    if t.children[0].Some? && 0 <= i < 4 {
      assert ChildWF(t, i);
      var c := t.children[i].value;
      RemoveWF(c, n);
      var sub := TreeRemove(c, n);
      if sub.1 {
        var r := t.(children := t.children[i := Some(sub.0)]);
        var e :| e in Contents(c) && e.uuid == n.uuid && multiset(Contents(c)) == multiset(Contents(sub.0)) + multiset{e};
        RemovedChildFits(t, i, sub.0, e);
        ReplaceKeepsOthers(t, r, i);
        ShrinkContents(t, i, sub.0, e);
      }
    }
  }

  /** Replacing child i by one with a point fewer takes that point out of the node's contents. */
  lemma ShrinkContents(t: Tree, i: nat, c': Tree, e: Component)
    requires |t.children| == 4 && i < 4 && t.children[i].Some? && e in Contents(t.children[i].value)
    requires multiset(Contents(t.children[i].value)) == multiset(Contents(c')) + multiset{e}
    ensures e in Contents(t)
    ensures multiset(Contents(t)) == multiset(Contents(t.(children := t.children[i := Some(c')]))) + multiset{e}
  {
    var c := t.children[i].value;
    var r := t.(children := t.children[i := Some(c')]);
    assert r.children[i := Some(c)] == t.children;
    assert t == r.(children := r.children[i := Some(c)]);
    SwapContents(r, i, c, multiset{e});
    assert e in multiset(Contents(t));
  }

  /** A child that lost one point still fits its slot. */
  lemma RemovedChildFits(t: Tree, i: nat, c': Tree, e: Component)
    requires WF(t) && i < 4 && t.children[i].Some? && WF(c') && Fits(t, i, c')
    requires multiset(Contents(t.children[i].value)) == multiset(Contents(c')) + multiset{e}
    ensures ChildWF(t.(children := t.children[i := Some(c')]), i)
  {
    assert ChildWF(t, i);
    forall x | x in Contents(c') ensures QuadIndex(t.bounds, x.position) == i {
      assert x in multiset(Contents(c'));
      assert x in multiset(Contents(t.children[i].value));
    }
  }

  /**
   * A stored point is always found by its uuid and position: removal
   * succeeds whenever the tree holds a point with both.
   */
  lemma {:induction false} RemoveFinds(t: Tree, n: Component, e: Component)
    requires WF(t) && e in Contents(t) && e.uuid == n.uuid && e.position == n.position
    ensures TreeRemove(t, n).1
    decreases t
  {
    ContentsInBounds(t);
    ContentsParts(t);
    if FirstWithUuid(t.nodes, n.uuid).None? {
      assert e !in t.nodes;
      var i :| 0 <= i < 4 && e in Sub(t, i);
      assert t.children[i].Some?;
      assert ChildWF(t, i);
      assert QuadIndex(t.bounds, e.position) == i;
      RemoveFinds(t.children[i].value, n, e);
      assert TreeRemove(t, n) == TreeRemoveBelow(t, n);
    }
  }

  /** The same, with the child reset as written when it has no points of its own left afterwards. */
  function TreeRemoveAsWritten(t: Tree, n: Component): (r: (Tree, bool))
    requires WF(t)
    ensures !r.1 ==> r.0 == t
    decreases t
  {
    if !Contains(t.bounds, n.position) then (t, false)
    else match FirstWithUuid(t.nodes, n.uuid)
      case Some(k) => (Erase(t, k), true)
      case None =>
        var i := QuadIndex(t.bounds, n.position);
        if t.children[0].Some? && 0 <= i < 4 then
          assert ChildWF(t, i);
          var sub := TreeRemoveAsWritten(t.children[i].value, n);
          if sub.1 then
            (t.(children := t.children[i := if sub.0.nodes == [] then None else Some(sub.0)]), true)
          else (t, false)
        else (t, false)
  }

  /** The example of the finding: a 4x4 tree that may hold no point per node above depth 1, and a point at (1, 1). */
  const ExampleTree: Tree := Leaf(Rect(0.0, 0.0, 4.0, 4.0), 0, 1, 0)
  const ExamplePoint: Component := Component(7, Vec2(1.0, 1.0))
  const ExampleQuadrant: Tree := Leaf(Rect(0.0, 0.0, 2.0, 2.0), 0, 1, 1)

  /**
   * As written, removing the only point of a quadrant leaves the first
   * slot set and that quadrant's slot empty: the example tree stores the
   * point in quadrant 1, and after its removal a query, which visits all
   * four slots once the first is set, would follow the empty slot.
   */
  lemma RemoveAsWrittenLeavesHole()
    ensures WF(ExampleTree) && WF(TreeInsert(ExampleTree, ExamplePoint))
    ensures var r := TreeRemoveAsWritten(TreeInsert(ExampleTree, ExamplePoint), ExamplePoint);
            r.1 && r.0.children[0].Some? && r.0.children[1].None? && !Searchable(r.0)
  {
    ExampleInsert();
    var t1 := TreeInsert(ExampleTree, ExamplePoint);
    assert FirstWithUuid(t1.nodes, ExamplePoint.uuid) == None;
    ExampleRemoveChild();
  }

  /** Inserting the example point puts it alone into quadrant 1's new child. */
  lemma ExampleInsert()
    ensures WF(ExampleTree) && WF(TreeInsert(ExampleTree, ExamplePoint))
    ensures TreeInsert(ExampleTree, ExamplePoint).nodes == [] && |TreeInsert(ExampleTree, ExamplePoint).children| == 4
    ensures TreeInsert(ExampleTree, ExamplePoint).children[0].Some?
    ensures TreeInsert(ExampleTree, ExamplePoint).children[1] == Some(ExampleQuadrant.(nodes := [ExamplePoint]))
  {
    var t, n, c := ExampleTree, ExamplePoint, ExampleQuadrant;
    LeafWF(t.bounds, 0, 1, 0);
    LeafWF(c.bounds, 0, 1, 1);
    InsertWF(t, n);
    SplitWF(t);
    var s := SplitTree(t);
    assert s.children[1] == Some(c);
    assert QuadIndex(t.bounds, n.position) == 1;
    assert TreeInsert(c, n) == c.(nodes := [n]);
    assert TreeInsert(t, n) == s.(children := s.children[1 := Some(c.(nodes := [n]))]);
  }

  /** Removing the example point from that child leaves it with no points of its own. */
  lemma ExampleRemoveChild()
    ensures WF(ExampleQuadrant.(nodes := [ExamplePoint]))
    ensures TreeRemoveAsWritten(ExampleQuadrant.(nodes := [ExamplePoint]), ExamplePoint) == (ExampleQuadrant, true)
  {
    var c1 := ExampleQuadrant.(nodes := [ExamplePoint]);
    assert FirstWithUuid([ExamplePoint], ExamplePoint.uuid) == Some(0);
    assert Erase(c1, 0) == ExampleQuadrant;
  }

  /** The corrected removal never leaves a hole: the tree stays well formed, so a query can visit every slot. */
  lemma RemoveKeepsSearchable(t: Tree, n: Component)
    requires WF(t)
    ensures Searchable(TreeRemove(t, n).0)
  {
    RemoveWF(t, n);
    WFSearchable(TreeRemove(t, n).0);
  }

  // ------------------------------------------------------------------- class

  /**
   * A quadtree node on the heap: its own points and four child pointers,
   * changed in place. `Snapshot` is the tree value it stands for.
   */
  class QuadTree {
    const bounds: Rect
    const maxNodes: int
    const maxLevels: int
    const currentLevel: int
    var nodes: seq<Component>
    var children: seq<QuadTree?>
    ghost var Repr: set<object>

    /** The node owns its children, whose footprints are disjoint. */
    ghost predicate ValidShape()
      reads this, Repr
      decreases Repr, 1
    {
      && this in Repr
      && |children| == 4
      && (forall i :: 0 <= i < 4 && children[i] != null ==> OwnsChild(i))
      && (forall i, j :: 0 <= i < j < 4 && children[i] != null && children[j] != null ==>
            children[i].Repr !! children[j].Repr)
    }

    ghost predicate OwnsChild(i: nat)
      requires this in Repr && i < |children| && children[i] != null
      reads this, Repr
      decreases Repr, 0
    {
      var c := children[i];
      c in Repr && c.Repr <= Repr && this !in c.Repr && c.ValidShape()
    }

    ghost function Snapshot(): Tree
      requires ValidShape()
      reads this, Repr
      decreases Repr, 1
    {
      Tree(bounds, maxNodes, maxLevels, currentLevel, nodes, [Slot(0), Slot(1), Slot(2), Slot(3)])
    }

    ghost function Slot(i: nat): Option<Tree>
      requires ValidShape() && i < 4
      reads this, Repr
      decreases Repr, 0
    {
      if children[i] == null then None else assert OwnsChild(i); Some(children[i].Snapshot())
    }

    ghost predicate Valid()
      reads this, Repr
    {
      ValidShape() && WF(Snapshot())
    }

    /** An empty node with no children. */
    constructor (bounds: Rect, maxNodes: int, maxLevels: int, currentLevel: int)
      ensures Valid() && fresh(Repr) && Repr == {this}
      ensures Snapshot() == Leaf(bounds, maxNodes, maxLevels, currentLevel)
      ensures this.bounds == bounds && this.maxNodes == maxNodes && this.maxLevels == maxLevels
      ensures this.currentLevel == currentLevel && nodes == [] && children == [null, null, null, null]
    {
      this.bounds, this.maxNodes, this.maxLevels, this.currentLevel := bounds, maxNodes, maxLevels, currentLevel;
      nodes := [];
      children := [null, null, null, null];
      Repr := {this};
      new;
      LeafWF(bounds, maxNodes, maxLevels, currentLevel);
    }

    /** A node whose footprint has not changed keeps its shape and its snapshot. */
    static twostate lemma KeepsChild(c: QuadTree)
      requires old(c.ValidShape()) && unchanged(old(c.Repr))
      ensures c.ValidShape() && c.Repr == old(c.Repr) && c.Snapshot() == old(c.Snapshot())
    {
    }

    /** Creates the four empty quadrant children, one level down. */
    method Split()
      requires Valid() && children[0] == null
      modifies this
      ensures Valid() && Snapshot() == SplitTree(old(Snapshot()))
      ensures old(Repr) <= Repr && fresh(Repr - old(Repr))
    {
      ghost var s0 := Snapshot();
      assert Slot(0) == None;
      assert s0.children[0] == Slot(0);
      var c0 := NewQuadrant(bounds, 0, maxNodes, maxLevels, currentLevel + 1);
      var c1 := NewQuadrant(bounds, 1, maxNodes, maxLevels, currentLevel + 1);
      var c2 := NewQuadrant(bounds, 2, maxNodes, maxLevels, currentLevel + 1);
      var c3 := NewQuadrant(bounds, 3, maxNodes, maxLevels, currentLevel + 1);
      ghost var added := {c0, c1, c2, c3};
      assert fresh(added);
      children := [c0, c1, c2, c3];
      Repr := Repr + added;
      SplitShape(s0, c0, c1, c2, c3);
    }

    /** A fresh empty node covering quadrant `i` of `b`. */
    static method NewQuadrant(b: Rect, i: nat, maxNodes: int, maxLevels: int, level: int) returns (c: QuadTree)
      requires i < 4
      ensures fresh(c) && c.Repr == {c} && c.nodes == [] && c.children == [null, null, null, null]
      ensures c.bounds == ChildRect(b, i) && c.maxNodes == maxNodes && c.maxLevels == maxLevels && c.currentLevel == level
    {
      c := new QuadTree(ChildRect(b, i), maxNodes, maxLevels, level);
    }

    /** A node with no points and no children is an empty leaf. */
    static lemma EmptyShape(c: QuadTree)
      requires c.Repr == {c} && c.nodes == [] && c.children == [null, null, null, null]
      ensures c.ValidShape() && c.Snapshot() == Leaf(c.bounds, c.maxNodes, c.maxLevels, c.currentLevel)
    {
    }

    /** The bookkeeping after Split's field updates. */
    ghost method SplitShape(s0: Tree, c0: QuadTree, c1: QuadTree, c2: QuadTree, c3: QuadTree)
      requires this in Repr && children == [c0, c1, c2, c3]
      requires {c0, c1, c2, c3} <= Repr && this !in {c0, c1, c2, c3}
      requires c0 != c1 && c0 != c2 && c0 != c3 && c1 != c2 && c1 != c3 && c2 != c3
      requires c0.Repr == {c0} && c0.nodes == [] && c0.children == [null, null, null, null]
      requires c1.Repr == {c1} && c1.nodes == [] && c1.children == [null, null, null, null]
      requires c2.Repr == {c2} && c2.nodes == [] && c2.children == [null, null, null, null]
      requires c3.Repr == {c3} && c3.nodes == [] && c3.children == [null, null, null, null]
      requires c0.bounds == ChildRect(bounds, 0) && c1.bounds == ChildRect(bounds, 1)
      requires c2.bounds == ChildRect(bounds, 2) && c3.bounds == ChildRect(bounds, 3)
      requires forall c :: c in {c0, c1, c2, c3} ==>
                 c.maxNodes == maxNodes && c.maxLevels == maxLevels && c.currentLevel == currentLevel + 1
      requires WF(s0) && s0.children[0].None?
      requires s0.bounds == bounds && s0.nodes == nodes && s0.level == currentLevel
      requires s0.maxNodes == maxNodes && s0.maxLevels == maxLevels
      ensures Valid() && Snapshot() == SplitTree(s0)
    {
      EmptyShape(c0);
      EmptyShape(c1);
      EmptyShape(c2);
      EmptyShape(c3);
      assert OwnsChild(0) && OwnsChild(1) && OwnsChild(2) && OwnsChild(3);
      assert ValidShape();
      SplitWF(s0);
      assert Snapshot() == SplitTree(s0);
    }

    /** Changing only the node's own list keeps its children and their snapshots. */
    twostate lemma NodesChanged()
      requires old(ValidShape())
      requires Repr == old(Repr) && children == old(children)
      requires unchanged(old(Repr) - {this})
      ensures ValidShape() && Snapshot() == old(Snapshot()).(nodes := nodes)
    {
      forall j | 0 <= j < 4 && children[j] != null ensures OwnsChild(j) {
        assert old(OwnsChild(j));
        KeepsChild(children[j]);
      }
      assert ValidShape();
      forall j | 0 <= j < 4 ensures Slot(j) == old(Slot(j)) {
        if children[j] != null {
          assert old(OwnsChild(j));
          KeepsChild(children[j]);
        }
      }
    }

    /** Changing only child i, which may have grown by fresh objects, changes only slot i. */
    twostate lemma ChildChanged(i: nat)
      requires old(ValidShape()) && i < 4 && old(children[i]) != null
      requires children == old(children) && nodes == old(nodes)
      requires children[i].ValidShape() && this !in children[i].Repr
      requires old(children[i].Repr) <= children[i].Repr && fresh(children[i].Repr - old(children[i].Repr))
      requires Repr == old(Repr) + children[i].Repr
      requires unchanged(old(Repr) - old(children[i].Repr) - {this})
      ensures ValidShape()
      ensures Snapshot() == old(Snapshot()).(children := old(Snapshot()).children[i := Some(children[i].Snapshot())])
    {
      assert old(OwnsChild(i));
      forall j | 0 <= j < 4 && j != i && children[j] != null ensures OwnsChild(j) {
        assert old(OwnsChild(j));
        KeepsChild(children[j]);
      }
      assert OwnsChild(i);
      forall a, b | 0 <= a < b < 4 && children[a] != null && children[b] != null
        ensures children[a].Repr !! children[b].Repr
      {
        var k := if a == i then b else a;
        KeepsChild(children[k]);
        if a != i && b != i {
          KeepsChild(children[b]);
        } else {
          assert old(children[k].Repr !! children[i].Repr);
          forall o | o in children[k].Repr ensures o !in children[i].Repr - old(children[i].Repr) {
            assert o in old(Repr);
          }
        }
      }
      assert ValidShape();
      forall j | 0 <= j < 4 && j != i ensures Slot(j) == old(Slot(j)) {
        if children[j] != null {
          assert old(OwnsChild(j));
          KeepsChild(children[j]);
        }
      }
    }

    /** Appends the point to the node's own list. */
    method AddLocal(node: Component)
      requires ValidShape()
      modifies this
      ensures ValidShape() && Repr == old(Repr)
      ensures Snapshot() == old(Snapshot()).(nodes := old(Snapshot()).nodes + [node])
    {
      label Before:
      nodes := nodes + [node];
      NodesChanged@Before();
    }

    /** In a well-formed split node, child i is present, valid and one level down. */
    lemma ChildReady(i: nat)
      requires ValidShape() && WF(Snapshot()) && children[0] != null && i < 4
      ensures children[i] != null && OwnsChild(i) && children[i].Valid()
      ensures Slot(i) == Some(children[i].Snapshot()) && ChildWF(Snapshot(), i)
      ensures children[i].currentLevel == currentLevel + 1 && children[i].maxLevels == maxLevels
    {
      assert Slot(0).Some?;
      assert Snapshot().children[i] == Slot(i);
      assert ChildWF(Snapshot(), i);
    }

    /**
     * Inserts the point as the tree value's insertion does: the new
     * snapshot is the old one with the point inserted.
     */
    method Insert(node: Component)
      requires Valid()
      modifies Repr
      ensures Valid() && Snapshot() == TreeInsert(old(Snapshot()), node)
      ensures old(Repr) <= Repr && fresh(Repr - old(Repr))
      decreases if currentLevel < maxLevels then maxLevels - currentLevel else 0, 2
    {
      ghost var s0 := Snapshot();
      if !Contains(bounds, node.position) {
        assert TreeInsert(s0, node) == s0;
        return;
      }
      if maxNodes < 0 || |nodes| < maxNodes || currentLevel >= maxLevels {
        AddLocal(node);
        assert TreeInsert(s0, node) == s0.(nodes := s0.nodes + [node]);
        InsertKeepsWF(s0, node);
        return;
      }
      assert s0.children[0] == Slot(0);
      if children[0] == null {
        Split();
      }
      assert Snapshot() == Prepared(s0);
      PreparedWF(s0);
      Place(node, s0);
    }

    /**
     * The second half of insertion, in a node that has been split: the
     * point goes to its quadrant's child, or stays here on a midline.
     */
    method Place(node: Component, ghost s0: Tree)
      requires ValidShape() && WF(s0) && Contains(s0.bounds, node.position) && !HasRoom(s0)
      requires Snapshot() == Prepared(s0) && WF(Snapshot()) && children[0] != null
      modifies Repr
      ensures Valid() && Snapshot() == TreeInsert(s0, node)
      ensures old(Repr) <= Repr && fresh(Repr - old(Repr))
      decreases if currentLevel < maxLevels then maxLevels - currentLevel else 0, 1
    {
      var index := QuadIndex(bounds, node.position);
      if index != -1 {
        QuadIndexInChild(bounds, node.position);
        ChildReady(index);
        InsertIntoChild(index, node);
        InsertUnfoldChild(s0, node);
      } else {
        AddLocal(node);
        InsertUnfoldMidline(s0, node);
      }
      InsertKeepsWF(s0, node);
    }

    /** Inserts the point into child i; only slot i of the snapshot changes. */
    method InsertIntoChild(i: nat, node: Component)
      requires ValidShape() && i < 4 && children[i] != null && children[i].Valid()
      requires children[i].currentLevel == currentLevel + 1 && children[i].maxLevels == maxLevels
      requires currentLevel < maxLevels
      modifies Repr
      ensures ValidShape()
      ensures Snapshot() == old(Snapshot()).(children := old(Snapshot()).children[i := Some(TreeInsert(old(children[i].Snapshot()), node))])
      ensures old(Repr) <= Repr && fresh(Repr - old(Repr))
      decreases if currentLevel < maxLevels then maxLevels - currentLevel else 0, 0
    {
      assert OwnsChild(i);
      var c := children[i];
      ghost var cr := c.Repr;
      c.Insert(node);
      Repr := Repr + c.Repr;
      assert fresh(c.Repr - cr) && Repr == old(Repr) + (c.Repr - cr);
      ChildChanged(i);
    }

    /** Erases the k-th point of the node's own list. */
    method EraseLocal(k: nat)
      requires ValidShape() && k < |nodes|
      modifies this
      ensures ValidShape() && Repr == old(Repr)
      ensures Snapshot() == Erase(old(Snapshot()), k)
    {
      label Before:
      nodes := nodes[..k] + nodes[k + 1..];
      NodesChanged@Before();
    }

    /**
     * Removes the point with the node's uuid as the tree value's removal
     * does, and says whether one was found; the footprint stays the same.
     */
    method Remove(node: Component) returns (r: bool)
      requires Valid()
      modifies Repr
      ensures Valid() && (Snapshot(), r) == TreeRemove(old(Snapshot()), node)
      ensures Repr == old(Repr)
      decreases Repr, 1
    {
      ghost var s0 := Snapshot();
      RemoveKeepsWF(s0, node);
      if !Contains(bounds, node.position) {
        return false;
      }
      var k := FindUuid(nodes, node.uuid);
      if k < |nodes| {
        EraseLocal(k);
        return true;
      }
      r := RemoveBelow(node);
    }

    /** The position of the first point with the uuid, or |ns| when there is none. */
    static method FindUuid(ns: seq<Component>, id: Uuid) returns (k: nat)
      ensures k <= |ns|
      ensures FirstWithUuid(ns, id) == if k < |ns| then Some(k) else None
    {
      k := 0;
      while k < |ns| && ns[k].uuid != id
        invariant 0 <= k <= |ns|
        invariant forall j :: 0 <= j < k ==> ns[j].uuid != id
      {
        k := k + 1;
      }
    }

    /** Removal from the child of the point's quadrant, when there are children and the point is off the midlines. */
    method RemoveBelow(node: Component) returns (r: bool)
      requires Valid()
      modifies Repr
      ensures ValidShape() && (Snapshot(), r) == TreeRemoveBelow(old(Snapshot()), node)
      ensures Repr == old(Repr)
      decreases Repr, 0
    {
      ghost var s0 := Snapshot();
      var index := QuadIndex(bounds, node.position);
      assert s0.children[0] == Slot(0);
      if children[0] == null || index == -1 {
        return false;
      }
      ChildReady(index);
      var c := children[index];
      ghost var before := c.Snapshot();
      assert s0.children[index] == Some(before);
      label Before:
      r := c.Remove(node);
      ChildChanged@Before(index);
      if !r {
        assert s0.children[index := Some(before)] == s0.children;
      }
    }

    /** In a searchable split node, child i is present and searchable. */
    lemma SearchableChild(i: nat)
      requires ValidShape() && Searchable(Snapshot()) && children[0] != null && i < 4
      ensures children[i] != null && OwnsChild(i) && Searchable(children[i].Snapshot())
      ensures Snapshot().children[i] == Some(children[i].Snapshot())
    {
      assert Slot(0).Some?;
      assert Snapshot().children[i] == Slot(i);
    }

    /**
     * Appends to `resultVec` the uuids the tree value's query gives: the
     * points of this node in the area, then each child's, when the node
     * meets the area. A valid tree can always be searched.
     */
    method Query(area: Rect, resultVec: seq<Uuid>) returns (out: seq<Uuid>)
      requires ValidShape() && Searchable(Snapshot())
      ensures out == resultVec + TreeQuery(Snapshot(), area)
      decreases Repr, 1
    {
      ghost var s := Snapshot();
      out := resultVec;
      if !Intersects(bounds, area) {
        return;
      }
      out := CollectInArea(nodes, area, out);
      assert s.children[0] == Slot(0);
      if children[0] != null {
        out := QueryChildren(area, out);
        QuerySplit(s, area);
        assert out == resultVec + (InArea(s.nodes, area) + ChildQueries(s, area, 4));
      }
    }

    /** Appends the uuids of the points in the area to `resultVec`, in order. */
    static method CollectInArea(ns: seq<Component>, area: Rect, resultVec: seq<Uuid>) returns (out: seq<Uuid>)
      ensures out == resultVec + InArea(ns, area)
    {
      out := resultVec;
      var k := 0;
      while k < |ns|
        invariant 0 <= k <= |ns|
        invariant out == resultVec + InArea(ns[..k], area)
      {
        assert ns[..k + 1][..k] == ns[..k];
        if Contains(area, ns[k].position) {
          out := out + [ns[k].uuid];
        }
        k := k + 1;
      }
      assert ns[..k] == ns;
    }

    /** The children's part of a query in a split node: each child's query, in slot order. */
    method QueryChildren(area: Rect, resultVec: seq<Uuid>) returns (out: seq<Uuid>)
      requires ValidShape() && Searchable(Snapshot()) && children[0] != null
      ensures Snapshot().children[0].Some?
      ensures out == resultVec + ChildQueries(Snapshot(), area, 4)
      decreases Repr, 0
    {
      ghost var s := Snapshot();
      assert s.children[0] == Slot(0);
      out := resultVec;
      var i := 0;
      while i < 4
        invariant 0 <= i <= 4
        invariant out == resultVec + ChildQueries(s, area, i)
      {
        SearchableChild(i);
        out := children[i].Query(area, out);
        i := i + 1;
      }
    }
  }
}
