/**
 * Geometric layout (`generateSVG`, index.js:71-134) and the circle radius
 * chosen by `draw` (index.js:145).
 *
 * Each node is anchored at the horizontal midpoint of its region, three
 * radii below the region's top. The left child gets the lower-left part of
 * the region and the right child the lower-right part. The SVG markup is
 * replaced by records carrying the same attributes.
 */
module Layout {
  import opened Trees

  const MAX_RADIUS: real := 5.0

  datatype Point = Point(x: real, y: real)

  datatype Color = Black | Gray | White | Coral | Lime

  /** A `<circle data-value=...>` element. */
  datatype CircleMark = CircleMark(value: int, center: Point, r: real, stroke: Color, strokeWidth: real, fill: Color)

  /** A `<line data-src=... data-dst=...>` element from a parent to a child. */
  datatype LineMark = LineMark(src: int, dst: int, srcPoint: Point, dstPoint: Point, stroke: Color, strokeWidth: real)

  /** A `<text data-value=...>` label. */
  datatype TextMark = TextMark(value: int, at: Point, fill: Color, fontSize: real)

  /** The JavaScript tuple `[lines, circles, texts, point]`. */
  datatype Drawing = Drawing(lines: seq<LineMark>, circles: seq<CircleMark>, texts: seq<TextMark>, anchor: Point)

  function Pow2(n: nat): (p: nat)
    ensures p >= 1
  {
    if n == 0 then 1 else 2 * Pow2(n - 1)
  }

  /** `Math.min(yDelta / 2 ** height, MAX_RADIUS)`. */
  function Radius(yDelta: real, height: nat): (r: real)
    ensures r <= MAX_RADIUS
    ensures r <= yDelta / (Pow2(height) as real)
    ensures r == MAX_RADIUS || r == yDelta / (Pow2(height) as real)
  {
    var fit := yDelta / (Pow2(height) as real);
    if fit < MAX_RADIUS then fit else MAX_RADIUS
  }

  function Edge(src: int, dst: int, from: Point, to: Point, radius: real): LineMark {
    LineMark(src, dst, from, to, Black, radius / 5.0)
  }

  /** `generateSVG(root, radius, p1, p2)`; the source dereferences `root`, so it must be a node. */
  function GenerateSvg(t: Tree, radius: real, p1: Point, p2: Point): (d: Drawing)
    requires t.Node?
    ensures |d.circles| == Size(t) && |d.texts| == Size(t) && |d.lines| == Size(t) - 1
    ensures d.anchor == Point((p1.x + p2.x) / 2.0, p1.y + 3.0 * radius)
    ensures d.circles[0].center == d.anchor && d.circles[0].value == t.key
    decreases t, 0
  {
    var point := Point(p1.x + (p2.x - p1.x) / 2.0, p1.y + radius * 3.0);
    var circle := CircleMark(t.key, point, radius, Black, radius / 5.0, Gray);
    var text := TextMark(t.key, point, White, radius);
    var left := ChildPart(t.key, t.left, point, radius, Point(p1.x, point.y), Point(point.x, p2.y));
    var right := ChildPart(t.key, t.right, point, radius, Point(point.x, point.y), Point(p2.x, p2.y));
    Drawing(left.lines + right.lines,
            [circle] + left.circles + right.circles,
            [text] + left.texts + right.texts,
            point)
  }

  /**
   * What one child (`root.left` or `root.right`) adds to its parent's
   * drawing: nothing for a null child, otherwise the line from the parent's
   * anchor to the child's, then the child's own drawing.
   */
  function ChildPart(parent: int, child: Tree, point: Point, radius: real, q1: Point, q2: Point): (d: Drawing)
    ensures child.Nil? ==> d.lines == [] && d.circles == [] && d.texts == []
    ensures child.Node? ==> |d.lines| == Size(child) && |d.circles| == Size(child) && |d.texts| == Size(child)
    decreases child, 1
  {
    if child.Node? then
      var sub := GenerateSvg(child, radius, q1, q2);
      Drawing([Edge(parent, child.key, point, sub.anchor, radius)] + sub.lines, sub.circles, sub.texts, sub.anchor)
    else Drawing([], [], [], point)
  }

  /** The circle and label of a node with key `k`, as the markup styles them. */
  predicate NodeMarks(c: CircleMark, tx: TextMark, k: int, radius: real) {
    && c.value == k && c.r == radius && c.stroke == Black && c.strokeWidth == radius / 5.0 && c.fill == Gray
    && tx.value == k && tx.at == c.center && tx.fill == White && tx.fontSize == radius
  }

  /**
   * Circle and label i > 0 of a node's drawing are circle and label j of
   * one child's drawing: the left child's for the first Size(left) indices,
   * the right child's after them, at the same pre-order position.
   */
  lemma ChildMarks(t: Tree, radius: real, p1: Point, p2: Point, i: nat) returns (child: Tree, q1: Point, q2: Point, j: nat)
    requires t.Node? && 0 < i < Size(t)
    ensures child.Node? && child < t && j < Size(child)
    ensures GenerateSvg(t, radius, p1, p2).circles[i] == GenerateSvg(child, radius, q1, q2).circles[j]
    ensures GenerateSvg(t, radius, p1, p2).texts[i] == GenerateSvg(child, radius, q1, q2).texts[j]
    ensures PreOrder(t)[i] == PreOrder(child)[j]
    ensures i <= Size(t.left) ==>
      && child == t.left && j == i - 1
      && q1 == Point(p1.x, p1.y + radius * 3.0) && q2 == Point((p1.x + p2.x) / 2.0, p2.y)
    ensures i > Size(t.left) ==>
      && child == t.right && j == i - 1 - Size(t.left)
      && q1 == Point((p1.x + p2.x) / 2.0, p1.y + radius * 3.0) && q2 == p2
  {
    child, q1, q2, j := SelectChild(t, radius, p1, p2, i);
    PreOrderSplit(t, i);
    if i <= Size(t.left) {
      LeftMarks(t, radius, p1, p2, i);
    } else {
      RightMarks(t, radius, p1, p2, i);
    }
  }

  /**
   * The child whose drawing holds circle i > 0, the corners of the region
   * it is laid out in, and i's position within the child's pre-order: the
   * left child's region lies under the node's left half, the right child's
   * under its right half. `ChildMarks`, `ChildRow` and `ChildSpan` each
   * start from this choice and stay separate lemmas: one lemma carrying
   * all their facts at once is too costly for the verifier.
   */
  lemma SelectChild(t: Tree, radius: real, p1: Point, p2: Point, i: nat) returns (child: Tree, q1: Point, q2: Point, j: nat)
    requires t.Node? && 0 < i < Size(t)
    ensures i <= Size(t.left) ==>
      && child == t.left && j == i - 1
      && q1 == Point(p1.x, p1.y + radius * 3.0) && q2 == Point((p1.x + p2.x) / 2.0, p2.y)
    ensures i > Size(t.left) ==>
      && child == t.right && j == i - 1 - Size(t.left)
      && q1 == Point((p1.x + p2.x) / 2.0, p1.y + radius * 3.0) && q2 == p2
  {
    if i <= Size(t.left) {
      child, q1, q2, j := t.left, Point(p1.x, p1.y + radius * 3.0), Point((p1.x + p2.x) / 2.0, p2.y), i - 1;
    } else {
      child, q1, q2, j := t.right, Point((p1.x + p2.x) / 2.0, p1.y + radius * 3.0), p2, i - 1 - Size(t.left);
    }
  }

  /** The child is laid out starting one row lower, so its circle j sits one level deeper. */
  lemma ChildRow(t: Tree, radius: real, p1: Point, p2: Point, i: nat) returns (child: Tree, q1: Point, q2: Point, j: nat)
    requires t.Node? && 0 < i < Size(t)
    ensures child.Node? && child < t && j < Size(child)
    ensures GenerateSvg(t, radius, p1, p2).circles[i].center.y == GenerateSvg(child, radius, q1, q2).circles[j].center.y
    ensures q1.y == p1.y + radius * 3.0
    ensures RowY(p1.y, radius, Depths(t)[i]) == RowY(p1.y + radius * 3.0, radius, Depths(child)[j])
  {
    DepthRow(t, p1.y, radius, i);
    child, q1, q2, j := SelectChild(t, radius, p1, p2, i);
    if i <= Size(t.left) {
      LeftMarks(t, radius, p1, p2, i);
      assert RowY(p1.y, radius, Depths(t)[i]) == RowY(p1.y + radius * 3.0, radius, Depths(t.left)[i - 1]);
    } else {
      RightMarks(t, radius, p1, p2, i);
      assert RowY(p1.y, radius, Depths(t)[i]) == RowY(p1.y + radius * 3.0, radius, Depths(t.right)[i - 1 - Size(t.left)]);
    }
  }

  /** A node below the root sits on the row its subtree puts it on, counted from one row lower. */
  lemma DepthRow(t: Tree, top: real, radius: real, i: nat)
    requires t.Node? && 0 < i < Size(t)
    ensures i <= Size(t.left) ==>
      RowY(top, radius, Depths(t)[i]) == RowY(top + radius * 3.0, radius, Depths(t.left)[i - 1])
    ensures i > Size(t.left) ==>
      RowY(top, radius, Depths(t)[i]) == RowY(top + radius * 3.0, radius, Depths(t.right)[i - 1 - Size(t.left)])
  {
    DepthsSplit(t, i);
    if i <= Size(t.left) {
      RowYStep(top, radius, Depths(t.left)[i - 1]);
    } else {
      RowYStep(top, radius, Depths(t.right)[i - 1 - Size(t.left)]);
    }
  }

  /**
   * The left child is laid out between the region's left edge and the
   * node's anchor, the right child between the anchor and the right edge.
   */
  lemma ChildSpan(t: Tree, radius: real, p1: Point, p2: Point, i: nat) returns (child: Tree, q1: Point, q2: Point, j: nat)
    requires t.Node? && 0 < i < Size(t)
    ensures child.Node? && child < t && j < Size(child)
    ensures GenerateSvg(t, radius, p1, p2).circles[i].center.x == GenerateSvg(child, radius, q1, q2).circles[j].center.x
    ensures i <= Size(t.left) ==> q1.x == p1.x && q2.x == (p1.x + p2.x) / 2.0
    ensures i > Size(t.left) ==> q1.x == (p1.x + p2.x) / 2.0 && q2.x == p2.x
    ensures Height(child) + 1 <= Height(t)
  {
    child, q1, q2, j := SelectChild(t, radius, p1, p2, i);
    if i <= Size(t.left) {
      LeftMarks(t, radius, p1, p2, i);
    } else {
      RightMarks(t, radius, p1, p2, i);
    }
  }

  /** The left child's circles and labels follow the node's own. */
  lemma LeftMarks(t: Tree, radius: real, p1: Point, p2: Point, i: nat)
    requires t.Node? && 0 < i <= Size(t.left)
    ensures var q1, q2 := Point(p1.x, p1.y + radius * 3.0), Point((p1.x + p2.x) / 2.0, p2.y);
      && GenerateSvg(t, radius, p1, p2).circles[i] == GenerateSvg(t.left, radius, q1, q2).circles[i - 1]
      && GenerateSvg(t, radius, p1, p2).texts[i] == GenerateSvg(t.left, radius, q1, q2).texts[i - 1]
  {
    var d := GenerateSvg(t, radius, p1, p2);
    var point := d.anchor;
    var left := ChildPart(t.key, t.left, point, radius, Point(p1.x, point.y), Point(point.x, p2.y));
    var right := ChildPart(t.key, t.right, point, radius, point, p2);
    assert d.circles == [d.circles[0]] + left.circles + right.circles;
    assert d.texts == [d.texts[0]] + left.texts + right.texts;
    assert d.circles[i] == left.circles[i - 1] && d.texts[i] == left.texts[i - 1];
  }

  /** The right child's circles and labels follow the left child's. */
  lemma RightMarks(t: Tree, radius: real, p1: Point, p2: Point, i: nat)
    requires t.Node? && Size(t.left) < i < Size(t)
    ensures var q1 := Point((p1.x + p2.x) / 2.0, p1.y + radius * 3.0);
      var j := i - 1 - Size(t.left);
      && GenerateSvg(t, radius, p1, p2).circles[i] == GenerateSvg(t.right, radius, q1, p2).circles[j]
      && GenerateSvg(t, radius, p1, p2).texts[i] == GenerateSvg(t.right, radius, q1, p2).texts[j]
  {
    var d := GenerateSvg(t, radius, p1, p2);
    var point := d.anchor;
    var nl := Size(t.left);
    var left := ChildPart(t.key, t.left, point, radius, Point(p1.x, point.y), Point(point.x, p2.y));
    var right := ChildPart(t.key, t.right, point, radius, point, p2);
    assert d.circles == [d.circles[0]] + left.circles + right.circles;
    assert d.texts == [d.texts[0]] + left.texts + right.texts;
    assert d.circles[i] == right.circles[i - 1 - nl] && d.texts[i] == right.texts[i - 1 - nl];
  }

  /** Circle and label i mark the node at pre-order index i. */
  lemma {:induction false} MarksAt(t: Tree, radius: real, p1: Point, p2: Point, i: nat)
    requires t.Node? && i < Size(t)
    ensures NodeMarks(GenerateSvg(t, radius, p1, p2).circles[i], GenerateSvg(t, radius, p1, p2).texts[i], PreOrder(t)[i], radius)
    decreases t
  {
    if i > 0 {
      var child, q1, q2, j := ChildMarks(t, radius, p1, p2, i);
      MarksAt(child, radius, q1, q2, j);
    }
  }

  /**
   * One circle and one label per node, in pre-order, each label on its
   * circle's anchor, with the styles the markup gives them.
   */
  lemma CirclesInPreOrder(t: Tree, radius: real, p1: Point, p2: Point)
    requires t.Node?
    ensures forall i :: 0 <= i < Size(t) ==>
      NodeMarks(GenerateSvg(t, radius, p1, p2).circles[i], GenerateSvg(t, radius, p1, p2).texts[i], PreOrder(t)[i], radius)
  {
    forall i | 0 <= i < Size(t)
      ensures NodeMarks(GenerateSvg(t, radius, p1, p2).circles[i], GenerateSvg(t, radius, p1, p2).texts[i], PreOrder(t)[i], radius)
    {
      MarksAt(t, radius, p1, p2, i);
    }
  }

  /**
   * Line i of the drawing of `t` runs into circle i + 1 (a child) from the
   * circle of that node's parent in `t`, carrying both keys as `data-src`
   * and `data-dst`.
   */
  predicate LineIntoChild(t: Tree, ls: seq<LineMark>, cs: seq<CircleMark>, i: nat, radius: real) {
    && t.Node? && i + 1 < Size(t) && i < |ls| && i + 1 < |cs|
    && ls[i].dst == cs[i + 1].value && ls[i].dstPoint == cs[i + 1].center
    && ls[i].stroke == Black && ls[i].strokeWidth == radius / 5.0
    && cs[ParentIndex(t, i + 1)].value == ls[i].src && cs[ParentIndex(t, i + 1)].center == ls[i].srcPoint
  }

  /**
   * Line j of one child's part runs into circle j of that part, either from
   * the parent's anchor (j == 0, the edge into the child itself) or from the
   * circle of its parent within the child's subtree.
   */
  lemma {:induction false} ChildLine(parent: int, child: Tree, point: Point, radius: real, q1: Point, q2: Point, j: nat)
    requires child.Node?
    requires j < |ChildPart(parent, child, point, radius, q1, q2).lines|
    ensures var c := ChildPart(parent, child, point, radius, q1, q2);
      && c.lines[j].dst == c.circles[j].value && c.lines[j].dstPoint == c.circles[j].center
      && c.lines[j].stroke == Black && c.lines[j].strokeWidth == radius / 5.0
    ensures j == 0 ==> var c := ChildPart(parent, child, point, radius, q1, q2);
      c.lines[j].src == parent && c.lines[j].srcPoint == point
    ensures j > 0 ==> var c := ChildPart(parent, child, point, radius, q1, q2); var p := ParentIndex(child, j);
      c.lines[j].src == c.circles[p].value && c.lines[j].srcPoint == c.circles[p].center
    decreases child, 2
  {
    var sub := GenerateSvg(child, radius, q1, q2);
    var c := ChildPart(parent, child, point, radius, q1, q2);
    assert c.lines == [Edge(parent, child.key, point, sub.anchor, radius)] + sub.lines;
    assert c.circles == sub.circles;
    if j > 0 {
      var q := LineParent(child, radius, q1, q2, j - 1);
      assert c.lines[j] == sub.lines[j - 1];
    }
  }

  /** Line i of a drawing, with the index of the circle it starts from: the parent's. */
  lemma {:induction false} LineParent(t: Tree, radius: real, p1: Point, p2: Point, i: nat) returns (p: nat)
    requires t.Node?
    requires i < |GenerateSvg(t, radius, p1, p2).lines|
    ensures var d := GenerateSvg(t, radius, p1, p2);
      && i + 1 < Size(t) && p == ParentIndex(t, i + 1)
      && d.lines[i].dst == d.circles[i + 1].value && d.lines[i].dstPoint == d.circles[i + 1].center
      && d.lines[i].src == d.circles[p].value && d.lines[i].srcPoint == d.circles[p].center
      && d.lines[i].stroke == Black && d.lines[i].strokeWidth == radius / 5.0
    decreases t, 1
  {
    if i < Size(t.left) {
      p := LineInLeft(t, radius, p1, p2, i);
    } else {
      p := LineInRight(t, radius, p1, p2, i - Size(t.left));
    }
  }

  /** `LineParent` for the lines of the left child's part, which come first. */
  lemma {:induction false} LineInLeft(t: Tree, radius: real, p1: Point, p2: Point, i: nat) returns (p: nat)
    requires t.Node? && i < Size(t.left)
    ensures var d := GenerateSvg(t, radius, p1, p2);
      && i < |d.lines| && i + 1 < Size(t) && p == ParentIndex(t, i + 1)
      && d.lines[i].dst == d.circles[i + 1].value && d.lines[i].dstPoint == d.circles[i + 1].center
      && d.lines[i].src == d.circles[p].value && d.lines[i].srcPoint == d.circles[p].center
      && d.lines[i].stroke == Black && d.lines[i].strokeWidth == radius / 5.0
    decreases t, 0
  {
    var d := GenerateSvg(t, radius, p1, p2);
    var point := d.anchor;
    var q1, q2 := Point(p1.x, point.y), Point(point.x, p2.y);
    var left := ChildPart(t.key, t.left, point, radius, q1, q2);
    var right := ChildPart(t.key, t.right, point, radius, point, p2);
    assert d.lines == left.lines + right.lines;
    assert d.circles == [d.circles[0]] + left.circles + right.circles;
    ChildLine(t.key, t.left, point, radius, q1, q2, i);
    p := LeftParent(t, i);
    assert d.lines[i] == left.lines[i] && d.circles[i + 1] == left.circles[i];
    if i > 0 {
      var q := ParentIndex(t.left, i);
      assert d.circles[q + 1] == left.circles[q];
    }
  }

  /** `LineParent` for the lines of the right child's part, after the left part's. */
  lemma {:induction false} LineInRight(t: Tree, radius: real, p1: Point, p2: Point, j: nat) returns (p: nat)
    requires t.Node? && j < Size(t.right)
    ensures var d := GenerateSvg(t, radius, p1, p2);
      var i := Size(t.left) + j;
      && i < |d.lines| && i + 1 < Size(t) && p == ParentIndex(t, i + 1)
      && d.lines[i].dst == d.circles[i + 1].value && d.lines[i].dstPoint == d.circles[i + 1].center
      && d.lines[i].src == d.circles[p].value && d.lines[i].srcPoint == d.circles[p].center
      && d.lines[i].stroke == Black && d.lines[i].strokeWidth == radius / 5.0
    decreases t, 0
  {
    var d := GenerateSvg(t, radius, p1, p2);
    var point := d.anchor;
    var q1, q2 := Point(p1.x, point.y), Point(point.x, p2.y);
    var left := ChildPart(t.key, t.left, point, radius, q1, q2);
    var right := ChildPart(t.key, t.right, point, radius, point, p2);
    var nl := Size(t.left);
    assert |left.lines| == nl && |left.circles| == nl;
    assert d.lines == left.lines + right.lines;
    assert d.circles == [d.circles[0]] + left.circles + right.circles;
    ChildLine(t.key, t.right, point, radius, point, p2, j);
    p := RightParent(t, j);
    assert d.lines[nl + j] == right.lines[j] && d.circles[nl + j + 1] == right.circles[j];
    if j > 0 {
      var q := ParentIndex(t.right, j);
      assert d.circles[q + 1 + nl] == right.circles[q];
    }
  }

  /**
   * Line i carries the key of the node at pre-order index i + 1 as its
   * `data-dst` and the key of that node's parent as its `data-src`.
   */
  lemma LineIntoKey(t: Tree, radius: real, p1: Point, p2: Point, i: nat)
    requires t.Node? && i < Size(t) - 1
    ensures var d := GenerateSvg(t, radius, p1, p2);
      && d.lines[i].dst == PreOrder(t)[i + 1] && d.lines[i].strokeWidth == radius / 5.0
      && d.lines[i].src == PreOrder(t)[ParentIndex(t, i + 1)]
  {
    var d := GenerateSvg(t, radius, p1, p2);
    var p := LineParent(t, radius, p1, p2, i);
    CirclesInPreOrder(t, radius, p1, p2);
    assert NodeMarks(d.circles[i + 1], d.texts[i + 1], PreOrder(t)[i + 1], radius);
    assert NodeMarks(d.circles[p], d.texts[p], PreOrder(t)[p], radius);
  }

  /** Lines come in pre-order of their child: every circle but the root has exactly one line into it. */
  lemma LinesIntoChildren(t: Tree, radius: real, p1: Point, p2: Point)
    requires t.Node?
    ensures var d := GenerateSvg(t, radius, p1, p2);
      forall i :: 0 <= i < |d.lines| ==> LineIntoChild(t, d.lines, d.circles, i, radius)
  {
    var d := GenerateSvg(t, radius, p1, p2);
    forall i | 0 <= i < |d.lines| ensures LineIntoChild(t, d.lines, d.circles, i, radius) {
      var p := LineParent(t, radius, p1, p2, i);
    }
  }

  /** The height of the anchors `depth` levels below a region whose top is at `top`. */
  function RowY(top: real, radius: real, depth: nat): real
    decreases depth
  {
    if depth == 0 then top + radius * 3.0 else RowY(top + radius * 3.0, radius, depth - 1)
  }

  /** One level down from `top` is level zero of the region starting three radii lower. */
  lemma RowYStep(top: real, radius: real, depth: nat)
    ensures RowY(top, radius, depth + 1) == RowY(top + radius * 3.0, radius, depth)
  {
  }

  /** Each level lies three radii below the previous one: depth d is level d + 1, 3 * radius * (d + 1) below the top. */
  lemma {:induction false} RowYClosedForm(top: real, radius: real, depth: nat) returns (level: nat)
    ensures level == depth + 1
    ensures RowY(top, radius, depth) == top + 3.0 * radius * (level as real)
    decreases depth
  {
    level := depth + 1;
    if depth > 0 {
      var below := RowYClosedForm(top + radius * 3.0, radius, depth - 1);
      var k := below as real;
      assert level as real == k + 1.0;
      assert 3.0 * radius * (k + 1.0) == radius * 3.0 + 3.0 * radius * k;
    }
  }

  /** The anchor of the node at pre-order index i sits on the row of its depth. */
  lemma {:induction false} AnchorRow(t: Tree, radius: real, p1: Point, p2: Point, i: nat)
    requires t.Node? && i < Size(t)
    ensures GenerateSvg(t, radius, p1, p2).circles[i].center.y == RowY(p1.y, radius, Depths(t)[i])
    decreases t
  {
    if i == 0 {
      assert Depths(t)[0] == 0;
    } else {
      var child, q1, q2, j := ChildRow(t, radius, p1, p2, i);
      AnchorRow(child, radius, q1, q2, j);
    }
  }

  /** Every anchor lies strictly inside the horizontal extent of the drawing. */
  lemma {:induction false} AnchorBetween(t: Tree, radius: real, p1: Point, p2: Point, i: nat)
    requires t.Node? && i < Size(t) && p1.x < p2.x
    ensures p1.x < GenerateSvg(t, radius, p1, p2).circles[i].center.x < p2.x
    decreases t
  {
    if i > 0 {
      var child, q1, q2, j := ChildSpan(t, radius, p1, p2, i);
      AnchorBetween(child, radius, q1, q2, j);
    }
  }

  /**
   * Every anchor keeps a margin of at least 1 / 2^height of its region's
   * width from either side: the region halves once per level and the
   * anchor sits in the middle of its own region.
   */
  lemma {:induction false} AnchorMargin(t: Tree, radius: real, p1: Point, p2: Point, i: nat)
    requires t.Node? && i < Size(t) && p1.x < p2.x
    ensures Margin(GenerateSvg(t, radius, p1, p2).circles[i].center.x, p1.x, p2.x, Pow2(Height(t)) as real)
    decreases t
  {
    var x := GenerateSvg(t, radius, p1, p2).circles[i].center.x;
    if i == 0 {
      Pow2Grows(0, Height(t));
      MiddleMargin(x, p1.x, p2.x, Pow2(Height(t)) as real);
    } else {
      var child, q1, q2, j := ChildSpan(t, radius, p1, p2, i);
      var xc := GenerateSvg(child, radius, q1, q2).circles[j].center.x;
      AnchorMargin(child, radius, q1, q2, j);
      AnchorBetween(child, radius, q1, q2, j);
      Pow2Grows(Height(child), Height(t));
      HalfMargin(xc, q1.x, q2.x, p1.x, p2.x, Pow2(Height(child)) as real, Pow2(Height(t)) as real);
    }
  }

  /** x lies at least (hi - lo) / pw from both lo and hi. */
  predicate Margin(x: real, lo: real, hi: real, pw: real) {
    (x - lo) * pw >= hi - lo && (hi - x) * pw >= hi - lo
  }

  /** The midpoint of [lo, hi] keeps a margin of (hi - lo) / pw from either end when pw >= 2. */
  lemma MiddleMargin(x: real, lo: real, hi: real, pw: real)
    requires lo < hi && x == (lo + hi) / 2.0 && 2.0 <= pw
    ensures Margin(x, lo, hi, pw)
  {
    ScaleLevels((hi - lo) / 2.0, 2.0, pw);
    assert x - lo == (hi - lo) / 2.0 && hi - x == (hi - lo) / 2.0;
  }

  /**
   * A point with margin (hi' - lo') / pc inside a half [lo', hi'] of [lo, hi]
   * has margin (hi - lo) / pw inside [lo, hi] when pw >= 2 pc.
   */
  lemma HalfMargin(x: real, lo': real, hi': real, lo: real, hi: real, pc: real, pw: real)
    requires lo <= lo' < x < hi' <= hi && hi' - lo' == (hi - lo) / 2.0
    requires 0.0 < pc && 2.0 * pc <= pw
    requires Margin(x, lo', hi', pc)
    ensures Margin(x, lo, hi, pw)
  {
    Widen(x - lo', x - lo, pc, pw, hi - lo);
    Widen(hi' - x, hi - x, pc, pw, hi - lo);
  }

  /** A margin a with a * pc >= w / 2 grows into b >= a with b * pw >= w when pw >= 2 pc. */
  lemma Widen(a: real, b: real, pc: real, pw: real, w: real)
    requires 0.0 <= a <= b && 0.0 < pc && 2.0 * pc <= pw
    requires a * pc >= w / 2.0
    ensures b * pw >= w
  {
    ScaleRadius(a, b, pw);
    ScaleLevels(a, 2.0 * pc, pw);
    assert a * (2.0 * pc) == 2.0 * (a * pc);
  }

  /** 2^h at least doubles with every extra level. */
  lemma {:induction false} Pow2Grows(h1: nat, h2: nat)
    requires h1 < h2
    ensures 2 * Pow2(h1) <= Pow2(h2)
    decreases h2
  {
    if h1 + 1 < h2 {
      Pow2Grows(h1, h2 - 1);
    }
  }

  /**
   * Sibling subtrees never overlap: the left subtree's anchors lie strictly
   * left of the node's anchor and the right subtree's strictly right of it.
   */
  lemma SiblingsSeparated(t: Tree, radius: real, p1: Point, p2: Point)
    requires t.Node?
    requires p1.x < p2.x
    ensures forall i :: 1 <= i <= Size(t.left) ==>
      GenerateSvg(t, radius, p1, p2).circles[i].center.x < GenerateSvg(t, radius, p1, p2).circles[0].center.x
    ensures forall i :: Size(t.left) < i < Size(t) ==>
      GenerateSvg(t, radius, p1, p2).circles[i].center.x > GenerateSvg(t, radius, p1, p2).circles[0].center.x
  {
    var cs := GenerateSvg(t, radius, p1, p2).circles;
    forall i | 1 <= i < Size(t)
      ensures i <= Size(t.left) ==> cs[i].center.x < cs[0].center.x
      ensures i > Size(t.left) ==> cs[i].center.x > cs[0].center.x
    {
      var child, q1, q2, j := ChildSpan(t, radius, p1, p2, i);
      AnchorBetween(child, radius, q1, q2, j);
    }
  }

  /** From height 4 on, 2^height outgrows the 3 * height + 1 radii a path needs. */
  lemma {:induction false} Pow2OutgrowsPath(h: nat)
    requires h >= 4
    ensures 3 * h + 1 <= Pow2(h)
    decreases h
  {
    if h > 4 {
      Pow2OutgrowsPath(h - 1);
    }
  }

  lemma ScaleRadius(r: real, bound: real, m: real)
    requires 0.0 <= r <= bound && 0.0 <= m
    ensures r * m <= bound * m
  {
  }

  lemma ScaleLevels(r: real, m: real, p: real)
    requires 0.0 <= r && m <= p
    ensures r * m <= r * p
  {
  }

  lemma DivideBack(r: real, p: real)
    requires 0.0 < p && r <= 100.0 / p
    ensures r * p <= 100.0
  {
    assert (100.0 / p) * p == 100.0;
  }

  lemma Distribute(r: real, n: nat)
    ensures 3.0 * r * (n as real) + r == r * ((3 * n + 1) as real)
  {
  }

  /** A radius of at most 5 and at most 100 / p leaves room for m units of it when m <= 13 or m <= p. */
  lemma RadiusRoom(r: real, p: real, m: real)
    requires 0.0 < p && 0.0 <= r <= 5.0 && r <= 100.0 / p && 0.0 <= m
    requires m <= 13.0 || m <= p
    ensures r * m <= 100.0
  {
    if m <= 13.0 {
      ScaleRadius(r, 5.0, m);
    } else {
      ScaleLevels(r, m, p);
      DivideBack(r, p);
    }
  }

  /** An equal share of 100 units among p >= 1 parts is positive. */
  lemma PositiveShare(p: real)
    requires 1.0 <= p
    ensures 0.0 < 100.0 / p
  {
  }

  /**
   * With the default bounds (a 100-unit-tall drawing) the radius `draw`
   * chooses is positive and leaves room for n levels of circles, n up to
   * the height: the deepest needs r * (3n + 1) units.
   */
  lemma PathFits(h: nat, n: nat)
    requires 1 <= n <= h
    ensures 0.0 < Radius(100.0, h)
    ensures Radius(100.0, h) * ((3 * n + 1) as real) <= 100.0
  {
    PathLength(h, n);
    var pr, m := Pow2(h) as real, (3 * n + 1) as real;
    PositiveShare(pr);
    RadiusRoom(Radius(100.0, h), pr, m);
  }

  /** A path of n <= h levels needs at most 13 radii, or at most 2^h of them. */
  lemma PathLength(h: nat, n: nat)
    requires 1 <= n <= h
    ensures 3 * n + 1 <= 13 || 3 * n + 1 <= Pow2(h)
  {
    if h > 4 {
      Pow2OutgrowsPath(h);
    }
  }

  /** An anchor on level n (y = 3rn) keeps its circle inside when the deepest level h does. */
  lemma LevelInside(r: real, y: real, n: nat, h: nat)
    requires y == 3.0 * r * (n as real) && 1 <= n <= h
    requires 0.0 < r && r * ((3 * h + 1) as real) <= 100.0
    ensures 0.0 < y - r && y + r <= 100.0
  {
    var m, mh := (3 * n + 1) as real, (3 * h + 1) as real;
    Distribute(r, n);
    ScaleLevels(r, m, mh);
    ScaleLevels(3.0 * r, 1.0, n as real);
  }

  /** The anchor of circle i lies on one of the levels 1..height. */
  lemma AnchorLevel(t: Tree, r: real, p1: Point, p2: Point, i: nat) returns (n: nat)
    requires t.Node? && i < Size(t)
    ensures 1 <= n <= Height(t)
    ensures GenerateSvg(t, r, p1, p2).circles[i].center.y == p1.y + 3.0 * r * (n as real)
  {
    DepthsBelowHeight(t);
    AnchorRow(t, r, p1, p2, i);
    n := RowYClosedForm(p1.y, r, Depths(t)[i]);
  }

  /**
   * A circle of radius r centred at c lies inside the 100 x 100 drawing:
   * its leftmost and rightmost points within [0, 100] and its lowest and
   * highest points within (0, 100].
   */
  predicate InsideDrawing(c: Point, r: real) {
    0.0 <= c.x - r && c.x + r <= 100.0 && 0.0 < c.y - r && c.y + r <= 100.0
  }

  /** A centre with margin 100 / pw from both sides of [0, 100] leaves room for any radius r with r * pw <= 100. */
  lemma MarginRoom(x: real, r: real, pw: real)
    requires 0.0 < pw && Margin(x, 0.0, 100.0, pw) && r * pw <= 100.0
    ensures 0.0 <= x - r && x + r <= 100.0
  {
    assert (x - r) * pw >= 0.0 && (100.0 - x - r) * pw >= 0.0;
  }

  /**
   * Circle i lies inside a 100-unit-square drawing when the deepest path
   * has room for its radius and the radius is at most 100 / 2^height.
   */
  lemma CircleFits(t: Tree, r: real, i: nat)
    requires t.Node? && i < Size(t)
    requires 0.0 < r && r * ((3 * Height(t) + 1) as real) <= 100.0
    requires r * (Pow2(Height(t)) as real) <= 100.0
    ensures InsideDrawing(GenerateSvg(t, r, Point(0.0, 0.0), Point(100.0, 100.0)).circles[i].center, r)
  {
    FitsAcross(t, r, i);
    FitsDown(t, r, i);
  }

  /** With r at most 100 / 2^height, circle i lies within [0, 100] horizontally. */
  lemma FitsAcross(t: Tree, r: real, i: nat)
    requires t.Node? && i < Size(t)
    requires r * (Pow2(Height(t)) as real) <= 100.0
    ensures 0.0 <= GenerateSvg(t, r, Point(0.0, 0.0), Point(100.0, 100.0)).circles[i].center.x - r
    ensures GenerateSvg(t, r, Point(0.0, 0.0), Point(100.0, 100.0)).circles[i].center.x + r <= 100.0
  {
    AnchorMargin(t, r, Point(0.0, 0.0), Point(100.0, 100.0), i);
    MarginRoom(GenerateSvg(t, r, Point(0.0, 0.0), Point(100.0, 100.0)).circles[i].center.x, r, Pow2(Height(t)) as real);
  }

  /** With room for the deepest path, circle i lies within (0, 100] vertically. */
  lemma FitsDown(t: Tree, r: real, i: nat)
    requires t.Node? && i < Size(t)
    requires 0.0 < r && r * ((3 * Height(t) + 1) as real) <= 100.0
    ensures 0.0 < GenerateSvg(t, r, Point(0.0, 0.0), Point(100.0, 100.0)).circles[i].center.y - r
    ensures GenerateSvg(t, r, Point(0.0, 0.0), Point(100.0, 100.0)).circles[i].center.y + r <= 100.0
  {
    var n := AnchorLevel(t, r, Point(0.0, 0.0), Point(100.0, 100.0), i);
    LevelInside(r, GenerateSvg(t, r, Point(0.0, 0.0), Point(100.0, 100.0)).circles[i].center.y, n, Height(t));
  }

  /**
   * `draw` with its default bounds (0,0)-(100,100): every circle of the
   * laid-out tree, with the radius `draw` chooses, lies entirely inside the
   * drawing, horizontally and vertically.
   */
  lemma DefaultDrawFits(t: Tree)
    requires t.Node?
    ensures forall i :: 0 <= i < Size(t) ==>
      InsideDrawing(GenerateSvg(t, Radius(100.0, Height(t)), Point(0.0, 0.0), Point(100.0, 100.0)).circles[i].center,
                    Radius(100.0, Height(t)))
  {
    var r := Radius(100.0, Height(t));
    PathFits(Height(t), Height(t));
    DivideBack(r, Pow2(Height(t)) as real);
    forall i | 0 <= i < Size(t)
      ensures InsideDrawing(GenerateSvg(t, r, Point(0.0, 0.0), Point(100.0, 100.0)).circles[i].center, r)
    {
      CircleFits(t, r, i);
    }
  }
}
