/**
 * One visualization session, end to end: a generated tree is searched,
 * and the search is played out on the tree's drawing.
 */
module Session {
  import opened Trees
  import opened Generation
  import opened Search
  import opened Layout
  import opened Styling

  /**
   * Searching a generated tree finds the target exactly when it is one of
   * the tree's keys, and otherwise ends in the not-found error.
   */
  lemma GeneratedSearchCorrect(lower: real, upper: real, draws: seq<real>, key: int)
    requires lower <= upper
    requires GenerateTree(lower, upper, draws).Some?
    ensures var t := GenerateTree(lower, upper, draws).value.tree;
      && (Find(key, t).outcome == Found(key) <==> key in Keys(t))
      && (key !in Keys(t) ==> Find(key, t).outcome == NotFound)
  {
    var t := GenerateTree(lower, upper, draws).value.tree;
    GeneratedIsSearchTree(lower, upper, draws);
    FindCorrect(key, t);
  }

  /**
   * A search played out on the drawing of its tree: the circle of the
   * matched key ends lime, the circles of the other keys on the search path
   * coral, and every other circle keeps the gray the layout gave it; no
   * other field of any circle changes.
   */
  lemma SearchColoursDrawing(key: int, t: Tree, radius: real, p1: Point, p2: Point)
    requires t.Node?
    ensures var d := GenerateSvg(t, radius, p1, p2);
      var run := FindRec(key, t);
      var after := ReplayCircles(d.circles, Signals(run));
      && |after| == Size(t)
      && forall i :: 0 <= i < Size(t) ==>
        && after[i] == d.circles[i].(fill := after[i].fill)
        && after[i].fill ==
             if run.outcome == Found(PreOrder(t)[i]) then Lime
             else if PreOrder(t)[i] in run.visited then Coral
             else Gray
  {
    var d := GenerateSvg(t, radius, p1, p2);
    var run := FindRec(key, t);
    ReplayCirclesFill(d.circles, Signals(run));
    CirclesInPreOrder(t, radius, p1, p2);
    forall i | 0 <= i < Size(t) {
      SearchFills(run, d.circles[i].value);
    }
  }

  /** A line into key k after the calls of a search: widened once per visit of k. */
  lemma LineAfterRun(ls: seq<LineMark>, run: SearchRun, i: nat, k: int, w: real)
    requires i < |ls| && ls[i].dst == k && ls[i].strokeWidth == w
    ensures var after := ReplayLines(ls, Signals(run));
      var n := multiset(run.visited)[k];
      && |after| == |ls|
      && after[i] == if n == 0 then ls[i] else ls[i].(stroke := Coral, strokeWidth := Doubled(w, n))
  {
    ReplayLinesWidth(ls, Signals(run));
    SearchHighlights(run, k);
  }

  /** Line i of the drawing after a search, in terms of the visits of its child's key. */
  lemma LineAfterSearch(key: int, t: Tree, radius: real, p1: Point, p2: Point, i: nat)
    requires t.Node? && i < Size(t) - 1
    ensures var d := GenerateSvg(t, radius, p1, p2);
      var run := FindRec(key, t);
      var after := ReplayLines(d.lines, Signals(run));
      var n := multiset(run.visited)[PreOrder(t)[i + 1]];
      && |after| == |d.lines|
      && after[i] == if n == 0 then d.lines[i]
                     else d.lines[i].(stroke := Coral, strokeWidth := Doubled(radius / 5.0, n))
  {
    var d := GenerateSvg(t, radius, p1, p2);
    var run := FindRec(key, t);
    var k := PreOrder(t)[i + 1];
    LineIntoKey(t, radius, p1, p2, i);
    assert d.lines[i].dst == k;
    LineAfterRun(d.lines, run, i, k, radius / 5.0);
  }

  /**
   * A search played out on the lines of the drawing: the line into circle
   * i + 1 is coral, with its width doubled once per visit, exactly when the
   * search visits that circle's key.
   */
  lemma SearchWidensLines(key: int, t: Tree, radius: real, p1: Point, p2: Point)
    requires t.Node?
    ensures var d := GenerateSvg(t, radius, p1, p2);
      var run := FindRec(key, t);
      var after := ReplayLines(d.lines, Signals(run));
      && |after| == |d.lines|
      && forall i :: 0 <= i < |d.lines| ==>
        var n := multiset(run.visited)[PreOrder(t)[i + 1]];
        after[i] == if n == 0 then d.lines[i]
                    else d.lines[i].(stroke := Coral, strokeWidth := Doubled(radius / 5.0, n))
  {
    var d := GenerateSvg(t, radius, p1, p2);
    var run := FindRec(key, t);
    ReplayLinesWidth(d.lines, Signals(run));
    forall i | 0 <= i < |d.lines|
      ensures var n := multiset(run.visited)[PreOrder(t)[i + 1]];
        ReplayLines(d.lines, Signals(run))[i] ==
          if n == 0 then d.lines[i]
          else d.lines[i].(stroke := Coral, strokeWidth := Doubled(radius / 5.0, n))
    {
      LineAfterSearch(key, t, radius, p1, p2, i);
    }
  }

  /**
   * The three-node tree 50 / 25, 75 laid out with radius 5 in (0,0)-(100,100)
   * and searched for 25 and for 99.
   */
  lemma ThreeNodeScenario()
    ensures var t := Node(50, Node(25, Nil, Nil), Node(75, Nil, Nil));
      var d := GenerateSvg(t, 5.0, Point(0.0, 0.0), Point(100.0, 100.0));
      && [d.circles[0].center, d.circles[1].center, d.circles[2].center]
         == [Point(50.0, 15.0), Point(25.0, 30.0), Point(75.0, 30.0)]
      && [(d.lines[0].src, d.lines[0].dst), (d.lines[1].src, d.lines[1].dst)] == [(50, 25), (50, 75)]
      && FindRec(25, t) == SearchRun([50, 25], Found(25))
      && FindRec(99, t) == SearchRun([50, 75], NotFound)
  {
  }
}
