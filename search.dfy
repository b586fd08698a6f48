/**
 * The search traversal (`BinarySearchTree.find` / `findRec`, index.js:6-30).
 *
 * The asynchronous recursion becomes a pure function: it returns the keys
 * it highlights, in order, and how it ends. `NotFound` stands for the
 * "Key ... not found" error thrown on reaching a null child. The one-second
 * pause between steps carries no meaning and is not modelled.
 */
module Search {
  import opened Trees

  datatype Outcome = Found(key: int) | NotFound

  /** What one search does: the keys it highlights, in order, and its end. */
  datatype SearchRun = SearchRun(visited: seq<int>, outcome: Outcome)

  /** The calls into the style layer: `highlight(k)` and `found(k)`. */
  datatype Signal = Highlight(key: int) | MarkFound(key: int)

  /**
   * `findRec(key, t)`: highlight the current key, stop on equality, go left
   * when the target is smaller and right otherwise.
   */
  function FindRec(key: int, t: Tree): (r: SearchRun)
    ensures |r.visited| <= Height(t)
    ensures r.outcome.Found? <==> |r.visited| > 0 && r.visited[|r.visited| - 1] == key
    ensures r.outcome.Found? ==> r.outcome.key == key
    ensures t.Node? ==> |r.visited| > 0 && r.visited[0] == t.key
  {
    match t
    case Nil => SearchRun([], NotFound)
    case Node(k, l, rt) =>
      if key == k then SearchRun([k], Found(k))
      else
        var sub := if key < k then FindRec(key, l) else FindRec(key, rt);
        SearchRun([k] + sub.visited, sub.outcome)
  }

  /**
   * Every key the search highlights is a key of the tree, and only the last
   * one can equal the target.
   */
  lemma {:induction false} VisitedKeys(key: int, t: Tree)
    ensures forall i :: 0 <= i < |FindRec(key, t).visited| ==> FindRec(key, t).visited[i] in Keys(t)
    ensures forall i :: 0 <= i < |FindRec(key, t).visited| - 1 ==> FindRec(key, t).visited[i] != key
  {
    match t
    case Nil =>
    case Node(k, l, rt) =>
      if key != k {
        var sub := if key < k then l else rt;
        VisitedKeys(key, sub);
        var vs, ws := FindRec(key, t).visited, FindRec(key, sub).visited;
        assert vs == [k] + ws;
        forall i | 0 <= i < |vs| ensures vs[i] in Keys(t) && (i < |vs| - 1 ==> vs[i] != key) {
          if i > 0 {
            assert vs[i] == ws[i - 1];
          }
        }
      }
  }

  /** `find(key)` on a tree whose root may be null. */
  function Find(key: int, root: Tree): (r: SearchRun)
    ensures root == Nil ==> r == SearchRun([], NotFound)
  {
    FindRec(key, root)
  }

  /** The calls a search makes, in order: one highlight per visited key, then `found` once if it matched. */
  function Signals(run: SearchRun): (s: seq<Signal>)
    ensures |s| == |run.visited| + (if run.outcome.Found? then 1 else 0)
  {
    HighlightEach(run.visited) + (if run.outcome.Found? then [MarkFound(run.outcome.key)] else [])
  }

  /** One `highlight` call per key, in order. */
  function HighlightEach(vs: seq<int>): (s: seq<Signal>)
    ensures |s| == |vs|
  {
    seq(|vs|, i requires 0 <= i < |vs| => Highlight(vs[i]))
  }

  /** On a search tree the search ends in `Found(key)` exactly when the key is in the tree. */
  lemma {:induction false} FindCorrect(key: int, t: Tree)
    requires IsSearchTree(t)
    ensures FindRec(key, t).outcome == Found(key) <==> key in Keys(t)
    ensures FindRec(key, t).outcome != Found(key) ==> FindRec(key, t).outcome == NotFound
  {
    match t
    case Nil =>
    case Node(k, l, rt) =>
      if key == k {
      } else if key < k {
        FindCorrect(key, l);
        assert key !in Keys(rt);
      } else {
        FindCorrect(key, rt);
        assert key !in Keys(l);
      }
  }

  /**
   * The search never leaves the window its earlier comparisons opened: after
   * turning left at key v every later visited key is at most v, after turning
   * right every later one is at least v.
   */
  lemma {:induction false} SearchStaysInWindow(key: int, t: Tree, i: nat, j: nat)
    requires IsSearchTree(t)
    requires i < j < |FindRec(key, t).visited|
    ensures key < FindRec(key, t).visited[i] ==> FindRec(key, t).visited[j] <= FindRec(key, t).visited[i]
    ensures key > FindRec(key, t).visited[i] ==> FindRec(key, t).visited[j] >= FindRec(key, t).visited[i]
  {
    if i == 0 {
      WindowAtRoot(key, t, j);
    } else {
      var sub := StepInto(key, t, i, j);
      SearchStaysInWindow(key, sub, i - 1, j - 1);
    }
  }

  /** Past the root, the search continues as the search of the child on the target's side, one step behind. */
  lemma StepInto(key: int, t: Tree, i: nat, j: nat) returns (sub: Tree)
    requires 0 < i < j < |FindRec(key, t).visited|
    ensures sub == if key < t.key then t.left else t.right
    ensures t.Node?
    ensures i - 1 < j - 1 < |FindRec(key, sub).visited|
    ensures FindRec(key, t).visited[i] == FindRec(key, sub).visited[i - 1]
    ensures FindRec(key, t).visited[j] == FindRec(key, sub).visited[j - 1]
  {
    Descend(key, t);
    sub := if key < t.key then t.left else t.right;
  }

  /** Every key visited after the root lies on the side of the root the target is on. */
  lemma WindowAtRoot(key: int, t: Tree, j: nat)
    requires IsSearchTree(t)
    requires 0 < j < |FindRec(key, t).visited|
    ensures key < FindRec(key, t).visited[0] ==> FindRec(key, t).visited[j] <= FindRec(key, t).visited[0]
    ensures key > FindRec(key, t).visited[0] ==> FindRec(key, t).visited[j] >= FindRec(key, t).visited[0]
  {
    Descend(key, t);
    var sub := if key < t.key then t.left else t.right;
    var vs, ws := FindRec(key, t).visited, FindRec(key, sub).visited;
    VisitedKeys(key, sub);
    assert vs[j] == ws[j - 1] && ws[j - 1] in Keys(sub);
  }

  /** A search that visits two keys or more left the root for the child on the target's side. */
  lemma Descend(key: int, t: Tree)
    requires |FindRec(key, t).visited| >= 2
    ensures t.Node? && key != t.key
    ensures FindRec(key, t).visited ==
      [t.key] + FindRec(key, if key < t.key then t.left else t.right).visited
  {
  }
}
