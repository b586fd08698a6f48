/**
 * Random tree generation (`generateTree`, index.js:48-69).
 *
 * The range [lower, upper] is split at its midpoint. Each call draws one
 * random number; if it exceeds delta = ((upper - lower) / 100) * multiplier
 * the branch ends empty, otherwise a node keyed by the rounded midpoint is
 * built from the two halves. `Math.random` becomes an explicit sequence of
 * draws, consumed in call order: the node's own draw, then the left
 * subtree's, then the right subtree's.
 */
module Generation {
  import opened Wrappers
  import opened Trees

  const TREE_SPAWN_MULTIPLIER: real := 8.0

  /** `Math.round`: halves round towards +infinity. */
  function Round(x: real): int { (x + 0.5).Floor }

  /** Draws `Math.random` can return: each in [0, 1). */
  predicate ValidDraws(draws: seq<real>) {
    forall i :: 0 <= i < |draws| ==> 0.0 <= draws[i] < 1.0
  }

  function Delta(lower: real, upper: real): real {
    ((upper - lower) / 100.0) * TREE_SPAWN_MULTIPLIER
  }

  /** The JavaScript pair `[root, height]`, with the draws left unused. */
  datatype Generated = Generated(tree: Tree, height: nat, rest: seq<real>)

  /**
   * `generateTree(lower, upper)` fed by `draws`. `None` only when the draws
   * run out before the recursion ends.
   */
  function GenerateTree(lower: real, upper: real, draws: seq<real>): (r: Option<Generated>)
    ensures r.Some? ==> |r.value.rest| < |draws|
    ensures r.Some? ==> r.value.height == Height(r.value.tree)
    ensures r.Some? ==> (r.value.height == 0 <==> r.value.tree == Nil)
    decreases |draws|
  {
    if |draws| == 0 then None
    else if draws[0] > Delta(lower, upper) then Some(Generated(Nil, 0, draws[1..]))
    else
      var middle := (upper - lower) / 2.0 + lower;
      match GenerateTree(lower, middle, draws[1..])
      case None => None
      case Some(left) =>
        match GenerateTree(middle, upper, left.rest)
        case None => None
        case Some(right) =>
          Some(Generated(Node(Round(middle), left.tree, right.tree),
                         Max(left.height, right.height) + 1,
                         right.rest))
  }

  lemma RoundMonotonic(x: real, y: real)
    requires x <= y
    ensures Round(x) <= Round(y)
  {
  }

  /**
   * A node is built from the halves of the range split at its midpoint: its
   * key is the rounded midpoint, its subtrees the results on the halves.
   */
  lemma Split(lower: real, upper: real, draws: seq<real>)
    requires GenerateTree(lower, upper, draws).Some?
    requires GenerateTree(lower, upper, draws).value.tree.Node?
    ensures var g := GenerateTree(lower, upper, draws).value;
      var middle := (upper - lower) / 2.0 + lower;
      && |draws| > 0
      && GenerateTree(lower, middle, draws[1..]).Some?
      && var left := GenerateTree(lower, middle, draws[1..]).value;
      && GenerateTree(middle, upper, left.rest).Some?
      && var right := GenerateTree(middle, upper, left.rest).value;
      && g.tree == Node(Round(middle), left.tree, right.tree)
      && g.rest == right.rest
  {
  }

  /** Every generated key is the rounded midpoint of some sub-range, so it lies in [Round(lower), Round(upper)]. */
  lemma {:induction false} GeneratedKeysInRange(lower: real, upper: real, draws: seq<real>)
    requires lower <= upper
    requires GenerateTree(lower, upper, draws).Some?
    ensures forall k :: k in Keys(GenerateTree(lower, upper, draws).value.tree) ==> Round(lower) <= k <= Round(upper)
    decreases |draws|
  {
    var t := GenerateTree(lower, upper, draws).value.tree;
    if t.Node? {
      Split(lower, upper, draws);
      var middle := (upper - lower) / 2.0 + lower;
      var left := GenerateTree(lower, middle, draws[1..]).value;
      var right := GenerateTree(middle, upper, left.rest).value;
      GeneratedKeysInRange(lower, middle, draws[1..]);
      GeneratedKeysInRange(middle, upper, left.rest);
      RoundMonotonic(lower, middle);
      RoundMonotonic(middle, upper);
      assert Keys(t) == {Round(middle)} + Keys(left.tree) + Keys(right.tree);
      forall k | k in Keys(t) ensures Round(lower) <= k <= Round(upper) {
        if k in Keys(left.tree) {
        } else if k in Keys(right.tree) {
        }
      }
    }
  }

  /**
   * Keys of a left subtree are at most the node's key and keys of a right
   * subtree at least it, at every node: a search tree, non-strict because
   * neighbouring midpoints can round to the same key.
   */
  lemma {:induction false} GeneratedIsSearchTree(lower: real, upper: real, draws: seq<real>)
    requires lower <= upper
    requires GenerateTree(lower, upper, draws).Some?
    ensures IsSearchTree(GenerateTree(lower, upper, draws).value.tree)
    decreases |draws|
  {
    var t := GenerateTree(lower, upper, draws).value.tree;
    if t.Node? {
      Split(lower, upper, draws);
      var middle := (upper - lower) / 2.0 + lower;
      var left := GenerateTree(lower, middle, draws[1..]).value;
      GeneratedIsSearchTree(lower, middle, draws[1..]);
      GeneratedIsSearchTree(middle, upper, left.rest);
      GeneratedKeysInRange(lower, middle, draws[1..]);
      GeneratedKeysInRange(middle, upper, left.rest);
    }
  }

  /**
   * Each call consumes exactly one draw: one per node and one per empty
   * branch, so a tree of n nodes uses 2n + 1 draws.
   */
  lemma {:induction false} DrawsConsumed(lower: real, upper: real, draws: seq<real>)
    requires GenerateTree(lower, upper, draws).Some?
    ensures var g := GenerateTree(lower, upper, draws).value;
      |draws| - |g.rest| == 2 * Size(g.tree) + 1
    decreases |draws|
  {
    if draws[0] > Delta(lower, upper) {
    } else {
      var middle := (upper - lower) / 2.0 + lower;
      var left := GenerateTree(lower, middle, draws[1..]).value;
      DrawsConsumed(lower, middle, draws[1..]);
      DrawsConsumed(middle, upper, left.rest);
    }
  }

  /** The draws left over are the ones after those the call consumed, in their original order. */
  lemma {:induction false} RestIsSuffix(lower: real, upper: real, draws: seq<real>)
    requires GenerateTree(lower, upper, draws).Some?
    ensures var g := GenerateTree(lower, upper, draws).value;
      g.rest == draws[|draws| - |g.rest|..]
    decreases |draws|
  {
    if draws[0] > Delta(lower, upper) {
    } else {
      var middle := (upper - lower) / 2.0 + lower;
      var left := GenerateTree(lower, middle, draws[1..]).value;
      var right := GenerateTree(middle, upper, left.rest).value;
      RestIsSuffix(lower, middle, draws[1..]);
      RestIsSuffix(middle, upper, left.rest);
      assert right.rest == draws[1..][|draws| - 1 - |left.rest|..][|left.rest| - |right.rest|..];
    }
  }

  /**
   * When delta is at least 1 no draw from [0, 1) can exceed it, so a node is
   * always created; with multiplier 8 that holds for every range at least
   * 12.5 wide.
   */
  lemma WideRangeAlwaysSpawns(lower: real, upper: real, draws: seq<real>)
    requires upper - lower >= 12.5
    requires ValidDraws(draws)
    requires GenerateTree(lower, upper, draws).Some?
    ensures GenerateTree(lower, upper, draws).value.tree.Node?
  {
    assert Delta(lower, upper) >= 1.0;
  }

  /** A branch whose draw exceeds delta ends empty after a single draw. */
  lemma EmptyBranch(lower: real, upper: real, draws: seq<real>)
    requires |draws| > 0 && draws[0] > Delta(lower, upper)
    ensures GenerateTree(lower, upper, draws) == Some(Generated(Nil, 0, draws[1..]))
  {
  }
}
