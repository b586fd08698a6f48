/**
 * The style updates a search drives (`highlight` and `found`,
 * index.js:156-177), and what a whole search leaves on the drawing.
 *
 * The rendered `<circle>` and `<line>` elements become two arrays of the
 * records the layout produced; `highlight` and `found` loop over them and
 * rewrite style fields in place, as the source does on the DOM.
 */
module Styling {
  import opened Wrappers
  import opened Layout
  import opened Search

  /** `highlight` on one circle: fill it coral when its `data-value` is `val`. */
  function HighlightCircle(c: CircleMark, val: int): CircleMark {
    if c.value == val then c.(fill := Coral) else c
  }

  /** `highlight` on one line: coral and twice as wide when its `data-dst` is `val`. */
  function HighlightLine(l: LineMark, val: int): LineMark {
    if l.dst == val then l.(stroke := Coral, strokeWidth := l.strokeWidth * 2.0) else l
  }

  /** `found` on one circle: fill it lime when its `data-value` is `val`. */
  function FoundCircle(c: CircleMark, val: int): CircleMark {
    if c.value == val then c.(fill := Lime) else c
  }

  function HighlightCircles(cs: seq<CircleMark>, val: int): seq<CircleMark> {
    seq(|cs|, i requires 0 <= i < |cs| => HighlightCircle(cs[i], val))
  }

  function HighlightLines(ls: seq<LineMark>, val: int): seq<LineMark> {
    seq(|ls|, i requires 0 <= i < |ls| => HighlightLine(ls[i], val))
  }

  function FoundCircles(cs: seq<CircleMark>, val: int): seq<CircleMark> {
    seq(|cs|, i requires 0 <= i < |cs| => FoundCircle(cs[i], val))
  }

  /**
   * `highlight(val)` touches only the fill of circles valued `val` and the
   * stroke and width of lines into `val`; everything else stays as it was.
   */
  lemma HighlightFrame(cs: seq<CircleMark>, ls: seq<LineMark>, val: int)
    ensures |HighlightCircles(cs, val)| == |cs| && |HighlightLines(ls, val)| == |ls|
    ensures forall i :: 0 <= i < |cs| ==>
      var c := HighlightCircles(cs, val)[i];
      && (cs[i].value != val ==> c == cs[i])
      && (cs[i].value == val ==> c == cs[i].(fill := Coral))
    ensures forall i :: 0 <= i < |ls| ==>
      var l := HighlightLines(ls, val)[i];
      && (ls[i].dst != val ==> l == ls[i])
      && (ls[i].dst == val ==> l == ls[i].(stroke := Coral, strokeWidth := 2.0 * ls[i].strokeWidth))
  {
  }

  /** `found(val)` touches only the fill of circles valued `val`. */
  lemma FoundFrame(cs: seq<CircleMark>, val: int)
    ensures |FoundCircles(cs, val)| == |cs|
    ensures forall i :: 0 <= i < |cs| ==>
      var c := FoundCircles(cs, val)[i];
      && (cs[i].value != val ==> c == cs[i])
      && (cs[i].value == val ==> c == cs[i].(fill := Lime))
  {
  }

  /** The circles and lines on display, updated in place by a search. */
  class Scene {
    const circles: array<CircleMark>
    const lines: array<LineMark>

    /** Display a drawing, as `draw` does with the markup. */
    constructor (d: Drawing)
      ensures circles[..] == d.circles && lines[..] == d.lines
      ensures fresh(circles) && fresh(lines)
    {
      circles := new CircleMark[|d.circles|](i requires 0 <= i < |d.circles| => d.circles[i]);
      lines := new LineMark[|d.lines|](i requires 0 <= i < |d.lines| => d.lines[i]);
    }

    /** `highlight(val)`. */
    method Highlight(val: int)
      modifies circles, lines
      ensures circles[..] == HighlightCircles(old(circles[..]), val)
      ensures lines[..] == HighlightLines(old(lines[..]), val)
    {
      for i := 0 to circles.Length
        invariant forall k :: 0 <= k < i ==> circles[k] == HighlightCircle(old(circles[k]), val)
        invariant forall k :: i <= k < circles.Length ==> circles[k] == old(circles[k])
        invariant lines[..] == old(lines[..])
      {
        if circles[i].value == val {
          circles[i] := circles[i].(fill := Coral);
        }
      }
      for i := 0 to lines.Length
        invariant forall k :: 0 <= k < i ==> lines[k] == HighlightLine(old(lines[k]), val)
        invariant forall k :: i <= k < lines.Length ==> lines[k] == old(lines[k])
        invariant circles[..] == HighlightCircles(old(circles[..]), val)
      {
        if lines[i].dst == val {
          lines[i] := lines[i].(stroke := Coral, strokeWidth := lines[i].strokeWidth * 2.0);
        }
      }
    }

    /** `found(val)`. */
    method Found(val: int)
      modifies circles
      ensures circles[..] == FoundCircles(old(circles[..]), val)
      ensures lines[..] == old(lines[..])
    {
      for i := 0 to circles.Length
        invariant forall k :: 0 <= k < i ==> circles[k] == FoundCircle(old(circles[k]), val)
        invariant forall k :: i <= k < circles.Length ==> circles[k] == old(circles[k])
      {
        if circles[i].value == val {
          circles[i] := circles[i].(fill := Lime);
        }
      }
    }

    /** Carry out one call a search makes. */
    method Apply(s: Signal)
      modifies circles, lines
      ensures circles[..] == ApplyCircles(old(circles[..]), s)
      ensures lines[..] == ApplyLines(old(lines[..]), s)
    {
      match s
      case Highlight(k) => Highlight(k);
      case MarkFound(k) => Found(k);
    }

    /** Carry out the calls a search makes, in order, on the displayed drawing. */
    method Play(sigs: seq<Signal>)
      modifies circles, lines
      ensures circles[..] == ReplayCircles(old(circles[..]), sigs)
      ensures lines[..] == ReplayLines(old(lines[..]), sigs)
    {
      for k := 0 to |sigs|
        invariant circles[..] == ReplayCircles(old(circles[..]), sigs[..k])
        invariant lines[..] == ReplayLines(old(lines[..]), sigs[..k])
      {
        assert sigs[..k + 1][..k] == sigs[..k];
        Apply(sigs[k]);
      }
      assert sigs[..|sigs|] == sigs;
    }
  }

  function ApplyCircles(cs: seq<CircleMark>, s: Signal): seq<CircleMark> {
    match s
    case Highlight(k) => HighlightCircles(cs, k)
    case MarkFound(k) => FoundCircles(cs, k)
  }

  function ApplyLines(ls: seq<LineMark>, s: Signal): seq<LineMark> {
    match s
    case Highlight(k) => HighlightLines(ls, k)
    case MarkFound(_) => ls
  }

  /** The circles after a sequence of calls, applied in order. */
  function ReplayCircles(cs: seq<CircleMark>, sigs: seq<Signal>): seq<CircleMark>
    decreases |sigs|
  {
    if sigs == [] then cs
    else ApplyCircles(ReplayCircles(cs, sigs[..|sigs| - 1]), sigs[|sigs| - 1])
  }

  /** The lines after a sequence of calls, applied in order. */
  function ReplayLines(ls: seq<LineMark>, sigs: seq<Signal>): seq<LineMark>
    decreases |sigs|
  {
    if sigs == [] then ls
    else ApplyLines(ReplayLines(ls, sigs[..|sigs| - 1]), sigs[|sigs| - 1])
  }

  /** The fill the last call naming `v` gives, if any call names it. */
  function LastFill(sigs: seq<Signal>, v: int): Option<Color>
    decreases |sigs|
  {
    if sigs == [] then None
    else
      var s := sigs[|sigs| - 1];
      if s.key == v then Some(if s.Highlight? then Coral else Lime)
      else LastFill(sigs[..|sigs| - 1], v)
  }

  /** A stroke width doubled n times. */
  function Doubled(w: real, n: nat): real {
    if n == 0 then w else Doubled(w, n - 1) * 2.0
  }

  /** How many calls highlight `v`. */
  function Highlights(sigs: seq<Signal>, v: int): nat
    decreases |sigs|
  {
    if sigs == [] then 0
    else Highlights(sigs[..|sigs| - 1], v) + (if sigs[|sigs| - 1] == Highlight(v) then 1 else 0)
  }

  /**
   * After any sequence of calls a circle has the fill of the last call that
   * named it, and is otherwise unchanged.
   */
  lemma {:induction false} ReplayCirclesFill(cs: seq<CircleMark>, sigs: seq<Signal>)
    ensures |ReplayCircles(cs, sigs)| == |cs|
    ensures forall i :: 0 <= i < |cs| ==>
      ReplayCircles(cs, sigs)[i] ==
        match LastFill(sigs, cs[i].value)
        case None => cs[i]
        case Some(f) => cs[i].(fill := f)
    decreases |sigs|
  {
    if sigs != [] {
      var pre := sigs[..|sigs| - 1];
      ReplayCirclesFill(cs, pre);
    }
  }

  /**
   * After any sequence of calls a line into `v` is coral and has its width
   * doubled once per highlight of `v`, and is otherwise unchanged.
   */
  lemma {:induction false} ReplayLinesWidth(ls: seq<LineMark>, sigs: seq<Signal>)
    ensures |ReplayLines(ls, sigs)| == |ls|
    ensures forall i :: 0 <= i < |ls| ==>
      var n := Highlights(sigs, ls[i].dst);
      ReplayLines(ls, sigs)[i] ==
        if n == 0 then ls[i]
        else ls[i].(stroke := Coral, strokeWidth := Doubled(ls[i].strokeWidth, n))
    decreases |sigs|
  {
    if sigs != [] {
      var pre := sigs[..|sigs| - 1];
      ReplayLinesWidth(ls, pre);
      forall i | 0 <= i < |ls|
        ensures var n := Highlights(sigs, ls[i].dst);
          ReplayLines(ls, sigs)[i] ==
            if n == 0 then ls[i]
            else ls[i].(stroke := Coral, strokeWidth := Doubled(ls[i].strokeWidth, n))
      {
      }
    }
  }

  /**
   * The calls of one search name each visited key with a highlight; the
   * last call is `found` on the matched key. So the matched key ends lime,
   * every other visited key coral, and no other key is named.
   */
  lemma {:induction false} SearchFills(run: SearchRun, v: int)
    ensures LastFill(Signals(run), v) ==
      if run.outcome == Found(v) then Some(Lime)
      else if v in run.visited then Some(Coral)
      else None
  {
    var hs := HighlightEach(run.visited);
    assert Signals(run) == hs + (if run.outcome.Found? then [MarkFound(run.outcome.key)] else []);
    if run.outcome == Found(v) {
    } else {
      if run.outcome.Found? {
        assert Signals(run)[..|Signals(run)| - 1] == hs;
        assert LastFill(Signals(run), v) == LastFill(hs, v);
      } else {
        assert Signals(run) == hs;
      }
      HighlightsFill(run.visited, v);
    }
  }

  lemma {:induction false} HighlightsFill(vs: seq<int>, v: int)
    ensures var hs := HighlightEach(vs);
      LastFill(hs, v) == if v in vs then Some(Coral) else None
    decreases |vs|
  {
    var hs := HighlightEach(vs);
    if vs != [] {
      var pre := vs[..|vs| - 1];
      HighlightsFill(pre, v);
      assert hs[..|hs| - 1] == HighlightEach(pre);
      assert vs == pre + [vs[|vs| - 1]];
    }
  }

  /** A line into key v is widened once for every time the search visits v. */
  lemma {:induction false} HighlightsCount(vs: seq<int>, v: int)
    ensures var hs := HighlightEach(vs);
      Highlights(hs, v) == multiset(vs)[v]
    decreases |vs|
  {
    var hs := HighlightEach(vs);
    if vs != [] {
      var pre := vs[..|vs| - 1];
      HighlightsCount(pre, v);
      assert hs[..|hs| - 1] == HighlightEach(pre);
      assert vs == pre + [vs[|vs| - 1]];
    }
  }

  /** `found` never widens lines, so a search widens a line into v once per visit of v. */
  lemma SearchHighlights(run: SearchRun, v: int)
    ensures Highlights(Signals(run), v) == multiset(run.visited)[v]
  {
    var hs := HighlightEach(run.visited);
    assert Signals(run) == hs + (if run.outcome.Found? then [MarkFound(run.outcome.key)] else []);
    if run.outcome.Found? {
      assert Signals(run)[..|Signals(run)| - 1] == hs;
      assert Highlights(Signals(run), v) == Highlights(hs, v);
    } else {
      assert Signals(run) == hs;
    }
    HighlightsCount(run.visited, v);
  }
}
