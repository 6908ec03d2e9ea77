/** The grid compositor: `render` stamps the rows of each direct child into the rows of
    its parent, overwriting the parent's own text array. */
module Compositor {
  import opened Js
  import opened Tree

  /** A child's position and rows, as `render` reads them. */
  datatype Placement = Placement(x: int, y: int, lines: seq<string>)

  /** `parentLine.slice(0, x) + childLine + parentLine.slice(x + childLine.length)`. */
  function Splice(parent: string, x: int, line: string): (r: string)
    ensures 0 <= x && x + |line| <= |parent| ==>
      && |r| == |parent|
      && r[..x] == parent[..x]
      && r[x..x + |line|] == line
      && r[x + |line|..] == parent[x + |line|..]
    ensures 0 <= x <= |parent| < x + |line| ==> r == parent[..x] + line
    ensures |parent| < x ==> r == parent + line
  {
    Slice(parent, 0, x) + line + SliceFrom(parent, x + |line|)
  }

  /** A negative `x` is not clamped: `slice` counts it from the end of the row, and the
      tail `slice(x + childLine.length)` starts before it, so the row grows. */
  lemma NegativeOffsetDuplicates()
    ensures Splice("abcde", -2, "XY") == "abcXYabcde"
  {
    assert Slice("abcde", 0, -2) == "abc";
    assert SliceFrom("abcde", 0) == "abcde";
  }

  /** Whether child row `i` of `p` lands on row `t` of `rows`: `t` is in range, the row is
      not the empty string (which `!parentLine` skips) and `i` is a row of the child. */
  predicate Lands(rows: seq<string>, p: Placement, t: int, upTo: int)
  {
    0 <= t < |rows| && rows[t] != "" && 0 <= t - p.y < upTo && t - p.y < |p.lines|
  }

  /** The rows after stamping the first `upTo` rows of one child. Each child row targets a
      different parent row, so every row is settled independently. */
  function StampUpTo(rows: seq<string>, p: Placement, upTo: int): (r: seq<string>)
    ensures |r| == |rows|
  {
    seq(|rows|, t requires 0 <= t < |rows| =>
      if Lands(rows, p, t, upTo) then Splice(rows[t], p.x, p.lines[t - p.y]) else rows[t])
  }

  /** The rows after stamping one child. */
  function StampChild(rows: seq<string>, p: Placement): (r: seq<string>)
    ensures |r| == |rows|
    ensures forall t :: 0 <= t < |rows| && (rows[t] == "" || t < p.y || t - p.y >= |p.lines|) ==>
      r[t] == rows[t]
  {
    StampUpTo(rows, p, |p.lines|)
  }

  /** The rows after stamping every child, in declaration order. */
  function StampAll(rows: seq<string>, ps: seq<Placement>): (r: seq<string>)
    ensures |r| == |rows|
    decreases |ps|
  {
    if ps == [] then rows else StampAll(StampChild(rows, ps[0]), ps[1..])
  }

  /** The direct children as placements: their own children play no part. */
  function Placements(cs: seq<Child>): (ps: seq<Placement>)
    reads set c | c in cs :: c.component.text
    ensures |ps| == |cs|
    ensures forall k :: 0 <= k < |cs| ==>
      ps[k] == Placement(cs[k].x, cs[k].y, cs[k].component.text[..])
  {
    if cs == [] then []
    else [Placement(cs[0].x, cs[0].y, cs[0].component.text[..])] + Placements(cs[1..])
  }

  /** Stamping a further child acts on the rows the earlier children left. */
  lemma {:induction false} StampAllSnoc(rows: seq<string>, ps: seq<Placement>, p: Placement)
    ensures StampAll(rows, ps + [p]) == StampChild(StampAll(rows, ps), p)
    decreases |ps|
  {
    if ps == [] {
      assert StampAll(rows, [p]) == StampAll(StampChild(rows, p), []);
    } else {
      assert (ps + [p])[1..] == ps[1..] + [p];
      StampAllSnoc(StampChild(rows, ps[0]), ps[1..], p);
    }
  }

  /** Children are applied in declaration order, so the last child to land on a row with
      room for its line leaves exactly that line there, whatever earlier children wrote. */
  lemma LastChildWins(rows: seq<string>, ps: seq<Placement>, p: Placement, i: nat)
    requires i < |p.lines|
    requires 0 <= p.y + i < |rows| && 0 <= p.x
    requires var before := StampAll(rows, ps)[p.y + i];
      before != "" && p.x + |p.lines[i]| <= |before|
    ensures var after := StampAll(rows, ps + [p])[p.y + i];
      var before := StampAll(rows, ps)[p.y + i];
      && |after| == |before|
      && after[p.x..p.x + |p.lines[i]|] == p.lines[i]
      && after[..p.x] == before[..p.x]
      && after[p.x + |p.lines[i]|..] == before[p.x + |p.lines[i]|..]
  {
    StampAllSnoc(rows, ps, p);
    var before := StampAll(rows, ps);
    assert Lands(before, p, p.y + i, |p.lines|);
  }

  /** One iteration of `render`'s outer loop: the rows of `child` are stamped into `text`
      in order, skipping targets outside the parent and empty parent rows. */
  method StampInto(text: array<string>, child: Child)
    requires child.component.text != text
    modifies text
    ensures text[..] == StampChild(old(text[..]), Placement(child.x, child.y, child.component.text[..]))
  {
    var lines := child.component.text;
    ghost var p := Placement(child.x, child.y, lines[..]);
    ghost var start := text[..];
    var i := 0;
    while i < lines.Length
      invariant 0 <= i <= lines.Length
      invariant text[..] == StampUpTo(start, p, i)
    {
      var t := child.y + i;
      if 0 <= t < text.Length && text[t] != "" {
        text[t] := Splice(text[t], child.x, lines[i]);
      }
      i := i + 1;
    }
  }

  /** `render(tree)`: returns the root's own `text` array after stamping into it the rows of
      every direct child, in declaration order. A child's text array must not be the root's. */
  method Render(tree: Rendered) returns (text: array<string>)
    requires forall k :: 0 <= k < |tree.children| ==> tree.children[k].component.text != tree.text
    modifies tree.text
    ensures text == tree.text
    ensures text[..] == StampAll(old(text[..]), old(Placements(tree.children)))
  {
    text := tree.text;
    ghost var ps := Placements(tree.children);
    ghost var original := text[..];
    var c := 0;
    while c < |tree.children|
      invariant 0 <= c <= |tree.children|
      invariant text[..] == StampAll(original, ps[..c])
    {
      assert ps[c] == Placement(tree.children[c].x, tree.children[c].y, tree.children[c].component.text[..]);
      StampInto(text, tree.children[c]);
      StampAllSnoc(original, ps[..c], ps[c]);
      assert ps[..c + 1] == ps[..c] + [ps[c]];
      c := c + 1;
    }
    assert ps[..c] == ps;
  }
}
