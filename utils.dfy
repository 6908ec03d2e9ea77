/** `arrayWith` and the post-order `traverse` of a component tree. */
module Utils {
  import opened Wrappers
  import opened Tree

  /** `arrayWith(n, f)`: the sequence `f(0), ..., f(n-1)`. */
  function ArrayWith<T>(n: nat, f: nat -> T): (r: seq<T>)
    ensures |r| == n
    ensures forall i :: 0 <= i < n ==> r[i] == f(i)
  {
    seq(n, i requires 0 <= i => f(i))
  }

  /** The concatenation of a sequence of sequences. */
  function Flatten<T>(ss: seq<seq<T>>): (r: seq<T>)
  {
    if ss == [] then [] else ss[0] + Flatten(ss[1..])
  }

  lemma {:induction false} FlattenAppend<T>(a: seq<seq<T>>, b: seq<seq<T>>)
    ensures Flatten(a + b) == Flatten(a) + Flatten(b)
  {
    if a == [] {
      assert a + b == b;
    } else {
      assert (a + b)[1..] == a[1..] + b;
      FlattenAppend(a[1..], b);
    }
  }

  /** Flattening after appending one piece. */
  lemma FlattenSnoc<T>(ss: seq<seq<T>>, s: seq<T>)
    ensures Flatten(ss + [s]) == Flatten(ss) + s
  {
    FlattenAppend(ss, [s]);
    assert Flatten([s]) == s + Flatten([s][1..]);
    assert [s][1..] == [];
  }

  /** An element is in a flattened sequence exactly when it is in one of the pieces. */
  lemma {:induction false} FlattenMember<T>(ss: seq<seq<T>>, t: T)
    ensures t in Flatten(ss) <==> exists i :: 0 <= i < |ss| && t in ss[i]
  {
    if ss != [] {
      FlattenMember(ss[1..], t);
      if t in Flatten(ss[1..]) {
        var i :| 0 <= i < |ss[1..]| && t in ss[1..][i];
        assert t in ss[i + 1];
      }
      if exists i :: 0 <= i < |ss| && t in ss[i] {
        var i :| 0 <= i < |ss| && t in ss[i];
        if i > 0 {
          assert t in ss[1..][i - 1];
        }
      }
    }
  }

  /** Every position of a flattened sequence lies in exactly one piece: piece `i` starts
      after the pieces before it. */
  lemma {:induction false} FlattenLocate<T>(ss: seq<seq<T>>, k: nat) returns (i: nat, j: nat)
    requires k < |Flatten(ss)|
    ensures i < |ss| && j < |ss[i]|
    ensures k == |Flatten(ss[..i])| + j
    ensures Flatten(ss) == Flatten(ss[..i]) + ss[i] + Flatten(ss[i + 1..])
  {
    assert ss != [];
    if k < |ss[0]| {
      i, j := 0, k;
      assert ss[..0] == [];
      assert ss[1..] == ss[i + 1..];
    } else {
      var rest := ss[1..];
      var i', j' := FlattenLocate(rest, k - |ss[0]|);
      i, j := i' + 1, j';
      assert rest[..i'] == ss[1..i] && rest[i'] == ss[i] && rest[i' + 1..] == ss[i + 1..];
      assert ss[..i][1..] == ss[1..i];
      var before, after := Flatten(ss[1..i]), Flatten(ss[i + 1..]);
      assert Flatten(ss[..i]) == ss[0] + before;
      assert Flatten(ss) == ss[0] + (before + ss[i] + after);
    }
  }

  /** Two sequences of pieces with pairwise equal multisets flatten to equal multisets. */
  lemma {:induction false} FlattenMultiset<T>(ss: seq<seq<T>>, tt: seq<seq<T>>)
    requires |ss| == |tt|
    requires forall i :: 0 <= i < |ss| ==> multiset(ss[i]) == multiset(tt[i])
    ensures multiset(Flatten(ss)) == multiset(Flatten(tt))
  {
    if ss != [] {
      FlattenMultiset(ss[1..], tt[1..]);
    }
  }

  /** `traverse(tree, cb)` with the default depth-first order, the callback's effect being
      the sequence of nodes it is called on: every child subtree, in sibling order, then the
      node itself. */
  function Traverse(t: Rendered): (r: seq<Rendered>)
    ensures |r| >= 1 && r[|r| - 1] == t
    decreases t
  {
    Flatten(seq(|t.children|, i requires 0 <= i < |t.children| => Traverse(t.children[i].component)))
      + [t]
  }

  /** The sequences whose concatenation, followed by the root, is the traversal. */
  function ChildVisits(t: Rendered): (r: seq<seq<Rendered>>)
    ensures |r| == |t.children|
    ensures forall i :: 0 <= i < |r| ==> r[i] == Traverse(t.children[i].component)
    ensures Traverse(t) == Flatten(r) + [t]
  {
    seq(|t.children|, i requires 0 <= i < |t.children| => Traverse(t.children[i].component))
  }

  /** `traverse(tree, cb, depthFirst)`: any order other than depth-first throws. */
  function TraverseWith(t: Rendered, depthFirst: bool): (r: Result<seq<Rendered>>)
    ensures r.Err? <==> !depthFirst
    ensures r.Ok? ==> r.value == Traverse(t)
  {
    if depthFirst then Ok(Traverse(t)) else Err(NotImplemented)
  }

  /** Every node, parent before its children: the reference enumeration the traversal is
      compared with. */
  function PreOrder(t: Rendered): seq<Rendered>
    decreases t
  {
    [t] + Flatten(seq(|t.children|, i requires 0 <= i < |t.children| => PreOrder(t.children[i].component)))
  }

  /** The traversal visits exactly the nodes of the tree, each as often as it occurs. */
  lemma {:induction false} TraverseVisitsEveryNode(t: Rendered)
    ensures multiset(Traverse(t)) == multiset(PreOrder(t))
    decreases t
  {
    var ss := ChildVisits(t);
    var tt := seq(|t.children|, i requires 0 <= i < |t.children| => PreOrder(t.children[i].component));
    forall i | 0 <= i < |ss| ensures multiset(ss[i]) == multiset(tt[i]) {
      TraverseVisitsEveryNode(t.children[i].component);
    }
    FlattenMultiset(ss, tt);
    assert PreOrder(t) == [t] + Flatten(tt);
  }

  /** A slice that lies inside the middle part of a concatenation. */
  lemma SliceOfMiddle<T>(p: seq<T>, x: seq<T>, q: seq<T>, a: nat, b: nat)
    requires a <= b <= |x|
    ensures (p + x + q)[|p| + a..|p| + b] == x[a..b]
  {
    assert forall n :: 0 <= n < b - a ==> (p + x + q)[|p| + a..|p| + b][n] == x[a..b][n];
  }

  /** Inside `p + x + q + [t]`, position `|p| + j` is position `j` of piece `x`, and a
      window of `x` ending there is a window of the whole. */
  lemma WindowOfPiece<T>(s: seq<T>, p: seq<T>, x: seq<T>, q: seq<T>, t: T, k: nat, j: nat, w: seq<T>)
    requires s == p + x + q + [t] && k == |p| + j && j < |x|
    requires |w| <= j + 1 && x[j + 1 - |w|..j + 1] == w
    ensures s[k] == x[j]
    ensures s[k + 1 - |w|..k + 1] == w
  {
    assert s == p + x + (q + [t]);
    SliceOfMiddle(p, x, q + [t], j + 1 - |w|, j + 1);
  }

  /** Post-order: the visit of any node is immediately preceded by the visits of its whole
      subtree, which therefore all come before it. */
  lemma {:induction false} SubtreeVisitedBeforeNode(t: Rendered, k: nat)
    requires k < |Traverse(t)|
    ensures |Traverse(Traverse(t)[k])| <= k + 1
    ensures Traverse(t)[k + 1 - |Traverse(Traverse(t)[k])|..k + 1] == Traverse(Traverse(t)[k])
    decreases t
  {
    var ss := ChildVisits(t);
    var T := Traverse(t);
    var F := Flatten(ss);
    if k == |T| - 1 {
      assert T[0..k + 1] == T;
    } else {
      var i, j := FlattenLocate(ss, k);
      var c := t.children[i].component;
      SubtreeVisitedBeforeNode(c, j);
      var C := Traverse(c);
      assert ss[i] == C;
      WindowOfPiece(T, Flatten(ss[..i]), C, Flatten(ss[i + 1..]), t, k, j, Traverse(C[j]));
    }
  }
}
