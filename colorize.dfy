/** `colorize`: the colour spans are sorted by row and start column, adjacent compatible
    spans are consolidated, and `<span>` markers are inserted into the character cells of
    the composited rows. */
module ColorSpans {
  import opened Wrappers
  import opened Js
  import opened Tree

  // ---------------------------------------------------------------------------------------
  // Sorting

  /** The comparator `(a.y == b.y ? a.start - b.start : a.y - b.y)` is not positive: `a` may
      stay before `b`. */
  predicate InOrder(a: Interval, b: Interval)
  {
    a.y < b.y || (a.y == b.y && a.start <= b.start)
  }

  predicate Sorted(s: seq<Interval>)
  {
    forall i, j :: 0 <= i < j < |s| ==> InOrder(s[i], s[j])
  }

  /** `x` placed after the last element it does not precede: one step of a stable insertion
      sort. */
  function Insert(s: seq<Interval>, x: Interval): (r: seq<Interval>)
    ensures |r| == |s| + 1
    decreases |s|
  {
    if s == [] || InOrder(s[|s| - 1], x) then s + [x]
    else Insert(s[..|s| - 1], x) + [s[|s| - 1]]
  }

  /** The order `intervals.sort(...)` leaves: `Array.prototype.sort` is stable, and any
      stable sort by the comparator gives this sequence. */
  function SortSpans(s: seq<Interval>): (r: seq<Interval>)
    ensures |r| == |s|
    decreases |s|
  {
    if s == [] then [] else Insert(SortSpans(s[..|s| - 1]), s[|s| - 1])
  }

  lemma {:induction false} InsertPermutes(s: seq<Interval>, x: Interval)
    ensures multiset(Insert(s, x)) == multiset(s) + multiset{x}
    decreases |s|
  {
    if !(s == [] || InOrder(s[|s| - 1], x)) {
      InsertPermutes(s[..|s| - 1], x);
      assert s == s[..|s| - 1] + [s[|s| - 1]];
    }
  }

  lemma {:induction false} InsertKeepsSorted(s: seq<Interval>, x: Interval)
    requires Sorted(s)
    ensures Sorted(Insert(s, x))
    decreases |s|
  {
    if s == [] || InOrder(s[|s| - 1], x) {
    } else {
      var init, last := s[..|s| - 1], s[|s| - 1];
      InsertKeepsSorted(init, x);
      var r := Insert(init, x);
      InsertPermutes(init, x);
      forall i | 0 <= i < |r| ensures InOrder(r[i], last) {
        assert r[i] in multiset(r);
        if r[i] != x {
          assert r[i] in init;
        }
      }
    }
  }

  /** The sort yields a sorted permutation of the spans. */
  lemma {:induction false} SortSpansSorted(s: seq<Interval>)
    ensures Sorted(SortSpans(s))
    ensures multiset(SortSpans(s)) == multiset(s)
    decreases |s|
  {
    if s != [] {
      SortSpansSorted(s[..|s| - 1]);
      InsertKeepsSorted(SortSpans(s[..|s| - 1]), s[|s| - 1]);
      InsertPermutes(SortSpans(s[..|s| - 1]), s[|s| - 1]);
      assert s == s[..|s| - 1] + [s[|s| - 1]];
    }
  }

  /** The spans with row `y` and start column `start`, in order. */
  function WithKey(s: seq<Interval>, y: int, start: int): (r: seq<Interval>)
    ensures |r| <= |s|
    decreases |s|
  {
    if s == [] then []
    else
      var last := s[|s| - 1];
      WithKey(s[..|s| - 1], y, start) + (if last.y == y && last.start == start then [last] else [])
  }

  lemma {:induction false} WithKeyInsert(s: seq<Interval>, x: Interval, y: int, start: int)
    ensures WithKey(Insert(s, x), y, start)
      == WithKey(s, y, start) + (if x.y == y && x.start == start then [x] else [])
    decreases |s|
  {
    if s == [] || InOrder(s[|s| - 1], x) {
      assert (s + [x])[..|s|] == s;
    } else {
      var init, last := s[..|s| - 1], s[|s| - 1];
      WithKeyInsert(init, x, y, start);
      var ins := Insert(init, x);
      var r := ins + [last];
      assert Insert(s, x) == r;
      assert r[..|r| - 1] == ins && r[|r| - 1] == last;
      var xs := if x.y == y && x.start == start then [x] else [];
      var ls := if last.y == y && last.start == start then [last] else [];
      assert WithKey(r, y, start) == WithKey(ins, y, start) + ls;
      assert WithKey(s, y, start) == WithKey(init, y, start) + ls;
      assert xs == [] || ls == [];
    }
  }

  /** Stability: spans that compare equal keep their relative order. */
  lemma {:induction false} SortSpansStable(s: seq<Interval>, y: int, start: int)
    ensures WithKey(SortSpans(s), y, start) == WithKey(s, y, start)
    decreases |s|
  {
    if s != [] {
      SortSpansStable(s[..|s| - 1], y, start);
      WithKeyInsert(SortSpans(s[..|s| - 1]), s[|s| - 1], y, start);
    }
  }

  /** `x` moves past the last element of `s[..j]` when it strictly precedes it. */
  lemma InsertPastLast(s: seq<Interval>, x: Interval, j: nat)
    requires 0 < j <= |s| && !InOrder(s[j - 1], x)
    ensures Insert(s[..j], x) + s[j..] == Insert(s[..j - 1], x) + s[j - 1..]
  {
    assert s[..j][..j - 1] == s[..j - 1];
    assert s[j - 1..] == [s[j - 1]] + s[j..];
  }

  /** Where the insertion stops, `x` goes into the gap. */
  lemma InsertAtStop(s: seq<Interval>, x: Interval, j: nat)
    requires j <= |s| && (j == 0 || InOrder(s[j - 1], x))
    ensures Insert(s[..j], x) + s[j..] == s[..j] + [x] + s[j..]
  {
  }

  /** The loop of one insertion pass: the elements of the sorted prefix `a[..i]` that `x`
      strictly precedes move one place right, leaving a gap at `j` where `x` belongs. */
  method MakeRoom(a: array<Interval>, i: nat, x: Interval) returns (j: nat)
    requires i < a.Length
    modifies a
    ensures j <= i
    ensures forall k :: 0 <= k < j ==> a[k] == old(a[k])
    ensures forall k :: j < k <= i ==> a[k] == old(a[k - 1])
    ensures forall k :: i < k < a.Length ==> a[k] == old(a[k])
    ensures Insert(old(a[..i]), x) == old(a[..j]) + [x] + old(a[j..i])
  {
    ghost var sorted := a[..i];
    j := i;
    assert sorted[..j] == sorted && sorted[j..] == [];
    while j > 0 && !InOrder(a[j - 1], x)
      invariant 0 <= j <= i
      invariant forall k :: 0 <= k < j ==> a[k] == sorted[k]
      invariant forall k :: j < k <= i ==> a[k] == sorted[k - 1]
      invariant forall k :: i < k < a.Length ==> a[k] == old(a[k])
      invariant Insert(sorted, x) == Insert(sorted[..j], x) + sorted[j..]
    {
      assert a[j - 1] == sorted[j - 1];
      InsertPastLast(sorted, x, j);
      a[j] := a[j - 1];
      j := j - 1;
    }
    InsertAtStop(sorted, x, j);
    assert sorted[..j] == old(a[..j]) && sorted[j..] == old(a[j..i]);
  }

  /** One pass of the insertion sort: `a[i]` is moved left past the elements of the sorted
      prefix `a[..i]` that it strictly precedes. */
  method InsertInto(a: array<Interval>, i: nat)
    requires i < a.Length
    modifies a
    ensures a[..i + 1] == Insert(old(a[..i]), old(a[i]))
    ensures a[i + 1..] == old(a[i + 1..])
  {
    var x := a[i];
    var j := MakeRoom(a, i, x);
    a[j] := x;
    assert a[..i + 1] == old(a[..j]) + [x] + old(a[j..i]);
  }

  /** `intervals.sort(...)` on the array itself, as a stable insertion sort. */
  method SortIntervals(a: array<Interval>)
    modifies a
    ensures a[..] == SortSpans(old(a[..]))
  {
    ghost var s := a[..];
    var i := 0;
    while i < a.Length
      invariant 0 <= i <= a.Length
      invariant a[..i] == SortSpans(s[..i])
      invariant a[i..] == s[i..]
    {
      ghost var prefix, x := a[..i], a[i];
      assert x == s[i];
      InsertInto(a, i);
      assert a[..i + 1] == Insert(prefix, x);
      assert s[..i + 1][..i] == s[..i] && s[..i + 1][i] == x;
      assert SortSpans(s[..i + 1]) == Insert(SortSpans(s[..i]), x);
      assert a[i + 1..] == s[i + 1..];
      i := i + 1;
    }
    assert s[..i] == s;
  }

  // ---------------------------------------------------------------------------------------
  // Consolidation

  /** `cur` and `next` may be merged: same row and colours, and the last column of `cur` is
      the first column of `next` (the two overlap in that column). */
  predicate Mergeable(cur: Interval, next: Interval)
  {
    cur.y == next.y && cur.fg == next.fg && cur.bg == next.bg && EndIndex(cur) == next.start
  }

  /** `cur` extended to end where `next` ends; its `length` is cleared. */
  function Merge(cur: Interval, next: Interval): (r: Interval)
    ensures r.y == cur.y && r.start == cur.start && r.fg == cur.fg && r.bg == cur.bg
    ensures EndIndex(r) == EndIndex(next)
  {
    cur.(end := Some(EndIndex(next)), length := None)
  }

  /** The consolidated spans, `cur` being the span under construction and `rest` the spans
      not yet looked at. */
  function ConsolidateFrom(cur: Interval, rest: seq<Interval>): (r: seq<Interval>)
    ensures 1 <= |r| <= |rest| + 1
    ensures r[0].y == cur.y && r[0].start == cur.start && r[0].fg == cur.fg && r[0].bg == cur.bg
    ensures forall k :: 0 <= k < |r| - 1 ==> !Mergeable(r[k], r[k + 1])
    decreases |rest|
  {
    if rest == [] then [cur]
    else if Mergeable(cur, rest[0]) then ConsolidateFrom(Merge(cur, rest[0]), rest[1..])
    else [cur] + ConsolidateFrom(rest[0], rest[1..])
  }

  function Consolidated(s: seq<Interval>): (r: seq<Interval>)
    requires s != []
  {
    ConsolidateFrom(s[0], s[1..])
  }

  /** One step of the consolidation: the next span is merged into `cur`, or `cur` is done. */
  lemma ConsolidateStep(done: seq<Interval>, cur: Interval, rest: seq<Interval>)
    requires rest != []
    ensures done + ConsolidateFrom(cur, rest)
      == if Mergeable(cur, rest[0]) then done + ConsolidateFrom(Merge(cur, rest[0]), rest[1..])
         else (done + [cur]) + ConsolidateFrom(rest[0], rest[1..])
  {
    if !Mergeable(cur, rest[0]) {
      assert done + ([cur] + ConsolidateFrom(rest[0], rest[1..])) == (done + [cur]) + ConsolidateFrom(rest[0], rest[1..]);
    }
  }

  /** The consolidation loop of `colorize`, reading the sorted spans. An empty list throws a
      TypeError, since `intervals[0]` is `undefined`. */
  method Consolidate(a: array<Interval>) returns (r: Result<seq<Interval>>)
    ensures a.Length == 0 <==> r.Err?
    ensures r.Err? ==> r.error == TypeError
    ensures r.Ok? ==> r.value == Consolidated(a[..])
  {
    if a.Length == 0 {
      return Err(TypeError);
    }
    var cur := a[0];
    var consolidated := [];
    var i := 1;
    while i < a.Length
      invariant 1 <= i <= a.Length
      invariant consolidated + ConsolidateFrom(cur, a[i..]) == Consolidated(a[..])
    {
      var next := a[i];
      assert a[i..][0] == next && a[i..][1..] == a[i + 1..];
      ConsolidateStep(consolidated, cur, a[i..]);
      if !Mergeable(cur, next) {
        consolidated := consolidated + [cur];
        cur := next;
      } else {
        cur := Merge(cur, next);
      }
      i := i + 1;
    }
    return Ok(consolidated + [cur]);
  }

  /** Cell `(y, c)` is painted with colours `fg`/`bg` by `iv`. */
  predicate Paints(iv: Interval, y: int, c: int, fg: Option<string>, bg: Option<string>)
  {
    iv.y == y && iv.fg == fg && iv.bg == bg && iv.start <= c <= EndIndex(iv)
  }

  predicate Painted(s: seq<Interval>, y: int, c: int, fg: Option<string>, bg: Option<string>)
  {
    exists iv :: iv in s && Paints(iv, y, c, fg, bg)
  }

  /** A span that covers at least its start column. */
  predicate WellFormed(iv: Interval)
  {
    iv.start <= EndIndex(iv)
  }

  lemma {:induction false} ConsolidateFromPaints(cur: Interval, rest: seq<Interval>,
      y: int, c: int, fg: Option<string>, bg: Option<string>)
    requires WellFormed(cur) && forall iv :: iv in rest ==> WellFormed(iv)
    ensures Painted(ConsolidateFrom(cur, rest), y, c, fg, bg)
      <==> Paints(cur, y, c, fg, bg) || Painted(rest, y, c, fg, bg)
    decreases |rest|
  {
    if rest != [] {
      assert rest == [rest[0]] + rest[1..];
      assert forall iv :: iv in rest <==> iv == rest[0] || iv in rest[1..];
      assert rest[0] in rest;
      if Mergeable(cur, rest[0]) {
        var m := Merge(cur, rest[0]);
        assert Paints(m, y, c, fg, bg) <==> Paints(cur, y, c, fg, bg) || Paints(rest[0], y, c, fg, bg);
        ConsolidateFromPaints(m, rest[1..], y, c, fg, bg);
      } else {
        var r := ConsolidateFrom(rest[0], rest[1..]);
        assert forall iv :: iv in [cur] + r <==> iv == cur || iv in r;
        ConsolidateFromPaints(rest[0], rest[1..], y, c, fg, bg);
      }
    }
  }

  /** Why the lemma above needs every span to cover its start column: a zero-length span
      that starts at the last column of the span before it is merged into that span, and
      the merged span ends where the zero-length one does, one column short. */
  lemma MalformedNextShrinks()
    ensures
      var a := Interval(0, 0, Some("red"), None, Some(2), None);
      var b := Interval(0, 2, Some("red"), None, None, Some(0));
      && !WellFormed(b)
      && Consolidated([a, b]) == [Interval(0, 0, Some("red"), None, Some(1), None)]
      && Painted([a, b], 0, 2, Some("red"), None)
      && !Painted(Consolidated([a, b]), 0, 2, Some("red"), None)
  {
    var a := Interval(0, 0, Some("red"), None, Some(2), None);
    var b := Interval(0, 2, Some("red"), None, None, Some(0));
    assert Mergeable(a, b);
    assert [a, b][1..] == [b];
    assert [b][1..] == [];
    assert Paints(a, 0, 2, Some("red"), None) && a in [a, b];
  }

  /** Sorting and consolidating paints exactly the cells, with the same colours, that the
      spans emitted by the components paint, provided each of those covers its start column. */
  lemma SortAndConsolidatePaintSameCells(s: seq<Interval>,
      y: int, c: int, fg: Option<string>, bg: Option<string>)
    requires s != [] && forall iv :: iv in s ==> WellFormed(iv)
    ensures Painted(Consolidated(SortSpans(s)), y, c, fg, bg) <==> Painted(s, y, c, fg, bg)
  {
    var t := SortSpans(s);
    SortSpansSorted(s);
    assert forall iv :: iv in t <==> iv in s by {
      forall iv ensures iv in t <==> iv in s {
        assert iv in t <==> iv in multiset(t);
      }
    }
    assert t == [t[0]] + t[1..];
    assert forall iv :: iv in t <==> iv == t[0] || iv in t[1..];
    ConsolidateFromPaints(t[0], t[1..], y, c, fg, bg);
  }

  /** Every consolidated span lies on the row of some span it was built from. */
  lemma {:induction false} ConsolidateFromRows(cur: Interval, rest: seq<Interval>)
    ensures forall iv :: iv in ConsolidateFrom(cur, rest) ==>
      iv.y == cur.y || exists e :: e in rest && e.y == iv.y
    decreases |rest|
  {
    if rest != [] {
      assert forall e :: e in rest[1..] ==> e in rest;
      if Mergeable(cur, rest[0]) {
        ConsolidateFromRows(Merge(cur, rest[0]), rest[1..]);
      } else {
        ConsolidateFromRows(rest[0], rest[1..]);
        assert rest[0] in rest;
      }
    }
  }

  /** Spans that touch without sharing a column are not merged: the code requires the last
      column of the first to be the start of the second. */
  lemma AdjacentSpansStaySeparate()
    ensures var a := Interval(0, 0, Some("red"), None, Some(2), None);
      var b := Interval(0, 3, Some("red"), None, Some(5), None);
      Consolidated([a, b]) == [a, b]
  {
  }

  /** Spans that share one column are merged into one. */
  lemma OverlappingSpansMerge()
    ensures var a := Interval(0, 0, Some("red"), None, Some(2), None);
      var b := Interval(0, 2, Some("red"), None, None, Some(4));
      Consolidated([a, b]) == [Interval(0, 0, Some("red"), None, Some(5), None)]
  {
    var a := Interval(0, 0, Some("red"), None, Some(2), None);
    var b := Interval(0, 2, Some("red"), None, None, Some(4));
    assert Mergeable(a, b);
    assert [a, b][1..] == [b];
  }

  // ---------------------------------------------------------------------------------------
  // Marker insertion

  /** One element of a row array after `row.split("")`; `None` is a hole of the array. */
  type Piece = Option<string>

  /** The value read from an element: a hole reads as `undefined`, which concatenates as the
      text "undefined". */
  function Read(p: Piece): string
  {
    if p.Some? then p.value else "undefined"
  }

  /** `row[k] = prefix + row[k] + suffix`: an index past the end lengthens the array with
      holes, and a negative index sets a property that is not an element, which `join`
      ignores. */
  function Write(row: seq<Piece>, k: int, prefix: string, suffix: string): (r: seq<Piece>)
    ensures k < 0 ==> r == row
    ensures 0 <= k < |row| ==> r == row[k := Some(prefix + Read(row[k]) + suffix)]
    ensures |row| <= k ==>
      && |r| == k + 1 && r[..|row|] == row && r[k] == Some(prefix + "undefined" + suffix)
      && forall i :: |row| <= i < k ==> r[i].None?
  {
    if k < 0 then row
    else if k < |row| then row[k := Some(prefix + Read(row[k]) + suffix)]
    else row + seq(k - |row|, _ => None) + [Some(prefix + "undefined" + suffix)]
  }

  /** A truthy palette name `n` becomes the class `prefix + n`; an absent or empty one none. */
  function ClassOf(prefix: string, name: Option<string>): string
  {
    if name.Some? && name.value != "" then prefix + name.value else ""
  }

  function OpenTag(iv: Interval): string
  {
    "<span class=\"" + ClassOf("literal-fg-", iv.fg) + " " + ClassOf("literal-bg-", iv.bg) + "\">"
  }

  const CloseTag: string := "</span>"

  /** The markers of one span: the opening tag before the start cell, the closing tag after
      the end cell. A row index outside the rows skips the span. */
  function Mark(split: seq<seq<Piece>>, iv: Interval): (r: seq<seq<Piece>>)
    ensures |r| == |split|
    ensures forall t :: 0 <= t < |split| && t != iv.y ==> r[t] == split[t]
  {
    if 0 <= iv.y < |split| then split[iv.y := MarkRow(split[iv.y], iv)] else split
  }

  /** The markers of `iv` in its own row. */
  function MarkRow(row: seq<Piece>, iv: Interval): (r: seq<Piece>)
  {
    Write(Write(row, iv.start, OpenTag(iv), ""), EndIndex(iv), "", CloseTag)
  }

  /** A span that starts and ends inside its row wraps its start cell in its opening tag and
      its end cell in its closing tag, and leaves the length of the row as it is. */
  lemma MarkRowCell(row: seq<Piece>, iv: Interval, k: int)
    requires 0 <= iv.start < |row| && 0 <= EndIndex(iv) < |row|
    requires 0 <= k < |row| && row[k].Some?
    ensures |MarkRow(row, iv)| == |row|
    ensures MarkRow(row, iv)[k] == Some((if iv.start == k then OpenTag(iv) else "") + row[k].value
      + (if EndIndex(iv) == k then CloseTag else ""))
  {
    var v := row[k].value;
    var o := if iv.start == k then OpenTag(iv) else "";
    var c := if EndIndex(iv) == k then CloseTag else "";
    var row1 := Write(row, iv.start, OpenTag(iv), "");
    if iv.start == k {
      assert OpenTag(iv) + v + "" == o + v;
    } else {
      assert "" + v == v;
    }
    assert row1[k] == Some(o + v);
    var row2 := Write(row1, EndIndex(iv), "", CloseTag);
    if EndIndex(iv) == k {
      assert "" + (o + v) + CloseTag == o + v + c;
    } else {
      assert o + v + "" == o + v;
    }
  }

  function MarkAll(split: seq<seq<Piece>>, spans: seq<Interval>): (r: seq<seq<Piece>>)
    ensures |r| == |split|
    decreases |spans|
  {
    if spans == [] then split else Mark(MarkAll(split, spans[..|spans| - 1]), spans[|spans| - 1])
  }

  /** `row.split("")` */
  function Cells(row: string): (r: seq<Piece>)
    ensures |r| == |row| && forall k :: 0 <= k < |row| ==> r[k] == Some([row[k]])
  {
    seq(|row|, k requires 0 <= k < |row| => Some([row[k]]))
  }

  /** `row.join("")`: holes join as the empty string. */
  function JoinCells(row: seq<Piece>): string
  {
    if row == [] then "" else (if row[0].Some? then row[0].value else "") + JoinCells(row[1..])
  }

  lemma {:induction false} JoinCellsOfCells(row: string)
    ensures JoinCells(Cells(row)) == row
  {
    if row != [] {
      JoinCellsOfCells(row[1..]);
      assert Cells(row)[1..] == Cells(row[1..]);
      assert row == [row[0]] + row[1..];
    }
  }

  /** The opening tags a sequence of spans puts before cell `k` of row `y`: each later span
      prepends its tag, so the last span's tag comes first. */
  function Opens(spans: seq<Interval>, y: int, k: int): string
    decreases |spans|
  {
    if spans == [] then ""
    else
      var last := spans[|spans| - 1];
      (if last.y == y && last.start == k then OpenTag(last) else "") + Opens(spans[..|spans| - 1], y, k)
  }

  /** The closing tags put after cell `k` of row `y`, in span order. */
  function Closes(spans: seq<Interval>, y: int, k: int): string
    decreases |spans|
  {
    if spans == [] then ""
    else
      var last := spans[|spans| - 1];
      Closes(spans[..|spans| - 1], y, k) + (if last.y == y && EndIndex(last) == k then CloseTag else "")
  }

  /** When every span on row `y` starts and ends inside the row, the row keeps its length
      and each cell becomes its character wrapped in the tags of the spans starting and
      ending there. */
  lemma {:induction false} MarkedCell(split: seq<seq<Piece>>, spans: seq<Interval>, y: int, k: int)
    requires 0 <= y < |split| && 0 <= k < |split[y]| && split[y][k].Some?
    requires forall iv :: iv in spans && iv.y == y ==>
      0 <= iv.start < |split[y]| && 0 <= EndIndex(iv) < |split[y]|
    ensures |MarkAll(split, spans)[y]| == |split[y]|
    ensures MarkAll(split, spans)[y][k] == Some(Opens(spans, y, k) + split[y][k].value + Closes(spans, y, k))
    decreases |spans|
  {
    if spans != [] {
      var init, last := spans[..|spans| - 1], spans[|spans| - 1];
      assert forall iv :: iv in init ==> iv in spans;
      MarkedCell(split, init, y, k);
      assert last in spans;
      var prev := MarkAll(split, init);
      var o := if last.y == y && last.start == k then OpenTag(last) else "";
      var c := if last.y == y && EndIndex(last) == k then CloseTag else "";
      assert Opens(spans, y, k) == o + Opens(init, y, k);
      assert Closes(spans, y, k) == Closes(init, y, k) + c;
      assert MarkAll(split, spans) == Mark(prev, last);
      var v := split[y][k].value;
      assert prev[y][k] == Some(Opens(init, y, k) + v + Closes(init, y, k));
      if last.y == y {
        MarkRowCell(prev[y], last, k);
        assert MarkAll(split, spans)[y] == MarkRow(prev[y], last);
        Regroup(o, Opens(init, y, k), v, Closes(init, y, k), c);
      } else {
        assert MarkAll(split, spans)[y] == prev[y];
        assert o == "" && c == "";
        assert Opens(spans, y, k) == Opens(init, y, k);
        assert Closes(spans, y, k) == Closes(init, y, k);
      }
    } else {
      assert "" + split[y][k].value + "" == split[y][k].value;
    }
  }

  lemma Regroup(a: string, b: string, c: string, d: string, e: string)
    ensures a + (b + c + d) + e == (a + b) + c + (d + e)
  {
  }

  /** Rows that no span names are left as they were. */
  lemma {:induction false} MarkAllLeavesOtherRows(split: seq<seq<Piece>>, spans: seq<Interval>, t: int)
    requires 0 <= t < |split|
    requires forall iv :: iv in spans ==> iv.y != t
    ensures MarkAll(split, spans)[t] == split[t]
    decreases |spans|
  {
    if spans != [] {
      assert forall iv :: iv in spans[..|spans| - 1] ==> iv in spans;
      MarkAllLeavesOtherRows(split, spans[..|spans| - 1], t);
      assert spans[|spans| - 1] in spans;
    }
  }

  /** `colorize(rendered, intervals)`: the rows with markers inserted, or the TypeError an
      empty span list raises. */
  function ColorizeRows(rows: seq<string>, intervals: seq<Interval>): (r: Result<seq<string>>)
    ensures r.Err? <==> intervals == []
    ensures r.Err? ==> r.error == TypeError
    ensures r.Ok? ==> |r.value| == |rows|
  {
    if intervals == [] then Err(TypeError)
    else
      var split := seq(|rows|, t requires 0 <= t < |rows| => Cells(rows[t]));
      var marked := MarkAll(split, Consolidated(SortSpans(intervals)));
      Ok(seq(|rows|, t requires 0 <= t < |rows| => JoinCells(marked[t])))
  }

  /** A row on which no span lies comes out exactly as it went in. */
  lemma RowWithoutSpansUnchanged(rows: seq<string>, intervals: seq<Interval>, t: int)
    requires intervals != [] && 0 <= t < |rows|
    requires forall iv :: iv in intervals ==> iv.y != t
    ensures ColorizeRows(rows, intervals).value[t] == rows[t]
  {
    var sorted := SortSpans(intervals);
    SortSpansSorted(intervals);
    assert forall iv :: iv in sorted ==> iv in intervals by {
      forall iv | iv in sorted ensures iv in intervals {
        assert iv in multiset(sorted);
      }
    }
    ConsolidateFromRows(sorted[0], sorted[1..]);
    assert forall e :: e in sorted[1..] ==> e in sorted;
    var split := seq(|rows|, t requires 0 <= t < |rows| => Cells(rows[t]));
    MarkAllLeavesOtherRows(split, Consolidated(sorted), t);
    JoinCellsOfCells(rows[t]);
  }

  lemma {:induction false} JoinCellsAppend(a: seq<Piece>, b: seq<Piece>)
    ensures JoinCells(a + b) == JoinCells(a) + JoinCells(b)
  {
    if a == [] {
      assert a + b == b;
    } else {
      assert (a + b)[1..] == a[1..] + b;
      JoinCellsAppend(a[1..], b);
    }
  }

  lemma {:induction false} JoinCellsHoles(n: nat)
    ensures JoinCells(seq(n, _ => None)) == ""
  {
    if n > 0 {
      assert seq<Piece>(n, _ => None)[1..] == seq(n - 1, _ => None);
      JoinCellsHoles(n - 1);
    }
  }

  /** A span that starts and ends at one column past the end of its row lengthens the row
      with holes, which join as nothing, and marks a cell that reads as "undefined". */
  lemma SpanPastRowEnd(row: string, iv: Interval)
    requires |row| <= iv.start && EndIndex(iv) == iv.start
    ensures JoinCells(MarkRow(Cells(row), iv)) == row + OpenTag(iv) + "undefined" + CloseTag
  {
    var cells := Cells(row);
    var holes := seq<Piece>(iv.start - |row|, _ => None);
    var last := OpenTag(iv) + "undefined";
    var row1 := Write(cells, iv.start, OpenTag(iv), "");
    assert last + "" == last;
    assert row1 == cells + holes + [Some(last)];
    var row2 := Write(row1, iv.start, "", CloseTag);
    assert "" + last + CloseTag == last + CloseTag;
    assert row2 == cells + holes + [Some(last + CloseTag)];
    JoinCellsAppend(cells, holes);
    JoinCellsHoles(iv.start - |row|);
    JoinCellsOfCells(row);
    assert JoinCells(cells + holes) == row;
    var tail := last + CloseTag;
    assert JoinCells([Some(tail)]) == tail + "";
    JoinCellsAppend(cells + holes, [Some(tail)]);
    assert JoinCells(row2) == row + tail;
  }

  /** `colorize` itself: sorts the caller's array in place, consolidates, then inserts the
      markers span by span into the split rows and joins each row back into a string. */
  method Colorize(rendered: seq<string>, intervals: array<Interval>) returns (r: Result<seq<string>>)
    modifies intervals
    ensures intervals[..] == SortSpans(old(intervals[..]))
    ensures r == ColorizeRows(rendered, old(intervals[..]))
  {
    SortIntervals(intervals);
    var c := Consolidate(intervals);
    if c.Err? {
      return Err(c.error);
    }
    var spans := c.value;
    var split := seq(|rendered|, t requires 0 <= t < |rendered| => Cells(rendered[t]));
    ghost var split0 := split;
    var n := 0;
    while n < |spans|
      invariant 0 <= n <= |spans|
      invariant split == MarkAll(split0, spans[..n])
    {
      var iv := spans[n];
      if 0 <= iv.y < |split| {
        var row := split[iv.y];
        var endIndex := EndIndex(iv);
        row := Write(row, iv.start, OpenTag(iv), "");
        row := Write(row, endIndex, "", CloseTag);
        split := split[iv.y := row];
      }
      assert spans[..n + 1][..n] == spans[..n];
      n := n + 1;
    }
    assert spans[..n] == spans;
    return Ok(seq(|split|, t requires 0 <= t < |split| => JoinCells(split[t])));
  }
}
