/** The framed boxes of the `Container` test component and of the popup's `Border`: a
    heavy box-drawing frame of the context's size, filled with full blocks (`Container`) or
    spaces (`Border`), with one child placed inside the frame. */
module Frames {
  import opened Wrappers
  import opened Js
  import opened Tree
  import opened Utils
  import opened ColorSpans
  import opened Context

  const TopLeft: char := '\U{250F}'
  const TopRight: char := '\U{2513}'
  const BottomLeft: char := '\U{2517}'
  const BottomRight: char := '\U{251B}'
  const Horizontal: char := '\U{2501}'
  const Vertical: char := '\U{2503}'
  /** The fill of `Container`. */
  const Solid: char := '\U{2588}'

  /** Row `y` of a frame whose inner width is `inner`: the `switch` tests `0` first, so a
      frame of height 1 is its top row only. */
  function FrameRow(y: nat, height: nat, inner: nat, fill: char): (r: string)
    ensures |r| == inner + 2
  {
    if y == 0 then [TopLeft] + Repeat(Horizontal, inner).value + [TopRight]
    else if y == height - 1 then [BottomLeft] + Repeat(Horizontal, inner).value + [BottomRight]
    else [Vertical] + Repeat(fill, inner).value + [Vertical]
  }

  /** The frame's rows (`arrayWith(height, …)`). Every row repeats a character
      `width - 2` times, which throws a RangeError when `width < 2` and there is a row. */
  function Frame(width: nat, height: nat, fill: char): (r: Result<seq<string>>)
    ensures r.Err? <==> height > 0 && width < 2
    ensures r.Err? ==> r.error == RangeError
    ensures r.Ok? ==> |r.value| == height
  {
    if height == 0 then Ok([])
    else if width < 2 then Err(RangeError)
    else Ok(ArrayWith(height, y => FrameRow(y, height, width - 2, fill)))
  }

  /** The character at column `x` of row `y` of a frame, by position: corners, horizontal
      bars on the top and bottom rows, vertical bars on the side columns and the fill
      elsewhere. The top row takes precedence over the bottom one. */
  function Cell(width: nat, height: nat, fill: char, y: nat, x: nat): char
  {
    var left, right := x == 0, x == width - 1;
    if y == 0 then (if left then TopLeft else if right then TopRight else Horizontal)
    else if y == height - 1 then (if left then BottomLeft else if right then BottomRight else Horizontal)
    else if left || right then Vertical
    else fill
  }

  /** Every row of a frame has `width` characters, each the one its position calls for. */
  lemma FrameCells(width: nat, height: nat, fill: char)
    requires Frame(width, height, fill).Ok?
    ensures var rows := Frame(width, height, fill).value;
      forall y :: 0 <= y < height ==>
        |rows[y]| == width && forall x :: 0 <= x < width ==> rows[y][x] == Cell(width, height, fill, y, x)
  {
    var rows := Frame(width, height, fill).value;
    forall y | 0 <= y < height
      ensures |rows[y]| == width
      ensures forall x :: 0 <= x < width ==> rows[y][x] == Cell(width, height, fill, y, x)
    {
      assert rows[y] == FrameRow(y, height, width - 2, fill);
    }
  }

  /** The arguments a frame passes to `renderChild`: the child sits inside the frame. */
  datatype Slot = Slot(x: int, y: int, width: int, height: int)

  /** What the two components return: rows, the child placements they request and their
      colour spans. */
  datatype Output = Output(text: seq<string>, children: seq<Slot>, colors: seq<Interval>)

  /** The one slot inside a frame of the given size. */
  function Inside(width: nat, height: nat): Slot
  {
    Slot(1, 1, width - 2, height - 2)
  }

  const Gray: Option<string> := Some("gray")

  /** The gray spans of row `y` of `Container`, in the component's own coordinates: the
      whole row on the top and bottom rows, the two side cells elsewhere. */
  function RowSpans(y: nat, width: nat, height: nat): (r: seq<Interval>)
    ensures forall k :: 0 <= k < |r| ==> r[k].y == y && r[k].fg == Gray && r[k].bg == None
  {
    if y == 0 || y == height - 1 then [Interval(y, 0, Gray, None, None, Some(width))]
    else [Interval(y, 0, Gray, None, None, Some(1)), Interval(y, width - 1, Gray, None, None, Some(1))]
  }

  /** Each span passed through `setColor`. */
  function Translated(spans: seq<Interval>, dx: int, dy: int): (r: seq<Interval>)
    ensures |r| == |spans|
    ensures forall i :: 0 <= i < |spans| ==> r[i] == SetColor(spans[i], dx, dy)
  {
    seq(|spans|, i requires 0 <= i < |spans| => SetColor(spans[i], dx, dy))
  }

  /** The spans of every row, flattened in row order. */
  function FrameSpans(width: nat, height: nat): seq<Interval>
  {
    Flatten(ArrayWith(height, y => RowSpans(y, width, height)))
  }

  /** `Container(ctx, child, ...childArgs)` for a context of the given size and offset. The
      text is evaluated first, so a RangeError leaves no child rendered. */
  function Container(width: nat, height: nat, dx: int, dy: int): (r: Result<Output>)
    ensures r.Err? <==> Frame(width, height, Solid).Err?
  {
    match Frame(width, height, Solid)
    case Err(e) => Err(e)
    case Ok(rows) => Ok(Output(rows, [Inside(width, height)], Translated(FrameSpans(width, height), dx, dy)))
  }

  /** `Border(ctx, child?, ...childArgs)`: a frame of spaces, a child slot only when a child
      is given, and no colours. */
  function Border(width: nat, height: nat, hasChild: bool): (r: Result<Output>)
    ensures r.Err? <==> Frame(width, height, ' ').Err?
  {
    match Frame(width, height, ' ')
    case Err(e) => Err(e)
    case Ok(rows) => Ok(Output(rows, if hasChild then [Inside(width, height)] else [], []))
  }

  /** The first `n` rows of `Container` hold one span each on the top and bottom rows and
      two on every other row. */
  lemma {:induction false} SpanCountUpTo(width: nat, height: nat, n: nat)
    requires n <= height
    ensures var ss := seq(n, y requires 0 <= y < n => RowSpans(y, width, height));
      |Flatten(ss)| == 2 * n - (if n >= 1 then 1 else 0) - (if n == height && height >= 2 then 1 else 0)
  {
    var ss := seq(n, y requires 0 <= y < n => RowSpans(y, width, height));
    if n > 0 {
      var ss' := seq(n - 1, y requires 0 <= y < n - 1 => RowSpans(y, width, height));
      assert ss == ss' + [RowSpans(n - 1, width, height)];
      FlattenSnoc(ss', RowSpans(n - 1, width, height));
      SpanCountUpTo(width, height, n - 1);
    }
  }

  /** A `Container` of height `h` emits `2h - 2` spans when `h >= 2`: one per top and bottom
      row, two per middle row. */
  lemma ContainerSpanCount(width: nat, height: nat, dx: int, dy: int)
    requires Container(width, height, dx, dy).Ok?
    ensures |Container(width, height, dx, dy).value.colors|
      == if height >= 2 then 2 * height - 2 else height
  {
    SpanCountUpTo(width, height, height);
    assert ArrayWith(height, y => RowSpans(y, width, height))
      == seq(height, y requires 0 <= y < height => RowSpans(y, width, height));
  }

  /** Whether a cell is on the frame: the top or bottom row, or the side columns. */
  predicate OnFrame(width: nat, height: nat, y: int, x: int)
  {
    0 <= y < height && 0 <= x < width && (y == 0 || y == height - 1 || x == 0 || x == width - 1)
  }

  /** Within the component's own rectangle, the spans of row `y` paint gray exactly the
      cells of that row that lie on the frame. */
  lemma RowSpansPaint(width: nat, height: nat, y: nat, x: int)
    requires 2 <= width && y < height && 0 <= x < width
    ensures (exists iv :: iv in RowSpans(y, width, height) && Paints(iv, y, x, Gray, None))
      <==> OnFrame(width, height, y, x)
  {
    var spans := RowSpans(y, width, height);
    if OnFrame(width, height, y, x) {
      if y == 0 || y == height - 1 {
        assert Paints(spans[0], y, x, Gray, None);
      } else if x == 0 {
        assert Paints(spans[0], y, x, Gray, None);
      } else {
        assert Paints(spans[1], y, x, Gray, None);
      }
    }
  }

  /** Every span of the frame belongs to the row it names, and has no `end`. */
  lemma FrameSpanRow(width: nat, height: nat, iv: Interval)
    requires iv in FrameSpans(width, height)
    ensures iv.end == None && 0 <= iv.y < height && iv in RowSpans(iv.y, width, height)
  {
    var ss := ArrayWith(height, y => RowSpans(y, width, height));
    FlattenMember(ss, iv);
    var i :| 0 <= i < |ss| && iv in ss[i];
    assert iv in RowSpans(i, width, height);
  }

  /** `Container`'s spans, translated by the context's offset, paint gray exactly the
      translated frame cells of its rectangle. */
  lemma ContainerPaintsFrame(width: nat, height: nat, dx: int, dy: int, y: int, x: int)
    requires Container(width, height, dx, dy).Ok? && height > 0
    requires 0 <= y < height && 0 <= x < width
    ensures Painted(Container(width, height, dx, dy).value.colors, y + dy, x + dx, Gray, None)
      <==> OnFrame(width, height, y, x)
  {
    if Painted(Container(width, height, dx, dy).value.colors, y + dy, x + dx, Gray, None) {
      PaintedOnFrame(width, height, dx, dy, y, x);
    }
    if OnFrame(width, height, y, x) {
      FramePainted(width, height, dx, dy, y, x);
    }
  }

  lemma PaintedOnFrame(width: nat, height: nat, dx: int, dy: int, y: int, x: int)
    requires Container(width, height, dx, dy).Ok? && height > 0
    requires 0 <= y < height && 0 <= x < width
    requires Painted(Container(width, height, dx, dy).value.colors, y + dy, x + dx, Gray, None)
    ensures OnFrame(width, height, y, x)
  {
    var spans := FrameSpans(width, height);
    var colors := Container(width, height, dx, dy).value.colors;
    assert colors == Translated(spans, dx, dy);
    var t :| t in colors && Paints(t, y + dy, x + dx, Gray, None);
    var k :| 0 <= k < |colors| && colors[k] == t;
    var iv := spans[k];
    FrameSpanRow(width, height, iv);
    SetColorTranslatesCells(iv, dx, dy, y, x, Gray, None);
    RowSpansPaint(width, height, y, x);
  }

  lemma FramePainted(width: nat, height: nat, dx: int, dy: int, y: int, x: int)
    requires Container(width, height, dx, dy).Ok? && height > 0
    requires OnFrame(width, height, y, x)
    ensures Painted(Container(width, height, dx, dy).value.colors, y + dy, x + dx, Gray, None)
  {
    var ss := ArrayWith(height, y' => RowSpans(y', width, height));
    var spans := FrameSpans(width, height);
    var colors := Container(width, height, dx, dy).value.colors;
    assert colors == Translated(spans, dx, dy);
    RowSpansPaint(width, height, y, x);
    var iv :| iv in RowSpans(y, width, height) && Paints(iv, y, x, Gray, None);
    assert iv in ss[y];
    FlattenMember(ss, iv);
    var k :| 0 <= k < |spans| && spans[k] == iv;
    SetColorTranslatesCells(iv, dx, dy, y, x, Gray, None);
    assert colors[k] in colors && Paints(colors[k], y + dy, x + dx, Gray, None);
  }

  /** `Container`'s rows are a frame of full blocks, and its one child is placed at (1, 1)
      with the frame's inner size. */
  lemma ContainerLayout(width: nat, height: nat, dx: int, dy: int)
    requires Container(width, height, dx, dy).Ok?
    ensures var out := Container(width, height, dx, dy).value;
      && |out.text| == height
      && (forall y :: 0 <= y < height ==>
            (|out.text[y]| == width &&
             forall x :: 0 <= x < width ==> out.text[y][x] == Cell(width, height, Solid, y, x)))
      && out.children == [Slot(1, 1, width - 2, height - 2)]
  {
    FrameCells(width, height, Solid);
  }

  /** `Border`'s rows are a frame of spaces, its child slot is present exactly when a child
      is given, and it emits no colours. */
  lemma BorderLayout(width: nat, height: nat, hasChild: bool)
    requires Border(width, height, hasChild).Ok?
    ensures var out := Border(width, height, hasChild).value;
      && |out.text| == height
      && (forall y :: 0 <= y < height ==>
            (|out.text[y]| == width &&
             forall x :: 0 <= x < width ==> out.text[y][x] == Cell(width, height, ' ', y, x)))
      && out.children == (if hasChild then [Slot(1, 1, width - 2, height - 2)] else [])
      && out.colors == []
  {
    FrameCells(width, height, ' ');
  }
}
