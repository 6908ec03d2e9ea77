/** The `Fire` demo component: a grid of heat values (0 to 4) that a timer pushes one row
    up per tick, cooling cells at random and re-igniting the bottom row; each cell is drawn
    as a shade block and coloured by its heat. */
module Fire {
  import opened Wrappers
  import opened Js
  import opened Tree
  import opened Utils
  import opened ColorSpans
  import opened Context
  import opened Reactive

  /** Rows of heat values, top row first. */
  type Grid = seq<seq<int>>

  /** Every row has `width` cells. */
  predicate Rectangular(grid: Grid, width: int)
  {
    forall y :: 0 <= y < |grid| ==> |grid[y]| == width
  }

  /** Every cell is a heat value the component knows how to draw. */
  predicate Heats(grid: Grid)
  {
    forall y, x :: 0 <= y < |grid| && 0 <= x < |grid[y]| ==> 0 <= grid[y][x] <= 4
  }

  // ---------------------------------------------------------------------------------------
  // createGrid and step

  /** `createGrid(width, height)`: `height` rows of `width` cold cells. */
  function CreateGrid(width: nat, height: nat): (g: Grid)
    ensures |g| == height && Rectangular(g, width) && Heats(g)
    ensures forall y, x :: 0 <= y < height && 0 <= x < width ==> g[y][x] == 0
  {
    ArrayWith(height, y => ArrayWith(width, x => 0))
  }

  /** One cell of `step`: lowered by one when the random draw cools it, never below 0. */
  function Cool(cell: int, draw: bool): (r: int)
    ensures r >= 0
    ensures cell >= 0 ==> cell - 1 <= r <= cell
    ensures r == cell <==> cell >= 0 && (!draw || cell == 0)
  {
    var v := cell + (if draw then -1 else 0);
    if v < 0 then 0 else v
  }

  /** `step(grid)`: the rows below the top move up one row, each cell cooled when its draw
      says so, and a new bottom row of full heat as wide as the old top row is added. The
      draw for the cell that lands at row `y`, column `x` is `draws(y, x)`; an empty grid
      has no first row, whose `length` read throws. */
  function Step(grid: Grid, draws: (nat, nat) -> bool): (r: Result<Grid>)
    ensures r.Err? <==> grid == []
    ensures r.Err? ==> r.error == TypeError
    ensures r.Ok? ==> |r.value| == |grid|
  {
    if grid == [] then Err(TypeError)
    else
      var rest := grid[1..];
      Ok(seq(|rest|, y requires 0 <= y < |rest| =>
             seq(|rest[y]|, x requires 0 <= x < |rest[y]| => Cool(rest[y][x], draws(y, x))))
         + [ArrayWith(|grid[0]|, x => 4)])
  }

  /** After a step, the bottom row is fully lit, as wide as the old top row. */
  lemma StepIgnitesBottom(grid: Grid, draws: (nat, nat) -> bool)
    requires grid != []
    ensures var g := Step(grid, draws).value;
      g[|g| - 1] == seq(|grid[0]|, x => 4)
  {
  }

  /** Row `y` of a step is as wide as row `y + 1` of the grid. */
  lemma StepRowWidth(grid: Grid, draws: (nat, nat) -> bool, y: nat)
    requires y + 1 < |grid|
    ensures |Step(grid, draws).value[y]| == |grid[y + 1]|
  {
    var rest := grid[1..];
    var g := Step(grid, draws).value;
    assert g[y] == seq(|rest[y]|, x requires 0 <= x < |rest[y]| => Cool(rest[y][x], draws(y, x)));
  }

  /** Row `y` of a step is row `y + 1` of the grid, cell by cell cooled by its draw. */
  lemma StepCell(grid: Grid, draws: (nat, nat) -> bool, y: nat, x: nat)
    requires y + 1 < |grid| && x < |grid[y + 1]|
    ensures var g := Step(grid, draws).value;
      |g[y]| == |grid[y + 1]| && g[y][x] == Cool(grid[y + 1][x], draws(y, x))
  {
    var rest := grid[1..];
    var g := Step(grid, draws).value;
    assert g[y] == seq(|rest[y]|, x requires 0 <= x < |rest[y]| => Cool(rest[y][x], draws(y, x)));
  }

  /** Every other row holds the heat of the row below it, one lower at most, and never
      below 0; a cell is warm only if the cell below it was. */
  lemma StepRaisesHeat(grid: Grid, draws: (nat, nat) -> bool, y: nat, x: nat)
    requires y + 1 < |grid| && x < |grid[y + 1]|
    ensures var g := Step(grid, draws).value;
      && |g[y]| == |grid[y + 1]|
      && 0 <= g[y][x]
      && grid[y + 1][x] - 1 <= g[y][x] <= (if grid[y + 1][x] < 0 then 0 else grid[y + 1][x])
      && (g[y][x] > 0 ==> grid[y + 1][x] > 0)
  {
    StepCell(grid, draws, y, x);
  }

  /** Without any cooling, a step of a grid with no negative cells is a pure shift up. */
  lemma CalmStepShifts(grid: Grid)
    requires grid != []
    requires forall y, x :: 0 <= y < |grid| && 0 <= x < |grid[y]| ==> grid[y][x] >= 0
    ensures Step(grid, (y, x) => false) == Ok(grid[1..] + [seq(|grid[0]|, x => 4)])
  {
    var g := Step(grid, (y, x) => false).value;
    assert g == grid[1..] + [seq(|grid[0]|, x => 4)] by {
      forall y | 0 <= y < |grid| - 1
        ensures g[y] == grid[1..][y]
      {
        forall x | 0 <= x < |grid[y + 1]|
          ensures g[y][x] == grid[y + 1][x]
        {
          StepCell(grid, (y, x) => false, y, x);
        }
        StepRowWidth(grid, (y, x) => false, y);
      }
      assert g[|grid| - 1] == seq(|grid[0]|, x => 4);
    }
  }

  /** A step keeps a rectangular grid rectangular, and its cells within 0 to 4. */
  lemma StepKeepsShape(grid: Grid, draws: (nat, nat) -> bool, width: int)
    requires grid != [] && Rectangular(grid, width) && Heats(grid)
    ensures var g := Step(grid, draws).value;
      |g| == |grid| && Rectangular(g, width) && Heats(g)
  {
    var g := Step(grid, draws).value;
    forall y, x | 0 <= y < |g| && 0 <= x < |g[y]|
      ensures 0 <= g[y][x] <= 4
    {
      if y + 1 < |grid| {
        StepRaisesHeat(grid, draws, y, x);
      }
    }
  }

  /** `n` ticks of the timer, tick `k` drawing from `draws(k)`. */
  function Steps(grid: Grid, draws: nat -> (nat, nat) -> bool, n: nat): (r: Result<Grid>)
    ensures r.Err? ==> r.error == TypeError
  {
    if n == 0 then Ok(grid)
    else
      match Steps(grid, draws, n - 1)
      case Err(e) => Err(e)
      case Ok(g) => Step(g, draws(n - 1))
  }

  // ---------------------------------------------------------------------------------------
  // The reset guard

  /** The guard of the render: the stored grid is replaced when its row count differs from
      the height or its first row's length from the width. An empty grid has no first row,
      and `undefined` differs from every width, so it is always replaced. */
  predicate NeedsReset(grid: Grid, width: int, height: int)
  {
    |grid| != height || |grid| == 0 || |grid[0]| != width
  }

  /** A fresh grid of a non-empty component is kept; one of height 0 is replaced on every
      render. */
  lemma FreshGridSettled(width: nat, height: nat)
    ensures NeedsReset(CreateGrid(width, height), width, height) <==> height == 0
  {
  }

  /** However many ticks run, a grid that started as `createGrid(width, height)` with
      `height > 0` keeps its size and its cells in 0 to 4, so the render never resets it. */
  lemma {:induction false} TicksNeverReset(width: nat, height: nat, draws: nat -> (nat, nat) -> bool, n: nat)
    requires height > 0
    ensures var r := Steps(CreateGrid(width, height), draws, n);
      && r.Ok? && |r.value| == height && Rectangular(r.value, width) && Heats(r.value)
      && !NeedsReset(r.value, width, height)
  {
    if n > 0 {
      TicksNeverReset(width, height, draws, n - 1);
      var g := Steps(CreateGrid(width, height), draws, n - 1).value;
      StepKeepsShape(g, draws(n - 1), width);
    }
  }

  // ---------------------------------------------------------------------------------------
  // Text

  /** The shade blocks for heat 0 to 4, coolest first. */
  const Shades: string := " \U{2591}\U{2592}\U{2593}\U{2588}"

  /** The `switch` of the text: heat 0 to 4 becomes its shade; any other value falls out of
      the switch as `undefined`, which `join` writes as nothing. */
  function Glyph(cell: int): (r: string)
    ensures 0 <= cell <= 4 ==> r == [Shades[cell]]
    ensures !(0 <= cell <= 4) ==> r == ""
  {
    if cell == 0 then " "
    else if cell == 1 then "\U{2591}"
    else if cell == 2 then "\U{2592}"
    else if cell == 3 then "\U{2593}"
    else if cell == 4 then "\U{2588}"
    else ""
  }

  /** One row of text: the glyphs of the cells, joined. */
  function TextRow(row: seq<int>): string
  {
    Concat(seq(|row|, x requires 0 <= x < |row| => Glyph(row[x])))
  }

  /** The component's `text`: one line per row of the grid. */
  function Text(grid: Grid): (r: seq<string>)
    ensures |r| == |grid|
  {
    seq(|grid|, y requires 0 <= y < |grid| => TextRow(grid[y]))
  }

  /** The number of cells of a row that are drawable heat values. */
  function DrawnCount(row: seq<int>): nat
  {
    if row == [] then 0 else (if 0 <= row[0] <= 4 then 1 else 0) + DrawnCount(row[1..])
  }

  /** A row's text joins the glyphs of its first cell and of the rest. */
  lemma TextRowCons(row: seq<int>)
    requires row != []
    ensures TextRow(row) == Glyph(row[0]) + TextRow(row[1..])
  {
    var parts := seq(|row|, x requires 0 <= x < |row| => Glyph(row[x]));
    assert parts[1..] == seq(|row[1..]|, x requires 0 <= x < |row[1..]| => Glyph(row[1..][x]));
  }

  /** A row's text has one character per drawable cell: other values leave no trace. */
  lemma {:induction false} TextRowLength(row: seq<int>)
    ensures |TextRow(row)| == DrawnCount(row)
  {
    if row != [] {
      TextRowCons(row);
      TextRowLength(row[1..]);
    }
  }

  /** When every cell is drawable, character `x` of a row's text is the shade of cell `x`. */
  lemma {:induction false} TextRowShades(row: seq<int>)
    requires forall x :: 0 <= x < |row| ==> 0 <= row[x] <= 4
    ensures |TextRow(row)| == |row|
    ensures forall x :: 0 <= x < |row| ==> TextRow(row)[x] == Shades[row[x]]
  {
    if row != [] {
      TextRowCons(row);
      TextRowShades(row[1..]);
      forall x | 0 <= x < |row|
        ensures TextRow(row)[x] == Shades[row[x]]
      {
        if x > 0 {
          assert TextRow(row)[x] == TextRow(row[1..])[x - 1];
        }
      }
    }
  }

  /** The text of a rectangular grid of drawable cells fills the component's rectangle:
      one line per row, one character per column, each the shade of its cell. */
  lemma TextFills(grid: Grid, width: int)
    requires Rectangular(grid, width) && Heats(grid)
    ensures forall y :: 0 <= y < |grid| ==>
      (|Text(grid)[y]| == width && forall x :: 0 <= x < width ==> Text(grid)[y][x] == Shades[grid[y][x]])
  {
    forall y | 0 <= y < |grid|
      ensures |Text(grid)[y]| == width
      ensures forall x :: 0 <= x < width ==> Text(grid)[y][x] == Shades[grid[y][x]]
    {
      TextRowShades(grid[y]);
    }
  }

  // ---------------------------------------------------------------------------------------
  // Colours

  /** The colour of a heat value; 0 and any other value get none. */
  function HeatColor(cell: int): (r: Option<string>)
    ensures r.Some? <==> 1 <= cell <= 4
  {
    if cell == 1 then Some("red")
    else if cell == 2 then Some("orange")
    else if cell == 3 then Some("yellow")
    else if cell == 4 then Some("white")
    else None
  }

  /** The one-cell span of cell `x` of row `y`, moved by `setColor`. */
  function CellSpan(y: int, x: int, cell: int, dx: int, dy: int): Interval
  {
    SetColor(Interval(y, x, HeatColor(cell), None, None, Some(1)), dx, dy)
  }

  /** The spans of the first `n` cells of row `y`, in column order, with the cells that
      have no colour filtered out. */
  function RowColors(row: seq<int>, y: int, n: nat, dx: int, dy: int): (r: seq<Interval>)
    requires n <= |row|
    ensures |r| <= n
  {
    if n == 0 then []
    else
      var own := if HeatColor(row[n - 1]).Some? then [CellSpan(y, n - 1, row[n - 1], dx, dy)] else [];
      RowColors(row, y, n - 1, dx, dy) + own
  }

  /** Strictly ascending by row, then by start column: no span occurs twice. */
  predicate Ascending(s: seq<Interval>)
  {
    forall i, j :: 0 <= i < j < |s| ==> s[i].y < s[j].y || (s[i].y == s[j].y && s[i].start < s[j].start)
  }

  /** A row's spans lie on the translated row, left of the translated column `n`, in
      strictly increasing column order. */
  lemma {:induction false} RowColorsAscending(row: seq<int>, y: int, n: nat, dx: int, dy: int)
    requires n <= |row|
    ensures var r := RowColors(row, y, n, dx, dy);
      Ascending(r) && forall k :: 0 <= k < |r| ==> r[k].y == y + dy && r[k].start < n + dx
  {
    if n > 0 {
      RowColorsAscending(row, y, n - 1, dx, dy);
    }
  }

  /** The spans of the first `m` rows lie above the translated row `m`, ascending. */
  lemma {:induction false} ColorsUpToAscending(grid: Grid, dx: int, dy: int, m: nat)
    requires m <= |grid|
    ensures var s := Flatten(seq(m, y requires 0 <= y < m => RowColors(grid[y], y, |grid[y]|, dx, dy)));
      Ascending(s) && forall k :: 0 <= k < |s| ==> s[k].y < m + dy
  {
    if m > 0 {
      var ss := seq(m - 1, y requires 0 <= y < m - 1 => RowColors(grid[y], y, |grid[y]|, dx, dy));
      var last := RowColors(grid[m - 1], m - 1, |grid[m - 1]|, dx, dy);
      assert seq(m, y requires 0 <= y < m => RowColors(grid[y], y, |grid[y]|, dx, dy)) == ss + [last];
      FlattenSnoc(ss, last);
      ColorsUpToAscending(grid, dx, dy, m - 1);
      RowColorsAscending(grid[m - 1], m - 1, |grid[m - 1]|, dx, dy);
    }
  }

  /** The component's `colors`: the spans of every row, top row first. They come out in
      row and column order, each cell's at most once; with `ColorsPaint`, every coloured
      cell has exactly one span. */
  function Colors(grid: Grid, dx: int, dy: int): (r: seq<Interval>)
    ensures Ascending(r)
  {
    ColorsUpToAscending(grid, dx, dy, |grid|);
    Flatten(seq(|grid|, y requires 0 <= y < |grid| => RowColors(grid[y], y, |grid[y]|, dx, dy)))
  }

  /** A row's spans are exactly the spans of its coloured cells. */
  lemma {:induction false} RowColorsMember(row: seq<int>, y: int, n: nat, dx: int, dy: int, iv: Interval)
    requires n <= |row|
    ensures iv in RowColors(row, y, n, dx, dy)
      <==> exists x :: 0 <= x < n && HeatColor(row[x]).Some? && iv == CellSpan(y, x, row[x], dx, dy)
  {
    if n > 0 {
      RowColorsMember(row, y, n - 1, dx, dy, iv);
    }
  }

  /** A cell span paints its own cell, in its heat's colour, and no other cell. */
  lemma CellSpanPaints(y: int, x: int, cell: int, dx: int, dy: int,
      y': int, x': int, fg: Option<string>, bg: Option<string>)
    ensures Paints(CellSpan(y, x, cell, dx, dy), y' + dy, x' + dx, fg, bg)
      <==> y' == y && x' == x && fg == HeatColor(cell) && bg == None
  {
  }

  /** The spans, translated by the context's offset, paint the translated cell `(y, x)`
      exactly when it has a heat colour, and then in that colour with no background. */
  lemma ColorsPaint(grid: Grid, dx: int, dy: int, y: int, x: int, fg: Option<string>, bg: Option<string>)
    requires 0 <= y < |grid| && 0 <= x < |grid[y]|
    ensures Painted(Colors(grid, dx, dy), y + dy, x + dx, fg, bg)
      <==> HeatColor(grid[y][x]).Some? && fg == HeatColor(grid[y][x]) && bg == None
  {
    var ss := seq(|grid|, y' requires 0 <= y' < |grid| => RowColors(grid[y'], y', |grid[y']|, dx, dy));
    var colors := Colors(grid, dx, dy);
    if Painted(colors, y + dy, x + dx, fg, bg) {
      var iv :| iv in colors && Paints(iv, y + dy, x + dx, fg, bg);
      FlattenMember(ss, iv);
      var i :| 0 <= i < |ss| && iv in ss[i];
      RowColorsMember(grid[i], i, |grid[i]|, dx, dy, iv);
      var x' :| 0 <= x' < |grid[i]| && HeatColor(grid[i][x']).Some?
        && iv == CellSpan(i, x', grid[i][x'], dx, dy);
      CellSpanPaints(i, x', grid[i][x'], dx, dy, y, x, fg, bg);
    }
    if HeatColor(grid[y][x]).Some? && fg == HeatColor(grid[y][x]) && bg == None {
      var iv := CellSpan(y, x, grid[y][x], dx, dy);
      RowColorsMember(grid[y], y, |grid[y]|, dx, dy, iv);
      assert iv in ss[y];
      FlattenMember(ss, iv);
      CellSpanPaints(y, x, grid[y][x], dx, dy, y, x, fg, bg);
    }
  }

  // ---------------------------------------------------------------------------------------
  // The component

  /** The timer callback `grid.update(step)`: the store is set to the stepped grid, which
      notifies its listeners; on an empty grid `step` throws before anything is set. */
  method Tick(store: Writable<Grid>, draws: (nat, nat) -> bool) returns (r: Result<Grid>)
    modifies store
    ensures r == Step(old(store.value), draws)
    ensures r.Ok? ==> store.State() == SetS(old(store.State()), r.value)
    ensures r.Err? ==> unchanged(store)
  {
    var grid := store.Get();
    r := Step(grid, draws);
    if r.Ok? {
      store.Set(r.value);
    }
  }

  /** `Fire(context)` up to its timer: it takes the next store slot (a fresh grid the first
      time), reads the grid, resets the store when the grid does not fit the component, and
      draws the grid it read, so a reset shows from the next render on. */
  method Render(ctx: Ctx<Grid>) returns (text: seq<string>, colors: seq<Interval>)
    requires ctx.node.Valid() && ctx.width >= 0 && ctx.height >= 0
    modifies ctx.node, set s | s in ctx.node.stores
    ensures ctx.node.Valid() && ctx.node.children == old(ctx.node.children)
    ensures ctx.node.curIndex == old(ctx.node.curIndex) + 1
    ensures |old(ctx.node.stores)| <= |ctx.node.stores|
      && ctx.node.stores[..|old(ctx.node.stores)|] == old(ctx.node.stores)
    ensures
      var slot := old(ctx.node.curIndex);
      var shown :=
        if slot < |old(ctx.node.stores)| then old(ctx.node.stores[ctx.node.curIndex].value)
        else CreateGrid(ctx.width, ctx.height);
      && text == Text(shown)
      && colors == Colors(shown, ctx.dx, ctx.dy)
      && slot < |ctx.node.stores|
      && ctx.node.stores[slot].value
        == (if NeedsReset(shown, ctx.width, ctx.height) then CreateGrid(ctx.width, ctx.height) else shown)
    ensures old(ctx.node.curIndex) < |old(ctx.node.stores)|
      && !NeedsReset(old(ctx.node.stores[ctx.node.curIndex].value), ctx.width, ctx.height)
      ==> unchanged(old(ctx.node.stores[ctx.node.curIndex]))
    ensures
      var slot := old(ctx.node.curIndex);
      var before :=
        if slot < |old(ctx.node.stores)| then old(ctx.node.stores[ctx.node.curIndex].State())
        else SubscribeS(Initial(CreateGrid(ctx.width, ctx.height), NoStart)).0;
      && slot < |ctx.node.stores|
      && ctx.node.stores[slot].State()
        == (if NeedsReset(before.value, ctx.width, ctx.height) then SetS(before, CreateGrid(ctx.width, ctx.height))
            else before)
    ensures forall k ::
      0 <= k < |old(ctx.node.stores)| && ctx.node.stores[k] != ctx.node.stores[old(ctx.node.curIndex)]
      ==> unchanged(ctx.node.stores[k])
  {
    var store := ctx.UseStore(CreateGrid(ctx.width, ctx.height));
    var shown := store.Get();
    if NeedsReset(shown, ctx.width, ctx.height) {
      store.Set(CreateGrid(ctx.width, ctx.height));
    }
    text := Text(shown);
    colors := Colors(shown, ctx.dx, ctx.dy);
  }
}
