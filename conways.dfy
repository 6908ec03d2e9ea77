/** The Game of Life of the test page: a grid is a sequence of columns of cells, `step`
    applies a born/survive rule to every cell, and `parseRule` reads rules such as "B3/S23". */
module Conways {
  import opened Wrappers
  import opened Js

  /** A grid as the code indexes it: `grid[x][y]`, column `x`, row `y`. */
  type Grid = seq<seq<bool>>

  datatype Rule = Rule(born: seq<int>, survive: seq<int>)

  datatype Dims = Dims(cols: nat, rows: nat)

  /** Every column has `rows` cells. */
  predicate Rectangular(grid: Grid, rows: nat)
  {
    forall x :: 0 <= x < |grid| ==> |grid[x]| == rows
  }

  /** `dimensions(grid)`: the number of columns, and the length of the first column (0 for a
      grid without columns). */
  function Dimensions(grid: Grid): (d: Dims)
    ensures d.cols == |grid|
    ensures grid != [] ==> d.rows == |grid[0]|
    ensures grid == [] ==> d.rows == 0
  {
    Dims(|grid|, if grid == [] then 0 else |grid[0]|)
  }

  /** On a rectangular grid the dimensions cover exactly its cells: `(x, y)` is a cell
      precisely when `x < cols` and `y < rows`. */
  lemma DimensionsCoverCells(grid: Grid, rows: nat, x: nat, y: nat)
    requires grid != [] && Rectangular(grid, rows)
    ensures var d := Dimensions(grid);
      d.rows == rows && (x < d.cols && y < d.rows <==> x < |grid| && y < |grid[x]|)
  {
  }

  /** The eight neighbour offsets, in the order the code sums them. */
  const Offsets: seq<(int, int)> := [(1, 1), (1, 0), (1, -1), (0, 1), (0, -1), (-1, 1), (-1, 0), (-1, -1)]

  /** Whether the neighbour at `(x, y)` counts. With `wrap`, the cell is
      `grid.at(x % cols).at(y % rows)`: JavaScript's `%` keeps the sign of `x`, and `at` counts
      a negative index from the end (a `rows` of 0 gives `NaN`, which `at` reads as 0).
      Without `wrap` it is `grid[x]?.[y]`, and a cell outside the grid counts as dead. */
  function Alive(grid: Grid, x: int, y: int, wrap: bool): (b: bool)
    requires wrap ==> grid != []
    ensures !wrap ==> (b <==> 0 <= x < |grid| && 0 <= y < |grid[x]| && grid[x][y])
  {
    var d := Dimensions(grid);
    if wrap then
      var col := At(grid, Rem(x, d.cols)).value;
      At(col, if d.rows == 0 then 0 else Rem(y, d.rows)) == Some(true)
    else 0 <= x < |grid| && 0 <= y < |grid[x]| && grid[x][y]
  }

  /** The live neighbours among the offsets `offs` of `(x, y)`. */
  function CountAt(grid: Grid, x: int, y: int, wrap: bool, offs: seq<(int, int)>): (n: nat)
    requires wrap ==> grid != []
    ensures n <= |offs|
  {
    if offs == [] then 0
    else (if Alive(grid, x + offs[0].0, y + offs[0].1, wrap) then 1 else 0) + CountAt(grid, x, y, wrap, offs[1..])
  }

  /** `countNeighbours(grid, x, y, wrap)`: the live cells among the eight neighbours. The
      code only calls it from `step`, which never visits a cell of an empty grid. `wrap`
      defaults to true in the code; here every caller passes it explicitly. */
  function CountNeighbours(grid: Grid, x: int, y: int, wrap: bool): (n: nat)
    requires wrap ==> grid != []
    ensures n <= 8
  {
    CountAt(grid, x, y, wrap, Offsets)
  }

  /** The next state of one cell. */
  function NextCell(cell: bool, n: int, rule: Rule): bool
  {
    if n in rule.born then true else if n in rule.survive then cell else false
  }

  /** `step(grid, rule, wrap)`: every cell of every column, by the rule. `wrap` defaults to
      true in the code, so `step(grid, rule)` is `Step(grid, rule, true)`. */
  function Step(grid: Grid, rule: Rule, wrap: bool): (r: Grid)
    ensures |r| == |grid|
    ensures forall x :: 0 <= x < |grid| ==> |r[x]| == |grid[x]|
  {
    seq(|grid|, x requires 0 <= x < |grid| =>
      seq(|grid[x]|, y requires 0 <= y < |grid[x]| =>
        NextCell(grid[x][y], CountNeighbours(grid, x, y, wrap), rule)))
  }

  /** A cell is alive after a step exactly when its count is in `born`, or it was alive and
      its count is in `survive`. */
  lemma StepCell(grid: Grid, rule: Rule, wrap: bool, x: nat, y: nat)
    requires x < |grid| && y < |grid[x]|
    ensures Step(grid, rule, wrap)[x][y] <==>
      var n := CountNeighbours(grid, x, y, wrap);
      n in rule.born || (n in rule.survive && grid[x][y])
  {
  }

  /** `at` after JavaScript's `%` reaches the same element as Euclidean `%`: an index of -1
      reaches the last element, and one of `|s|` the first. */
  lemma AtRem<T>(s: seq<T>, a: int)
    requires |s| > 0
    ensures At(s, Rem(a, |s|)) == Some(s[a % |s|])
  {
    if a < 0 {
      NegMod(-a, |s|);
    }
  }

  /** Euclidean `%` of a negative number, from the remainder of its absolute value. */
  lemma NegMod(b: int, n: int)
    requires b > 0 && n > 0
    ensures (-b) % n == if b % n == 0 then 0 else n - b % n
  {
    var q, m := b / n, b % n;
    assert b == n * q + m;
    if m == 0 {
      assert -b == n * -q by {
        assert n * -q == -(n * q);
      }
      ModUnique(-b, n, -q, 0);
    } else {
      assert -b == n * (-q - 1) + (n - m) by {
        assert n * (-q - 1) == -(n * q) - n;
      }
      ModUnique(-b, n, -q - 1, n - m);
    }
  }

  /** Euclidean `%` is determined by any quotient-remainder pair. */
  lemma ModUnique(a: int, n: int, q: int, r: int)
    requires n > 0 && 0 <= r < n && a == n * q + r
    ensures a % n == r
  {
    var q', r' := a / n, a % n;
    assert n * q' + r' == n * q + r;
    assert n * (q - q') == r' - r;
    if q - q' >= 1 {
      assert false;
    } else if q - q' <= -1 {
      assert false;
    }
  }

  /** On a rectangular grid with at least one row, wrap-around neighbours are those of a
      torus, indexed with Euclidean `%`. */
  lemma WrapIsTorus(grid: Grid, rows: nat, x: int, y: int)
    requires grid != [] && rows > 0 && Rectangular(grid, rows)
    ensures Alive(grid, x, y, true) == grid[x % |grid|][y % rows]
  {
    AtRem(grid, x);
    AtRem(grid[x % |grid|], y);
  }

  /** An all-dead grid has no live neighbour anywhere. */
  lemma {:induction false} DeadCount(grid: Grid, x: int, y: int, wrap: bool, offs: seq<(int, int)>)
    requires wrap ==> grid != []
    requires forall i, j :: 0 <= i < |grid| && 0 <= j < |grid[i]| ==> !grid[i][j]
    ensures CountAt(grid, x, y, wrap, offs) == 0
  {
    if offs != [] {
      DeadCount(grid, x, y, wrap, offs[1..]);
      var a, b := x + offs[0].0, y + offs[0].1;
      if wrap {
        var d := Dimensions(grid);
        var col := At(grid, Rem(a, d.cols)).value;
        var k := if d.rows == 0 then 0 else Rem(b, d.rows);
        if At(col, k).Some? {
          var c :| c in grid && c == col;
          assert forall j :: 0 <= j < |col| ==> !col[j];
        }
      }
    }
  }

  /** Without a 0 in `born`, a dead grid stays dead. */
  lemma DeadGridStaysDead(grid: Grid, rule: Rule, wrap: bool)
    requires 0 !in rule.born
    requires forall i, j :: 0 <= i < |grid| && 0 <= j < |grid[i]| ==> !grid[i][j]
    ensures forall i, j :: 0 <= i < |grid| && 0 <= j < |grid[i]| ==> !Step(grid, rule, wrap)[i][j]
  {
    forall i, j | 0 <= i < |grid| && 0 <= j < |grid[i]| ensures !Step(grid, rule, wrap)[i][j] {
      DeadCount(grid, i, j, wrap, Offsets);
    }
  }

  // ---------------------------------------------------------------------------------------
  // parseRule

  /** The class `[B|b|S|s]`, which also admits `|`. */
  predicate IsRuleLetter(c: char)
  {
    c == 'B' || c == '|' || c == 'b' || c == 'S' || c == 's'
  }

  /** `\d` without the unicode flag, and the characters `parseInt(c, 10)` reads as a number. */
  predicate IsDigit(c: char)
  {
    '0' <= c <= '9'
  }

  predicate AllDigits(s: string)
  {
    forall k :: 0 <= k < |s| ==> IsDigit(s[k])
  }

  /** `c.toLowerCase() == "b"` */
  predicate SelectsBorn(c: char)
  {
    c == 'b' || c == 'B'
  }

  /** `s` has the shape `^[B|b|S|s]\d+\/?[B|b|S|s]\d+$` with the first digit run `s[1..i]` and
      the second letter at `j`. */
  predicate ShapeAt(s: string, i: int, j: int)
  {
    && 2 <= i <= j < |s| - 1
    && IsRuleLetter(s[0]) && AllDigits(s[1..i])
    && (j == i || (j == i + 1 && s[i] == '/'))
    && IsRuleLetter(s[j]) && AllDigits(s[j + 1..])
  }

  ghost predicate RegexMatches(s: string)
  {
    exists i, j :: ShapeAt(s, i, j)
  }

  /** The length of the run of digits `s` starts with. */
  function LeadingDigits(s: string): (n: nat)
    ensures n <= |s| && AllDigits(s[..n]) && (n < |s| ==> !IsDigit(s[n]))
  {
    if s == [] || !IsDigit(s[0]) then 0
    else
      var n := 1 + LeadingDigits(s[1..]);
      assert s[..n] == [s[0]] + s[1..][..n - 1];
      n
  }

  /** The regular-expression test, decided by reading the digit runs greedily; a digit run
      always ends at a character that is not a digit, so there is no other way to match. */
  function CheckRule(s: string): (b: bool)
    ensures b <==> RegexMatches(s)
  {
    if s == [] then false
    else
      var i := 1 + LeadingDigits(s[1..]);
      var j := if i < |s| && s[i] == '/' then i + 1 else i;
      if ShapeAt(s, i, j) then true
      else
        assert !RegexMatches(s) by {
          forall i', j' | ShapeAt(s, i', j') ensures false {
          }
        }
        false
  }

  /** The numbers the parsing loop pushes, one per digit. */
  function Digits(s: string): (r: seq<int>)
    requires AllDigits(s)
    ensures |r| == |s|
    ensures forall k :: 0 <= k < |s| ==> r[k] == s[k] as int - '0' as int
  {
    if s == [] then [] else [s[0] as int - '0' as int] + Digits(s[1..])
  }

  /** `cur.push(n)` with `cur` selecting `born` or `survive`. */
  function Push(acc: Rule, toBorn: bool, ns: seq<int>): Rule
  {
    if toBorn then acc.(born := acc.born + ns) else acc.(survive := acc.survive + ns)
  }

  /** The loop over the characters after the first: `/` is skipped, a digit is pushed onto
      the current list, and any other character selects the list by its lower case. */
  function Collect(cs: string, toBorn: bool, acc: Rule): (r: Rule)
    ensures |acc.born| <= |r.born| && r.born[..|acc.born|] == acc.born
    ensures |acc.survive| <= |r.survive| && r.survive[..|acc.survive|] == acc.survive
    ensures |r.born| + |r.survive| <= |acc.born| + |acc.survive| + |cs|
  {
    if cs == [] then acc
    else if cs[0] == '/' then Collect(cs[1..], toBorn, acc)
    else if IsDigit(cs[0]) then Collect(cs[1..], toBorn, Push(acc, toBorn, [cs[0] as int - '0' as int]))
    else Collect(cs[1..], SelectsBorn(cs[0]), acc)
  }

  lemma PushAppend(acc: Rule, toBorn: bool, xs: seq<int>, ys: seq<int>)
    ensures Push(Push(acc, toBorn, xs), toBorn, ys) == Push(acc, toBorn, xs + ys)
  {
    assert acc.born + xs + ys == acc.born + (xs + ys);
    assert acc.survive + xs + ys == acc.survive + (xs + ys);
  }

  lemma {:induction false} CollectDigits(d: string, rest: string, toBorn: bool, acc: Rule)
    requires AllDigits(d)
    ensures Collect(d + rest, toBorn, acc) == Collect(rest, toBorn, Push(acc, toBorn, Digits(d)))
  {
    if d == [] {
      assert d + rest == rest;
      assert acc.born + [] == acc.born && acc.survive + [] == acc.survive;
    } else {
      var n := d[0] as int - '0' as int;
      assert (d + rest)[0] == d[0] && IsDigit(d[0]);
      assert (d + rest)[1..] == d[1..] + rest;
      CollectDigit(d + rest, toBorn, acc);
      CollectDigits(d[1..], rest, toBorn, Push(acc, toBorn, [n]));
      PushAppend(acc, toBorn, [n], Digits(d[1..]));
      assert Digits(d) == [n] + Digits(d[1..]);
    }
  }

  /** A rule of the accepted shape gives each digit run, digit by digit and in order, to the
      list its letter selects: `b`/`B` selects `born`, any other letter `survive`. */
  lemma ParsedLists(s: string, i: int, j: int)
    requires ShapeAt(s, i, j)
    ensures Collect(s[1..], SelectsBorn(s[0]), Rule([], []))
      == Push(Push(Rule([], []), SelectsBorn(s[0]), Digits(s[1..i])), SelectsBorn(s[j]), Digits(s[j + 1..]))
  {
    var first := Push(Rule([], []), SelectsBorn(s[0]), Digits(s[1..i]));
    assert s[1..] == s[1..i] + s[i..];
    CollectDigits(s[1..i], s[i..], SelectsBorn(s[0]), Rule([], []));
    if j == i + 1 {
      assert s[i..][1..] == s[j..];
      CollectSlash(s[i..], SelectsBorn(s[0]), first);
    }
    assert s[j..][0] == s[j] && s[j..][1..] == s[j + 1..];
    CollectLetter(s[j..], SelectsBorn(s[0]), first);
    assert s[j + 1..] + [] == s[j + 1..];
    CollectDigits(s[j + 1..], [], SelectsBorn(s[j]), first);
  }

  /** A digit is pushed onto the current list. */
  lemma CollectDigit(cs: string, toBorn: bool, acc: Rule)
    requires cs != [] && IsDigit(cs[0])
    ensures Collect(cs, toBorn, acc) == Collect(cs[1..], toBorn, Push(acc, toBorn, [cs[0] as int - '0' as int]))
  {
  }

  /** A `/` is skipped. */
  lemma CollectSlash(cs: string, toBorn: bool, acc: Rule)
    requires cs != [] && cs[0] == '/'
    ensures Collect(cs, toBorn, acc) == Collect(cs[1..], toBorn, acc)
  {
  }

  /** A rule letter selects the list the following digits go to. */
  lemma CollectLetter(cs: string, toBorn: bool, acc: Rule)
    requires cs != [] && IsRuleLetter(cs[0])
    ensures Collect(cs, toBorn, acc) == Collect(cs[1..], SelectsBorn(cs[0]), acc)
  {
  }

  /** "B3/S23", Conway's own rule. */
  lemma ConwayRule()
    ensures CheckRule("B3/S23")
    ensures Collect("3/S23", true, Rule([], [])) == Rule([3], [2, 3])
  {
    ConwayRuleAccepted();
    ConwayRuleLists();
  }

  lemma ConwayRuleAccepted()
    ensures CheckRule("B3/S23")
  {
    var s := "B3/S23";
    assert s[1..2] == "3" && s[4..] == "23";
    assert ShapeAt(s, 2, 3);
  }

  lemma ConwayRuleLists()
    ensures Collect("3/S23", true, Rule([], [])) == Rule([3], [2, 3])
  {
    var cs := "3/S23";
    var c1, c2, c3, c4 := cs[1..], cs[2..], cs[3..], cs[4..];
    assert cs[0] == '3' && c1 == "/S23" && c2 == "S23" && c3 == "23" && c4 == "3";
    assert c1[1..] == c2 && c2[1..] == c3 && c3[1..] == c4 && c4[1..] == [];
    CollectDigit(cs, true, Rule([], []));
    assert Push(Rule([], []), true, [3]) == Rule([3], []);
    CollectSlash(c1, true, Rule([3], []));
    CollectLetter(c2, true, Rule([3], []));
    assert !SelectsBorn('S');
    CollectDigit(c3, false, Rule([3], []));
    assert Push(Rule([3], []), false, [2]) == Rule([3], [2]);
    CollectDigit(c4, false, Rule([3], [2]));
    assert Push(Rule([3], [2]), false, [3]) == Rule([3], [2, 3]);
  }

  /** `parseRule(str)`: `None` (the code's `undefined`) unless the trimmed string has the
      accepted shape; otherwise the lists the character loop fills. */
  method ParseRule(str: string) returns (r: Option<Rule>)
    ensures r.None? <==> !RegexMatches(Trim(str))
    ensures r.Some? ==> r.value == Collect(Trim(str)[1..], SelectsBorn(Trim(str)[0]), Rule([], []))
  {
    var s := Trim(str);
    if !CheckRule(s) {
      return None;
    }
    var rule := CollectRule(s[1..], SelectsBorn(s[0]));
    return Some(rule);
  }

  /** The character loop of `parseRule`, starting from two empty lists. */
  method CollectRule(chars: string, selectsBorn: bool) returns (r: Rule)
    ensures r == Collect(chars, selectsBorn, Rule([], []))
  {
    var born: seq<int> := [];
    var survive: seq<int> := [];
    var toBorn := selectsBorn;
    var k := 0;
    while k < |chars|
      invariant 0 <= k <= |chars|
      invariant Collect(chars[k..], toBorn, Rule(born, survive)) == Collect(chars, selectsBorn, Rule([], []))
    {
      var c := chars[k];
      assert chars[k..][0] == c && chars[k..][1..] == chars[k + 1..];
      if c == '/' {
      } else if IsDigit(c) {
        var n := c as int - '0' as int;
        assert Collect(chars[k..], toBorn, Rule(born, survive))
          == Collect(chars[k + 1..], toBorn, Push(Rule(born, survive), toBorn, [n]));
        if toBorn {
          born := born + [n];
        } else {
          survive := survive + [n];
        }
      } else {
        toBorn := SelectsBorn(c);
      }
      k := k + 1;
    }
    assert chars[k..] == [];
    return Rule(born, survive);
  }
}
