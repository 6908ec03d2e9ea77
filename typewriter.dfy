/** The line layout of the `Typewriter` test component: the stored text plus a blinking
    cursor, split into paragraphs at `\n`, each paragraph cut into `width`-wide lines, the
    whole cut to `height` lines and padded with blank lines. */
module Typewriter {
  import opened Wrappers
  import opened Js
  import opened Utils

  /** The full block shown while the cursor is on. */
  const CursorGlyph: char := '\U{2588}'

  /** The text as displayed: the stored text followed by the cursor glyph when the blinker
      is on, and by a space when it is off. */
  function Displayed(text: string, blink: bool): (r: string)
    ensures |r| == |text| + 1 && r[..|text|] == text
    ensures r[|text|] == (if blink then CursorGlyph else ' ')
  {
    text + [if blink then CursorGlyph else ' ']
  }

  /** Character `j` of `q`, or the space `padEnd` supplies past its end. */
  function CharOrSpace(q: string, j: nat): char
  {
    if j < |q| then q[j] else ' '
  }

  /** The `w` characters of `q` from `a` on, with spaces past the end of `q`. */
  function Line(q: string, a: nat, w: nat): (r: string)
  {
    seq(w, i requires 0 <= i < w => CharOrSpace(q, a + i))
  }

  /** `q.slice(a, a + w).padEnd(w, " ")` is that line, for a non-negative `a`. */
  lemma PaddedSlice(q: string, a: nat, w: nat)
    ensures PadEnd(Slice(q, a, a + w), w) == Line(q, a, w)
  {
    var cut := Slice(q, a, a + w);
    var n := if a >= |q| then 0 else if a + w <= |q| then w else |q| - a;
    assert |cut| == n && forall i :: 0 <= i < n ==> cut[i] == q[a + i];
    var r := PadEnd(cut, w);
    assert |r| == w;
    assert forall i :: 0 <= i < w ==> r[i] == CharOrSpace(q, a + i);
  }

  /** `(k+1)·w` is `k·w + w`. */
  lemma MulSucc(k: int, w: int)
    ensures (k + 1) * w == k * w + w
  {
  }

  /** The `do … while` loop of one paragraph, from the state where the remaining text is
      `q` and the line counter `y` has reached `y·w == start`: the line pushed is
      `q.slice(start, start + w)` padded to `w`, then `q` loses its first `w` characters
      (`q.slice(w)`, empty once `|q| <= w`), and the loop goes on while `q` is not empty. */
  function ChunksFrom(q: string, start: nat, w: nat): (r: seq<string>)
    requires w > 0
    ensures |r| >= 1
    decreases |q|
  {
    var line := Line(q, start, w);
    if |q| > w then [line] + ChunksFrom(q[w..], start + w, w) else [line]
  }

  /** The lines of one paragraph. */
  function Chunks(p: string, w: nat): (r: seq<string>)
    requires w > 0
  {
    ChunksFrom(p, 0, w)
  }

  /** Every line of a paragraph has exactly `w` characters. */
  lemma {:induction false} ChunkWidths(q: string, start: nat, w: nat)
    requires w > 0
    ensures forall k :: 0 <= k < |ChunksFrom(q, start, w)| ==> |ChunksFrom(q, start, w)[k]| == w
    decreases |q|
  {
    if |q| > w {
      ChunkWidths(q[w..], start + w, w);
    }
  }

  /** A paragraph of `L` characters gives one line when `L <= w`, and otherwise `n` lines
      with `(n-1)·w < L <= n·w`: `max(1, ⌈L/w⌉)` lines. */
  lemma {:induction false} ChunkCount(q: string, start: nat, w: nat)
    requires w > 0
    ensures var n := |ChunksFrom(q, start, w)|;
      && (|q| <= w ==> n == 1)
      && (|q| > 0 ==> (n - 1) * w < |q| <= n * w)
    decreases |q|
  {
    if |q| > w {
      var rest := q[w..];
      ChunkCount(rest, start + w, w);
      var n' := |ChunksFrom(rest, start + w, w)|;
      assert |ChunksFrom(q, start, w)| == n' + 1;
      MulSucc(n', w);
      MulSucc(n' - 1, w);
    }
  }

  /** After the first line, the lines are those of the loop restarted on the text without
      its first `w` characters, with the window moved on by `w`. */
  lemma ChunkShift(q: string, start: nat, w: nat, k: nat)
    requires w > 0 && 0 < k < |ChunksFrom(q, start, w)|
    ensures |q| > w
    ensures k - 1 < |ChunksFrom(q[w..], start + w, w)|
    ensures ChunksFrom(q, start, w)[k] == ChunksFrom(q[w..], start + w, w)[k - 1]
  {
  }

  /** A line showing a suffix of `q` from `a` on shows `q` itself from `d + a` on. */
  lemma LineOfSuffix(q: string, d: nat, a: nat, line: string)
    requires d <= |q|
    requires forall i :: 0 <= i < |line| ==> line[i] == CharOrSpace(q[d..], a + i)
    ensures forall i :: 0 <= i < |line| ==> line[i] == CharOrSpace(q, d + a + i)
  {
  }

  /** `k·w` as `k` additions of `w`, which the line-by-line proofs step through. */
  function Times(k: nat, w: nat): nat
  {
    if k == 0 then 0 else Times(k - 1, w) + w
  }

  lemma {:induction false} TimesIsProduct(k: nat, w: nat)
    ensures Times(k, w) == k * w
  {
    if k > 0 {
      TimesIsProduct(k - 1, w);
      MulSucc(k - 1, w);
    }
  }

  /** Line `k` of the loop started at window `start` shows the characters of `q` from
      `start + 2·k·w` on: the loop both drops `w` characters per line and moves its window
      by `w` per line. */
  lemma {:induction false} ChunkChars(q: string, start: nat, w: nat, k: nat)
    requires w > 0
    requires k < |ChunksFrom(q, start, w)|
    ensures |ChunksFrom(q, start, w)[k]| == w
    ensures forall i :: 0 <= i < w ==>
      ChunksFrom(q, start, w)[k][i] == CharOrSpace(q, start + 2 * Times(k, w) + i)
    decreases k
  {
    if k == 0 {
      assert ChunksFrom(q, start, w)[0] == Line(q, start, w);
    } else {
      ChunkShift(q, start, w, k);
      var a := start + w + 2 * Times(k - 1, w);
      ChunkChars(q[w..], start + w, w, k - 1);
      LineOfSuffix(q, w, a, ChunksFrom(q[w..], start + w, w)[k - 1]);
      assert w + a == start + 2 * Times(k, w);
    }
  }

  /** Line `k` of a paragraph shows its characters `[2k·w, 2k·w + w)`, padded with spaces:
      the characters `[2k·w + w, 2k·w + 2w)` are never shown. */
  lemma ParagraphLine(p: string, w: nat, k: nat)
    requires w > 0 && k < |Chunks(p, w)|
    ensures |Chunks(p, w)[k]| == w
    ensures forall i :: 0 <= i < w ==> Chunks(p, w)[k][i] == CharOrSpace(p, 2 * (k * w) + i)
  {
    ChunkChars(p, 0, w, k);
    TimesIsProduct(k, w);
  }

  /** With width 2, "abcdef" is laid out as "ab", "ef" and a blank line: "cd" is skipped. */
  lemma AlternateChunksSkipped()
    ensures Chunks("abcdef", 2) == ["ab", "ef", "  "]
  {
    assert "abcdef"[2..] == "cdef" && "cdef"[2..] == "ef";
    assert Line("abcdef", 0, 2) == "ab";
    assert Line("cdef", 2, 2) == "ef";
    assert Line("ef", 4, 2) == "  ";
  }

  /** The lines of consecutive paragraphs, in paragraph order (`flatMap`). */
  function Wrapped(ps: seq<string>, w: nat): (r: seq<string>)
    requires w > 0
    ensures forall k :: 0 <= k < |r| ==> |r[k]| == w
  {
    if ps == [] then []
    else
      ChunkWidths(ps[|ps| - 1], 0, w);
      Wrapped(ps[..|ps| - 1], w) + Chunks(ps[|ps| - 1], w)
  }

  /** The paragraphs' lines are their chunks, flattened in order. */
  lemma {:induction false} WrappedIsFlatten(ps: seq<string>, w: nat)
    requires w > 0
    ensures Wrapped(ps, w) == Flatten(seq(|ps|, i requires 0 <= i < |ps| => Chunks(ps[i], w)))
  {
    var f := seq(|ps|, i requires 0 <= i < |ps| => Chunks(ps[i], w));
    if ps != [] {
      var ps' := ps[..|ps| - 1];
      WrappedIsFlatten(ps', w);
      var f' := seq(|ps'|, i requires 0 <= i < |ps'| => Chunks(ps'[i], w));
      assert f == f' + [Chunks(ps[|ps| - 1], w)];
      FlattenAppend(f', [Chunks(ps[|ps| - 1], w)]);
      assert Flatten([Chunks(ps[|ps| - 1], w)]) == Chunks(ps[|ps| - 1], w) + Flatten([]);
    }
  }

  /** A line of `width` spaces (`" ".repeat(width)`). */
  function Blank(width: nat): (r: string)
    ensures |r| == width && forall i :: 0 <= i < width ==> r[i] == ' '
  {
    Repeat(' ', width).value
  }

  /** The lines of the whole displayed text, before cutting to the height. */
  function AllLines(text: string, blink: bool, width: nat): seq<string>
    requires width > 0
  {
    Wrapped(Split(Displayed(text, blink), '\n'), width)
  }

  /** The screen: the first `height` lines (`slice(0, height)`, so a negative height drops
      that many lines from the end), then blank lines up to `height`. */
  function Screen(text: string, blink: bool, width: nat, height: int): seq<string>
    requires width > 0
  {
    var cut := Slice(AllLines(text, blink, width), 0, height);
    cut + seq(if height > |cut| then height - |cut| else 0, _ => Blank(width))
  }

  /** The screen has `height` lines of `width` characters: the first lines come from the
      text, in order, and the rest are blank. */
  lemma ScreenShape(text: string, blink: bool, width: nat, height: int)
    requires width > 0
    ensures var s := Screen(text, blink, width, height);
      var all := AllLines(text, blink, width);
      && (height >= 0 ==> |s| == height)
      && (height < 0 ==> |s| == if |all| + height < 0 then 0 else |all| + height)
      && (forall k :: 0 <= k < |s| ==> |s[k]| == width)
      && (forall k :: 0 <= k < |s| && k < |all| ==> s[k] == all[k])
      && (forall k :: |all| <= k < |s| ==> s[k] == Blank(width))
  {
  }

  /** One paragraph's `do … while` loop. */
  method WrapParagraph(p: string, width: nat) returns (lines: seq<string>)
    requires width > 0
    ensures lines == Chunks(p, width)
  {
    lines := [];
    var q := p;
    var y := 0;
    ghost var start: nat := 0;
    while true
      invariant start == y * width
      invariant lines + ChunksFrom(q, start, width) == Chunks(p, width)
      decreases |q|
    {
      MulSucc(y, width);
      var line := PadEnd(Slice(q, y * width, (y + 1) * width), width);
      PaddedSlice(q, start, width);
      var rest := SliceFrom(q, width);
      lines := lines + [line];
      if |rest| == 0 {
        return;
      }
      assert rest == q[width..];
      q := rest;
      y := y + 1;
      start := start + width;
    }
  }

  /** Lines 11-28 of `Typewriter`: the cursor is appended, the paragraphs are wrapped and
      flattened, the result is cut to `height` lines and blank lines are pushed until there
      are `height`. A width of 0 would make the paragraph loop run forever. */
  method Layout(text: string, blink: bool, width: nat, height: int) returns (lines: seq<string>)
    requires width > 0
    ensures lines == Screen(text, blink, width, height)
  {
    var paragraphs := Split(Displayed(text, blink), '\n');
    var all: seq<string> := [];
    for i := 0 to |paragraphs|
      invariant all == Wrapped(paragraphs[..i], width)
    {
      var chunk := WrapParagraph(paragraphs[i], width);
      assert paragraphs[..i + 1][..i] == paragraphs[..i];
      all := all + chunk;
    }
    assert paragraphs[..|paragraphs|] == paragraphs;
    lines := Slice(all, 0, height);
    ghost var cut := lines;
    var blank := Repeat(' ', width).value;
    while |lines| < height
      invariant |cut| <= |lines| && (|lines| == |cut| || |lines| <= height)
      invariant lines == cut + seq(|lines| - |cut|, _ => Blank(width))
      decreases height - |lines|
    {
      assert seq(|lines| + 1 - |cut|, _ => Blank(width)) == seq(|lines| - |cut|, _ => Blank(width)) + [blank];
      lines := lines + [blank];
    }
  }
}
