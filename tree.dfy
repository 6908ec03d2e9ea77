/** What a component returns, and the colour spans it emits (`RenderedComponent`,
    `ChildComponent` and `ColorInterval` of the engine). */
module Tree {
  import opened Wrappers

  /** A colour span on row `y` from column `start`. Either `end` (an inclusive column) or
      `length` says where it stops; `fg` and `bg` name palette slots. */
  datatype Interval = Interval(
    y: int,
    start: int,
    fg: Option<string>,
    bg: Option<string>,
    end: Option<int>,
    length: Option<int>)

  /** The inclusive last column of a span, as the engine computes it:
      `end ?? start + (length ?? 0) - 1`. An `end` of 0 counts here (`??` only skips an
      absent value). */
  function EndIndex(iv: Interval): int
  {
    if iv.end.Some? then iv.end.value
    else iv.start + (if iv.length.Some? then iv.length.value else 0) - 1
  }

  /** Identity of an `onDestroy` hook: running a hook is recorded by its id. */
  type HookId = nat

  /** A component's output. `text` is an array because compositing overwrites the rows of
      the root's own array; an absent `children` or `colors` is the empty sequence. */
  datatype Rendered = Rendered(
    text: array<string>,
    children: seq<Child>,
    colors: seq<Interval>,
    onDestroy: Option<HookId>)

  /** A child placement: the child's output and its position in the parent's rows. */
  datatype Child = Child(x: int, y: int, component: Rendered)
}
