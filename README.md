# literal — a verified model of the text-mode UI engine

`literal` draws a user interface as a grid of characters. A component is a function of a
render context (`width`, `height`, `useStore`, `renderChild`, `setColor`). It returns a
rendered component: an array of text rows, the child components placed at `(x, y)` offsets,
colour spans, and an optional destroy hook. On every resize or store change, the engine
runs the following steps:

1. it re-invokes the root component, with state kept in a tree of state nodes;
2. it stamps the root's direct children into the root's rows;
3. it sorts and merges the colour spans;
4. it splices `<span class="literal-fg-… literal-bg-…">` / `</span>` markers into the rows.

Component state lives in a small Svelte-like store library (`writable`, `readable`,
`derived`, `subscribe`).

This project models, in Dafny:

- **the engine** (`packages/literal/src/main.ts`):
  - the compositor `render`, in place on the parent's text array (module `Compositor`);
  - `colorize`: an in-place stable insertion sort on an array of spans, the consolidation
    loop, and the marker splicing with JavaScript array-element semantics (module
    `ColorSpans`);
  - the per-render context (module `Context`): `setColor`, hook-style `useStore` over a
    `StateNode` class, `renderChild`, and the `rerender` guard with its destroy hooks and
    cursor reset. It is split into `Mount.BeginRender` (up to invoking the root) and
    `Mount.FinishRender` (compositing, colourising, joining).
- **the store library** (`packages/literal/src/reactive.ts`):
  - `writable` as a class whose state mirrors a pure `StoreState` that records every
    listener notification and every start/stop call in a trace;
  - `readable`;
  - `derived` in single form (`Derived`) and array form (`DerivedAll`), over writable
    dependencies whose notifications the caller forwards (see "Left out");
  - `subscribe` and `isReadable`/`isWritable` (module `Reactive`).
- **the utilities** (`packages/literal/src/utils.ts`): `arrayWith`, and `traverse` as the
  post-order sequence of visited nodes (module `Utils`).
- **the components**:
  - Game of Life (`conways.js`): `step`, `countNeighbours`, `dimensions` and `parseRule`
    (module `Conways`);
  - the Typewriter line layout (module `Typewriter`);
  - the Container and Border frames (module `Frames`);
  - the Fire simulation and its rendering (module `Fire`).
- **support modules**:
  - `Wrappers`: `Option`/`Result`, with the JavaScript exception kinds as the error type;
  - `Js`: the JavaScript built-ins the code relies on (`slice`, `repeat`, `padEnd`,
    `split`/`join`, `at`, `%`, `trim`);
  - `Tree`: the colour interval and rendered-component records.

Modelling choices:

- A JavaScript exception becomes an `Err` result, never a precondition. This covers:
  - `"x".repeat(-1)`;
  - `intervals[0].end` on an empty span list;
  - `first.length` on an empty Fire grid;
  - `traverse(…, false)`.
- Randomness (`Math.random() < 0.25` in Fire) becomes a supplied draw function.
- Component identity becomes an opaque `ComponentId`.
- The callback of `traverse` becomes the returned visit sequence.

The model follows the code as written; notably:

- Two consecutive spans merge when the first span's inclusive end index *equals* the next
  span's start (`main.ts:307`). A span ending one column before the next one starts stays
  separate (`ColorSpans.AdjacentSpansStaySeparate`). An overlapping pair merges
  (`ColorSpans.OverlappingSpansMerge`).
- An empty span list is not passed through unchanged. `intervals[0].end` throws a
  `TypeError` (`main.ts:301-302`), modelled as `Err(TypeError)`.
- `rerender` calls `onDestroy` on every node of the previous tree, post-order, on every
  pass (`main.ts:264`), and not only on components that disappeared.
- Only the root's direct children are stamped into the root's rows (`main.ts:285`).

## Model

| member | source | states |
|---|---|---|
| Js.RelIndex | packages/literal/testpage/Typewriter.ts:19 | a slice index is clamped into 0..len, and a negative index counts from the end |
| Js.Slice | packages/literal/testpage/Typewriter.ts:19 | `slice(start, end)` is the substring for in-range bounds, and empty when end ≤ start |
| Js.SliceFrom | packages/literal/testpage/Typewriter.ts:20 | `slice(start)` drops the first `start` characters, or all of them when start ≥ length |
| Js.Repeat | packages/literal/testpage/Container.ts:12-16 | `repeat(n)` throws RangeError exactly when n < 0, and otherwise gives n copies of the character |
| Js.PadEnd | packages/literal/testpage/Typewriter.ts:19 | `padEnd(w)` keeps the string as a prefix, pads with spaces up to w, and never shortens |
| Js.Split | packages/literal/src/main.ts:317 | splitting gives at least one piece, and no piece contains the separator |
| Js.Join | packages/literal/testpage/Typewriter.ts:13-14 | the inverse of `split` used for the round trip: the joined text starts with the first piece, is exactly that piece when there is only one, and continues with the separator when there are more |
| Js.JoinSplit | packages/literal/src/main.ts:317-327 | joining the split pieces with the same separator gives back the string |
| Js.SplitLength | packages/literal/testpage/Typewriter.ts:13-14 | splitting gives one more piece than there are separators |
| Js.Concat | packages/literal/src/main.ts:276 | joining no rows gives the empty string |
| Js.ConcatAppend | packages/literal/src/main.ts:276 | joining rows distributes over concatenation of the row lists |
| Js.At | packages/literal/testpage/conways.js:35 | `.at(k)` reads index k, or index length+k for negative k, and is undefined exactly outside −length..length−1 |
| Js.Rem | packages/literal/testpage/conways.js:35 | JavaScript `%` truncates: it agrees with the modulus for a ≥ 0, lies in (−b, 0] for a < 0, and is a itself for −b < a ≤ 0 |
| Js.Trim | packages/literal/testpage/conways.js:64 | `trim` returns a substring that neither starts nor ends with white space, and it removes only white space on either side |
| Js.TrimStart | packages/literal/testpage/conways.js:64 | removes exactly the leading white space |
| Js.TrimEnd | packages/literal/testpage/conways.js:64 | removes exactly the trailing white space |
| Utils.ArrayWith | packages/literal/src/utils.ts:3-7 | the array has length n, and element i is f(i) |
| Utils.Traverse | packages/literal/src/utils.ts:9-18 | a traversal visits at least one node, and the root is visited last |
| Utils.ChildVisits | packages/literal/src/utils.ts:14-16 | a traversal is the children's traversals in sibling order, followed by the node itself |
| Utils.TraverseWith | packages/literal/src/utils.ts:12-17 | the traversal fails exactly when `depthFirst` is false, and otherwise it is the post-order visit sequence |
| Utils.TraverseVisitsEveryNode | packages/literal/src/utils.ts:14-16 | the post-order visits are a permutation of the pre-order node list: every node is visited exactly once |
| Utils.SubtreeVisitedBeforeNode | packages/literal/src/utils.ts:14-16 | every visited node is immediately preceded by all of its own subtree's visits (post-order) |
| Utils.Flatten | packages/literal/testpage/Container.ts:34 | (no contract) `flat()`: the pieces concatenated in order; `FlattenAppend`, `FlattenMember` and `FlattenLocate` state its properties |
| Utils.FlattenMember | packages/literal/testpage/Container.ts:34 | an element is in a flattened list exactly when it is in one of the pieces |
| Utils.FlattenMultiset | packages/literal/testpage/Container.ts:34 | flattening pieces that are permutations of each other gives permutations |
| Reactive.Notifications | packages/literal/src/reactive.ts:49 | one notification per listener, in subscription order, each carrying the new value |
| Reactive.Without | packages/literal/src/reactive.ts:60 | the filtered list keeps exactly the other listeners, and the removed one is gone |
| Reactive.Initial | packages/literal/src/reactive.ts:42-45 | a fresh store holds the initial value, has no listeners and has notified nobody |
| Reactive.SubscribeS | packages/literal/src/reactive.ts:53-63 | subscribing hands out the next fresh token and appends it to the listeners, and only appends to the trace; the start callback runs (a `Started` event) exactly when the list was empty and a callback is given, its values go to every listener so the store ends holding the last of them, and `stop` becomes whether that activation returned a stop callback (otherwise it is kept) |
| Reactive.Enlist | packages/literal/src/reactive.ts:54-57 | the subscriber is called with the current value and appended under the next fresh token; the value is kept |
| Reactive.SetAll | packages/literal/src/reactive.ts:47-50 | a series of sets keeps the listeners, the token counter and the start and stop hooks, and leaves the last value set, or the old value when there is none |
| Reactive.SetAllOnlyNotifies | packages/literal/src/reactive.ts:47-50 | a series of sets only appends notifications to the trace: it neither starts nor stops the store |
| Reactive.SetAllSnoc | packages/literal/src/reactive.ts:47-50 | a series of sets followed by one more set is that set applied after the series |
| Reactive.SetKeepsWf | packages/literal/src/reactive.ts:47-50 | `set` preserves the store invariant |
| Reactive.SetAllKeepsWf | packages/literal/src/reactive.ts:47-50 | any series of sets preserves the store invariant |
| Reactive.EnlistKeepsWf | packages/literal/src/reactive.ts:54-58 | adding a subscriber, and then recording the start call, preserves the store invariant |
| Reactive.EnlistNotifies | packages/literal/src/reactive.ts:54-57 | the new subscriber has received exactly the current value, once |
| Reactive.AfterStart | packages/literal/src/reactive.ts:58 | (no contract) the value after a subscribe: the last value the start callback sets when this subscribe activates the store and the callback sets any, otherwise the old value |
| Reactive.UnsubscribeS | packages/literal/src/reactive.ts:59-62 | after unsubscribing, the token is no longer a listener, and the value is kept |
| Reactive.SetS | packages/literal/src/reactive.ts:47-50 | `set` stores the new value and keeps the listener list |
| Reactive.WithoutKeepsDistinct | packages/literal/src/reactive.ts:60 | filtering a duplicate-free listener list keeps it duplicate-free |
| Reactive.StoreOperationsKeepWf | packages/literal/src/reactive.ts:42-75 | subscribe, unsubscribe and set preserve the store invariant: listeners are distinct tokens already handed out, and only such tokens were ever notified |
| Reactive.ReceivedRound | packages/literal/src/reactive.ts:49 | one notification round delivers the value once to each listener, and nothing to others |
| Reactive.SubscribeNotifiesCurrentValue | packages/literal/src/reactive.ts:54-58 | a new subscriber receives the current value; when it is the first subscriber, it then receives every value the start callback sets, in order; it is appended after the existing listeners |
| Reactive.StartCallbackSetsReachFirstSubscriber | packages/literal/src/reactive.ts:53-58 | a store holding 0 whose start callback sets 1 delivers 0 and then 1 to its first subscriber, and ends holding 1 |
| Reactive.SetNotifiesEveryListenerOnce | packages/literal/src/reactive.ts:47-50 | each `set`, even to an unchanged value, adds exactly one delivery of the value for each current listener |
| Reactive.SubscriberSeesEverySet | packages/literal/src/reactive.ts:47-67 | a subscriber receives every value of a series of sets, in order, and the store ends holding the last one |
| Reactive.UnsubscribeRemovesOnlyItsEntry | packages/literal/src/reactive.ts:59-62 | unsubscribing removes only its own entry and keeps the others in order; stop runs exactly when the list becomes empty |
| Reactive.ActivationCycle | packages/literal/src/reactive.ts:53-62 | on an empty store, subscribing runs the start callback exactly when there is one, and the unsubscriber empties the list again and runs stop exactly when that activation returned one |
| Reactive.UnsubscribeTwiceStopsTwice | packages/literal/src/reactive.ts:59-62 | calling an unsubscriber twice runs the stop callback twice |
| Reactive.Writable.constructor | packages/literal/src/reactive.ts:42-45 | a new writable store is in the initial state |
| Reactive.Writable.Subscribe | packages/literal/src/reactive.ts:53-63 | the store's new state and token are those of `SubscribeS`: the subscriber is notified and appended, and on activation the start callback's values go through `Set`, each notifying every listener |
| Reactive.Writable.Unsubscribe | packages/literal/src/reactive.ts:59-62 | the store's new state is that of the unsubscribe operation |
| Reactive.Writable.Set | packages/literal/src/reactive.ts:47-50 | the store's new state is that of the set operation |
| Reactive.Writable.Update | packages/literal/src/reactive.ts:65-67 | `update(f)` is exactly `set(f(value))` |
| Reactive.Writable.Get | packages/literal/src/reactive.ts:68-73 | `get` returns the current value |
| Reactive.Readable.constructor | packages/literal/src/reactive.ts:27-28 | a readable store wraps a fresh writable holding the initial value and the start callback |
| Reactive.Readable.Subscribe | packages/literal/src/reactive.ts:30 | subscribing is the inner writable's subscribe, so the values the start callback sets reach the first subscriber |
| Reactive.Readable.Get | packages/literal/src/reactive.ts:31-34 | `get` and `value` return the inner store's value |
| Reactive.Derived.constructor | packages/literal/src/reactive.ts:103 | the single form subscribes once to its dependency; f is called with the dependency's value and then with each value the dependency's start callback sets on activation, and the store holds f of the dependency's final value |
| Reactive.Derived.OnDependency | packages/literal/src/reactive.ts:86-89 | every dependency notification recomputes f and notifies every listener with the result |
| Reactive.Derived.Subscribe | packages/literal/src/reactive.ts:106-108 | a subscriber is called at once with the current value and appended to the list |
| Reactive.Derived.Unsubscribe | packages/literal/src/reactive.ts:109-111 | unsubscribing filters out every entry equal to the listener and changes nothing else |
| Reactive.Derived.Get | packages/literal/src/reactive.ts:113-118 | `get` returns the last computed value |
| Reactive.Snapshots | packages/literal/src/reactive.ts:95-99 | the snapshots of the values array keep its length and start from the initial values |
| Reactive.SnapshotsAreLatest | packages/literal/src/reactive.ts:95-99 | each recomputation sees, for each dependency, its latest delivered value |
| Reactive.DerivedAll.constructor | packages/literal/src/reactive.ts:91-102 | the array form subscribes to each dependency without calling the combiner, then calls it exactly once on the values the dependencies hold after their start callbacks ran |
| Reactive.DerivedAll.OnDependency | packages/literal/src/reactive.ts:96-99 | a notification from dependency i replaces slot i, recomputes once over all the latest values and notifies every listener |
| Reactive.DerivedAll.Emit | packages/literal/src/reactive.ts:86-89 | emitting notifies every listener with the current value |
| Reactive.DerivedAll.Subscribe | packages/literal/src/reactive.ts:106-108 | a subscriber is called at once with the current value and appended to the list |
| Reactive.DerivedAll.Unsubscribe | packages/literal/src/reactive.ts:109-111 | unsubscribing filters out the listener and changes nothing else |
| Reactive.DerivedAll.Get | packages/literal/src/reactive.ts:113-118 | `get` returns the last computed value |
| Reactive.SubscribeAll | packages/literal/src/reactive.ts:122-128 | the listener is called once with the array of the dependencies' values, each taken after that dependency's start callback ran |
| Reactive.IsReadable | packages/literal/src/reactive.ts:18-25 | an object is readable exactly when it has `subscribe` and `get` and `get()` equals `value`; the `in` test throws on a primitive |
| Reactive.IsWritable | packages/literal/src/reactive.ts:38-40 | writable exactly when readable and it also has `set` and `update` |
| Reactive.WritableIsWritable | packages/literal/src/reactive.ts:38-75 | the object `writable` returns passes `isWritable` |
| Reactive.ReadableIsNotWritable | packages/literal/src/reactive.ts:27-40 | the object `readable` returns passes `isReadable` but not `isWritable` |
| Compositor.Splice | packages/literal/src/main.ts:290-291 | a child line that fits keeps the row's length, replaces exactly its columns and keeps the rest; past the end it appends |
| Compositor.NegativeOffsetDuplicates | packages/literal/src/main.ts:291 | a negative x makes `slice` count from the end, so part of the parent row is duplicated |
| Compositor.StampChild | packages/literal/src/main.ts:286-292 | stamping keeps the row count and leaves untouched the rows outside the child and the empty rows |
| Compositor.StampAll | packages/literal/src/main.ts:285-293 | stamping all children keeps the row count |
| Compositor.Placements | packages/literal/src/main.ts:285 | one placement per direct child, with the child's offset and its text rows |
| Compositor.StampAllSnoc | packages/literal/src/main.ts:285-293 | children are applied in declaration order |
| Compositor.LastChildWins | packages/literal/src/main.ts:285-291 | a later child's line overwrites what earlier children left in its columns, and keeps the rest of the row |
| Compositor.StampInto | packages/literal/src/main.ts:286-292 | the in-place loop over one child's lines updates the parent's array to the stamped rows |
| Compositor.Render | packages/literal/src/main.ts:283-295 | `render` returns the parent's own array, mutated to the rows with every direct child stamped in order |
| ColorSpans.Insert | packages/literal/src/main.ts:299 | inserting a span adds exactly one element |
| ColorSpans.SortSpans | packages/literal/src/main.ts:299 | sorting keeps the number of spans |
| ColorSpans.InsertPermutes | packages/literal/src/main.ts:299 | inserting adds exactly the inserted span to the multiset |
| ColorSpans.InsertKeepsSorted | packages/literal/src/main.ts:299 | inserting into a list sorted by (row, start) keeps it sorted |
| ColorSpans.SortSpansSorted | packages/literal/src/main.ts:299 | the sorted spans are ordered by (row, start) and are a permutation of the input |
| ColorSpans.WithKeyInsert | packages/literal/src/main.ts:299 | inserting places the new span after every span with the same (row, start) |
| ColorSpans.SortSpansStable | packages/literal/src/main.ts:299 | the sort is stable: spans with equal keys keep their relative order |
| ColorSpans.MakeRoom | packages/literal/src/main.ts:299 | the shifting loop moves the larger prefix elements one place right and returns the slot where the sorted insertion puts the element |
| ColorSpans.InsertInto | packages/literal/src/main.ts:299 | one insertion step turns the sorted prefix plus the next element into a sorted prefix, and leaves the rest of the array alone |
| ColorSpans.SortIntervals | packages/literal/src/main.ts:299 | the in-place sort leaves the array holding the stable sort of its old contents |
| ColorSpans.Merge | packages/literal/src/main.ts:311-312 | a merged span keeps the first span's row, start and colours and takes the next span's end |
| ColorSpans.ConsolidateFrom | packages/literal/src/main.ts:301-315 | consolidation emits at least one span and at most one per input, starts from the first span, and no two neighbours in its output could still merge |
| ColorSpans.Consolidate | packages/literal/src/main.ts:301-315 | the loop fails with TypeError exactly on an empty list, and otherwise yields the consolidated spans |
| ColorSpans.ConsolidateFromPaints | packages/literal/src/main.ts:301-315 | for spans that each cover their start column, consolidation colours exactly the cells, with the colours, that its input colours |
| ColorSpans.SortAndConsolidatePaintSameCells | packages/literal/src/main.ts:299-315 | for spans that each cover their start column, sorting then consolidating colours exactly the same cells as the original spans |
| ColorSpans.MalformedNextShrinks | packages/literal/src/main.ts:305-312 | a zero-length span starting on the last column of the span before it merges into that span and cuts it one column short, so a painted cell is lost |
| ColorSpans.ConsolidateFromRows | packages/literal/src/main.ts:301-315 | consolidation invents no rows: every output span is on the row of some input span |
| ColorSpans.AdjacentSpansStaySeparate | packages/literal/src/main.ts:307 | red spans 0..2 and 3..5 stay two spans |
| ColorSpans.OverlappingSpansMerge | packages/literal/src/main.ts:307-312 | red spans 0..2 and 2..5 merge into 0..5 |
| ColorSpans.Write | packages/literal/src/main.ts:324-325 | writing a negative index leaves the row, writing in range wraps that cell, and writing past the end adds holes and wraps "undefined" |
| ColorSpans.Read | packages/literal/src/main.ts:324-325 | (no contract) the text read from an array element: the element, or "undefined" for a hole |
| ColorSpans.MarkRow | packages/literal/src/main.ts:324-325 | (no contract) the opening tag written before the start cell, then the closing tag after the end cell, with `Write`'s semantics; `MarkRowCell` states the in-range case |
| ColorSpans.Mark | packages/literal/src/main.ts:318-326 | marking a span keeps the row count and changes no other row |
| ColorSpans.MarkRowCell | packages/literal/src/main.ts:324-325 | for in-range bounds, the start cell gets the opening tag before it, the end cell gets the closing tag after it, and the other cells are unchanged |
| ColorSpans.MarkAll | packages/literal/src/main.ts:318-326 | marking every span keeps the row count |
| ColorSpans.Cells | packages/literal/src/main.ts:317 | `row.split("")` has one cell per character |
| ColorSpans.JoinCellsOfCells | packages/literal/src/main.ts:317-327 | joining the split characters gives back the row |
| ColorSpans.MarkedCell | packages/literal/src/main.ts:318-327 | each cell ends as the opening tags of the spans starting there, then the original character, then the closing tags of the spans ending there: removing the markers gives back the row |
| ColorSpans.MarkAllLeavesOtherRows | packages/literal/src/main.ts:319-320 | a row that no span addresses is unchanged |
| ColorSpans.ColorizeRows | packages/literal/src/main.ts:297-328 | colourising fails with TypeError exactly when there are no spans, and otherwise keeps the row count |
| ColorSpans.RowWithoutSpansUnchanged | packages/literal/src/main.ts:317-327 | a row without spans comes out unchanged |
| ColorSpans.JoinCellsAppend | packages/literal/src/main.ts:327 | joining cells distributes over concatenation |
| ColorSpans.JoinCellsHoles | packages/literal/src/main.ts:327 | array holes join as empty text |
| ColorSpans.SpanPastRowEnd | packages/literal/src/main.ts:324-327 | a one-cell span past the row's end appends `<span …>undefined</span>` to the row |
| ColorSpans.Colorize | packages/literal/src/main.ts:297-328 | `colorize` sorts the caller's span array in place and returns the colourised rows, or the TypeError for an empty list |
| Context.SetColor | packages/literal/src/main.ts:179-188 | the row and start move by the offset, the colours and length are copied, and the end moves by dx when it is truthy and is dropped otherwise |
| Context.SetColorTranslatesCells | packages/literal/src/main.ts:179-188 | `setColor` moves a span's end by dx and colours the same cells shifted by (dx, dy) |
| Context.SetColorDropsZeroEnd | packages/literal/src/main.ts:183 | an end of 0 is falsy and is dropped, so the end falls back to start + length − 1 |
| Context.SetColorComposes | packages/literal/src/main.ts:179-188 | nested translations add up when no end becomes 0 |
| Context.UseSlot | packages/literal/src/main.ts:189-198 | one `useStore` call advances the cursor by exactly one, onto an existing slot |
| Context.UseSlots | packages/literal/src/main.ts:189-198 | k calls return k stores, and the slot list grows only to the number of calls |
| Context.SlotKIsCallK | packages/literal/src/main.ts:189-198 | the k-th call after a cursor reset returns slot k when it exists, ignoring its initial value, and otherwise creates it |
| Context.RerenderReusesStores | packages/literal/src/main.ts:189-198 | a re-render making no more calls than the previous one gets back the same stores and changes no slot |
| Context.StateNode.constructor | packages/literal/src/main.ts:248-260 | a new state node has no stores, no children and cursor 0 |
| Context.Ctx.constructor | packages/literal/src/main.ts:237-242 | a context holds its size, its global offset and its state node |
| Context.Ctx.UseStore | packages/literal/src/main.ts:189-198 | the node's slots and cursor follow `UseSlot`; a new slot holds a fresh store with the initial value and one subscriber |
| Context.Ctx.RenderChild | packages/literal/src/main.ts:227-244 | the child's size is clamped to ≥ 0, its offset accumulates, its node is reused by component identity or created, its cursor resets to 0, and no child entry is removed |
| Context.DestroyHooks | packages/literal/src/main.ts:264 | at most one hook per visited node, and a hook runs exactly when some visited node carries it |
| Context.DestroyHooksAppend | packages/literal/src/main.ts:264 | the destroy pass over two runs of visits is the pass over the first, then the pass over the second |
| Context.Collected | packages/literal/src/main.ts:273 | a span is collected exactly when some node of the tree carries it in its `colors` |
| Context.Mount.constructor | packages/literal/src/main.ts:255-261 | a new mount has an empty root node, no tree and no output |
| Context.Mount.BeginRender | packages/literal/src/main.ts:262-271 | a zero-area size changes nothing; otherwise the previous tree's destroy hooks run in post-order, the root cursor resets, and the root context has the size and offset 0 |
| Context.Mount.FinishRender | packages/literal/src/main.ts:272-277 | given the spans collected from the tree, in any order, the tree is recorded, its rows are composited in place, and the output is the joined colourised rows; a failure leaves the previous output |
| Conways.Dimensions | packages/literal/testpage/conways.js:53-58 | cols is the grid length, and rows is the first column's length, or 0 for an empty grid |
| Conways.DimensionsCoverCells | packages/literal/testpage/conways.js:53-58 | on a rectangular grid, (x, y) is a cell exactly when x < cols and y < rows |
| Conways.Alive | packages/literal/testpage/conways.js:36 | without wrapping, a neighbour is alive only when it is inside the grid and set |
| Conways.CountAt | packages/literal/testpage/conways.js:25-37 | the count is at most the number of offsets |
| Conways.CountNeighbours | packages/literal/testpage/conways.js:23-38 | a cell has at most 8 live neighbours |
| Conways.NextCell | packages/literal/testpage/conways.js:10-12 | (no contract) the rule for one cell: alive when the count is in `born`, else kept when it is in `survive`, else dead; `StepCell` states it for every cell |
| Conways.Step | packages/literal/testpage/conways.js:6-15 | `step` keeps the number of columns and each column's length |
| Conways.StepCell | packages/literal/testpage/conways.js:9-12 | a cell is born when its count is in `born`, keeps its state when the count is in `survive`, and dies otherwise |
| Conways.AtRem | packages/literal/testpage/conways.js:35 | `.at(a % n)` is the element at the mathematical a mod n |
| Conways.WrapIsTorus | packages/literal/testpage/conways.js:35 | in wrap mode, neighbours are read on a torus, so −1 reaches the last column or row and cols reaches 0 |
| Conways.DeadCount | packages/literal/testpage/conways.js:25-37 | a dead grid gives every cell a count of 0 |
| Conways.DeadGridStaysDead | packages/literal/testpage/conways.js:6-15 | without birth on 0 neighbours, a dead grid stays dead |
| Conways.LeadingDigits | packages/literal/testpage/conways.js:65 | the run of leading digits is maximal |
| Conways.CheckRule | packages/literal/testpage/conways.js:64-66 | the check accepts exactly the strings the rule regular expression matches: a letter from B, b, S, s or the bar character, digits, an optional slash, another such letter, digits |
| Conways.Digits | packages/literal/testpage/conways.js:77 | each digit character is parsed as its own number |
| Conways.Push | packages/literal/testpage/conways.js:82 | (no contract) the digits appended to the list that `cur` selects, the other list kept; `PushAppend` states that pushes compose |
| Conways.PushAppend | packages/literal/testpage/conways.js:82 | pushing two runs of digits is pushing their concatenation |
| Conways.Collect | packages/literal/testpage/conways.js:74-83 | collecting only appends: both lists keep what they held as a prefix, and they grow by at most one number per character read |
| Conways.CollectDigits | packages/literal/testpage/conways.js:75-83 | a run of digits is pushed to the current list, in order |
| Conways.ParsedLists | packages/literal/testpage/conways.js:72-85 | on a well-formed rule, the first letter's list gets the first digits and the second letter's list gets the rest |
| Conways.ConwayRule | packages/literal/testpage/conways.js:63-86 | "B3/S23" is accepted and parses to born [3], survive [2, 3] |
| Conways.ParseRule | packages/literal/testpage/conways.js:63-86 | the result is undefined exactly when the trimmed string fails the check, and otherwise it is the lists collected from the characters after the first |
| Conways.CollectRule | packages/literal/testpage/conways.js:74-85 | the character loop builds exactly the collected born and survive lists |
| Typewriter.Displayed | packages/literal/testpage/Typewriter.ts:11 | the displayed text is the stored text followed by `█` when blinking, else a space |
| Typewriter.PaddedSlice | packages/literal/testpage/Typewriter.ts:19 | a padded slice of width w is the w characters from the offset, with spaces past the end |
| Typewriter.ChunksFrom | packages/literal/testpage/Typewriter.ts:18-22 | the do-while loop emits at least one line |
| Typewriter.ChunkWidths | packages/literal/testpage/Typewriter.ts:19 | every emitted line has exactly `width` characters |
| Typewriter.ChunkCount | packages/literal/testpage/Typewriter.ts:18-22 | a paragraph of length L gives max(1, ⌈L/width⌉) lines |
| Typewriter.ChunkShift | packages/literal/testpage/Typewriter.ts:20 | each later line is a line of the paragraph shifted by `width` |
| Typewriter.ChunkChars | packages/literal/testpage/Typewriter.ts:19-20 | line k reads at offset 2·k·width of the remaining text |
| Typewriter.ParagraphLine | packages/literal/testpage/Typewriter.ts:19-20 | line k of a paragraph holds its characters [2k·width, (2k+1)·width), padded with spaces |
| Typewriter.AlternateChunksSkipped | packages/literal/testpage/Typewriter.ts:19-20 | "abcdef" at width 2 lays out as "ab", "ef", "  ", skipping "cd" |
| Typewriter.Wrapped | packages/literal/testpage/Typewriter.ts:13-24 | every wrapped line has exactly `width` characters |
| Typewriter.WrappedIsFlatten | packages/literal/testpage/Typewriter.ts:15-24 | the lines are each paragraph's lines, in paragraph order |
| Typewriter.Blank | packages/literal/testpage/Typewriter.ts:27 | a blank line is `width` spaces |
| Typewriter.ScreenShape | packages/literal/testpage/Typewriter.ts:25-28 | the screen has exactly `height` lines of `width` characters: the first lines of the layout, then blank lines |
| Typewriter.WrapParagraph | packages/literal/testpage/Typewriter.ts:16-23 | the do-while loop produces exactly the paragraph's lines |
| Typewriter.Layout | packages/literal/testpage/Typewriter.ts:11-28 | the whole block, with its padding loop, produces exactly the screen |
| Frames.FrameRow | packages/literal/testpage/Container.ts:10-17 | every frame row is `inner + 2` characters wide |
| Frames.Frame | packages/literal/testpage/Container.ts:9-18 | a frame with at least one row throws RangeError exactly when width < 2, and otherwise has `height` rows |
| Frames.FrameCells | packages/literal/testpage/Container.ts:10-17 | every row has `width` characters: corners and horizontal bars on the first row (winning at height 1) and last row, verticals and fill elsewhere |
| Frames.RowSpans | packages/literal/testpage/Container.ts:23-32 | every span of row y is on row y, gray, with no background |
| Frames.FrameSpans | packages/literal/testpage/Container.ts:22-34 | (no contract) the row spans flattened in row order; `FrameSpanRow`, `PaintedOnFrame` and `FramePainted` state where they lie and what they paint |
| Frames.Translated | packages/literal/testpage/Container.ts:35 | every emitted span goes through `setColor` |
| Frames.Container | packages/literal/testpage/Container.ts:8-36 | the container fails exactly when its frame does |
| Frames.Border | apps/web-ext/src/popup/Border.ts:8-28 | the border fails exactly when its frame does |
| Frames.SpanCountUpTo | packages/literal/testpage/Container.ts:22-34 | the span count of the first n rows: one for a top or bottom row, two for a middle row |
| Frames.ContainerSpanCount | packages/literal/testpage/Container.ts:22-34 | the container emits 2·height − 2 spans for height ≥ 2 |
| Frames.RowSpansPaint | packages/literal/testpage/Container.ts:23-32 | a row's spans paint gray exactly the frame's cells on that row |
| Frames.FrameSpanRow | packages/literal/testpage/Container.ts:22-34 | every span lies on a frame row and has no explicit end |
| Frames.ContainerPaintsFrame | packages/literal/testpage/Container.ts:22-35 | after translation, a cell is painted gray exactly when it is on the frame |
| Frames.PaintedOnFrame | packages/literal/testpage/Container.ts:22-35 | a gray-painted cell is on the frame |
| Frames.FramePainted | packages/literal/testpage/Container.ts:22-35 | every frame cell is painted gray |
| Frames.ContainerLayout | packages/literal/testpage/Container.ts:8-36 | the container's text is the solid frame, and it has exactly one child slot at (1, 1) of size (width − 2, height − 2) |
| Frames.BorderLayout | apps/web-ext/src/popup/Border.ts:8-28 | the border's text is the hollow frame, it has one child slot at (1, 1) only when a child is given, and it has no colour spans |
| Fire.CreateGrid | packages/literal/testpage/Fire.ts:3-5 | a new grid has `height` rows of `width` zeros |
| Fire.Cool | packages/literal/testpage/Fire.ts:12 | a cooled cell is never negative, loses at most one unit of a non-negative heat, and is unchanged exactly when the heat is non-negative and either no draw cools it or it is already 0 |
| Fire.Step | packages/literal/testpage/Fire.ts:7-15 | `step` fails with TypeError exactly on an empty grid, and otherwise keeps the row count |
| Fire.StepIgnitesBottom | packages/literal/testpage/Fire.ts:13 | the new last row is all 4s, as wide as the old first row |
| Fire.StepRowWidth | packages/literal/testpage/Fire.ts:12 | each surviving row keeps its width |
| Fire.StepCell | packages/literal/testpage/Fire.ts:12 | each cell of the new grid is the cooled cell below it, using that cell's draw |
| Fire.StepRaisesHeat | packages/literal/testpage/Fire.ts:12 | a cell becomes c or max(0, c − 1): it never exceeds max(0, c), never goes below 0, and is warm only if the cell below was warm |
| Fire.CalmStepShifts | packages/literal/testpage/Fire.ts:8-14 | without cooling draws, a step shifts the rows up by one and appends a row of 4s |
| Fire.StepKeepsShape | packages/literal/testpage/Fire.ts:7-15 | a rectangular grid of heats 0..4 stays rectangular, with the same size and heats 0..4 |
| Fire.Steps | packages/literal/testpage/Fire.ts:22 | a failing series of ticks fails with TypeError |
| Fire.NeedsReset | packages/literal/testpage/Fire.ts:20 | (no contract) the reset guard: the row count differs from the height, or there is no first row, or its length differs from the width; `FreshGridSettled` and `TicksNeverReset` state when it holds |
| Fire.FreshGridSettled | packages/literal/testpage/Fire.ts:18-20 | a fresh grid needs no reset, except at height 0, where `$grid[0]?.length` is undefined |
| Fire.TicksNeverReset | packages/literal/testpage/Fire.ts:18-22 | ticking a fresh grid of height > 0 never fails, keeps its size and heats 0..4, and never triggers a reset |
| Fire.Glyph | packages/literal/testpage/Fire.ts:27-38 | cells 0..4 map to ` ░▒▓█`, and any other value joins as empty text |
| Fire.Text | packages/literal/testpage/Fire.ts:24-41 | one text row per grid row |
| Fire.TextRow | packages/literal/testpage/Fire.ts:25-40 | (no contract) the glyphs of a row's cells joined; `TextRowLength` and `TextRowShades` state its length and characters |
| Fire.TextRowCons | packages/literal/testpage/Fire.ts:25-40 | a row's text is the first cell's glyph followed by the rest |
| Fire.TextRowLength | packages/literal/testpage/Fire.ts:25-40 | a row's text has one character per cell in 0..4 |
| Fire.TextRowShades | packages/literal/testpage/Fire.ts:25-40 | on heats 0..4, the text has one glyph per cell, at the cell's column |
| Fire.TextFills | packages/literal/testpage/Fire.ts:24-41 | on a rectangular grid of heats 0..4, the text is `width` glyphs per row, cell for cell |
| Fire.HeatColor | packages/literal/testpage/Fire.ts:45-56 | a cell has a colour exactly when it is in 1..4 |
| Fire.RowColors | packages/literal/testpage/Fire.ts:43-58 | at most one span per cell |
| Fire.RowColorsMember | packages/literal/testpage/Fire.ts:43-58 | a row's spans are exactly the translated length-1 spans of its cells in 1..4 |
| Fire.CellSpanPaints | packages/literal/testpage/Fire.ts:47-53 | a cell's span paints exactly that cell, translated, with its colour and no background |
| Fire.ColorsPaint | packages/literal/testpage/Fire.ts:42-59 | a translated cell is painted exactly when its heat is 1..4, in red, orange, yellow or white, with no background |
| Fire.RowColorsAscending | packages/literal/testpage/Fire.ts:43-58 | a row's spans are on the translated row, in strictly increasing columns |
| Fire.ColorsUpToAscending | packages/literal/testpage/Fire.ts:42-59 | the spans of the first rows come in strictly increasing (row, column) order |
| Fire.Colors | packages/literal/testpage/Fire.ts:42-59 | the spans of every row, top row first, in strictly increasing (row, column) order, so no span is emitted twice |
| Fire.Tick | packages/literal/testpage/Fire.ts:22 | the timer's `grid.update(step)` sets the store to the stepped grid and notifies its listeners, or throws and leaves the store alone |
| Fire.Render | packages/literal/testpage/Fire.ts:17-59 | the component takes one store slot and draws the text and colours of the grid it read; the slot's store ends in its old state (or a fresh subscribed store's) followed by one `set` of a fresh grid exactly when the size differs, and no other store changes |

## Left out

- DOM and host wiring in `main.ts`: root styling, the reference span, `innerHTML`,
  ResizeObserver, the stylesheet, the floored grid-size computation and the dev-mode logging
  stores. This is host I/O and floating-point pixel arithmetic.
- `useInput`: it creates and focuses textarea elements and syncs them through DOM events.
- `requestRender`'s `requestAnimationFrame` scheduling and its coalescing. This is host frame
  timing. A store's subscription to the render request is recorded as an ordinary listener.
- `collect` is not part of this model: it is declared but not defined in the repository.
  `Mount.FinishRender` takes the flattened colour spans as an input array. It requires
  them to be the spans `Context.Collected` gathers from the tree, in some order; the order
  `collect` would produce is not modelled.
- The start callback of `writable` and `readable` is modelled by what it does to the store
  while `subscribe` activates it: the values it passes to `set` synchronously, in order, and
  whether it returns a stop callback. It does the same on every activation. Calls it makes
  later through the captured `set` are ordinary `Writable.Set` calls by the caller.
- Invoking components is left to the caller. `Mount.BeginRender` returns the root context,
  and `Frames` returns its child slots instead of calling `renderChild` with a component
  function. `Context.Ctx.RenderChild` models `renderChild` itself.
- Timers, `onDestroy` bodies and `input.focus()`. Destroy hooks are recorded as the ids of the
  hooks that ran. The Fire timer is modelled as `Fire.Tick`, to be called by the caller.
- `Math.random`: Fire's draw is a supplied function, and `makeGrid` in `conways.js` is left out.
- `testpage/index.ts` and `testpage/Conways.ts`: they are written against an API that
  `main.ts` does not provide. The type declaration files and the build configuration are
  left out too.
- JavaScript's loose `==` on mixed types, NaN and UTF-16 code units. Strings are sequences of
  characters, and sizes are integers.
- Every store in one state node holds values of one type `V`. JavaScript stores are untyped.
- Compositor.Render: requires that no child's text array is the parent's own array. Aliasing
  between a child and its parent is not modelled.
- ColorSpans.Colorize: consolidation works on copies of the spans. The source writes the
  merged `end` and `length` back into the caller's first interval objects.
- Reactive.Derived / Reactive.DerivedAll: their dependencies are `Writable` stores, so a
  store derived from another derived store is not represented. A dependency's later
  notifications reach the derived store only when the caller calls `OnDependency` with them;
  the source's listener closure is not modelled.
- Reactive.DerivedAll.OnDependency: the source hands the combiner the same mutable `values`
  array each time. The model passes a snapshot, so later writes to the array are not
  visible to earlier results.
- Reactive.Writable.Unsubscribe: requires a token that an earlier `subscribe` handed out,
  since an unsubscriber exists only as the result of a subscribe call.
- Typewriter.Layout: requires width > 0. At width 0 the do-while loop never ends, because
  `p.slice(0)` leaves the paragraph unchanged and the last paragraph always holds the cursor
  glyph.
- Typewriter.WrapParagraph: requires width > 0 for the same reason.
- Fire.Render: requires a non-negative width and height. Contexts clamp them through
  `renderChild`, and `arrayWith` throws on a negative length.
- Frames.Container: width and height are natural numbers, because `renderChild` clamps
  them. Negative sizes from a caller outside `renderChild` are not modelled.
