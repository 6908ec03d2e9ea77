/** The per-render context handed to components (`createContext`) and the root `rerender`
    of a mounted component: span translation, hook-style store slots, child state nodes,
    and the zero-size guard with the destroy pass. */
module Context {
  import opened Wrappers
  import opened Js
  import opened Tree
  import opened Utils
  import opened Compositor
  import opened ColorSpans
  import opened Reactive

  // ---------------------------------------------------------------------------------------
  // setColor

  /** `setColor`: a span moved by the context's offset. `end` is moved only when it is
      truthy, so an `end` of 0 is dropped along with an absent one. */
  function SetColor(iv: Interval, dx: int, dy: int): (r: Interval)
    ensures r.y == iv.y + dy && r.start == iv.start + dx
    ensures r.fg == iv.fg && r.bg == iv.bg && r.length == iv.length
    ensures r.end.Some? <==> iv.end.Some? && iv.end.value != 0
    ensures r.end.Some? ==> r.end.value == iv.end.value + dx
  {
    Interval(
      iv.y + dy,
      iv.start + dx,
      iv.fg,
      iv.bg,
      if iv.end.Some? && iv.end.value != 0 then Some(iv.end.value + dx) else None,
      iv.length)
  }

  /** A span whose `end` is not 0 paints, after translation, exactly the translated cells
      with the same colours. */
  lemma SetColorTranslatesCells(iv: Interval, dx: int, dy: int,
      y: int, c: int, fg: Option<string>, bg: Option<string>)
    requires iv.end != Some(0)
    ensures EndIndex(SetColor(iv, dx, dy)) == EndIndex(iv) + dx
    ensures Paints(SetColor(iv, dx, dy), y + dy, c + dx, fg, bg) <==> Paints(iv, y, c, fg, bg)
  {
  }

  /** An `end` of 0 is falsy: the translated span ends where its `length` says instead. */
  lemma SetColorDropsZeroEnd(iv: Interval, dx: int, dy: int)
    requires iv.end == Some(0)
    ensures SetColor(iv, dx, dy).end.None?
    ensures EndIndex(SetColor(iv, dx, dy))
      == iv.start + dx + (if iv.length.Some? then iv.length.value else 0) - 1
  {
  }

  /** Nested contexts add their offsets: translating twice is translating once by the sum,
      as long as no intermediate `end` is 0. */
  lemma SetColorComposes(iv: Interval, dx1: int, dy1: int, dx2: int, dy2: int)
    requires iv.end.Some? ==> iv.end.value != 0 && iv.end.value + dx1 != 0
    ensures SetColor(SetColor(iv, dx1, dy1), dx2, dy2) == SetColor(iv, dx1 + dx2, dy1 + dy2)
  {
  }

  // ---------------------------------------------------------------------------------------
  // Store slots

  /** One `useStore` call on slots `stores` with cursor `cur`: the slot under the cursor if
      there is one, otherwise `created` appended. The cursor always advances by one. */
  function UseSlot<S>(stores: seq<S>, cur: nat, created: S): (r: (seq<S>, nat, S))
    requires cur <= |stores|
    ensures r.1 == cur + 1 && r.1 <= |r.0|
  {
    if cur < |stores| then (stores, cur + 1, stores[cur])
    else (stores + [created], cur + 1, created)
  }

  /** The calls a render makes after its cursor was reset: `created[k]` is the store the
      k-th call would create. Returns the slots afterwards and the store each call got. */
  function UseSlots<S>(stores: seq<S>, created: seq<S>): (r: (seq<S>, seq<S>))
    ensures |r.1| == |created|
    ensures |r.0| == if |created| <= |stores| then |stores| else |created|
    decreases |created|
  {
    if created == [] then (stores, [])
    else
      var (before, got) := UseSlots(stores, created[..|created| - 1]);
      var (after, _, s) := UseSlot(before, |got|, created[|created| - 1]);
      (after, got + [s])
  }

  /** The k-th call after a reset addresses slot k: it gets the store already there, or the
      one it creates; the slots become the old ones followed by the newly created. */
  lemma {:induction false} SlotKIsCallK<S>(stores: seq<S>, created: seq<S>)
    ensures forall k :: 0 <= k < |created| ==>
      UseSlots(stores, created).1[k] == if k < |stores| then stores[k] else created[k]
    ensures UseSlots(stores, created).0
      == if |created| <= |stores| then stores else stores + created[|stores|..]
    decreases |created|
  {
    if created != [] {
      var init := created[..|created| - 1];
      SlotKIsCallK(stores, init);
      if |created| > |stores| {
        if |init| <= |stores| {
          assert |init| == |stores|;
          assert created[|stores|..] == [created[|created| - 1]];
        } else {
          assert created[|stores|..] == init[|stores|..] + [created[|created| - 1]];
        }
      }
    }
  }

  /** A render that makes no more `useStore` calls than an earlier one gets back, call by
      call, the stores of that earlier render: the initial values of the later calls are
      ignored. */
  lemma RerenderReusesStores<S>(stores: seq<S>, first: seq<S>, second: seq<S>)
    requires |second| <= |first|
    ensures UseSlots(UseSlots(stores, first).0, second).1 == UseSlots(stores, first).1[..|second|]
    ensures UseSlots(UseSlots(stores, first).0, second).0 == UseSlots(stores, first).0
  {
    SlotKIsCallK(stores, first);
    var slots := UseSlots(stores, first).0;
    SlotKIsCallK(slots, second);
  }

  // ---------------------------------------------------------------------------------------
  // State nodes and contexts

  /** The identity of a component function, the key of a node's `children`. */
  type ComponentId = nat

  /** `StateNode`: the stores of one component instance, in call order, the state of its
      child components by component, and the slot cursor of the current render. */
  class StateNode<V> {
    var stores: seq<Writable<V>>
    var children: map<ComponentId, StateNode<V>>
    var curIndex: nat

    /** The cursor never passes the first unused slot. */
    predicate Valid()
      reads this
    {
      curIndex <= |stores|
    }

    constructor ()
      ensures Valid() && stores == [] && children == map[] && curIndex == 0
    {
      stores := [];
      children := map[];
      curIndex := 0;
    }
  }

  /** The context a component is called with: its size, its offset in the root's grid
      (`dx`, `dy`) and its state node. */
  class Ctx<V> {
    const width: int
    const height: int
    const dx: int
    const dy: int
    const node: StateNode<V>

    constructor (width: int, height: int, dx: int, dy: int, node: StateNode<V>)
      ensures this.width == width && this.height == height && this.dx == dx && this.dy == dy
      ensures this.node == node
    {
      this.width := width;
      this.height := height;
      this.dx := dx;
      this.dy := dy;
      this.node := node;
    }

    /** `setColor` of this context. */
    function Translate(iv: Interval): Interval
    {
      SetColor(iv, dx, dy)
    }

    /** `useStore(initialValue)`: the store in the slot under the cursor, or a fresh store
      holding `initialValue` subscribed to the render request (which its `subscribe` calls at
      once); the cursor advances by one. */
    method UseStore(initialValue: V) returns (store: Writable<V>)
      requires node.Valid()
      modifies node
      ensures node.Valid() && node.children == old(node.children)
      ensures (node.stores, node.curIndex, store) == UseSlot(old(node.stores), old(node.curIndex), store)
      ensures old(node.curIndex) == old(|node.stores|) ==>
        fresh(store) && store.State() == SubscribeS(Initial(initialValue, NoStart)).0
    {
      var cur := node.curIndex;
      node.curIndex := node.curIndex + 1;
      if cur < |node.stores| {
        store := node.stores[cur];
      } else {
        store := new Writable(initialValue, NoStart);
        node.stores := node.stores + [store];
        var _ := store.Subscribe();
      }
    }

    /** `renderChild(component, {width: w, height: h, x, y})` up to the call of `component`:
      the context the child is called with, and the position `{x, y}` returned with its
      output. The child's node is found by component identity or created, its cursor reset,
      and it is (re)entered under `component`; no entry is ever removed. */
    method RenderChild(component: ComponentId, w: int, h: int, x: int, y: int)
        returns (child: Ctx<V>, cx: int, cy: int)
      modifies node, if component in node.children then {node.children[component]} else {}
      ensures fresh(child)
      ensures child.width == (if w < 0 then 0 else w) && child.height == (if h < 0 then 0 else h)
      ensures child.dx == dx + x && child.dy == dy + y && cx == x && cy == y
      ensures component in old(node.children) ==>
        && child.node == old(node.children[component])
        && child.node.stores == old(node.children[component].stores)
        && child.node.children == old(node.children[component].children)
      ensures component !in old(node.children) ==>
        fresh(child.node) && child.node.stores == [] && child.node.children == map[]
      ensures child.node.curIndex == 0 && child.node.Valid()
      ensures node.children == old(node.children)[component := child.node]
      ensures child.node != node ==> node.stores == old(node.stores) && node.curIndex == old(node.curIndex)
    {
      var width := if w < 0 then 0 else w;
      var height := if h < 0 then 0 else h;
      var next: StateNode<V>;
      if component in node.children {
        next := node.children[component];
      } else {
        next := new StateNode();
      }
      next.curIndex := 0;
      node.children := node.children[component := next];
      child := new Ctx(width, height, dx + x, dy + y, next);
      cx, cy := x, y;
    }
  }

  // ---------------------------------------------------------------------------------------
  // The mounted root

  /** The `onDestroy` hooks of a sequence of visited nodes, in visiting order. */
  function DestroyHooks(visits: seq<Rendered>): (r: seq<HookId>)
    ensures |r| <= |visits|
    ensures forall h :: h in r <==> exists k :: 0 <= k < |visits| && visits[k].onDestroy == Some(h)
    decreases |visits|
  {
    if visits == [] then []
    else
      var init := visits[..|visits| - 1];
      var last := visits[|visits| - 1];
      var r := DestroyHooks(init) + (if last.onDestroy.Some? then [last.onDestroy.value] else []);
      assert forall k :: 0 <= k < |init| ==> init[k] == visits[k];
      r
  }

  /** The destroy pass over two runs of visits is the pass over the first, then over the
      second. */
  lemma {:induction false} DestroyHooksAppend(a: seq<Rendered>, b: seq<Rendered>)
    ensures DestroyHooks(a + b) == DestroyHooks(a) + DestroyHooks(b)
    decreases |b|
  {
    if b != [] {
      var b' := b[..|b| - 1];
      assert (a + b)[..|a + b| - 1] == a + b';
      DestroyHooksAppend(a, b');
    } else {
      assert a + b == a;
    }
  }

  /** The colour spans of every node of an output, node by node in traversal order: the
      spans `collect(tree, comp => comp.colors ?? []).flat()` gathers, whatever order it
      visits the nodes in. */
  function Collected(t: Rendered): (r: seq<Interval>)
    ensures forall iv :: iv in r <==> exists k :: 0 <= k < |Traverse(t)| && iv in Traverse(t)[k].colors
  {
    var visits := Traverse(t);
    var pieces := seq(|visits|, k requires 0 <= k < |visits| => visits[k].colors);
    forall iv
      ensures iv in Flatten(pieces) <==> exists k :: 0 <= k < |visits| && iv in visits[k].colors
    {
      FlattenMember(pieces, iv);
      assert forall k :: 0 <= k < |pieces| ==> pieces[k] == visits[k].colors;
    }
    Flatten(pieces)
  }

  /** What a mounted component keeps between renders: its last output, the root state
      node, the hooks run so far and the markup last written. */
  class Mount<V> {
    const root: StateNode<V>
    var tree: Option<Rendered>
    var destroyed: seq<HookId>
    var html: string

    constructor ()
      ensures fresh(root) && root.Valid() && root.stores == [] && root.children == map[]
      ensures tree.None? && destroyed == [] && html == ""
    {
      root := new StateNode();
      tree := None;
      destroyed := [];
      html := "";
    }

    /** `rerender([width, height])` up to the call of the root component: nothing at all
      happens for a zero-area grid; otherwise every `onDestroy` of the previous output runs,
      in post-order, the root cursor is reset and the root context is created. */
    method BeginRender(width: int, height: int) returns (ctx: Option<Ctx<V>>)
      modifies this, root
      ensures width * height == 0 ==> ctx.None? && unchanged(this) && unchanged(root)
      ensures width * height != 0 ==>
        && ctx.Some? && fresh(ctx.value) && ctx.value.node == root
        && ctx.value.width == width && ctx.value.height == height
        && ctx.value.dx == 0 && ctx.value.dy == 0
        && root.curIndex == 0 && root.stores == old(root.stores) && root.children == old(root.children)
        && destroyed == old(destroyed) + (if old(tree).Some? then DestroyHooks(Traverse(old(tree).value)) else [])
        && tree == old(tree) && html == old(html)
    {
      if width * height == 0 {
        return None;
      }
      if tree.Some? {
        var visits := Traverse(tree.value);
        ghost var before := destroyed;
        var i := 0;
        while i < |visits|
          modifies this`destroyed
          invariant 0 <= i <= |visits|
          invariant destroyed == before + DestroyHooks(visits[..i])
        {
          if visits[i].onDestroy.Some? {
            destroyed := destroyed + [visits[i].onDestroy.value];
          }
          assert visits[..i + 1][..i] == visits[..i];
          i := i + 1;
        }
        assert visits[..i] == visits;
      }
      root.curIndex := 0;
      var c := new Ctx(width, height, 0, 0, root);
      ctx := Some(c);
    }

    /** The rest of `rerender`, given the root component's output and the colour spans
      collected from the whole output tree: the output becomes the tree, is composited and
      colorized, and the joined rows become the markup. When colorizing throws, the
      markup stays as it was. */
    method FinishRender(output: Rendered, colors: array<Interval>) returns (r: Result<string>)
      requires forall k :: 0 <= k < |output.children| ==> output.children[k].component.text != output.text
      requires multiset(colors[..]) == multiset(Collected(output))
      modifies this, output.text, colors
      ensures tree == Some(output) && destroyed == old(destroyed)
      ensures output.text[..] == StampAll(old(output.text[..]), old(Placements(output.children)))
      ensures var c := ColorizeRows(output.text[..], old(colors[..]));
        r == if c.Ok? then Ok(Concat(c.value)) else Err(c.error)
      ensures r.Ok? ==> html == r.value
      ensures r.Err? ==> html == old(html)
    {
      tree := Some(output);
      var rendered := Render(output);
      var colorized := Colorize(rendered[..], colors);
      if colorized.Err? {
        return Err(colorized.error);
      }
      html := Concat(colorized.value);
      r := Ok(html);
    }
  }
}
