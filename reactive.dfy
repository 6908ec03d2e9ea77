/** The store library: `writable`, `readable`, `derived` (single dependency and array of
    dependencies), `subscribe` and the `isReadable`/`isWritable` guards.

    Listeners are foreign callbacks; here each one is an identity, and calling it is
    recorded as an event in the store's trace, so the trace says which listener received
    which value and in which order. */
module Reactive {
  import opened Wrappers

  /** One subscription to a writable store. `subscribe` binds a fresh copy of the callback
      every time, so every call yields a new, distinct token. */
  type Token = nat

  /** A listener handed to a derived store's `subscribe`: the store keeps the function
      itself, so subscribing the same listener twice gives two equal entries. */
  type ListenerId = nat

  /** What a store does to the outside world: call a listener with a value, or run its start
      or stop callback. */
  datatype Event<T> = Notified(listener: nat, value: T) | Started | Stopped

  /** The optional start callback of `writable`. It is handed the store's `set`: `sets` are
      the values it passes to `set` before returning, and it may return a stop callback. */
  datatype StartHook<T> = NoStart | Start(sets: seq<T>, returnsStop: bool)

  /** The state captured by the closure of one `writable`. `stop` says whether the stop
      callback returned by the most recent activation is set. */
  datatype StoreState<T> = StoreState(
    value: T,
    listeners: seq<Token>,
    next: Token,
    start: StartHook<T>,
    stop: bool,
    trace: seq<Event<T>>)

  /** One notification per listener, in list order. */
  function Notifications<T>(ls: seq<nat>, v: T): (r: seq<Event<T>>)
    ensures |r| == |ls|
    ensures forall k :: 0 <= k < |ls| ==> r[k] == Notified(ls[k], v)
  {
    seq(|ls|, k requires 0 <= k < |ls| => Notified(ls[k], v))
  }

  /** The values delivered to listener `l`, in the order it received them. */
  function Received<T>(trace: seq<Event<T>>, l: nat): seq<T>
  {
    if trace == [] then []
    else
      var e := trace[|trace| - 1];
      Received(trace[..|trace| - 1], l) + (if e.Notified? && e.listener == l then [e.value] else [])
  }

  /** `ls.filter(x => x != l)` */
  function Without(ls: seq<nat>, l: nat): (r: seq<nat>)
    ensures l !in r
    ensures forall x :: x in r <==> x in ls && x != l
    ensures |r| <= |ls|
  {
    if ls == [] then []
    else (if ls[0] == l then [] else [ls[0]]) + Without(ls[1..], l)
  }

  /** Distinct elements. */
  ghost predicate Distinct(ls: seq<nat>)
  {
    forall i, j :: 0 <= i < j < |ls| ==> ls[i] != ls[j]
  }

  /** Well-formed store state: listeners are distinct issued tokens, and only issued tokens
      were ever notified. */
  ghost predicate Wf<T>(s: StoreState<T>)
  {
    && Distinct(s.listeners)
    && (forall t :: t in s.listeners ==> t < s.next)
    && (forall k :: 0 <= k < |s.trace| && s.trace[k].Notified? ==> s.trace[k].listener < s.next)
  }

  /** `writable(initialValue, start)` before anything happened. */
  function Initial<T>(v: T, start: StartHook<T>): (s: StoreState<T>)
    ensures Wf(s) && s.value == v && s.listeners == [] && s.trace == []
  {
    StoreState(v, [], 0, start, false, [])
  }

  /** The first half of `subscribe`: the new listener is called at once with the current
      value, then added at the end of the list under a fresh token. */
  function Enlist<T>(s: StoreState<T>): (r: StoreState<T>)
    ensures r.value == s.value && r.listeners == s.listeners + [s.next] && r.next == s.next + 1
  {
    s.(listeners := s.listeners + [s.next],
       next := s.next + 1,
       trace := s.trace + [Notified(s.next, s.value)])
  }

  /** The value of a store after a subscription that found `n` listeners: the start callback
      runs only on the first one, and leaves the last value it set. */
  function AfterStart<T>(v: T, n: nat, start: StartHook<T>): T
  {
    if n == 0 && start.Start? && start.sets != [] then start.sets[|start.sets| - 1] else v
  }

  /** `subscribe`: after `Enlist`, when the list was empty, the start callback runs with the
      store's `set`, and what it returns becomes the stop callback. */
  function SubscribeS<T>(s: StoreState<T>): (r: (StoreState<T>, Token))
    ensures r.1 == s.next && r.0.next == s.next + 1 && r.0.listeners == s.listeners + [s.next]
    ensures r.0.value == AfterStart(s.value, |s.listeners|, s.start)
    ensures r.0.start == s.start
    ensures |s.trace| <= |r.0.trace| && r.0.trace[..|s.trace|] == s.trace
    ensures Started in r.0.trace[|s.trace|..] <==> |s.listeners| == 0 && s.start.Start?
    ensures r.0.stop == if |s.listeners| == 0 then s.start.Start? && s.start.returnsStop else s.stop
  {
    var e := Enlist(s);
    assert e.trace[|s.trace|..] == [Notified(s.next, s.value)];
    if |s.listeners| != 0 then (e, s.next)
    else match s.start
      case NoStart => (e.(stop := false), s.next)
      case Start(sets, returnsStop) =>
        var a := e.(trace := e.trace + [Started]);
        var r := SetAll(a, sets);
        SetAllOnlyNotifies(a, sets);
        assert r.trace[..|s.trace|] == a.trace[..|s.trace|];
        assert r.trace[|s.trace|..] == a.trace[|s.trace|..] + r.trace[|a.trace|..];
        assert a.trace[|s.trace|..] == [Notified(s.next, s.value), Started];
        (r.(stop := returnsStop), s.next)
  }

  /** Calling the unsubscriber of token `tok`: its entry is filtered out, and the stop
      callback runs whenever the list is then empty. */
  function UnsubscribeS<T>(s: StoreState<T>, tok: Token): (r: StoreState<T>)
    ensures tok !in r.listeners && r.value == s.value
  {
    var ls := Without(s.listeners, tok);
    s.(listeners := ls, trace := s.trace + (if |ls| == 0 && s.stop then [Stopped] else []))
  }

  /** `set(v)`: store the value, then call every current listener once, in list order. */
  function SetS<T>(s: StoreState<T>, v: T): (r: StoreState<T>)
    ensures r.value == v && r.listeners == s.listeners
  {
    s.(value := v, trace := s.trace + Notifications(s.listeners, v))
  }

  /** Several `set` calls in a row. */
  function SetAll<T>(s: StoreState<T>, vs: seq<T>): (r: StoreState<T>)
    ensures r.listeners == s.listeners && r.next == s.next && r.start == s.start && r.stop == s.stop
    ensures r.value == if vs == [] then s.value else vs[|vs| - 1]
    decreases |vs|
  {
    if vs == [] then s else SetAll(SetS(s, vs[0]), vs[1..])
  }

  /** Several `set` calls only append notifications to the trace: they neither start nor
      stop the store. */
  lemma {:induction false} SetAllOnlyNotifies<T>(s: StoreState<T>, vs: seq<T>)
    ensures var r := SetAll(s, vs);
      && |s.trace| <= |r.trace| && r.trace[..|s.trace|] == s.trace
      && forall k :: |s.trace| <= k < |r.trace| ==> r.trace[k].Notified?
    decreases |vs|
  {
    if vs != [] {
      var s1 := SetS(s, vs[0]);
      SetAllOnlyNotifies(s1, vs[1..]);
      assert forall k :: |s.trace| <= k < |s1.trace| ==> s1.trace[k].Notified?;
    }
  }

  /** The last of several `set` calls comes after the others. */
  lemma {:induction false} SetAllSnoc<T>(s: StoreState<T>, vs: seq<T>, v: T)
    ensures SetAll(s, vs + [v]) == SetS(SetAll(s, vs), v)
    decreases |vs|
  {
    if vs == [] {
      assert SetAll(SetS(s, v), []) == SetS(s, v);
    } else {
      assert (vs + [v])[0] == vs[0] && (vs + [v])[1..] == vs[1..] + [v];
      SetAllSnoc(SetS(s, vs[0]), vs[1..], v);
    }
  }

  lemma {:induction false} WithoutKeepsDistinct(ls: seq<nat>, l: nat)
    requires Distinct(ls)
    ensures Distinct(Without(ls, l))
  {
    if ls != [] {
      assert Distinct(ls[1..]) by {
        forall i, j | 0 <= i < j < |ls[1..]| ensures ls[1..][i] != ls[1..][j] {
          assert ls[1..][i] == ls[i + 1] && ls[1..][j] == ls[j + 1];
        }
      }
      WithoutKeepsDistinct(ls[1..], l);
      var w := Without(ls[1..], l);
      assert ls[0] !in ls[1..] by {
        forall k | 0 <= k < |ls[1..]| ensures ls[1..][k] != ls[0] {
          assert ls[1..][k] == ls[k + 1];
        }
      }
      assert ls[0] !in w;
      var r := (if ls[0] == l then [] else [ls[0]]) + w;
      forall i, j | 0 <= i < j < |r| ensures r[i] != r[j] {
        if ls[0] != l && i == 0 {
          assert r[j] == w[j - 1];
        }
      }
    }
  }

  lemma SetKeepsWf<T>(s: StoreState<T>, v: T)
    requires Wf(s)
    ensures Wf(SetS(s, v))
  {
    var t := SetS(s, v).trace;
    forall k | 0 <= k < |t| && t[k].Notified? ensures t[k].listener < s.next {
      if k >= |s.trace| {
        assert t[k] == Notified(s.listeners[k - |s.trace|], v);
        assert s.listeners[k - |s.trace|] in s.listeners;
      }
    }
  }

  lemma {:induction false} SetAllKeepsWf<T>(s: StoreState<T>, vs: seq<T>)
    requires Wf(s)
    ensures Wf(SetAll(s, vs))
    decreases |vs|
  {
    if vs != [] {
      SetKeepsWf(s, vs[0]);
      SetAllKeepsWf(SetS(s, vs[0]), vs[1..]);
    }
  }

  lemma EnlistKeepsWf<T>(s: StoreState<T>)
    requires Wf(s)
    ensures Wf(Enlist(s)) && Wf(Enlist(s).(trace := Enlist(s).trace + [Started]))
  {
    var r := Enlist(s);
    forall i, j | 0 <= i < j < |r.listeners| ensures r.listeners[i] != r.listeners[j] {
      if j == |s.listeners| {
        assert r.listeners[i] == s.listeners[i] && s.listeners[i] in s.listeners;
      }
    }
  }

  /** Every store operation keeps the state well formed. */
  lemma StoreOperationsKeepWf<T>(s: StoreState<T>, v: T, tok: Token)
    requires Wf(s)
    ensures Wf(SubscribeS(s).0)
    ensures Wf(UnsubscribeS(s, tok))
    ensures Wf(SetS(s, v))
  {
    EnlistKeepsWf(s);
    var e := Enlist(s);
    if |s.listeners| == 0 && s.start.Start? {
      SetAllKeepsWf(e.(trace := e.trace + [Started]), s.start.sets);
    }
    WithoutKeepsDistinct(s.listeners, tok);
    SetKeepsWf(s, v);
  }

  lemma ReceivedAppend<T>(a: seq<Event<T>>, b: seq<Event<T>>, l: nat)
    ensures Received(a + b, l) == Received(a, l) + Received(b, l)
    decreases |b|
  {
    if b == [] {
      assert a + b == a;
    } else {
      assert (a + b)[..|a + b| - 1] == a + b[..|b| - 1];
      ReceivedAppend(a, b[..|b| - 1], l);
    }
  }

  /** A listener that was never notified has received nothing. */
  lemma {:induction false} ReceivedNone<T>(trace: seq<Event<T>>, l: nat)
    requires forall k :: 0 <= k < |trace| && trace[k].Notified? ==> trace[k].listener != l
    ensures Received(trace, l) == []
  {
    if trace != [] {
      ReceivedNone(trace[..|trace| - 1], l);
    }
  }

  /** Among distinct listeners, one round of notifications gives `l` the value once if it is
      in the list and not at all otherwise. */
  lemma {:induction false} ReceivedRound<T>(ls: seq<nat>, v: T, l: nat)
    requires Distinct(ls)
    ensures Received(Notifications(ls, v), l) == if l in ls then [v] else []
  {
    if ls != [] {
      var init := ls[..|ls| - 1];
      assert Notifications(ls, v)[..|ls| - 1] == Notifications(init, v);
      ReceivedRound(init, v, l);
      assert l in ls <==> l in init || l == ls[|ls| - 1];
      assert l == ls[|ls| - 1] ==> l !in init;
    }
  }

  /** A new subscriber is called synchronously with the current value before `subscribe`
      returns, and is placed after the existing listeners; when it is the first one, it
      then also receives every value the start callback sets, in order. */
  lemma SubscribeNotifiesCurrentValue<T>(s: StoreState<T>)
    requires Wf(s)
    ensures Received(SubscribeS(s).0.trace, SubscribeS(s).1)
      == [s.value] + (if |s.listeners| == 0 && s.start.Start? then s.start.sets else [])
    ensures SubscribeS(s).0.listeners == s.listeners + [SubscribeS(s).1]
  {
    var tok := s.next;
    var e := Enlist(s);
    EnlistNotifies(s);
    if |s.listeners| == 0 && s.start.Start? {
      var a := e.(trace := e.trace + [Started]);
      assert a.trace[..|a.trace| - 1] == e.trace;
      assert Received(a.trace, tok) == [s.value];
      EnlistKeepsWf(s);
      SubscriberSeesEverySet(a, s.start.sets, tok);
      assert SubscribeS(s).0.trace == SetAll(a, s.start.sets).trace;
    }
  }

  /** The first half of `subscribe` calls the new listener with the current value only. */
  lemma EnlistNotifies<T>(s: StoreState<T>)
    requires Wf(s)
    ensures Received(Enlist(s).trace, s.next) == [s.value]
  {
    ReceivedNone(s.trace, s.next);
    assert Enlist(s).trace[..|Enlist(s).trace| - 1] == s.trace;
  }

  /** `readable(0, set => { set(1) })`: the first subscriber is called with 0, then with 1. */
  lemma StartCallbackSetsReachFirstSubscriber()
    ensures
      var (s1, tok) := SubscribeS(Initial(0, Start([1], false)));
      Received(s1.trace, tok) == [0, 1] && s1.value == 1
  {
    SubscribeNotifiesCurrentValue(Initial(0, Start([1], false)));
  }

  /** `set` calls every current listener exactly once with the new value, whether or not
      the value changed, and nobody else. */
  lemma SetNotifiesEveryListenerOnce<T>(s: StoreState<T>, v: T, l: nat)
    requires Wf(s)
    ensures Received(SetS(s, v).trace, l) == Received(s.trace, l) + (if l in s.listeners then [v] else [])
  {
    ReceivedAppend(s.trace, Notifications(s.listeners, v), l);
    ReceivedRound(s.listeners, v, l);
  }

  /** Every subscriber observes exactly the values passed to a run of `set` calls, in order,
      with nothing coalesced; `get` then returns the last of them. */
  lemma {:induction false} SubscriberSeesEverySet<T>(s: StoreState<T>, vs: seq<T>, l: nat)
    requires Wf(s) && l in s.listeners
    ensures Received(SetAll(s, vs).trace, l) == Received(s.trace, l) + vs
    ensures SetAll(s, vs).value == if vs == [] then s.value else vs[|vs| - 1]
    decreases |vs|
  {
    if vs != [] {
      var s1 := SetS(s, vs[0]);
      SetNotifiesEveryListenerOnce(s, vs[0], l);
      StoreOperationsKeepWf(s, vs[0], 0);
      SubscriberSeesEverySet(s1, vs[1..], l);
      assert [vs[0]] + vs[1..] == vs;
    }
  }

  lemma {:induction false} WithoutSplit(a: seq<nat>, tok: nat, b: seq<nat>)
    requires Distinct(a + [tok] + b)
    ensures Without(a + [tok] + b, tok) == a + b
  {
    if a == [] {
      assert ([tok] + b)[1..] == b;
      WithoutAbsent(b, tok);
    } else {
      assert (a + [tok] + b)[1..] == a[1..] + [tok] + b;
      assert Distinct(a[1..] + [tok] + b) by {
        var s := a[1..] + [tok] + b;
        forall i, j | 0 <= i < j < |s| ensures s[i] != s[j] {
          assert s[i] == (a + [tok] + b)[i + 1] && s[j] == (a + [tok] + b)[j + 1];
        }
      }
      WithoutSplit(a[1..], tok, b);
      assert (a + [tok] + b)[0] == a[0] && (a + [tok] + b)[|a|] == tok;
      assert [a[0]] + (a[1..] + b) == a + b;
    }
  }

  lemma {:induction false} WithoutAbsent(b: seq<nat>, tok: nat)
    requires tok !in b
    ensures Without(b, tok) == b
  {
    if b != [] {
      WithoutAbsent(b[1..], tok);
      assert [b[0]] + b[1..] == b;
    }
  }

  /** An unsubscriber removes only the entry its own `subscribe` created and keeps the other
      listeners in order. */
  lemma UnsubscribeRemovesOnlyItsEntry<T>(s: StoreState<T>, a: seq<Token>, tok: Token, b: seq<Token>)
    requires Wf(s) && s.listeners == a + [tok] + b
    ensures UnsubscribeS(s, tok).listeners == a + b
    ensures UnsubscribeS(s, tok).trace == s.trace + (if a + b == [] && s.stop then [Stopped] else [])
  {
    WithoutSplit(a, tok, b);
  }

  /** One activation cycle: the first subscriber of an empty store starts it, and its
      unsubscriber empties the list again and runs the stop callback exactly when the start
      callback returned one. */
  lemma ActivationCycle<T>(s: StoreState<T>)
    requires Wf(s) && s.listeners == []
    ensures
      var (s1, tok) := SubscribeS(s);
      var s2 := UnsubscribeS(s1, tok);
      && (Started in s1.trace[|s.trace|..] <==> s.start.Start?)
      && s2.listeners == []
      && s2.trace == s1.trace + (if s.start.Start? && s.start.returnsStop then [Stopped] else [])
  {
    var (s1, tok) := SubscribeS(s);
    StoreOperationsKeepWf(s, s.value, tok);
    UnsubscribeRemovesOnlyItsEntry(s1, [], tok, []);
  }

  /** The unsubscriber is not idempotent: called again after the list became empty, it runs
      the stop callback a second time. */
  lemma UnsubscribeTwiceStopsTwice<T>(v: T, w: T)
    ensures
      var s0 := Initial(v, Start([], true));
      var (s1, tok) := SubscribeS(s0);
      var s2 := UnsubscribeS(UnsubscribeS(s1, tok), tok);
      s2.trace == [Notified(0, v), Started, Stopped, Stopped]
  {
  }

  /** A writable store (`writable(initialValue, start)`): the closure variables `value`,
      `listeners` and `stop` become fields, and `trace` records the calls it makes. */
  class Writable<T> {
    var value: T
    var listeners: seq<Token>
    var next: Token
    const start: StartHook<T>
    var stop: bool
    var trace: seq<Event<T>>

    function State(): StoreState<T>
      reads this
    {
      StoreState(value, listeners, next, start, stop, trace)
    }

    constructor (initialValue: T, start: StartHook<T>)
      ensures State() == Initial(initialValue, start)
    {
      value := initialValue;
      listeners := [];
      next := 0;
      this.start := start;
      stop := false;
      trace := [];
    }

    method Subscribe() returns (tok: Token)
      modifies this
      ensures (State(), tok) == SubscribeS(old(State()))
    {
      tok := next;
      var activate := |listeners| == 0;
      trace := trace + [Notified(tok, value)];
      listeners := listeners + [tok];
      next := next + 1;
      if activate {
        match start
        case NoStart =>
          stop := false;
        case Start(sets, returnsStop) =>
          trace := trace + [Started];
          ghost var started := State();
          var i := 0;
          while i < |sets|
            invariant 0 <= i <= |sets|
            invariant State() == SetAll(started, sets[..i])
          {
            SetAllSnoc(started, sets[..i], sets[i]);
            assert sets[..i + 1] == sets[..i] + [sets[i]];
            Set(sets[i]);
            i := i + 1;
          }
          assert sets[..i] == sets;
          stop := returnsStop;
      }
    }

    /** The function returned by `subscribe` for token `tok`. */
    method Unsubscribe(tok: Token)
      requires tok < next
      modifies this
      ensures State() == UnsubscribeS(old(State()), tok)
    {
      listeners := Without(listeners, tok);
      if |listeners| == 0 && stop {
        trace := trace + [Stopped];
      }
    }

    method Set(newValue: T)
      modifies this
      ensures State() == SetS(old(State()), newValue)
    {
      value := newValue;
      var i := 0;
      while i < |listeners|
        invariant 0 <= i <= |listeners|
        invariant listeners == old(listeners) && value == newValue
        invariant next == old(next) && stop == old(stop)
        invariant trace == old(trace) + Notifications(listeners[..i], newValue)
      {
        assert Notifications(listeners[..i + 1], newValue)
          == Notifications(listeners[..i], newValue) + [Notified(listeners[i], newValue)];
        trace := trace + [Notified(listeners[i], value)];
        i := i + 1;
      }
      assert listeners[..i] == listeners;
    }

    /** `update(f)` is `set(f(value))`. */
    method Update(f: T -> T)
      modifies this
      ensures State() == SetS(old(State()), f(old(value)))
    {
      Set(f(value));
    }

    /** `get()`, and the `value` getter. */
    method Get() returns (v: T)
      ensures v == value
    {
      v := value;
    }
  }

  /** `readable(initialValue, start)`: the `subscribe` and `get` of a private writable, whose
      `set` only the start callback can reach. */
  class Readable<T> {
    const inner: Writable<T>

    constructor (initialValue: T, start: StartHook<T>)
      ensures fresh(inner) && inner.State() == Initial(initialValue, start)
    {
      inner := new Writable(initialValue, start);
    }

    method Subscribe() returns (tok: Token)
      modifies inner
      ensures (inner.State(), tok) == SubscribeS(old(inner.State()))
    {
      tok := inner.Subscribe();
    }

    method Get() returns (v: T)
      ensures v == inner.value
    {
      v := inner.Get();
    }
  }

  /** `derived(dependency, f)`, single-dependency form. Construction subscribes to the
      dependency, whose immediate call runs `f` on its current value; the subscription is
      never released. */
  class Derived<T, U> {
    const dep: Writable<T>
    const f: T -> U
    const token: Token
    var value: U
    var listeners: seq<ListenerId>
    var trace: seq<Event<U>>
    /** The arguments `f` was called with, in order. */
    var inputs: seq<T>

    constructor (dep: Writable<T>, f: T -> U)
      modifies dep
      ensures this.dep == dep && this.f == f
      ensures (dep.State(), token) == SubscribeS(old(dep.State()))
      ensures inputs == [old(dep.value)]
        + (if |old(dep.listeners)| == 0 && dep.start.Start? then dep.start.sets else [])
      ensures value == f(dep.value)
      ensures listeners == [] && trace == []
    {
      this.dep := dep;
      this.f := f;
      var v0 := dep.value;
      var activates := |dep.listeners| == 0 && dep.start.Start?;
      var tok := dep.Subscribe();
      token := tok;
      inputs := [v0] + (if activates then dep.start.sets else []);
      value := f(dep.value);
      listeners := [];
      trace := [];
    }

    /** The listener it registered on `dep`, called with the dependency's new value:
        recompute, then notify every own listener in order. */
    method OnDependency(v: T)
      modifies this
      ensures value == f(v) && inputs == old(inputs) + [v]
      ensures listeners == old(listeners)
      ensures trace == old(trace) + Notifications(listeners, f(v))
    {
      value := f(v);
      inputs := inputs + [v];
      var i := 0;
      while i < |listeners|
        invariant 0 <= i <= |listeners|
        invariant value == f(v) && inputs == old(inputs) + [v] && listeners == old(listeners)
        invariant trace == old(trace) + Notifications(listeners[..i], value)
      {
        assert Notifications(listeners[..i + 1], value)
          == Notifications(listeners[..i], value) + [Notified(listeners[i], value)];
        trace := trace + [Notified(listeners[i], value)];
        i := i + 1;
      }
      assert listeners[..i] == listeners;
    }

    method Subscribe(g: ListenerId)
      modifies this
      ensures trace == old(trace) + [Notified(g, value)]
      ensures listeners == old(listeners) + [g]
      ensures value == old(value) && inputs == old(inputs)
    {
      trace := trace + [Notified(g, value)];
      listeners := listeners + [g];
    }

    /** The unsubscriber filters by the listener itself, so it removes every entry of `g`;
        a derived store has no stop callback. */
    method Unsubscribe(g: ListenerId)
      modifies this
      ensures listeners == Without(old(listeners), g)
      ensures trace == old(trace) && value == old(value) && inputs == old(inputs)
    {
      listeners := Without(listeners, g);
    }

    method Get() returns (v: U)
      ensures v == value
    {
      v := value;
    }
  }

  /** The combiner arguments of an array-form derived store whose dependencies started at
      `initial` and then notified the events `(index, value)` in order: the initial snapshot,
      then one updated snapshot per event. */
  function Snapshots<T>(initial: seq<T>, events: seq<(nat, T)>): (r: seq<seq<T>>)
    requires forall k :: 0 <= k < |events| ==> events[k].0 < |initial|
    ensures |r| == |events| + 1 && r[0] == initial
    ensures forall k :: 0 <= k < |r| ==> |r[k]| == |initial|
  {
    if events == [] then [initial]
    else
      var prev := Snapshots(initial, events[..|events| - 1]);
      var e := events[|events| - 1];
      prev + [prev[|prev| - 1][e.0 := e.1]]
  }

  /** The value dependency `j` last notified among `events`, or its initial value. */
  function Latest<T>(initial: seq<T>, events: seq<(nat, T)>, j: nat): T
    requires j < |initial|
  {
    if events == [] then initial[j]
    else if events[|events| - 1].0 == j then events[|events| - 1].1
    else Latest(initial, events[..|events| - 1], j)
  }

  /** Every combiner call after construction sees the latest value of every dependency: the
      k-th call's argument holds, for each dependency, the last value it notified among the
      first k events. */
  lemma {:induction false} SnapshotsAreLatest<T>(initial: seq<T>, events: seq<(nat, T)>, k: nat, j: nat)
    requires forall i :: 0 <= i < |events| ==> events[i].0 < |initial|
    requires k <= |events| && j < |initial|
    ensures Snapshots(initial, events)[k][j] == Latest(initial, events[..k], j)
    decreases |events|
  {
    if events != [] {
      var pre := events[..|events| - 1];
      if k == |events| {
        assert events[..k] == events;
        if events[|events| - 1].0 != j {
          SnapshotsAreLatest(initial, pre, |pre|, j);
          assert pre[..|pre|] == pre;
          assert events[..k][..|events| - 1] == pre;
        }
      } else {
        SnapshotsAreLatest(initial, pre, k, j);
        assert pre[..k] == events[..k];
      }
    } else {
      assert events[..k] == [];
    }
  }

  /** `derived([dep0, dep1, ...], f)`, array form. While subscribing it only records each
      dependency's value; `f` runs once all are subscribed, then once per dependency
      notification on the latest snapshot. */
  class DerivedAll<T, U> {
    const deps: seq<Writable<T>>
    const f: seq<T> -> U
    const tokens: seq<Token>
    var values: seq<T>
    var value: U
    var listeners: seq<ListenerId>
    var trace: seq<Event<U>>
    /** The arguments `f` was called with, in order. */
    var calls: seq<seq<T>>
    ghost const initial: seq<T>
    /** The dependency notifications received since construction. */
    ghost var events: seq<(nat, T)>

    ghost predicate Valid()
      reads this
    {
      && |values| == |deps| == |tokens| == |initial|
      && (forall k :: 0 <= k < |events| ==> events[k].0 < |initial|)
      && calls == Snapshots(initial, events)
      && values == calls[|calls| - 1]
      && value == f(values)
    }

    constructor (deps: seq<Writable<T>>, f: seq<T> -> U)
      modifies set d | d in deps
      ensures Valid() && this.deps == deps && this.f == f
      ensures |initial| == |deps| && forall i :: 0 <= i < |deps| ==> initial[i] == deps[i].value
      ensures calls == [initial] && events == []
      ensures forall i :: 0 <= i < |deps| ==> tokens[i] in deps[i].listeners
      ensures forall i :: 0 <= i < |deps| ==>
        deps[i].value == AfterStart(old(deps[i].value), |old(deps[i].listeners)|, deps[i].start)
      ensures listeners == [] && trace == []
    {
      this.deps := deps;
      this.f := f;
      var toks: seq<Token> := [];
      var vals: seq<T> := [];
      var i := 0;
      while i < |deps|
        invariant 0 <= i <= |deps|
        invariant |toks| == |vals| == i
        invariant forall k :: 0 <= k < i ==> vals[k] == deps[k].value
        invariant forall k :: 0 <= k < i ==> toks[k] in deps[k].listeners
        invariant forall k :: 0 <= k < |deps| ==>
          (deps[k].value
           == if deps[k] in deps[..i] then AfterStart(old(deps[k].value), |old(deps[k].listeners)|, deps[k].start)
           else old(deps[k].value))
        invariant forall k :: 0 <= k < |deps| && deps[k] !in deps[..i] ==>
          deps[k].listeners == old(deps[k].listeners)
      {
        assert deps[..i + 1] == deps[..i] + [deps[i]];
        var tok := deps[i].Subscribe();
        toks := toks + [tok];
        vals := vals + [deps[i].value];
        i := i + 1;
      }
      tokens := toks;
      values := vals;
      initial := vals;
      calls := [vals];
      value := f(vals);
      events := [];
      listeners := [];
      trace := [];
    }

    /** The listener it registered on dependency `i`, called with value `v`. */
    method OnDependency(i: nat, v: T)
      requires Valid() && i < |deps|
      modifies this
      ensures Valid()
      ensures values == old(values)[i := v] && value == f(values)
      ensures calls == old(calls) + [values] && events == old(events) + [(i, v)]
      ensures listeners == old(listeners)
      ensures trace == old(trace) + Notifications(listeners, value)
    {
      values := values[i := v];
      events := events + [(i, v)];
      assert events[..|events| - 1] == old(events);
      calls := calls + [values];
      value := f(values);
      Emit();
    }

    /** `listeners.forEach(l => l(value))` */
    method Emit()
      modifies this`trace
      ensures trace == old(trace) + Notifications(listeners, value)
    {
      var k := 0;
      while k < |listeners|
        invariant 0 <= k <= |listeners|
        invariant trace == old(trace) + Notifications(listeners[..k], value)
      {
        assert Notifications(listeners[..k + 1], value)
          == Notifications(listeners[..k], value) + [Notified(listeners[k], value)];
        trace := trace + [Notified(listeners[k], value)];
        k := k + 1;
      }
      assert listeners[..k] == listeners;
    }

    method Subscribe(g: ListenerId)
      modifies this
      ensures trace == old(trace) + [Notified(g, value)]
      ensures listeners == old(listeners) + [g]
      ensures value == old(value) && values == old(values) && calls == old(calls)
      ensures events == old(events)
    {
      trace := trace + [Notified(g, value)];
      listeners := listeners + [g];
    }

    method Unsubscribe(g: ListenerId)
      modifies this
      ensures listeners == Without(old(listeners), g)
      ensures trace == old(trace) && value == old(value) && calls == old(calls)
      ensures values == old(values) && events == old(events)
    {
      listeners := Without(listeners, g);
    }

    method Get() returns (v: U)
      ensures v == value
    {
      v := value;
    }
  }

  /** `subscribe(dependencies, f)`: an array-form derived store with the identity combiner,
      to which `f` subscribes; `f` is called at once with the snapshot of every dependency. */
  method SubscribeAll<T>(deps: seq<Writable<T>>, g: ListenerId) returns (store: DerivedAll<T, seq<T>>)
    modifies set d | d in deps
    ensures fresh(store) && store.Valid() && store.deps == deps
    ensures |store.value| == |deps| && forall i :: 0 <= i < |deps| ==> store.value[i] == deps[i].value
    ensures forall i :: 0 <= i < |deps| ==>
      deps[i].value == AfterStart(old(deps[i].value), |old(deps[i].listeners)|, deps[i].start)
    ensures store.listeners == [g] && store.trace == [Notified(g, store.value)]
  {
    store := new DerivedAll(deps, vs => vs);
    store.Subscribe(g);
  }

  /** What `isReadable` and `isWritable` can observe of an arbitrary value: a falsy value,
      another primitive, or an object with the listed members, `got` being what its `get()`
      returns and `valueProp` its `value` property. */
  datatype Candidate<T> =
    | Falsy
    | Primitive
    | Object(hasSubscribe: bool, hasGet: bool, got: T, valueProp: T, hasSet: bool, hasUpdate: bool)

  /** `isReadable(x)`; the `in` operator throws on a truthy primitive. */
  function IsReadable<T(==)>(c: Candidate<T>): (r: Result<bool>)
    ensures r.Err? <==> c.Primitive?
    ensures r == Ok(true) <==> c.Object? && c.hasSubscribe && c.hasGet && c.got == c.valueProp
  {
    match c
    case Falsy => Ok(false)
    case Primitive => Err(TypeError)
    case Object(sub, get, got, val, _, _) => Ok(sub && get && got == val)
  }

  /** `isWritable(x)` */
  function IsWritable<T(==)>(c: Candidate<T>): (r: Result<bool>)
    ensures r == Ok(true) ==> IsReadable(c) == Ok(true)
    ensures r == Ok(true) <==> IsReadable(c) == Ok(true) && c.hasSet && c.hasUpdate
  {
    match IsReadable(c)
    case Err(e) => Err(e)
    case Ok(b) => Ok(b && c.hasSet && c.hasUpdate)
  }

  /** Every writable store passes `isWritable`: its `get()` and `value` agree. */
  lemma WritableIsWritable<T>(s: StoreState<T>)
    ensures IsWritable(Object(true, true, s.value, s.value, true, true)) == Ok(true)
  {
  }

  /** A readable store passes `isReadable` but not `isWritable`. */
  lemma ReadableIsNotWritable<T>(s: StoreState<T>)
    ensures IsReadable(Object(true, true, s.value, s.value, false, false)) == Ok(true)
    ensures IsWritable(Object(true, true, s.value, s.value, false, false)) == Ok(false)
  {
  }
}
