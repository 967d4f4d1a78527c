/** Concrete events of three listeners, and what one dispatch pass does on
    them.  The argument tuple is a single `int` that the callbacks ignore. */
module Scenarios {
  import opened Ordering
  import opened Registry
  import opened Dispatch

  const Veto := Effect([], Returns(false))
  const Agree := Effect([], Returns(true))

  /** A callback that performs no removal and answers `b`. */
  function Answer(b: bool): int -> Effect {
    _ => Effect([], Returns(b))
  }

  /** A callback that runs the removals `rs` on its own event and answers true. */
  function Removing(rs: seq<Removal>): int -> Effect {
    _ => Effect(rs, Returns(true))
  }

  /** An event whose listeners 0, 1 and 2 have callbacks `f0`, `f1`, `f2`,
      as three `AddListener` calls on a fresh event leave it. */
  function Three(o: Order, f0: int -> Effect, f1: int -> Effect, f2: int -> Effect): Event<int> {
    Event(o, map[0 := Listener(f0, Unowned), 1 := Listener(f1, Unowned), 2 := Listener(f2, Unowned)], 3)
  }

  /** Three registrations on a fresh `PreEvent` hand out ids 0, 1, 2 and
      build exactly `Three`. */
  lemma ThreeRegistrations(f0: int -> Effect, f1: int -> Effect, f2: int -> Effect)
    ensures var (e1, a) := AddListener(PreEvent(), f0);
      var (e2, b) := AddListener(e1, f1);
      var (e3, c) := AddListener(e2, f2);
      [a, b, c] == [0, 1, 2] && e3 == Three(Ascending, f0, f1, f2) && Valid(e3)
  {
    var (e1, a) := AddListener(PreEvent(), f0);
    var (e2, b) := AddListener(e1, f1);
    var (e3, c) := AddListener(e2, f2);
    assert e3.listeners == Three(Ascending, f0, f1, f2).listeners;
  }

  /** Traversal of the key sets that occur below, in each order. */
  lemma Keys012()
    ensures First(Ascending, {0, 1, 2}) == Some(0) && First(Descending, {0, 1, 2}) == Some(2)
    ensures Next(Ascending, {0, 1, 2}, 0) == Some(1) && Next(Ascending, {0, 1, 2}, 1) == Some(2)
    ensures Next(Ascending, {0, 1, 2}, 2) == None
    ensures Next(Descending, {0, 1, 2}, 2) == Some(1) && Next(Descending, {0, 1, 2}, 1) == Some(0)
    ensures Next(Descending, {0, 1, 2}, 0) == None
  {
    var s: set<int> := {0, 1, 2};
    assert 0 in s && 1 in s && 2 in s;
  }

  lemma Keys02()
    ensures Next(Ascending, {0, 2}, 0) == Some(2) && Next(Ascending, {0, 2}, 2) == None
  {
    var s: set<int> := {0, 2};
    assert 0 in s && 2 in s;
  }

  /** One iteration at `k` that leaves `k` registered, followed by the rest
      of the pass from `k'`. */
  lemma StepOn<A>(o: Order, mode: Conjunction, args: A, m: Listeners<A>, k: int, res: bool,
                  v: Visit, m': Listeners<A>, res': bool, k': int, q: Pass<A>)
    requires k in m && Step(mode, args, m, k, res) == (v, m', res')
    requires k in m' && Next(o, m'.Keys, k) == Some(k') && k' in m'
    requires Walk(o, mode, args, m', k', res') == q
    ensures Walk(o, mode, args, m, k, res) == Before(v, q)
  {
  }

  /** The last iteration of a pass at `k`. */
  lemma StepLast<A>(o: Order, mode: Conjunction, args: A, m: Listeners<A>, k: int, res: bool,
                    v: Visit, m': Listeners<A>, res': bool)
    requires k in m && Step(mode, args, m, k, res) == (v, m', res')
    requires k !in m' || Next(o, m'.Keys, k) == None
    ensures Walk(o, mode, args, m, k, res) == Pass(res', [v], m', k !in m')
  {
  }

  /** Line 71 as written: on a `PreEvent` whose listener 0 answers false,
      the callbacks of listeners 1 and 2 never run, although the comment
      above the loop says every listener should be called. */
  lemma ShortCircuitSkipsLaterListeners<A>(e: Event<A>, args: A)
    requires e.order == Ascending && e.listeners.Keys == {0, 1, 2}
    requires e.listeners[0].callback(args) == Veto
    ensures Invoke(e, args) == Pass(false, [Called(0, Veto), Skipped(1), Skipped(2)], e.listeners, false)
  {
    Keys012();
    var m := e.listeners;
    assert ApplyRemovals(m, []) == m;
    StepLast(Ascending, ShortCircuit, args, m, 2, false, Skipped(2), m, false);
    var p2 := Pass(false, [Skipped(2)], m, false);
    StepOn(Ascending, ShortCircuit, args, m, 1, false, Skipped(1), m, false, 2, p2);
    var p1 := Pass(false, [Skipped(1), Skipped(2)], m, false);
    StepOn(Ascending, ShortCircuit, args, m, 0, true, Called(0, Veto), m, false, 1, p1);
    InvokeRuns(e, args);
  }

  /** The intended loop on the same event calls all three listeners and
      still returns false. */
  lemma CallAllReachesEveryListener<A>(e: Event<A>, args: A)
    requires e.order == Ascending && e.listeners.Keys == {0, 1, 2}
    requires e.listeners[0].callback(args) == Veto
    requires e.listeners[1].callback(args) == Agree && e.listeners[2].callback(args) == Agree
    ensures InvokeAll(e, args) == Pass(false, [Called(0, Veto), Called(1, Agree), Called(2, Agree)], e.listeners, false)
  {
    Keys012();
    var m := e.listeners;
    assert ApplyRemovals(m, []) == m;
    StepLast(Ascending, CallAll, args, m, 2, false, Called(2, Agree), m, false);
    var p2 := Pass(false, [Called(2, Agree)], m, false);
    StepOn(Ascending, CallAll, args, m, 1, false, Called(1, Agree), m, false, 2, p2);
    var p1 := Pass(false, [Called(1, Agree), Called(2, Agree)], m, false);
    StepOn(Ascending, CallAll, args, m, 0, true, Called(0, Veto), m, false, 1, p1);
    InvokeRuns(e, args);
  }

  /** The counterexample itself: three listeners registered on a fresh
      `PreEvent`, the first answering false.  As written only the first is
      called; the intended loop calls all three; both return false. */
  lemma FirstVetoCounterexample()
    ensures var e := Three(Ascending, Answer(false), Answer(true), Answer(true));
      && Invoke(e, 0).visits == [Called(0, Veto), Skipped(1), Skipped(2)]
      && InvokeAll(e, 0).visits == [Called(0, Veto), Called(1, Agree), Called(2, Agree)]
      && !Invoke(e, 0).result && !InvokeAll(e, 0).result
  {
    var e := Three(Ascending, Answer(false), Answer(true), Answer(true));
    assert e.listeners.Keys == {0, 1, 2};
    assert e.listeners[0].callback(0) == Veto;
    assert e.listeners[1].callback(0) == Agree && e.listeners[2].callback(0) == Agree;
    ShortCircuitSkipsLaterListeners(e, 0);
    CallAllReachesEveryListener(e, 0);
  }

  /** A `PostEvent` calls the listener registered last first. */
  lemma PostEventRunsNewestFirst<A>(e: Event<A>, args: A)
    requires e.order == Descending && e.listeners.Keys == {0, 1, 2}
    requires forall k :: k in e.listeners ==> e.listeners[k].callback(args) == Agree
    ensures Invoke(e, args) == Pass(true, [Called(2, Agree), Called(1, Agree), Called(0, Agree)], e.listeners, false)
  {
    Keys012();
    var m := e.listeners;
    assert 0 in m && 1 in m && 2 in m;
    assert ApplyRemovals(m, []) == m;
    StepLast(Descending, ShortCircuit, args, m, 0, true, Called(0, Agree), m, true);
    var p0 := Pass(true, [Called(0, Agree)], m, false);
    StepOn(Descending, ShortCircuit, args, m, 1, true, Called(1, Agree), m, true, 0, p0);
    var p1 := Pass(true, [Called(1, Agree), Called(0, Agree)], m, false);
    StepOn(Descending, ShortCircuit, args, m, 2, true, Called(2, Agree), m, true, 1, p1);
    InvokeRuns(e, args);
  }

  /** Listener 0 deletes listener 1: the pass moves from 0 straight to 2,
      and listener 1 is gone afterwards, as written and as intended. */
  lemma DeletedListenerIsSkipped<A>(e: Event<A>, args: A)
    requires e.order == Ascending && e.listeners.Keys == {0, 1, 2}
    requires e.listeners[0].callback(args) == Effect([RemoveId(1)], Returns(true))
    requires e.listeners[2].callback(args) == Agree
    ensures var p := InvokeAll(e, args);
      && p.result && !p.aborted && p.listeners == e.listeners - {1}
      && p.visits == [Called(0, Effect([RemoveId(1)], Returns(true))), Called(2, Agree)]
      && Invoke(e, args) == p
  {
    Keys012();
    Keys02();
    var m := e.listeners;
    var eff := Effect([RemoveId(1)], Returns(true));
    var m' := ApplyRemovals(m, [RemoveId(1)]);
    assert m' == m - {1};
    assert m'.Keys == {0, 2};
    assert ApplyRemovals(m', []) == m';
    StepLast(Ascending, CallAll, args, m', 2, true, Called(2, Agree), m', true);
    var p2 := Pass(true, [Called(2, Agree)], m', false);
    StepOn(Ascending, CallAll, args, m, 0, true, Called(0, eff), m', true, 2, p2);
    InvokeRuns(e, args);
    InvokeModesAgree(e, args);
  }

  /** Listener 0 deletes itself: the pass breaks off after it, whatever the
      later listeners would have answered, as written and as intended. */
  lemma SelfDeletionEndsThePass<A>(e: Event<A>, args: A)
    requires e.order == Ascending && e.listeners.Keys == {0, 1, 2}
    requires e.listeners[0].callback(args) == Effect([RemoveId(0)], Returns(true))
    ensures var p := InvokeAll(e, args);
      && p.result && p.aborted && p.listeners == e.listeners - {0}
      && p.visits == [Called(0, Effect([RemoveId(0)], Returns(true)))]
      && Invoke(e, args) == p
  {
    Keys012();
    var m := e.listeners;
    var eff := Effect([RemoveId(0)], Returns(true));
    var m' := ApplyRemovals(m, [RemoveId(0)]);
    assert m' == m - {0};
    StepLast(Ascending, CallAll, args, m, 0, true, Called(0, eff), m', true);
    InvokeRuns(e, args);
    InvokeModesAgree(e, args);
  }

  /** An empty `std::function` in the middle is reported and passed over:
      the result is decided by the others. */
  lemma BadCallIsPassedOver<A>(e: Event<A>, args: A)
    requires e.order == Ascending && e.listeners.Keys == {0, 1, 2}
    requires e.listeners[0].callback(args) == Agree && e.listeners[2].callback(args) == Agree
    requires e.listeners[1].callback(args) == Effect([], BadCall)
    ensures Invoke(e, args) ==
      Pass(true, [Called(0, Agree), Called(1, Effect([], BadCall)), Called(2, Agree)], e.listeners, false)
  {
    Keys012();
    var m := e.listeners;
    var bad := Effect([], BadCall);
    assert ApplyRemovals(m, []) == m;
    StepLast(Ascending, ShortCircuit, args, m, 2, true, Called(2, Agree), m, true);
    var p2 := Pass(true, [Called(2, Agree)], m, false);
    StepOn(Ascending, ShortCircuit, args, m, 1, true, Called(1, bad), m, true, 2, p2);
    var p1 := Pass(true, [Called(1, bad), Called(2, Agree)], m, false);
    StepOn(Ascending, ShortCircuit, args, m, 0, true, Called(0, Agree), m, true, 1, p1);
    InvokeRuns(e, args);
  }
}
