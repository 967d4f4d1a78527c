/** `Event::operator()`: one dispatch pass over the listeners.

    The loop walks the live map in comparator order.  After each callback it
    checks whether the entry it is standing on was erased (then it stops),
    and otherwise steps to the next key of the map as it is now, so entries
    erased by earlier callbacks are never reached.  That traversal is the
    recursive `Walk`: from key `k`, run one iteration, then continue from
    `Next(order, keys of the current map, k)`.
 */
module Dispatch {
  import opened Ordering
  import opened Registry

  /** How the running result `res` is combined with a listener's answer.
      `ShortCircuit` is `res = res && f(...)` as the loop is written: once
      `res` is false the callback is not evaluated at all.  `CallAll`
      evaluates every callback and then folds its answer into `res`, which is
      what the comment above the loop says the author wanted. */
  datatype Conjunction = ShortCircuit | CallAll

  /** One iteration of the loop: the entry under `id` was reached and its
      callback was either skipped by the short circuit or called. */
  datatype Visit = Skipped(id: int) | Called(id: int, effect: Effect)

  /** One dispatch pass: the value returned, the iterations in order, the
      registry afterwards, and whether the pass ended through the `break`
      taken when the current entry was erased.  A `Called` visit with a
      `BadCall` outcome and an aborted pass are the two places where the
      source writes a debug warning. */
  datatype Pass<-A> = Pass(result: bool, visits: seq<Visit>, listeners: Listeners<A>, aborted: bool)

  // ---------------------------------------------------------------------
  // Properties of a sequence of iterations

  /** The iterations come in strictly increasing traversal order. */
  predicate Ordered(o: Order, vs: seq<Visit>) {
    forall i, j :: 0 <= i < j < |vs| ==> Precedes(o, vs[i].id, vs[j].id)
  }

  /** A listener that was called and answered false. */
  predicate Vetoes(v: Visit) {
    v.Called? && v.effect.outcome == Returns(false)
  }

  /** Some listener called in `vs` answered false. */
  predicate Vetoed(vs: seq<Visit>) {
    exists w :: w in vs && Vetoes(w)
  }

  /** Every iteration of `vs` called its listener. */
  predicate AllCalled(vs: seq<Visit>) {
    forall w :: w in vs ==> w.Called?
  }

  /** Starting from running result `res`, an iteration of `vs` skips its
      callback exactly when `res` was false or an earlier listener answered
      false. */
  predicate ShortCircuits(vs: seq<Visit>, res: bool) {
    forall j :: 0 <= j < |vs| ==> (vs[j].Skipped? <==> !res || Vetoed(vs[..j]))
  }

  /** Every listener called in `vs` produced what its callback in `m` does on `args`. */
  ghost predicate CalledWith<A>(vs: seq<Visit>, m: Listeners<A>, args: A) {
    forall w :: w in vs && w.Called? ==> w.id in m && w.effect == m[w.id].callback(args)
  }

  /** No callback called in `vs` erases an entry with id `x` and module `owner`. */
  predicate Spared(vs: seq<Visit>, x: int, owner: Owner) {
    forall w :: w in vs && w.Called? ==> !Removes(w.effect.removals, x, owner)
  }

  /** `l` is `m` minus exactly the entries erased by the callbacks called in `vs`. */
  ghost predicate KeepsExactly<A>(l: Listeners<A>, vs: seq<Visit>, m: Listeners<A>) {
    forall x :: x in l <==> x in m && Spared(vs, x, m[x].owner)
  }

  /** In `vs`, no called listener erased an entry that is reached after it. */
  ghost predicate SkipsRemoved<A>(vs: seq<Visit>, m: Listeners<A>) {
    && (forall w :: w in vs ==> w.id in m)
    && forall i, j :: 0 <= i < j < |vs| && vs[i].Called? ==>
         !Removes(vs[i].effect.removals, vs[j].id, m[vs[j].id].owner)
  }

  /** A listener whose own call erased the entry it is stored under. */
  predicate RemovesItself<A>(v: Visit, m: Listeners<A>)
    requires v.id in m
  {
    v.Called? && Removes(v.effect.removals, v.id, m[v.id].owner)
  }

  /** In `vs`, only the last listener erased its own entry, and it did so
      exactly when the pass was aborted. */
  ghost predicate StopsOnSelfRemoval<A>(vs: seq<Visit>, m: Listeners<A>, aborted: bool) {
    && |vs| > 0
    && (forall w :: w in vs ==> w.id in m)
    && (forall w :: w in vs[..|vs| - 1] ==> !RemovesItself(w, m))
    && (RemovesItself(vs[|vs| - 1], m) <==> aborted)
  }

  /** Some iteration of `vs` stood on key `x`. */
  predicate Visited(vs: seq<Visit>, x: int) {
    exists w :: w in vs && w.id == x
  }

  /** Key `x` lies before the point where the pass broke off, if it did. */
  predicate BeforeBreak<A>(o: Order, p: Pass<A>, x: int) {
    p.aborted && |p.visits| > 0 ==> Precedes(o, x, p.visits[|p.visits| - 1].id)
  }

  /** Some listener called in `vs` before key `x` is reached erased the entry
      with id `x` and module `owner`. */
  predicate ErasedBefore(o: Order, vs: seq<Visit>, x: int, owner: Owner) {
    exists w :: w in vs && w.Called? && Precedes(o, w.id, x) && Removes(w.effect.removals, x, owner)
  }

  /** Every entry of `m` at or after `k` that lies before the point where pass
      `p` broke off was reached by it, or was erased by a listener the pass
      called before it: the iterator passes over nothing else. */
  ghost predicate Covers<A>(o: Order, p: Pass<A>, m: Listeners<A>, k: int) {
    forall x :: x in m && (x == k || Precedes(o, k, x)) && BeforeBreak(o, p, x) ==>
      Visited(p.visits, x) || ErasedBefore(o, p.visits, x, m[x].owner)
  }

  // ---------------------------------------------------------------------
  // The loop

  /** The running result after a call: `std::bad_function_call` is caught
      before the assignment, so it leaves the result as it was. */
  function Accumulate(res: bool, outcome: Outcome): bool {
    match outcome
    case Returns(b) => res && b
    case BadCall => res
  }

  /** The body of one iteration at key `k`: the visit, the registry after it
      and the running result after it. */
  function Step<A>(mode: Conjunction, args: A, m: Listeners<A>, k: int, res: bool): (r: (Visit, Listeners<A>, bool))
    requires k in m
    ensures r.0.id == k && Submap(r.1, m)
  {
    if mode == ShortCircuit && !res then (Skipped(k), m, res)
    else
      var eff := m[k].callback(args);
      (Called(k, eff), ApplyRemovals(m, eff.removals), Accumulate(res, eff.outcome))
  }

  /** Stepping on from `k` in a registry that only shrank leaves strictly
      fewer keys ahead: the measure of `Walk`. */
  lemma NextShrinks(o: Order, s: set<int>, s': set<int>, k: int, k': int)
    requires s' <= s
    requires Next(o, s', k) == Some(k')
    ensures Beyond(o, s', k') < Beyond(o, s, k)
  {
    assert k' in Beyond(o, s, k) && k' !in Beyond(o, s', k');
    forall x | x in Beyond(o, s', k')
      ensures x in Beyond(o, s, k)
    {
      match o
      case Ascending =>
      case Descending =>
    }
  }

  /** Iteration `v` followed by the rest of the pass, `q`. */
  function Before<A>(v: Visit, q: Pass<A>): Pass<A> {
    Pass(q.result, [v] + q.visits, q.listeners, q.aborted)
  }

  /** The loop from the iteration at key `k` (present in `m`) with running
      result `res` to the end of the pass.  Every iteration stands on a key
      that was registered when the walk started, at or after `k`. */
  function Walk<A>(o: Order, mode: Conjunction, args: A, m: Listeners<A>, k: int, res: bool): (p: Pass<A>)
    requires k in m
    ensures 0 < |p.visits| && p.visits[0].id == k
    ensures forall w :: w in p.visits ==> w.id in m && (w.id == k || Precedes(o, k, w.id))
    ensures Submap(p.listeners, m)
    decreases Beyond(o, m.Keys, k)
  {
    var (v, m', res') := Step(mode, args, m, k, res);
    if k !in m' then Pass(res', [v], m', true)
    else match Next(o, m'.Keys, k)
      case None => Pass(res', [v], m', false)
      case Some(k') =>
        NextShrinks(o, m.Keys, m'.Keys, k, k');
        Before(v, Walk(o, mode, args, m', k', res'))
  }

  /** The iteration at `k` and where the pass goes next: the visit, the
      registry and running result after it, and the key the iterator moves
      to, if the pass goes on. */
  datatype Unfolding<-A> = Unfolding(visit: Visit, after: Listeners<A>, res: bool, next: Option<int>)

  /** One unfolding of `Walk` at `k`, with what each of its parts means. */
  lemma WalkUnfold<A>(o: Order, mode: Conjunction, args: A, m: Listeners<A>, k: int, res: bool)
    returns (u: Unfolding<A>)
    requires k in m
    ensures u.visit.id == k && Submap(u.after, m) && KeepsExactly(u.after, [u.visit], m)
    ensures u.visit.Skipped? <==> mode == ShortCircuit && !res
    ensures u.visit.Called? ==> u.visit.effect == m[k].callback(args)
    ensures u.res <==> res && !Vetoes(u.visit)
    ensures u.next.None? ==> Walk(o, mode, args, m, k, res) == Pass(u.res, [u.visit], u.after, k !in u.after)
    ensures u.next.None? && k in u.after ==> forall y :: y in u.after ==> !Precedes(o, k, y)
    ensures u.next.Some? ==> k in u.after && u.next == Next(o, u.after.Keys, k) && u.next.value in u.after
    ensures u.next.Some? ==> Beyond(o, u.after.Keys, u.next.value) < Beyond(o, m.Keys, k)
    ensures u.next.Some? ==>
      Walk(o, mode, args, m, k, res) == Before(u.visit, Walk(o, mode, args, u.after, u.next.value, u.res))
  {
    var (v, m', res') := Step(mode, args, m, k, res);
    var next := if k in m' then Next(o, m'.Keys, k) else None;
    if next.Some? {
      NextShrinks(o, m.Keys, m'.Keys, k, next.value);
    }
    u := Unfolding(v, m', res', next);
  }

  // ---------------------------------------------------------------------
  // One inductive step for each property

  lemma PrependOrdered(o: Order, v: Visit, vs: seq<Visit>)
    requires forall w :: w in vs ==> Precedes(o, v.id, w.id)
    requires Ordered(o, vs)
    ensures Ordered(o, [v] + vs)
  {
    var ws := [v] + vs;
    forall i, j | 0 <= i < j < |ws|
      ensures Precedes(o, ws[i].id, ws[j].id)
    {
      assert ws[j] == vs[j - 1] && vs[j - 1] in vs;
      if i > 0 {
        assert ws[i] == vs[i - 1];
      }
    }
  }

  lemma PrependVetoed(v: Visit, vs: seq<Visit>)
    ensures Vetoed([v] + vs) <==> Vetoes(v) || Vetoed(vs)
  {
    assert v in [v] + vs;
    assert forall w :: w in [v] + vs <==> w == v || w in vs;
  }

  lemma PrependCalledWith<A>(v: Visit, vs: seq<Visit>, m: Listeners<A>, m': Listeners<A>, args: A)
    requires v.id in m && Submap(m', m) && CalledWith(vs, m', args)
    requires v.Called? ==> v.effect == m[v.id].callback(args)
    ensures CalledWith([v] + vs, m, args)
  {
    forall w | w in [v] + vs && w.Called?
      ensures w.id in m && w.effect == m[w.id].callback(args)
    {
      if w != v {
        assert w in vs && m'[w.id] == m[w.id];
      }
    }
  }

  lemma PrependAllCalled(v: Visit, vs: seq<Visit>)
    requires v.Called? && AllCalled(vs)
    ensures AllCalled([v] + vs)
  {
    assert forall w :: w in [v] + vs ==> w == v || w in vs;
  }

  lemma PrependShortCircuits(v: Visit, vs: seq<Visit>, res: bool, res': bool)
    requires (v.Skipped? <==> !res) && (res' <==> res && !Vetoes(v))
    requires ShortCircuits(vs, res')
    ensures ShortCircuits([v] + vs, res)
  {
    var ws := [v] + vs;
    assert ws[..0] == [];
    forall j | 1 <= j < |ws|
      ensures ws[j].Skipped? <==> !res || Vetoed(ws[..j])
    {
      assert ws[j] == vs[j - 1];
      assert ws[..j] == [v] + vs[..j - 1];
    }
  }

  lemma PrependKeepsExactly<A>(v: Visit, vs: seq<Visit>, l: Listeners<A>, m: Listeners<A>, m': Listeners<A>)
    requires Submap(m', m) && KeepsExactly(m', [v], m) && KeepsExactly(l, vs, m')
    ensures KeepsExactly(l, [v] + vs, m)
  {
    forall x
      ensures x in l <==> x in m && Spared([v] + vs, x, m[x].owner)
    {
      if x in m' {
        assert m'[x] == m[x];
      }
    }
  }

  lemma PrependSkipsRemoved<A>(v: Visit, vs: seq<Visit>, m: Listeners<A>, m': Listeners<A>)
    requires v.id in m && Submap(m', m) && KeepsExactly(m', [v], m) && SkipsRemoved(vs, m')
    ensures SkipsRemoved([v] + vs, m)
  {
    var ws := [v] + vs;
    assert v in [v];
    forall i, j | 0 <= i < j < |ws| && ws[i].Called?
      ensures !Removes(ws[i].effect.removals, ws[j].id, m[ws[j].id].owner)
    {
      assert ws[j] == vs[j - 1] && vs[j - 1] in vs;
      if i > 0 {
        assert ws[i] == vs[i - 1];
      }
    }
  }

  lemma SelfRemovalErases<A>(v: Visit, m: Listeners<A>, m': Listeners<A>)
    requires v.id in m && KeepsExactly(m', [v], m)
    ensures RemovesItself(v, m) <==> v.id !in m'
  {
    assert Spared([v], v.id, m[v.id].owner) <==> !RemovesItself(v, m) by {
      assert forall w :: w in [v] <==> w == v;
    }
  }

  lemma StopsOnlyVisit<A>(v: Visit, m: Listeners<A>, aborted: bool)
    requires v.id in m && (RemovesItself(v, m) <==> aborted)
    ensures StopsOnSelfRemoval([v], m, aborted)
  {
    assert [v][..0] == [];
  }

  lemma PrependStopsOnSelfRemoval<A>(v: Visit, vs: seq<Visit>, m: Listeners<A>, m': Listeners<A>, aborted: bool)
    requires v.id in m && Submap(m', m) && StopsOnSelfRemoval(vs, m', aborted)
    requires !RemovesItself(v, m)
    ensures StopsOnSelfRemoval([v] + vs, m, aborted)
  {
    var ws := [v] + vs;
    assert ws[..|ws| - 1] == [v] + vs[..|vs| - 1];
    assert ws[|ws| - 1] == vs[|vs| - 1];
    forall w | w in vs
      ensures RemovesItself(w, m) <==> RemovesItself(w, m')
    {
      assert m'[w.id] == m[w.id];
    }
  }

  lemma PrependCovers<A>(o: Order, k: int, k': int, v: Visit, q: Pass<A>, m: Listeners<A>, m': Listeners<A>)
    requires v.id == k && |q.visits| > 0 && k in m
    requires Submap(m', m) && KeepsExactly(m', [v], m)
    requires Next(o, m'.Keys, k) == Some(k')
    requires Covers(o, q, m', k')
    ensures Covers(o, Before(v, q), m, k)
  {
    var p := Before(v, q);
    assert p.visits[|p.visits| - 1] == q.visits[|q.visits| - 1];
    assert v in p.visits && forall w :: w in q.visits ==> w in p.visits;
    forall x | x in m && (x == k || Precedes(o, k, x)) && BeforeBreak(o, p, x) && !Visited(p.visits, x)
      ensures ErasedBefore(o, p.visits, x, m[x].owner)
    {
      if x in m' {
        assert m'[x] == m[x] && (x == k' || Precedes(o, k', x)) && BeforeBreak(o, q, x);
        var w :| w in q.visits && w.Called? && Precedes(o, w.id, x) && Removes(w.effect.removals, x, m'[x].owner);
        assert w in p.visits;
      } else {
        assert !Spared([v], x, m[x].owner);
        assert Precedes(o, v.id, x);
      }
    }
  }

  /** A pass whose only iteration is `v` covers the registry: either it
      broke off at `v`, or `v` erased every entry after it. */
  lemma CoversOnlyVisit<A>(o: Order, v: Visit, m: Listeners<A>, m': Listeners<A>, res: bool, aborted: bool)
    requires v.id in m && KeepsExactly(m', [v], m)
    requires aborted <==> v.id !in m'
    requires !aborted ==> forall y :: y in m' ==> !Precedes(o, v.id, y)
    ensures Covers(o, Pass(res, [v], m', aborted), m, v.id)
  {
    var p := Pass(res, [v], m', aborted);
    assert v in p.visits;
    forall x | x in m && Precedes(o, v.id, x) && BeforeBreak(o, p, x)
      ensures ErasedBefore(o, p.visits, x, m[x].owner)
    {
      if aborted {
        match o
        case Ascending =>
        case Descending =>
      } else {
        assert x !in m' && !Spared([v], x, m[x].owner);
      }
    }
  }

  /** In an ordered pass that skips removed entries, an entry erased before
      the iterator gets to it is never reached. */
  lemma ErasedNotVisited<A>(o: Order, vs: seq<Visit>, m: Listeners<A>, x: int)
    requires Ordered(o, vs) && SkipsRemoved(vs, m) && x in m
    requires ErasedBefore(o, vs, x, m[x].owner)
    ensures !Visited(vs, x)
  {
    var w :| w in vs && w.Called? && Precedes(o, w.id, x) && Removes(w.effect.removals, x, m[x].owner);
    var i :| 0 <= i < |vs| && vs[i] == w;
    forall j | 0 <= j < |vs|
      ensures vs[j].id != x
    {
      if j < i {
        assert Precedes(o, vs[j].id, w.id);
        match o
        case Ascending =>
        case Descending =>
      } else if j == i {
        match o
        case Ascending =>
        case Descending =>
      }
    }
  }

  // ---------------------------------------------------------------------
  // Properties of the walk

  /** The iterations of a walk come in strictly increasing traversal order,
      so no entry is reached twice. */
  lemma {:induction false} WalkOrdered<A>(o: Order, mode: Conjunction, args: A, m: Listeners<A>, k: int, res: bool)
    requires k in m
    ensures Ordered(o, Walk(o, mode, args, m, k, res).visits)
    decreases Beyond(o, m.Keys, k)
  {
    var u := WalkUnfold(o, mode, args, m, k, res);
    var Unfolding(v, m', res', next) := u;
    if next.Some? {
      WalkOrdered(o, mode, args, m', next.value, res');
      var q := Walk(o, mode, args, m', next.value, res');
      forall w | w in q.visits
        ensures Precedes(o, k, w.id)
      {
        match o
        case Ascending =>
        case Descending =>
      }
      PrependOrdered(o, v, q.visits);
    }
  }

  /** A called listener's effect is its callback applied to the arguments. */
  lemma {:induction false} WalkEffects<A>(o: Order, mode: Conjunction, args: A, m: Listeners<A>, k: int, res: bool)
    requires k in m
    ensures CalledWith(Walk(o, mode, args, m, k, res).visits, m, args)
    decreases Beyond(o, m.Keys, k)
  {
    var u := WalkUnfold(o, mode, args, m, k, res);
    var Unfolding(v, m', res', next) := u;
    if next.Some? {
      WalkEffects(o, mode, args, m', next.value, res');
      PrependCalledWith(v, Walk(o, mode, args, m', next.value, res').visits, m, m', args);
    } else {
      PrependCalledWith(v, [], m, m', args);
    }
  }

  /** The pass returns true iff its running result started true and no
      called listener answered false; a bad call counts as neither. */
  lemma {:induction false} WalkResult<A>(o: Order, mode: Conjunction, args: A, m: Listeners<A>, k: int, res: bool)
    requires k in m
    ensures var p := Walk(o, mode, args, m, k, res); p.result <==> res && !Vetoed(p.visits)
    decreases Beyond(o, m.Keys, k)
  {
    var u := WalkUnfold(o, mode, args, m, k, res);
    var Unfolding(v, m', res', next) := u;
    if next.None? {
      PrependVetoed(v, []);
    } else {
      WalkResult(o, mode, args, m', next.value, res');
      PrependVetoed(v, Walk(o, mode, args, m', next.value, res').visits);
    }
  }

  /** Without the short circuit every iteration calls its listener. */
  lemma {:induction false} WalkCallsAll<A>(o: Order, args: A, m: Listeners<A>, k: int, res: bool)
    requires k in m
    ensures AllCalled(Walk(o, CallAll, args, m, k, res).visits)
    decreases Beyond(o, m.Keys, k)
  {
    var u := WalkUnfold(o, CallAll, args, m, k, res);
    var Unfolding(v, m', res', next) := u;
    if next.Some? {
      WalkCallsAll(o, args, m', next.value, res');
      PrependAllCalled(v, Walk(o, CallAll, args, m', next.value, res').visits);
    } else {
      PrependAllCalled(v, []);
    }
  }

  /** With the short circuit, an iteration skips its callback exactly when
      the running result was already false: it started false, or an earlier
      listener answered false. */
  lemma {:induction false} WalkShortCircuit<A>(o: Order, args: A, m: Listeners<A>, k: int, res: bool)
    requires k in m
    ensures ShortCircuits(Walk(o, ShortCircuit, args, m, k, res).visits, res)
    decreases Beyond(o, m.Keys, k)
  {
    var u := WalkUnfold(o, ShortCircuit, args, m, k, res);
    var Unfolding(v, m', res', next) := u;
    if next.None? {
      assert [v][..0] == [];
    } else {
      WalkShortCircuit(o, args, m', next.value, res');
      PrependShortCircuits(v, Walk(o, ShortCircuit, args, m', next.value, res').visits, res, res');
    }
  }

  /** The registry after the walk is the one it started from minus exactly
      the entries that the called listeners' removals erased. */
  lemma {:induction false} WalkRegistry<A>(o: Order, mode: Conjunction, args: A, m: Listeners<A>, k: int, res: bool)
    requires k in m
    ensures var p := Walk(o, mode, args, m, k, res); KeepsExactly(p.listeners, p.visits, m)
    decreases Beyond(o, m.Keys, k)
  {
    var u := WalkUnfold(o, mode, args, m, k, res);
    var Unfolding(v, m', res', next) := u;
    if next.Some? {
      WalkRegistry(o, mode, args, m', next.value, res');
      var q := Walk(o, mode, args, m', next.value, res');
      PrependKeepsExactly(v, q.visits, q.listeners, m, m');
    }
  }

  /** An entry erased by a listener that was called is never reached later
      in the same pass. */
  lemma {:induction false} WalkSkipsRemoved<A>(o: Order, mode: Conjunction, args: A, m: Listeners<A>, k: int, res: bool)
    requires k in m
    ensures SkipsRemoved(Walk(o, mode, args, m, k, res).visits, m)
    decreases Beyond(o, m.Keys, k)
  {
    var u := WalkUnfold(o, mode, args, m, k, res);
    var Unfolding(v, m', res', next) := u;
    if next.Some? {
      WalkSkipsRemoved(o, mode, args, m', next.value, res');
      PrependSkipsRemoved(v, Walk(o, mode, args, m', next.value, res').visits, m, m');
    }
  }

  /** The pass breaks off exactly after a called listener erased its own
      entry: no listener before the last did so, and the last one did iff
      the pass was aborted. */
  lemma {:induction false} WalkAbort<A>(o: Order, mode: Conjunction, args: A, m: Listeners<A>, k: int, res: bool)
    requires k in m
    ensures var p := Walk(o, mode, args, m, k, res); StopsOnSelfRemoval(p.visits, m, p.aborted)
    decreases Beyond(o, m.Keys, k)
  {
    var u := WalkUnfold(o, mode, args, m, k, res);
    var Unfolding(v, m', res', next) := u;
    SelfRemovalErases(v, m, m');
    if next.None? {
      StopsOnlyVisit(v, m, k !in m');
    } else {
      WalkAbort(o, mode, args, m', next.value, res');
      var q := Walk(o, mode, args, m', next.value, res');
      PrependStopsOnSelfRemoval(v, q.visits, m, m', q.aborted);
    }
  }

  /** Every entry registered at the start, at or after `k`, and before the
      point where an aborted pass broke off, was reached by the walk unless a
      listener called earlier in the pass erased it. */
  lemma {:induction false} WalkComplete<A>(o: Order, mode: Conjunction, args: A, m: Listeners<A>, k: int, res: bool)
    requires k in m
    ensures Covers(o, Walk(o, mode, args, m, k, res), m, k)
    decreases Beyond(o, m.Keys, k)
  {
    var u := WalkUnfold(o, mode, args, m, k, res);
    var Unfolding(v, m', res', next) := u;
    if next.None? {
      CoversOnlyVisit(o, v, m, m', res', k !in m');
    } else {
      WalkComplete(o, mode, args, m', next.value, res');
      var q := Walk(o, mode, args, m', next.value, res');
      PrependCovers(o, k, next.value, v, q, m, m');
    }
  }

  /** The short circuit never changes the value a walk returns, only which
      callbacks run; and while that value is true the two modes run exactly
      the same pass. */
  lemma {:induction false} ModesAgree<A>(o: Order, args: A, m: Listeners<A>, k: int, res: bool)
    requires k in m
    ensures Walk(o, ShortCircuit, args, m, k, res).result == Walk(o, CallAll, args, m, k, res).result
    ensures Walk(o, ShortCircuit, args, m, k, res).result ==>
      Walk(o, ShortCircuit, args, m, k, res) == Walk(o, CallAll, args, m, k, res)
    decreases Beyond(o, m.Keys, k)
  {
    if !res {
      WalkResult(o, ShortCircuit, args, m, k, res);
      WalkResult(o, CallAll, args, m, k, res);
    } else {
      assert Step(ShortCircuit, args, m, k, res) == Step(CallAll, args, m, k, res);
      var (v, m', res') := Step(CallAll, args, m, k, res);
      if k in m' && Next(o, m'.Keys, k).Some? {
        var k' := Next(o, m'.Keys, k).value;
        NextShrinks(o, m.Keys, m'.Keys, k, k');
        ModesAgree(o, args, m', k', res');
      }
    }
  }

  // ---------------------------------------------------------------------
  // The whole pass

  /** A pass over the whole event, combining results in the given mode. */
  function Run<A>(e: Event<A>, mode: Conjunction, args: A): Pass<A> {
    match First(e.order, e.listeners.Keys)
    case None => Pass(true, [], e.listeners, false)
    case Some(k) => Walk(e.order, mode, args, e.listeners, k, true)
  }

  /** `operator()` as written, with the short circuit of line 71: an empty
      event yields true; listeners are reached in comparator order; a
      listener's callback runs only while no earlier one answered false; the
      result is false iff some called listener answered false. */
  function Invoke<A>(e: Event<A>, args: A): (p: Pass<A>)
    ensures |e.listeners| == 0 ==> p == Pass(true, [], e.listeners, false)
    ensures Ordered(e.order, p.visits)
    ensures ShortCircuits(p.visits, true)
    ensures p.result <==> !Vetoed(p.visits)
    ensures Submap(p.listeners, e.listeners)
    ensures Valid(e) ==> Valid(e.(listeners := p.listeners))
  {
    match First(e.order, e.listeners.Keys)
    case None => Run(e, ShortCircuit, args)
    case Some(k) =>
      WalkOrdered(e.order, ShortCircuit, args, e.listeners, k, true);
      WalkShortCircuit(e.order, args, e.listeners, k, true);
      WalkResult(e.order, ShortCircuit, args, e.listeners, k, true);
      Run(e, ShortCircuit, args)
  }

  /** `operator()` as the comment above its loop intends: every listener
      reached is called whatever the earlier ones answered, and the result
      is false iff one of them answered false. */
  function InvokeAll<A>(e: Event<A>, args: A): (p: Pass<A>)
    ensures |e.listeners| == 0 ==> p == Pass(true, [], e.listeners, false)
    ensures Ordered(e.order, p.visits)
    ensures AllCalled(p.visits)
    ensures p.result <==> !Vetoed(p.visits)
    ensures Submap(p.listeners, e.listeners)
    ensures Valid(e) ==> Valid(e.(listeners := p.listeners))
  {
    match First(e.order, e.listeners.Keys)
    case None => Run(e, CallAll, args)
    case Some(k) =>
      WalkOrdered(e.order, CallAll, args, e.listeners, k, true);
      WalkCallsAll(e.order, args, e.listeners, k, true);
      WalkResult(e.order, CallAll, args, e.listeners, k, true);
      Run(e, CallAll, args)
  }

  /** The two forms of `operator()` are the two modes of one pass. */
  lemma InvokeRuns<A>(e: Event<A>, args: A)
    ensures Invoke(e, args) == Run(e, ShortCircuit, args)
    ensures InvokeAll(e, args) == Run(e, CallAll, args)
  {
  }

  /** In either mode, a called listener ran its own callback on the
      arguments, and the registry afterwards is the one before minus exactly
      what the called listeners removed. */
  lemma DispatchRegistry<A>(e: Event<A>, mode: Conjunction, args: A)
    ensures var p := Run(e, mode, args);
      CalledWith(p.visits, e.listeners, args) && KeepsExactly(p.listeners, p.visits, e.listeners)
  {
    match First(e.order, e.listeners.Keys)
    case None =>
    case Some(k) =>
      WalkEffects(e.order, mode, args, e.listeners, k, true);
      WalkRegistry(e.order, mode, args, e.listeners, k, true);
  }

  /** In either mode, an entry erased by an earlier callback of the pass is
      skipped, and the pass stops right after, and only after, a listener
      erased its own entry. */
  lemma DispatchRemovals<A>(e: Event<A>, mode: Conjunction, args: A)
    ensures var p := Run(e, mode, args);
      && SkipsRemoved(p.visits, e.listeners)
      && (p.visits == [] ==> !p.aborted)
      && (p.visits != [] ==> StopsOnSelfRemoval(p.visits, e.listeners, p.aborted))
  {
    match First(e.order, e.listeners.Keys)
    case None =>
    case Some(k) =>
      WalkSkipsRemoved(e.order, mode, args, e.listeners, k, true);
      WalkAbort(e.order, mode, args, e.listeners, k, true);
  }

  /** In either mode, a listener registered when the pass starts, and lying
      before the point where the pass broke off, is reached exactly when no
      listener called earlier in the pass erased it.  In particular every
      listener still registered afterwards was reached, unless it lies beyond
      the break. */
  lemma DispatchComplete<A>(e: Event<A>, mode: Conjunction, args: A)
    ensures var p := Run(e, mode, args);
      forall x :: x in e.listeners && BeforeBreak(e.order, p, x) ==>
        (Visited(p.visits, x) <==> !ErasedBefore(e.order, p.visits, x, e.listeners[x].owner))
    ensures var p := Run(e, mode, args);
      forall x :: x in p.listeners && BeforeBreak(e.order, p, x) ==> Visited(p.visits, x)
  {
    match First(e.order, e.listeners.Keys)
    case None =>
    case Some(k) =>
      var p := Run(e, mode, args);
      WalkOrdered(e.order, mode, args, e.listeners, k, true);
      WalkSkipsRemoved(e.order, mode, args, e.listeners, k, true);
      WalkRegistry(e.order, mode, args, e.listeners, k, true);
      WalkComplete(e.order, mode, args, e.listeners, k, true);
      forall x | x in e.listeners && BeforeBreak(e.order, p, x)
        ensures Visited(p.visits, x) <==> !ErasedBefore(e.order, p.visits, x, e.listeners[x].owner)
      {
        assert x == k || Precedes(e.order, k, x);
        if ErasedBefore(e.order, p.visits, x, e.listeners[x].owner) {
          ErasedNotVisited(e.order, p.visits, e.listeners, x);
        }
      }
      forall x | x in p.listeners && BeforeBreak(e.order, p, x)
        ensures Visited(p.visits, x)
      {
        assert x in e.listeners && Spared(p.visits, x, e.listeners[x].owner);
      }
  }

  /** Both forms of `operator()` return the same value on every event; they
      differ only in the callbacks run after the first false answer. */
  lemma InvokeModesAgree<A>(e: Event<A>, args: A)
    ensures Invoke(e, args).result == InvokeAll(e, args).result
    ensures Invoke(e, args).result ==> Invoke(e, args) == InvokeAll(e, args)
  {
    match First(e.order, e.listeners.Keys)
    case None =>
    case Some(k) =>
      ModesAgree(e.order, args, e.listeners, k, true);
  }
}
