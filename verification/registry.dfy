/** The listener registry of `cd::Event`: an ordered map from listener id to
    listener, plus the counter that hands out the next id.

    A `std::function` is modelled by what calling it with the event's
    argument tuple does: the registry calls it makes on its own event
    (`DeleteListener`, `DeleteListenersOfModule`) and what it yields, a
    boolean or `std::bad_function_call`.  `HMODULE` is reduced to an opaque
    token compared only for equality, with `Unowned` standing for `NULL`.
 */
module Registry {
  import opened Ordering

  /** The module a listener belongs to; `Unowned` is the `NULL` handle. */
  datatype Owner = Unowned | Module(handle: nat)

  /** What one invocation of a stored callback produced. */
  datatype Outcome = Returns(value: bool) | BadCall

  /** A removal a callback performs on its own event while it runs:
      `DeleteListener(id)` or `DeleteListenersOfModule(owner)`. */
  datatype Removal = RemoveId(id: int) | RemoveOwned(owner: Owner)

  /** Everything one invocation does: its removals, in order, then its outcome. */
  datatype Effect = Effect(removals: seq<Removal>, outcome: Outcome)

  /** One subscription: the callback over argument tuples `A` and its module. */
  datatype Listener<-A> = Listener(callback: A -> Effect, owner: Owner)

  type Listeners<-A> = map<int, Listener<A>>

  /** `Event<KeyCmp, ArgTypes...>`: the comparator, the listeners, the next id. */
  datatype Event<-A> = Event(order: Order, listeners: Listeners<A>, nextId: nat)

  /** The class invariant: every stored id was handed out by the counter. */
  predicate Valid<A>(e: Event<A>) {
    forall k :: k in e.listeners ==> 0 <= k < e.nextId
  }

  /** `a` keeps some of the entries of `b`, each of them unchanged. */
  ghost predicate Submap<A>(a: Listeners<A>, b: Listeners<A>) {
    a.Keys <= b.Keys && forall k :: k in a ==> a[k] == b[k]
  }

  /** A freshly declared event with the given comparator. */
  function NewEvent<A>(o: Order): (e: Event<A>)
    ensures Valid(e) && e.order == o && e.listeners == map[] && e.nextId == 0
  {
    Event(o, map[], 0)
  }

  /** `PreEvent`: listeners registered first are called first. */
  function PreEvent<A>(): (e: Event<A>)
    ensures Valid(e) && e.order == Ascending && e.listeners == map[] && e.nextId == 0
  {
    NewEvent(Ascending)
  }

  /** `PostEvent`: listeners registered first are called last. */
  function PostEvent<A>(): (e: Event<A>)
    ensures Valid(e) && e.order == Descending && e.listeners == map[] && e.nextId == 0
  {
    NewEvent(Descending)
  }

  /** `AddListener(callback, module = NULL)`: stores the listener under the
      current counter value, bumps the counter and returns the id. */
  function AddListener<A>(e: Event<A>, callback: A -> Effect, owner: Owner := Unowned): (r: (Event<A>, int))
    ensures r.1 == e.nextId && r.0.nextId == e.nextId + 1 && r.0.order == e.order
    ensures r.0.listeners.Keys == e.listeners.Keys + {r.1}
    ensures r.0.listeners[r.1] == Listener(callback, owner)
    ensures forall k :: k in e.listeners && k != r.1 ==> r.0.listeners[k] == e.listeners[k]
    ensures Valid(e) ==> r.1 !in e.listeners && Valid(r.0)
  {
    var id := e.nextId;
    (e.(listeners := e.listeners[id := Listener(callback, owner)], nextId := e.nextId + 1), id)
  }

  /** `DeleteListener(id)`: erases that id; an unknown id is ignored. */
  function DeleteListener<A>(e: Event<A>, id: int): (r: Event<A>)
    ensures r.order == e.order && r.nextId == e.nextId
    ensures r.listeners.Keys == e.listeners.Keys - {id}
    ensures Submap(r.listeners, e.listeners)
    ensures id !in e.listeners ==> r == e
    ensures Valid(e) ==> Valid(r)
  {
    e.(listeners := e.listeners - {id})
  }

  /** The entries of `m` whose module differs from `owner`. */
  function WithoutOwner<A>(m: Listeners<A>, owner: Owner): Listeners<A> {
    map k | k in m && m[k].owner != owner :: m[k]
  }

  /** `DeleteListenersOfModule(module)`: one pass over the map erasing every
      entry tagged with `owner`.  Visiting order does not matter to the
      result, so the loop takes the remaining keys in any order. */
  method DeleteListenersOfModule<A>(e: Event<A>, owner: Owner) returns (r: Event<A>)
    ensures r.order == e.order && r.nextId == e.nextId
    ensures forall k :: k in r.listeners <==> k in e.listeners && e.listeners[k].owner != owner
    ensures Submap(r.listeners, e.listeners)
    ensures r.listeners == WithoutOwner(e.listeners, owner)
    ensures Valid(e) ==> Valid(r)
  {
    var kept := e.listeners;
    var todo := e.listeners.Keys;
    while todo != {}
      invariant todo <= e.listeners.Keys
      invariant forall k :: k in kept <==> k in e.listeners && (k in todo || e.listeners[k].owner != owner)
      invariant Submap(kept, e.listeners)
      decreases todo
    {
      Inhabited(todo);
      var k :| k in todo;
      if kept[k].owner == owner {
        kept := kept - {k};
      }
      todo := todo - {k};
    }
    var w := WithoutOwner(e.listeners, owner);
    assert forall k :: k in w <==> k in e.listeners && e.listeners[k].owner != owner;
    assert forall k :: k in kept <==> k in w;
    assert kept.Keys == w.Keys;
    assert forall k :: k in kept ==> kept[k] == w[k];
    r := e.(listeners := kept);
  }

  /** Bulk removal is idempotent: a second call with the same module is a no-op. */
  lemma WithoutOwnerIdempotent<A>(m: Listeners<A>, owner: Owner)
    ensures WithoutOwner(WithoutOwner(m, owner), owner) == WithoutOwner(m, owner)
    ensures forall k :: k in WithoutOwner(m, owner) ==> m[k].owner != owner
  {
  }

  /** A listener added without a module is an `Unowned` one, so bulk removal
      with `NULL` undoes the registration, and bulk removal with any real
      module keeps it. */
  lemma DefaultOwnerIsNull<A>(e: Event<A>, callback: A -> Effect, m: nat)
    requires Valid(e)
    ensures var (e', id) := AddListener(e, callback);
      && WithoutOwner(e'.listeners, Unowned) == WithoutOwner(e.listeners, Unowned)
      && id in WithoutOwner(e'.listeners, Module(m))
  {
    var (e', id) := AddListener(e, callback);
    assert id !in e.listeners;
    assert WithoutOwner(e'.listeners, Unowned).Keys == WithoutOwner(e.listeners, Unowned).Keys;
  }

  /** Deleting the id `AddListener` just returned restores the registry. */
  lemma AddThenDelete<A>(e: Event<A>, callback: A -> Effect, owner: Owner)
    requires Valid(e)
    ensures var (e', id) := AddListener(e, callback, owner);
      DeleteListener(e', id).listeners == e.listeners
  {
    var (e', id) := AddListener(e, callback, owner);
    assert id !in e.listeners;
  }

  /** True when the removals `rs` erase an entry with id `k` and module `owner`. */
  predicate Removes(rs: seq<Removal>, k: int, owner: Owner) {
    RemoveId(k) in rs || RemoveOwned(owner) in rs
  }

  /** The registry after a callback's removals run one after another. */
  function ApplyRemovals<A>(m: Listeners<A>, rs: seq<Removal>): (r: Listeners<A>)
    ensures Submap(r, m)
    ensures forall k :: k in r <==> k in m && !Removes(rs, k, m[k].owner)
    decreases |rs|
  {
    if rs == [] then m
    else
      var m' := match rs[0]
        case RemoveId(id) => m - {id}
        case RemoveOwned(owner) => WithoutOwner(m, owner);
      ApplyRemovals(m', rs[1..])
  }

  /** A call a client makes on the registry. */
  datatype Call<-A> = Add(callback: A -> Effect, owner: Owner) | Delete(id: int) | DeleteOwned(owner: Owner)

  /** The registry after one call, with the id it returned if it was an add. */
  function ReplayStep<A>(e: Event<A>, c: Call<A>): (Event<A>, seq<int>) {
    match c
    case Add(callback, owner) =>
      var (e1, id) := AddListener(e, callback, owner);
      (e1, [id])
    case Delete(id) => (DeleteListener(e, id), [])
    case DeleteOwned(owner) => (e.(listeners := WithoutOwner(e.listeners, owner)), [])
  }

  /** The registry after a sequence of calls, with the ids `AddListener` returned. */
  function Replay<A>(e: Event<A>, calls: seq<Call<A>>): (Event<A>, seq<int>)
    decreases |calls|
  {
    if calls == [] then (e, [])
    else
      var (e', ids) := ReplayStep(e, calls[0]);
      var (e'', rest) := Replay(e', calls[1..]);
      (e'', ids + rest)
  }

  /** `ids` are strictly increasing and lie in `[lo, hi)`. */
  predicate FreshRun(ids: seq<int>, lo: int, hi: int) {
    && (forall i, j :: 0 <= i < j < |ids| ==> ids[i] < ids[j])
    && (forall i :: 0 <= i < |ids| ==> lo <= ids[i] < hi)
  }

  lemma FreshRunAppend(ids: seq<int>, rest: seq<int>, lo: int, mid: int, hi: int)
    requires lo <= mid <= hi && FreshRun(ids, lo, mid) && FreshRun(rest, mid, hi)
    ensures FreshRun(ids + rest, lo, hi)
  {
    var all := ids + rest;
    forall i | |ids| <= i < |all|
      ensures all[i] == rest[i - |ids|]
    {
    }
  }

  /** Over any sequence of registry calls, the ids handed out are strictly
      increasing, none was ever a key before, and the invariant holds. */
  lemma {:induction false} IdsNeverReused<A>(e: Event<A>, calls: seq<Call<A>>)
    requires Valid(e)
    ensures var (e', ids) := Replay(e, calls);
      && Valid(e') && e.nextId <= e'.nextId && e'.order == e.order
      && FreshRun(ids, e.nextId, e'.nextId)
      && (forall i :: 0 <= i < |ids| ==> ids[i] !in e.listeners)
    decreases |calls|
  {
    if calls != [] {
      var (e', ids) := ReplayStep(e, calls[0]);
      assert Valid(e') && e.nextId <= e'.nextId && e'.order == e.order && FreshRun(ids, e.nextId, e'.nextId);
      IdsNeverReused(e', calls[1..]);
      var (e'', rest) := Replay(e', calls[1..]);
      assert Replay(e, calls) == (e'', ids + rest);
      FreshRunAppend(ids, rest, e.nextId, e'.nextId, e''.nextId);
    }
  }
}
