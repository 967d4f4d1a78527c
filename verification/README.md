# cd::Event — a Dafny model

`cd::Event<KeyCmp, ArgTypes...>` (Include/EventHelper.h) is a typed, ordered
event that takes no locks. Clients register callbacks with `AddListener` and may
tag each callback with the module (`HMODULE`) that owns it. `operator()` calls
the listeners in key order and ANDs their boolean answers. `DeleteListener`
and `DeleteListenersOfModule` remove listeners, and a callback may call them
on its own event while a pass is running.

The project models this in four modules:

- `Ordering` (ordering.dfy) covers the comparator policy: `std::less` is
  `Ascending`, as in `PreEvent`; `std::greater` is `Descending`, as in
  `PostEvent`. It also defines the map's `begin()` and `++it`, modelled as
  `First` and `Next` over the set of keys currently present.
- `Registry` (registry.dfy) is the listener map plus the id counter.
  - It defines `AddListener`, `DeleteListener` and `DeleteListenersOfModule`,
    plus the removals a callback performs while it runs (`ApplyRemovals`).
  - It defines `Replay`, which runs any sequence of registry calls.
- `Dispatch` (dispatch.dfy) is `operator()`.
  - One pass is the recursive `Walk`: run the iteration at key `k`, stop if
    that entry was erased, otherwise continue from the next key of the map
    as it is now.
  - Line 71 is modelled as written (`Invoke`, with C++'s short-circuit
    `&&`). The loop the comment at line 65 asks for is also modelled
    (`InvokeAll`, where every callback runs).
  - Every mode-independent property of `Walk` is proved for both modes.
    `WalkCallsAll` holds for the intended mode, and `WalkShortCircuit` for
    the mode as written.
- `Scenarios` (scenarios.dfy) holds concrete three-listener events and the
  exact pass each one produces.

A `std::function` is modelled by what calling it with the event's arguments
does, a value of type `A -> Effect`:
- the `DeleteListener` / `DeleteListenersOfModule` calls it makes on the
  event;
- then either a boolean answer or `std::bad_function_call` (`BadCall`).

`HMODULE` is an opaque token compared for equality, and `Unowned` stands for
`NULL`. The two debug warnings of `operator()` appear in the model as data:
- a `Called` visit whose outcome is `BadCall`;
- a pass with `aborted` set.

## Model

| member | source | states |
|---|---|---|
| Ordering.First | Include/EventHelper.h:67 | The first key of the traversal: absent exactly when the map is empty; otherwise present and before every other key under the comparator. |
| Ordering.Next | Include/EventHelper.h:67 | `++it` from key `k`: absent exactly when no present key lies after `k`. Otherwise it is a present key after `k`, and no present key lies strictly between `k` and it. This holds whether or not `k` is still present. |
| Registry.NewEvent | Include/EventHelper.h:31-32 | A new event has an empty listener map, keeps its comparator and starts its counter at 0, so the invariant that every key is below the counter holds. |
| Registry.PreEvent | Include/EventHelper.h:89-90 | A `PreEvent` compares with `std::less` (ascending ids), has no listeners and starts its counter at 0, so the invariant holds. |
| Registry.PostEvent | Include/EventHelper.h:93-94 | A `PostEvent` compares with `std::greater` (descending ids), has no listeners and starts its counter at 0, so the invariant holds. |
| Registry.AddListener | Include/EventHelper.h:37-44 | Returns the old counter value and increments the counter. It adds exactly one new key, holding the given callback and module (default `NULL`). Every other entry is unchanged. On a valid event the key was unused before, and the invariant is kept. |
| Registry.DeleteListener | Include/EventHelper.h:46-49 | Removes exactly the given key. Every other entry is unchanged, and an unknown id is a no-op. The counter, the comparator and the invariant are kept. |
| Registry.DeleteListenersOfModule | Include/EventHelper.h:51-60 | Keeps a key iff its module differs from the argument, with every kept entry unchanged. The result equals the module filter `WithoutOwner`. The counter and the invariant are kept. |
| Registry.WithoutOwnerIdempotent | Include/EventHelper.h:51-60 | Removing a module's listeners twice is the same as removing them once; no survivor belongs to that module. |
| Registry.DefaultOwnerIsNull | Include/EventHelper.h:37-42 | A listener added without a module is removed by bulk removal with `NULL`: after the add, that removal gives the same registry as it did before the add. Bulk removal with any real module keeps it. |
| Registry.AddThenDelete | Include/EventHelper.h:37-49 | Deleting the id that `AddListener` just returned restores the previous listener map. |
| Registry.ApplyRemovals | Include/EventHelper.h:46-60 | The registry after a callback's sequence of `DeleteListener` / `DeleteListenersOfModule` calls. An entry survives iff none of the calls names its id or its module, and survivors are unchanged. |
| Registry.IdsNeverReused | Include/EventHelper.h:32-39 | Over any sequence of adds and deletes, the returned ids are strictly increasing. They lie between the old and new counter values, and none was a key before. The invariant holds throughout. |
| Dispatch.Step | Include/EventHelper.h:69-76 | One iteration stands on its own key, and the registry afterwards is a sub-map of the registry before it. |
| Dispatch.Walk | Include/EventHelper.h:67-83 | A pass from key `k` is non-empty and starts at `k`. Every iteration stands on a key present at the start that is `k` or lies after it. The final registry is a sub-map of the initial one. |
| Dispatch.WalkOrdered | Include/EventHelper.h:67 | Iterations come in strictly increasing comparator order, so no entry is reached twice. |
| Dispatch.WalkEffects | Include/EventHelper.h:71 | Each called listener's effect is its own stored callback applied to the arguments. |
| Dispatch.WalkResult | Include/EventHelper.h:66-84 | The pass returns true iff the running result started true and no called listener answered false. `bad_function_call` counts as neither answer. |
| Dispatch.WalkCallsAll | Include/EventHelper.h:65 | In the intended mode every iteration calls its listener. |
| Dispatch.WalkShortCircuit | Include/EventHelper.h:71 | As written, an iteration skips its callback iff the running result was already false or an earlier listener answered false. |
| Dispatch.WalkRegistry | Include/EventHelper.h:67-83 | The registry after the pass is the one before it minus exactly the entries that the called listeners' removals named. |
| Dispatch.WalkSkipsRemoved | Include/EventHelper.h:67 | No iteration reaches an entry that an earlier called listener of the same pass removed. |
| Dispatch.WalkAbort | Include/EventHelper.h:78-82 | The pass breaks off right after a called listener removes its own entry. No earlier listener did so, and the last one did so iff the pass was aborted. |
| Dispatch.WalkComplete | Include/EventHelper.h:67-83 | Every entry registered when the walk starts, at or after its start key and before the point where the pass broke off, was reached or was erased by a listener called before the iterator got to it. The iterator passes over nothing else. |
| Dispatch.ModesAgree | Include/EventHelper.h:65-71 | The short circuit never changes the returned value. While that value is true, both modes run exactly the same pass. |
| Dispatch.Invoke | Include/EventHelper.h:63-85 | `operator()` as written. An empty event yields true and calls nothing. Listeners are reached in comparator order, and a callback runs only while no earlier one answered false. The result is false iff a called listener answered false. The registry only shrinks, and the invariant is kept. |
| Dispatch.InvokeAll | Include/EventHelper.h:63-85 | `operator()` as the comment at line 65 intends: the same guarantees, but every listener reached is called. |
| Dispatch.InvokeModesAgree | Include/EventHelper.h:65-71 | On every event both forms return the same value. They run the same pass whenever that value is true. |
| Dispatch.DispatchRegistry | Include/EventHelper.h:67-83 | In either mode, called listeners ran their own callbacks. The registry afterwards is the one before minus exactly what the called listeners removed. |
| Dispatch.DispatchRemovals | Include/EventHelper.h:67-82 | In either mode, removed entries are skipped. A non-empty pass stops right after, and only after, a listener removes its own entry. An empty pass is not aborted. |
| Dispatch.DispatchComplete | Include/EventHelper.h:67-83 | In either mode, a listener registered when the pass starts and lying before the point where the pass broke off is reached iff no listener called earlier in the pass erased it. So every listener still registered afterwards was reached, unless it lies beyond the break. |
| Scenarios.ThreeRegistrations | Include/EventHelper.h:37-44 | Three registrations on a new `PreEvent` return ids 0, 1, 2 and build the three-entry event used below. |
| Scenarios.ShortCircuitSkipsLaterListeners | Include/EventHelper.h:71 | On a `PreEvent` whose listener 0 answers false, as written, listeners 1 and 2 are skipped and the result is false. |
| Scenarios.CallAllReachesEveryListener | Include/EventHelper.h:65 | On the same event, the intended loop calls 0, 1 and 2 in that order and returns false. |
| Scenarios.FirstVetoCounterexample | Include/EventHelper.h:65-71 | The concrete event built with `AddListener` from listeners answering false, true, true. As written it calls only listener 0; as intended it calls all three; both return false. |
| Scenarios.PostEventRunsNewestFirst | Include/EventHelper.h:93-94 | A `PostEvent` calls listeners 2, 1, 0 in that order. |
| Scenarios.DeletedListenerIsSkipped | Include/EventHelper.h:67 | If listener 0 deletes listener 1, the pass goes from 0 straight to 2, and 1 is gone afterwards. The loop as written and the intended loop run this same pass. |
| Scenarios.SelfDeletionEndsThePass | Include/EventHelper.h:78-82 | If listener 0 deletes itself, the pass is aborted after it, and the later listeners are not called. The loop as written and the intended loop run this same pass. |
| Scenarios.BadCallIsPassedOver | Include/EventHelper.h:69-76 | An empty callback in the middle does not change the result, and the pass continues to the next listener. |

## Left out

- Registry.AddListener: the counter is an unbounded `nat`. The source's `int` counter would overflow after 2^31 registrations, which the model does not represent.
- Listeners added by a callback during a pass are not modelled. A callback's effect on its event is limited to the two removal calls.
- A callback is a fixed function of the arguments. Its answer cannot depend on hidden state, on how often it was called, or on the registry it sees. A callback that invokes the event it belongs to, re-entering `operator()`, is not modelled.
- Exceptions other than `std::bad_function_call` are not caught by the source and leave `operator()`. The model has no such outcome.
- `_RPTF0` debug output is not modelled as I/O. Its two triggers are visible in the pass as a `BadCall` visit and the `aborted` flag.
- `_Isnil(it._Mynode())` reads the standard library's internals, possibly from a freed node. It is modelled as "the current key is no longer in the map".
- `volatile` has no meaning in a sequential model.
- `HMODULE` is modelled as an equality-only token. Module loading and unloading, which would call `DeleteListenersOfModule`, happen outside this header.
- The `EventBase` virtual interface (Include/EventHelper.h:9-16) is represented by the `Removal` datatype, the calls a callback can make on its own event.
- Dispatch.WalkEffects: every called listener receives the same argument value of type `A`. The source passes on its by-value parameters with `std::forward<ArgTypes>(args)...` in each iteration (Include/EventHelper.h:63-71). When a type in `ArgTypes` is a class type, not a reference, that is an rvalue. `std::function` takes its parameters by value, so the argument is moved into the first listener actually called, and every later listener receives the moved-from object. For example, on a `PreEvent<std::wstring>` invoked with `L"x"`, the second listener receives an empty string in practice. The model agrees with the source for reference and scalar parameter types, and for class types without a move constructor.
- Destruction and copying of an event, and thread safety, are not modelled; the header takes no locks.
- Registry.DeleteListenersOfModule visits the keys in an arbitrary order rather than iterator order. The result does not depend on the order.

## Findings

The short circuit at line 71 contradicts the comment at line 65, which says
that listeners after one that answered false were expected to run. The
model follows the code: `Invoke` is line 71 as written. `InvokeAll` is
the intended loop; it calls every listener, and the `Walk` lemmas are stated
for both. `InvokeModesAgree` shows that the difference is only in which
callbacks run, never in the value returned.

| source | as written | input that shows it | evidently intended | confidence | as-written member | corrected member |
|---|---|---|---|---|---|---|
| Include/EventHelper.h:71 | `res = res && f(...)` skips the callback once `res` is false, so later listeners neither run nor perform their removals | a `PreEvent` whose listeners 0, 1, 2 answer false, true, true: only listener 0 is called | every listener is called, and the result is the AND of all answers | not executed | Dispatch.Invoke (counterexample: Scenarios.FirstVetoCounterexample) | Dispatch.InvokeAll (proved: Dispatch.WalkCallsAll, Scenarios.CallAllReachesEveryListener) |
