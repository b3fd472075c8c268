# Duplicate-navigation callbacks of a route record

This project models the part of the router that lets a view register a callback
to be run when a navigation resolves to the same route record again (a
"duplicate navigation"). Every normalized route record owns a `duplicateCallback`
set of callback handles. `onRouteUpdateDuplicate`, called from a component's
setup, checks that it runs inside a component being set up (development builds
only) and that an active matched route record has been injected; if both hold,
`registerCallback` adds the callback to that record's set and subscribes to the
view's lifecycle: unmount and deactivate delete the callback from the set,
activate adds it back.

Callbacks are opaque identities (`nat`). The set is modelled as an unordered
`set`: the JavaScript `Set` keeps insertion order, but every member is invoked
on dispatch, so order plays no role in this feature.

Files:

- `wrappers.dfy`: `Option`.
- `lifecycle.dfy` (module `CallbackLifecycle`): the value-level specification.
  `React` is what each hook's handler does to a set. `Replay` is the set after
  registration followed by a sequence of hooks. `StateAfter` is the view's
  lifecycle state (Active, Deactivated, Unmounted). The lemmas relate the three.
- `duplicate_callback.dfy` (module `DuplicateCallback`): the imperative model.
  `CallbackSet` is the mutable set with `Add` and `Delete`. `RouteRecord` owns
  one. `Registration` holds what the hook closures capture, with one method per
  hook, and `RegisterCallback` and `OnRouteUpdateDuplicate` are the two
  functions of the source. A ghost trace of delivered hooks ties each
  registration to `Replay`. Four client methods at the end exercise the
  contracts: two records, failing guards, two callbacks on one record, and two
  views sharing one callback.

The Vue lookups are explicit inputs. `dev` stands for `__DEV__`. `hasInstance`
stands for `getCurrentInstance()` returning an instance. `activeRecord` stands
for the value of the injected matched-route reference. The host calls the three
hook methods when the view goes through those transitions. The hook methods take
no precondition on the view's state, because the host does not deliver hooks in
strict alternation: a view inside `<KeepAlive>` gets an activate hook right
after its initial mount (the add then finds the callback present) and a
deactivate hook before its final unmount (the delete on unmount then finds it
absent). `ActivateAfterRegisterIsNoOp` and `UnmountAfterDeactivateIsNoOp`
state these two cases.

The invariant "the callback is in the set exactly while the view is active" is
`Registration.Synced()`. Registration establishes it, and each hook method
re-establishes it whatever happened before. Registration and every hook also
keep `Synced()` of every other registration whose callback is different. That
covers the ordinary case where several components under one `<router-view>`
register their own callbacks on the same record. `TwoCallbacksScenario` shows it.

`Registration.Alone()` is stronger. It states that no one else has touched the
set since registration, so the other members are still those the set had
before. Each hook method preserves it, and `AloneMeansSynced` derives both
halves from it. A second registration on the same record ends `Alone()` but not
`Synced()`.

When two views of the same record register the *same* callback, they share one
set entry. If one of them is deactivated, the callback leaves the set even
though the other view is still active, so the other view is no longer
`Synced()`. `SharedCallbackScenario` shows this. It follows from the set
semantics and is not treated as a defect.

Only the resolved record's set can change. The `modifies` clauses of
`RegisterCallback`, of the hook methods and of `OnRouteUpdateDuplicate` name
that one `CallbackSet` object, plus the registration's own ghost bookkeeping.
Dafny therefore proves that every other `CallbackSet` object is unchanged.
Each record gets a fresh set from its constructor, so every other record's set
object is unchanged too. `TwoRecordsScenario` shows this.

## Model

| member | source | states |
|---|---|---|
| `CallbackLifecycle.React` | packages/router/src/duplicateCallback.ts:10-19 | the unmount/deactivate handler removes the callback and the activate handler puts it back; no other member changes; adding a present callback and deleting an absent one leave the set unchanged |
| `CallbackLifecycle.Replay` | packages/router/src/duplicateCallback.ts:9-22 | the set after the add at registration followed by the reactions of a sequence of hooks, oldest first; whatever the hooks, every member other than the callback is exactly as in the original set |
| `CallbackLifecycle.ReplayReflectsState` | packages/router/src/duplicateCallback.ts:9-22 | after registration and any sequence of hooks, the callback is in the set iff the view is active, and every other member is exactly as before registration |
| `CallbackLifecycle.ReplayIsOriginalPlusOrMinus` | packages/router/src/duplicateCallback.ts:9-22 | after any sequence of hooks the set is the original plus the callback while active, minus it otherwise |
| `CallbackLifecycle.RegisterIdempotent` | packages/router/src/duplicateCallback.ts:21 | registering a callback that is already present leaves the set unchanged |
| `CallbackLifecycle.ActivateAfterRegisterIsNoOp` | packages/router/src/duplicateCallback.ts:17-21 | an activate hook right after registration (kept-alive initial mount) leaves the set as registration made it |
| `CallbackLifecycle.UnmountAfterDeactivateIsNoOp` | packages/router/src/duplicateCallback.ts:10-15 | an unmount after a deactivate deletes an absent element: the set is the one deactivation left, without the callback |
| `CallbackLifecycle.UnmountIsFinal` | packages/router/src/duplicateCallback.ts:10-14 | when the host runs no hook after unmount, a trace containing unmount ends unmounted and the set is the original without the callback |
| `CallbackLifecycle.LifeIntervals` | packages/router/src/duplicateCallback.ts:9-22 | over register, (deactivate, activate)^n, unmount: after the first k hooks the callback is present iff k is even, i.e. during [mount, deactivate) and [activate, next deactivate or unmount); after unmount the set is the original minus the callback |
| `DuplicateCallback.CallbackSet.Add` | packages/router/src/duplicateCallback.ts:18 | `add` inserts the callback and keeps every other member |
| `DuplicateCallback.CallbackSet.Delete` | packages/router/src/duplicateCallback.ts:11 | `delete` removes the callback and keeps every other member |
| `DuplicateCallback.Registration.RemoveFromList` | packages/router/src/duplicateCallback.ts:10-12 | the shared handler deletes the captured callback from the captured record's set |
| `DuplicateCallback.Registration.OnUnmounted` | packages/router/src/duplicateCallback.ts:14 | on unmount the callback is removed, other members stay, the view is Unmounted and `Synced()`; every other registration with a different callback stays `Synced()`; `Alone()` is preserved |
| `DuplicateCallback.Registration.OnDeactivated` | packages/router/src/duplicateCallback.ts:15 | on deactivate the callback is removed, other members stay, the view is Deactivated and `Synced()`; every other registration with a different callback stays `Synced()`; `Alone()` is preserved |
| `DuplicateCallback.Registration.OnActivated` | packages/router/src/duplicateCallback.ts:17-19 | on activate the callback is re-added, other members stay, the view is Active and `Synced()`; every other registration with a different callback stays `Synced()`; `Alone()` is preserved |
| `DuplicateCallback.Registration.AloneMeansSynced` | packages/router/src/duplicateCallback.ts:9-22 | for a single registrant the record's set holds the callback exactly while the view is active and otherwise holds what it held before registration |
| `DuplicateCallback.RegisterCallback` | packages/router/src/duplicateCallback.ts:9-22 | the callback is added to the given record's set straight away; the view starts Active, `Synced()` and `Alone()`; every earlier registration with a different callback stays `Synced()`; only that record's set changes |
| `DuplicateCallback.Guard` | packages/router/src/duplicateCallback.ts:25-44 | registration proceeds iff (not dev or an instance exists) and an active record is injected; the missing-instance warning occurs iff dev and no instance; the missing-record warning occurs only in dev; production never warns |
| `DuplicateCallback.OnRouteUpdateDuplicate` | packages/router/src/duplicateCallback.ts:24-47 | when a guard fails it returns the guard's warning and changes no registry; otherwise it registers the callback on the injected record only, which then contains it; in every case, registrations with a different callback stay `Synced()` |

## Left out

- The Vue calls `getCurrentInstance`, `inject` and `matchedRouteKey` are inputs: `hasInstance` and `activeRecord`. The model does not capture what Vue's `inject` returns when it is called outside a setup function. In a production build with no current instance, the model takes the given `activeRecord` and proceeds. It returns a `Registration`. In that case there is no component for the hooks to attach to, so no hook ever fires and the callback stays in the set.
- The hook mechanics of `onUnmounted`, `onDeactivated` and `onActivated` are not modelled. These are host-framework plumbing: the host calls the three `Registration` methods instead, and the returned `Registration` stands for the installed hooks.
- The text of the `warn` diagnostics is not modelled. This is logging: only which warning was emitted is returned.
- Invoking the callbacks and their `void | Promise<void>` results are not modelled. Dispatch is external and asynchronous.
- The extraction of statically declared callbacks from the matched records' components is not part of this model. Its source is not among the modelled files.
- The insertion order of the JavaScript `Set` is not modelled. Dispatch invokes every member, so order is irrelevant here.
- The other fields of a normalized route record (components, children, instances) are not modelled. This code does not read them.
