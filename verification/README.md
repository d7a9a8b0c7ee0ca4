# Focus hooks for react-native-router-flux, in Dafny

`NavigationStateHandler` lets a screen component re-run a "became visible
again" callback when react-native-router-flux re-activates a scene it does not
re-render, for example after a back navigation. It has two parts, and this
project models both:

- **The focus-hook registry** (`FocusHooks`). This is an ordered list of
  `(sceneKey, callback)` entries. `RegisterFocusHook` appends the component's
  bound `handleNavigationSceneFocus`. If the component does not define that
  handler, it fails with a `ConfigurationError` that hands back the registry
  unchanged. `UnregisterFocusHook` drops every entry under the component's
  scene key, whichever component added it.
- **The intercepting reducer** (`FocusReducer`). On each dispatch it checks
  whether the action carries a `scene` and has type
  `REACT_NATIVE_ROUTER_FLUX_FOCUS`. If so, it calls every hook registered
  under `action.scene.sceneKey`, in registration order. Either way it then
  returns exactly what the library's own reducer returns.

The registry is an immutable `seq<Entry>`. A callback is an opaque
`CallbackId`. Calling it is modelled only as its id appearing in the fired
trace that `Reduce` returns. The library reducer is the parameter
`base: (S, Action) -> S`.

`FiredBy(h, key)` is the reference for what a focus action fires: the ids of
the entries for `key`, kept in order. `FireFocusHooks` is the `forEach` walk,
and it is proved equal to `FiredBy`. `FiredBy` is in turn tied to positions in
the registry in both directions: `FiredInRegistrationOrder` shows the trace is
described by the positions of the matching entries, and `FiredExactly` shows
that description allows only one trace.

Modules:

- `Wrappers`: `Option` and `Result`.
- `Seqs`: order-preserving `Filter` with its lemmas (positions, uniqueness,
  append, idempotence, partition, length).
- `FocusHooks`: the registry.
- `FocusReducer`: the reducer.
- `Scenarios`: concrete registration sequences.

The source's `forEach` runs over the array as it was when the action arrived.
`unregisterFocusHook` swaps in a new array, and `forEach` ignores elements
pushed after it started. So the code already behaves as if it iterated over a
snapshot of the registry. The model takes the registry as a read-only input to
dispatch, so dispatch cannot change it.

The code throws a bare string when the handler is missing. Here that failure
is a structured `ConfigurationError` value instead. It is raised when the
handler is absent (`undefined`), and the registry stays unchanged, as in the
code.

## Model

| member | source | states |
|---|---|---|
| FocusHooks.NewHandler | index.js:14-16 | a new handler starts with no hooks |
| FocusHooks.RegisterFocusHook | index.js:18-27 | fails exactly when the component has no focus handler, and then returns the registry unchanged; otherwise the registry grows by one, the earlier entries stay in place, and the last entry is the component's scene key with its handler |
| FocusHooks.UnregisterFocusHook | index.js:29-32 | no entry under the component's scene key remains; every entry under another key is kept; only entries of the old registry appear |
| FocusHooks.UnregisterKeepsOthersInOrder | index.js:31 | the result lists the entries of other scenes, each once, at increasing positions of the old registry, so their relative order is kept |
| FocusHooks.UnregisterRemovesSceneEntries | index.js:30-31 | the kept entries and the entries under the removed key together form the whole registry as a multiset (each entry as often as it occurs), and their lengths add up to the registry's length, so exactly the matching entries are removed |
| FocusHooks.UnregisterIdempotent | index.js:31 | unregistering again, or through another component with the same scene key, changes nothing more |
| FocusHooks.UnregisterWithoutMatchIsNoOp | index.js:31 | when no entry has the component's scene key, the registry is returned unchanged |
| FocusHooks.UnregisterUndoesRegister | index.js:26 | unregistering after a registration removes the new entry along with the older ones of that scene, which equals unregistering alone |
| FocusHooks.UnregisterLeavesOtherScenes | index.js:31 | the entries of any other scene are the same, in the same order, before and after unregistration |
| FocusReducer.FireFocusHooks | index.js:39-43 | the loop over the registry calls exactly the ids that `FiredBy` gives for the scene key |
| FocusReducer.Reduce | index.js:37-47 | the next state is always `base(state, action)`; an action without a scene, or with another type, fires nothing; a scene focus action fires `FiredBy` of its scene key |
| FocusReducer.FiredInRegistrationOrder | index.js:39-43 | the trace holds one id per matching entry, taken from increasing registry positions that cover every entry of the scene, so duplicate entries fire once each and in registration order |
| FocusReducer.FiredExactly | index.js:39-43 | any trace described by an increasing list of exactly the matching positions is the fired trace, so the description allows only one trace |
| FocusReducer.FiredCount | index.js:40-41 | the number of fired callbacks equals the number of registry positions whose scene key matches |
| FocusReducer.RegisterThenFire | index.js:26 | after a successful registration the new callback fires last for its own scene and every other scene's trace is unchanged; a failed registration changes no trace |
| FocusReducer.UnregisterSilencesScene | index.js:31 | after unregistration a focus action on that scene fires nothing, even if several components had registered under it |
| FocusReducer.UnregisterKeepsOtherTraces | index.js:31 | unregistration leaves the trace of every other scene unchanged |
| FocusReducer.NewHandlerFiresNothing | index.js:15 | a new handler fires nothing for any scene |
| Scenarios.RepeatedRegistrationFiresInOrder | index.js:39-43 | components registered as X, Y, X under one scene fire X, Y, X |
| Scenarios.UnregisterOneSilencesBoth | index.js:31 | with two components under one scene, unregistering either one silences both |
| Scenarios.MissingHandlerAddsNothing | index.js:21-23 | a component without a focus handler leaves the registry as it was |

## Left out

- `Reducer(params)` from react-native-router-flux (index.js:1, index.js:35) belongs to a foreign library. `getReducer` calls it once to get the default reducer. The model takes that reducer as the parameter `base` and does not model the factory or `params`.
- `Function.prototype.bind` and what the callbacks do (index.js:25) are not modelled. A callback is an opaque `CallbackId`, and its only observable effect is its place in the fired trace.
- A callback that registers or unregisters during a dispatch is not modelled. Dispatch reads the registry as it was when the action arrived, which is how `forEach` treats the array in the source.
- An exception thrown by a callback is not modelled. In the source it propagates to the dispatcher and skips the remaining hooks and the base reducer. This is host runtime behaviour.
- A `handleNavigationSceneFocus` that is defined but is not a function (`null`, a number) is not modelled. It passes the `=== undefined` test (index.js:21), and then `bind` throws a TypeError (index.js:25) before the `push`, so the registry is still unchanged. The model's `focusHandler` is either absent or a callable handler.
- JavaScript loose equality (index.js:31, index.js:38, index.js:40) is modelled as plain string equality on scene keys. An `undefined` scene key, or a component without `props`, is not modelled.
- The order between the hook calls and the call to `base` is not modelled. The source calls the hooks first. In the model `base` is a pure function, so the order cannot be observed.
- An action's fields other than `type` and `scene`, and a scene's fields other than `sceneKey`, are not modelled. The wrapper never reads them, and `base` receives the action unchanged.
