/** The reducer `getReducer` returns: it watches the action stream for
    react-native-router-flux's focus action, calls the hooks registered for the
    focused scene, and then hands the action to the library's own reducer. */
module FocusReducer {
  import opened Wrappers
  import Seqs
  import opened FocusHooks

  /** The action type react-native-router-flux dispatches when a scene gains focus. */
  const FocusActionType: string := "REACT_NATIVE_ROUTER_FLUX_FOCUS"

  /** The `scene` an action may carry; only its key is read here. */
  datatype Scene = Scene(sceneKey: SceneKey)

  /** A dispatched action: its `type` and its optional `scene`. */
  datatype Action = Action(kind: string, scene: Option<Scene>)

  /** An action that carries a scene and is the focus action. */
  predicate IsSceneFocus(a: Action) {
    a.scene.Some? && a.kind == FocusActionType
  }

  /** The callbacks of a list of entries, in the same order. */
  function Ids(es: seq<Entry>): seq<CallbackId> {
    seq(|es|, j requires 0 <= j < |es| => es[j].id)
  }

  /** The callbacks of two lists of entries joined are the two lists of callbacks joined. */
  lemma IdsAppend(a: seq<Entry>, b: seq<Entry>)
    ensures Ids(a + b) == Ids(a) + Ids(b)
  {
  }

  /** Reference for what a focus action on `key` fires: the callbacks of the
      entries registered for `key`, in registration order. */
  function FiredBy(h: Registry, key: SceneKey): seq<CallbackId> {
    Ids(Seqs.Filter(h, OnScene(key)))
  }

  /** The `forEach` walk over the registry as it is when the action arrives:
      each hook whose scene key matches is called, in order. The result is
      the trace of those calls. */
  method FireFocusHooks(hooks: Registry, key: SceneKey) returns (fired: seq<CallbackId>)
    ensures fired == FiredBy(hooks, key)
  {
    fired := [];
    var i := 0;
    while i < |hooks|
      invariant 0 <= i <= |hooks|
      invariant fired == FiredBy(hooks[..i], key)
    {
      assert hooks[..i + 1] == hooks[..i] + [hooks[i]];
      Seqs.FilterAppend(hooks[..i], [hooks[i]], OnScene(key));
      if hooks[i].sceneKey == key {
        fired := fired + [hooks[i].id];
      }
      i := i + 1;
    }
    assert hooks[..|hooks|] == hooks;
  }

  /** One dispatch through the intercepting reducer: the focus hooks fire when
      the action is a focus action with a scene, and the next state is always
      exactly what `base` makes of the state and action. The registry is read,
      never written. */
  method Reduce<S>(base: (S, Action) -> S, hooks: Registry, state: S, action: Action)
    returns (next: S, fired: seq<CallbackId>)
    ensures next == base(state, action)
    ensures !IsSceneFocus(action) ==> fired == []
    ensures IsSceneFocus(action) ==> fired == FiredBy(hooks, action.scene.value.sceneKey)
  {
    fired := [];
    if IsSceneFocus(action) {
      fired := FireFocusHooks(hooks, action.scene.value.sceneKey);
    }
    next := base(state, action);
  }

  /** The fired trace holds, for each entry of the focused scene and for no
      other, that entry's callback, in registration order: `ps` are the
      positions of those entries. Duplicated entries fire once each. */
  lemma FiredInRegistrationOrder(h: Registry, key: SceneKey) returns (ps: seq<int>)
    ensures Seqs.Increasing(ps)
    ensures |ps| == |FiredBy(h, key)|
    ensures forall j :: 0 <= j < |ps| ==>
      0 <= ps[j] < |h| && h[ps[j]].sceneKey == key && FiredBy(h, key)[j] == h[ps[j]].id
    ensures forall i :: 0 <= i < |h| && h[i].sceneKey == key ==> i in ps
  {
    ps := Seqs.FilterSelectsInOrder(h, OnScene(key));
  }

  /** The order-and-coverage description above determines the trace: any
      trace built from an increasing list of exactly the matching positions is
      the one a focus action fires. */
  lemma FiredExactly(h: Registry, key: SceneKey, ps: seq<int>, trace: seq<CallbackId>)
    requires Seqs.Increasing(ps)
    requires |ps| == |trace|
    requires forall j :: 0 <= j < |ps| ==>
      0 <= ps[j] < |h| && h[ps[j]].sceneKey == key && trace[j] == h[ps[j]].id
    requires forall i :: 0 <= i < |h| && h[i].sceneKey == key ==> i in ps
    ensures trace == FiredBy(h, key)
  {
    var picked := seq(|ps|, j requires 0 <= j < |ps| && 0 <= ps[j] < |h| => h[ps[j]]);
    assert Seqs.SelectedAt(h, OnScene(key), ps, picked);
    Seqs.SelectedAtUnique(h, OnScene(key), ps, picked);
    assert trace == Ids(picked);
  }

  /** A focus action fires as many callbacks as there are entries for its scene. */
  lemma FiredCount(h: Registry, key: SceneKey)
    ensures |FiredBy(h, key)| == |set i | 0 <= i < |h| && h[i].sceneKey == key|
  {
    Seqs.FilterLength(h, OnScene(key));
    assert Seqs.Positions(h, OnScene(key)) == set i | 0 <= i < |h| && h[i].sceneKey == key;
  }

  /** A successful registration adds its callback at the end of what its own
      scene fires and leaves every other scene's trace alone; a failed one
      changes no trace. */
  lemma RegisterThenFire(h: Registry, c: Component, key: SceneKey)
    ensures FiredBy(RegistryAfter(RegisterFocusHook(h, c)), key) ==
      FiredBy(h, key) + (if c.focusHandler.Some? && c.sceneKey == key then [c.focusHandler.value] else [])
  {
    if c.focusHandler.Some? {
      var e := Entry(c.sceneKey, c.focusHandler.value);
      Seqs.FilterAppend(h, [e], OnScene(key));
      IdsAppend(Seqs.Filter(h, OnScene(key)), Seqs.Filter([e], OnScene(key)));
    }
  }

  /** After unregistration a focus action on that scene fires nothing, however
      many components had registered under it. */
  lemma UnregisterSilencesScene(h: Registry, c: Component)
    ensures FiredBy(UnregisterFocusHook(h, c), c.sceneKey) == []
  {
    var kept := UnregisterFocusHook(h, c);
    Seqs.FilterKeepsNone(kept, OnScene(c.sceneKey));
  }

  /** Unregistration leaves what other scenes fire unchanged. */
  lemma UnregisterKeepsOtherTraces(h: Registry, c: Component, key: SceneKey)
    requires key != c.sceneKey
    ensures FiredBy(UnregisterFocusHook(h, c), key) == FiredBy(h, key)
  {
    UnregisterLeavesOtherScenes(h, c, key);
  }

  /** A new handler fires nothing for any scene. */
  lemma NewHandlerFiresNothing(key: SceneKey)
    ensures FiredBy(NewHandler(), key) == []
  {
  }
}
