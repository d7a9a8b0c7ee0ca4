/** The focus-hook registry of `NavigationStateHandler`: an ordered list of
    (scene key, callback) entries that components add to while mounted and
    remove by scene key when they unmount. */
module FocusHooks {
  import opened Wrappers
  import Seqs

  /** The `sceneKey` a component receives in its props. */
  type SceneKey = string

  /** Identity of a focus callback: a component's `handleNavigationSceneFocus`
      bound to that component. Calling it is the only effect a hook has. */
  datatype CallbackId = CallbackId(n: nat)

  /** What registration reads from a component: its scene key and, if it
      defines one, its focus handler. */
  datatype Component = Component(sceneKey: SceneKey, focusHandler: Option<CallbackId>)

  /** One registered hook. */
  datatype Entry = Entry(sceneKey: SceneKey, id: CallbackId)

  /** The handler's `_focusHooks` list, in registration order. Scene keys may repeat. */
  type Registry = seq<Entry>

  /** Registration of a component without a focus handler; the registry is
      handed back untouched. */
  datatype ConfigurationError = MissingFocusHandler(sceneKey: SceneKey, registry: Registry)

  /** The registry after a registration attempt, whether it succeeded or not. */
  function RegistryAfter(r: Result<Registry, ConfigurationError>): Registry {
    match r
    case Success(h) => h
    case Failure(e) => e.registry
  }

  /** Selects the entries registered for `key`. */
  function OnScene(key: SceneKey): Entry -> bool {
    (e: Entry) => e.sceneKey == key
  }

  /** Selects the entries registered for any other scene than `key`. */
  function OffScene(key: SceneKey): Entry -> bool {
    (e: Entry) => e.sceneKey != key
  }

  /** A new handler holds no hooks. */
  function NewHandler(): (h: Registry)
    ensures |h| == 0
  {
    []
  }

  /** Appends the component's bound focus handler under its scene key, or fails
      when the component has no focus handler. */
  function RegisterFocusHook(h: Registry, c: Component): (r: Result<Registry, ConfigurationError>)
    ensures r.Failure? <==> c.focusHandler.None?
    ensures r.Failure? ==> r.error == MissingFocusHandler(c.sceneKey, h)
    ensures r.Success? ==> |r.value| == |h| + 1
    ensures r.Success? ==> r.value[..|h|] == h
    ensures r.Success? ==> r.value[|h|] == Entry(c.sceneKey, c.focusHandler.value)
  {
    match c.focusHandler
    case None => Failure(MissingFocusHandler(c.sceneKey, h))
    case Some(f) => Success(h + [Entry(c.sceneKey, f)])
  }

  /** Drops every hook registered under the component's scene key, whichever
      component registered it, and keeps the rest. */
  function UnregisterFocusHook(h: Registry, c: Component): (r: Registry)
    ensures forall e :: e in r ==> e in h && e.sceneKey != c.sceneKey
    ensures forall e :: e in h && e.sceneKey != c.sceneKey ==> e in r
    ensures |r| <= |h|
  {
    Seqs.Filter(h, OffScene(c.sceneKey))
  }

  /** Unregistration keeps exactly the entries of other scenes, each once and
      in their original relative order: `ps` are their positions in `h`. */
  lemma UnregisterKeepsOthersInOrder(h: Registry, c: Component) returns (ps: seq<int>)
    ensures Seqs.Increasing(ps)
    ensures |ps| == |UnregisterFocusHook(h, c)|
    ensures forall j :: 0 <= j < |ps| ==>
      0 <= ps[j] < |h| && h[ps[j]].sceneKey != c.sceneKey && UnregisterFocusHook(h, c)[j] == h[ps[j]]
    ensures forall i :: 0 <= i < |h| && h[i].sceneKey != c.sceneKey ==> i in ps
  {
    ps := Seqs.FilterSelectsInOrder(h, OffScene(c.sceneKey));
  }

  /** Unregistration removes exactly the entries of the component's scene: the
      kept entries and the entries under the removed key together are the whole
      registry, each entry counted as often as it occurs. */
  lemma {:induction false} UnregisterRemovesSceneEntries(h: Registry, c: Component)
    ensures multiset(UnregisterFocusHook(h, c)) + multiset(Seqs.Filter(h, OnScene(c.sceneKey))) == multiset(h)
    ensures |UnregisterFocusHook(h, c)| + |Seqs.Filter(h, OnScene(c.sceneKey))| == |h|
  {
    Seqs.FilterMultisetPartition(h, OffScene(c.sceneKey), OnScene(c.sceneKey));
    Seqs.FilterPartition(h, OffScene(c.sceneKey), OnScene(c.sceneKey));
  }

  /** Unregistering twice is unregistering once, and a component of the same
      scene key unregisters the same entries. */
  lemma UnregisterIdempotent(h: Registry, c: Component, d: Component)
    requires d.sceneKey == c.sceneKey
    ensures UnregisterFocusHook(UnregisterFocusHook(h, c), d) == UnregisterFocusHook(h, c)
  {
    Seqs.FilterOfFilter(h, OffScene(c.sceneKey), OffScene(c.sceneKey));
  }

  /** Unregistering a scene key nothing is registered under changes nothing. */
  lemma UnregisterWithoutMatchIsNoOp(h: Registry, c: Component)
    requires forall i :: 0 <= i < |h| ==> h[i].sceneKey != c.sceneKey
    ensures UnregisterFocusHook(h, c) == h
  {
    Seqs.FilterKeepsAll(h, OffScene(c.sceneKey));
  }

  /** Unregistering after a registration removes the new entry together with
      the older ones of the same scene, leaving what unregistering alone leaves. */
  lemma UnregisterUndoesRegister(h: Registry, c: Component, d: Component)
    requires d.sceneKey == c.sceneKey
    ensures UnregisterFocusHook(RegistryAfter(RegisterFocusHook(h, c)), d) == UnregisterFocusHook(h, c)
  {
    if c.focusHandler.Some? {
      var e := Entry(c.sceneKey, c.focusHandler.value);
      Seqs.FilterAppend(h, [e], OffScene(c.sceneKey));
    }
  }

  /** Unregistering one scene does not disturb the entries of another scene. */
  lemma UnregisterLeavesOtherScenes(h: Registry, c: Component, key: SceneKey)
    requires key != c.sceneKey
    ensures Seqs.Filter(UnregisterFocusHook(h, c), OnScene(key)) == Seqs.Filter(h, OnScene(key))
  {
    Seqs.FilterOfFilter(h, OffScene(c.sceneKey), OnScene(key));
  }
}
