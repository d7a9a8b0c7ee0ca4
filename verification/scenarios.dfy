/** Concrete registration sequences and what a focus action then fires. */
module Scenarios {
  import opened Wrappers
  import opened FocusHooks
  import opened FocusReducer

  /** The registry after registering `a`, then `b`, then `c` into a new handler. */
  function RegisterThree(a: Component, b: Component, c: Component): Registry {
    var h1 := RegistryAfter(RegisterFocusHook(NewHandler(), a));
    var h2 := RegistryAfter(RegisterFocusHook(h1, b));
    RegistryAfter(RegisterFocusHook(h2, c))
  }

  /** Components X, Y, X registered under one scene fire X, Y, X, in that order. */
  lemma RepeatedRegistrationFiresInOrder(x: Component, y: Component)
    requires x == Component("A", Some(CallbackId(1)))
    requires y == Component("A", Some(CallbackId(2)))
    ensures FiredBy(RegisterThree(x, y, x), "A") == [CallbackId(1), CallbackId(2), CallbackId(1)]
  {
    var h1 := RegistryAfter(RegisterFocusHook(NewHandler(), x));
    var h2 := RegistryAfter(RegisterFocusHook(h1, y));
    NewHandlerFiresNothing("A");
    RegisterThenFire(NewHandler(), x, "A");
    assert FiredBy(h1, "A") == [CallbackId(1)];
    RegisterThenFire(h1, y, "A");
    assert FiredBy(h2, "A") == [CallbackId(1), CallbackId(2)];
    RegisterThenFire(h2, x, "A");
    assert FiredBy(h2, "A") + [CallbackId(1)] == [CallbackId(1), CallbackId(2), CallbackId(1)];
  }

  /** Two components share a scene; unregistering either one silences both. */
  lemma UnregisterOneSilencesBoth(x: Component, y: Component)
    requires x == Component("A", Some(CallbackId(1)))
    requires y == Component("A", Some(CallbackId(2)))
    ensures FiredBy(UnregisterFocusHook(RegisterThree(x, y, x), x), "A") == []
    ensures FiredBy(UnregisterFocusHook(RegisterThree(x, y, x), y), "A") == []
  {
    UnregisterSilencesScene(RegisterThree(x, y, x), x);
    UnregisterSilencesScene(RegisterThree(x, y, x), y);
  }

  /** A component without a focus handler is rejected, adding nothing. */
  lemma MissingHandlerAddsNothing(h: Registry, key: SceneKey)
    ensures RegisterFocusHook(h, Component(key, None)).Failure?
    ensures RegistryAfter(RegisterFocusHook(h, Component(key, None))) == h
  {
  }
}
