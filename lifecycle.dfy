/**
 * Value-level specification of one registrant's duplicate-navigation callback:
 * the reaction each lifecycle hook installs on the route record's callback set,
 * the lifecycle state of the hosting view, and what a whole sequence of hooks
 * does to the set.
 */
module CallbackLifecycle {

  /** A callback handle; only its identity matters. */
  type Callback = nat

  /** The three lifecycle hooks `registerCallback` subscribes to. */
  datatype Hook = OnUnmounted | OnDeactivated | OnActivated

  /** The lifecycle state of the view that registered the callback. */
  datatype ViewState = Active | Deactivated | Unmounted

  /** The state of the view once the host has delivered hook `h`. */
  function StateOf(h: Hook): ViewState
  {
    match h
    case OnUnmounted => Unmounted
    case OnDeactivated => Deactivated
    case OnActivated => Active
  }

  /** The reaction installed for hook `h`: unmount and deactivate delete `cb`
      from the set, activate adds it back. Only `cb` is affected. */
  function React(h: Hook, s: set<Callback>, cb: Callback): (r: set<Callback>)
    ensures cb in r <==> h == OnActivated
    ensures forall x :: x != cb ==> (x in r <==> x in s)
    ensures cb in s && h == OnActivated ==> r == s
    ensures cb !in s && h != OnActivated ==> r == s
  {
    if h == OnActivated then s + {cb} else s - {cb}
  }

  /** The set after `cb` was registered on `s` and the host then delivered
      the hooks of `trace`, oldest first. */
  function Replay(trace: seq<Hook>, s: set<Callback>, cb: Callback): (r: set<Callback>)
    ensures forall x :: x != cb ==> (x in r <==> x in s)
    decreases |trace|
  {
    if |trace| == 0 then s + {cb}
    else React(trace[|trace| - 1], Replay(trace[..|trace| - 1], s, cb), cb)
  }

  /** The state of the view after `trace`: active right after registration,
      then whatever the last hook made it. */
  function StateAfter(trace: seq<Hook>): ViewState
  {
    if |trace| == 0 then Active else StateOf(trace[|trace| - 1])
  }

  /** The host never runs a hook of a view after it has been unmounted. */
  ghost predicate HostOrder(trace: seq<Hook>)
  {
    forall i :: 0 <= i < |trace| - 1 ==> trace[i] != OnUnmounted
  }

  /** For a single registrant, over ANY sequence of hooks: the callback is in the
      set exactly while the view is active, and every other member is the one
      the set had before registration. */
  lemma {:induction false} ReplayReflectsState(trace: seq<Hook>, s: set<Callback>, cb: Callback)
    ensures cb in Replay(trace, s, cb) <==> StateAfter(trace) == Active
    ensures forall x :: x != cb ==> (x in Replay(trace, s, cb) <==> x in s)
    decreases |trace|
  {
    if |trace| > 0 {
      ReplayReflectsState(trace[..|trace| - 1], s, cb);
    }
  }

  /** The set after any sequence of hooks is the original set with `cb` added
      or removed according to the view's state. */
  lemma {:induction false} ReplayIsOriginalPlusOrMinus(trace: seq<Hook>, s: set<Callback>, cb: Callback)
    ensures Replay(trace, s, cb) ==
            if StateAfter(trace) == Active then s + {cb} else s - {cb}
  {
    ReplayReflectsState(trace, s, cb);
  }

  /** Registering a callback that is already present leaves the set as it was. */
  lemma RegisterIdempotent(s: set<Callback>, cb: Callback)
    requires cb in s
    ensures Replay([], s, cb) == s
  {
  }

  /** A kept-alive view is activated right after its initial mount: the add
      of the activate hook finds the callback present and changes nothing. */
  lemma ActivateAfterRegisterIsNoOp(s: set<Callback>, cb: Callback)
    ensures Replay([OnActivated], s, cb) == Replay([], s, cb)
  {
  }

  /** Deactivate followed by unmount: the unmount deletes an absent element,
      so the set is the one deactivation left. */
  lemma UnmountAfterDeactivateIsNoOp(trace: seq<Hook>, s: set<Callback>, cb: Callback)
    ensures Replay(trace + [OnDeactivated, OnUnmounted], s, cb) ==
            Replay(trace + [OnDeactivated], s, cb)
    ensures cb !in Replay(trace + [OnDeactivated, OnUnmounted], s, cb)
  {
    var t1 := trace + [OnDeactivated];
    var t2 := trace + [OnDeactivated, OnUnmounted];
    assert t2[..|t2| - 1] == t1;
    assert t1[..|t1| - 1] == trace;
  }

  /** In host order, once the view is unmounted the callback is gone and the
      set is back to what it was before registration, minus the callback. */
  lemma UnmountIsFinal(trace: seq<Hook>, s: set<Callback>, cb: Callback)
    requires HostOrder(trace)
    requires OnUnmounted in trace
    ensures StateAfter(trace) == Unmounted
    ensures Replay(trace, s, cb) == s - {cb}
  {
    var i :| 0 <= i < |trace| && trace[i] == OnUnmounted;
    assert i == |trace| - 1;
    ReplayIsOriginalPlusOrMinus(trace, s, cb);
  }

  /** `n` rounds of deactivate followed by activate. */
  function Cycles(n: nat): (r: seq<Hook>)
    ensures |r| == 2 * n
  {
    if n == 0 then [] else Cycles(n - 1) + [OnDeactivated, OnActivated]
  }

  lemma {:induction false} CyclesAt(n: nat, i: nat)
    requires i < 2 * n
    ensures Cycles(n)[i] == if i % 2 == 0 then OnDeactivated else OnActivated
  {
    if i < 2 * (n - 1) {
      CyclesAt(n - 1, i);
    }
  }

  /** The life of a view: registered on mount, `n` deactivate/activate rounds,
      then unmounted. */
  function Life(n: nat): (r: seq<Hook>)
    ensures |r| == 2 * n + 1
  {
    Cycles(n) + [OnUnmounted]
  }

  /** Over register, (deactivate, activate)^n, unmount: after the first `k`
      hooks the callback is in the set exactly when `k` is even, i.e. during
      [mount, first deactivate) and each [activate, next deactivate or
      unmount); after the final unmount it is absent. */
  lemma LifeIntervals(n: nat, k: nat, s: set<Callback>, cb: Callback)
    requires k <= 2 * n + 1
    ensures cb in Replay(Life(n)[..k], s, cb) <==> k % 2 == 0
    ensures k == 2 * n + 1 ==> Replay(Life(n)[..k], s, cb) == s - {cb}
  {
    var t := Life(n)[..k];
    ReplayIsOriginalPlusOrMinus(t, s, cb);
    if k > 0 {
      assert t[k - 1] == Life(n)[k - 1];
      if k - 1 < 2 * n {
        assert Life(n)[k - 1] == Cycles(n)[k - 1];
        CyclesAt(n, k - 1);
      }
    }
  }
}
