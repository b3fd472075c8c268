/**
 * The duplicate-navigation callback registry of a route record and the binder
 * that keeps a view's callback in it while the view is active.
 */
module DuplicateCallback {
  import opened Wrappers
  import opened CallbackLifecycle

  /** The record's `duplicateCallback` set, changed in place by `add` and `delete`. */
  class CallbackSet {
    var members: set<Callback>

    constructor ()
      ensures members == {}
    {
      members := {};
    }

    /** Set `add`: inserts `cb`, a no-op when it is already present. */
    method Add(cb: Callback)
      modifies this
      ensures members == old(members) + {cb}
    {
      members := members + {cb};
    }

    /** Set `delete`: removes `cb`, a no-op when it is absent. */
    method Delete(cb: Callback)
      modifies this
      ensures members == old(members) - {cb}
    {
      members := members - {cb};
    }
  }

  /** A normalized route record; this model keeps only its path and its callback set. */
  class RouteRecord {
    const path: string
    const duplicateCallback: CallbackSet

    constructor (path: string)
      ensures this.path == path
      ensures fresh(duplicateCallback) && duplicateCallback.members == {}
    {
      this.path := path;
      duplicateCallback := new CallbackSet();
    }
  }

  /**
   * What `registerCallback` leaves behind: the record and callback its hooks
   * close over. The host calls OnUnmounted, OnDeactivated and OnActivated when
   * the view goes through those transitions. `base` is the set as it was just
   * before registration and `trace` the hooks delivered so far; both are ghost
   * bookkeeping: Synced() is the per-callback invariant every hook
   * re-establishes, and Alone() additionally pins the other members down.
   */
  class Registration {
    const record: RouteRecord
    const callback: Callback
    ghost var base: set<Callback>
    ghost var trace: seq<Hook>

    constructor (record: RouteRecord, callback: Callback)
      ensures this.record == record && this.callback == callback
      ensures base == record.duplicateCallback.members && trace == []
    {
      this.record := record;
      this.callback := callback;
      base := record.duplicateCallback.members;
      trace := [];
    }

    /** The lifecycle state of the registering view. */
    ghost function State(): ViewState
      reads this
    {
      StateAfter(trace)
    }

    /** The record's set holds this callback exactly while the view is active. */
    ghost predicate Synced()
      reads this, record.duplicateCallback
    {
      callback in record.duplicateCallback.members <==> State() == Active
    }

    /** No one but this registration has touched the set since it registered. */
    ghost predicate Alone()
      reads this, record.duplicateCallback
    {
      record.duplicateCallback.members == Replay(trace, base, callback)
    }

    /** The shared reaction of the unmount and deactivate hooks. */
    method RemoveFromList()
      modifies record.duplicateCallback
      ensures record.duplicateCallback.members ==
              old(record.duplicateCallback.members) - {callback}
    {
      record.duplicateCallback.Delete(callback);
    }

    /** The view was destroyed. */
    method OnUnmounted()
      modifies this, record.duplicateCallback
      ensures base == old(base) && trace == old(trace) + [Hook.OnUnmounted]
      ensures record.duplicateCallback.members ==
              React(Hook.OnUnmounted, old(record.duplicateCallback.members), callback)
      ensures Synced()
      ensures callback !in record.duplicateCallback.members && State() == Unmounted
      ensures forall r: Registration ::
                old(allocated(r)) && r != this && r.callback != callback && old(r.Synced())
                ==> r.Synced()
      ensures old(Alone()) ==> Alone()
    {
      RemoveFromList();
      trace := trace + [Hook.OnUnmounted];
      assert trace[..|trace| - 1] == old(trace);
    }

    /** The view was kept alive but hidden. */
    method OnDeactivated()
      modifies this, record.duplicateCallback
      ensures base == old(base) && trace == old(trace) + [Hook.OnDeactivated]
      ensures record.duplicateCallback.members ==
              React(Hook.OnDeactivated, old(record.duplicateCallback.members), callback)
      ensures Synced()
      ensures callback !in record.duplicateCallback.members && State() == Deactivated
      ensures forall r: Registration ::
                old(allocated(r)) && r != this && r.callback != callback && old(r.Synced())
                ==> r.Synced()
      ensures old(Alone()) ==> Alone()
    {
      RemoveFromList();
      trace := trace + [Hook.OnDeactivated];
      assert trace[..|trace| - 1] == old(trace);
    }

    /** The kept-alive view is shown again (also on its initial mount). */
    method OnActivated()
      modifies this, record.duplicateCallback
      ensures base == old(base) && trace == old(trace) + [Hook.OnActivated]
      ensures record.duplicateCallback.members ==
              React(Hook.OnActivated, old(record.duplicateCallback.members), callback)
      ensures Synced()
      ensures callback in record.duplicateCallback.members && State() == Active
      ensures forall r: Registration ::
                old(allocated(r)) && r != this && r.callback != callback && old(r.Synced())
                ==> r.Synced()
      ensures old(Alone()) ==> Alone()
    {
      record.duplicateCallback.Add(callback);
      trace := trace + [Hook.OnActivated];
      assert trace[..|trace| - 1] == old(trace);
    }

    /** While this registration is alone on its record, the set holds the
        callback exactly while the view is active, and the other members are
        those the set had before registration. */
    lemma AloneMeansSynced()
      requires Alone()
      ensures callback in record.duplicateCallback.members <==> State() == Active
      ensures forall x :: x != callback ==>
                (x in record.duplicateCallback.members <==> x in base)
    {
      ReplayReflectsState(trace, base, callback);
    }
  }

  /** `registerCallback`: installs the three hooks (the returned registration)
      and adds the callback to the record's set straight away. */
  method RegisterCallback(record: RouteRecord, callback: Callback) returns (reg: Registration)
    modifies record.duplicateCallback
    ensures fresh(reg) && reg.record == record && reg.callback == callback
    ensures record.duplicateCallback.members == old(record.duplicateCallback.members) + {callback}
    ensures reg.base == old(record.duplicateCallback.members) && reg.trace == []
    ensures reg.State() == Active && reg.Synced() && reg.Alone()
    ensures forall r: Registration ::
              old(allocated(r)) && r.callback != callback && old(r.Synced()) ==> r.Synced()
  {
    reg := new Registration(record, callback);
    record.duplicateCallback.Add(callback);
  }

  /** The development-mode diagnostics of `onRouteUpdateDuplicate`. */
  datatype Warning = NoCurrentInstance | NoActiveRecord

  /** What the guards of `onRouteUpdateDuplicate` decide. */
  datatype Decision = Proceed | Abort(warning: Option<Warning>)

  /**
   * The guards of `onRouteUpdateDuplicate`: the current-instance check runs
   * only in development builds; the active-record check always runs, but its
   * warning is emitted only in development builds.
   */
  function Guard(dev: bool, hasInstance: bool, hasActiveRecord: bool): (d: Decision)
    ensures d == Proceed <==> (hasInstance || !dev) && hasActiveRecord
    ensures d == Abort(Some(NoCurrentInstance)) <==> dev && !hasInstance
    ensures d == Abort(Some(NoActiveRecord)) <==> dev && hasInstance && !hasActiveRecord
    ensures !dev ==> (d == Proceed <==> hasActiveRecord) && d != Abort(Some(NoActiveRecord))
                     && d != Abort(Some(NoCurrentInstance))
  {
    if dev && !hasInstance then Abort(Some(NoCurrentInstance))
    else if !hasActiveRecord then Abort(if dev then Some(NoActiveRecord) else None)
    else Proceed
  }

  /** The result of a call to `onRouteUpdateDuplicate`. */
  datatype Outcome = Skipped(warning: Option<Warning>) | Registered(registration: Registration)

  /**
   * `onRouteUpdateDuplicate`. The ambient lookups are parameters: `dev` is the
   * build flag, `hasInstance` whether a component is being set up, and
   * `activeRecord` the value of the injected active matched route record.
   * Only the resolved record's callback set may change.
   */
  method OnRouteUpdateDuplicate(dev: bool, hasInstance: bool, activeRecord: Option<RouteRecord>,
                                duplicateCallback: Callback)
    returns (outcome: Outcome)
    modifies if activeRecord.Some? then {activeRecord.value.duplicateCallback} else {}
    ensures outcome.Registered? <==> Guard(dev, hasInstance, activeRecord.Some?) == Proceed
    ensures outcome.Skipped? ==>
              Guard(dev, hasInstance, activeRecord.Some?) == Abort(outcome.warning)
    ensures outcome.Skipped? && activeRecord.Some? ==>
              activeRecord.value.duplicateCallback.members ==
              old(activeRecord.value.duplicateCallback.members)
    ensures outcome.Registered? ==>
              var reg := outcome.registration;
              fresh(reg) && reg.record == activeRecord.value && reg.callback == duplicateCallback
              && reg.trace == [] && reg.base == old(activeRecord.value.duplicateCallback.members)
              && reg.Synced() && reg.Alone() && reg.State() == Active
              && activeRecord.value.duplicateCallback.members ==
                 old(activeRecord.value.duplicateCallback.members) + {duplicateCallback}
    ensures forall r: Registration ::
              old(allocated(r)) && r.callback != duplicateCallback && old(r.Synced()) ==> r.Synced()
  {
    if dev && !hasInstance {
      return Skipped(Some(NoCurrentInstance));
    }
    if activeRecord.None? {
      return Skipped(if dev then Some(NoActiveRecord) else None);
    }
    var reg := RegisterCallback(activeRecord.value, duplicateCallback);
    outcome := Registered(reg);
  }

  /** Two records: registering on one leaves the other's set untouched, and
      the registrant's hooks follow the view's life. */
  method TwoRecordsScenario()
  {
    var home := new RouteRecord("/");
    var about := new RouteRecord("/about");
    about.duplicateCallback.Add(7);
    var outcome := OnRouteUpdateDuplicate(true, true, Some(home), 1);
    assert outcome.Registered?;
    var reg := outcome.registration;
    assert home.duplicateCallback.members == {1};
    assert about.duplicateCallback.members == {7};
    reg.OnDeactivated();
    assert home.duplicateCallback.members == {};
    reg.OnActivated();
    assert home.duplicateCallback.members == {1};
    reg.OnUnmounted();
    assert home.duplicateCallback.members == {};
    assert about.duplicateCallback.members == {7};
  }

  /** Guards fail: nothing is registered anywhere. */
  method GuardScenario()
  {
    var home := new RouteRecord("/");
    var outcome := OnRouteUpdateDuplicate(true, false, Some(home), 1);
    assert outcome == Skipped(Some(NoCurrentInstance));
    outcome := OnRouteUpdateDuplicate(true, true, None, 1);
    assert outcome == Skipped(Some(NoActiveRecord));
    outcome := OnRouteUpdateDuplicate(false, true, None, 1);
    assert outcome == Skipped(None);
    assert home.duplicateCallback.members == {};
  }

  /** Two components under one view register different callbacks on the same
      record: each stays Synced through the other's hooks, though neither is
      Alone any more. */
  method TwoCallbacksScenario()
  {
    var home := new RouteRecord("/");
    var first := RegisterCallback(home, 1);
    var second := RegisterCallback(home, 2);
    assert first.Synced() && second.Synced();
    assert !first.Alone();
    second.OnDeactivated();
    assert first.Synced() && second.Synced();
    assert home.duplicateCallback.members == {1};
    first.OnUnmounted();
    assert second.Synced() && home.duplicateCallback.members == {};
  }

  /** Two views registering the same callback on the same record share one
      set entry: when one is deactivated the callback leaves the set although
      the other view is still active. */
  method SharedCallbackScenario()
  {
    var home := new RouteRecord("/");
    var first := RegisterCallback(home, 3);
    var second := RegisterCallback(home, 3);
    assert home.duplicateCallback.members == {3};
    first.OnDeactivated();
    assert second.State() == Active;
    assert 3 !in home.duplicateCallback.members;
    assert !second.Alone();
  }
}
