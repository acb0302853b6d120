/** The body of `useVisibilityChange` minus React: the initial value of the
    returned state and the `visibilitychange` handler. Both versions of the hook
    (src/index.tsx and src/index.js) share this logic word for word and differ only
    in `buildResult`, so the result type `R` and the `build` closure standing for
    `buildResult` are parameters here; modules VisibilityChange and
    VisibilityChangeJs supply them. */
module Hook {
  import opened Wrappers
  import opened Storage
  import opened HookConfig

  const HiddenState: string := "hidden"

  /** A clock reading in the form `toISOString()` gives it, which is never the
      empty string. */
  type Timestamp = s: string | s != "" witness "1970-01-01T00:00:00.000Z"

  /** One `visibilitychange` dispatch: the element's `visibilityState` at that
      moment and the clock's reading. */
  datatype Event = Event(visibilityState: string, now: Timestamp)

  predicate IsHidden(e: Event)
  {
    e.visibilityState == HiddenState
  }

  /** An invocation of one of the resolved callbacks. */
  datatype Call<R> = HideCall(handler: Handler) | ShowCall(handler: Handler, results: R)

  /** Everything the hook's behaviour can be observed through: the external
      storage, the hook's returned state (`None` is `undefined`) and the callbacks
      invoked so far, in order. */
  datatype HookState<R> = HookState(storage: Store, result: Option<R>, calls: seq<Call<R>>)

  /** `buildResult`, given the storage it reads and the resolved key. */
  type Builder<R> = (Store, string) -> R

  /** The value `useState` starts from: `buildResult()` when the hook returns its
      result, `undefined` otherwise. */
  function InitialResult<R>(opts: Options, build: Builder<R>, storage: Store): (r: Option<R>)
    ensures r.Some? <==> opts.shouldReturnResult
    ensures r.Some? ==> r.value == build(storage, opts.storageKey)
  {
    if opts.shouldReturnResult then Some(build(storage, opts.storageKey)) else None
  }

  /** The state right after the hook is first called with `config`: nothing is
      written, no callback runs, and a value is returned iff results are returned. */
  function Activate<R>(config: Config, build: Builder<R>, storage: Store): (st: HookState<R>)
    ensures st.storage == storage && st.calls == []
    ensures st.result.Some? <==> ResolveConfig(config).shouldReturnResult
  {
    HookState(storage, InitialResult(ResolveConfig(config), build, storage), [])
  }

  /** The `visibilitychange` handler as a function of the state before the event.
      It writes at most the resolved key, appends exactly one callback call (to
      `onHide` iff the state is hidden), and can change the returned value only on
      a visible event of a hook that returns its result. */
  function Step<R>(opts: Options, build: Builder<R>, st: HookState<R>, e: Event): (r: HookState<R>)
    ensures forall k :: k != opts.storageKey ==> GetItem(r.storage, k) == GetItem(st.storage, k)
    ensures !IsHidden(e) ==> r.storage == st.storage
    ensures |r.calls| == |st.calls| + 1 && r.calls[..|st.calls|] == st.calls
    ensures r.calls[|st.calls|].HideCall? <==> IsHidden(e)
    ensures IsHidden(e) || !opts.shouldReturnResult ==> r.result == st.result
  {
    if IsHidden(e) then
      HookState(SetItem(st.storage, opts.storageKey, e.now), st.result,
                st.calls + [HideCall(opts.onHide)])
    else
      var callbackResult := build(st.storage, opts.storageKey);
      HookState(st.storage,
                if opts.shouldReturnResult then Some(callbackResult) else st.result,
                st.calls + [ShowCall(opts.onShow, callbackResult)])
  }

  /** Events handled one after another, in the order the host delivers them. */
  function Run<R>(opts: Options, build: Builder<R>, st: HookState<R>, events: seq<Event>): HookState<R>
    decreases |events|
  {
    if |events| == 0 then st
    else Step(opts, build, Run(opts, build, st, events[..|events| - 1]), events[|events| - 1])
  }

  function HideCount<R>(calls: seq<Call<R>>): nat
  {
    if |calls| == 0 then 0
    else HideCount(calls[..|calls| - 1]) + if calls[|calls| - 1].HideCall? then 1 else 0
  }

  function ShowCount<R>(calls: seq<Call<R>>): nat
  {
    if |calls| == 0 then 0
    else ShowCount(calls[..|calls| - 1]) + if calls[|calls| - 1].ShowCall? then 1 else 0
  }

  /** What `onShow` received most recently, if it was ever called. */
  function LastShown<R>(calls: seq<Call<R>>): Option<R>
  {
    if |calls| == 0 then None
    else if calls[|calls| - 1].ShowCall? then Some(calls[|calls| - 1].results)
    else LastShown(calls[..|calls| - 1])
  }

  function CountHidden(events: seq<Event>): nat
  {
    if |events| == 0 then 0
    else CountHidden(events[..|events| - 1]) + if IsHidden(events[|events| - 1]) then 1 else 0
  }

  /** The timestamp of the most recent hidden event, if any. */
  function LastHiddenTime(events: seq<Event>): Option<Timestamp>
  {
    if |events| == 0 then None
    else if IsHidden(events[|events| - 1]) then Some(events[|events| - 1].now)
    else LastHiddenTime(events[..|events| - 1])
  }

  lemma AppendPrefix<T>(s: seq<T>, x: T)
    ensures (s + [x])[..|s|] == s
  {
  }

  /** A hidden event writes the timestamp under the resolved key and nothing else,
      calls `onHide` once and `onShow` not at all, and leaves the result alone. */
  lemma HiddenTransition<R>(opts: Options, build: Builder<R>, st: HookState<R>, e: Event)
    requires IsHidden(e)
    ensures GetItem(Step(opts, build, st, e).storage, opts.storageKey) == Some(e.now)
    ensures forall k :: k != opts.storageKey ==>
              GetItem(Step(opts, build, st, e).storage, k) == GetItem(st.storage, k)
    ensures Step(opts, build, st, e).result == st.result
    ensures Step(opts, build, st, e).calls == st.calls + [HideCall(opts.onHide)]
    ensures HideCount(Step(opts, build, st, e).calls) == HideCount(st.calls) + 1
    ensures ShowCount(Step(opts, build, st, e).calls) == ShowCount(st.calls)
  {
    AppendPrefix(st.calls, HideCall(opts.onHide));
  }

  /** Any other event leaves the storage alone, calls `onShow` once with
      `buildResult()` and `onHide` not at all, and replaces the result with that
      value only when the hook returns its result. */
  lemma VisibleTransition<R>(opts: Options, build: Builder<R>, st: HookState<R>, e: Event)
    requires !IsHidden(e)
    ensures Step(opts, build, st, e).storage == st.storage
    ensures Step(opts, build, st, e).calls
            == st.calls + [ShowCall(opts.onShow, build(st.storage, opts.storageKey))]
    ensures ShowCount(Step(opts, build, st, e).calls) == ShowCount(st.calls) + 1
    ensures HideCount(Step(opts, build, st, e).calls) == HideCount(st.calls)
    ensures opts.shouldReturnResult ==>
              Step(opts, build, st, e).result == Some(build(st.storage, opts.storageKey))
    ensures !opts.shouldReturnResult ==> Step(opts, build, st, e).result == st.result
  {
    AppendPrefix(st.calls, ShowCall(opts.onShow, build(st.storage, opts.storageKey)));
  }

  /** Reads and writes use the same key: after a hidden event at time `t`, the next
      `onShow` receives what `buildResult` makes of a storage holding `t`. */
  lemma ShowAfterHide<R>(opts: Options, build: Builder<R>, st: HookState<R>, t: Timestamp, e: Event)
    requires !IsHidden(e)
    ensures Step(opts, build, Step(opts, build, st, Event(HiddenState, t)), e).calls
            == st.calls + [HideCall(opts.onHide),
                           ShowCall(opts.onShow, build(SetItem(st.storage, opts.storageKey, t), opts.storageKey))]
  {
  }

  /** After any run of events, the storage differs from the initial one at most in
      the resolved key, which holds the timestamp of the latest hidden event. */
  lemma {:induction false} RunStorage<R>(opts: Options, build: Builder<R>, st: HookState<R>, events: seq<Event>)
    ensures Run(opts, build, st, events).storage
            == if LastHiddenTime(events).Some?
               then SetItem(st.storage, opts.storageKey, LastHiddenTime(events).value)
               else st.storage
    decreases |events|
  {
    if |events| > 0 {
      var init := events[..|events| - 1];
      RunStorage(opts, build, st, init);
      if IsHidden(events[|events| - 1]) {
        var before := Run(opts, build, st, init).storage;
        var t := events[|events| - 1].now;
        assert SetItem(before, opts.storageKey, t) == SetItem(st.storage, opts.storageKey, t);
      }
    }
  }

  /** Every event calls exactly one callback: `onHide` once per hidden event and
      `onShow` once per other event, appended after the earlier calls. */
  lemma {:induction false} RunCalls<R>(opts: Options, build: Builder<R>, st: HookState<R>, events: seq<Event>)
    ensures |Run(opts, build, st, events).calls| == |st.calls| + |events|
    ensures Run(opts, build, st, events).calls[..|st.calls|] == st.calls
    ensures HideCount(Run(opts, build, st, events).calls) == HideCount(st.calls) + CountHidden(events)
    ensures ShowCount(Run(opts, build, st, events).calls)
            == ShowCount(st.calls) + |events| - CountHidden(events)
    decreases |events|
  {
    if |events| > 0 {
      var n := |events| - 1;
      var init := events[..n];
      RunCalls(opts, build, st, init);
      CountHiddenBound(init);
      var before := Run(opts, build, st, init);
      if IsHidden(events[n]) {
        HiddenTransition(opts, build, before, events[n]);
      } else {
        VisibleTransition(opts, build, before, events[n]);
      }
    }
  }

  /** The callback call the handler makes for event `e` when the storage holds
      `storage`. */
  function CallFor<R>(opts: Options, build: Builder<R>, storage: Store, e: Event): Call<R>
  {
    if IsHidden(e) then HideCall(opts.onHide) else ShowCall(opts.onShow, build(storage, opts.storageKey))
  }

  lemma StepCall<R>(opts: Options, build: Builder<R>, st: HookState<R>, e: Event)
    ensures Step(opts, build, st, e).calls == st.calls + [CallFor(opts, build, st.storage, e)]
  {
  }

  lemma {:induction false} RunCallAt<R>(opts: Options, build: Builder<R>, st: HookState<R>, events: seq<Event>, i: nat)
    requires i < |events|
    ensures |Run(opts, build, st, events).calls| == |st.calls| + |events|
    ensures Run(opts, build, st, events).calls[|st.calls| + i]
            == CallFor(opts, build, Run(opts, build, st, events[..i]).storage, events[i])
    decreases |events|
  {
    var n := |events| - 1;
    var init := events[..n];
    var before := Run(opts, build, st, init);
    RunCalls(opts, build, st, events);
    assert Run(opts, build, st, events) == Step(opts, build, before, events[n]);
    StepCall(opts, build, before, events[n]);
    RunCalls(opts, build, st, init);
    if i < n {
      RunCallAt(opts, build, st, init, i);
      assert events[..i] == init[..i];
    } else {
      assert events[..i] == init;
    }
  }

  /** The calls appear in event order: the i-th new call is `onHide` when the i-th
      event is hidden, and otherwise `onShow` with `buildResult()` on the storage
      as it stood when that event arrived. */
  lemma {:induction false} RunCallsInOrder<R>(opts: Options, build: Builder<R>, st: HookState<R>, events: seq<Event>)
    ensures |Run(opts, build, st, events).calls| == |st.calls| + |events|
    ensures forall i :: 0 <= i < |events| ==>
              Run(opts, build, st, events).calls[|st.calls| + i]
              == CallFor(opts, build, Run(opts, build, st, events[..i]).storage, events[i])
  {
    RunCalls(opts, build, st, events);
    forall i | 0 <= i < |events|
      ensures Run(opts, build, st, events).calls[|st.calls| + i]
              == CallFor(opts, build, Run(opts, build, st, events[..i]).storage, events[i])
    {
      RunCallAt(opts, build, st, events, i);
    }
  }

  lemma {:induction false} CountHiddenBound(events: seq<Event>)
    ensures CountHidden(events) <= |events|
    decreases |events|
  {
    if |events| > 0 {
      CountHiddenBound(events[..|events| - 1]);
    }
  }

  /** The returned value never changes when the hook does not return its result. */
  lemma {:induction false} RunResultFrozen<R>(opts: Options, build: Builder<R>, st: HookState<R>, events: seq<Event>)
    requires !opts.shouldReturnResult
    ensures Run(opts, build, st, events).result == st.result
    decreases |events|
  {
    if |events| > 0 {
      RunResultFrozen(opts, build, st, events[..|events| - 1]);
    }
  }

  /** The hook's returned value is what `onShow` last received (when the hook
      returns its result and `onShow` has been called), and otherwise the value it
      started with. */
  ghost predicate ResultInvariant<R>(opts: Options, initial: Option<R>, st: HookState<R>)
  {
    st.result == if opts.shouldReturnResult && LastShown(st.calls).Some?
                 then LastShown(st.calls) else initial
  }

  lemma StepKeepsResultInvariant<R>(opts: Options, build: Builder<R>, initial: Option<R>, st: HookState<R>, e: Event)
    requires ResultInvariant(opts, initial, st)
    ensures ResultInvariant(opts, initial, Step(opts, build, st, e))
  {
    if IsHidden(e) {
      AppendPrefix(st.calls, HideCall(opts.onHide));
    }
  }

  lemma {:induction false} RunKeepsResultInvariant<R>(opts: Options, build: Builder<R>, initial: Option<R>, st: HookState<R>, events: seq<Event>)
    requires ResultInvariant(opts, initial, st)
    ensures ResultInvariant(opts, initial, Run(opts, build, st, events))
    decreases |events|
  {
    if |events| > 0 {
      var init := events[..|events| - 1];
      RunKeepsResultInvariant(opts, build, initial, st, init);
      StepKeepsResultInvariant(opts, build, initial, Run(opts, build, st, init), events[|events| - 1]);
    }
  }

  /** What the hook returns after any sequence of events since it was first
      called: `undefined` forever when it does not return its result; otherwise
      what `onShow` last received, or the initial `buildResult()` before any
      visible event. */
  lemma {:induction false} HookReturnValue<R>(config: Config, build: Builder<R>, storage: Store, events: seq<Event>)
    ensures var opts := ResolveConfig(config);
            var st := Run(opts, build, Activate(config, build, storage), events);
            st.result == if !opts.shouldReturnResult then None
                         else if LastShown(st.calls).Some? then LastShown(st.calls)
                         else Some(build(storage, opts.storageKey))
  {
    var opts := ResolveConfig(config);
    var st0 := Activate(config, build, storage);
    RunKeepsResultInvariant(opts, build, st0.result, st0, events);
  }

  /** One live instance of the hook. `storage` is the external storage it talks
      to, `result` the state it returns, `calls` the callback invocations. */
  class VisibilityHook<R> {
    const options: Options
    const build: Builder<R>
    var storage: Store
    var result: Option<R>
    var calls: seq<Call<R>>

    function State(): HookState<R>
      reads this
    {
      HookState(storage, result, calls)
    }

    /** The first call of the hook: resolve the configuration and initialise the
        returned state. */
    constructor (config: Config, build: Builder<R>, storage: Store)
      ensures options == ResolveConfig(config) && this.build == build
      ensures State() == Activate(config, build, storage)
    {
      options := ResolveConfig(config);
      this.build := build;
      this.storage := storage;
      result := InitialResult(ResolveConfig(config), build, storage);
      calls := [];
    }

    /** The `visibilitychange` listener, run with the element's current state and
        the clock's current ISO-8601 reading. */
    method OnVisibilityChange(visibilityState: string, now: Timestamp)
      modifies this
      ensures State() == Step(options, build, old(State()), Event(visibilityState, now))
    {
      var isHidden := visibilityState == HiddenState;
      if isHidden {
        var sleepDate := now;
        storage := SetItem(storage, options.storageKey, sleepDate);
        calls := calls + [HideCall(options.onHide)];
      } else {
        var callbackResult := build(storage, options.storageKey);
        if options.shouldReturnResult {
          result := Some(callbackResult);
        }
        calls := calls + [ShowCall(options.onShow, callbackResult)];
      }
    }
  }
}
