/** src/index.tsx: the TypeScript version of the hook, whose `buildResult` maps an
    absent or empty stored string to `null` (`lastSeenStr ? new Date(...) : null`).
    Date parsing (`new Date(string)`) is the uninterpreted function `parse` over an
    abstract date type `D`. */
module VisibilityChange {
  import opened Wrappers
  import opened Storage
  import opened HookConfig
  import opened Hook

  /** `ShowResults`: `lastSeenDate` is a `Date` or `null` (`None`). */
  datatype ShowResults<D> = ShowResults(lastSeenDate: Option<D>)

  /** `buildResult`: read the stored string under the resolved key; no entry or an
      empty string means never seen, anything else is parsed as a date. */
  function BuildResult<D>(parse: string -> D, storage: Store, storageKey: string): (r: ShowResults<D>)
    ensures r.lastSeenDate.None? <==> storageKey !in storage || storage[storageKey] == ""
    ensures r.lastSeenDate.Some? ==> r.lastSeenDate.value == parse(storage[storageKey])
  {
    var lastSeenStr := GetItem(storage, storageKey);
    ShowResults(if Truthy(lastSeenStr) then Some(parse(lastSeenStr.value)) else None)
  }

  /** `buildResult` as the closure the hook holds. */
  function ResultBuilder<D>(parse: string -> D): Builder<ShowResults<D>>
  {
    (storage, storageKey) => BuildResult(parse, storage, storageKey)
  }

  /** `buildResult` only reads the entry under its own key: writes to other keys do
      not change it, and two storages that agree on the key give equal results. */
  lemma BuildResultReadsOnlyKey<D>(parse: string -> D, s1: Store, s2: Store, storageKey: string, other: string, value: string)
    ensures GetItem(s1, storageKey) == GetItem(s2, storageKey) ==>
              BuildResult(parse, s1, storageKey) == BuildResult(parse, s2, storageKey)
    ensures other != storageKey ==>
              BuildResult(parse, SetItem(s1, other, value), storageKey) == BuildResult(parse, s1, storageKey)
  {
  }

  /** The value the hook returns on its first call: `buildResult()` when it returns
      its result (by default, when neither callback is supplied), `undefined`
      otherwise. */
  lemma InitialValue<D>(config: Config, parse: string -> D, storage: Store)
    ensures var opts := ResolveConfig(config);
            Activate(config, ResultBuilder(parse), storage).result
            == if opts.shouldReturnResult then Some(BuildResult(parse, storage, opts.storageKey)) else None
    ensures config.shouldReturnResult.None? ==>
              (Activate(config, ResultBuilder(parse), storage).result.Some?
               <==> config.onHide.None? && config.onShow.None?)
  {
  }

  /** With no configuration, an empty storage gives `{ lastSeenDate: null }` and a
      storage holding `iso` under the default key gives `{ lastSeenDate: parse(iso) }`. */
  lemma DefaultScenarios<D>(parse: string -> D, iso: Timestamp)
    ensures Activate(EmptyConfig, ResultBuilder(parse), map[]).result == Some(ShowResults(None))
    ensures Activate(EmptyConfig, ResultBuilder(parse), map[DefaultStorageKey := iso]).result
            == Some(ShowResults(Some(parse(iso))))
  {
    EmptyConfigDefaults();
  }

  /** A visible event right after a hidden one at time `t` reports
      `lastSeenDate = parse(t)` to `onShow`, and also as the hook's result when the
      hook returns its result. */
  lemma ShowAfterHideReportsTime<D>(opts: Options, parse: string -> D, st: HookState<ShowResults<D>>, t: Timestamp, e: Event)
    requires !IsHidden(e)
    ensures var st2 := Step(opts, ResultBuilder(parse), Step(opts, ResultBuilder(parse), st, Event(HiddenState, t)), e);
            st2.calls[|st2.calls| - 1] == ShowCall(opts.onShow, ShowResults(Some(parse(t))))
            && (opts.shouldReturnResult ==> st2.result == Some(ShowResults(Some(parse(t)))))
            && (!opts.shouldReturnResult ==> st2.result == st.result)
  {
  }

  /** After any run of events containing a hidden one, the next visible event
      reports the date of the latest hidden event. */
  lemma LastSeenIsLatestHide<D>(opts: Options, parse: string -> D, st: HookState<ShowResults<D>>, events: seq<Event>, e: Event)
    requires !IsHidden(e)
    requires LastHiddenTime(events).Some?
    ensures var st2 := Run(opts, ResultBuilder(parse), st, events + [e]);
            st2.calls[|st2.calls| - 1]
            == ShowCall(opts.onShow, ShowResults(Some(parse(LastHiddenTime(events).value))))
  {
    AppendPrefix(events, e);
    RunStorage(opts, ResultBuilder(parse), st, events);
  }
}
