/** src/index.js: the older JavaScript version of the hook. Its `buildResult`
    computes `lastSeenStr && new Date(lastSeenStr)`, so a falsy stored value is
    passed through unchanged: `null` stays `null`, and an empty string becomes the
    `lastSeenDate` itself. */
module VisibilityChangeJs {
  import opened Wrappers
  import opened Storage
  import opened HookConfig
  import opened Hook
  import VisibilityChange

  /** The JavaScript value of `lastSeenDate`: `null`, a string (only ever `""`), or a
      `Date`. */
  datatype LastSeen<D> = NullValue | StringValue(text: string) | DateValue(date: D)

  datatype ShowResults<D> = ShowResults(lastSeenDate: LastSeen<D>)

  /** A `string | null` as a JavaScript value. */
  function FromString<D>(s: Option<string>): LastSeen<D>
  {
    match s
    case None => NullValue
    case Some(text) => StringValue(text)
  }

  /** `buildResult` of src/index.js: no entry gives `null`, an empty string gives the
      empty string, anything else the parsed date. */
  function BuildResult<D>(parse: string -> D, storage: Store, storageKey: string): (r: ShowResults<D>)
    ensures r.lastSeenDate.NullValue? <==> storageKey !in storage
    ensures r.lastSeenDate.StringValue? <==> storageKey in storage && storage[storageKey] == ""
    ensures r.lastSeenDate.StringValue? ==> r.lastSeenDate.text == ""
    ensures r.lastSeenDate.DateValue? ==> r.lastSeenDate.date == parse(storage[storageKey])
  {
    var lastSeenStr := GetItem(storage, storageKey);
    ShowResults(if !Truthy(lastSeenStr) then FromString(lastSeenStr) else DateValue(parse(lastSeenStr.value)))
  }

  function ResultBuilder<D>(parse: string -> D): Builder<ShowResults<D>>
  {
    (storage, storageKey) => BuildResult(parse, storage, storageKey)
  }

  /** The TypeScript result as a JavaScript value. */
  function FromTsx<D>(r: VisibilityChange.ShowResults<D>): ShowResults<D>
  {
    match r.lastSeenDate
    case None => ShowResults(NullValue)
    case Some(d) => ShowResults(DateValue(d))
  }

  /** The two versions of `buildResult` agree exactly when the stored value is not
      the empty string. */
  lemma AgreesWithTsxUnlessEmpty<D>(parse: string -> D, storage: Store, storageKey: string)
    ensures BuildResult(parse, storage, storageKey) == FromTsx(VisibilityChange.BuildResult(parse, storage, storageKey))
            <==> !(storageKey in storage && storage[storageKey] == "")
  {
  }

  /** `buildResult` only reads the entry under its own key. */
  lemma BuildResultReadsOnlyKey<D>(parse: string -> D, s1: Store, s2: Store, storageKey: string, other: string, value: string)
    ensures GetItem(s1, storageKey) == GetItem(s2, storageKey) ==>
              BuildResult(parse, s1, storageKey) == BuildResult(parse, s2, storageKey)
    ensures other != storageKey ==>
              BuildResult(parse, SetItem(s1, other, value), storageKey) == BuildResult(parse, s1, storageKey)
  {
  }

  /** The first returned value: `buildResult()` when the hook returns its result
      (by default exactly when neither callback is supplied), `undefined` otherwise. */
  lemma InitialValue<D>(config: Config, parse: string -> D, storage: Store)
    ensures var opts := ResolveConfig(config);
            Activate(config, ResultBuilder(parse), storage).result
            == if opts.shouldReturnResult then Some(BuildResult(parse, storage, opts.storageKey)) else None
    ensures config.shouldReturnResult.None? ==>
              (Activate(config, ResultBuilder(parse), storage).result.Some?
               <==> config.onHide.None? && config.onShow.None?)
  {
  }

  /** A visible event with an empty string stored hands `onShow` the empty string
      as `lastSeenDate`, not `null`. */
  lemma EmptyStoredValueShown<D>(opts: Options, parse: string -> D, st: HookState<ShowResults<D>>, e: Event)
    requires !IsHidden(e)
    requires GetItem(st.storage, opts.storageKey) == Some("")
    ensures var st2 := Step(opts, ResultBuilder(parse), st, e);
            st2.calls[|st2.calls| - 1] == ShowCall(opts.onShow, ShowResults(StringValue("")))
  {
  }

  /** A visible event right after a hidden one at time `t` reports the date parsed
      from `t`. */
  lemma ShowAfterHideReportsTime<D>(opts: Options, parse: string -> D, st: HookState<ShowResults<D>>, t: Timestamp, e: Event)
    requires !IsHidden(e)
    ensures var st2 := Step(opts, ResultBuilder(parse), Step(opts, ResultBuilder(parse), st, Event(HiddenState, t)), e);
            st2.calls[|st2.calls| - 1] == ShowCall(opts.onShow, ShowResults(DateValue(parse(t))))
            && (opts.shouldReturnResult ==> st2.result == Some(ShowResults(DateValue(parse(t)))))
            && (!opts.shouldReturnResult ==> st2.result == st.result)
  {
  }
}
