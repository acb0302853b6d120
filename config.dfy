/** Resolution of the hook's configuration object: the destructuring with defaults
    at the top of `useVisibilityChange`, which is the same in src/index.tsx and
    src/index.js. The capabilities `storageProvider` and `element` are not fields
    here: the storage is the map the hook is given, and the element only
    contributes its `visibilityState` to each event. */
module HookConfig {
  import opened Wrappers

  const DefaultStorageKey: string := "useSaveRestoreState.lastSeenDateUTC"

  /** A callback as the hook holds it after defaulting: the module's private `noop`,
      or a function the caller supplied (identified by a number). A caller cannot
      supply `noop` itself, since it is not exported. */
  datatype Handler = Noop | UserHandler(id: nat)

  /** The configuration object; a field that is absent (or `undefined`) is `None`. */
  datatype Config = Config(
    onHide: Option<nat>,
    onShow: Option<nat>,
    storageKey: Option<string>,
    shouldReturnResult: Option<bool>)

  /** The `{}` default of the `config` parameter. */
  const EmptyConfig: Config := Config(None, None, None, None)

  /** The configuration once every default has been filled in. */
  datatype Options = Options(
    onHide: Handler,
    onShow: Handler,
    storageKey: string,
    shouldReturnResult: bool)

  function OrNoop(supplied: Option<nat>): (h: Handler)
    ensures h == Noop <==> supplied.None?
  {
    match supplied
    case None => Noop
    case Some(id) => UserHandler(id)
  }

  /** Fills in the defaults. `shouldReturnResult` defaults to true exactly when
      neither callback was supplied, and an explicit value always wins. */
  function ResolveConfig(c: Config): (o: Options)
    ensures c.onHide.None? ==> o.onHide == Noop
    ensures c.onHide.Some? ==> o.onHide == UserHandler(c.onHide.value)
    ensures c.onShow.None? ==> o.onShow == Noop
    ensures c.onShow.Some? ==> o.onShow == UserHandler(c.onShow.value)
    ensures c.storageKey.None? ==> o.storageKey == DefaultStorageKey
    ensures c.storageKey.Some? ==> o.storageKey == c.storageKey.value
    ensures c.shouldReturnResult.Some? ==> o.shouldReturnResult == c.shouldReturnResult.value
    ensures c.shouldReturnResult.None? ==>
              (o.shouldReturnResult <==> c.onHide.None? && c.onShow.None?)
  {
    var onHide := OrNoop(c.onHide);
    var onShow := OrNoop(c.onShow);
    Options(
      onHide,
      onShow,
      if c.storageKey.Some? then c.storageKey.value else DefaultStorageKey,
      if c.shouldReturnResult.Some? then c.shouldReturnResult.value
      else onHide == Noop && onShow == Noop)
  }

  /** Calling the hook with no configuration: both callbacks are `noop`, the key is
      the library's default, and the hook returns its result. */
  lemma EmptyConfigDefaults()
    ensures ResolveConfig(EmptyConfig) == Options(Noop, Noop, DefaultStorageKey, true)
  {
  }
}
