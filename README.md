# use-visibility-change, modelled in Dafny

A model of `useVisibilityChange`, a React hook that records when the page was
last hidden and reports that "last seen" date when it becomes visible again.
Two versions of the hook exist in the repository, `src/index.tsx` and the older
`src/index.js`. Both follow the same four steps:

1. **Configuration.** Fill in defaults for `onHide`, `onShow`, `storageKey`,
   `shouldReturnResult`, `storageProvider` and `element`. `shouldReturnResult`
   defaults to true exactly when neither callback was supplied.
2. **`buildResult`.** Read the string stored under `storageKey` and turn it into
   `{ lastSeenDate }`.
3. **Initial value.** The hook starts out returning `buildResult()` when
   `shouldReturnResult` holds, and `undefined` otherwise.
4. **`visibilitychange` handler.** On `'hidden'`, store the current ISO-8601
   timestamp under `storageKey` and call `onHide()`. On any other state, compute
   `buildResult()`, make it the returned value when `shouldReturnResult` holds,
   and call `onShow` with it.

The versions differ in two places. The first is `buildResult`. For an empty
stored string, `src/index.tsx` gives `lastSeenDate: null`. `src/index.js`
computes `lastSeenStr && new Date(lastSeenStr)`, so it passes the empty string
through. The JavaScript module models this as written. The second is the default
`storageProvider`: `global.localStorage` in `src/index.tsx:31` and the bare
`localStorage` in `src/index.js:13`. Host globals are left out (see below), so
the model does not distinguish them.

Modules:

- `Wrappers` (`wrappers.dfy`): `Option`, standing for `null` / `undefined`.
- `Storage` (`storage.dfy`): the storage capability as a `map<string, string>`
  that returns what was last set. Also holds JavaScript truthiness of `string | null`.
- `HookConfig` (`config.dfy`): the configuration object and its defaulting. This
  code is the same in both files, apart from the default `storageProvider`.
- `Hook` (`hook.dfy`): the initial value and the handler. It is shared by both
  versions and generic in the result type, with `buildResult` passed as a
  closure. `Step` is the handler as a function of the state. `Run` applies a
  sequence of events in delivery order. Class `VisibilityHook` is one live hook
  instance: it updates its storage, its returned value and its log of callback
  calls in place.
- `VisibilityChange` (`index_tsx.dfy`): `buildResult` of `src/index.tsx` and the
  properties that depend on it.
- `VisibilityChangeJs` (`index_js.dfy`): `buildResult` of `src/index.js`, its
  properties, and how it compares with the TypeScript version.

Inputs from the host are parameters:

- the element's `visibilityState` at each event;
- the clock reading, already formatted by `toISOString()`. Its type `Timestamp`
  excludes the empty string, because `toISOString()` never returns one;
- the storage contents.

`new Date(string)` is an uninterpreted function `parse: string -> D` over an
abstract date type `D`. A callback is either the module's private `noop` or a
caller-supplied function, identified by a number. Calls to callbacks are
recorded in order in the state.

## Model

| member | source | states |
|---|---|---|
| Storage.GetItem | src/index.tsx:8 | `getItem(key)` is `null` iff nothing is stored under the key, and otherwise the stored string |
| Storage.SetItem | src/index.tsx:7-10 | after `setItem(key, value)` the key reads back `value` and every other key reads back what it did before |
| HookConfig.ResolveConfig | src/index.tsx:26-33 | absent callbacks become `noop`; the key defaults to `'useSaveRestoreState.lastSeenDateUTC'`; `shouldReturnResult` defaults to true iff neither `onHide` nor `onShow` was supplied, and an explicit value always overrides it (the same destructuring is at src/index.js:8-15) |
| HookConfig.EmptyConfigDefaults | src/index.tsx:25-33 | calling the hook with `{}` gives two `noop` callbacks, the default key, and a returned result |
| Hook.Activate | src/index.tsx:25-43 | the first call of the hook writes nothing and runs no callback, and it returns a value iff the resolved `shouldReturnResult` holds |
| Hook.Step | src/index.tsx:47-61 | the handler writes at most the resolved key (nothing on a visible event), appends exactly one callback call after the earlier ones, which is to `onHide` iff the state is `'hidden'`, and changes the returned value only on a visible event with `shouldReturnResult` (same handler at src/index.js:31-45) |
| Hook.InitialResult | src/index.tsx:42-43 | the initial state is defined iff `shouldReturnResult` holds, and then it equals `buildResult()` on the current storage and resolved key |
| Hook.HiddenTransition | src/index.tsx:48-52 | on `'hidden'` the resolved key reads back the timestamp and no other key changes; the call log gains exactly one `onHide` call and no `onShow` call; the returned value is unchanged (same handler at src/index.js:32-36) |
| Hook.VisibleTransition | src/index.tsx:53-60 | on any other state the storage is untouched; `onShow` is called exactly once, with `buildResult()`, and `onHide` is not called; the returned value becomes that result when `shouldReturnResult` holds and stays as it was otherwise, `undefined` included (same handler at src/index.js:37-44) |
| Hook.ShowAfterHide | src/index.tsx:47-61 | reads and writes use the same key: a visible event after a hidden one at `t` hands `onShow` what `buildResult` makes of a storage holding `t` |
| Hook.RunStorage | src/index.tsx:45-63 | after any sequence of events the storage differs from the initial one only at the resolved key, which holds the timestamp of the latest hidden event (unchanged if there was none) |
| Hook.RunCalls | src/index.tsx:45-63 | each event adds exactly one callback call after the earlier ones: `onHide` once per hidden event and `onShow` once per other event |
| Hook.RunCallsInOrder | src/index.tsx:45-63 | the calls come in event order: the i-th new call is `onHide` when the i-th event is hidden, and otherwise `onShow` with `buildResult()` on the storage as it stood when that event arrived |
| Hook.RunResultFrozen | src/index.tsx:56-58 | when `shouldReturnResult` is false the returned value never changes, whatever events arrive |
| Hook.StepKeepsResultInvariant | src/index.tsx:53-60 | one event keeps the invariant "the returned value is what `onShow` last received, or the initial value before any `onShow` call or when results are not returned" |
| Hook.RunKeepsResultInvariant | src/index.tsx:45-63 | that invariant holds after any sequence of events |
| Hook.HookReturnValue | src/index.tsx:42-65 | after any sequence of events the hook returns `undefined` if `shouldReturnResult` is false; otherwise it returns what `onShow` last received, or the initial `buildResult()` before the first visible event |
| Hook.VisibilityHook.constructor | src/index.tsx:25-43 | first call of the hook: the options are the resolved configuration, the storage is untouched, no callback has run, and the returned value is the initial result |
| Hook.VisibilityHook.OnVisibilityChange | src/index.tsx:47-61 | the listener updates storage, returned value and call log exactly as `Hook.Step` does for the event `(visibilityState, now)` |
| VisibilityChange.BuildResult | src/index.tsx:35-40 | `lastSeenDate` is `null` iff nothing or the empty string is stored under the key; otherwise it is the date parsed from the stored string |
| VisibilityChange.BuildResultReadsOnlyKey | src/index.tsx:35-40 | `buildResult` depends only on the entry under its key: storages that agree there give equal results, and a write to another key does not change it |
| VisibilityChange.InitialValue | src/index.tsx:42-43 | the first returned value is `buildResult()` if `shouldReturnResult` holds and `undefined` otherwise; by default it is defined iff neither callback is supplied |
| VisibilityChange.DefaultScenarios | src/index.tsx:25-43 | with config `{}`, an empty storage gives `{ lastSeenDate: null }`, and a timestamp stored under the default key gives the date parsed from it |
| VisibilityChange.ShowAfterHideReportsTime | src/index.tsx:47-61 | a visible event right after a hidden one at `t` passes `{ lastSeenDate: parse(t) }` to `onShow`; it becomes the returned value iff `shouldReturnResult` holds, and otherwise the returned value is unchanged |
| VisibilityChange.LastSeenIsLatestHide | src/index.tsx:45-63 | after any sequence of events containing a hidden one, the next visible event reports the date of the latest hidden event |
| VisibilityChangeJs.BuildResult | src/index.js:17-26 | `lastSeenDate` is `null` iff nothing is stored; it is the empty string iff the empty string is stored; otherwise it is the date parsed from the stored string |
| VisibilityChangeJs.AgreesWithTsxUnlessEmpty | src/index.js:19-20 | the JavaScript and TypeScript `buildResult` agree exactly when the stored value is not the empty string |
| VisibilityChangeJs.BuildResultReadsOnlyKey | src/index.js:17-26 | `buildResult` depends only on the entry under its key, so repeated calls with no write to that key agree |
| VisibilityChangeJs.InitialValue | src/index.js:7-29 | the first returned value is `buildResult()` if `shouldReturnResult` holds and `undefined` otherwise; by default it is defined iff neither callback is supplied |
| VisibilityChangeJs.EmptyStoredValueShown | src/index.js:37-44 | a visible event with the empty string stored hands `onShow` the empty string as `lastSeenDate`, not `null` |
| VisibilityChangeJs.ShowAfterHideReportsTime | src/index.js:31-45 | a visible event right after a hidden one at `t` passes the date parsed from `t` to `onShow`; it becomes the returned value iff `shouldReturnResult` holds |

## Left out

- React machinery: lazy `useState` initialisation, re-render scheduling and the `useCallback` memoisation. The model treats `buildResult` as always reading the current `storageKey`. It ignores that the dependency list `[storageProvider]` leaves `storageKey` out, which matters only if the key changes between renders.
- Event subscription through `@use-it/event-listener` (adding and removing the listener, teardown). That library is not part of this model. Each event is a call of the handler.
- Host globals: `global.localStorage`, `localStorage` and `global.document` as defaults for `storageProvider` and `element`. The storage is whatever map the hook is given. The element contributes only its `visibilityState` at each event.
- Dates and the clock: `new Date()`, `toISOString()` and `new Date(string)`. The timestamp is an opaque string parameter, and parsing is the uninterpreted `parse`. Malformed stored strings are parsed like any other, as in the source; what the host makes of them is not modelled.
- Several hooks sharing one storage key: each `VisibilityHook` owns its storage map. Last-write-wins between instances is not modelled.
- Exceptions thrown by a storage provider or a callback. The model's storage and callbacks never fail.
- What callbacks do: a call is only recorded in the log. Callbacks cannot reenter the hook or touch storage.
- In `src/index.js`, a truthy non-boolean `shouldReturnResult` or a `getItem` that returns `undefined`. The model takes the declared types: a boolean and `string | null`.
- `__tests__/index.test.js`: it calls the hook with an old positional signature that does not match the configuration object of `src/index.js`, so no property is taken from it.
