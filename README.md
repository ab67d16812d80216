# Helium localization editor — a Dafny model

Helium is a web editor for translation strings. A user picks a project and a locale, and a table
lists every translation key with its value in that locale. The table can be searched with a
fuzzy filter, and a value can be edited in place. A FastAPI backend reads and writes the
strings. It also validates a project: for each key it reports the locales with no row and the
locales whose `{name}` / `%{name}` placeholders disagree with the others.

This project models the data logic of the editor and of the backend and proves properties about it:

- `EditableCell` (class `Cell`): the editable cell. It covers the draft, commit on blur,
  rollback when the update throws, Escape, and restoring the caret. As written, the awaited
  update never throws, so the rollback never runs; this is recorded under "## Findings".
- `TranslationKeyManager`: the table's logic. That is the projection of each key onto the
  current locale, the searchable text of a row, the `rankItem` pass test (an ordered
  subsequence), and the global filter over the rows.
- `Store` (class `TranslationManagementStore`): the zustand store of the current project,
  locale and search query, persisted under `helium-store`.
- `UseLocalizations` (class `QueryClient`): the fetch and update calls, their error messages,
  when the query is enabled, and the query cache with its invalidation.
- `UseTranslationValidation` (class `ValidationHook`): the validation hook's three pieces of
  state and how each reply settles them.
- `LocalizationApi`: the three backend handlers. On GET, the rows are reshaped into a map keyed
  by key and then by locale. On POST, the upsert records are built and new keys are inserted.
  On validation, the report is built. `Interpolation` holds the placeholder extraction
  (`%?{([^}]+)}`) and the comparison of locales. `Dicts` holds the "last assignment wins" fold
  that Python dict building amounts to.
- `Models`, `Wrappers`, `Text`: the shared records, `Option`/`Result`, ASCII lower-casing, and
  decimal rendering.

Database queries, `fetch` and storage are not performed. Their results are inputs to the
operations. These inputs are:

- whether a lookup found a row, and the rows a query returns;
- the ids an insert returns;
- how a `fetch` ends;
- what local storage holds.

In every backend handler, the `HTTPException(404)` raised inside the `try` is caught by its own
`except Exception` and re-raised as a 500. The model follows the code here (`Surface`).

## Model

| member | source | states |
|---|---|---|
| EditableCell.Cell.constructor | components/EditableCell.tsx:13-17 | the draft and the displayed text start as `initialValue`; not editing; no caret offset; nothing sent |
| EditableCell.Cell.Focus | components/EditableCell.tsx:102 | focusing enters editing and keeps the draft |
| EditableCell.Cell.Input | components/EditableCell.tsx:88-95 | the draft becomes the element's text, or "" when it has none; the caret offset is recorded only when the selection has a range |
| EditableCell.Cell.Blur | components/EditableCell.tsx:52-72 | leaves editing; an unchanged draft sends nothing; a changed one sends exactly one payload for its own key, attributed to the selected project; a throwing update rolls back the draft and the text |
| EditableCell.Cell.KeyDown | components/EditableCell.tsx:74-86 | Enter commits as blur does, with the same rollback on a throwing update and the same kept draft otherwise; Escape restores `initialValue` before blurring, so nothing is sent; other keys change nothing |
| EditableCell.Cell.RestoreCaret | components/EditableCell.tsx:29-50 | while editing with a saved offset, the caret goes to that offset, or to the end of the text when placing it there throws; otherwise the caret is untouched |
| EditableCell.AwaitMutate | components/EditableCell.tsx:55-63 | as written, awaiting `mutate` (app/hooks/useLocalizations.ts:74) never throws, whatever the reply |
| EditableCell.AwaitMutateAsync | components/EditableCell.tsx:55-70 | as intended, the awaited update throws exactly when the update request fails |
| EditableCell.RejectedUpdateNotRolledBack | components/EditableCell.tsx:55-70 | as written, a failed update (a 500 with a detail) makes the await resolve, so the catch never rolls back; the intended await throws |
| EditableCell.Cell.Commit | components/EditableCell.tsx:52-72 | a blur whose update is awaited as intended: a failed update of a changed draft restores `initialValue`, a successful one keeps the draft |
| EditableCell.CommitPayloadIsEdit | components/EditableCell.tsx:54-63 | the payload built on blur is an edit of one key exactly when the draft differs from the initial value, and it carries the draft unchanged |
| TranslationKeyManager.ProjectionFaithful | components/TranslationKeyManager.tsx:144-153 | each projected row keeps its key's id, key, category and description, and has exactly one translation entry: the current locale, with that key's value when present |
| TranslationKeyManager.SubsequenceIffEmbedding | components/TranslationKeyManager.tsx:51 | the greedy pass test holds exactly when the query's characters occur in the text in order, at strictly increasing positions |
| TranslationKeyManager.FuzzyFilter | components/TranslationKeyManager.tsx:36-58 | the filter fails exactly when the row's first translation cannot be read |
| TranslationKeyManager.FuzzyFilterMeaning | components/TranslationKeyManager.tsx:36-58 | on a row with a first translation, the filter passes exactly when the lower-cased query is an ordered subsequence of the lower-cased "key category description value"; a missing description counts as "" |
| TranslationKeyManager.FuzzyFilterIgnoresQueryCase | components/TranslationKeyManager.tsx:48 | the filter's verdict does not depend on the case of the query |
| TranslationKeyManager.AbsentFirstCharFails | components/TranslationKeyManager.tsx:51 | a query whose first character does not occur in the text never passes |
| TranslationKeyManager.ExampleButtonSave | components/TranslationKeyManager.tsx:36-58 | for the key `button.save` in category `buttons` with value `Save`, the queries "bsv" and "BSV" pass and "xyz" does not |
| TranslationKeyManager.KeepPassingCorrect | components/TranslationKeyManager.tsx:162-174 | filtering fails exactly when some row has no first translation; otherwise it keeps the passing rows in order and drops the rest |
| TranslationKeyManager.KeepPassingCounts | components/TranslationKeyManager.tsx:162-174 | each passing row is kept as many times as it occurs, and no failing row is kept |
| TranslationKeyManager.FilteredRows | components/TranslationKeyManager.tsx:162-174 | with an empty query the filtered row model is every row, unfiltered and in order, even rows with no translation (the filter is not consulted); filtering never adds rows |
| Store.InitialStatesEmpty | app/lib/store.tsx:19-28 | both initial states have an empty project, locale and query |
| Store.SettersTouchOneField | app/lib/store.tsx:37-40 | each setter changes its own field and keeps the two others |
| Store.MergeIdempotent | app/lib/store.tsx:35-41 | applying the same partial state twice equals applying it once |
| Store.MergeCommutes | app/lib/store.tsx:35-41 | setters of different fields commute |
| Store.PersistRoundTrip | app/lib/store.tsx:42-45 | a state written under `helium-store` is the state the next store rehydrates to, whatever its initial state |
| Store.TranslationManagementStore.constructor | app/lib/store.tsx:30-48 | a new store starts from the persisted state when there is one, else from the given initial state |
| Store.TranslationManagementStore.Set | app/lib/store.tsx:33-46 | the state becomes the shallow merge, and local storage holds the new state under `helium-store` |
| Store.TranslationManagementStore.SetSelectedProject | app/lib/store.tsx:37-38 | only the project changes, and it is persisted |
| Store.TranslationManagementStore.SetSelectedLocale | app/lib/store.tsx:39 | only the locale changes, and it is persisted |
| Store.TranslationManagementStore.SetSearchQuery | app/lib/store.tsx:40 | only the query changes, and it is persisted |
| UseLocalizations.DetailOr | app/hooks/useLocalizations.ts:14 | an absent or empty `detail` gives the fallback, any other `detail` is the message |
| UseLocalizations.FetchLocalizations | app/hooks/useLocalizations.ts:7-17 | success exactly on an ok response whose body parses, and then its value; a failed status gives `detail` or "Failed to fetch localizations" |
| UseLocalizations.UpdateRequest | app/hooks/useLocalizations.ts:24-30 | a POST to the fetch path whose body is exactly the payload's `localizations` |
| UseLocalizations.UpdateLocalizations | app/hooks/useLocalizations.ts:19-44 | success exactly on an ok response whose body parses; a failed status gives `detail` or "Failed to update localizations" |
| UseLocalizations.EnabledIffBothChosen | app/hooks/useLocalizations.ts:52 | the query is enabled exactly when both the project and the locale are non-empty |
| UseLocalizations.LocalizationsIn | app/hooks/useLocalizations.ts:70 | a pair with no cached data yields the empty map |
| UseLocalizations.InvalidateOnlyThatKey | app/hooks/useLocalizations.ts:59-63 | invalidation marks only the named query stale and never changes what any pair returns |
| UseLocalizations.CachePerPair | app/hooks/useLocalizations.ts:49-51 | data stored for one pair is what that pair returns and never changes another pair's result |
| UseLocalizations.QueryClient.constructor | app/hooks/useLocalizations.ts:47 | the client starts with an empty cache and nothing sent |
| UseLocalizations.QueryClient.RunQuery | app/hooks/useLocalizations.ts:49-53 | nothing is fetched unless enabled; when enabled, sends one GET and returns the fetch outcome; only a success is cached, under its own pair |
| UseLocalizations.QueryClient.Mutate | app/hooks/useLocalizations.ts:55-67 | sends one POST and returns the update outcome; a success invalidates exactly that pair's query; a failure leaves the cache alone |
| UseTranslationValidation.HttpErrorMessageNamesStatus | app/hooks/useTranslationValidation.ts:29 | the HTTP error message is the fixed prefix followed by the status in decimal, which can be parsed back |
| UseTranslationValidation.HttpFailureDistinct | app/hooks/useTranslationValidation.ts:29-37 | different statuses give different messages, and none equals the fallback or the missing-id message |
| UseTranslationValidation.Settle | app/hooks/useTranslationValidation.ts:26-39 | success exactly on an ok response whose body parses; a failed status gives the HTTP error message; a rejected fetch or a body that fails to parse gives the thrown Error's message, or the fallback for anything else |
| UseTranslationValidation.ValidationHook.constructor | app/hooks/useTranslationValidation.ts:11-15 | the hook starts not busy, with no error and no report |
| UseTranslationValidation.ValidationHook.Start | app/hooks/useTranslationValidation.ts:17-24 | an empty id only records "Project ID is required" and sends nothing; any other id sets busy, clears the error and sends one request |
| UseTranslationValidation.ValidationHook.Finish | app/hooks/useTranslationValidation.ts:26-42 | a success stores the report; a failure stores the message and clears the report; either way the hook is no longer busy |
| UseTranslationValidation.ValidationHook.ValidateProject | app/hooks/useTranslationValidation.ts:17-43 | a whole call leaves exactly the state `Start` and then `Finish` give |
| Dicts.LastWinsKeys | backend/localization_management_api/main.py:127-128 | the keys of a dict built by repeated assignment are exactly the keys assigned |
| Dicts.LastWinsValue | backend/localization_management_api/main.py:127-128 | each key holds the value of its last assignment |
| Interpolation.FindInterpolations | backend/localization_management_api/main.py:272 | each name found uses at least three characters of the text |
| Interpolation.PlaceholderThen | backend/localization_management_api/main.py:272 | a placeholder `{name}` followed by any text yields that name, then the names of the rest: matches do not overlap and the scan resumes after the `}` |
| Interpolation.PercentPlaceholderThen | backend/localization_management_api/main.py:272 | the same for `%{name}` followed by any text |
| Interpolation.BraceFreePrefix | backend/localization_management_api/main.py:272 | text with no `{` in front of the rest adds no names, even when it ends in `%`; with `PlaceholderThen` this gives the names of placeholders separated by any such text |
| Interpolation.NamesWellFormed | backend/localization_management_api/main.py:272 | every extracted name is non-empty and contains no `}` |
| Interpolation.SinglePlaceholder | backend/localization_management_api/main.py:272 | `{name}` and `%{name}` each yield exactly that name |
| Interpolation.PercentIgnored | backend/localization_management_api/main.py:272 | a `%` before `{` does not change the names found |
| Interpolation.NoBraceNoNames | backend/localization_management_api/main.py:272 | a text without `{` yields no names |
| Interpolation.MissingMeaning | backend/localization_management_api/main.py:296-310 | a locale is reported missing a name exactly when another locale uses it and this one does not |
| Interpolation.InconsistentIsMissingElsewhere | backend/localization_management_api/main.py:312-318 | a name reported inconsistent for a locale is missing from some other locale |
| Interpolation.MissingIsInconsistentElsewhere | backend/localization_management_api/main.py:306-318 | a name missing from a locale is inconsistent for some locale that uses it |
| Interpolation.ReportsEmptyIffAgree | backend/localization_management_api/main.py:296-318 | both reports are empty exactly when all compared locales use the same names |
| Interpolation.SingleLocaleNoReports | backend/localization_management_api/main.py:296-318 | with at most one locale, both reports are empty |
| LocalizationApi.Surface | backend/localization_management_api/main.py:146-147 | every failure of a handler body, the 404s included, reaches the client as a 500 with its cause; successes pass through |
| LocalizationApi.GetLocalizations | backend/localization_management_api/main.py:104-147 | a missing project or locale fails with a 500 whose cause is the 404; otherwise the response carries the ids and the reshaped rows |
| LocalizationApi.ReshapeContent | backend/localization_management_api/main.py:124-139 | every row's key maps to that key's last row, with its id, category, description, and translations keyed by locale |
| LocalizationApi.ReshapeKeys | backend/localization_management_api/main.py:124-139 | the response has exactly the keys of the returned rows |
| LocalizationApi.UpdateLocalizations | backend/localization_management_api/main.py:150-225 | missing project or locale fails with a 500; otherwise the records are those of the updates in order, and the count acknowledged is their number |
| LocalizationApi.BuildRecords | backend/localization_management_api/main.py:177-209 | the loop yields one record per update, and fails only when an insert returns no row |
| LocalizationApi.RecordsShape | backend/localization_management_api/main.py:177-209 | one record per update, in order, for the request's locale, with the update's value, `updated_by` "currentUser", and the existing value id when there is one |
| LocalizationApi.NewKeyCountIgnoresOthers | backend/localization_management_api/main.py:174-179 | registering a key that no update uses does not change how many updated keys are new |
| LocalizationApi.RecordsFailOnlyWithoutIds | backend/localization_management_api/main.py:181-189 | with distinct keys, building the records fails exactly when more keys are new than the inserts return ids for |
| LocalizationApi.RecordsNewKeyIds | backend/localization_management_api/main.py:179-199 | with distinct keys, the record of the n-th new key uses the n-th id the inserts return |
| LocalizationApi.MissingTranslations | backend/localization_management_api/main.py:278-280 | a locale is missing exactly when it exists and the key has no row for it, even a row with an empty value |
| LocalizationApi.CollectInterpolations | backend/localization_management_api/main.py:283-293 | the per-locale names of the key's non-empty values, with the last value of a locale winning |
| LocalizationApi.LocaleInterpolationsKeys | backend/localization_management_api/main.py:286-293 | a locale takes part in the comparison exactly when it has a non-empty value |
| LocalizationApi.ValidateFrom | backend/localization_management_api/main.py:276-328 | the report loop as written reports at most one entry per key, and fails only by reading a never-assigned map |
| LocalizationApi.CheckKey | backend/localization_management_api/main.py:277-318 | the loop body for one key leaves the fresh maps when more than one locale has a non-empty value, else the maps of before; the entry it builds has the key's missing translations and those maps |
| LocalizationApi.ValidateTranslations | backend/localization_management_api/main.py:254-332 | a missing project fails with a 500; otherwise the loop gives the as-written report, including its failure |
| LocalizationApi.IntendedReportMembers | backend/localization_management_api/main.py:320-328 | an entry is reported exactly when it is the entry of some key and has an issue |
| LocalizationApi.IntendedReportSplits | backend/localization_management_api/main.py:276-330 | entries keep row order: the report of two runs of rows is the two reports concatenated |
| LocalizationApi.SingleLocaleOnlyMissingTranslations | backend/localization_management_api/main.py:296-321 | a key with at most one non-empty locale is reported only for missing translations |
| LocalizationApi.ValidateIntended | backend/localization_management_api/main.py:254-259 | the corrected endpoint fails only on a missing project, as a 500, and never reports more entries than keys |
| LocalizationApi.ValidateIntendedReports | backend/localization_management_api/main.py:276-330 | for a found project, the corrected endpoint reports exactly the entries of the keys with an issue, each key compared on its own |
| LocalizationApi.AsWrittenAgreesWhenCompared | backend/localization_management_api/main.py:276-330 | when every key has non-empty values in more than one locale, the loop as written gives the intended report |
| LocalizationApi.FirstSingleLocaleKeyFails | backend/localization_management_api/main.py:296-328 | as written, the report loop fails exactly when the first key has non-empty values in at most one locale, and then with the unbound-name error |
| LocalizationApi.CarriedMapsReported | backend/localization_management_api/main.py:296-328 | as written, the loop succeeds on a single-locale key after a compared key, and reports it with the previous key's interpolation maps |
| LocalizationApi.CarriedNeverFails | backend/localization_management_api/main.py:296-328 | once a compared key has bound the maps, the rest of the loop always succeeds |
| Text.LowerIdempotent | components/TranslationKeyManager.tsx:47-48 | lower-casing twice equals lower-casing once |
| Text.DecimalRoundTrip | app/hooks/useTranslationValidation.ts:29 | the decimal rendering of a status parses back to it |

## Left out

- Database access, HTTP transport, React rendering, DOM selection objects, and local storage's JSON encoding are not modelled. Their results are inputs to the model.
- Store.TranslationManagementStore.constructor: rehydration leaves local storage as it was. Some zustand versions of `persist` write the state back to storage after hydrating it, and that write-back is not modelled; the stored version number is not modelled either.
- Text.Lower: models `toLowerCase` on ASCII A–Z only; other scripts' case mappings are not modelled.
- TranslationKeyManager.FuzzyFilter: models only `rankItem`'s pass/fail, as the weakest accepted rank (the query is an ordered subsequence of the text); the rank value, the other rankings of `match-sorter-utils` and `addMeta` are not modelled. `rankItem` also strips diacritics by default, and the model does not: "cafe" passes on "café" in the program and fails in the model.
- Column rendering and the `formatDistance` date text of the table are not modelled. Rendering a row that has no translation in the current locale throws: the value cell reads `translation.value` and the `updated_at` accessor reads `.updated_at` of an undefined translation (components/TranslationKeyManager.tsx:85-91, 103). The model stops at the filtered row model and does not capture that throw.
- LocalizationApi.Surface: the `detail=str(e)` text of a 500 is kept as the cause datatype, not as Python's rendering of the exception.
- LocalizationApi.GetLocalizations: the rows are taken as the query returns them. The model does not state or check that the `!inner` join kept only values in the requested locale. Row order is the database's order.
- LocalizationApi.Reshape: the response's `localizations` is modelled as a map, so its key order is not modelled. The program's dict keeps each key at the position of its first row, and the page passes `Object.entries` of it to the table in that order, so that order is the order of the table's rows.
- LocalizationApi.UpdateLocalizations: the final upsert call and its `on_conflict` resolution are database behaviour; the model stops at the records sent.
- LocalizationApi.ValidationResult: lists the code builds from Python sets have no defined order, so they are modelled as sets.
- UseLocalizations.QueryClient: react-query's retries, background refetching, `isLoading`/`isError`/`isPending` flags and concurrent requests are not modelled; a call runs to completion before the next.
- UseTranslationValidation.ValidationHook: the `await` is modelled as a split between `Start` and `Finish`; interleaved calls are not modelled.
- EditableCell.Cell: the `cellRef.current` null checks are taken as always satisfied (the element is mounted while it has handlers); the `isUpdating` spinner is not modelled.
- EditableCell.Cell: `initialValue` and the selected project are constants of a cell. A re-render with new props after a refetch is not modelled; `useState` would keep the draft across it anyway.
- EditableCell.Cell.KeyDown: handlers run one after another, each seeing the state the previous one left. The program calls `blur()` from inside the Escape handler, and React may run that blur in the closure of the render before `setValue(initialValue)`, which still holds the changed draft and would send it. The model does not capture this stale-closure behaviour; its Escape sends nothing.
- EditableCell.Cell.Blur: the outcome of the awaited update is an input. As written the await never throws (see "## Findings"); `Cell.Commit` ties the outcome to the update reply as intended.
- EditableCell.Cell.RestoreCaret: whether `range.setStart` throws is an input. The model does not derive it from the DOM: the offset is applied to the element's first child node, which is the icon `<span>` rather than the text.
- `console.error` logging in the hooks and the cell is not modelled.

## Findings

| source | as written | input that shows it | evidently intended | confidence | as-written member | corrected member |
|---|---|---|---|---|---|---|
| backend/localization_management_api/main.py:296-328 | `missing_interpolations` and `inconsistent_interpolations` are assigned only inside `if len(locale_interpolations) > 1`, but they are read for every key | a project whose first key has a value in one locale only: the read raises `UnboundLocalError` and the endpoint returns 500; a single-locale key after a compared key is reported with the earlier key's maps | each key compared on its own, with empty maps when at most one locale has a value | not executed | LocalizationApi.FirstSingleLocaleKeyFails | LocalizationApi.ValidateIntended |
| components/EditableCell.tsx:55-70 | the blur handler awaits `updateLocalizations`, which is `mutation.mutate` (app/hooks/useLocalizations.ts:74); it returns nothing and reports failure only to `onError`, so the `catch` that rolls back never runs | an edit the server rejects with a 500: the await resolves and the rejected draft stays on screen | await a call that throws on failure (`mutateAsync`), so that a failed update restores `initialValue` | not executed | EditableCell.RejectedUpdateNotRolledBack | EditableCell.AwaitMutateAsync |
