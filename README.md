# Activities: a verified model of the client store, the list screen and the API error middleware

This project models three small pieces of an activity-planning application in Dafny.

- **The client activity store** (`ActivityStore`). It holds:
  - a registry of activities keyed by id, which is a JavaScript `Map` and keeps insertion order;
  - the activity currently open;
  - the flags `loadingInitial` and `submitting`, and the `target` of a delete in flight.

  Each asynchronous action raises its flag, awaits a remote call, and then writes the outcome in one atomic block. The model splits every action into a `Begin…` step and a `Settle…` step. The settled outcome of the remote call (`Fulfilled(value)` or `Rejected`) is a parameter. A combined method runs the two steps in sequence. The derived projection `activitiesByDate` works in three stages:
  - it sorts a copy of the registry's values by timestamp (a stable sort);
  - it files them by calendar day (the text before the first `T`) into an object;
  - it lists that object's entries.
- **The list screen's handlers** (`App`). These are select, open-create-form, create, edit and delete. Each is a function from the state (list, selected activity, edit mode) to the next state. The initial load is a loop that cuts every fetched date at its first `.` before the list is replaced.
- **The API error middleware.** `HandleException` sets the response's status code and JSON content type from the exception. It writes a `{ errors }` body exactly when there is something to report. `Invoke` runs the rest of the pipeline and handles, without rethrowing, whatever it throws.

Modules and files:

| file | module | what it holds |
|---|---|---|
| wrappers.dfy | `Wrappers` | `Option` and `Settled` (the outcome of an awaited call) |
| activities.dfy | `Activities` | the activity record; `split(c)[0]`, date normalisation and the day prefix |
| ordered_maps.dfy | `OrderedMaps` | a map that remembers key insertion order: the `Map` registry and the object built by the reduce |
| grouping.dfy | `Grouping` | the stable sort, the reduce by day, the entries order and the projection |
| activity_store.dfy | `ActivityStores` | the `ActivityStore` class and the laws of its registry |
| app.dfy | `App` | the list screen's handlers and the initial load |
| error_handling.dfy | `ErrorHandling` | the exception records, the `HttpResponse` class and the middleware's two methods |

Two behaviours are abstracted:
- `Date.parse` is a parameter `timeOf: string -> int`.
- The HTTP calls of the store and the screen become their settled outcome.

## Model

| member | source | states |
|---|---|---|
| Activities.PrefixBefore | client-app/src/app/stores/activityStore.ts:47 | `s.split(c)[0]` is a prefix of `s` that holds no `c` |
| Activities.PrefixBeforeSpec | client-app/src/app/stores/activityStore.ts:30 | `s.split(c)[0]` is the longest prefix of `s` without `c`: it is a prefix, holds no `c`, stops right before the first `c`, and is all of `s` when there is no `c` |
| Activities.CutFraction | client-app/src/app/stores/activityStore.ts:47 | the normalised date holds no `.`, is a prefix of the original that stops at its first `.` (or is all of it), and normalising it again changes nothing |
| Activities.DatePart | client-app/src/app/stores/activityStore.ts:30 | the day key `date.split('T')[0]` is a prefix of the date that holds no `T` |
| Activities.Normalize | client-app/src/app/stores/activityStore.ts:47 | ingestion changes only the date, cut at its first `.`, and is idempotent |
| Activities.NormalizeKeepsDay | client-app/src/app/stores/activityStore.ts:30 | when the first `T` precedes the first `.`, cutting the fraction does not change the calendar day |
| OrderedMaps.OrderedMap.Empty | client-app/src/app/stores/activityStore.ts:11 | a new map has no entries and no keys |
| OrderedMaps.OrderedMap.Get | client-app/src/app/stores/activityStore.ts:88 | the lookup finds exactly the stored keys and returns their stored value |
| OrderedMaps.OrderedMap.Set | client-app/src/app/stores/activityStore.ts:48 | `set` stores the value under the key and leaves every other key alone; a new key goes to the end of the key order, an existing key keeps its place |
| OrderedMaps.OrderedMap.Delete | client-app/src/app/stores/activityStore.ts:133 | `delete` removes exactly that key; the remaining keys keep their order, and a missing key changes nothing |
| OrderedMaps.OrderedMap.Values | client-app/src/app/stores/activityStore.ts:20 | `Array.from(map.values())` lists every stored value once, in key insertion order |
| OrderedMaps.OrderedMap.Pairs | client-app/src/app/stores/activityStore.ts:29 | `Object.entries` lists every key with its value, in key insertion order |
| OrderedMaps.SetThenDeleteRestores | client-app/src/app/stores/activityStore.ts:96 | setting a new key and then deleting it gives back the original map, key order included |
| Grouping.SortByTime | client-app/src/app/stores/activityStore.ts:26-28 | the sorted list is a permutation of the input, in non-decreasing timestamp order |
| Grouping.SortByTimeStable | client-app/src/app/stores/activityStore.ts:26-28 | the sort is stable: activities with equal timestamps keep their input order |
| Grouping.Bucket | client-app/src/app/stores/activityStore.ts:30-32 | one reduce step files the activity under its day: that day's group becomes the old group followed by the activity, or `[activity]` when the day had none; every other day is unchanged |
| Grouping.BucketPairs | client-app/src/app/stores/activityStore.ts:30-32 | one reduce step appends a new day's group `[a]` after the others, or appends `a` to the existing group of its day in place |
| Grouping.GroupByDay | client-app/src/app/stores/activityStore.ts:29-33 | the reduced object is well formed, and every entry is a non-empty group whose activities all fall on the entry's day |
| Grouping.GroupByDayAt | client-app/src/app/stores/activityStore.ts:29-33 | after the reduce, a day's entry holds exactly that day's activities in sorted order; a day with none has no entry |
| Grouping.GroupByDayOrder | client-app/src/app/stores/activityStore.ts:29-33 | every key of the reduced object is a day that occurs, and keys are ordered by each day's first position in the sorted list |
| Grouping.GroupByDayPartition | client-app/src/app/stores/activityStore.ts:29-33 | the groups together hold every activity exactly as often as the input does |
| Grouping.GroupByDayContiguous | client-app/src/app/stores/activityStore.ts:29-33 | when each day forms one run of the list, the concatenated groups are the list itself |
| Grouping.GroupActivitiesByDate | client-app/src/app/stores/activityStore.ts:25-34 | the groups partition the input. Each day appears once. Every activity is in the group of its own day. Each group is non-empty and holds exactly its day's activities in timestamp order. Days come in the order of their earliest activity. With contiguous days, the concatenation is the sorted list |
| Grouping.FlattenedIsSorted | client-app/src/app/stores/activityStore.ts:26-33 | when the activities' own days are intervals of time (an activity timed between two activities of one day is on that day), the concatenated groups are the sorted list, so their timestamps never decrease |
| ActivityStores.MergeFetched | client-app/src/app/stores/activityStore.ts:46-49 | loading keeps the registry well formed and every activity stored under its own id |
| ActivityStores.MergeFetchedAt | client-app/src/app/stores/activityStore.ts:46-49 | after a load, an id of the response holds its last occurrence there (a later duplicate overwrites an earlier one) with the date normalised; every other id keeps its entry |
| ActivityStores.MergeFetchedKeepsOrder | client-app/src/app/stores/activityStore.ts:46-49 | a load merges: the keys already present stay, in the same order, and new ids follow them |
| ActivityStores.GroupedAreStored | client-app/src/app/stores/activityStore.ts:19-20 | every activity in groups built from the registry's values is the entry stored under its id |
| ActivityStores.ActivityStore.constructor | client-app/src/app/stores/activityStore.ts:11-16 | the store starts with an empty registry, nothing open, both flags down and an empty target |
| ActivityStores.ActivityStore.ActivitiesByDate | client-app/src/app/stores/activityStore.ts:19-22 | the projection holds each registry value exactly once. Days are distinct, and each activity is grouped under its day and is the stored entry for its id. It only reads the store |
| ActivityStores.ActivityStore.GetActivity | client-app/src/app/stores/activityStore.ts:87-89 | the lookup finds exactly the stored ids, and the entry found carries the id looked up |
| ActivityStores.ActivityStore.BeginLoadActivities | client-app/src/app/stores/activityStore.ts:40 | raises `loadingInitial` and changes nothing else |
| ActivityStores.ActivityStore.SettleLoadActivities | client-app/src/app/stores/activityStore.ts:43-57 | on success the loop merges the response into the registry (`MergeFetched`); on failure the registry is unchanged; either way `loadingInitial` ends false and nothing else changes |
| ActivityStores.ActivityStore.LoadActivities | client-app/src/app/stores/activityStore.ts:39-58 | the whole action: the registry becomes the merged registry on success and is unchanged on failure; `loadingInitial` ends false |
| ActivityStores.ActivityStore.BeginLoadActivity | client-app/src/app/stores/activityStore.ts:62-66 | a cache hit opens the stored entry and leaves `loadingInitial` untouched; a miss raises `loadingInitial`; the registry is unchanged |
| ActivityStores.ActivityStore.SettleLoadActivity | client-app/src/app/stores/activityStore.ts:67-78 | on success the fetched activity is opened as it came, with no date normalisation and no registry write; on failure only `loadingInitial` is reset |
| ActivityStores.ActivityStore.LoadActivity | client-app/src/app/stores/activityStore.ts:61-80 | a fetch happens exactly on a miss. A hit opens the stored entry. A successful fetch opens the fetched value, a failed one leaves the open activity as it was. The registry never changes |
| ActivityStores.ActivityStore.ClearActivity | client-app/src/app/stores/activityStore.ts:82-84 | nothing is open afterwards; nothing else changes |
| ActivityStores.ActivityStore.BeginSubmit | client-app/src/app/stores/activityStore.ts:92 | raises `submitting` and changes nothing else |
| ActivityStores.ActivityStore.SettleCreate | client-app/src/app/stores/activityStore.ts:93-104 | on success the activity is set under its id, overwriting any entry; on failure the registry is unchanged; `submitting` ends false |
| ActivityStores.ActivityStore.CreateActivity | client-app/src/app/stores/activityStore.ts:91-105 | the whole create action, with the same outcome as `SettleCreate` |
| ActivityStores.ActivityStore.SettleEdit | client-app/src/app/stores/activityStore.ts:109-122 | on success the activity is set under its id and opened; on failure neither changes; `submitting` ends false |
| ActivityStores.ActivityStore.EditActivity | client-app/src/app/stores/activityStore.ts:107-123 | the whole edit action, with the same outcome as `SettleEdit` |
| ActivityStores.ActivityStore.BeginDelete | client-app/src/app/stores/activityStore.ts:128-129 | while the delete is in flight, `submitting` is up and `target` is the button's name |
| ActivityStores.ActivityStore.SettleDelete | client-app/src/app/stores/activityStore.ts:130-145 | on success exactly that id is removed; on failure the registry is unchanged; either way `submitting` is false and `target` is empty |
| ActivityStores.ActivityStore.DeleteActivity | client-app/src/app/stores/activityStore.ts:127-146 | the whole delete action, with the same outcome as `SettleDelete` |
| ActivityStores.CreateThenDelete | client-app/src/app/stores/activityStore.ts:91-146 | a successful create of a new id followed by a successful delete of it restores the registry |
| App.WithId | client-app/src/app/layout/App.tsx:20 | the match filter is no longer than the list, and every element it keeps carries the id |
| App.WithoutId | client-app/src/app/layout/App.tsx:36 | the id filter is no longer than the list, and no element it keeps carries the id |
| App.SelectActivity | client-app/src/app/layout/App.tsx:19-22 | the list is kept and edit mode goes off; the selection, if any, is an element of the list carrying the id |
| App.SelectFirstMatch | client-app/src/app/layout/App.tsx:20 | nothing is selected exactly when no element carries the id; otherwise the first element that does is selected |
| App.OpenCreateForm | client-app/src/app/layout/App.tsx:24-27 | nothing selected, edit mode on, list kept |
| App.CreateActivity | client-app/src/app/layout/App.tsx:29-33 | the list is the old list followed by the activity, which is selected; edit mode off |
| App.EditActivity | client-app/src/app/layout/App.tsx:35-39 | the list ends with the activity and no other element carries its id. The rest are the old elements with other ids, in order. The activity is selected and edit mode is off |
| App.EditKeepsOthers | client-app/src/app/layout/App.tsx:36 | editing keeps every element with another id, as often as before and in its original relative order |
| App.DeleteActivity | client-app/src/app/layout/App.tsx:41-43 | no element carries the id afterwards; selection and edit mode are unchanged |
| App.DeleteKeepsOthers | client-app/src/app/layout/App.tsx:42 | deleting keeps every element with another id, as often as before and in order, and removes every element with the id |
| App.DeleteIdempotent | client-app/src/app/layout/App.tsx:41-43 | deleting the same id twice is deleting it once |
| App.DeleteAbsent | client-app/src/app/layout/App.tsx:42 | deleting an id nobody carries leaves the state as it was |
| App.WithoutIdAppend | client-app/src/app/layout/App.tsx:36 | the id filter distributes over concatenation |
| App.CreateThenEdit | client-app/src/app/layout/App.tsx:29-39 | editing the activity just created leaves it once, last, with earlier entries of its id gone |
| App.InitialLoad | client-app/src/app/layout/App.tsx:46-56 | on success the list has the response's length and order, each date cut at its first `.`; a rejected call changes nothing |
| ErrorHandling.IsNullOrWhiteSpace | API/Middleware/ErrorHandlingMiddleware.cs:46 | a message is not blank exactly when it is present and has a character that is not white space; the empty message is blank |
| ErrorHandling.ErrorsOf | API/Middleware/ErrorHandlingMiddleware.cs:35-49 | a `RestException` reports its own errors, and null stays null. Any other exception reports its message, or "Error" when the message is null or white space, so it always reports a non-blank message. The payload is null exactly for a `RestException` without errors |
| ErrorHandling.StatusOf | API/Middleware/ErrorHandlingMiddleware.cs:37-48 | the status is a `RestException`'s own code and 500 for every other exception |
| ErrorHandling.HttpResponse.HandleException | API/Middleware/ErrorHandlingMiddleware.cs:33-61 | sets the status from the decision table and the content type to `application/json`; appends the `{ errors }` body exactly when the payload is not null |
| ErrorHandling.HttpResponse.Invoke | API/Middleware/ErrorHandlingMiddleware.cs:21-31 | a normal completion leaves the response untouched; a thrown exception is handled as above; in both cases the middleware completes normally |

## Left out

- Remote calls: the `agent` calls of the store and the `axios` call of the list screen are replaced by their settled outcome. The HTTP client code is not part of this model.
- MobX: observables, `computed` caching, strict mode and re-rendering are not modelled. Each `runInAction` block is one atomic step.
- React: the state hooks and the effect are not modelled. Each handler is a function from the state to the next state.
- Concurrency: overlapping asynchronous actions, and interleavings between a `Begin…` and its `Settle…`, are not modelled. Actions run one after another.
- `Date.parse`: no parsing; the timestamp is an arbitrary function from the date text to an integer. A date that parses to `NaN` is not modelled, and `NaN` would make the comparator inconsistent.
- Grouping.FlattenedIsSorted: proved only for data whose days are intervals of time (`DaysAreIntervals` over the activities' own dates). The premise holds, for instance, when every stored date carries the same UTC offset. Dates stored with different offsets can break it, and then the groups listed one after another need not be in timestamp order. `GroupActivitiesByDate` proves, for all data, that each group is in timestamp order and that the concatenation is the sorted list whenever each day forms one run of it.
- Object key order: `Object.entries` lists integer-like keys (such as `"12"`) first in numeric order. The model lists keys in insertion order, which matches only for day prefixes that are not integer-like, such as ISO-8601 dates.
- Object keys that clash with inherited properties (`constructor`, `__proto__`) would make `activities[date]` answer with an inherited value. The model treats the object as an empty dictionary.
- Aliasing: `loadActivities` and the initial load overwrite `date` on the response objects themselves, and the store keeps references to them. The model stores normalised copies, so sharing between the response and the registry is not captured.
- models/activity.ts is not part of this model. The activity's fields are assumed to be id, title, description, category, date, city and venue; only `id` and `date` matter to the behaviour.
- `handleSelectActivity` selects `undefined` when nothing matches, and `handleOpenCreateForm` selects `null`. The model uses `None` for both.
- The initial load has no `catch`: a rejected list call is an unhandled rejection and leaves the state unchanged.
- Logging (`console.log`, `ILogger`) and JSON serialisation are not modelled. The body is the record `{ errors }`, not its JSON text, and the written bodies are a sequence on the response.
- `RestException` and `HttpContext` are records: an exception with `code` and `errors`, and a response with status code, content type and written bodies. A response that has already started is not modelled. The `errors` object of a `RestException` is either a string-to-string map or a message.
- The status code is the integer value of `HttpStatusCode`, with no check on its range.
- An exception thrown by `HandleExceptionAsync` itself is not modelled.
