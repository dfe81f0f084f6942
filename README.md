# Housecall Pro customer lookup and booking slots — a Dafny model

This project models the core of a small customer-intake application that sits in front of
the Housecall Pro field-service API:

- **Backend customer search** (`housecallService.ts`). `findCustomerByQuery` turns the
  non-empty search fields into one free-text query each, searches upstream once per query,
  treats a failed search as "no hits", flattens the hits and removes duplicates by customer
  id, keeping the first record seen for each id. `findCustomerById` fetches one record,
  maps a 404 to `null` and turns every other failure into a fixed error.
- **Frontend booking slots** (`timeSlots.ts`). `generateTimeSlots` steps through a day
  range one hour at a time and keeps the slots that end inside it. `filterBookedSlots`
  drops the slots that an existing job's schedule hits.
- **Frontend customer form** (`CustomerForm.tsx`). The body of the debounced
  `fetchCustomers` is a transition of the form's `customers`, `loading` and `error` state.
  `getFullName` and `formatAddress` render a customer.

Modules:

- `Seqs` (`seqs.dfy`): `Option` and order-preserving selection (`IsSubsequence`).
- `Text` (`text.dfy`): JavaScript truthiness of strings, the "push when truthy" pattern
  (`NonEmpty`), `Array.prototype.join`, and `String.prototype.split` with a non-empty
  separator, with both round trips.
- `Records` (`records.dfy`): the customer and address records.
- `HousecallService` (`housecall_service.dfy`): the backend search and lookup.
- `TimeSlots` (`time_slots.dfy`): slot generation and filtering.
- `CustomerForm` (`customer_form.dfy`): the form's search state and display helpers.

Modelling conventions:

- An optional string field that is absent, `null` or empty is `""`. All three are falsy,
  and `Array.join` renders each of them as `""`. Every use of an optional field in the
  modelled code tests it or joins it. Required string fields, such as the first and last
  names, are plain strings.
- The upstream API is a function parameter. `HousecallService.Upstream` maps a search
  request to `Found(customers)` or `Failed`. `findCustomerById` takes a lookup function that
  answers with the record, an HTTP error status or no response at all.
- The response to the form's `POST /api/customers/exist` is a parameter of the transition.
- Times are integer minutes on a single timeline, and a slot is the pair `[start, end)`.
- The `Map` that `findCustomerByQuery` fills is a Dafny `map` keyed by id plus the
  sequence of keys in insertion order. This is how a JavaScript `Map` iterates.

## Model

| member | source | states |
|---|---|---|
| HousecallService.Queries | housecallpro-backend/src/services/housecallService.ts:33-51 | the query list the guarded pushes build; specified by `QueriesAreTruthyFields` and built by `BuildQueries` |
| HousecallService.QueriesAreTruthyFields | housecallpro-backend/src/services/housecallService.ts:33-51 | the queries are exactly the non-empty name, email, phone, street and second street line, in that order, one query per field even when two fields hold the same text (so two searches are sent); the address lines count only when an address is given; there are no queries exactly when every field is empty |
| HousecallService.BuildQueries | housecallpro-backend/src/services/housecallService.ts:33-51 | the pushes build exactly the query list that keeps the truthy fields in field order |
| HousecallService.Search | housecallpro-backend/src/services/housecallService.ts:58-74 | one search: the returned customers, or no hits when the request throws; its effect on the merge is stated by `MergeSkipsFailed` and `NothingFoundWhenAllSearchesFail` |
| HousecallService.Merge | housecallpro-backend/src/services/housecallService.ts:77-80 | the flattened hits of the searches in query order; specified by `MergeOne` (one query contributes exactly its search's hits, in their order), `MergeAppend` (runs of queries concatenate) and `MergeMembers` |
| HousecallService.MergeOne | housecallpro-backend/src/services/housecallService.ts:77-80 | a single query flattens to exactly its search's hits, in the order the search returned them |
| HousecallService.MergeMembers | housecallpro-backend/src/services/housecallService.ts:58-80 | a record is in the flattened results exactly when some query's search found it |
| HousecallService.MergeAppend | housecallpro-backend/src/services/housecallService.ts:77-80 | flattening the results of two query lists gives the concatenation of the two flattenings |
| HousecallService.MergeSkipsFailed | housecallpro-backend/src/services/housecallService.ts:58-80 | a failed search contributes nothing: the flattened results equal those of the same queries without the failing one |
| HousecallService.FirstIndex | housecallpro-backend/src/services/housecallService.ts:84-88 | the position where an id first occurs: it holds that id and no earlier record does |
| HousecallService.FirstById | housecallpro-backend/src/services/housecallService.ts:83-90 | first-occurrence de-duplication by id; specified completely by `FirstByIdIds`, `FirstByIdDistinct`, `FirstByIdFirstOccurrence` and `FirstByIdOrder` |
| HousecallService.FirstByIdIds | housecallpro-backend/src/services/housecallService.ts:83-90 | de-duplication keeps exactly the ids of its input |
| HousecallService.FirstByIdDistinct | housecallpro-backend/src/services/housecallService.ts:83-90 | de-duplication names no id twice |
| HousecallService.FirstByIdFirstOccurrence | housecallpro-backend/src/services/housecallService.ts:84-88 | each kept record is the first record in the input with its id (`has` before `set`) |
| HousecallService.FirstByIdOrder | housecallpro-backend/src/services/housecallService.ts:83-90 | kept records follow the order in which their ids were first seen, as the Map's insertion order |
| HousecallService.DedupById | housecallpro-backend/src/services/housecallService.ts:83-90 | the `forEach` over a Map and the `Array.from(values())` return exactly the first-occurrence de-duplication of the flattened results |
| HousecallService.SearchResult | housecallpro-backend/src/services/housecallService.ts:77-90 | what `findCustomerByQuery` resolves to: the first-occurrence de-duplication of the merged hits; specified by `SearchResultMerged` and `NothingFoundWhenAllSearchesFail`, and returned by `FindCustomerByQuery` |
| HousecallService.SearchResultMerged | housecallpro-backend/src/services/housecallService.ts:77-90 | the resolved list has distinct ids; each record is the first one found with its id; first-found order is kept; every record came from some search; its ids are exactly the ids that the successful searches found |
| HousecallService.NothingFoundWhenAllSearchesFail | housecallpro-backend/src/services/housecallService.ts:70-73 | when every search throws, the function still resolves, with no customers |
| HousecallService.FindCustomerByQuery | housecallpro-backend/src/services/housecallService.ts:30-91 | one request per query, in query order, each with `per_page` 50; the result is the de-duplicated merge of the hits; with no query nothing is sent and the result is empty |
| HousecallService.FindCustomerById | housecallpro-backend/src/services/housecallService.ts:99-112 | the record is returned exactly when it is fetched; `null` exactly on a 404; every other error or a missing response becomes the fixed message "Failed to retrieve customer." |
| TimeSlots.HourlySlots | housecallpro-frontend/src/utils/timeSlots.ts:14-27 | the slots the cursor loop emits; its closed form is `HourlySlotsShape` |
| TimeSlots.HourlySlotsShape | housecallpro-frontend/src/utils/timeSlots.ts:14-27 | the loop yields one slot per whole hour of the range: slot k runs from start + k hours to start + k + 1 hours; a trailing partial hour and an empty range yield none |
| TimeSlots.HourlySlotsWithinRange | housecallpro-frontend/src/utils/timeSlots.ts:17-20 | each slot is one hour long and lies inside the range, and consecutive slots meet |
| TimeSlots.GenerateTimeSlots | housecallpro-frontend/src/utils/timeSlots.ts:6-31 | the `while` loop returns the hourly slots of the range: their number is the count of whole hours, and their bounds follow the closed form |
| TimeSlots.SlotLabel | housecallpro-frontend/src/utils/timeSlots.ts:22 | the label `"<start> - <end>"`; its split back into the two times is `SlotLabelSplits` |
| TimeSlots.SlotLabelSplits | housecallpro-frontend/src/utils/timeSlots.ts:22-35 | splitting a label on `" - "` gives back its two times when neither time holds a `-` |
| TimeSlots.TrailingDashBreaksSplit | housecallpro-frontend/src/utils/timeSlots.ts:35 | a time ending in `" -"` makes the split cut in the wrong place, so the round trip needs the stronger premise |
| TimeSlots.FilterSlots | housecallpro-frontend/src/utils/timeSlots.ts:34-51 | a slot is kept exactly when no job hits it, and then every copy of it is kept |
| TimeSlots.IsBooked | housecallpro-frontend/src/utils/timeSlots.ts:45-47 | the booked test as written; characterised exactly against overlap by `IsBookedExactly` |
| TimeSlots.FilterBookedSlots | housecallpro-frontend/src/utils/timeSlots.ts:33-54 | the filter as written; specified by `FilterBookedSlotsKeepsFree` |
| TimeSlots.FilterBookedSlotsKeepsFree | housecallpro-frontend/src/utils/timeSlots.ts:33-54 | the filter keeps slot order and keeps exactly the slots that no job hits under the written test, each as many times as it occurs; with no jobs every slot is kept |
| TimeSlots.IsBookedExactly | housecallpro-frontend/src/utils/timeSlots.ts:44-47 | for a non-empty slot the written test is sound for overlap, and it is overlap minus the jobs that lie strictly inside the slot |
| TimeSlots.TouchingIsFree | housecallpro-frontend/src/utils/timeSlots.ts:46 | a slot that ends where a job starts, or starts where it ends, is not booked |
| TimeSlots.NestedJobMissed | housecallpro-frontend/src/utils/timeSlots.ts:46 | the slot [0, 60) stays available beside the job [10, 20), though they overlap |
| TimeSlots.AvailableSlotsExact | housecallpro-frontend/src/utils/timeSlots.ts:39-47 | the overlap filter keeps slot order and keeps exactly the slots that overlap no job, each as many times as it occurs; as a multiset its result is contained in the written filter's |
| CustomerForm.QueryPartsAreTruthyFields | housecallpro-frontend/src/components/CustomerForm.tsx:72-80 | the query parts are exactly the non-empty fields in field order, one part per field even when two fields hold the same text; there are none exactly when all four fields are empty; with no space in any field the joined query splits back into the parts |
| CustomerForm.BuildQuery | housecallpro-frontend/src/components/CustomerForm.tsx:72-77 | the pushes build the truthy fields in order, and the query is their space-joined text |
| CustomerForm.ShownCustomers | housecallpro-frontend/src/components/CustomerForm.tsx:100-108 | customers are shown exactly when the request answered "exists" with a non-empty list, and then they are that list |
| CustomerForm.SearchState.constructor | housecallpro-frontend/src/components/CustomerForm.tsx:61-63 | the initial state: no customers, not loading, no error |
| CustomerForm.SearchState.StartRequest | housecallpro-frontend/src/components/CustomerForm.tsx:86-87 | loading is set and the error is cleared; the list is unchanged |
| CustomerForm.SearchState.FinishRequest | housecallpro-frontend/src/components/CustomerForm.tsx:98-111 | loading is cleared in every case; the list follows the response; a failure sets "Failed to fetch customers." |
| CustomerForm.SearchState.FetchCustomers | housecallpro-frontend/src/components/CustomerForm.tsx:70-111 | a request is sent exactly when some field is non-empty, carrying the four fields as typed; with none, the list and the error are cleared; otherwise the final state is that of the response |
| CustomerForm.FullName | housecallpro-frontend/src/components/CustomerForm.tsx:132-134 | the full name is the first name, one space, then the last name |
| CustomerForm.FullNameSplits | housecallpro-frontend/src/components/CustomerForm.tsx:132-134 | when neither name holds a space, the full name splits back into the two names |
| CustomerForm.AddressParts | housecallpro-frontend/src/components/CustomerForm.tsx:142-147 | the parts pushed for the first address; specified by `AddressPartsInOrder` |
| CustomerForm.AddressPartsInOrder | housecallpro-frontend/src/components/CustomerForm.tsx:142-148 | the parts start with the street, always; the remaining parts are exactly the non-empty optional fields in order, one per field even when two fields hold the same text; without commas the display text splits back into the parts |
| CustomerForm.FormatAddress | housecallpro-frontend/src/components/CustomerForm.tsx:139-149 | "N/A" without addresses; otherwise the first address's parts joined by ", " |
| Text.NonEmpty | housecallpro-frontend/src/components/CustomerForm.tsx:73-76 | the `if (x) parts.push(x)` pattern (also CustomerForm.tsx:143-147 and housecallService.ts:35-50); specified by `NonEmptyMembers`, `NonEmptyKeepsOrder` and `NonEmptyAppend` |
| Text.NonEmptyAppend | housecallpro-frontend/src/components/CustomerForm.tsx:143-147 | collecting the truthy strings over two runs of fields collects over each run in turn |
| Text.NonEmptyMembers | housecallpro-frontend/src/components/CustomerForm.tsx:73-76 | keeping the truthy strings keeps exactly those, each as many times as it occurs, and leaves none exactly when none is truthy |
| Text.NonEmptyKeepsOrder | housecallpro-backend/src/services/housecallService.ts:35-50 | keeping the truthy strings preserves their order |
| Text.Join | housecallpro-frontend/src/components/CustomerForm.tsx:77 | `parts.join(sep)` (also `parts.join(', ')` at CustomerForm.tsx:148); specified by `JoinCons` and the round trips `JoinSplit` and `SplitJoin` |
| Text.JoinCons | housecallpro-frontend/src/components/CustomerForm.tsx:148 | joining a part in front of at least one more part puts exactly one separator between them |
| Text.Split | housecallpro-frontend/src/utils/timeSlots.ts:35 | `slot.split(' - ')`: at least one piece, cut at the first occurrences found by `IndexOf`; specified by the round trips `JoinSplit` and `SplitJoin` |
| Text.IndexOf | housecallpro-frontend/src/utils/timeSlots.ts:35 | the first occurrence of the separator at or after a position, or none if there is none |
| Text.JoinSplit | housecallpro-frontend/src/utils/timeSlots.ts:35 | joining the pieces of a split with the same separator restores the string |
| Text.SplitJoin | housecallpro-frontend/src/components/CustomerForm.tsx:148 | splitting a join on its separator restores the parts, when no part can be confused with the separator |

## Left out

- Network, HTTP clients, Express routing, the controllers and logging are left out. The
  upstream API and the backend are function parameters or transition inputs.
- FindCustomerByQuery: the searches of `Promise.all` run concurrently in the source. The
  model issues them in query order. Because each failure is caught per search and results
  are flattened in query order, the result is the same.
- FindCustomerByQuery: a response without a `customers` array would make the source throw
  while de-duplicating. The model assumes every successful search returns a list.
- `createCustomerSvc` (housecallService.ts, after line 112) is a pass-through POST and is
  not part of this model.
- Dates are integer minutes on one timeline. The model leaves out `Date` parsing,
  `setHours` across daylight-saving changes, `toLocaleTimeString` formatting and the
  re-parse of slot labels as times on 1970-01-01 (timeSlots.ts:36-37). In the source, that
  re-parse puts the slots on a different day from the jobs' real timestamps.
- Job creation (jobController.ts:23-27, jobService.ts:56-70) forwards `customer_id` and
  `schedule` upstream without checking for overlapping jobs and without a default duration.
  It is a pass-through and is not part of this model.
- SearchState.FetchCustomers: states only the state after the request. That `loading` is
  true while the request is out is the contract of `SearchState.StartRequest`.
- SearchState.FetchCustomers: each call is modelled as running to completion. In the source,
  `debounce` (CustomerForm.tsx:70, 112) does not wait for the async body, so a second call
  can start while the first still awaits its POST (line 91). The first call's `finally`
  then clears `loading` (line 110) while the second request is still out, and an older
  response that arrives last overwrites the newer list (line 101). These interleavings are
  not modelled.
- FullName: the first and last names are required strings (types/index.d.ts:22-23) and are
  modelled as plain strings. A template literal would render a `null` or `undefined` name as
  "null" or "undefined"; that case is not modelled.
- The debounce timer, its cancellation on unmount, the `useEffect` wiring and the JSX
  rendering of CustomerForm.tsx are left out.
- The joined `query` of `fetchCustomers` is computed but never sent. The model computes it
  (`BuildQuery`) and sends the four raw fields, as the source does.
- The frontend sends the address as one string, while the backend search takes a
  structured address. The model does not reconcile the two.

## Findings

| source | as written | input that shows it | evidently intended | confidence | as-written member | corrected member |
|---|---|---|---|---|---|---|
| housecallpro-frontend/src/utils/timeSlots.ts:46 | a slot counts as booked only when its start falls in [jobStart, jobEnd) or its end falls in (jobStart, jobEnd] | slot [0, 60) and job [10, 20): the job lies strictly inside the slot, and the slot stays available | the comment at line 44 says "overlaps": the slot is booked when slotStart < jobEnd and jobStart < slotEnd | not executed; high | TimeSlots.NestedJobMissed | TimeSlots.AvailableSlotsExact |
