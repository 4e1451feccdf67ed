# Insti Chain ledger, in Dafny

Insti Chain is a campus-event tracker. Students star and register for
club-run events. Clubs create events, change their status and issue
"tokens" to participants. There is no server: everything lives in the
browser's local store under three keys (users, events, current user), and
every operation loads a whole collection, finds a record with `find`,
changes it in place and writes the whole collection back.

This project models:

- the ledger of `src/utils/storage.js`: initialisation, sign-in and
  sign-out, the current user, starring, registering and unregistering,
  creating events, overwriting a status, and issuing tokens;
- the page logic that decides which ledger operations the UI calls, and
  on what:
  - the status the Events page and the student Dashboard derive from the
    date;
  - the Events page's filter-and-sort pipeline, its register button
    guards and its handlers;
  - the Dashboard's four lists and its milestone figure;
  - the club Dashboard's event list, its statistics, and the issue-tokens
    dialog with its participant selection.

## Layout

| file | module | what it holds |
|---|---|---|
| `types.dfy` | `Types` | User, Event, EventData records; Status and Role. An absent `participatedEvents` or `starredEvents` is `None`. |
| `seqs.dfy` | `Seqs` | The JavaScript built-ins used: `indexOf`, `find`, `splice`, `filter`, `slice`, `includes`, ASCII `toLowerCase`, string `<`, `toString` and `padStart`. |
| `seed.dfy` | `Seed` | The sample users and events that `initializeData` writes. |
| `ledger_spec.dfy` | `LedgerSpec` | Each ledger operation as a function from the loaded collections to the collections written back, and what it promises, as lemmas. |
| `storage.dfy` | `Storage` | The class `Ledger`. Its fields are the stored collections, the key-presence flags and the session pointer. Its methods do the source's steps, and their `ensures` tie the new state to the `LedgerSpec` functions. |
| `sorting.dfy` | `Sorting` | The comparators and `Array.prototype.sort`: an in-place insertion sort on an `array`, and a functional sort for `.sort()` on a fresh array. |
| `status_rule.dfy` | `StatusRule` | The date-derived status and the status map of both pages. |
| `events_page.dfy` | `EventsPage` | `filteredEvents`, the register button, `handleStarToggle` and `handleRegistration`. |
| `dashboard.dfy` | `Dashboard` | The upcoming, starred, registered and recent lists, and the milestone figure. |
| `club_dashboard.dfy` | `ClubDashboard` | `loadClubEvents`, the statistics, Select All, and the dialog as the class `IssueDialog`. |

Several details of the source show up in the model:

- `.includes` on a user record without `participatedEvents` throws. The
  seeded club account has no such list. Registering and issuing tokens
  therefore have a third outcome, `thrown`:
  - `registerForEvent` has already saved the events when it throws;
  - `issueTokensToParticipants` has saved nothing.
- `registered` is only re-synchronised to the participant count when a
  registration changes. The seed data has counters that differ from the
  lists.
- Issuing tokens does not check that a user is a participant.
- Toggling a star twice can move the user to the end of `starredBy`.
- Every completed event renders its own issue-tokens dialog, and all of
  them share one open flag. Select All takes the participants of the
  dialog's own event, which need not be the selected event, so
  `IssueDialog.SelectAll` takes the event as an argument.

Registering and then unregistering does not in general restore the prior
`registered` count: the code re-synchronises it to the list length.
`RegisterThenUnregister` states exactly when the count comes back, and
`SeededRoundTripResyncs` gives a seeded event where it does not.

Inputs that are not part of the program become parameters:

- `now` stands for `Date.now()` in the generated ids;
- `roll` stands for the `Math.random()` draw of the roll number;
- `today` stands for the `YYYY-MM-DD` string of the current date.

## Model

All source paths are under `insti-spark-main/insti-spark-main/src/`.

| member | source | states |
|---|---|---|
| Storage.Ledger.InitializeData | insti-spark-main/insti-spark-main/src/utils/storage.js:144-152 | writes the sample users and events only under keys that are absent, and keeps a collection that is already stored |
| Storage.Ledger.GetCurrentUser | insti-spark-main/insti-spark-main/src/utils/storage.js:163-169 | returns the first stored user whose id is the session pointer; none for an absent or empty pointer or an unknown id |
| LedgerSpec.CurrentUser | insti-spark-main/insti-spark-main/src/utils/storage.js:163-169 | a user is found exactly when the pointer is non-empty and names a stored user, and the one found is the first with that id |
| Storage.Ledger.SignInMock | insti-spark-main/insti-spark-main/src/utils/storage.js:182-207 | the new users are those of `SignIn`; the session pointer becomes the returned user's id; the users key is written only when a user is created |
| LedgerSpec.RollNumber | insti-spark-main/insti-spark-main/src/utils/storage.js:194 | the roll number is `CS21B` followed by exactly three digits |
| LedgerSpec.SignInExisting | insti-spark-main/insti-spark-main/src/utils/storage.js:184-186 | a known email returns its first record, adds nothing, and ignores the role |
| LedgerSpec.SignInNew | insti-spark-main/insti-spark-main/src/utils/storage.js:186-202 | an unknown email appends one user with zero tokens, empty lists, the name before `@`, the role, a roll number for a student, and `club_webops` as club exactly for a club |
| LedgerSpec.SignInTwice | insti-spark-main/insti-spark-main/src/utils/storage.js:184-203 | signing in again with the same email returns the same user and never adds a duplicate |
| LedgerSpec.SignInSetsCurrentUser | insti-spark-main/insti-spark-main/src/utils/storage.js:205 | after sign-in the pointer resolves to the user returned, provided its id was not already taken by an earlier record |
| Storage.Ledger.SignOut | insti-spark-main/insti-spark-main/src/utils/storage.js:209-211 | drops the session pointer and changes nothing else |
| Storage.Ledger.ToggleStarEvent | insti-spark-main/insti-spark-main/src/utils/storage.js:225-240 | the new events are `ToggleStar` of the old; users are untouched; returns the changed event, or none for an unknown id |
| LedgerSpec.ToggleCounts | insti-spark-main/insti-spark-main/src/utils/storage.js:230-235 | toggling keeps every other id with its multiplicity; it appends an absent user, removes one occurrence of a present one, and flips membership when the user was listed at most once |
| LedgerSpec.ToggleStarEffect | insti-spark-main/insti-spark-main/src/utils/storage.js:225-240 | only the found event's `starredBy` changes; ids keep their places; an unknown event id changes nothing |
| LedgerSpec.ToggleTwice | insti-spark-main/insti-spark-main/src/utils/storage.js:230-235 | toggling twice restores the multiset of starrers; the list itself comes back exactly when the user was absent or last |
| LedgerSpec.ToggleStarTwice | insti-spark-main/insti-spark-main/src/utils/storage.js:225-240 | on the collection: toggling twice restores the starrer multiset; a present user moves to the end; the collection is unchanged exactly when the user was absent or last |
| Storage.Ledger.RegisterForEvent | insti-spark-main/insti-spark-main/src/utils/storage.js:242-263 | users, events and the throw are those of `Register`; returns the event and user it found |
| LedgerSpec.RegisterEvents | insti-spark-main/insti-spark-main/src/utils/storage.js:249-252 | acts only when event and user exist and the user is not a participant; then the user is appended exactly once and `registered` becomes the list length, whatever the capacity; otherwise nothing changes |
| LedgerSpec.RegisterUsers | insti-spark-main/insti-spark-main/src/utils/storage.js:254-259 | only the registering user can change, and only for a stored status of completed and no earlier credit; tokens never decrease; it throws exactly for a record without a participation list |
| Storage.Ledger.UnregisterFromEvent | insti-spark-main/insti-spark-main/src/utils/storage.js:265-279 | the new events are `Unregister` of the old; users are untouched |
| LedgerSpec.UnregisterFound | insti-spark-main/insti-spark-main/src/utils/storage.js:269-275 | at a known event: no change when the user is not listed, otherwise the first occurrence spliced out and the counter set to the new length |
| LedgerSpec.UnregisterEffect | insti-spark-main/insti-spark-main/src/utils/storage.js:265-279 | removes one occurrence of the user and sets `registered` to the new length; an unknown event or a non-participant changes nothing |
| LedgerSpec.RegisterThenUnregister | insti-spark-main/insti-spark-main/src/utils/storage.js:249-273 | registering a non-participant and then unregistering restores the participants exactly and sets the counter to their number; the collection comes back exactly when the counter already matched |
| LedgerSpec.SeededRoundTripResyncs | insti-spark-main/insti-spark-main/src/utils/storage.js:69-86 | on the sample data the round trip on the React Masterclass moves its counter from 35 to 0 |
| Storage.Ledger.CreateEvent | insti-spark-main/insti-spark-main/src/utils/storage.js:282-297 | appends exactly one event with the stamped id, the given club, empty lists, counter 0 and status upcoming over the form data; earlier events are kept |
| Storage.Ledger.UpdateEventStatus | insti-spark-main/insti-spark-main/src/utils/storage.js:299-309 | the new events are `UpdateStatus` of the old; users are untouched |
| LedgerSpec.UpdateStatusEffect | insti-spark-main/insti-spark-main/src/utils/storage.js:299-309 | any status can be set from any status; only that field of the found event changes; an unknown id changes nothing |
| Storage.CreditParticipant | insti-spark-main/insti-spark-main/src/utils/storage.js:318-322 | one forEach step as `CreditStep` states; on success no user's tokens decrease |
| LedgerSpec.CreditStepEffect | insti-spark-main/insti-spark-main/src/utils/storage.js:317-323 | one step keeps ids in place, throws exactly on a listed record without a participation list, and extends the set of credited users by that step's id |
| LedgerSpec.CreditAllEffect | insti-spark-main/insti-spark-main/src/utils/storage.js:317-323 | the whole forEach throws exactly when some listed id names a record without a list; otherwise each user is credited exactly when it is the record `find` returns, listed, and not yet credited |
| Storage.Ledger.IssueTokensToParticipants | insti-spark-main/insti-spark-main/src/utils/storage.js:311-331 | the loop's users, the completed event, and the throw are those of `IssueTokens`; the users key is written only when the event exists and nothing threw |
| LedgerSpec.IssueTokensEffect | insti-spark-main/insti-spark-main/src/utils/storage.js:311-331 | each existing, listed, uncredited user gains the event's tokens exactly once however often listed, participant or not; every other user is unchanged; the event becomes completed; an unknown event changes nothing |
| LedgerSpec.IssueTokensIdempotent | insti-spark-main/insti-spark-main/src/utils/storage.js:319-321 | issuing the same tokens again changes nothing |
| StatusRule.DerivedStatus | insti-spark-main/insti-spark-main/src/pages/Events.tsx:41-49 | completed exactly before today, ongoing exactly today, upcoming exactly after; exactly one holds |
| StatusRule.WithDerivedStatus | insti-spark-main/insti-spark-main/src/pages/Dashboard.tsx:42-50 | every event keeps its place and every field but the status, which is derived from its date whatever was stored |
| StatusRule.DerivedEventOrigin | insti-spark-main/insti-spark-main/src/pages/Events.tsx:41-49 | every event on a page is a stored event with its status recomputed |
| EventsPage.Filtered | insti-spark-main/insti-spark-main/src/pages/Events.tsx:55-73 | an event survives the three filters, with its multiplicity in the page, exactly when it has the tab's status, matches a non-empty query, and is starred by the user when starred-only is on and someone is signed in |
| EventsPage.FilteredEvents | insti-spark-main/insti-spark-main/src/pages/Events.tsx:54-90 | shows only page events with the tab's status, matching the query, starred when asked; exactly those with their multiplicity; sorted by the chosen comparator |
| EventsPage.ShownMembers | insti-spark-main/insti-spark-main/src/pages/Events.tsx:58-73 | whatever is shown passes every filter and comes from the page |
| EventsPage.UnfilteredTab | insti-spark-main/insti-spark-main/src/pages/Events.tsx:61-73 | with an empty query and starred-only off, the tab is the only filter |
| Sorting.SortInPlace | insti-spark-main/insti-spark-main/src/pages/Events.tsx:76-87 | the array ends sorted by the comparator and is a permutation of what it held |
| Sorting.SinkInto | insti-spark-main/insti-spark-main/src/pages/Events.tsx:76-87 | one insertion pass extends the sorted prefix by one element and keeps the contents |
| Sorting.SortArrayOf | insti-spark-main/insti-spark-main/src/pages/Events.tsx:76 | sorting the filtered array in place yields a sorted permutation of it |
| Sorting.BeforeAsymmetric | insti-spark-main/insti-spark-main/src/pages/Events.tsx:78-83 | no comparator puts two events strictly before each other, so any two are ordered |
| Sorting.LeTransitive | insti-spark-main/insti-spark-main/src/pages/Events.tsx:78-83 | the order every comparator induces is transitive |
| Sorting.SortedAll | insti-spark-main/insti-spark-main/src/pages/Events.tsx:76-87 | in a sorted result every event may stand before every later one |
| Sorting.SortedByTokens | insti-spark-main/insti-spark-main/src/pages/Events.tsx:80-81 | sorting by tokens gives non-increasing token values |
| Sorting.SortBy | insti-spark-main/insti-spark-main/src/pages/Dashboard.tsx:67 | `.sort()` on a fresh array yields a sorted permutation of it |
| EventsPage.EnabledButtonHasRoom | insti-spark-main/insti-spark-main/src/pages/Events.tsx:301-314 | a click on an enabled register button for a non-participant comes from an event whose counter is below capacity |
| EventsPage.HandleStarToggle | insti-spark-main/insti-spark-main/src/pages/Events.tsx:92-105 | nothing without a signed-in user, otherwise exactly `toggleStarEvent`; users, pointer and both key flags are kept |
| EventsPage.HandleRegistration | insti-spark-main/insti-spark-main/src/pages/Events.tsx:107-136 | nothing without a user; unregister when the page's event lists the user, register otherwise (also when the page has no such event); the pointer and both key flags are kept |
| EventsPage.CreditOnlyWhenStatusStale | insti-spark-main/insti-spark-main/src/pages/Events.tsx:240 | registering from an event the page shows as upcoming credits tokens only when the stored status is completed although the date is after today |
| EventsPage.RegisterButtonOnlyUpcoming | insti-spark-main/insti-spark-main/src/pages/Events.tsx:240 | the register button, rendered only on the upcoming tab for a student, sits only on events shown as upcoming, and a click that registers credits tokens only under a stale stored completed status |
| Dashboard.UpcomingList | insti-spark-main/insti-spark-main/src/pages/Dashboard.tsx:53-55 | the first three upcoming-or-ongoing events in store order, or all of them when fewer |
| Dashboard.StarredList | insti-spark-main/insti-spark-main/src/pages/Dashboard.tsx:57-59 | the first three events the user starred in store order, or all when fewer |
| Dashboard.RegisteredList | insti-spark-main/insti-spark-main/src/pages/Dashboard.tsx:61-63 | exactly the active events listing the user, each with its multiplicity, uncapped |
| Dashboard.RecentList | insti-spark-main/insti-spark-main/src/pages/Dashboard.tsx:65-68 | at most three events named by the user's participation list, newest first, as many as there are up to three |
| Dashboard.RecentIsNewest | insti-spark-main/insti-spark-main/src/pages/Dashboard.tsx:65-68 | no participated event left out is dated after a shown one |
| Dashboard.ActiveListsNotPast | insti-spark-main/insti-spark-main/src/pages/Dashboard.tsx:42-63 | the upcoming and registered lists hold no event dated before today, whatever the stored status |
| Dashboard.Milestone | insti-spark-main/insti-spark-main/src/pages/Dashboard.tsx:176 | the fewest further tokens that reach 25; zero exactly when 25 is reached |
| ClubDashboard.LoadClubEvents | insti-spark-main/insti-spark-main/src/pages/ClubDashboard.tsx:42-50 | exactly the events of the user's club with their multiplicity, newest first |
| ClubDashboard.StatusCountsBounded | insti-spark-main/insti-spark-main/src/pages/ClubDashboard.tsx:138-139 | upcoming plus completed counts never exceed the number of club events |
| ClubDashboard.SumPermutation | insti-spark-main/insti-spark-main/src/pages/ClubDashboard.tsx:140-143 | the reduce sums do not depend on the order of the events |
| ClubDashboard.TotalsOfClub | insti-spark-main/insti-spark-main/src/pages/ClubDashboard.tsx:140-143 | both totals equal those over the club's events in store order |
| ClubDashboard.CompletingRaisesTokensIssued | insti-spark-main/insti-spark-main/src/pages/ClubDashboard.tsx:141-143 | marking one event completed raises tokens issued by all its participants times its tokens |
| ClubDashboard.IssueTokensFigure | insti-spark-main/insti-spark-main/src/pages/ClubDashboard.tsx:141-143 | issuing for an event not yet completed raises the figure by every participant times the tokens, however many users are credited |
| ClubDashboard.ParticipantIds | insti-spark-main/insti-spark-main/src/pages/ClubDashboard.tsx:352-354 | Select All holds each id the event lists once per stored user record with that id, and no other id |
| ClubDashboard.ParticipantIdsInOrder | insti-spark-main/insti-spark-main/src/pages/ClubDashboard.tsx:352-354 | Select All is the stored users filtered by participation, then mapped to their ids, in user-store order |
| ClubDashboard.SelectAllCreditsParticipantsOnly | insti-spark-main/insti-spark-main/src/pages/ClubDashboard.tsx:352-355 | issuing to a Select All selection credits only participants of the event |
| ClubDashboard.IssueDialog.constructor | insti-spark-main/insti-spark-main/src/pages/ClubDashboard.tsx:27-29 | no event, no selection, closed |
| ClubDashboard.IssueDialog.OpenFor | insti-spark-main/insti-spark-main/src/pages/ClubDashboard.tsx:301-306 | the Issue Tokens button, offered only for a completed event with participants, selects its event and opens the dialog, keeping the selection |
| ClubDashboard.IssueDialog.Close | insti-spark-main/insti-spark-main/src/pages/ClubDashboard.tsx:302 | dismissing the dialog closes it and keeps the selected event and the selection |
| ClubDashboard.IssueDialog.Check | insti-spark-main/insti-spark-main/src/pages/ClubDashboard.tsx:331-332 | checking appends the id, duplicates included |
| ClubDashboard.IssueDialog.Uncheck | insti-spark-main/insti-spark-main/src/pages/ClubDashboard.tsx:333-334 | unchecking removes every occurrence of the id |
| ClubDashboard.IssueDialog.SelectAll | insti-spark-main/insti-spark-main/src/pages/ClubDashboard.tsx:351-355 | the selection becomes `ParticipantIds` of the stored users |
| ClubDashboard.IssueDialog.HandleIssueTokens | insti-spark-main/insti-spark-main/src/pages/ClubDashboard.tsx:62-83 | calls the store exactly when an event is selected and the selection is non-empty, and then only for a completed event with participants; the outcome is `IssueTokens`; the users key becomes written exactly when the event exists and nothing threw; the dialog is cleared and closed unless the call threw |

## Left out

- Local storage and JSON: each key is a field, and a flag says whether it was ever written. `getUsers`/`getEvents` of an absent key read as empty. Serialisation round trips are taken as exact.
- `Date.now()`, `Math.random()` and the current date are parameters `now`, `roll` and `today`. Generated ids are not guaranteed fresh. Only `SignInSetsCurrentUser` assumes freshness, and only as its precondition.
- Date order: `new Date(...).getTime()` comparisons are modelled as the order of the `YYYY-MM-DD` strings. This agrees only for well-formed dates. `toISOString` and `toLocaleDateString` are not modelled.
- `localeCompare` and string `<` are modelled as code-point order, which agrees with JavaScript's UTF-16 code-unit order below U+10000; `toLowerCase` only maps ASCII letters.
- Sorting.SortInPlace, Sorting.SortBy and Dashboard.RecentList: stability and the exact order among events the comparator calls equal are not stated, so which of several equally dated events `RecentList` keeps after `slice(0, 3)` is left open. The `default: return 0` branch of the Events sort is left out, since the page offers only date, tokens and name.
- Status is the three-valued datatype the UI passes. The store itself would accept any string as a status.
- React state, effects, toasts, navigation, and the reload after each handler are left out. So are the Blob/DOM CSV export, the floating-point progress bar, and the Profile page's field merge.
- `handleStatusUpdate` on the club Dashboard is a direct call of `updateEventStatus`, which `Storage.Ledger.UpdateEventStatus` models.
- `createEvent` form validation on the new-event page is not part of this model. `CreateEvent` takes `nat` capacity and tokens and adds no precondition, since the store checks nothing.
- `signInDemoStudent`/`signInDemoClub` and the club registry `SAMPLE_CLUBS` are not modelled. These helpers return constants and do not read the store; the registry has no operations.
- Uniqueness of ids is not assumed in the store. `DistinctIds` is a precondition only of the page lemmas that relate a shown event to the first stored event with its id.
- The club Dashboard reads the stored status and does not recompute it. The model follows that.
- The Dashboard's recent list reads `participatedEvents` from the signed-in user object held by the page. It is modelled as a `User` argument, not re-read from the store.
