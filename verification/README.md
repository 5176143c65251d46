# Event app back end and forms, modelled in Dafny

This project models the business logic of a small event-management app:
- the four-table document store (events, sessions, questions, session feedback);
- the query and mutation handlers over that store in `convex/`;
- the filter bar of the events page;
- the state transitions of the create-event form.

Each table is an immutable sequence of rows in insertion order. Order matters because `.first()` returns the earliest match. Every row carries an abstract store id (`_id`, the `docId` of a `Row`), and a counter hands out fresh ids. Each query is a pure function of the store. Each mutation maps a store to a new store, and returns the new store id where the handler returns one: the id `ctx.db.insert` gives, or nothing after `ctx.db.patch`. The form handlers are pure updates of a `Form` value.

Modules, one per source file:

| module | models |
|---|---|
| `Seqs` | generic sequence tools: order-preserving selection (`Selects`), `Filter`, `FirstIndex`, `Without`, `RemoveAt`, and lemmas about them |
| `Schema` | the records of `convex/schema.ts`, the `Store`, the platform primitives `insert`, `patch` and `delete`, and the well-formedness invariant `Valid` (store ids unique and below the counter) |
| `Questions` | `convex/questions.ts` |
| `SessionFeedback` | `convex/sessionFeedback.ts` |
| `Sessions` | `convex/sessions.ts` |
| `Events` | `convex/events.ts` |
| `Text` | ASCII `toLowerCase`, `includes` and `trim` |
| `EventList` | the filter, the live/upcoming split and the card title of `src/app/events/page.tsx` |
| `CreateForm` | the handlers of `src/app/event/create/page.tsx` and the session loop of `handleSubmit` |

## Two join conventions

The handlers do not agree on how rows refer to each other.

`convex/events.ts` joins on business fields:
- a session belongs to an event when its `eventId` equals the event's string `id`;
- a question or feedback row belongs to a session when its `sessionId` equals the session's numeric `id`.

`convex/sessions.ts`, `convex/questions.ts` and `convex/sessionFeedback.ts` join on store ids (`_id`).

The model keeps each handler's own choice through one key type, `Schema.Key`:
- `Doc(n)` is a store id;
- `Num(n)` is a numeric business id;
- `Text(s)` is a string business id;
- `Absent` is an unset field.

Several consequences of this are proved:
- `sessions.create` never sets `session.id`. So a session created through the app has `Absent` as its child key in the event queries.
- Such a session is attached by store id, so `events.getSessionsByEventId` never lists it when called with an event's business id (`Events.CreatedSessionUnseenByEvents`). Called with the event's store-id string, the platform would list it; the model does not cover that call (see "## Left out").
- Questions asked through `questions.askQuestion` are keyed by store id, so the event queries never show them (`Events.AskedQuestionUnseenByEvents`).
- Questions added through `events.addQuestion` are keyed by business id, so `questions.getBySessionId` never shows them (`Events.AddQuestionUnseenByStoreIdJoin`).

A scenario of "create a session, ask questions, see them in the event's session list" therefore does not hold for this code. The model follows the code.

Session business ids are small numbers that repeat across events: the sample data numbers each event's sessions from 1. `events.remove` deletes the questions and feedback of every session of the removed event by business id. It therefore also deletes the children of other events' sessions that share such an id. `Events.RemoveQuestions` and `Events.RemoveFeedback` state exactly which rows go.

Two further facts about the code:
- `raiseHand` stores no question text, only the flag.
- `getUpcomingEvents` keeps every event whose `date` string differs from today's formatted date. It is not a chronological test.

## Model

| member | source | states |
|---|---|---|
| Questions.GetBySessionId | convex/questions.ts:5-15 | the result is exactly the question rows whose `sessionId` is the session's store id, as an order-preserving subsequence of the table |
| Questions.Create | convex/questions.ts:18-28 | one row is appended under a fresh store id, which is returned, with the given session, text, author and optional flag; earlier rows and the other tables are unchanged; the store stays well-formed |
| Questions.InsertIsListed | convex/questions.ts:18-28 | an inserted question becomes the last entry of its own session's listing and leaves every other session's listing unchanged |
| Questions.Update | convex/questions.ts:31-49 | only the first row with that store id is patched; every other row is unchanged; a missing question leaves the store unchanged |
| Questions.UpdateNoChange | convex/questions.ts:31-49 | an update that supplies no field leaves the store unchanged |
| Questions.Remove | convex/questions.ts:52-64 | exactly the matching row is removed and the rest keep their order; a missing question leaves the store unchanged |
| Questions.RemoveThenGone | convex/questions.ts:52-64 | after `remove`, no row has that store id any more |
| Questions.ToggleHandRaise | convex/questions.ts:67-81 | the row's flag becomes `!(old == true)`, so an unset flag becomes true; the other fields, the other rows and the row count are unchanged; a missing question changes nothing |
| Questions.ToggleTwiceRestores | convex/questions.ts:67-81 | toggling twice restores a flag that was set |
| Questions.ToggleTwiceUnset | convex/questions.ts:67-81 | toggling an unset flag twice leaves it false, not unset |
| Questions.AskQuestion | convex/questions.ts:84-95 | one row is appended under a fresh store id with the given session, text and author and no hand-raise flag; existing rows and the other tables are untouched |
| Questions.RaiseHand | convex/questions.ts:97-108 | one row is always appended under a fresh store id with `isHandRaise` true and no text; existing rows, including earlier raised hands, and the other tables are untouched |
| Questions.RaisedHandIsListed | convex/questions.ts:97-108 | the raised hand becomes the last entry of its session's question listing |
| SessionFeedback.GetBySessionId | convex/sessionFeedback.ts:5-13 | null exactly when no feedback row has that session; otherwise the earliest such row |
| SessionFeedback.Create | convex/sessionFeedback.ts:16-26 | exactly one row is appended; nothing else changes |
| SessionFeedback.CreateThenGet | convex/sessionFeedback.ts:16-26 | for a session without feedback, `getBySessionId` then returns the new row; otherwise it still returns the old first row |
| SessionFeedback.Update | convex/sessionFeedback.ts:29-55 | if a row exists, only the supplied fields of the first one change and the count stays; otherwise one row is appended with 0, [] and '' for omitted fields; the count never drops and grows by at most one; afterwards the session has feedback; the new row's store id is returned exactly when a row is inserted, and nothing after a patch |
| SessionFeedback.Remove | convex/sessionFeedback.ts:58-70 | only the first row of the session is deleted; with none, nothing changes |
| SessionFeedback.RemoveFirstOnly | convex/sessionFeedback.ts:58-70 | the session's rows after `remove` are its rows before, minus the first |
| SessionFeedback.Upsert | convex/sessionFeedback.ts:80-92 | when the key has a row, the first one keeps its store id and takes the key, rating, tags and comment, and every other row is unchanged; otherwise one row holding them is appended under the next store id after the unchanged rows; the other tables are unchanged |
| SessionFeedback.UpdateSessionFeedback | convex/sessionFeedback.ts:73-93 | afterwards the first feedback row of the session holds exactly the given rating, tags and comment; the new row's store id is returned exactly when no row existed, and nothing after a patch |
| SessionFeedback.UpsertEffect | convex/sessionFeedback.ts:80-92 | the session's rows keep their count, or grow from none to one; the first holds the new values; the others are unchanged |
| SessionFeedback.UpsertIsolated | convex/sessionFeedback.ts:80-92 | one upsert leaves every other session's feedback rows unchanged |
| SessionFeedback.UpsertConverges | convex/sessionFeedback.ts:80-92 | starting from at most one row, any non-empty sequence of calls leaves exactly one row, holding the last call's values |
| SessionFeedback.UpsertAllIsolated | convex/sessionFeedback.ts:80-92 | any sequence of upserts leaves every other session's rows unchanged |
| Sessions.GetByEventId | convex/sessions.ts:5-38 | the sessions listed are exactly those whose `eventId` is the event's store id, in table order; each carries all of its question and feedback rows (feedback as a list, never defaulted) |
| Sessions.GetById | convex/sessions.ts:41-69 | null exactly when no session has that store id; otherwise the first such session with all of its children |
| Sessions.ListingAgreesWithGetById | convex/sessions.ts:41-69 | every entry of an event's listing is what `getById` returns for that session |
| Sessions.GetByIdIsListed | convex/sessions.ts:41-69 | a session found by `getById` appears in its event's listing |
| Sessions.Create | convex/sessions.ts:72-94 | exactly one session row is appended, without a business id; the other tables are unchanged; the new store id is fresh |
| Sessions.CreateIsListed | convex/sessions.ts:72-94 | the new session becomes the last entry of its event's listing; earlier entries are unchanged |
| Sessions.Update | convex/sessions.ts:97-127 | only the first session with that store id is patched; other rows are unchanged; a missing session leaves the store unchanged |
| Sessions.UpdateNoChange | convex/sessions.ts:97-127 | an update that supplies no field leaves the store unchanged |
| Sessions.UpdateIdempotent | convex/sessions.ts:97-127 | applying the same update twice equals applying it once |
| Sessions.Remove | convex/sessions.ts:130-161 | every question and feedback row of that store id is deleted, then the session if it exists; a missing session still loses its orphaned children and leaves the sessions table unchanged |
| Sessions.RemoveKeepsOtherDetails | convex/sessions.ts:130-161 | every other session keeps its questions and feedback |
| Sessions.RemoveLeavesNoTrace | convex/sessions.ts:130-161 | afterwards `getById` returns null and no question or feedback row refers to the session |
| Events.GetAll | convex/events.ts:5-57 | one entry per event, in table order; each entry's sessions are exactly those whose `eventId` is the event's `id`, in table order; each session carries all questions with its `id` and its first feedback row, or the default when there is none |
| Events.GetSessionsByEventId | convex/events.ts:154-192 | exactly the sessions with that `eventId`, in table order, each aggregated as in `getAll` |
| Events.ViewFor | convex/events.ts:20-44 | one aggregated session: all questions keyed by its business id in order, and the first feedback row, or `NoFeedback` exactly when none exists |
| Events.GetById | convex/events.ts:60-108 | null exactly when no event has that `id`; otherwise the first such event, aggregated as in `getAll` |
| Events.GetByIdIsGetAllEntry | convex/events.ts:60-108 | `getById` returns the very `getAll` entry of the first event with that id, and null only when no `getAll` entry has it |
| Events.GetByCategory | convex/events.ts:111-119 | exactly the events of that category, in table order |
| Events.GetLiveEvents | convex/events.ts:122-130 | exactly the events with `isLive` set, in table order |
| Events.GetUpcomingEvents | convex/events.ts:133-151 | exactly the events whose date string differs from today's, in table order |
| Events.Create | convex/events.ts:195-223 | one event row is appended as given; the other tables are unchanged |
| Events.CreateThenGetById | convex/events.ts:195-223 | with the id already taken, `getById` shows what it showed before; otherwise it finds the new event |
| Events.Update | convex/events.ts:226-257 | fails exactly when no event has that store id; otherwise only that event changes, with only the supplied fields replaced |
| Events.UpdateNoChange | convex/events.ts:226-257 | a successful update that supplies no field leaves the store unchanged |
| Events.UpdateIdempotent | convex/events.ts:226-257 | applying the same successful update twice equals applying it once |
| Events.Cascade | convex/events.ts:270-288 | the loop deletes exactly the collected sessions by store id, and every question and feedback row keyed by one of their business ids |
| Events.Remove | convex/events.ts:260-300 | the cascade over the event's sessions, then the first event with that `id` is removed and the others keep their order; with none, the events table is unchanged |
| Events.RemoveSessions | convex/events.ts:263-288 | afterwards the sessions table is exactly the sessions of other events, in order |
| Events.RemoveLeavesNoSession | convex/events.ts:263-288 | no session of the removed event remains |
| Events.RemoveKeepsOtherEvents | convex/events.ts:263-288 | every other event keeps exactly its sessions |
| Events.RemoveQuestions | convex/events.ts:269-277 | questions keyed by a business id of a removed session are all gone; the questions of every other key are unchanged |
| Events.RemoveFeedback | convex/events.ts:279-285 | feedback keyed by a business id of a removed session is all gone; the feedback of every other key is unchanged |
| Events.AddQuestion | convex/events.ts:303-317 | one question row is appended, keyed by the numeric session id and stamped with the given clock value |
| Events.AddQuestionIsListed | convex/events.ts:303-317 | the new question is listed last under every session with that business id, and under no other |
| Events.AddQuestionUnseenByStoreIdJoin | convex/events.ts:303-317 | `questions.getBySessionId` never lists a question added this way |
| Events.AskedQuestionUnseenByEvents | convex/events.ts:21-24 | a question asked through `questions.askQuestion` never appears in an aggregated session |
| Events.CreatedSessionUnseenByEvents | convex/events.ts:157-160 | a session created through `sessions.create` never appears in `getSessionsByEventId` for an `eventId` that is not an event's store-id string |
| Events.UpdateSessionFeedback | convex/events.ts:320-340 | afterwards the first feedback row with that numeric session id holds exactly the given values; the new row's store id is returned exactly when no row existed, and nothing after a patch |
| Events.FeedbackShownAfterUpdate | convex/events.ts:320-340 | every session with that business id then shows the new rating, tags and comment |
| Events.Clamp | convex/events.ts:355 | the new count is never negative and is either `old + increment` or 0 |
| Events.UpdateAttendeeCount | convex/events.ts:343-359 | only the first event with that `id` changes, and only its count, which becomes `max(0, old + increment)`; with none, nothing changes |
| Events.AttendeeCountStaysNonNegative | convex/events.ts:343-359 | if no count is negative before, none is negative after |
| Events.AttendeeKeepsPosition | convex/events.ts:343-359 | the update does not change which event `.first()` finds |
| Events.AttendeeRoundTrip | convex/events.ts:343-359 | an increment followed by its opposite restores the store, when the count stays non-negative |
| Events.AttendeeClampLosesDeficit | convex/events.ts:343-359 | when a decrement goes below zero, adding it back yields that amount, not the old count |
| Text.Lower | src/app/events/page.tsx:48 | each character is lower-cased as ASCII `toLowerCase` does; the length is unchanged |
| Text.LowerIdempotent | src/app/events/page.tsx:48 | lower-casing twice equals lower-casing once |
| Text.Contains | src/app/events/page.tsx:48-51 | true exactly when the needle occurs at some position of the haystack |
| Text.Trim | src/app/event/create/page.tsx:158 | the result is a slice of the input with only white space around it, and it neither starts nor ends with white space |
| Text.TrimIdempotent | src/app/event/create/page.tsx:158 | trimming twice equals trimming once |
| EventList.Filtered | src/app/events/page.tsx:46-66 | exactly the events passing search, type and category, as an order-preserving subsequence |
| EventList.InitialStateListsAll | src/app/events/page.tsx:40-66 | with an empty search and type and category `'all'`, every event is listed |
| EventList.SearchIgnoresCase | src/app/events/page.tsx:47-52 | search terms that lower-case alike list the same events |
| EventList.TitleOccurrenceIsFound | src/app/events/page.tsx:47-52 | a term occurring verbatim in the title passes the search |
| EventList.FreeAndPaidSplitAll | src/app/events/page.tsx:54-60 | `'free'` and `'paid'` list disjoint sets, and their sizes add up to the `'all'` list |
| EventList.UnknownTypeListsNothing | src/app/events/page.tsx:54-60 | a type outside the selector's options lists nothing |
| EventList.CategoryListsOnlyEqual | src/app/events/page.tsx:62-63 | a category other than `'all'` lists only events of exactly that category |
| EventList.Live | src/app/events/page.tsx:69 | exactly the filtered events with `isLive` set, in order |
| EventList.Upcoming | src/app/events/page.tsx:70 | exactly the filtered events without `isLive`, in order |
| EventList.LiveUpcomingPartition | src/app/events/page.tsx:69-70 | live and upcoming are disjoint, together cover the filtered list, and their sizes add up |
| EventList.FeaturedTitle | src/app/events/page.tsx:183-187 | the featured session's title when `featuredSessionId` is set and non-zero and the first session with that id has a non-empty title; the event's title otherwise, including when that first title is empty |
| EventList.FindSessionIsFirstTitle | src/app/events/page.tsx:184-186 | the position `FindSession` returns carries the title of the first session, read left to right, whose `id` is the featured id, and there is none exactly when no session carries it |
| EventList.FeaturedTitleIsFirstMatch | src/app/events/page.tsx:183-187 | the card title is the title `find(...)` returns, read left to right, or else the event's title: a missing or empty first match falls back to the event's title |
| CreateForm.ToggleSession | src/app/event/create/page.tsx:149-155 | the id becomes open exactly when it was not; no other id's membership changes; nothing else in the form changes |
| CreateForm.ToggleTwice | src/app/event/create/page.tsx:149-155 | toggling twice restores membership, and the list itself when the id was closed |
| CreateForm.AddTag | src/app/event/create/page.tsx:157-165 | the trimmed input is appended and the input cleared only when it is non-empty and new; otherwise nothing changes; tags stay duplicate-free |
| CreateForm.RemoveTag | src/app/event/create/page.tsx:167-172 | every copy of the tag goes and the other tags keep their order |
| CreateForm.AddTagThenRemove | src/app/event/create/page.tsx:157-172 | removing a tag that was just added restores the tags |
| CreateForm.AddSpeaker | src/app/event/create/page.tsx:174-183 | the speaker is appended as typed, and the dialog reset and closed, only when the trimmed name and role are both non-empty; otherwise nothing changes |
| CreateForm.AddSpeakerThenRemove | src/app/event/create/page.tsx:174-190 | after `addSpeaker` with a non-blank name and role, the new speaker sits at the end exactly as typed, and `removeSpeaker` at that index restores the list; the form then differs only by the reset, closed dialog |
| CreateForm.RemoveSpeaker | src/app/event/create/page.tsx:185-190 | exactly the speaker at that index goes; an out-of-range index changes nothing |
| CreateForm.DropPosition | src/app/event/create/page.tsx:188 | a filter on positions drops exactly the element at the index, when it is in range |
| CreateForm.Decimal | src/app/event/create/page.tsx:196 | `toString` of a clock value is a non-empty string of decimal digits |
| CreateForm.DecimalRoundTrip | src/app/event/create/page.tsx:196 | reading the digits back gives the number |
| CreateForm.DecimalInjective | src/app/event/create/page.tsx:196 | two clock values give the same id exactly when they are equal |
| CreateForm.AddSession | src/app/event/create/page.tsx:192-212 | only when the trimmed title and both times are non-empty: the draft is appended under the id of the clock value and opened, and the dialog reset and closed; otherwise nothing changes |
| CreateForm.RemoveSession | src/app/event/create/page.tsx:214-217 | every draft with that id and every copy of the id in the open list go; the rest keep their order |
| CreateForm.AddSessionThenRemove | src/app/event/create/page.tsx:192-217 | removing a session that was just added under a fresh id restores the drafts and the open ids |
| CreateForm.SubmitSessions | src/app/event/create/page.tsx:240-252 | one session per draft is created, in list order, attached to the new event's store id, with the parsed times and `completed` and `isActive` false |

## Left out

- Concurrency: `Promise.all`, reactive subscriptions, and races between concurrent mutations are not modelled. Every handler is a sequential store transformer.
- Timestamp conversions: the `new Date(...)` conversions in the event aggregations return the stored integer unchanged.
- Clocks: `Date.now()` (in `addQuestion` and `addSession`) and `new Date(text).getTime()` (in `handleSubmit`) are parameters. So is today's formatted date in `getUpcomingEvents`.
- Argument and schema validation: neither the argument validators nor the schema check that the platform applies to every write (convex/schema.ts calls `defineSchema` with no options) is modelled. Every write below succeeds in the model, although the platform would reject it:
  - `sessions.create` omits the required `id`;
  - `questions.create` and `askQuestion` omit the required `id` and `timestamp`, and `raiseHand` omits `text` as well;
  - every question and feedback insert keyed by a session's store id (`v.id('sessions')`) writes an id string into `sessionId`, which the schema declares `v.number()`.
  Fields a handler leaves unset are `Option`s, and store-id and business-id keys are kept apart as `Doc` and `Num`/`Text` keys.
- Missing event id: `handleSubmit` calls `events.create` without an `id`, which the validator would reject. `CreateForm.SubmitSessions` starts from the store id that call returns.
- Numbers: JavaScript numbers are modelled as unbounded integers. Fractions, `NaN` and floating-point rounding are not modelled.
- Key types: store ids of different tables, and keys of different types, are assumed never to compare equal. At run time a store id is a string, as is `event.id`, so a `Text` argument can equal a `Doc` reference; the model keeps the two apart.
- Events.CreatedSessionUnseenByEvents / Events.GetSessionsByEventId / Events.Remove: an `eventId` argument equal to an event's store-id string is not modelled. `sessions.create` stores `eventId` as that string (convex/sessions.ts:74, into the `v.string()` field of convex/schema.ts:32). So `getSessionsByEventId` called with it lists those sessions, and `remove` called with it deletes them and their children; the model lists and deletes none of them.
- Text.Lower: models `toLowerCase` on ASCII letters only; Unicode case mapping is not modelled.
- Text.Trim: removes ASCII white space only; Unicode white space is not modelled.
- Events.Update: a patch of a missing document, which the platform rejects with an error, is modelled as `None`. The error itself is not modelled.
- EventList.FeaturedTitle: `featuredSessionId` is compared with a session's optional numeric `id` as integers. JavaScript `===` on fractional numbers is not modelled.
- CreateForm.RemoveSpeaker: the index is an integer. A fractional index, which matches no position, is not modelled.
- `convex/seed.ts` (sample data), `src/data/data.ts` (client hooks) and all rendering, routing, dialogs and icon helpers are not part of this model.
