/** convex/events.ts: events with their sessions, questions and feedback.
    Unlike the other handlers, these join on business ids. A session belongs to
    an event when its `eventId` equals the event's `id` string. A question or
    feedback row belongs to a session when its `sessionId` equals the session's
    numeric `id`, which `sessions.create` never sets. */
module Events {
  import opened Seqs
  import opened Schema
  import Sessions
  import Questions
  import SessionFeedback

  /** The key the children of a session are looked up by: its business id, or
      `Absent` when the session has none. */
  function BizKey(s: Row<Session>): Key {
    if s.val.id.Some? then Num(s.val.id.value) else Absent
  }

  /** The `feedback` field of an aggregated session: the first stored row, or the
      literal `{ rating: 0, tags: [], comment: '' }` when there is none. */
  datatype FeedbackView = Stored(row: Row<Feedback>) | NoFeedback
  {
    function Rating(): int {
      if Stored? then row.val.rating else 0
    }
    function Tags(): seq<string> {
      if Stored? then row.val.tags else []
    }
    function Comment(): string {
      if Stored? then row.val.comment else ""
    }
  }

  /** A session with its questions and its feedback, as the event queries build it. */
  datatype SessionView = SessionView(row: Row<Session>, questions: seq<Row<Question>>, feedback: FeedbackView)

  /** An event with its aggregated sessions. */
  datatype EventView = EventView(row: Row<Event>, sessions: seq<SessionView>)

  /** `v` is what the store holds for its session under the business-id join:
      all questions of that id in table order, and the first feedback row of that
      id, or the default when there is none. */
  ghost predicate ViewOf(st: Store, v: SessionView) {
    var key := BizKey(v.row);
    && Selects(v.questions, st.questions, (q: Row<Question>) => q.val.sessionId == key)
    && (v.feedback.NoFeedback? <==> forall f | f in st.feedback :: f.val.sessionId != key)
    && (v.feedback.Stored? ==> FirstRowOf(st.feedback, key, v.feedback.row))
  }

  /** `x` is the earliest row of `t` whose `sessionId` is `key`. */
  ghost predicate FirstRowOf(t: seq<Row<Feedback>>, key: Key, x: Row<Feedback>) {
    exists j :: 0 <= j < |t| && t[j] == x && x.val.sessionId == key
      && forall k :: 0 <= k < j ==> t[k].val.sessionId != key
  }

  /** The sessions of `v` are exactly the event's sessions under the business-id
      join, in table order, each aggregated as `ViewOf` says. */
  ghost predicate JoinedOn(st: Store, v: EventView) {
    && Selects(Map(ViewRow, v.sessions), st.sessions, (s: Row<Session>) => s.val.eventId == Text(v.row.val.id))
    && forall i :: 0 <= i < |v.sessions| ==> ViewOf(st, v.sessions[i])
  }

  /** The session row inside a view. */
  function ViewRow(v: SessionView): Row<Session> {
    v.row
  }

  /** `feedback.length > 0 ? feedback[0] : { rating: 0, tags: [], comment: '' }`. */
  function FeedbackFor(st: Store, key: Key): (r: FeedbackView)
    ensures r.NoFeedback? <==> forall f | f in st.feedback :: f.val.sessionId != key
    ensures r.Stored? ==> FirstRowOf(st.feedback, key, r.row)
  {
    match SessionFeedback.FirstFor(st.feedback, key)
    case None => NoFeedback
    case Some(i) => Stored(st.feedback[i])
  }

  /** The aggregation applied to each session. */
  function ViewFor(st: Store, s: Row<Session>): (r: SessionView)
    ensures r.row == s && ViewOf(st, r)
  {
    FilterSelects(Questions.For(BizKey(s)), st.questions);
    SessionView(s, Questions.RowsFor(st.questions, BizKey(s)), FeedbackFor(st, BizKey(s)))
  }

  /** `sessions.map(...)` with `ViewFor`. */
  function Views(st: Store, ss: seq<Row<Session>>): (r: seq<SessionView>)
    ensures |r| == |ss|
    ensures forall i :: 0 <= i < |r| ==> r[i] == ViewFor(st, ss[i])
  {
    if |ss| == 0 then [] else [ViewFor(st, ss[0])] + Views(st, ss[1..])
  }

  /** `getSessionsByEventId`: the sessions whose `eventId` is the given business
      id, in table order, each with its questions and its feedback. */
  function GetSessionsByEventId(st: Store, eventId: string): (r: seq<SessionView>)
    ensures Selects(Map(ViewRow, r), st.sessions, (s: Row<Session>) => s.val.eventId == Text(eventId))
    ensures forall i :: 0 <= i < |r| ==> ViewOf(st, r[i])
  {
    var ss := Sessions.RowsFor(st.sessions, Text(eventId));
    FilterSelects(Sessions.For(Text(eventId)), st.sessions);
    var r := Views(st, ss);
    assert Map(ViewRow, r) == ss;
    r
  }

  /** The `{...event, sessions}` object built for one event. */
  function EventViewFor(st: Store, e: Row<Event>): (r: EventView)
    ensures r.row == e && JoinedOn(st, r)
  {
    EventView(e, GetSessionsByEventId(st, e.val.id))
  }

  /** `getAll`: one entry per event, in table order. */
  function GetAll(st: Store): (r: seq<EventView>)
    ensures |r| == |st.events|
    ensures forall i :: 0 <= i < |r| ==> r[i].row == st.events[i] && JoinedOn(st, r[i])
  {
    AllFrom(st, st.events)
  }

  function AllFrom(st: Store, es: seq<Row<Event>>): (r: seq<EventView>)
    ensures |r| == |es|
    ensures forall i :: 0 <= i < |r| ==> r[i] == EventViewFor(st, es[i])
  {
    if |es| == 0 then [] else [EventViewFor(st, es[0])] + AllFrom(st, es[1..])
  }

  /** Position of the event `.filter(id == id).first()` returns. */
  function FirstEvent(t: seq<Row<Event>>, id: string): (r: Option<nat>)
    ensures r.Some? ==> r.value < |t| && t[r.value].val.id == id
    ensures r.Some? ==> forall j :: 0 <= j < r.value ==> t[j].val.id != id
    ensures r.None? <==> forall j :: 0 <= j < |t| ==> t[j].val.id != id
  {
    FirstIndex((e: Row<Event>) => e.val.id == id, t)
  }

  /** `getById`: the first event with that business id, aggregated, or null. */
  function GetById(st: Store, id: string): (r: Option<EventView>)
    ensures r.None? <==> forall e | e in st.events :: e.val.id != id
    ensures r.Some? ==> r.value.row.val.id == id && JoinedOn(st, r.value)
    ensures r.Some? ==> r.value.row == st.events[FirstEvent(st.events, id).value]
  {
    match FirstEvent(st.events, id)
    case None => None
    case Some(i) => Some(EventViewFor(st, st.events[i]))
  }

  /** `getByCategory`: the events of that category, in table order. */
  function GetByCategory(st: Store, category: string): (r: seq<Row<Event>>)
    ensures Selects(r, st.events, (e: Row<Event>) => e.val.category == category)
  {
    FilterSelects((e: Row<Event>) => e.val.category == category, st.events);
    Filter((e: Row<Event>) => e.val.category == category, st.events)
  }

  /** `getLiveEvents`: the events flagged live, in table order. */
  function GetLiveEvents(st: Store): (r: seq<Row<Event>>)
    ensures Selects(r, st.events, (e: Row<Event>) => e.val.isLive)
  {
    FilterSelects((e: Row<Event>) => e.val.isLive, st.events);
    Filter((e: Row<Event>) => e.val.isLive, st.events)
  }

  /** `getUpcomingEvents`: the events whose `date` string differs from today's,
      `today` being the formatted current date. */
  function GetUpcomingEvents(st: Store, today: string): (r: seq<Row<Event>>)
    ensures Selects(r, st.events, (e: Row<Event>) => e.val.date != today)
  {
    FilterSelects((e: Row<Event>) => e.val.date != today, st.events);
    Filter((e: Row<Event>) => e.val.date != today, st.events)
  }

  /** `create`: inserts the event as given. Nothing checks that its business id
      is new. */
  function Create(st: Store, e: Event): (r: (Store, nat))
    ensures r.0.sessions == st.sessions && r.0.questions == st.questions && r.0.feedback == st.feedback
    ensures |r.0.events| == |st.events| + 1 && r.0.events[..|st.events|] == st.events
    ensures r.0.events[|st.events|] == Row(r.1, e)
    ensures Valid(st) ==> Valid(r.0) && forall x | x in st.events :: x.docId != r.1
  {
    (st.(events := Append(st.events, st.nextId, e), nextId := st.nextId + 1), st.nextId)
  }

  /** The fields a caller may supply to `update`; `None` is an omitted argument.
      The business id `id` is not among them. */
  datatype EventPatch = EventPatch(
    title: Option<string>,
    description: Option<string>,
    date: Option<string>,
    time: Option<string>,
    location: Option<string>,
    attendeeCount: Option<int>,
    maxAttendees: Option<int>,
    price: Option<string>,
    speakers: Option<seq<Speaker>>,
    hasInPerson: Option<bool>,
    hasOnline: Option<bool>,
    isLive: Option<bool>,
    tags: Option<seq<string>>,
    category: Option<string>,
    featuredSessionId: Option<int>)

  /** The patch that supplies no field. */
  const NoChange := EventPatch(None, None, None, None, None, None, None, None, None, None, None, None, None, None, None)

  /** `ctx.db.patch(id, updateFields)` on one event. */
  function ApplyPatch(e: Event, p: EventPatch): (r: Event)
    ensures r.id == e.id
    ensures p.title.Some? ==> r.title == p.title.value
    ensures p.title.None? ==> r.title == e.title
    ensures p.description.Some? ==> r.description == p.description.value
    ensures p.description.None? ==> r.description == e.description
    ensures p.date.Some? ==> r.date == p.date.value
    ensures p.date.None? ==> r.date == e.date
    ensures p.time.Some? ==> r.time == p.time.value
    ensures p.time.None? ==> r.time == e.time
    ensures p.location.Some? ==> r.location == p.location.value
    ensures p.location.None? ==> r.location == e.location
    ensures p.attendeeCount.Some? ==> r.attendeeCount == p.attendeeCount.value
    ensures p.attendeeCount.None? ==> r.attendeeCount == e.attendeeCount
    ensures p.maxAttendees.Some? ==> r.maxAttendees == p.maxAttendees.value
    ensures p.maxAttendees.None? ==> r.maxAttendees == e.maxAttendees
    ensures p.price.Some? ==> r.price == p.price.value
    ensures p.price.None? ==> r.price == e.price
    ensures p.speakers.Some? ==> r.speakers == p.speakers.value
    ensures p.speakers.None? ==> r.speakers == e.speakers
    ensures p.hasInPerson.Some? ==> r.hasInPerson == p.hasInPerson.value
    ensures p.hasInPerson.None? ==> r.hasInPerson == e.hasInPerson
    ensures p.hasOnline.Some? ==> r.hasOnline == p.hasOnline.value
    ensures p.hasOnline.None? ==> r.hasOnline == e.hasOnline
    ensures p.isLive.Some? ==> r.isLive == p.isLive.value
    ensures p.isLive.None? ==> r.isLive == e.isLive
    ensures p.tags.Some? ==> r.tags == p.tags.value
    ensures p.tags.None? ==> r.tags == e.tags
    ensures p.category.Some? ==> r.category == p.category.value
    ensures p.category.None? ==> r.category == e.category
    ensures r.featuredSessionId == (if p.featuredSessionId.Some? then p.featuredSessionId else e.featuredSessionId)
  {
    Event(e.id,
      p.title.GetOr(e.title), p.description.GetOr(e.description),
      p.date.GetOr(e.date), p.time.GetOr(e.time), p.location.GetOr(e.location),
      p.attendeeCount.GetOr(e.attendeeCount), p.maxAttendees.GetOr(e.maxAttendees),
      p.price.GetOr(e.price), p.speakers.GetOr(e.speakers),
      p.hasInPerson.GetOr(e.hasInPerson), p.hasOnline.GetOr(e.hasOnline), p.isLive.GetOr(e.isLive),
      p.tags.GetOr(e.tags), p.category.GetOr(e.category),
      if p.featuredSessionId.Some? then p.featuredSessionId else e.featuredSessionId)
  }

  /** `update`: patches the event with that store id. There is no existence
      check, so a missing event makes the platform's patch fail (`None`). */
  function Update(st: Store, id: nat, p: EventPatch): (r: Option<Store>)
    ensures r.None? <==> forall e | e in st.events :: e.docId != id
    ensures r.Some? ==>
              && r.value.sessions == st.sessions && r.value.questions == st.questions
              && r.value.feedback == st.feedback && r.value.nextId == st.nextId
              && |r.value.events| == |st.events|
              && forall j :: 0 <= j < |st.events| ==>
                   r.value.events[j] == if st.events[j].docId == id && Find(st.events, id) == Some(j)
                                        then Row(id, ApplyPatch(st.events[j].val, p)) else st.events[j]
    ensures r.Some? && Valid(st) ==> Valid(r.value)
  {
    match Find(st.events, id)
    case None => None
    case Some(i) => Some(st.(events := PatchAt(st.events, i, ApplyPatch(st.events[i].val, p))))
  }

  /** The store ids of a list of session rows. */
  function DocIds(ss: seq<Row<Session>>): (r: set<nat>)
    ensures forall s | s in ss :: s.docId in r
    ensures forall n | n in r :: exists s | s in ss :: s.docId == n
  {
    if |ss| == 0 then {} else {ss[0].docId} + DocIds(ss[1..])
  }

  /** The child keys of a list of session rows. */
  function BizKeys(ss: seq<Row<Session>>): (r: set<Key>)
    ensures forall s | s in ss :: BizKey(s) in r
    ensures forall k | k in r :: exists s | s in ss :: BizKey(s) == k
  {
    if |ss| == 0 then {} else {BizKey(ss[0])} + BizKeys(ss[1..])
  }

  /** The body of the `for` loop of `remove`: for each session, delete the
      questions and feedback rows keyed by its business id, then the session. */
  function Cascade(st: Store, ss: seq<Row<Session>>): (r: Store)
    ensures r.events == st.events && r.nextId == st.nextId
    ensures r.sessions == Without(st.sessions, DocIdOf, DocIds(ss))
    ensures r.questions == Without(st.questions, QuestionKey, BizKeys(ss))
    ensures r.feedback == Without(st.feedback, FeedbackKey, BizKeys(ss))
    ensures Valid(st) ==> Valid(r)
    decreases |ss|
  {
    if |ss| == 0 then
      WithoutNothing(st.sessions, DocIdOf);
      WithoutNothing(st.questions, QuestionKey);
      WithoutNothing(st.feedback, FeedbackKey);
      st
    else
      var purged := PurgeChildren(st, BizKey(ss[0]));
      WithoutTableOk(st.sessions, DocIdOf, {ss[0].docId}, st.nextId);
      var next := purged.(sessions := DeleteDoc(st.sessions, ss[0].docId));
      var r := Cascade(next, ss[1..]);
      WithoutWithout(st.sessions, DocIdOf, {ss[0].docId}, DocIds(ss[1..]));
      WithoutWithout(st.questions, QuestionKey, {BizKey(ss[0])}, BizKeys(ss[1..]));
      WithoutWithout(st.feedback, FeedbackKey, {BizKey(ss[0])}, BizKeys(ss[1..]));
      r
  }

  /** `Without` an empty key set is the identity. */
  lemma WithoutNothing<T(!new), K>(s: seq<T>, key: T -> K)
    ensures Without(s, key, {}) == s
  {
    FilterKeepsAll(x => key(x) !in {}, s);
    SelectsIsFilter(Without(s, key, {}), s, x => key(x) !in {});
  }

  /** The sessions `remove(id)` collects: those whose `eventId` is `id`. */
  function Doomed(st: Store, id: string): seq<Row<Session>> {
    Sessions.RowsFor(st.sessions, Text(id))
  }

  /** `remove`: the cascade over the event's sessions, then the deletion of the
      first event with that business id, if any. */
  function Remove(st: Store, id: string): (r: Store)
    ensures r.nextId == st.nextId
    ensures r.sessions == Without(st.sessions, DocIdOf, DocIds(Doomed(st, id)))
    ensures r.questions == Without(st.questions, QuestionKey, BizKeys(Doomed(st, id)))
    ensures r.feedback == Without(st.feedback, FeedbackKey, BizKeys(Doomed(st, id)))
    ensures FirstEvent(st.events, id).None? ==> r.events == st.events
    ensures Valid(st) && FirstEvent(st.events, id).Some? ==>
              r.events == RemoveAt(st.events, FirstEvent(st.events, id).value)
    ensures Valid(st) ==> Valid(r)
  {
    var mid := Cascade(st, Doomed(st, id));
    match FirstEvent(mid.events, id)
    case None => mid
    case Some(i) =>
      DeleteDocAt(st.events, i, st.nextId);
      WithoutTableOk(st.events, DocIdOf, {st.events[i].docId}, st.nextId);
      mid.(events := DeleteDoc(mid.events, mid.events[i].docId))
  }

  /** `addQuestion`: inserts a question keyed by the session's business id,
      stamped with `now` (the value of `Date.now()`). */
  function AddQuestion(st: Store, id: int, sessionId: int, text: string, author: string,
                       isHandRaise: Option<bool>, now: int): (r: (Store, nat))
    ensures r.0.events == st.events && r.0.sessions == st.sessions && r.0.feedback == st.feedback
    ensures |r.0.questions| == |st.questions| + 1 && r.0.questions[..|st.questions|] == st.questions
    ensures r.0.questions[|st.questions|] == Row(r.1, Question(Some(id), Num(sessionId), Some(text), author, Some(now), isHandRaise))
    ensures Valid(st) ==> Valid(r.0)
  {
    Questions.Insert(st, Question(Some(id), Num(sessionId), Some(text), author, Some(now), isHandRaise))
  }

  /** `updateSessionFeedback`: the upsert keyed by the session's business id.
      Afterwards the session's first feedback row holds the given values; the
      new row's store id is returned when one is inserted. */
  function UpdateSessionFeedback(st: Store, sessionId: int, a: SessionFeedback.FeedbackArgs): (res: (Store, Option<nat>))
    ensures res.1 == SessionFeedback.Returned(st, Num(sessionId))
    ensures res.1.Some? ==> |res.0.feedback| > |st.feedback| && res.0.feedback[|st.feedback|].docId == res.1.value
    ensures res.0.events == st.events && res.0.sessions == st.sessions && res.0.questions == st.questions
    ensures var rows := SessionFeedback.RowsFor(res.0.feedback, Num(sessionId));
      |rows| > 0 && rows[0].val == Feedback(Num(sessionId), a.rating, a.tags, a.comment)
    ensures Valid(st) ==> Valid(res.0)
  {
    SessionFeedback.UpsertEffect(st, Num(sessionId), a);
    (SessionFeedback.Upsert(st, Num(sessionId), a), SessionFeedback.Returned(st, Num(sessionId)))
  }

  /** `Math.max(0, count + increment)`. */
  function Clamp(count: int, increment: int): (r: int)
    ensures r >= 0 && r >= count + increment
    ensures r == count + increment || r == 0
  {
    if count + increment > 0 then count + increment else 0
  }

  /** `updateAttendeeCount`: the first event with that business id gets the
      clamped count; nothing else changes, and nothing at all when none matches. */
  function UpdateAttendeeCount(st: Store, eventId: string, increment: int): (r: Store)
    ensures r.sessions == st.sessions && r.questions == st.questions && r.feedback == st.feedback
    ensures r.nextId == st.nextId && |r.events| == |st.events|
    ensures FirstEvent(st.events, eventId).None? ==> r == st
    ensures FirstEvent(st.events, eventId).Some? ==>
              var i := FirstEvent(st.events, eventId).value;
              && r.events[i].docId == st.events[i].docId
              && r.events[i].val == st.events[i].val.(attendeeCount := Clamp(st.events[i].val.attendeeCount, increment))
              && r.events[i].val.attendeeCount >= 0
              && forall j :: 0 <= j < |st.events| && j != i ==> r.events[j] == st.events[j]
    ensures Valid(st) ==> Valid(r)
  {
    match FirstEvent(st.events, eventId)
    case None => st
    case Some(i) =>
      var e := st.events[i].val;
      st.(events := PatchAt(st.events, i, e.(attendeeCount := Clamp(e.attendeeCount, increment))))
  }

  // ---------------------------------------------------------------------------
  // Properties

  /** `getById` returns the `getAll` entry of the first event with that id. */
  lemma GetByIdIsGetAllEntry(st: Store, id: string)
    ensures GetById(st, id).Some? ==> GetById(st, id).value == GetAll(st)[FirstEvent(st.events, id).value]
    ensures GetById(st, id).None? ==> forall v | v in GetAll(st) :: v.row.val.id != id
  {
    if GetById(st, id).None? {
      forall v | v in GetAll(st)
        ensures v.row.val.id != id
      {
        var k :| 0 <= k < |GetAll(st)| && GetAll(st)[k] == v;
        assert v.row == st.events[k];
      }
    }
  }

  /** The aggregation reads the sessions, questions and feedback tables only. */
  lemma ViewsReadChildTablesOnly(st: Store, st': Store, e: Row<Event>)
    requires st'.sessions == st.sessions && st'.questions == st.questions && st'.feedback == st.feedback
    ensures EventViewFor(st', e) == EventViewFor(st, e)
  {
    ViewsReadQuestionsAndFeedback(st, st', Sessions.RowsFor(st.sessions, Text(e.val.id)));
  }

  /** Aggregating given session rows reads the questions and feedback tables only. */
  lemma ViewsReadQuestionsAndFeedback(st: Store, st': Store, ss: seq<Row<Session>>)
    requires st'.questions == st.questions && st'.feedback == st.feedback
    ensures Views(st', ss) == Views(st, ss)
  {
    var a, b := Views(st', ss), Views(st, ss);
    forall i | 0 <= i < |ss|
      ensures a[i] == b[i]
    {
      assert FeedbackFor(st', BizKey(ss[i])) == FeedbackFor(st, BizKey(ss[i]));
    }
  }

  /** Inserting an event whose business id is already taken changes nothing
      `getById` shows; otherwise `getById` finds the new event. */
  lemma CreateThenGetById(st: Store, e: Event)
    ensures var (st', docId) := Create(st, e);
      GetById(st', e.id) == if FirstEvent(st.events, e.id).Some? then GetById(st, e.id)
                            else Some(EventViewFor(st, Row(docId, e)))
  {
    var (st', docId) := Create(st, e);
    assert st'.events == st.events + [Row(docId, e)];
    FirstEventAppend(st.events, Row(docId, e));
    match FirstEvent(st.events, e.id)
    case Some(i) =>
      ViewsReadChildTablesOnly(st, st', st.events[i]);
    case None =>
      ViewsReadChildTablesOnly(st, st', Row(docId, e));
  }

  /** Appending an event row does not move the first match of an id that was
      already present, and makes the new row the first match of its own id
      otherwise. */
  lemma FirstEventAppend(t: seq<Row<Event>>, e: Row<Event>)
    ensures FirstEvent(t + [e], e.val.id) ==
      if FirstEvent(t, e.val.id).Some? then FirstEvent(t, e.val.id) else Some(|t|)
  {
    var t' := t + [e];
    assert forall j :: 0 <= j < |t| ==> t'[j] == t[j];
    assert t'[|t|] == e;
    var k := FirstEvent(t', e.val.id).value;
    match FirstEvent(t, e.val.id)
    case Some(i) =>
      assert k <= i;
      assert k >= i;
    case None =>
      assert k == |t|;
  }

  /** A patch that supplies nothing leaves the store as it was. */
  lemma UpdateNoChange(st: Store, id: nat)
    ensures Update(st, id, NoChange).Some? ==> Update(st, id, NoChange) == Some(st)
  {
    match Find(st.events, id)
    case None =>
    case Some(i) =>
      assert ApplyPatch(st.events[i].val, NoChange) == st.events[i].val;
      assert PatchAt(st.events, i, st.events[i].val) == st.events;
  }

  /** Applying the same patch twice is applying it once. */
  lemma UpdateIdempotent(st: Store, id: nat, p: EventPatch)
    requires Update(st, id, p).Some?
    ensures Update(Update(st, id, p).value, id, p) == Update(st, id, p)
  {
    var i := Find(st.events, id).value;
    var once := Update(st, id, p).value;
    assert Find(once.events, id) == Some(i) by {
      assert forall j :: 0 <= j < i ==> once.events[j] == st.events[j];
    }
    assert ApplyPatch(ApplyPatch(st.events[i].val, p), p) == ApplyPatch(st.events[i].val, p);
    assert PatchAt(once.events, i, once.events[i].val) == once.events;
  }

  /** With unique store ids, a session's store id is among those `remove`
      collects exactly when the session belongs to the event. */
  lemma DoomedByDocId(st: Store, id: string, s: Row<Session>)
    requires Valid(st) && s in st.sessions
    ensures s.docId in DocIds(Doomed(st, id)) <==> s.val.eventId == Text(id)
  {
    if s.docId in DocIds(Doomed(st, id)) {
      var x :| x in Doomed(st, id) && x.docId == s.docId;
      SameIdSameRow(st.sessions, st.nextId, x, s);
    }
  }

  /** After `remove` the event's sessions are gone and every other session stays,
      in order: with unique store ids, deleting the collected sessions one by one
      is a filter on `eventId`. */
  lemma {:induction false} RemoveSessions(st: Store, id: string)
    requires Valid(st)
    ensures Remove(st, id).sessions == Filter(Survives(id), st.sessions)
  {
    var t := st.sessions;
    var w := Without(t, DocIdOf, DocIds(Doomed(st, id)));
    var q := (x: Row<Session>) => DocIdOf(x) !in DocIds(Doomed(st, id));
    SelectsIsFilter(w, t, q);
    forall j | 0 <= j < |t|
      ensures q(t[j]) == Survives(id)(t[j])
    {
      DoomedByDocId(st, id, t[j]);
    }
    FilterCongruent(q, Survives(id), t);
  }

  /** The sessions `remove(id)` keeps: those of other events. */
  function Survives(id: string): Row<Session> -> bool {
    (s: Row<Session>) => s.val.eventId != Text(id)
  }

  /** `remove` leaves the sessions of every other event untouched, in order. */
  lemma RemoveKeepsOtherEvents(st: Store, id: string, other: string)
    requires Valid(st) && other != id
    ensures Sessions.RowsFor(Remove(st, id).sessions, Text(other)) == Sessions.RowsFor(st.sessions, Text(other))
  {
    RemoveSessions(st, id);
    FilterFilter(Sessions.For(Text(other)), Survives(id), st.sessions);
  }

  /** No session of the removed event survives. */
  lemma RemoveLeavesNoSession(st: Store, id: string)
    requires Valid(st)
    ensures Sessions.RowsFor(Remove(st, id).sessions, Text(id)) == []
  {
    RemoveSessions(st, id);
    var r := Filter(Survives(id), st.sessions);
    forall j | 0 <= j < |r|
      ensures !Sessions.For(Text(id))(r[j])
    {
      assert r[j] in r;
    }
    FilterNone(Sessions.For(Text(id)), r);
  }

  /** The questions `remove` deletes are exactly those keyed by the business id
      of one of the removed sessions. A session of another event that shares such
      an id loses its questions too; one that does not keeps them. */
  lemma RemoveQuestions(st: Store, id: string, k: Key)
    ensures Questions.RowsFor(Remove(st, id).questions, k)
         == if k in BizKeys(Doomed(st, id)) then [] else Questions.RowsFor(st.questions, k)
  {
    var ks := BizKeys(Doomed(st, id));
    if k in ks {
      FilterWithoutAll(Questions.For(k), st.questions, QuestionKey, ks);
    } else {
      FilterWithout(Questions.For(k), st.questions, QuestionKey, ks);
    }
  }

  /** The same for feedback rows. */
  lemma RemoveFeedback(st: Store, id: string, k: Key)
    ensures SessionFeedback.RowsFor(Remove(st, id).feedback, k)
         == if k in BizKeys(Doomed(st, id)) then [] else SessionFeedback.RowsFor(st.feedback, k)
  {
    var ks := BizKeys(Doomed(st, id));
    if k in ks {
      FilterWithoutAll(SessionFeedback.For(k), st.feedback, FeedbackKey, ks);
    } else {
      FilterWithout(SessionFeedback.For(k), st.feedback, FeedbackKey, ks);
    }
  }

  /** An increment is undone by its opposite when the count stays non-negative. */
  lemma AttendeeRoundTrip(st: Store, eventId: string, increment: int)
    requires FirstEvent(st.events, eventId).Some?
    requires var count := st.events[FirstEvent(st.events, eventId).value].val.attendeeCount;
      count >= 0 && count + increment >= 0
    ensures UpdateAttendeeCount(UpdateAttendeeCount(st, eventId, increment), eventId, -increment) == st
  {
    var i := FirstEvent(st.events, eventId).value;
    var once := UpdateAttendeeCount(st, eventId, increment);
    AttendeeKeepsPosition(st, eventId, increment);
    var back := UpdateAttendeeCount(once, eventId, -increment);
    assert back.events[i].val == st.events[i].val;
    assert forall j :: 0 <= j < |st.events| ==> back.events[j] == st.events[j];
  }

  /** The clamp loses a deficit: after a decrement below zero, adding the same
      amount back yields that amount, not the old count. */
  lemma AttendeeClampLosesDeficit(st: Store, eventId: string, increment: int)
    requires FirstEvent(st.events, eventId).Some?
    requires var count := st.events[FirstEvent(st.events, eventId).value].val.attendeeCount;
      count >= 0 && count + increment < 0
    ensures var i := FirstEvent(st.events, eventId).value;
      var back := UpdateAttendeeCount(UpdateAttendeeCount(st, eventId, increment), eventId, -increment);
      back.events[i].val.attendeeCount == -increment
  {
    var i := FirstEvent(st.events, eventId).value;
    AttendeeKeepsPosition(st, eventId, increment);
    assert UpdateAttendeeCount(st, eventId, increment).events[i].val.attendeeCount == 0;
  }

  /** The counter update does not move the event `.first()` finds. */
  lemma AttendeeKeepsPosition(st: Store, eventId: string, increment: int)
    ensures FirstEvent(UpdateAttendeeCount(st, eventId, increment).events, eventId) == FirstEvent(st.events, eventId)
  {
    var once := UpdateAttendeeCount(st, eventId, increment);
    assert forall j :: 0 <= j < |st.events| ==> once.events[j].val.id == st.events[j].val.id;
  }

  /** No attendee count is negative. */
  ghost predicate CountsNonNegative(st: Store) {
    forall j :: 0 <= j < |st.events| ==> st.events[j].val.attendeeCount >= 0
  }

  /** `updateAttendeeCount` keeps every attendee count non-negative. */
  lemma AttendeeCountStaysNonNegative(st: Store, eventId: string, increment: int)
    requires CountsNonNegative(st)
    ensures CountsNonNegative(UpdateAttendeeCount(st, eventId, increment))
  {
  }

  /** After `updateSessionFeedback`, every session with that business id shows
      the new values in the event queries. */
  lemma FeedbackShownAfterUpdate(st: Store, sessionId: int, a: SessionFeedback.FeedbackArgs, s: Row<Session>)
    requires BizKey(s) == Num(sessionId)
    ensures var v := ViewFor(UpdateSessionFeedback(st, sessionId, a).0, s).feedback;
      v.Stored? && v.Rating() == a.rating && v.Tags() == a.tags && v.Comment() == a.comment
  {
    var r := UpdateSessionFeedback(st, sessionId, a).0;
    var key := Num(sessionId);
    var rows := SessionFeedback.RowsFor(r.feedback, key);
    assert rows[0] in rows;
    var i := SessionFeedback.FirstFor(r.feedback, key).value;
    SessionFeedback.RowsForSplit(r.feedback, key, i);
  }

  /** A question added through `addQuestion` is listed last under every session
      with that business id, and under no other. */
  lemma AddQuestionIsListed(st: Store, id: int, sessionId: int, text: string, author: string,
                            isHandRaise: Option<bool>, now: int, s: Row<Session>)
    ensures var (r, docId) := AddQuestion(st, id, sessionId, text, author, isHandRaise, now);
      var row := Row(docId, Question(Some(id), Num(sessionId), Some(text), author, Some(now), isHandRaise));
      ViewFor(r, s).questions
        == ViewFor(st, s).questions + (if BizKey(s) == Num(sessionId) then [row] else [])
  {
    var (r, docId) := AddQuestion(st, id, sessionId, text, author, isHandRaise, now);
    var row := r.questions[|st.questions|];
    assert r.questions == st.questions + [row];
    FilterAppend(Questions.For(BizKey(s)), st.questions, [row]);
    FilterSingle(Questions.For(BizKey(s)), row);
  }

  /** The other direction: a session created through `sessions.create` is
      attached by store id, so the business-id join of `getSessionsByEventId`
      never lists it for an `eventId` that is a business id. A `Text` key never
      equals a `Doc` key here, so passing the event's store-id string, which the
      platform would match, is outside this model. */
  lemma CreatedSessionUnseenByEvents(st: Store, a: Sessions.NewSession, eventId: string)
    ensures GetSessionsByEventId(Sessions.Create(st, a).0, eventId) == GetSessionsByEventId(st, eventId)
  {
    var (st', id) := Sessions.Create(st, a);
    var row := Row(id, a.AsSession());
    assert st'.sessions == st.sessions + [row];
    FilterAppend(Sessions.For(Text(eventId)), st.sessions, [row]);
    FilterSingle(Sessions.For(Text(eventId)), row);
    ViewsReadQuestionsAndFeedback(st, st', Sessions.RowsFor(st.sessions, Text(eventId)));
  }

  /** Questions asked through `questions.askQuestion` are keyed by store id, so
      they never show up under a session in the event queries. */
  lemma AskedQuestionUnseenByEvents(st: Store, sessionId: nat, text: string, author: string, s: Row<Session>)
    ensures ViewFor(Questions.AskQuestion(st, sessionId, text, author).0, s).questions == ViewFor(st, s).questions
  {
    var (r, docId) := Questions.AskQuestion(st, sessionId, text, author);
    var row := r.questions[|st.questions|];
    assert r.questions == st.questions + [row];
    FilterAppend(Questions.For(BizKey(s)), st.questions, [row]);
    FilterSingle(Questions.For(BizKey(s)), row);
  }

  /** The two join conventions do not meet: a question added through
      `addQuestion` never shows up in `questions.getBySessionId`. */
  lemma AddQuestionUnseenByStoreIdJoin(st: Store, id: int, sessionId: int, text: string, author: string,
                                       isHandRaise: Option<bool>, now: int, docId: nat)
    ensures var (r, _) := AddQuestion(st, id, sessionId, text, author, isHandRaise, now);
      Questions.GetBySessionId(r, docId) == Questions.GetBySessionId(st, docId)
  {
    var (r, _) := AddQuestion(st, id, sessionId, text, author, isHandRaise, now);
    var row := r.questions[|st.questions|];
    assert r.questions == st.questions + [row];
    FilterAppend(Questions.For(Doc(docId)), st.questions, [row]);
    FilterSingle(Questions.For(Doc(docId)), row);
  }
}
