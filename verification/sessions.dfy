/** convex/sessions.ts: the sessions of an event and their one-level cascade.
    Every join here is on store ids: a session's `eventId` is compared with the
    event's `_id`, and a child row's `sessionId` with the session's `_id`. */
module Sessions {
  import opened Seqs
  import opened Schema
  import Questions
  import SessionFeedback

  /** A session row with the question and feedback rows collected for it.
      `feedback` is the whole list and is never replaced by a default. */
  datatype SessionDetail = SessionDetail(row: Row<Session>, questions: seq<Row<Question>>, feedback: seq<Row<Feedback>>)

  /** `d` carries exactly the children the store holds for its session, in table order. */
  ghost predicate DetailOf(st: Store, d: SessionDetail) {
    && Selects(d.questions, st.questions, (q: Row<Question>) => q.val.sessionId == Doc(d.row.docId))
    && Selects(d.feedback, st.feedback, (f: Row<Feedback>) => f.val.sessionId == Doc(d.row.docId))
  }

  /** The query filter `eventId == key`. */
  function For(key: Key): Row<Session> -> bool {
    (s: Row<Session>) => s.val.eventId == key
  }

  /** Every session row of `key`, in table order. */
  function RowsFor(t: seq<Row<Session>>, key: Key): seq<Row<Session>> {
    Filter(For(key), t)
  }

  /** The `{...session, questions, feedback}` object built for one session. */
  function Detail(st: Store, s: Row<Session>): SessionDetail {
    SessionDetail(s, Questions.RowsFor(st.questions, Doc(s.docId)), SessionFeedback.RowsFor(st.feedback, Doc(s.docId)))
  }

  lemma DetailMeets(st: Store, s: Row<Session>)
    ensures DetailOf(st, Detail(st, s))
  {
    FilterSelects(Questions.For(Doc(s.docId)), st.questions);
    FilterSelects(SessionFeedback.For(Doc(s.docId)), st.feedback);
  }

  lemma DetailsMeet(st: Store, ss: seq<Row<Session>>)
    ensures forall i :: 0 <= i < |ss| ==> DetailOf(st, Detail(st, ss[i]))
  {
    forall i | 0 <= i < |ss| {
      DetailMeets(st, ss[i]);
    }
  }

  /** `sessions.map(...)` with `Detail`. */
  function Details(st: Store, ss: seq<Row<Session>>): (r: seq<SessionDetail>)
    ensures |r| == |ss|
    ensures forall i :: 0 <= i < |r| ==> r[i] == Detail(st, ss[i])
  {
    if |ss| == 0 then [] else [Detail(st, ss[0])] + Details(st, ss[1..])
  }

  /** The session row inside a detail. */
  function DetailRow(d: SessionDetail): Row<Session> {
    d.row
  }

  /** `getByEventId`: the sessions whose `eventId` is the event's store id, in
      table order, each with all of its questions and feedback rows. */
  function GetByEventId(st: Store, eventId: nat): (r: seq<SessionDetail>)
    ensures Selects(Map(DetailRow, r), st.sessions, (s: Row<Session>) => s.val.eventId == Doc(eventId))
    ensures forall i :: 0 <= i < |r| ==> DetailOf(st, r[i])
  {
    var ss := RowsFor(st.sessions, Doc(eventId));
    FilterSelects(For(Doc(eventId)), st.sessions);
    DetailsMeet(st, ss);
    var r := Details(st, ss);
    assert Map(DetailRow, r) == ss;
    r
  }

  /** `getById`: the first session with that store id and its children, or null. */
  function GetById(st: Store, id: nat): (r: Option<SessionDetail>)
    ensures r.None? <==> forall s | s in st.sessions :: s.docId != id
    ensures r.Some? ==> r.value.row == st.sessions[Find(st.sessions, id).value]
    ensures r.Some? ==> r.value.row.docId == id && DetailOf(st, r.value)
  {
    match Find(st.sessions, id)
    case None => None
    case Some(i) =>
      DetailMeets(st, st.sessions[i]);
      Some(Detail(st, st.sessions[i]))
  }

  /** The arguments of `create`; `eventId` is the event's store id. The business
      id `session.id` is not among them and stays unset. */
  datatype NewSession = NewSession(
    eventId: nat,
    title: string,
    kind: string,
    startTime: int,
    endTime: int,
    completed: bool,
    isActive: bool,
    speaker: Option<SessionSpeaker>,
    description: Option<string>,
    videoLink: Option<string>)
  {
    function AsSession(): Session {
      Session(None, Doc(eventId), title, kind, startTime, endTime, completed, isActive, speaker, description, videoLink)
    }
  }

  /** `create`: inserts the session as given and returns its new store id. */
  function Create(st: Store, a: NewSession): (r: (Store, nat))
    ensures r.0.events == st.events && r.0.questions == st.questions && r.0.feedback == st.feedback
    ensures |r.0.sessions| == |st.sessions| + 1 && r.0.sessions[..|st.sessions|] == st.sessions
    ensures r.0.sessions[|st.sessions|] == Row(r.1, a.AsSession())
    ensures r.0.sessions[|st.sessions|].val.id.None?
    ensures Valid(st) ==> Valid(r.0) && forall s | s in st.sessions :: s.docId != r.1
  {
    (st.(sessions := Append(st.sessions, st.nextId, a.AsSession()), nextId := st.nextId + 1), st.nextId)
  }

  /** The fields a caller may supply to `update`; `None` is an omitted argument. */
  datatype SessionPatch = SessionPatch(
    title: Option<string>,
    kind: Option<string>,
    startTime: Option<int>,
    endTime: Option<int>,
    completed: Option<bool>,
    isActive: Option<bool>,
    speaker: Option<SessionSpeaker>,
    description: Option<string>,
    videoLink: Option<string>)

  /** The patch that supplies no field. */
  const NoChange := SessionPatch(None, None, None, None, None, None, None, None, None)

  /** `ctx.db.patch(session._id, updateFields)`: supplied fields replace the stored
      ones, omitted fields and the join fields `id` and `eventId` are kept. */
  function ApplyPatch(s: Session, p: SessionPatch): (r: Session)
    ensures r.id == s.id && r.eventId == s.eventId
    ensures p.title.Some? ==> r.title == p.title.value
    ensures p.title.None? ==> r.title == s.title
    ensures p.kind.Some? ==> r.kind == p.kind.value
    ensures p.kind.None? ==> r.kind == s.kind
    ensures p.startTime.Some? ==> r.startTime == p.startTime.value
    ensures p.startTime.None? ==> r.startTime == s.startTime
    ensures p.endTime.Some? ==> r.endTime == p.endTime.value
    ensures p.endTime.None? ==> r.endTime == s.endTime
    ensures p.completed.Some? ==> r.completed == p.completed.value
    ensures p.completed.None? ==> r.completed == s.completed
    ensures p.isActive.Some? ==> r.isActive == p.isActive.value
    ensures p.isActive.None? ==> r.isActive == s.isActive
    ensures r.speaker == (if p.speaker.Some? then p.speaker else s.speaker)
    ensures r.description == (if p.description.Some? then p.description else s.description)
    ensures r.videoLink == (if p.videoLink.Some? then p.videoLink else s.videoLink)
  {
    s.(title := p.title.GetOr(s.title), kind := p.kind.GetOr(s.kind),
       startTime := p.startTime.GetOr(s.startTime), endTime := p.endTime.GetOr(s.endTime),
       completed := p.completed.GetOr(s.completed), isActive := p.isActive.GetOr(s.isActive),
       speaker := if p.speaker.Some? then p.speaker else s.speaker,
       description := if p.description.Some? then p.description else s.description,
       videoLink := if p.videoLink.Some? then p.videoLink else s.videoLink)
  }

  /** `update`: patches the first session with that store id; does nothing when
      there is none. */
  function Update(st: Store, id: nat, p: SessionPatch): (r: Store)
    ensures r.events == st.events && r.questions == st.questions && r.feedback == st.feedback
    ensures |r.sessions| == |st.sessions| && r.nextId == st.nextId
    ensures forall j :: 0 <= j < |st.sessions| && Find(st.sessions, id) != Some(j) ==> r.sessions[j] == st.sessions[j]
    ensures Find(st.sessions, id).Some? ==>
              var i := Find(st.sessions, id).value;
              r.sessions[i] == Row(id, ApplyPatch(st.sessions[i].val, p))
    ensures Find(st.sessions, id).None? ==> r == st
    ensures Valid(st) ==> Valid(r)
  {
    match Find(st.sessions, id)
    case None => st
    case Some(i) => st.(sessions := PatchAt(st.sessions, i, ApplyPatch(st.sessions[i].val, p)))
  }

  /** `remove`: deletes every question and feedback row whose `sessionId` is `id`,
      then the session itself if it exists. The children go even when the
      session does not exist. */
  function Remove(st: Store, id: nat): (r: Store)
    ensures r.events == st.events && r.nextId == st.nextId
    ensures r.questions == Without(st.questions, QuestionKey, {Doc(id)})
    ensures r.feedback == Without(st.feedback, FeedbackKey, {Doc(id)})
    ensures Find(st.sessions, id).None? ==> r.sessions == st.sessions
    ensures Valid(st) && Find(st.sessions, id).Some? ==>
              r.sessions == RemoveAt(st.sessions, Find(st.sessions, id).value)
    ensures Valid(st) ==> Valid(r)
  {
    var purged := PurgeChildren(st, Doc(id));
    match Find(st.sessions, id)
    case None => purged
    case Some(i) =>
      DeleteDocAt(st.sessions, i, st.nextId);
      WithoutTableOk(st.sessions, DocIdOf, {id}, st.nextId);
      purged.(sessions := DeleteDoc(st.sessions, id))
  }

  // ---------------------------------------------------------------------------
  // Properties

  /** A patch that supplies nothing leaves the store as it was. */
  lemma UpdateNoChange(st: Store, id: nat)
    ensures Update(st, id, NoChange) == st
  {
    match Find(st.sessions, id)
    case None =>
    case Some(i) =>
      assert ApplyPatch(st.sessions[i].val, NoChange) == st.sessions[i].val;
      assert PatchAt(st.sessions, i, st.sessions[i].val) == st.sessions;
  }

  /** Applying the same patch twice is applying it once. */
  lemma UpdateIdempotent(st: Store, id: nat, p: SessionPatch)
    ensures Update(Update(st, id, p), id, p) == Update(st, id, p)
  {
    var once := Update(st, id, p);
    match Find(st.sessions, id)
    case None =>
    case Some(i) =>
      assert Find(once.sessions, id) == Some(i) by {
        assert forall j :: 0 <= j < i ==> once.sessions[j] == st.sessions[j];
      }
      assert ApplyPatch(ApplyPatch(st.sessions[i].val, p), p) == ApplyPatch(st.sessions[i].val, p);
      assert PatchAt(once.sessions, i, once.sessions[i].val) == once.sessions;
  }

  /** Every entry of the event's listing is what `getById` returns for its session. */
  lemma ListingAgreesWithGetById(st: Store, eventId: nat, d: SessionDetail)
    requires Valid(st) && d in GetByEventId(st, eventId)
    ensures GetById(st, d.row.docId) == Some(d)
  {
    var ss := RowsFor(st.sessions, Doc(eventId));
    var k :| 0 <= k < |GetByEventId(st, eventId)| && GetByEventId(st, eventId)[k] == d;
    assert d == Detail(st, ss[k]);
    assert ss[k] in st.sessions;
    var i := Find(st.sessions, ss[k].docId).value;
    SameIdSameRow(st.sessions, st.nextId, st.sessions[i], ss[k]);
  }

  /** Conversely, a session found by `getById` appears in its event's listing. */
  lemma GetByIdIsListed(st: Store, id: nat, eventId: nat)
    requires GetById(st, id).Some? && GetById(st, id).value.row.val.eventId == Doc(eventId)
    ensures GetById(st, id).value in GetByEventId(st, eventId)
  {
    var s := GetById(st, id).value.row;
    var ss := RowsFor(st.sessions, Doc(eventId));
    assert s in ss;
    var k :| 0 <= k < |ss| && ss[k] == s;
    assert GetByEventId(st, eventId)[k] == Detail(st, s);
  }

  /** A new session is listed last under its event, with the children already
      stored under its fresh id; earlier entries are as before. */
  lemma CreateIsListed(st: Store, a: NewSession)
    ensures var (st', id) := Create(st, a);
      GetByEventId(st', a.eventId) == GetByEventId(st, a.eventId) + [Detail(st, Row(id, a.AsSession()))]
  {
    var (st', id) := Create(st, a);
    var key := Doc(a.eventId);
    var row := Row(id, a.AsSession());
    assert st'.sessions == st.sessions + [row];
    FilterAppend(For(key), st.sessions, [row]);
    FilterSingle(For(key), row);
    var ss := RowsFor(st.sessions, key);
    var ss' := RowsFor(st'.sessions, key);
    assert ss' == ss + [row];
    DetailsReadChildTablesOnly(st, st', ss');
    DetailsAppend(st, ss, row);
  }

  /** The details of one more session are the old details plus its own. */
  lemma DetailsAppend(st: Store, ss: seq<Row<Session>>, row: Row<Session>)
    ensures Details(st, ss + [row]) == Details(st, ss) + [Detail(st, row)]
  {
    var r := Details(st, ss);
    var r' := Details(st, ss + [row]);
    assert forall i :: 0 <= i < |r| ==> r'[i] == r[i];
    assert r'[|r|] == Detail(st, row);
  }

  /** The details read the questions and feedback tables only. */
  lemma DetailsReadChildTablesOnly(st: Store, st': Store, ss: seq<Row<Session>>)
    requires st'.questions == st.questions && st'.feedback == st.feedback
    ensures Details(st', ss) == Details(st, ss)
  {
    var a, b := Details(st', ss), Details(st, ss);
    forall i | 0 <= i < |ss|
      ensures a[i] == b[i]
    {
      assert Detail(st', ss[i]) == Detail(st, ss[i]);
    }
  }

  /** `remove` leaves the children of every other session in place. */
  lemma RemoveKeepsOtherDetails(st: Store, id: nat, s: Row<Session>)
    requires s.docId != id
    ensures Detail(Remove(st, id), s) == Detail(st, s)
  {
    var r := Remove(st, id);
    FilterWithout(Questions.For(Doc(s.docId)), st.questions, QuestionKey, {Doc(id)});
    FilterWithout(SessionFeedback.For(Doc(s.docId)), st.feedback, FeedbackKey, {Doc(id)});
  }

  /** After `remove` nothing refers to the session any more. */
  lemma RemoveLeavesNoTrace(st: Store, id: nat)
    requires Valid(st)
    ensures var r := Remove(st, id);
      && GetById(r, id).None?
      && (forall q | q in r.questions :: q.val.sessionId != Doc(id))
      && (forall f | f in r.feedback :: f.val.sessionId != Doc(id))
  {
    var r := Remove(st, id);
    if Find(st.sessions, id).Some? {
      var i := Find(st.sessions, id).value;
      RemoveAtDropsId(st.sessions, i, st.nextId);
    }
    assert forall q | q in r.questions :: QuestionKey(q) !in {Doc(id)};
    assert forall f | f in r.feedback :: FeedbackKey(f) !in {Doc(id)};
  }
}
