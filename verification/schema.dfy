/** The four tables of the document store (convex/schema.ts) and the store-level
    primitives every handler is built from: insert with a fresh store id, delete by
    store id, patch of a found row, and removal of a session's child rows. */
module Schema {
  import opened Seqs

  /** The value held by a reference field or passed as a join argument.
      The handlers do not agree on what a reference is: some compare against the
      store-assigned `_id` (`Doc`), others against the business ids `session.id`
      (`Num`) or `event.id` (`Text`). `Absent` is a field that was never set. */
  datatype Key = Doc(id: nat) | Num(n: int) | Text(s: string) | Absent

  /** A stored document: its store-assigned `_id` and its fields. */
  datatype Row<T> = Row(docId: nat, val: T)

  datatype Speaker = Speaker(name: string, role: string, company: Option<string>)

  datatype Event = Event(
    id: string,
    title: string,
    description: string,
    date: string,
    time: string,
    location: string,
    attendeeCount: int,
    maxAttendees: int,
    price: string,
    speakers: seq<Speaker>,
    hasInPerson: bool,
    hasOnline: bool,
    isLive: bool,
    tags: seq<string>,
    category: string,
    featuredSessionId: Option<int>)

  datatype SessionSpeaker = SessionSpeaker(name: string, avatar: string, role: string)

  /** `kind` is the schema's `type` field. `id` is the business id, which
      `sessions.create` never sets. */
  datatype Session = Session(
    id: Option<int>,
    eventId: Key,
    title: string,
    kind: string,
    startTime: int,
    endTime: int,
    completed: bool,
    isActive: bool,
    speaker: Option<SessionSpeaker>,
    description: Option<string>,
    videoLink: Option<string>)

  /** `text` is absent on a raised hand; `id` and `timestamp` are only set by
      `events.addQuestion`. */
  datatype Question = Question(
    id: Option<int>,
    sessionId: Key,
    text: Option<string>,
    author: string,
    timestamp: Option<int>,
    isHandRaise: Option<bool>)

  datatype Feedback = Feedback(sessionId: Key, rating: int, tags: seq<string>, comment: string)

  /** The whole database. Every table is in insertion order, which is the order
      `.collect()` returns and the order in which `.first()` searches. `nextId` is
      the next store id to hand out. */
  datatype Store = Store(
    events: seq<Row<Event>>,
    sessions: seq<Row<Session>>,
    questions: seq<Row<Question>>,
    feedback: seq<Row<Feedback>>,
    nextId: nat)

  /** Store ids in a table are below `next` and no two rows share one. */
  ghost predicate TableOk<T>(t: seq<Row<T>>, next: nat) {
    && (forall i :: 0 <= i < |t| ==> t[i].docId < next)
    && (forall i, j :: 0 <= i < j < |t| ==> t[i].docId != t[j].docId)
  }

  /** The store's own guarantee: store ids are fresh and unique per table. */
  ghost predicate Valid(st: Store) {
    && TableOk(st.events, st.nextId)
    && TableOk(st.sessions, st.nextId)
    && TableOk(st.questions, st.nextId)
    && TableOk(st.feedback, st.nextId)
  }

  function DocIdOf<T>(r: Row<T>): nat { r.docId }
  function QuestionKey(q: Row<Question>): Key { q.val.sessionId }
  function FeedbackKey(f: Row<Feedback>): Key { f.val.sessionId }

  /** Position of the row `.filter(_id == id).first()` returns. */
  function Find<T>(t: seq<Row<T>>, id: nat): (r: Option<nat>)
    ensures r.Some? ==> r.value < |t| && t[r.value].docId == id
    ensures r.Some? ==> forall j :: 0 <= j < r.value ==> t[j].docId != id
    ensures r.None? <==> forall j :: 0 <= j < |t| ==> t[j].docId != id
  {
    FirstIndex((x: Row<T>) => x.docId == id, t)
  }

  /** `ctx.db.insert`: the new row goes last and receives the store id `next`. */
  function Append<T>(t: seq<Row<T>>, next: nat, v: T): (r: seq<Row<T>>)
    ensures |r| == |t| + 1 && r[..|t|] == t
    ensures r[|t|].docId == next && r[|t|].val == v
    ensures TableOk(t, next) ==> TableOk(r, next + 1)
  {
    t + [Row(next, v)]
  }

  /** `ctx.db.delete(id)`: the row carrying store id `id` disappears. */
  function DeleteDoc<T(!new)>(t: seq<Row<T>>, id: nat): (r: seq<Row<T>>)
    ensures Selects(r, t, x => DocIdOf(x) !in {id})
  {
    Without(t, DocIdOf, {id})
  }

  /** `ctx.db.patch` of a row already found at position `i`: its fields become
      `v`, its store id and position stay. */
  function PatchAt<T>(t: seq<Row<T>>, i: nat, v: T): (r: seq<Row<T>>)
    requires i < |t|
    ensures |r| == |t| && r[i] == Row(t[i].docId, v)
    ensures forall j :: 0 <= j < |t| && j != i ==> r[j] == t[j]
    ensures forall n :: TableOk(t, n) ==> TableOk(r, n)
  {
    t[i := Row(t[i].docId, v)]
  }

  /** Deletes every question and every feedback row whose `sessionId` is `key`
      (the collected child rows, each deleted by its store id). */
  function PurgeChildren(st: Store, key: Key): (r: Store)
    ensures r.events == st.events && r.sessions == st.sessions && r.nextId == st.nextId
    ensures r.questions == Without(st.questions, QuestionKey, {key})
    ensures r.feedback == Without(st.feedback, FeedbackKey, {key})
    ensures Valid(st) ==> Valid(r)
  {
    WithoutTableOk(st.questions, QuestionKey, {key}, st.nextId);
    WithoutTableOk(st.feedback, FeedbackKey, {key}, st.nextId);
    st.(questions := Without(st.questions, QuestionKey, {key}),
        feedback := Without(st.feedback, FeedbackKey, {key}))
  }

  /** Removing rows never breaks the uniqueness of store ids. */
  lemma {:induction false} FilterTableOk<T(!new)>(p: Row<T> -> bool, t: seq<Row<T>>, n: nat)
    requires TableOk(t, n)
    ensures TableOk(Filter(p, t), n)
    decreases |t|
  {
    if |t| > 0 {
      TableOkTail(t, n);
      FilterTableOk(p, t[1..], n);
      if p(t[0]) {
        var rest := Filter(p, t[1..]);
        forall y | y in rest
          ensures y.docId != t[0].docId
        {
          assert y in t[1..];
          FreshAgainstTail(t, n, y);
        }
        ConsTableOk(t[0], rest, n);
      }
    }
  }

  lemma TableOkTail<T>(t: seq<Row<T>>, n: nat)
    requires TableOk(t, n) && |t| > 0
    ensures TableOk(t[1..], n)
  {
    forall i, j | 0 <= i < j < |t[1..]|
      ensures t[1..][i].docId != t[1..][j].docId
    {
      assert t[1..][i] == t[i + 1] && t[1..][j] == t[j + 1];
    }
  }

  lemma FreshAgainstTail<T>(t: seq<Row<T>>, n: nat, y: Row<T>)
    requires TableOk(t, n) && |t| > 0 && y in t[1..]
    ensures y.docId != t[0].docId
  {
    var k :| 0 <= k < |t[1..]| && t[1..][k] == y;
    assert t[k + 1] == y;
  }

  lemma ConsTableOk<T>(x: Row<T>, rest: seq<Row<T>>, n: nat)
    requires TableOk(rest, n) && x.docId < n
    requires forall y | y in rest :: y.docId != x.docId
    ensures TableOk([x] + rest, n)
  {
    var r := [x] + rest;
    forall i | 0 <= i < |r|
      ensures r[i].docId < n
    {
      if i > 0 {
        assert r[i] == rest[i - 1];
      }
    }
    forall i, j | 0 <= i < j < |r|
      ensures r[i].docId != r[j].docId
    {
      assert r[j] == rest[j - 1];
      if i > 0 {
        assert r[i] == rest[i - 1];
      } else {
        assert rest[j - 1] in rest;
      }
    }
  }

  /** A selection from a valid table is a valid table. */
  lemma SelectsTableOk<T(!new)>(r: seq<Row<T>>, t: seq<Row<T>>, p: Row<T> -> bool, n: nat)
    requires Selects(r, t, p)
    ensures TableOk(t, n) ==> TableOk(r, n)
  {
    if TableOk(t, n) {
      SelectsIsFilter(r, t, p);
      FilterTableOk(p, t, n);
    }
  }

  lemma WithoutTableOk<T(!new), K>(t: seq<Row<T>>, key: Row<T> -> K, ks: set<K>, n: nat)
    ensures TableOk(t, n) ==> TableOk(Without(t, key, ks), n)
  {
    SelectsTableOk(Without(t, key, ks), t, x => key(x) !in ks, n);
  }

  /** With unique store ids, deleting the id found at position `i` removes exactly
      that row and keeps the others in order. */
  lemma DeleteDocAt<T(!new)>(t: seq<Row<T>>, i: nat, n: nat)
    requires i < |t|
    ensures TableOk(t, n) ==> DeleteDoc(t, t[i].docId) == RemoveAt(t, i)
  {
    if TableOk(t, n) {
      var id := t[i].docId;
      var p := (x: Row<T>) => DocIdOf(x) !in {id};
      FilterDropsOne(p, t, i);
      SelectsIsFilter(DeleteDoc(t, id), t, p);
    }
  }

  /** Two rows of a valid table with the same store id are the same row. */
  lemma SameIdSameRow<T>(t: seq<Row<T>>, n: nat, a: Row<T>, b: Row<T>)
    requires TableOk(t, n) && a in t && b in t && a.docId == b.docId
    ensures a == b
  {
    var i :| 0 <= i < |t| && t[i] == a;
    var j :| 0 <= j < |t| && t[j] == b;
    assert i == j;
  }

  /** Removing position `i` of a valid table removes its store id altogether. */
  lemma RemoveAtDropsId<T>(t: seq<Row<T>>, i: nat, n: nat)
    requires TableOk(t, n) && i < |t|
    ensures forall x | x in RemoveAt(t, i) :: x.docId != t[i].docId
  {
    var r := RemoveAt(t, i);
    forall x | x in r
      ensures x.docId != t[i].docId
    {
      var k :| 0 <= k < |r| && r[k] == x;
      if k >= i {
        assert x == t[k + 1];
      }
    }
  }
}
