/** convex/sessionFeedback.ts: the feedback table looked up by session.
    `Upsert` (query-then-patch-or-insert) is shared with `updateSessionFeedback`
    in convex/events.ts, which calls it with a different kind of key. */
module SessionFeedback {
  import opened Seqs
  import opened Schema

  /** The query filter `sessionId == key`. */
  function For(key: Key): Row<Feedback> -> bool {
    (f: Row<Feedback>) => f.val.sessionId == key
  }

  /** Every feedback row of `key`, in table order (`.collect()`). */
  function RowsFor(t: seq<Row<Feedback>>, key: Key): seq<Row<Feedback>> {
    Filter(For(key), t)
  }

  /** Position of the row `.first()` returns for `key`. */
  function FirstFor(t: seq<Row<Feedback>>, key: Key): (r: Option<nat>)
    ensures r.Some? ==> r.value < |t| && t[r.value].val.sessionId == key
    ensures r.Some? ==> forall j :: 0 <= j < r.value ==> t[j].val.sessionId != key
    ensures r.None? <==> forall j :: 0 <= j < |t| ==> t[j].val.sessionId != key
  {
    FirstIndex(For(key), t)
  }

  /** The fields a caller may supply to `update`; `None` is an omitted argument. */
  datatype FeedbackPatch = FeedbackPatch(rating: Option<int>, tags: Option<seq<string>>, comment: Option<string>)

  /** One call's arguments to `updateSessionFeedback`. */
  datatype FeedbackArgs = FeedbackArgs(rating: int, tags: seq<string>, comment: string)

  /** JavaScript `x || d` on an optional number: `undefined` and `0` are falsy. */
  function OrNumber(x: Option<int>, d: int): int {
    if x.Some? && x.value != 0 then x.value else d
  }

  /** JavaScript `x || d` on an optional string: `undefined` and `''` are falsy. */
  function OrString(x: Option<string>, d: string): string {
    if x.Some? && x.value != "" then x.value else d
  }

  /** JavaScript `x || d` on an optional array: every array is truthy. */
  function OrArray(x: Option<seq<string>>, d: seq<string>): seq<string> {
    if x.Some? then x.value else d
  }

  /** `ctx.db.patch` with the supplied fields: omitted ones keep their value. */
  function ApplyPatch(f: Feedback, p: FeedbackPatch): (r: Feedback)
    ensures r.sessionId == f.sessionId
    ensures r.rating == (if p.rating.Some? then p.rating.value else f.rating)
    ensures r.tags == (if p.tags.Some? then p.tags.value else f.tags)
    ensures r.comment == (if p.comment.Some? then p.comment.value else f.comment)
  {
    Feedback(f.sessionId, p.rating.GetOr(f.rating), p.tags.GetOr(f.tags), p.comment.GetOr(f.comment))
  }

  /** `getBySessionId`: the first feedback row of the session, or null. */
  function GetBySessionId(st: Store, sessionId: nat): (r: Option<Row<Feedback>>)
    ensures r.None? <==> forall f | f in st.feedback :: f.val.sessionId != Doc(sessionId)
    ensures r.Some? ==> r.value in st.feedback && r.value.val.sessionId == Doc(sessionId)
    ensures r.Some? ==> RowsFor(st.feedback, Doc(sessionId))[0] == r.value
  {
    match FirstFor(st.feedback, Doc(sessionId))
    case None => None
    case Some(i) =>
      RowsForSplit(st.feedback, Doc(sessionId), i);
      Some(st.feedback[i])
  }

  /** `create`: inserts one feedback row; nothing else changes. */
  function Create(st: Store, sessionId: nat, rating: int, tags: seq<string>, comment: string): (r: (Store, nat))
    ensures r.0.feedback == st.feedback + [Row(r.1, Feedback(Doc(sessionId), rating, tags, comment))]
    ensures r.0.events == st.events && r.0.sessions == st.sessions && r.0.questions == st.questions
    ensures Valid(st) ==> Valid(r.0) && forall f | f in st.feedback :: f.docId != r.1
  {
    var st' := st.(feedback := Append(st.feedback, st.nextId, Feedback(Doc(sessionId), rating, tags, comment)),
                   nextId := st.nextId + 1);
    (st', st.nextId)
  }

  /** What the handler returns after `ctx.db.patch` (nothing) or after
      `ctx.db.insert` (the new row's store id), for a lookup of `key`. */
  function Returned(st: Store, key: Key): (r: Option<nat>)
    ensures r.Some? <==> FirstFor(st.feedback, key).None?
    ensures Valid(st) && r.Some? ==> forall x | x in st.feedback :: x.docId != r.value
  {
    if FirstFor(st.feedback, key).Some? then None else Some(st.nextId)
  }

  /** `update`: patches the supplied fields of the session's first feedback row,
      or, when it has none, inserts a row with 0 / [] / '' for omitted fields and
      returns its store id. */
  function Update(st: Store, sessionId: nat, p: FeedbackPatch): (res: (Store, Option<nat>))
    ensures res.1 == Returned(st, Doc(sessionId))
    ensures res.1.Some? ==> |res.0.feedback| > |st.feedback| && res.0.feedback[|st.feedback|].docId == res.1.value
    ensures res.0.events == st.events && res.0.sessions == st.sessions && res.0.questions == st.questions
    ensures |st.feedback| <= |res.0.feedback| <= |st.feedback| + 1
    ensures forall j :: 0 <= j < |st.feedback| && st.feedback[j].val.sessionId != Doc(sessionId)
              ==> res.0.feedback[j] == st.feedback[j]
    ensures FirstFor(st.feedback, Doc(sessionId)).Some? ==>
              var i := FirstFor(st.feedback, Doc(sessionId)).value;
              && |res.0.feedback| == |st.feedback|
              && res.0.feedback[i] == Row(st.feedback[i].docId, ApplyPatch(st.feedback[i].val, p))
              && forall j :: 0 <= j < |st.feedback| && j != i ==> res.0.feedback[j] == st.feedback[j]
    ensures FirstFor(st.feedback, Doc(sessionId)).None? ==>
              && res.0.feedback[..|st.feedback|] == st.feedback
              && |res.0.feedback| == |st.feedback| + 1
              && res.0.feedback[|st.feedback|].val
                 == Feedback(Doc(sessionId), p.rating.GetOr(0), p.tags.GetOr([]), p.comment.GetOr(""))
    ensures GetBySessionId(res.0, sessionId).Some?
    ensures Valid(st) ==> Valid(res.0)
  {
    var key := Doc(sessionId);
    match FirstFor(st.feedback, key)
    case Some(i) =>
      var r := st.(feedback := PatchAt(st.feedback, i, ApplyPatch(st.feedback[i].val, p)));
      assert r.feedback[i].val.sessionId == key;
      (r, None)
    case None =>
      var row := Feedback(key, OrNumber(p.rating, 0), OrArray(p.tags, []), OrString(p.comment, ""));
      var r := st.(feedback := Append(st.feedback, st.nextId, row), nextId := st.nextId + 1);
      assert r.feedback[|st.feedback|].val.sessionId == key;
      (r, Some(st.nextId))
  }

  /** `remove`: deletes the session's first feedback row only. */
  function Remove(st: Store, sessionId: nat): (r: Store)
    ensures r.events == st.events && r.sessions == st.sessions && r.questions == st.questions
    ensures r.nextId == st.nextId
    ensures FirstFor(st.feedback, Doc(sessionId)).None? ==> r.feedback == st.feedback
    ensures Valid(st) && FirstFor(st.feedback, Doc(sessionId)).Some? ==>
              r.feedback == RemoveAt(st.feedback, FirstFor(st.feedback, Doc(sessionId)).value)
    ensures Valid(st) ==> Valid(r)
  {
    match FirstFor(st.feedback, Doc(sessionId))
    case None => st
    case Some(i) =>
      DeleteDocAt(st.feedback, i, st.nextId);
      WithoutTableOk(st.feedback, DocIdOf, {st.feedback[i].docId}, st.nextId);
      st.(feedback := DeleteDoc(st.feedback, st.feedback[i].docId))
  }

  /** The insert-or-patch both `updateSessionFeedback` handlers perform: the
      first row of `key` takes all three values, or one row is inserted. */
  function Upsert(st: Store, key: Key, a: FeedbackArgs): (r: Store)
    ensures r.events == st.events && r.sessions == st.sessions && r.questions == st.questions
    ensures match FirstFor(st.feedback, key)
      case Some(i) =>
        && |r.feedback| == |st.feedback| && r.nextId == st.nextId
        && r.feedback[i] == Row(st.feedback[i].docId, Feedback(key, a.rating, a.tags, a.comment))
        && forall j :: 0 <= j < |st.feedback| && j != i ==> r.feedback[j] == st.feedback[j]
      case None =>
        && |r.feedback| == |st.feedback| + 1 && r.nextId == st.nextId + 1
        && r.feedback[..|st.feedback|] == st.feedback
        && r.feedback[|st.feedback|] == Row(st.nextId, Feedback(key, a.rating, a.tags, a.comment))
    ensures Valid(st) ==> Valid(r)
  {
    var v := Feedback(key, a.rating, a.tags, a.comment);
    match FirstFor(st.feedback, key)
    case Some(i) => st.(feedback := PatchAt(st.feedback, i, v))
    case None => st.(feedback := Append(st.feedback, st.nextId, v), nextId := st.nextId + 1)
  }

  /** `updateSessionFeedback` of this file, keyed by the session's store id; it
      returns the new row's store id when it inserts. */
  function UpdateSessionFeedback(st: Store, sessionId: nat, a: FeedbackArgs): (res: (Store, Option<nat>))
    ensures res.1 == Returned(st, Doc(sessionId))
    ensures res.1.Some? ==> |res.0.feedback| > |st.feedback| && res.0.feedback[|st.feedback|].docId == res.1.value
    ensures Valid(st) ==> Valid(res.0)
    ensures var rows := RowsFor(res.0.feedback, Doc(sessionId));
      |rows| > 0 && rows[0].val == Feedback(Doc(sessionId), a.rating, a.tags, a.comment)
  {
    UpsertEffect(st, Doc(sessionId), a);
    (Upsert(st, Doc(sessionId), a), Returned(st, Doc(sessionId)))
  }

  /** Applies the calls in order, as a client submitting feedback repeatedly would. */
  function UpsertAll(st: Store, key: Key, calls: seq<FeedbackArgs>): Store
    decreases |calls|
  {
    if |calls| == 0 then st else UpsertAll(Upsert(st, key, calls[0]), key, calls[1..])
  }

  // ---------------------------------------------------------------------------
  // Properties

  /** The rows of `key` start with the one `.first()` finds. */
  lemma RowsForSplit(t: seq<Row<Feedback>>, key: Key, i: nat)
    requires FirstFor(t, key) == Some(i)
    ensures RowsFor(t, key) == [t[i]] + RowsFor(t[i + 1..], key)
  {
    var p := For(key);
    assert t == t[..i] + ([t[i]] + t[i + 1..]);
    FilterAppend(p, t[..i], [t[i]] + t[i + 1..]);
    FilterAppend(p, [t[i]], t[i + 1..]);
    FilterSingle(p, t[i]);
    FilterNone(p, t[..i]);
  }

  /** Patching position `i` with a row of the same session keeps the rows of that
      session in place, with the patched row substituted. */
  lemma RowsForPatch(t: seq<Row<Feedback>>, i: nat, v: Feedback, key: Key)
    requires i < |t| && t[i].val.sessionId == key && v.sessionId == key
    ensures RowsFor(PatchAt(t, i, v), key)
         == RowsFor(t[..i], key) + [Row(t[i].docId, v)] + RowsFor(t[i + 1..], key)
  {
    FilterUpdate(For(key), t, i, Row(t[i].docId, v));
    FilterSingle(For(key), Row(t[i].docId, v));
  }

  /** What one upsert does to the rows of its own session: they keep their count,
      or grow from none to one, and the first of them holds the new values. */
  lemma UpsertEffect(st: Store, key: Key, a: FeedbackArgs)
    ensures var before, after := RowsFor(st.feedback, key), RowsFor(Upsert(st, key, a).feedback, key);
      && |after| == (if |before| == 0 then 1 else |before|)
      && after[0].val == Feedback(key, a.rating, a.tags, a.comment)
      && (|before| > 0 ==> after[1..] == before[1..] && after[0].docId == before[0].docId)
  {
    var t := st.feedback;
    var v := Feedback(key, a.rating, a.tags, a.comment);
    match FirstFor(t, key)
    case Some(i) =>
      RowsForSplit(t, key, i);
      RowsForPatch(t, i, v, key);
      FilterNone(For(key), t[..i]);
    case None =>
      FilterNone(For(key), t);
      FilterAppend(For(key), t, [Row(st.nextId, v)]);
      assert [Row(st.nextId, v)][1..] == [];
  }

  /** One upsert leaves the rows of every other session untouched. */
  lemma UpsertIsolated(st: Store, key: Key, a: FeedbackArgs, k: Key)
    requires k != key
    ensures RowsFor(Upsert(st, key, a).feedback, k) == RowsFor(st.feedback, k)
  {
    var t := st.feedback;
    var v := Feedback(key, a.rating, a.tags, a.comment);
    match FirstFor(t, key)
    case Some(i) =>
      RowsForPatchOther(t, i, v, k);
    case None =>
      FilterAppend(For(k), t, [Row(st.nextId, v)]);
      assert [Row(st.nextId, v)][1..] == [];
  }

  /** Patching a row that belongs to neither side of `k` leaves the rows of `k` alone. */
  lemma RowsForPatchOther(t: seq<Row<Feedback>>, i: nat, v: Feedback, k: Key)
    requires i < |t| && t[i].val.sessionId != k && v.sessionId != k
    ensures RowsFor(PatchAt(t, i, v), k) == RowsFor(t, k)
  {
    FilterUpdate(For(k), t, i, Row(t[i].docId, v));
    FilterSingle(For(k), Row(t[i].docId, v));
    FilterUpdate(For(k), t, i, t[i]);
    FilterSingle(For(k), t[i]);
    assert t[i := t[i]] == t;
  }

  /** Repeated submissions for one session, starting from at most one row for it,
      leave exactly one row, holding the last call's values. */
  lemma {:induction false} UpsertConverges(st: Store, key: Key, calls: seq<FeedbackArgs>)
    requires |calls| > 0
    requires |RowsFor(st.feedback, key)| <= 1
    ensures var rows := RowsFor(UpsertAll(st, key, calls).feedback, key);
      && |rows| == 1
      && rows[0].val == Feedback(key, calls[|calls| - 1].rating, calls[|calls| - 1].tags, calls[|calls| - 1].comment)
    decreases |calls|
  {
    UpsertEffect(st, key, calls[0]);
    if |calls| > 1 {
      UpsertConverges(Upsert(st, key, calls[0]), key, calls[1..]);
    }
  }

  /** The rows of other sessions are unaffected by any number of upserts. */
  lemma {:induction false} UpsertAllIsolated(st: Store, key: Key, calls: seq<FeedbackArgs>, other: Key)
    requires other != key
    ensures RowsFor(UpsertAll(st, key, calls).feedback, other) == RowsFor(st.feedback, other)
    decreases |calls|
  {
    if |calls| > 0 {
      UpsertIsolated(st, key, calls[0], other);
      UpsertAllIsolated(Upsert(st, key, calls[0]), key, calls[1..], other);
    }
  }

  /** Feedback created for a session that had none is what `getBySessionId`
      then returns; a session that already had feedback still returns its old
      first row. */
  lemma CreateThenGet(st: Store, sessionId: nat, rating: int, tags: seq<string>, comment: string)
    ensures var (r, docId) := Create(st, sessionId, rating, tags, comment);
      GetBySessionId(r, sessionId)
        == if GetBySessionId(st, sessionId).None? then Some(Row(docId, Feedback(Doc(sessionId), rating, tags, comment)))
           else GetBySessionId(st, sessionId)
  {
    var (r, docId) := Create(st, sessionId, rating, tags, comment);
    var key := Doc(sessionId);
    var row := Row(docId, Feedback(key, rating, tags, comment));
    FilterAppend(For(key), st.feedback, [row]);
    FilterSingle(For(key), row);
    if GetBySessionId(st, sessionId).None? {
      FilterNone(For(key), st.feedback);
    }
  }

  /** `remove` deletes only the first row of the session: the others remain. */
  lemma RemoveFirstOnly(st: Store, sessionId: nat)
    requires Valid(st)
    ensures var before := RowsFor(st.feedback, Doc(sessionId));
      RowsFor(Remove(st, sessionId).feedback, Doc(sessionId)) == if |before| == 0 then [] else before[1..]
  {
    var key := Doc(sessionId);
    var t := st.feedback;
    match FirstFor(t, key)
    case None =>
      FilterNone(For(key), t);
    case Some(i) =>
      assert Remove(st, sessionId).feedback == RemoveAt(t, i);
      RowsAfterFirst(t, key, i);
  }

  /** Cutting out the first row of `key` drops exactly the head of its rows. */
  lemma RowsAfterFirst(t: seq<Row<Feedback>>, key: Key, i: nat)
    requires FirstFor(t, key) == Some(i)
    ensures RowsFor(RemoveAt(t, i), key) == RowsFor(t, key)[1..]
  {
    assert RemoveAt(t, i) == t[..i] + t[i + 1..];
    RowsForSplit(t, key, i);
    FilterNone(For(key), t[..i]);
    FilterAppend(For(key), t[..i], t[i + 1..]);
  }
}
