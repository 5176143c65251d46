/** convex/questions.ts: questions and raised hands of a session, joined on the
    session's store id. A raised hand is a question row with `isHandRaise` set. */
module Questions {
  import opened Seqs
  import opened Schema

  /** The query filter `sessionId == key`. */
  function For(key: Key): Row<Question> -> bool {
    (q: Row<Question>) => q.val.sessionId == key
  }

  /** Every question row of `key`, in table order. */
  function RowsFor(t: seq<Row<Question>>, key: Key): seq<Row<Question>> {
    Filter(For(key), t)
  }

  /** The fields a caller may supply to `update`; `None` is an omitted argument. */
  datatype QuestionPatch = QuestionPatch(text: Option<string>, author: Option<string>, isHandRaise: Option<bool>)

  /** `ctx.db.patch` with the supplied fields: omitted ones keep their value. */
  function ApplyPatch(q: Question, p: QuestionPatch): (r: Question)
    ensures r.id == q.id && r.sessionId == q.sessionId && r.timestamp == q.timestamp
    ensures r.text == (if p.text.Some? then p.text else q.text)
    ensures r.author == (if p.author.Some? then p.author.value else q.author)
    ensures r.isHandRaise == (if p.isHandRaise.Some? then p.isHandRaise else q.isHandRaise)
  {
    q.(text := if p.text.Some? then p.text else q.text,
       author := p.author.GetOr(q.author),
       isHandRaise := if p.isHandRaise.Some? then p.isHandRaise else q.isHandRaise)
  }

  /** JavaScript `!flag` on an optional boolean: `undefined` is falsy. */
  function Negate(flag: Option<bool>): bool {
    !(flag == Some(true))
  }

  /** `getBySessionId`: the session's questions, in table order. */
  function GetBySessionId(st: Store, sessionId: nat): (r: seq<Row<Question>>)
    ensures Selects(r, st.questions, (q: Row<Question>) => q.val.sessionId == Doc(sessionId))
  {
    FilterSelects(For(Doc(sessionId)), st.questions);
    RowsFor(st.questions, Doc(sessionId))
  }

  /** Inserting a question row: appended last under a fresh store id. */
  function Insert(st: Store, q: Question): (r: (Store, nat))
    ensures r.0.questions == st.questions + [Row(r.1, q)]
    ensures r.0.events == st.events && r.0.sessions == st.sessions && r.0.feedback == st.feedback
    ensures Valid(st) ==> Valid(r.0) && forall x | x in st.questions :: x.docId != r.1
  {
    (st.(questions := Append(st.questions, st.nextId, q), nextId := st.nextId + 1), st.nextId)
  }

  /** `create`: a question with the given text and optional hand-raise flag. */
  function Create(st: Store, sessionId: nat, text: string, author: string, isHandRaise: Option<bool>): (r: (Store, nat))
    ensures |r.0.questions| == |st.questions| + 1 && r.0.questions[..|st.questions|] == st.questions
    ensures r.0.questions[|st.questions|] == Row(r.1, Question(None, Doc(sessionId), Some(text), author, None, isHandRaise))
    ensures r.0.events == st.events && r.0.sessions == st.sessions && r.0.feedback == st.feedback
    ensures Valid(st) ==> Valid(r.0) && forall x | x in st.questions :: x.docId != r.1
  {
    Insert(st, Question(None, Doc(sessionId), Some(text), author, None, isHandRaise))
  }

  /** `update`: patches the supplied fields of the question, if it exists. */
  function Update(st: Store, id: nat, p: QuestionPatch): (r: Store)
    ensures r.events == st.events && r.sessions == st.sessions && r.feedback == st.feedback
    ensures |r.questions| == |st.questions| && r.nextId == st.nextId
    ensures forall j :: 0 <= j < |st.questions| && Find(st.questions, id) != Some(j) ==> r.questions[j] == st.questions[j]
    ensures forall j :: 0 <= j < |st.questions| && st.questions[j].docId == id && Find(st.questions, id) == Some(j)
              ==> r.questions[j] == Row(id, ApplyPatch(st.questions[j].val, p))
    ensures Find(st.questions, id).None? ==> r == st
    ensures Valid(st) ==> Valid(r)
  {
    match Find(st.questions, id)
    case None => st
    case Some(i) => st.(questions := PatchAt(st.questions, i, ApplyPatch(st.questions[i].val, p)))
  }

  /** `remove`: deletes the question, if it exists; the rest keep their order. */
  function Remove(st: Store, id: nat): (r: Store)
    ensures r.events == st.events && r.sessions == st.sessions && r.feedback == st.feedback
    ensures r.nextId == st.nextId
    ensures forall x | x in r.questions :: x in st.questions && x.docId != id
    ensures Find(st.questions, id).None? ==> r == st
    ensures Valid(st) && Find(st.questions, id).Some? ==>
              r.questions == RemoveAt(st.questions, Find(st.questions, id).value)
    ensures Valid(st) ==> Valid(r)
  {
    match Find(st.questions, id)
    case None => st
    case Some(i) =>
      DeleteDocAt(st.questions, i, st.nextId);
      WithoutTableOk(st.questions, DocIdOf, {id}, st.nextId);
      st.(questions := DeleteDoc(st.questions, id))
  }

  /** `toggleHandRaise`: writes the negation of the stored flag, so an unset
      flag becomes true; no row is added or removed. */
  function ToggleHandRaise(st: Store, id: nat): (r: Store)
    ensures r.events == st.events && r.sessions == st.sessions && r.feedback == st.feedback
    ensures |r.questions| == |st.questions| && r.nextId == st.nextId
    ensures Find(st.questions, id).None? ==> r == st
    ensures Find(st.questions, id).Some? ==>
              var i := Find(st.questions, id).value;
              && r.questions[i].docId == id
              && r.questions[i].val == st.questions[i].val.(isHandRaise := Some(st.questions[i].val.isHandRaise != Some(true)))
              && forall j :: 0 <= j < |st.questions| && j != i ==> r.questions[j] == st.questions[j]
    ensures Valid(st) ==> Valid(r)
  {
    match Find(st.questions, id)
    case None => st
    case Some(i) =>
      var q := st.questions[i].val;
      st.(questions := PatchAt(st.questions, i, q.(isHandRaise := Some(Negate(q.isHandRaise)))))
  }

  /** `askQuestion`: a question with text and no hand-raise flag. */
  function AskQuestion(st: Store, sessionId: nat, text: string, author: string): (r: (Store, nat))
    ensures |r.0.questions| == |st.questions| + 1 && r.0.questions[..|st.questions|] == st.questions
    ensures r.0.questions[|st.questions|] == Row(r.1, Question(None, Doc(sessionId), Some(text), author, None, None))
    ensures r.0.events == st.events && r.0.sessions == st.sessions && r.0.feedback == st.feedback
    ensures Valid(st) ==> Valid(r.0) && forall x | x in st.questions :: x.docId != r.1
  {
    Insert(st, Question(None, Doc(sessionId), Some(text), author, None, None))
  }

  /** `raiseHand`: always inserts a new row flagged as a raised hand, without
      text; existing rows, including earlier raised hands, are not touched. */
  function RaiseHand(st: Store, sessionId: nat, author: string): (r: (Store, nat))
    ensures |r.0.questions| == |st.questions| + 1 && r.0.questions[..|st.questions|] == st.questions
    ensures r.0.questions[|st.questions|] == Row(r.1, Question(None, Doc(sessionId), None, author, None, Some(true)))
    ensures r.0.events == st.events && r.0.sessions == st.sessions && r.0.feedback == st.feedback
    ensures Valid(st) ==> Valid(r.0) && forall x | x in st.questions :: x.docId != r.1
  {
    Insert(st, Question(None, Doc(sessionId), None, author, None, Some(true)))
  }

  // ---------------------------------------------------------------------------
  // Properties

  /** Toggling twice restores a flag that was set (true or false). */
  lemma ToggleTwiceRestores(st: Store, id: nat)
    requires Find(st.questions, id).Some?
    requires st.questions[Find(st.questions, id).value].val.isHandRaise.Some?
    ensures ToggleHandRaise(ToggleHandRaise(st, id), id) == st
  {
    var i := Find(st.questions, id).value;
    var once := ToggleHandRaise(st, id);
    assert Find(once.questions, id) == Some(i) by {
      assert forall j :: 0 <= j < i ==> once.questions[j] == st.questions[j];
    }
    var twice := ToggleHandRaise(once, id);
    var flag := st.questions[i].val.isHandRaise;
    assert once.questions[i].val.isHandRaise == Some(flag != Some(true));
    assert twice.questions[i].val.isHandRaise == Some(once.questions[i].val.isHandRaise != Some(true));
    if flag.value {
      assert once.questions[i].val.isHandRaise == Some(false);
    } else {
      assert once.questions[i].val.isHandRaise == Some(true);
    }
    assert twice.questions[i] == st.questions[i];
    assert forall j :: 0 <= j < |st.questions| ==> twice.questions[j] == st.questions[j];
  }

  /** An unset flag does not come back: toggling twice leaves it false. */
  lemma ToggleTwiceUnset(st: Store, id: nat)
    requires Find(st.questions, id).Some?
    requires st.questions[Find(st.questions, id).value].val.isHandRaise.None?
    ensures var i := Find(st.questions, id).value;
      ToggleHandRaise(ToggleHandRaise(st, id), id).questions[i].val.isHandRaise == Some(false)
  {
    var i := Find(st.questions, id).value;
    var once := ToggleHandRaise(st, id);
    assert Find(once.questions, id) == Some(i) by {
      assert forall j :: 0 <= j < i ==> once.questions[j] == st.questions[j];
    }
  }

  /** An inserted question is listed last under its own session and changes no
      other session's listing. */
  lemma InsertIsListed(st: Store, q: Question, sessionId: nat)
    ensures var (r, docId) := Insert(st, q);
      GetBySessionId(r, sessionId)
        == GetBySessionId(st, sessionId) + (if q.sessionId == Doc(sessionId) then [Row(docId, q)] else [])
  {
    var (r, docId) := Insert(st, q);
    FilterAppend(For(Doc(sessionId)), st.questions, [Row(docId, q)]);
    FilterSingle(For(Doc(sessionId)), Row(docId, q));
  }

  /** An update that supplies no field leaves the store as it was. */
  lemma UpdateNoChange(st: Store, id: nat)
    ensures Update(st, id, QuestionPatch(None, None, None)) == st
  {
    match Find(st.questions, id)
    case None =>
    case Some(i) =>
      assert ApplyPatch(st.questions[i].val, QuestionPatch(None, None, None)) == st.questions[i].val;
      assert PatchAt(st.questions, i, st.questions[i].val) == st.questions;
  }

  /** After `remove` the question is gone for good: a second `remove` or an
      `update` of it finds nothing. */
  lemma RemoveThenGone(st: Store, id: nat)
    requires Valid(st)
    ensures Find(Remove(st, id).questions, id).None?
  {
    if Find(st.questions, id).Some? {
      RemoveAtDropsId(st.questions, Find(st.questions, id).value, st.nextId);
    }
  }

  /** A raised hand and a question both show up in the session's listing:
      the new row is the last question of its session. */
  lemma RaisedHandIsListed(st: Store, sessionId: nat, author: string)
    ensures var r := RaiseHand(st, sessionId, author);
      GetBySessionId(r.0, sessionId) == GetBySessionId(st, sessionId) + [r.0.questions[|st.questions|]]
  {
    var r := RaiseHand(st, sessionId, author);
    assert r.0.questions == st.questions + [r.0.questions[|st.questions|]];
    FilterAppend(For(Doc(sessionId)), st.questions, [r.0.questions[|st.questions|]]);
    FilterSingle(For(Doc(sessionId)), r.0.questions[|st.questions|]);
  }
}
