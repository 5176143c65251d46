/** src/app/event/create/page.tsx: the state of the create-event form and its
    handlers. Each handler is a pure update of the form; `SubmitSessions` is the
    loop of `handleSubmit` that creates the sessions of the new event. */
module CreateForm {
  import opened Seqs
  import opened Schema
  import opened Text
  import Sessions

  /** A session drafted in the form. Its `id` is a client-side id (`Date.now()` as
      a string); the times are the strings of the date-time inputs. */
  datatype Draft = Draft(
    id: string,
    title: string,
    kind: string,
    startTime: string,
    endTime: string,
    speaker: Option<SessionSpeaker>,
    description: Option<string>,
    videoLink: Option<string>)

  /** The blank session of the dialog. */
  const BlankDraft := Draft("", "", "talk", "", "", None, Some(""), Some(""))

  /** The blank speaker of the dialog. */
  const BlankSpeaker := Speaker("", "", Some(""))

  /** The parts of the form state the handlers touch. */
  datatype Form = Form(
    tags: seq<string>,
    speakers: seq<Speaker>,
    sessions: seq<Draft>,
    openSessions: seq<string>,
    tagInput: string,
    newSpeaker: Speaker,
    newSession: Draft,
    speakerDialogOpen: bool,
    sessionDialogOpen: bool)

  /** No value occurs twice. */
  predicate NoDup<T(==)>(s: seq<T>) {
    forall i, j :: 0 <= i < j < |s| ==> s[i] != s[j]
  }

  /** The test `y !== x` of a `filter` callback. */
  function Other<T(==)>(x: T): T -> bool {
    (y: T) => y != x
  }

  /** `toggleSession`: removes every copy of `id` from `openSessions` when it is
      there, appends it otherwise. */
  function ToggleSession(f: Form, id: string): (r: Form)
    ensures r.(openSessions := f.openSessions) == f
    ensures id in r.openSessions <==> id !in f.openSessions
    ensures forall x | x != id :: x in r.openSessions <==> x in f.openSessions
  {
    if id in f.openSessions then f.(openSessions := Filter(Other(id), f.openSessions))
    else f.(openSessions := f.openSessions + [id])
  }

  /** `addTag`: appends the trimmed input when it is non-empty and not yet a tag,
      and then clears the input; otherwise nothing changes. */
  function AddTag(f: Form): (r: Form)
    ensures var t := Trim(f.tagInput);
      if t != "" && t !in f.tags then
        && AppendsLast(r.tags, f.tags, t) && r.tagInput == ""
        && r.(tags := f.tags, tagInput := f.tagInput) == f
      else r == f
    ensures NoDup(f.tags) ==> NoDup(r.tags)
  {
    var t := Trim(f.tagInput);
    if t != "" && t !in f.tags then f.(tags := f.tags + [t], tagInput := "") else f
  }

  /** `removeTag`: drops every copy of the tag, keeping the others in order. */
  function RemoveTag(f: Form, tag: string): (r: Form)
    ensures r.(tags := f.tags) == f
    ensures Selects(r.tags, f.tags, Other(tag))
  {
    FilterSelects(Other(tag), f.tags);
    f.(tags := Filter(Other(tag), f.tags))
  }

  /** `addSpeaker`: when the trimmed name and role are both non-empty, appends
      the speaker as typed (untrimmed), resets the dialog and closes it. */
  function AddSpeaker(f: Form): (r: Form)
    ensures Trim(f.newSpeaker.name) == "" || Trim(f.newSpeaker.role) == "" ==> r == f
    ensures Trim(f.newSpeaker.name) != "" && Trim(f.newSpeaker.role) != "" ==>
              && AppendsLast(r.speakers, f.speakers, f.newSpeaker)
              && r.newSpeaker == BlankSpeaker && !r.speakerDialogOpen
              && r.(speakers := f.speakers, newSpeaker := f.newSpeaker, speakerDialogOpen := f.speakerDialogOpen) == f
  {
    var s := f.newSpeaker;
    if Trim(s.name) != "" && Trim(s.role) != "" then
      f.(speakers := f.speakers + [s], newSpeaker := BlankSpeaker, speakerDialogOpen := false)
    else f
  }

  /** `list.filter((_, i) => i !== index)`, the callback seeing positions from `from` on. */
  function DropPosition<T>(s: seq<T>, index: int, from: int): (r: seq<T>)
    ensures from <= index < from + |s| ==> r == RemoveAt(s, index - from)
    ensures !(from <= index < from + |s|) ==> r == s
    decreases |s|
  {
    if |s| == 0 then []
    else
      var rest := DropPosition(s[1..], index, from + 1);
      if from == index then
        assert rest == s[1..];
        rest
      else
        assert [s[0]] + s[1..] == s;
        [s[0]] + rest
  }

  /** `removeSpeaker`: drops the speaker at position `index`; any other index
      leaves the list as it is. */
  function RemoveSpeaker(f: Form, index: int): (r: Form)
    ensures r.(speakers := f.speakers) == f
    ensures 0 <= index < |f.speakers| ==> r.speakers == RemoveAt(f.speakers, index)
    ensures !(0 <= index < |f.speakers|) ==> r == f
  {
    f.(speakers := DropPosition(f.speakers, index, 0))
  }

  function DigitChar(d: nat): char
    requires d < 10
  {
    ['0', '1', '2', '3', '4', '5', '6', '7', '8', '9'][d]
  }

  /** A non-empty string of decimal digits. */
  predicate IsDecimal(s: string) {
    |s| > 0 && forall i :: 0 <= i < |s| ==> '0' <= s[i] <= '9'
  }

  /** `n.toString()` for a non-negative integer. */
  function Decimal(n: nat): (r: string)
    ensures IsDecimal(r)
  {
    if n < 10 then [DigitChar(n)] else Decimal(n / 10) + [DigitChar(n % 10)]
  }

  /** Ten to the power `k`. */
  function Pow10(k: nat): nat {
    if k == 0 then 1 else 10 * Pow10(k - 1)
  }

  /** The number a string of decimal digits denotes; `k` digits stay below 10^k. */
  function Value(s: string): (r: nat)
    requires forall i :: 0 <= i < |s| ==> '0' <= s[i] <= '9'
    ensures r < Pow10(|s|)
  {
    if |s| == 0 then 0
    else Value(s[..|s| - 1]) * 10 + ((s[|s| - 1] as int) - ('0' as int))
  }

  /** `Value` reads back what `Decimal` writes. */
  lemma {:induction false} DecimalRoundTrip(n: nat)
    ensures Value(Decimal(n)) == n
  {
    if n >= 10 {
      DecimalRoundTrip(n / 10);
      var s := Decimal(n);
      assert s[..|s| - 1] == Decimal(n / 10);
    }
  }

  /** Distinct clock readings give distinct ids, and equal ones equal ids. */
  lemma DecimalInjective(a: nat, b: nat)
    ensures Decimal(a) == Decimal(b) <==> a == b
  {
    if Decimal(a) == Decimal(b) {
      DecimalRoundTrip(a);
      DecimalRoundTrip(b);
    }
  }

  /** `addSession`: when the trimmed title and both times are non-empty, appends
      the drafted session under the id `now.toString()`, opens it, resets the
      dialog and closes it. `now` is the value of `Date.now()`. */
  function AddSession(f: Form, now: nat): (r: Form)
    ensures Trim(f.newSession.title) == "" || f.newSession.startTime == "" || f.newSession.endTime == "" ==> r == f
    ensures Trim(f.newSession.title) != "" && f.newSession.startTime != "" && f.newSession.endTime != "" ==>
              && AppendsLast(r.sessions, f.sessions, f.newSession.(id := Decimal(now)))
              && AppendsLast(r.openSessions, f.openSessions, Decimal(now))
              && r.newSession == BlankDraft && !r.sessionDialogOpen
              && r.(sessions := f.sessions, openSessions := f.openSessions,
                    newSession := f.newSession, sessionDialogOpen := f.sessionDialogOpen) == f
  {
    var d := f.newSession;
    if Trim(d.title) != "" && d.startTime != "" && d.endTime != "" then
      var s := d.(id := Decimal(now));
      f.(sessions := f.sessions + [s], openSessions := f.openSessions + [s.id],
         newSession := BlankDraft, sessionDialogOpen := false)
    else f
  }

  /** The test `session.id !== id` of a `filter` callback. */
  function OtherDraft(id: string): Draft -> bool {
    (d: Draft) => d.id != id
  }

  /** `removeSession`: drops every drafted session with that id and the id from
      `openSessions`. */
  function RemoveSession(f: Form, id: string): (r: Form)
    ensures r.(sessions := f.sessions, openSessions := f.openSessions) == f
    ensures Selects(r.sessions, f.sessions, OtherDraft(id))
    ensures Selects(r.openSessions, f.openSessions, Other(id))
  {
    var ss := Filter(OtherDraft(id), f.sessions);
    var os := Filter(Other(id), f.openSessions);
    FilterSelects(OtherDraft(id), f.sessions);
    FilterSelects(Other(id), f.openSessions);
    f.(sessions := ss, openSessions := os)
  }

  /** The arguments `handleSubmit` passes to `sessions.create` for one draft:
      the event's store id, the parsed times, and both flags false. `parse` is
      `new Date(text).getTime()`. */
  function ToNew(d: Draft, eventId: nat, parse: string -> int): Sessions.NewSession {
    Sessions.NewSession(eventId, d.title, d.kind, parse(d.startTime), parse(d.endTime),
                        false, false, d.speaker, d.description, d.videoLink)
  }

  /** Session `s` is what `handleSubmit` stores for draft `d`: attached to the
      event by store id, the draft's text fields, the parsed times, and neither
      completed nor active. */
  predicate Submitted(s: Session, d: Draft, eventId: nat, parse: string -> int) {
    && s.id.None? && s.eventId == Doc(eventId)
    && s.title == d.title && s.kind == d.kind
    && s.startTime == parse(d.startTime) && s.endTime == parse(d.endTime)
    && !s.completed && !s.isActive
    && s.speaker == d.speaker && s.description == d.description && s.videoLink == d.videoLink
  }

  /** The `for` loop of `handleSubmit`: one `sessions.create` per draft, in order. */
  function SubmitSessions(st: Store, eventId: nat, ds: seq<Draft>, parse: string -> int): (r: Store)
    ensures r.events == st.events && r.questions == st.questions && r.feedback == st.feedback
    ensures |r.sessions| == |st.sessions| + |ds| && r.sessions[..|st.sessions|] == st.sessions
    ensures forall k :: 0 <= k < |ds| ==> Submitted(r.sessions[|st.sessions| + k].val, ds[k], eventId, parse)
    ensures Valid(st) ==> Valid(r)
    decreases |ds|
  {
    if |ds| == 0 then st
    else
      var (st1, _) := Sessions.Create(st, ToNew(ds[0], eventId, parse));
      var r := SubmitSessions(st1, eventId, ds[1..], parse);
      assert r.sessions[..|st.sessions|] == r.sessions[..|st1.sessions|][..|st.sessions|];
      assert r.sessions[|st.sessions|] == r.sessions[..|st1.sessions|][|st.sessions|];
      assert forall k :: 1 <= k < |ds| ==> ds[k] == ds[1..][k - 1];
      r
  }

  // ---------------------------------------------------------------------------
  // Properties

  /** Toggling the same id twice restores which ids are open; when the id was
      closed, the list itself comes back. */
  lemma ToggleTwice(f: Form, id: string)
    ensures forall x :: x in ToggleSession(ToggleSession(f, id), id).openSessions <==> x in f.openSessions
    ensures id !in f.openSessions ==> ToggleSession(ToggleSession(f, id), id) == f
  {
    if id !in f.openSessions {
      var once := f.openSessions + [id];
      FilterAppend(Other(id), f.openSessions, [id]);
      FilterSingle(Other(id), id);
      forall j | 0 <= j < |f.openSessions|
        ensures Other(id)(f.openSessions[j])
      {
        assert f.openSessions[j] in f.openSessions;
      }
      FilterKeepsAll(Other(id), f.openSessions);
    }
  }

  /** A tag that `addTag` just added is removed again by `removeTag`, leaving
      the tags as they were. */
  lemma AddTagThenRemove(f: Form)
    requires Trim(f.tagInput) != "" && Trim(f.tagInput) !in f.tags
    ensures RemoveTag(AddTag(f), Trim(f.tagInput)).tags == f.tags
  {
    var t := Trim(f.tagInput);
    FilterAppend(Other(t), f.tags, [t]);
    FilterSingle(Other(t), t);
    forall j | 0 <= j < |f.tags|
      ensures Other(t)(f.tags[j])
    {
      assert f.tags[j] in f.tags;
    }
    FilterKeepsAll(Other(t), f.tags);
  }

  /** The speaker that `addSpeaker` appends sits at the end of the list as typed,
      and `removeSpeaker` at that position restores the list; of the whole form
      only the reset dialog remains changed. */
  lemma AddSpeakerThenRemove(f: Form)
    requires Trim(f.newSpeaker.name) != "" && Trim(f.newSpeaker.role) != ""
    ensures AddSpeaker(f).speakers[|f.speakers|] == f.newSpeaker
    ensures RemoveSpeaker(AddSpeaker(f), |f.speakers|).speakers == f.speakers
    ensures RemoveSpeaker(AddSpeaker(f), |f.speakers|) == f.(newSpeaker := BlankSpeaker, speakerDialogOpen := false)
  {
    var added := AddSpeaker(f).speakers;
    assert RemoveAt(added, |f.speakers|) == f.speakers;
  }

  /** Removing a session that `addSession` just added, under an id no earlier
      draft uses, restores the sessions and the open ids. */
  lemma AddSessionThenRemove(f: Form, now: nat)
    requires Trim(f.newSession.title) != "" && f.newSession.startTime != "" && f.newSession.endTime != ""
    requires forall d | d in f.sessions :: d.id != Decimal(now)
    requires Decimal(now) !in f.openSessions
    ensures var r := RemoveSession(AddSession(f, now), Decimal(now));
      r.sessions == f.sessions && r.openSessions == f.openSessions
  {
    var id := Decimal(now);
    var s := f.newSession.(id := id);
    FilterAppend(OtherDraft(id), f.sessions, [s]);
    FilterSingle(OtherDraft(id), s);
    forall j | 0 <= j < |f.sessions|
      ensures OtherDraft(id)(f.sessions[j])
    {
      assert f.sessions[j] in f.sessions;
    }
    FilterKeepsAll(OtherDraft(id), f.sessions);
    FilterAppend(Other(id), f.openSessions, [id]);
    FilterSingle(Other(id), id);
    forall j | 0 <= j < |f.openSessions|
      ensures Other(id)(f.openSessions[j])
    {
      assert f.openSessions[j] in f.openSessions;
    }
    FilterKeepsAll(Other(id), f.openSessions);
  }
}
