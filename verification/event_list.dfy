/** src/app/events/page.tsx: the filter bar of the events page, the split of its
    result into live and upcoming events, and the title shown on an event card.
    The page works on the entries `events.getAll` returns. */
module EventList {
  import opened Seqs
  import opened Schema
  import opened Text
  import Events

  /** The options of the type selector; any other value matches nothing. */
  const KnownTypes: set<string> := {"all", "free", "paid", "online", "in-person", "live"}

  /** The search box: the lower-cased term occurs in the lower-cased title, the
      lower-cased description or some lower-cased tag. */
  predicate MatchesSearch(e: Event, term: string) {
    var t := Lower(term);
    || Contains(Lower(e.title), t)
    || Contains(Lower(e.description), t)
    || exists tag | tag in e.tags :: Contains(Lower(tag), t)
  }

  /** The type selector. `price` is compared with `'free'` exactly. */
  predicate MatchesType(e: Event, filterType: string) {
    || filterType == "all"
    || (filterType == "free" && e.price == "free")
    || (filterType == "paid" && e.price != "free")
    || (filterType == "online" && e.hasOnline)
    || (filterType == "in-person" && e.hasInPerson)
    || (filterType == "live" && e.isLive)
  }

  /** The category selector. */
  predicate MatchesCategory(e: Event, filterCategory: string) {
    filterCategory == "all" || e.category == filterCategory
  }

  /** The callback of `events.filter`. */
  predicate Passes(e: Event, term: string, filterType: string, filterCategory: string) {
    MatchesSearch(e, term) && MatchesType(e, filterType) && MatchesCategory(e, filterCategory)
  }

  function Keep(term: string, filterType: string, filterCategory: string): Events.EventView -> bool {
    (v: Events.EventView) => Passes(v.row.val, term, filterType, filterCategory)
  }

  /** `filteredEvents`: the entries passing all three filters, in their order. */
  function Filtered(es: seq<Events.EventView>, term: string, filterType: string, filterCategory: string)
    : (r: seq<Events.EventView>)
    ensures Selects(r, es, (v: Events.EventView) => Passes(v.row.val, term, filterType, filterCategory))
  {
    FilterSelects(Keep(term, filterType, filterCategory), es);
    Filter(Keep(term, filterType, filterCategory), es)
  }

  function IsLive(): Events.EventView -> bool {
    (v: Events.EventView) => v.row.val.isLive
  }

  function NotLive(): Events.EventView -> bool {
    (v: Events.EventView) => !v.row.val.isLive
  }

  /** `liveEvents`. */
  function Live(f: seq<Events.EventView>): (r: seq<Events.EventView>)
    ensures Selects(r, f, (v: Events.EventView) => v.row.val.isLive)
  {
    FilterSelects(IsLive(), f);
    Filter(IsLive(), f)
  }

  /** `upcomingEvents`: despite the name, simply the entries not flagged live. */
  function Upcoming(f: seq<Events.EventView>): (r: seq<Events.EventView>)
    ensures Selects(r, f, (v: Events.EventView) => !v.row.val.isLive)
  {
    FilterSelects(NotLive(), f);
    Filter(NotLive(), f)
  }

  /** Position of the session `sessions.find(s => s.id === id)` returns. */
  function FindSession(ss: seq<Events.SessionView>, id: int): (r: Option<nat>)
    ensures r.Some? ==> r.value < |ss| && ss[r.value].row.val.id == Some(id)
    ensures r.Some? ==> forall j :: 0 <= j < r.value ==> ss[j].row.val.id != Some(id)
    ensures r.None? <==> forall j :: 0 <= j < |ss| ==> ss[j].row.val.id != Some(id)
  {
    FirstIndex((s: Events.SessionView) => s.row.val.id == Some(id), ss)
  }

  /** The card title: the featured session's title when `featuredSessionId` is
      truthy (set and not 0) and the first session with that id has a non-empty
      title; the event's own title otherwise. */
  function FeaturedTitle(v: Events.EventView): (r: string)
    ensures v.row.val.featuredSessionId.None? || v.row.val.featuredSessionId == Some(0) ==> r == v.row.val.title
    ensures r == v.row.val.title
            || exists s | s in v.sessions :: s.row.val.id == v.row.val.featuredSessionId && s.row.val.title == r != ""
    ensures v.row.val.featuredSessionId.Some? && v.row.val.featuredSessionId != Some(0) ==>
              match FindSession(v.sessions, v.row.val.featuredSessionId.value)
              case Some(i) => r == (if v.sessions[i].row.val.title != "" then v.sessions[i].row.val.title else v.row.val.title)
              case None => r == v.row.val.title
  {
    var e := v.row.val;
    if e.featuredSessionId.Some? && e.featuredSessionId.value != 0 then
      match FindSession(v.sessions, e.featuredSessionId.value)
      case Some(i) =>
        var t := v.sessions[i].row.val.title;
        if t != "" then
          assert v.sessions[i] in v.sessions;
          t
        else e.title
      case None => e.title
    else e.title
  }

  /** `sessions.find(s => s.id === id)?.title`, read left to right: the title of
      the first session carrying the id, `None` when no session does. */
  function FirstTitle(ss: seq<Events.SessionView>, id: int): Option<string>
    decreases |ss|
  {
    if |ss| == 0 then None
    else if ss[0].row.val.id == Some(id) then Some(ss[0].row.val.title)
    else FirstTitle(ss[1..], id)
  }

  /** `FindSession` and the left-to-right reading agree on the title found. */
  lemma {:induction false} FindSessionIsFirstTitle(ss: seq<Events.SessionView>, id: int)
    ensures FirstTitle(ss, id) == match FindSession(ss, id)
                                  case Some(i) => Some(ss[i].row.val.title)
                                  case None => None
    decreases |ss|
  {
    if |ss| > 0 && ss[0].row.val.id != Some(id) {
      FindSessionIsFirstTitle(ss[1..], id);
      var tail := ss[1..];
      assert forall j :: 0 <= j < |tail| ==> tail[j] == ss[j + 1];
      match FindSession(ss, id)
      case Some(i) =>
        assert FindSession(tail, id) == Some(i - 1);
      case None =>
        assert FindSession(tail, id).None?;
    }
  }

  /** The card title is `find(...)?.title || event.title` under a truthy
      `featuredSessionId`, and the event's title otherwise: an empty or missing
      first match falls back to the event's title. */
  lemma FeaturedTitleIsFirstMatch(v: Events.EventView)
    ensures var e := v.row.val;
      FeaturedTitle(v) ==
        if e.featuredSessionId.None? || e.featuredSessionId == Some(0) then e.title
        else match FirstTitle(v.sessions, e.featuredSessionId.value)
             case Some(t) => if t != "" then t else e.title
             case None => e.title
  {
    var e := v.row.val;
    if e.featuredSessionId.Some? {
      FindSessionIsFirstTitle(v.sessions, e.featuredSessionId.value);
    }
  }

  // ---------------------------------------------------------------------------
  // Properties

  /** The empty string occurs in every string. */
  lemma ContainsEmpty(s: string)
    ensures Contains(s, "")
  {
    assert OccursAt(s, "", 0);
  }

  /** With the initial filter state (empty search, type and category `'all'`)
      every event is listed. */
  lemma InitialStateListsAll(es: seq<Events.EventView>)
    ensures Filtered(es, "", "all", "all") == es
  {
    forall j | 0 <= j < |es|
      ensures Keep("", "all", "all")(es[j])
    {
      ContainsEmpty(Lower(es[j].row.val.title));
    }
    FilterKeepsAll(Keep("", "all", "all"), es);
  }

  /** `'free'` and `'paid'` split the events that pass search and category:
      no event is in both, and together they are as many as under `'all'`. */
  lemma FreeAndPaidSplitAll(es: seq<Events.EventView>, term: string, filterCategory: string)
    ensures |Filtered(es, term, "free", filterCategory)| + |Filtered(es, term, "paid", filterCategory)|
            == |Filtered(es, term, "all", filterCategory)|
    ensures forall v :: !(v in Filtered(es, term, "free", filterCategory) && v in Filtered(es, term, "paid", filterCategory))
  {
    FilterSplitCount(Keep(term, "all", filterCategory), Keep(term, "free", filterCategory),
                     Keep(term, "paid", filterCategory), es);
  }

  /** A type value outside the selector's options lists nothing. */
  lemma UnknownTypeListsNothing(es: seq<Events.EventView>, term: string, filterType: string, filterCategory: string)
    requires filterType !in KnownTypes
    ensures Filtered(es, term, filterType, filterCategory) == []
  {
    FilterNone(Keep(term, filterType, filterCategory), es);
  }

  /** Search ignores letter case: terms that lower-case alike list the same events. */
  lemma SearchIgnoresCase(es: seq<Events.EventView>, t1: string, t2: string, filterType: string, filterCategory: string)
    requires Lower(t1) == Lower(t2)
    ensures Filtered(es, t1, filterType, filterCategory) == Filtered(es, t2, filterType, filterCategory)
  {
    FilterCongruent(Keep(t1, filterType, filterCategory), Keep(t2, filterType, filterCategory), es);
  }

  /** Lower-casing commutes with taking a slice. */
  lemma LowerSlice(s: string, i: nat, j: nat)
    requires i <= j <= |s|
    ensures Lower(s)[i..j] == Lower(s[i..j])
  {
  }

  /** A term that occurs verbatim in the title is found. */
  lemma TitleOccurrenceIsFound(e: Event, term: string)
    requires Contains(e.title, term)
    ensures MatchesSearch(e, term)
  {
    var i :| OccursAt(e.title, term, i);
    LowerSlice(e.title, i, i + |term|);
    assert OccursAt(Lower(e.title), Lower(term), i);
  }

  /** A category other than `'all'` lists only events of exactly that category. */
  lemma CategoryListsOnlyEqual(es: seq<Events.EventView>, term: string, filterType: string, filterCategory: string)
    requires filterCategory != "all"
    ensures forall v | v in Filtered(es, term, filterType, filterCategory) :: v.row.val.category == filterCategory
  {
  }

  /** Live and upcoming partition the filtered list: every entry lands in exactly
      one of them, and their lengths add up. */
  lemma LiveUpcomingPartition(f: seq<Events.EventView>)
    ensures |Live(f)| + |Upcoming(f)| == |f|
    ensures forall v :: v in f <==> v in Live(f) || v in Upcoming(f)
    ensures forall v :: !(v in Live(f) && v in Upcoming(f))
  {
    FilterSplitCount(x => true, IsLive(), NotLive(), f);
    FilterKeepsAll(x => true, f);
  }
}
