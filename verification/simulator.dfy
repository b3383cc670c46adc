/**
  The customer app simulator: the listing of upcoming sessions it fetches,
  how a refresh replaces the open session, the full flag on each card, the
  avatar initial and which screen the phone frame shows.
 */
module Simulator {
  import opened Wrappers
  import opened Text
  import opened Sorting
  import opened Catalog
  import opened Views

  /** A listed session with its joined course (`course:courses(*)`) and booking aggregate (`bookings(count)`). */
  datatype SessionCard = SessionCard(
    id: int,
    courseId: int,
    start: int,
    maxParticipants: int,
    course: Option<Course>,
    bookings: seq<nat>)

  function CardOf(st: Store, sid: int): SessionCard
    requires sid in st.sessions
  {
    var s := st.sessions[sid];
    SessionCard(
      sid, s.courseId, s.start, s.maxParticipants,
      if s.courseId in st.courses then Some(st.courses[s.courseId]) else None,
      [|BookingIdsOf(st, sid)|])
  }

  function CardStart(c: SessionCard): int {
    c.start
  }

  /** The ids of the stored sessions that start at or after `now`. */
  function UpcomingIds(st: Store, now: int): (ids: set<int>)
    ensures forall sid :: sid in ids <==> sid in st.sessions && st.sessions[sid].start >= now
  {
    set sid | sid in st.sessions && st.sessions[sid].start >= now
  }

  /** The upcoming sessions' cards by ascending id, before ordering. */
  function UpcomingCards(st: Store, now: int): (cards: seq<SessionCard>)
    ensures forall k :: 0 <= k < |cards| ==> UpcomingCard(st, now, cards[k])
  {
    var ids := Ascending(UpcomingIds(st, now));
    assert forall i :: 0 <= i < |ids| ==> ids[i] in UpcomingIds(st, now);
    seq(|ids|, i requires 0 <= i < |ids| => CardOf(st, ids[i]))
  }

  /** `.gte('start_time', now).order('start_time', { ascending: true })`; rows with equal starts come by ascending id. */
  function UpcomingQuery(st: Store, now: int): (r: seq<SessionCard>)
    ensures SortedBy(r, CardStart)
  {
    SortBy(UpcomingCards(st, now), CardStart)
  }

  /** `c` is the current card of a stored session that starts at or after `now`. */
  predicate UpcomingCard(st: Store, now: int, c: SessionCard) {
    c.id in st.sessions && st.sessions[c.id].start >= now && c == CardOf(st, c.id)
  }

  /** Every listed card is a stored session that starts at or after `now`, with its course and booking count. */
  lemma UpcomingQuerySound(st: Store, now: int)
    ensures forall k :: 0 <= k < |UpcomingQuery(st, now)| ==> UpcomingCard(st, now, UpcomingQuery(st, now)[k])
  {
    var cards := UpcomingCards(st, now);
    var r := SortBy(cards, CardStart);
    SortByMembers(cards, CardStart);
    forall k | 0 <= k < |r|
      ensures UpcomingCard(st, now, r[k])
    {
      assert r[k] in cards;
    }
  }

  /** Every stored session that starts at or after `now` is listed. */
  lemma UpcomingQueryComplete(st: Store, now: int, sid: int)
    requires sid in st.sessions && st.sessions[sid].start >= now
    ensures CardOf(st, sid) in UpcomingQuery(st, now)
  {
    var ids := Ascending(UpcomingIds(st, now));
    var cards := UpcomingCards(st, now);
    SortByMembers(cards, CardStart);
    assert sid in UpcomingIds(st, now);
    var i := IndexOf(ids, sid);
    assert cards[i] == CardOf(st, sid);
  }

  /** No session is listed twice. */
  lemma UpcomingQueryDistinct(st: Store, now: int)
    ensures Distinct(UpcomingQuery(st, now))
  {
    var ids := Ascending(UpcomingIds(st, now));
    var cards := UpcomingCards(st, now);
    assert Distinct(cards) by {
      forall i, j | 0 <= i < j < |cards|
        ensures cards[i] != cards[j]
      {
        assert cards[i].id == ids[i] && cards[j].id == ids[j];
        assert ids[i] < ids[j];
      }
    }
    DistinctPermutation(cards, SortBy(cards, CardStart));
  }

  /** A card is shown full when its booking count reaches its capacity; a listed card counts the stored bookings of its session. */
  predicate CardFull(c: SessionCard) {
    IsFull(BookedCount(c.bookings), c.maxParticipants)
  }

  lemma CardFullSpec(st: Store, sid: int)
    requires sid in st.sessions
    ensures CardFull(CardOf(st, sid)) <==> |BookingIdsOf(st, sid)| >= st.sessions[sid].maxParticipants
  {
  }

  /** `newSessions.find(s => s.id === id)`: the first card with that id. */
  function FindById(cards: seq<SessionCard>, id: int): Option<SessionCard> {
    if |cards| == 0 then None
    else if cards[0].id == id then Some(cards[0])
    else FindById(cards[1..], id)
  }

  /** The search finds nothing exactly when no card has the id, and otherwise the earliest card that has it. */
  lemma {:induction false} FindByIdSpec(cards: seq<SessionCard>, id: int)
    ensures FindById(cards, id).None? <==> forall k :: 0 <= k < |cards| ==> cards[k].id != id
    ensures FindById(cards, id).Some? ==>
      exists k :: (0 <= k < |cards| && cards[k] == FindById(cards, id).value
        && cards[k].id == id && forall m :: 0 <= m < k ==> cards[m].id != id)
  {
    if |cards| > 0 && cards[0].id != id {
      var tail := cards[1..];
      FindByIdSpec(tail, id);
      var r := FindById(tail, id);
      if r.Some? {
        var k :| 0 <= k < |tail| && tail[k] == r.value && tail[k].id == id
          && forall m :: 0 <= m < k ==> tail[m].id != id;
        assert cards[k + 1] == r.value;
        forall m | 0 <= m < k + 1
          ensures cards[m].id != id
        {
          if m > 0 {
            assert cards[m] == tail[m - 1];
          }
        }
      } else {
        forall k | 0 <= k < |cards|
          ensures cards[k].id != id
        {
          if k > 0 {
            assert cards[k] == tail[k - 1];
          }
        }
      }
    } else if |cards| > 0 {
      assert cards[0] == FindById(cards, id).value;
    }
  }

  /** The simulator's state: the listed cards, the open session, the loading flag and the bottom-navigation tab. */
  datatype Sim = Sim(cards: seq<SessionCard>, selected: Option<SessionCard>, loading: bool, tab: int)

  /** The start of `fetchAppContent`. */
  function BeginFetch(s: Sim): Sim {
    s.(loading := true)
  }

  /**
    The end of `fetchAppContent`: `fetched` is None when the query failed.
    A result replaces the list and the open session by the fresh card with
    the same id, closing it when the id is no longer listed.
   */
  function Refresh(s: Sim, fetched: Option<seq<SessionCard>>): (r: Sim)
    ensures !r.loading && r.tab == s.tab
    ensures fetched.None? ==> r.cards == s.cards && r.selected == s.selected
    ensures fetched.Some? ==> r.cards == fetched.value
  {
    match fetched
    case None => s.(loading := false)
    case Some(cs) =>
      var sel := if s.selected.Some? then FindById(cs, s.selected.value.id) else None;
      s.(cards := cs, selected := sel, loading := false)
  }

  /** After a successful refresh the open session is the fresh listed card with the same id, or is closed when none is listed. */
  lemma RefreshSelection(s: Sim, cs: seq<SessionCard>)
    ensures var r := Refresh(s, Some(cs));
      (s.selected.None? ==> r.selected.None?)
      && (s.selected.Some? ==>
        (r.selected.None? <==> forall k :: 0 <= k < |cs| ==> cs[k].id != s.selected.value.id)
        && (r.selected.Some? ==> r.selected.value in cs && r.selected.value.id == s.selected.value.id))
  {
    if s.selected.Some? {
      FindByIdSpec(cs, s.selected.value.id);
    }
  }

  /** Refreshing from the store keeps an open session only while it is upcoming, and then shows its current stored values. */
  lemma RefreshFromStore(s: Sim, st: Store, now: int)
    requires s.selected.Some?
    ensures var r := Refresh(s, Some(UpcomingQuery(st, now)));
      var id := s.selected.value.id;
      (r.selected.Some? <==> id in st.sessions && st.sessions[id].start >= now)
      && (r.selected.Some? ==> r.selected.value == CardOf(st, id))
  {
    var cs := UpcomingQuery(st, now);
    var id := s.selected.value.id;
    UpcomingQuerySound(st, now);
    RefreshSelection(s, cs);
    if id in st.sessions && st.sessions[id].start >= now {
      UpcomingQueryComplete(st, now, id);
      var k :| 0 <= k < |cs| && cs[k] == CardOf(st, id);
      assert cs[k].id == id;
    }
    var r := Refresh(s, Some(cs));
    if r.selected.Some? {
      var k :| 0 <= k < |cs| && cs[k] == r.selected.value;
      assert cs[k].id == id;
    }
  }

  /** `user?.name?.[0]?.toUpperCase() || 'U'` */
  function AvatarInitial(name: Option<string>): (r: string)
    ensures |r| >= 1
    ensures (name.None? || name.value == "") ==> r == "U"
    ensures name.Some? && name.value != "" ==> r == UpperChar(name.value[0])
  {
    if name.Some? && |name.value| > 0 then UpperChar(name.value[0]) else "U"
  }

  /** A lower-case letter as initial shows as its capital, which folds back to the letter. */
  lemma AvatarInitialOfLetter(name: string)
    requires |name| > 0
    requires 0x61 <= name[0] as int <= 0x7A || (0xE0 <= name[0] as int <= 0xFE && name[0] as int != 0xF7)
    ensures |AvatarInitial(Some(name))| == 1 && LowerChar(AvatarInitial(Some(name))[0]) == name[0]
  {
    UpperThenLower(name[0]);
  }

  /** What the phone frame shows. */
  datatype Screen = Home | Appointments | Favourites | Messages | Profile | Blank | Details

  /** The open session's details cover the tabs; otherwise the tab decides, and an unknown tab shows nothing. */
  function ScreenOf(s: Sim): Screen {
    if s.selected.Some? then Details
    else if s.tab == 0 then Home
    else if s.tab == 1 then Appointments
    else if s.tab == 2 then Favourites
    else if s.tab == 3 then Messages
    else if s.tab == 4 then Profile
    else Blank
  }

  /** The bottom navigation is rendered only while no session is open. */
  predicate ShowsBottomNav(s: Sim) {
    s.selected.None?
  }

  /** The tab that shows a screen, for the five tab screens. */
  function TabOf(sc: Screen): Option<int> {
    match sc
    case Home => Some(0)
    case Appointments => Some(1)
    case Favourites => Some(2)
    case Messages => Some(3)
    case Profile => Some(4)
    case _ => None
  }

  /** Tabs 0 to 4 select five different screens, each of which is reached only through its own tab, and the navigation shows exactly when the details do not. */
  lemma TabsSelectScreens(s: Sim)
    ensures ShowsBottomNav(s) <==> ScreenOf(s) != Details
    ensures s.selected.None? && 0 <= s.tab <= 4 ==> TabOf(ScreenOf(s)) == Some(s.tab)
    ensures TabOf(ScreenOf(s)).Some? ==> s.selected.None? && s.tab == TabOf(ScreenOf(s)).value
  {
  }

  /** `onClick={() => setSelectedSession(session)}` and the back arrow. */
  function Open(s: Sim, c: SessionCard): Sim {
    s.(selected := Some(c))
  }

  function Back(s: Sim): Sim {
    s.(selected := None)
  }

  /** Opening a card and going back returns to the tab that was showing. */
  lemma OpenBack(s: Sim, c: SessionCard)
    ensures ScreenOf(Open(s, c)) == Details
    ensures s.selected.None? ==> Back(Open(s, c)) == s
  {
  }
}
