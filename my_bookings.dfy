/** The "My Bookings" view of components/MyBookingsView.tsx: looking up the
    bookings made with an e-mail address, newest first, cancelling one, and
    reading a booking's start time back out of its slot id. */
module MyBookings {
  import opened Types
  import Text
  import Server

  // ---------------------------------------------------------------------------
  // Start time from the slot id
  // ---------------------------------------------------------------------------

  /** The time shown on a booking card: the last `-`-separated field of the
      slot id when it has at least three fields, "00:00" otherwise (an empty id
      included). */
  function SlotTime(slotId: string): (time: string)
    ensures Text.Count(slotId, '-') < 2 ==> time == "00:00"
    ensures Text.Count(slotId, '-') >= 2 ==>
      && '-' !in time
      && |time| < |slotId|
      && slotId[|slotId| - |time|..] == time
      && slotId[|slotId| - |time| - 1] == '-'
  {
    var parts := if slotId == "" then [] else Text.Split(slotId, '-');
    if |parts| >= 3 then
      Text.SplitLastIsSuffix(slotId, '-');
      Text.SplitPartsLackSep(slotId, '-');
      Text.CountedCharOccurs(slotId, '-');
      parts[|parts| - 1]
    else
      "00:00"
  }

  /** The time read back from an id built by the server is the start time it
      was built from, although the date in the middle contains `-` itself. */
  lemma SlotTimeOfSlotId(courtId: string, date: string, time: string)
    requires '-' !in time
    ensures SlotTime(Server.SlotId(courtId, date, time)) == time
  {
    var id := Server.SlotId(courtId, date, time);
    assert id == (courtId + ['-'] + date) + ['-'] + time;
    Text.SplitAtSep(courtId + ['-'] + date, time, '-');
    Text.SplitAtSep(courtId, date, '-');
    Text.SplitNoSep(time, '-');
    var parts := Text.Split(id, '-');
    assert parts == Text.Split(courtId, '-') + Text.Split(date, '-') + [time];
    assert |id| > 0;
  }

  /** Every slot of an operating day shows its own start time on a booking card. */
  lemma OperatingSlotTimes(courtId: string, date: string, bookings: seq<Booking>)
    ensures forall s :: s in Server.Grid(Server.OperatingHours, courtId, date, bookings) ==> SlotTime(s.id) == s.startTime
  {
    var slots := Server.Grid(Server.OperatingHours, courtId, date, bookings);
    forall s | s in slots ensures SlotTime(s.id) == s.startTime {
      var i :| 0 <= i < |slots| && slots[i] == s;
      Server.HourMarksOfOperatingHours();
      assert Server.OperatingHours[i] == Server.HourMark(6 + i);
      SlotTimeOfSlotId(courtId, date, Server.OperatingHours[i]);
    }
  }

  // ---------------------------------------------------------------------------
  // Newest first
  // ---------------------------------------------------------------------------

  predicate NewestFirst(s: seq<Booking>) {
    forall i, j :: 0 <= i < j < |s| ==> s[i].createdAt >= s[j].createdAt
  }

  /** A booking no older than any in a newest-first list can go in front. */
  lemma PrependNewest(h: Booking, rest: seq<Booking>)
    requires NewestFirst(rest)
    requires forall x :: x in rest ==> x.createdAt <= h.createdAt
    ensures NewestFirst([h] + rest)
  {
    var r := [h] + rest;
    forall i, j | 0 <= i < j < |r| ensures r[i].createdAt >= r[j].createdAt {
      assert r[j] == rest[j - 1];
      if i > 0 {
        assert r[i] == rest[i - 1];
      }
    }
  }

  /** Places `b` in a list already newest first: before the first booking
      that is not newer than it, which keeps bookings with the same creation
      time in their original order. */
  function InsertNewestFirst(b: Booking, s: seq<Booking>): (r: seq<Booking>)
    requires NewestFirst(s)
    ensures NewestFirst(r)
    ensures multiset(r) == multiset(s) + multiset{b}
    decreases |s|
  {
    if |s| == 0 || s[0].createdAt <= b.createdAt then
      PrependNewest(b, s);
      [b] + s
    else
      var rest := InsertNewestFirst(b, s[1..]);
      InsertBehindHead(b, s, rest);
      [s[0]] + rest
  }

  /** The recursive step of InsertNewestFirst: a booking older than the head
      goes into the tail, and the head stays in front. */
  lemma InsertBehindHead(b: Booking, s: seq<Booking>, rest: seq<Booking>)
    requires NewestFirst(s) && |s| > 0 && b.createdAt < s[0].createdAt
    requires NewestFirst(rest) && multiset(rest) == multiset(s[1..]) + multiset{b}
    ensures NewestFirst([s[0]] + rest)
    ensures multiset([s[0]] + rest) == multiset(s) + multiset{b}
  {
    var h, tail := s[0], s[1..];
    assert s == [h] + tail;
    forall x | x in rest ensures x.createdAt <= h.createdAt {
      assert x in multiset(rest);
      if x != b {
        assert x in multiset(tail);
        var m :| 0 <= m < |tail| && tail[m] == x;
        assert s[m + 1] == x;
      }
    }
    PrependNewest(h, rest);
  }

  /** The fetched list ordered by creation time, newest first, as the view's
      comparator sort does. */
  function SortNewestFirst(s: seq<Booking>): (r: seq<Booking>)
    ensures NewestFirst(r)
    ensures multiset(r) == multiset(s)
    decreases |s|
  {
    if |s| == 0 then []
    else
      assert s == [s[0]] + s[1..];
      InsertNewestFirst(s[0], SortNewestFirst(s[1..]))
  }

  // ---------------------------------------------------------------------------
  // The view's state
  // ---------------------------------------------------------------------------

  class MyBookingsView {
    var email: string
    var hasSearched: bool
    var bookings: seq<Booking>
    var loading: bool

    constructor ()
      ensures email == "" && !hasSearched && bookings == [] && !loading
    {
      email := "";
      hasSearched := false;
      bookings := [];
      loading := false;
    }

    /** Typing into the e-mail field. */
    method EnterEmail(e: string)
      modifies this`email
      ensures email == e
    {
      email := e;
    }

    /** Fetch the bookings of `userEmail` and show them newest first; when the
        fetch fails the list shown before is kept. */
    method RefreshBookings(store: Server.BookingStore, userEmail: string)
      modifies this`loading, this`hasSearched, this`bookings
      ensures hasSearched && !loading
      ensures userEmail == "" ==> bookings == old(bookings)
      ensures userEmail != "" ==>
        && NewestFirst(bookings)
        && multiset(bookings) == multiset(Server.WithEmail(store.bookings, userEmail))
    {
      loading := true;
      hasSearched := true;
      var response := store.ListByEmail(userEmail);
      if response.Found? {
        bookings := SortNewestFirst(response.data);
      }
      loading := false;
    }

    /** The search form: an empty address does nothing. */
    method HandleSearch(store: Server.BookingStore)
      modifies this`loading, this`hasSearched, this`bookings
      ensures email == "" ==> unchanged(this)
      ensures email != "" ==>
        && hasSearched && !loading
        && NewestFirst(bookings)
        && multiset(bookings) == multiset(Server.WithEmail(store.bookings, email))
    {
      if email == "" {
        return;
      }
      RefreshBookings(store, email);
    }

    /** Cancelling a booking (the confirmation accepted): on success the list
        is fetched again and no longer shows it; on failure the list stays. */
    method HandleCancel(store: Server.BookingStore, id: nat) returns (r: Server.CancelResponse)
      requires store.Valid()
      modifies this`loading, this`hasSearched, this`bookings, store
      ensures store.Valid()
      ensures (store.State(), r) == Server.CancelOn(old(store.State()), id)
      ensures !loading
      ensures r.NotFound? ==> bookings == old(bookings) && hasSearched == old(hasSearched)
      ensures r.Cancelled? && email != "" ==>
        && hasSearched
        && NewestFirst(bookings)
        && multiset(bookings) == multiset(Server.WithEmail(store.bookings, email))
        && forall b :: b in bookings ==> b.id != id
      ensures r.Cancelled? && email == "" ==> bookings == old(bookings) && hasSearched
    {
      loading := true;
      r := store.Cancel(id);
      if r.Cancelled? {
        RefreshBookings(store, email);
        if email != "" {
          forall b | b in bookings ensures b.id != id {
            assert b in multiset(Server.WithEmail(store.bookings, email));
          }
        }
      } else {
        loading := false;
      }
    }
  }
}
