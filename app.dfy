/** The explore page of App.tsx: the two-click range selection, the sport
    filter with its court auto-selection, the price on the booking button, and
    the submission that books a selected range one slot at a time. */
module App {
  import opened Types
  import Server

  // ---------------------------------------------------------------------------
  // Range selection
  // ---------------------------------------------------------------------------

  /** `slots.findIndex(s => s.id === id)`: the first position of `id`, or -1. */
  function FindIndex(slots: seq<TimeSlot>, id: string): (k: int)
    ensures -1 <= k < |slots|
    ensures k == -1 <==> forall i :: 0 <= i < |slots| ==> slots[i].id != id
    ensures k >= 0 ==> slots[k].id == id && forall i :: 0 <= i < k ==> slots[i].id != id
    decreases |slots|
  {
    if |slots| == 0 then -1
    else if slots[0].id == id then 0
    else
      var k := FindIndex(slots[1..], id);
      if k == -1 then -1 else k + 1
  }

  /** The slots from position `i` to position `j`, both included, whichever
      of the two comes first. */
  function Between(slots: seq<TimeSlot>, i: nat, j: nat): seq<TimeSlot>
    requires i < |slots| && j < |slots|
  {
    if i < j then slots[i..j + 1] else slots[j..i + 1]
  }

  predicate AnyBooked(range: seq<TimeSlot>) {
    exists k :: 0 <= k < |range| && range[k].isBooked
  }

  /** A slice of the grid holds a booked slot exactly when the grid has one
      between the slice's ends; otherwise every slot in it is free. */
  lemma SliceBooked(slots: seq<TimeSlot>, lo: nat, hi: nat)
    requires lo <= hi < |slots|
    ensures AnyBooked(slots[lo..hi + 1]) <==> exists k :: lo <= k <= hi && slots[k].isBooked
    ensures !AnyBooked(slots[lo..hi + 1]) ==> forall s :: s in slots[lo..hi + 1] ==> !s.isBooked
  {
    var range := slots[lo..hi + 1];
    forall k | lo <= k <= hi ensures range[k - lo] == slots[k] { }
  }

  /** The new selection after a click, and whether the user was told that the
      range crosses a booked slot. */
  datatype Click = Click(selection: seq<TimeSlot>, alerted: bool)

  /** The second click of a range, at position `j`, with the first at `i`: the
      slots between them are taken if all are free, and otherwise refused in
      favour of the clicked slot alone. */
  function RangeClick(slots: seq<TimeSlot>, i: nat, j: nat, clicked: TimeSlot): (r: Click)
    requires i < |slots| && j < |slots|
    ensures var lo, hi := if i < j then i else j, if i < j then j else i;
      && (r.alerted <==> exists k :: lo <= k <= hi && slots[k].isBooked)
      && (r.alerted ==> r.selection == [clicked])
      && (!r.alerted ==>
            && r.selection == slots[lo..hi + 1]
            && r.selection[0].id in {slots[i].id, slots[j].id}
            && r.selection[|r.selection| - 1].id in {slots[i].id, slots[j].id}
            && forall s :: s in r.selection ==> !s.isBooked)
  {
    var lo, hi := if i < j then i else j, if i < j then j else i;
    var range := Between(slots, i, j);
    assert range == slots[lo..hi + 1];
    assert range[0] == slots[lo] && range[|range| - 1] == slots[hi];
    SliceBooked(slots, lo, hi);
    if AnyBooked(range) then Click([clicked], true) else Click(range, false)
  }

  /** A click on `clicked` while `selected` is the current selection. Without
      exactly one slot selected the click starts a new selection; with one, the
      two clicks span a range of `slots` (see RangeClick and SecondClick). A
      click involving a slot no longer in `slots` is ignored. */
  function SelectSlot(slots: seq<TimeSlot>, selected: seq<TimeSlot>, clicked: TimeSlot): (r: Click)
    ensures |selected| != 1 ==> r == Click([clicked], false)
    ensures |selected| == 1 && (FindIndex(slots, selected[0].id) == -1 || FindIndex(slots, clicked.id) == -1)
            ==> r == Click(selected, false)
    ensures r.alerted ==> r.selection == [clicked]
    ensures |selected| == 1 && FindIndex(slots, selected[0].id) >= 0 && FindIndex(slots, clicked.id) >= 0 ==>
            r == RangeClick(slots, FindIndex(slots, selected[0].id), FindIndex(slots, clicked.id), clicked)
  {
    if |selected| != 1 then Click([clicked], false)
    else
      var i, j := FindIndex(slots, selected[0].id), FindIndex(slots, clicked.id);
      if i == -1 || j == -1 then Click(selected, false)
      else RangeClick(slots, i, j, clicked)
  }

  /** The second click of a range, with both slots in the grid: the range
      between their positions, in either order, is refused with an alert
      exactly when one of its slots is booked. Otherwise it becomes the
      selection: a contiguous slice of the grid that starts and ends at the
      two clicked slots and holds only free slots. */
  lemma SecondClick(slots: seq<TimeSlot>, anchor: TimeSlot, clicked: TimeSlot)
    requires FindIndex(slots, anchor.id) >= 0 && FindIndex(slots, clicked.id) >= 0
    ensures var r := SelectSlot(slots, [anchor], clicked);
      var i, j := FindIndex(slots, anchor.id), FindIndex(slots, clicked.id);
      var lo, hi := if i < j then i else j, if i < j then j else i;
      && (r.alerted <==> exists k :: lo <= k <= hi && slots[k].isBooked)
      && (r.alerted ==> r.selection == [clicked])
      && (!r.alerted ==>
            && r.selection == slots[lo..hi + 1]
            && r.selection[0].id in {anchor.id, clicked.id}
            && r.selection[|r.selection| - 1].id in {anchor.id, clicked.id}
            && forall s :: s in r.selection ==> !s.isBooked)
  {
    var i, j := FindIndex(slots, anchor.id), FindIndex(slots, clicked.id);
    assert [anchor][0] == anchor;
    assert slots[i].id == anchor.id && slots[j].id == clicked.id;
  }

  /** Which endpoint is clicked first does not matter: both orders accept or
      refuse together, and an accepted range is the same. */
  lemma SelectionOrderIndependent(slots: seq<TimeSlot>, a: TimeSlot, b: TimeSlot)
    requires FindIndex(slots, a.id) >= 0 && FindIndex(slots, b.id) >= 0
    ensures SelectSlot(slots, [a], b).alerted == SelectSlot(slots, [b], a).alerted
    ensures !SelectSlot(slots, [a], b).alerted ==>
              SelectSlot(slots, [a], b).selection == SelectSlot(slots, [b], a).selection
  {
  }

  /** A refused range falls back to the second click alone: the earlier anchor
      is dropped and the range is not trimmed. */
  lemma RefusedRangeKeepsSecondClick(slots: seq<TimeSlot>, a: TimeSlot, b: TimeSlot, k: nat)
    requires FindIndex(slots, a.id) >= 0 && FindIndex(slots, b.id) >= 0
    requires k < |slots| && slots[k].isBooked
    requires FindIndex(slots, a.id) <= k <= FindIndex(slots, b.id)
    ensures SelectSlot(slots, [a], b) == Click([b], true)
  {
    var r := SelectSlot(slots, [a], b);
    assert [a][0] == a;
    assert r.alerted;
  }

  // ---------------------------------------------------------------------------
  // Sport filter and court auto-selection
  // ---------------------------------------------------------------------------

  datatype Filter = All | Only(sport: SportType)

  predicate Shows(filter: Filter, c: Court) {
    filter.All? || c.sport == filter.sport
  }

  /** The courts of the catalogue that the filter shows, in catalogue order. */
  function FilteredCourts(courts: seq<Court>, filter: Filter): (r: seq<Court>)
    ensures filter.All? ==> r == courts
    ensures forall c :: c in r <==> c in courts && Shows(filter, c)
    ensures |r| <= |courts|
    decreases |courts|
  {
    if |courts| == 0 then []
    else
      var rest := FilteredCourts(courts[1..], filter);
      if Shows(filter, courts[0]) then [courts[0]] + rest else rest
  }

  /** The filtered list keeps catalogue order at its head: its first court is
      the first court of the catalogue that the filter shows. */
  lemma {:induction false} FirstShownLeads(courts: seq<Court>, filter: Filter)
    requires |FilteredCourts(courts, filter)| > 0
    ensures exists k :: 0 <= k < |courts| && courts[k] == FilteredCourts(courts, filter)[0]
                        && forall m :: 0 <= m < k ==> !Shows(filter, courts[m])
    decreases |courts|
  {
    if !Shows(filter, courts[0]) {
      var tail := courts[1..];
      FirstShownLeads(tail, filter);
      var k :| 0 <= k < |tail| && tail[k] == FilteredCourts(tail, filter)[0]
               && forall m :: 0 <= m < k ==> !Shows(filter, tail[m]);
      assert courts[k + 1] == tail[k];
      forall m | 0 <= m < k + 1 ensures !Shows(filter, courts[m]) {
        if m > 0 { assert courts[m] == tail[m - 1]; }
      }
    } else {
      assert courts[0] == FilteredCourts(courts, filter)[0];
    }
  }

  predicate Listed(courts: seq<Court>, id: string) {
    exists k :: 0 <= k < |courts| && courts[k].id == id
  }

  /** The court the page settles on after a filter change: the current one if
      the filter still shows it, else the first shown court, else the first
      court of the catalogue. */
  function AutoSelectCourt(courts: seq<Court>, filtered: seq<Court>, current: Court): (c: Court)
    requires |courts| > 0
    ensures Listed(filtered, current.id) ==> c == current
    ensures !Listed(filtered, current.id) && |filtered| > 0 ==> c == filtered[0]
    ensures !Listed(filtered, current.id) && |filtered| == 0 ==> c == courts[0]
    ensures |filtered| > 0 ==> Listed(filtered, c.id)
    ensures c == current || c in filtered || c == courts[0]
  {
    if Listed(filtered, current.id) then current
    else if |filtered| > 0 then filtered[0]
    else courts[0]
  }

  /** Every selected slot belongs to this court on this date. */
  predicate SelectionOf(selection: seq<TimeSlot>, courtId: string, date: string) {
    forall s :: s in selection ==> s.courtId == courtId && s.date == date
  }

  /** A filter change as the page is written: the court may be switched, and
      the selection is kept whatever happens to the court. */
  function ApplyFilterAsWritten(courts: seq<Court>, filter: Filter, court: Court, selection: seq<TimeSlot>)
    : (r: (Court, seq<TimeSlot>))
    requires |courts| > 0
    ensures r.1 == selection
    ensures r.0 == AutoSelectCourt(courts, FilteredCourts(courts, filter), court)
  {
    (AutoSelectCourt(courts, FilteredCourts(courts, filter), court), selection)
  }

  /** A filter change that, like a direct court or date change, drops the
      selection whenever it switches the court. */
  function ApplyFilter(courts: seq<Court>, filter: Filter, court: Court, selection: seq<TimeSlot>)
    : (r: (Court, seq<TimeSlot>))
    requires |courts| > 0
    ensures r.0 == AutoSelectCourt(courts, FilteredCourts(courts, filter), court)
    ensures r.0.id == court.id ==> r.1 == selection
    ensures r.0.id != court.id ==> r.1 == []
  {
    var c := AutoSelectCourt(courts, FilteredCourts(courts, filter), court);
    if c.id == court.id then (c, selection) else (c, [])
  }

  /** With the correction, a selection made for the current court and date
      still belongs to the court shown after any filter change. */
  lemma FilterKeepsSelectionOfCourt(courts: seq<Court>, filter: Filter, court: Court, selection: seq<TimeSlot>, date: string)
    requires |courts| > 0
    requires SelectionOf(selection, court.id, date)
    ensures var (c, sel) := ApplyFilter(courts, filter, court, selection);
            SelectionOf(sel, c.id, date)
  {
  }

  /** As written, picking a sport that hides the current court switches to
      another court but keeps the old court's slots selected; submitting them
      stores a booking under the new court's id with the old court's slot id,
      and the old court's grid still shows that hour as free. */
  lemma FilterSwitchBooksStaleSlot()
    ensures
      var turf := Court("c1", "Football Turf", Football, 1200);
      var box := Court("c2", "Cricket Box", Cricket, 1500);
      var date := "2026-10-15";
      var slot := TimeSlot(Server.SlotId("c1", date, "09:00"), "09:00", "10:00", false, "c1", date);
      var (court, selection) := ApplyFilterAsWritten([turf, box], Only(Cricket), turf, [slot]);
      var req := SlotRequest(court, date, UserData("A", "a@b.com", "1"), selection[0]);
      var (after, resp) := Server.CreateOn(Server.StoreState([], 0), req, 0);
      && court == box
      && selection == [slot]
      && !SelectionOf(selection, court.id, date)
      && resp.Created? && resp.booking.courtId == "c2" && resp.booking.slotId == slot.id
      && !Server.Grid(Server.OperatingHours, "c1", date, after.bookings)[3].isBooked
  {
    var turf := Court("c1", "Football Turf", Football, 1200);
    var box := Court("c2", "Cricket Box", Cricket, 1500);
    var courts := [turf, box];
    var filtered := FilteredCourts(courts, Only(Cricket));
    assert filtered == FilteredCourts(courts[1..], Only(Cricket));
    assert courts[1..][1..] == [];
    assert filtered == [box];
    assert !Listed(filtered, "c1");
    var date := "2026-10-15";
    var slot := TimeSlot(Server.SlotId("c1", date, "09:00"), "09:00", "10:00", false, "c1", date);
    var req := SlotRequest(box, date, UserData("A", "a@b.com", "1"), slot);
    var (after, resp) := Server.CreateOn(Server.StoreState([], 0), req, 0);
    assert after.bookings == [resp.booking];
    Server.OperatingDay("c1", date, after.bookings);
  }

  // ---------------------------------------------------------------------------
  // The booking button
  // ---------------------------------------------------------------------------

  datatype BookButton = SelectTimeRange | BookSlots(count: nat, total: int)

  /** The label of the booking button: disabled with no selection, otherwise
      the number of slots and their price at the court's hourly rate. */
  function BookButtonLabel(court: Court, selection: seq<TimeSlot>): (b: BookButton)
    ensures b.SelectTimeRange? <==> |selection| == 0
    ensures b.BookSlots? ==> b.count == |selection| && b.total == court.pricePerHour * |selection|
  {
    if |selection| > 0 then BookSlots(|selection|, court.pricePerHour * |selection|) else SelectTimeRange
  }

  // ---------------------------------------------------------------------------
  // Submission: one create call per selected slot, in order
  // ---------------------------------------------------------------------------

  /** The create request the page sends for one selected slot. */
  function SlotRequest(court: Court, date: string, user: UserData, slot: TimeSlot): BookingRequest {
    BookingRequest(court.id, slot.id, date, user.name, user.email, user.phone)
  }

  function Requests(court: Court, date: string, user: UserData, selection: seq<TimeSlot>): (reqs: seq<BookingRequest>)
    ensures |reqs| == |selection|
    ensures forall k :: 0 <= k < |reqs| ==> reqs[k] == SlotRequest(court, date, user, selection[k])
  {
    seq(|selection|, k requires 0 <= k < |selection| => SlotRequest(court, date, user, selection[k]))
  }

  /** The store after sending `reqs` one after the other, and how many of them
      were accepted. */
  function SubmitAll(st: Server.StoreState, reqs: seq<BookingRequest>, now: int): (res: (Server.StoreState, nat))
    ensures res.1 <= |reqs|
    decreases |reqs|
  {
    if |reqs| == 0 then (st, 0)
    else
      var (mid, n) := SubmitAll(st, reqs[..|reqs| - 1], now);
      var (after, resp) := Server.CreateOn(mid, reqs[|reqs| - 1], now);
      (after, if resp.Created? then n + 1 else n)
  }

  /** Some complete request in `reqs` asks for this slot. */
  predicate Requested(reqs: seq<BookingRequest>, courtId: string, date: string, slotId: string) {
    exists k :: 0 <= k < |reqs| && Server.Complete(reqs[k])
      && reqs[k].courtId == courtId && reqs[k].date == date && reqs[k].slotId == slotId
  }

  predicate AllComplete(reqs: seq<BookingRequest>) {
    forall k :: 0 <= k < |reqs| ==> Server.Complete(reqs[k])
  }

  predicate DistinctSlots(reqs: seq<BookingRequest>) {
    forall i, j :: 0 <= i < j < |reqs| ==>
      !(reqs[i].courtId == reqs[j].courtId && reqs[i].date == reqs[j].date && reqs[i].slotId == reqs[j].slotId)
  }

  /** Nothing is rolled back: the bookings before a submission stay, in front,
      and each accepted request adds exactly one booking. */
  lemma {:induction false} SubmitOnlyAppends(st: Server.StoreState, reqs: seq<BookingRequest>, now: int)
    ensures var (after, n) := SubmitAll(st, reqs, now);
            st.bookings <= after.bookings && |after.bookings| == |st.bookings| + n
    decreases |reqs|
  {
    if |reqs| > 0 {
      SubmitOnlyAppends(st, reqs[..|reqs| - 1], now);
    }
  }

  /** The booking button tells what a submission of the selection books: with
      nothing selected nothing is sent, and when every call is accepted the
      collection grows by the label's count and the label's total is the
      hourly rate times the bookings added. */
  lemma LabelCountsBookings(st: Server.StoreState, court: Court, date: string, user: UserData,
                            selection: seq<TimeSlot>, now: int)
    ensures var (after, n) := SubmitAll(st, Requests(court, date, user, selection), now);
            var b := BookButtonLabel(court, selection);
            && (b.SelectTimeRange? ==> after == st && n == 0)
            && (b.BookSlots? ==> b.count == |Requests(court, date, user, selection)|)
            && (b.BookSlots? && n == b.count ==>
                  |after.bookings| == |st.bookings| + b.count
                  && b.total == court.pricePerHour * (|after.bookings| - |st.bookings|))
  {
    SubmitOnlyAppends(st, Requests(court, date, user, selection), now);
  }

  lemma {:induction false} SubmitKeepsConsistent(st: Server.StoreState, reqs: seq<BookingRequest>, now: int)
    requires Server.Consistent(st)
    ensures Server.Consistent(SubmitAll(st, reqs, now).0)
    decreases |reqs|
  {
    if |reqs| > 0 {
      SubmitKeepsConsistent(st, reqs[..|reqs| - 1], now);
      var (mid, n) := SubmitAll(st, reqs[..|reqs| - 1], now);
      Server.CreateKeepsConsistent(mid, reqs[|reqs| - 1], now);
    }
  }

  /** After a submission a slot is held exactly when it was held before or a
      complete request asked for it. */
  lemma {:induction false} SubmitTakes(st: Server.StoreState, reqs: seq<BookingRequest>, now: int,
                                      courtId: string, date: string, slotId: string)
    ensures Server.Taken(SubmitAll(st, reqs, now).0.bookings, courtId, date, slotId)
            <==> Server.Taken(st.bookings, courtId, date, slotId) || Requested(reqs, courtId, date, slotId)
    decreases |reqs|
  {
    if |reqs| > 0 {
      var pre, last := reqs[..|reqs| - 1], reqs[|reqs| - 1];
      SubmitTakes(st, pre, now, courtId, date, slotId);
      var (mid, n) := SubmitAll(st, pre, now);
      Server.TakenAfterCreate(mid, last, now, courtId, date, slotId);
      if Requested(reqs, courtId, date, slotId) {
        var k :| 0 <= k < |reqs| && Server.Complete(reqs[k])
          && reqs[k].courtId == courtId && reqs[k].date == date && reqs[k].slotId == slotId;
        if k < |pre| {
          assert pre[k] == reqs[k];
        }
      }
      if Requested(pre, courtId, date, slotId) {
        var k :| 0 <= k < |pre| && Server.Complete(pre[k])
          && pre[k].courtId == courtId && pre[k].date == date && pre[k].slotId == slotId;
        assert reqs[k] == pre[k];
      }
    }
  }

  /** The number of requests whose slot is free in `bookings`. */
  function FreeCount(bookings: seq<Booking>, reqs: seq<BookingRequest>): (n: nat)
    ensures n <= |reqs|
    decreases |reqs|
  {
    if |reqs| == 0 then 0
    else
      var last := reqs[|reqs| - 1];
      FreeCount(bookings, reqs[..|reqs| - 1])
        + (if Server.Taken(bookings, last.courtId, last.date, last.slotId) then 0 else 1)
  }

  /** Sending complete requests for distinct slots succeeds exactly for the
      slots that were free when the submission started. */
  lemma {:induction false} SubmitCountsFreeSlots(st: Server.StoreState, reqs: seq<BookingRequest>, now: int)
    requires AllComplete(reqs) && DistinctSlots(reqs)
    ensures SubmitAll(st, reqs, now).1 == FreeCount(st.bookings, reqs)
    decreases |reqs|
  {
    if |reqs| > 0 {
      var pre, last := reqs[..|reqs| - 1], reqs[|reqs| - 1];
      assert AllComplete(pre) by {
        forall k | 0 <= k < |pre| ensures Server.Complete(pre[k]) { assert pre[k] == reqs[k]; }
      }
      assert DistinctSlots(pre) by {
        forall i, j | 0 <= i < j < |pre|
          ensures !(pre[i].courtId == pre[j].courtId && pre[i].date == pre[j].date && pre[i].slotId == pre[j].slotId)
        {
          assert pre[i] == reqs[i] && pre[j] == reqs[j];
        }
      }
      SubmitCountsFreeSlots(st, pre, now);
      SubmitTakes(st, pre, now, last.courtId, last.date, last.slotId);
      forall k | 0 <= k < |pre|
        ensures !(pre[k].courtId == last.courtId && pre[k].date == last.date && pre[k].slotId == last.slotId)
      {
        assert pre[k] == reqs[k];
      }
      assert !Requested(pre, last.courtId, last.date, last.slotId);
    }
  }

  lemma {:induction false} FullCountIffAllFree(bookings: seq<Booking>, reqs: seq<BookingRequest>)
    ensures FreeCount(bookings, reqs) == |reqs|
            <==> forall k :: 0 <= k < |reqs| ==> !Server.Taken(bookings, reqs[k].courtId, reqs[k].date, reqs[k].slotId)
    decreases |reqs|
  {
    if |reqs| > 0 {
      var pre := reqs[..|reqs| - 1];
      FullCountIffAllFree(bookings, pre);
      assert forall k :: 0 <= k < |pre| ==> pre[k] == reqs[k];
    }
  }

  /** A submission of complete requests for distinct slots books every slot
      exactly when none of them was held when it started. */
  lemma SubmitSucceedsIffAllFree(st: Server.StoreState, reqs: seq<BookingRequest>, now: int)
    requires AllComplete(reqs) && DistinctSlots(reqs)
    ensures SubmitAll(st, reqs, now).1 == |reqs|
            <==> forall k :: 0 <= k < |reqs| ==> !Server.Taken(st.bookings, reqs[k].courtId, reqs[k].date, reqs[k].slotId)
  {
    SubmitCountsFreeSlots(st, reqs, now);
    FullCountIffAllFree(st.bookings, reqs);
  }

  /** Three slots whose middle one another customer already holds: two of
      three are booked, and afterwards all three are held. */
  lemma PartialSuccessOfThree(st: Server.StoreState, reqs: seq<BookingRequest>, now: int)
    requires |reqs| == 3 && AllComplete(reqs) && DistinctSlots(reqs)
    requires !Server.Taken(st.bookings, reqs[0].courtId, reqs[0].date, reqs[0].slotId)
    requires Server.Taken(st.bookings, reqs[1].courtId, reqs[1].date, reqs[1].slotId)
    requires !Server.Taken(st.bookings, reqs[2].courtId, reqs[2].date, reqs[2].slotId)
    ensures SubmitAll(st, reqs, now).1 == 2
    ensures forall k :: 0 <= k < 3 ==>
      Server.Taken(SubmitAll(st, reqs, now).0.bookings, reqs[k].courtId, reqs[k].date, reqs[k].slotId)
  {
    SubmitCountsFreeSlots(st, reqs, now);
    var two, one := reqs[..2], reqs[..1];
    assert reqs[..|reqs| - 1] == two && reqs[|reqs| - 1] == reqs[2];
    assert two[..|two| - 1] == one && two[|two| - 1] == reqs[1];
    assert one[..|one| - 1] == [] && one[|one| - 1] == reqs[0];
    assert FreeCount(st.bookings, one) == 1;
    assert FreeCount(st.bookings, two) == 1;
    forall k | 0 <= k < 3
      ensures Server.Taken(SubmitAll(st, reqs, now).0.bookings, reqs[k].courtId, reqs[k].date, reqs[k].slotId)
    {
      SubmitTakes(st, reqs, now, reqs[k].courtId, reqs[k].date, reqs[k].slotId);
    }
  }

  /** Every slot of a selection that belongs to the page's court and date is
      held after the submission, whether this submission or another customer
      took it. */
  lemma SubmittedSlotsTaken(st: Server.StoreState, court: Court, date: string, user: UserData,
                            selection: seq<TimeSlot>, now: int)
    requires court.id != "" && date != ""
    requires forall s :: s in selection ==> s.id != ""
    ensures forall s :: s in selection ==>
      Server.Taken(SubmitAll(st, Requests(court, date, user, selection), now).0.bookings, court.id, date, s.id)
  {
    var reqs := Requests(court, date, user, selection);
    forall s | s in selection
      ensures Server.Taken(SubmitAll(st, reqs, now).0.bookings, court.id, date, s.id)
    {
      var k :| 0 <= k < |selection| && selection[k] == s;
      assert reqs[k] == SlotRequest(court, date, user, s);
      SubmitTakes(st, reqs, now, court.id, date, s.id);
    }
  }

  // ---------------------------------------------------------------------------
  // The page state
  // ---------------------------------------------------------------------------

  /** A slot of the grid of this court on this date. */
  predicate OfDay(s: TimeSlot, courtId: string, date: string) {
    s.courtId == courtId && s.date == date && s.id == Server.SlotId(courtId, date, s.startTime)
  }

  datatype SubmitReport = NothingSelected | AllBooked(count: nat) | PartlyBooked(succeeded: nat, requested: nat)

  /** The explore page's state and its event handlers. */
  class BookingPage {
    const courts: seq<Court>
    var activeFilter: Filter
    var selectedCourt: Court
    var selectedDate: string
    var slots: seq<TimeSlot>
    var selectedSlots: seq<TimeSlot>
    var isModalOpen: bool
    var showSuccess: bool

    /** The court and date are set and the selected slots are free slots of
        that court's grid on that date. */
    predicate Ready()
      reads this
    {
      && |courts| > 0
      && (forall c :: c in courts ==> c.id != "")
      && selectedCourt.id != "" && selectedDate != ""
      && (forall s :: s in selectedSlots ==> OfDay(s, selectedCourt.id, selectedDate) && !s.isBooked)
    }

    /** Besides, the shown slots are those of the selected court and date. */
    predicate Valid()
      reads this
    {
      Ready() && forall s :: s in slots ==> OfDay(s, selectedCourt.id, selectedDate)
    }

    constructor (courts: seq<Court>, today: string)
      requires |courts| > 0 && (forall c :: c in courts ==> c.id != "") && today != ""
      ensures Valid() && this.courts == courts
      ensures activeFilter == All && selectedCourt == courts[0] && selectedDate == today
      ensures slots == [] && selectedSlots == [] && !isModalOpen && !showSuccess
    {
      this.courts := courts;
      activeFilter := All;
      selectedCourt := courts[0];
      selectedDate := today;
      slots := [];
      selectedSlots := [];
      isModalOpen := false;
      showSuccess := false;
    }

    /** Reload the grid of the current court and date. */
    method FetchSlots(store: Server.BookingStore)
      requires Ready()
      modifies this`slots
      ensures Valid()
      ensures slots == Server.Grid(Server.OperatingHours, selectedCourt.id, selectedDate, store.bookings)
    {
      var response := store.GetSlots(selectedCourt.id, selectedDate);
      if response.Slots? {
        slots := response.data;
      }
    }

    /** A click on a date: the selection is dropped. The grid is reloaded only
        when the date differs, since the fetch is keyed on the court id and
        the date; a click on the current date keeps the shown grid. */
    method SelectDate(date: string, store: Server.BookingStore)
      requires Valid() && date != ""
      modifies this
      ensures Valid()
      ensures selectedDate == date && selectedSlots == []
      ensures selectedCourt == old(selectedCourt) && activeFilter == old(activeFilter)
      ensures isModalOpen == old(isModalOpen) && showSuccess == old(showSuccess)
      ensures date != old(selectedDate) ==>
                slots == Server.Grid(Server.OperatingHours, selectedCourt.id, date, store.bookings)
      ensures date == old(selectedDate) ==> slots == old(slots)
    {
      var changed := date != selectedDate;
      selectedDate := date;
      selectedSlots := [];
      if changed {
        FetchSlots(store);
      }
    }

    /** A click on a court card: the selection is dropped. The grid is reloaded
        only when the court id differs; a click on the current court keeps
        the shown grid. */
    method SelectCourt(court: Court, store: Server.BookingStore)
      requires Valid() && court in courts
      modifies this
      ensures Valid()
      ensures selectedCourt == court && selectedSlots == []
      ensures selectedDate == old(selectedDate) && activeFilter == old(activeFilter)
      ensures isModalOpen == old(isModalOpen) && showSuccess == old(showSuccess)
      ensures court.id != old(selectedCourt.id) ==>
                slots == Server.Grid(Server.OperatingHours, court.id, selectedDate, store.bookings)
      ensures court.id == old(selectedCourt.id) ==> slots == old(slots)
    {
      var changed := court.id != selectedCourt.id;
      selectedCourt := court;
      selectedSlots := [];
      if changed {
        FetchSlots(store);
      }
    }

    /** A click on a sport filter, followed by the court auto-selection. The
        grid is reloaded only when the auto-selection switches to a court with
        another id; otherwise the shown grid stays. */
    method SelectFilter(filter: Filter, store: Server.BookingStore)
      requires Valid()
      modifies this
      ensures Valid()
      ensures activeFilter == filter
      ensures (selectedCourt, selectedSlots) == ApplyFilter(courts, filter, old(selectedCourt), old(selectedSlots))
      ensures selectedDate == old(selectedDate)
      ensures isModalOpen == old(isModalOpen) && showSuccess == old(showSuccess)
      ensures selectedCourt.id != old(selectedCourt.id) ==>
                slots == Server.Grid(Server.OperatingHours, selectedCourt.id, selectedDate, store.bookings)
      ensures selectedCourt.id == old(selectedCourt.id) ==> slots == old(slots)
    {
      activeFilter := filter;
      var (court, selection) := ApplyFilter(courts, filter, selectedCourt, selectedSlots);
      var changed := court.id != selectedCourt.id;
      selectedCourt, selectedSlots := court, selection;
      if changed {
        FetchSlots(store);
      }
    }

    /** A click on a free slot of the grid. */
    method ClickSlot(slot: TimeSlot) returns (alerted: bool)
      requires Valid() && slot in slots && !slot.isBooked
      modifies this`selectedSlots
      ensures Valid()
      ensures Click(selectedSlots, alerted) == SelectSlot(slots, old(selectedSlots), slot)
    {
      var r := SelectSlot(slots, selectedSlots, slot);
      selectedSlots, alerted := r.selection, r.alerted;
    }

    /** The booking button opens the form; it is disabled while nothing is selected. */
    method OpenBookingForm()
      modifies this`isModalOpen
      ensures isModalOpen == (old(isModalOpen) || |selectedSlots| > 0)
    {
      if |selectedSlots| > 0 {
        isModalOpen := true;
      }
    }

    /** The booking form's submission: one create call per selected slot, in
        order, counting the accepted ones. The selection is dropped only when
        every call was accepted; otherwise the counts are reported and the
        selection kept. Accepted bookings are never undone. */
    method Submit(user: UserData, store: Server.BookingStore, now: int) returns (report: SubmitReport)
      requires Valid() && store.Valid()
      modifies this, store
      ensures Valid() && store.Valid()
      ensures old(|selectedSlots|) == 0 ==> report == NothingSelected && store.State() == old(store.State())
      ensures old(|selectedSlots|) == 0 ==> slots == old(slots) && selectedSlots == old(selectedSlots)
      ensures selectedCourt == old(selectedCourt) && selectedDate == old(selectedDate)
      ensures activeFilter == old(activeFilter)
      ensures old(|selectedSlots|) == 0 ==> isModalOpen == old(isModalOpen) && showSuccess == old(showSuccess)
      ensures old(|selectedSlots|) > 0 ==>
        var (after, n) := SubmitAll(old(store.State()), Requests(selectedCourt, selectedDate, user, old(selectedSlots)), now);
        && store.State() == after
        && (n == old(|selectedSlots|) ==> report == AllBooked(n) && selectedSlots == [] && !isModalOpen && showSuccess)
        && (n < old(|selectedSlots|) ==>
              report == PartlyBooked(n, old(|selectedSlots|)) && selectedSlots == old(selectedSlots)
              && isModalOpen == old(isModalOpen) && showSuccess == old(showSuccess))
        && slots == Server.Grid(Server.OperatingHours, selectedCourt.id, selectedDate, store.bookings)
        && forall s, k :: s in old(selectedSlots) && 0 <= k < |slots| && slots[k].id == s.id ==> slots[k].isBooked
    {
      if |selectedSlots| == 0 {
        return NothingSelected;
      }
      ghost var st0 := store.State();
      SubmitShowsSelectionBooked(st0, selectedCourt, selectedDate, user, selectedSlots, now);
      var successCount := BookEach(selectedCourt, selectedDate, user, selectedSlots, store, now);
      if successCount == |selectedSlots| {
        isModalOpen := false;
        selectedSlots := [];
        showSuccess := true;
        report := AllBooked(successCount);
      } else {
        report := PartlyBooked(successCount, |selectedSlots|);
      }
      FetchSlots(store);
    }
  }

  /** The submission loop: one create call per selected slot, in order,
      counting the calls the store accepted. */
  method BookEach(court: Court, date: string, user: UserData, selection: seq<TimeSlot>,
                  store: Server.BookingStore, now: int) returns (successCount: nat)
    requires store.Valid()
    modifies store
    ensures store.Valid()
    ensures (store.State(), successCount) == SubmitAll(old(store.State()), Requests(court, date, user, selection), now)
  {
    var reqs := Requests(court, date, user, selection);
    successCount := 0;
    var k := 0;
    while k < |selection|
      invariant 0 <= k <= |selection|
      invariant store.Valid()
      invariant (store.State(), successCount) == SubmitAll(old(store.State()), reqs[..k], now)
    {
      assert reqs[..k + 1][..k] == reqs[..k];
      var response := store.Create(SlotRequest(court, date, user, selection[k]), now);
      if response.Created? {
        successCount := successCount + 1;
      }
      k := k + 1;
    }
    assert reqs[..k] == reqs;
  }

  /** A submission of slots of the page's court and date keeps the store
      consistent, and the grid fetched afterwards shows every one of them as
      booked. */
  lemma SubmitShowsSelectionBooked(st: Server.StoreState, court: Court, date: string, user: UserData,
                                   selection: seq<TimeSlot>, now: int)
    requires Server.Consistent(st)
    requires court.id != "" && date != ""
    requires forall s :: s in selection ==> OfDay(s, court.id, date)
    ensures var after := SubmitAll(st, Requests(court, date, user, selection), now).0;
            var grid := Server.Grid(Server.OperatingHours, court.id, date, after.bookings);
            && Server.Consistent(after)
            && forall s, k :: s in selection && 0 <= k < |grid| && grid[k].id == s.id ==> grid[k].isBooked
  {
    var after := SubmitAll(st, Requests(court, date, user, selection), now).0;
    SubmitKeepsConsistent(st, Requests(court, date, user, selection), now);
    forall s | s in selection ensures s.id != "" {
      assert |s.id| >= 2;
    }
    SubmittedSlotsTaken(st, court, date, user, selection, now);
    BookedSlotsShowBooked(selection, Server.Grid(Server.OperatingHours, court.id, date, after.bookings),
                          after.bookings, court.id, date);
  }

  /** Slots held in the store read as booked in a grid computed from it. */
  lemma BookedSlotsShowBooked(selection: seq<TimeSlot>, grid: seq<TimeSlot>, bookings: seq<Booking>,
                              courtId: string, date: string)
    requires grid == Server.Grid(Server.OperatingHours, courtId, date, bookings)
    requires forall s :: s in selection ==> Server.Taken(bookings, courtId, date, s.id)
    ensures forall s, k :: s in selection && 0 <= k < |grid| && grid[k].id == s.id ==> grid[k].isBooked
  {
    forall s, k | s in selection && 0 <= k < |grid| && grid[k].id == s.id ensures grid[k].isBooked {
      var i :| 0 <= i < |bookings| && Server.Occupies(bookings[i], courtId, date, s.id);
      assert bookings[i] in bookings;
    }
  }
}
