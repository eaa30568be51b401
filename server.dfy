/** The booking API of server/index.js: the daily slot grid with its
    availability flags, and the booking collection with its create, list and
    cancel operations and the one-booking-per-slot uniqueness rule.

    The collection's transitions are first given as functions on a
    `StoreState` value (so that lemmas can chain them), and the class
    `BookingStore` holds the mutable collection and performs them in place. */
module Server {
  import opened Types
  import Text

  /** The hour boundaries of a day, from opening to closing. */
  const OperatingHours: seq<string> := [
    "06:00", "07:00", "08:00", "09:00", "10:00", "11:00",
    "12:00", "13:00", "14:00", "15:00", "16:00", "17:00",
    "18:00", "19:00", "20:00", "21:00", "22:00"
  ]

  /** The id of the slot of `courtId` on `date` that starts at `time`. */
  function SlotId(courtId: string, date: string, time: string): string {
    courtId + "-" + date + "-" + time
  }

  /** Ids of one court and date differ exactly when their start times differ. */
  lemma SlotIdInjective(courtId: string, date: string, t1: string, t2: string)
    requires SlotId(courtId, date, t1) == SlotId(courtId, date, t2)
    ensures t1 == t2
  {
    var p := courtId + "-" + date + "-";
    assert SlotId(courtId, date, t1) == p + t1 && SlotId(courtId, date, t2) == p + t2;
    assert t1 == (p + t1)[|p|..];
    assert t2 == (p + t2)[|p|..];
  }

  predicate Occupies(b: Booking, courtId: string, date: string, slotId: string) {
    b.courtId == courtId && b.date == date && b.slotId == slotId
  }

  /** Some stored booking holds this slot of this court on this date. */
  predicate Taken(bookings: seq<Booking>, courtId: string, date: string, slotId: string) {
    exists i :: 0 <= i < |bookings| && Occupies(bookings[i], courtId, date, slotId)
  }

  // ---------------------------------------------------------------------------
  // Slot grid (GET /api/slots)
  // ---------------------------------------------------------------------------

  function MakeSlot(hours: seq<string>, i: nat, courtId: string, date: string, bookings: seq<Booking>): TimeSlot
    requires i + 1 < |hours|
  {
    var id := SlotId(courtId, date, hours[i]);
    TimeSlot(id, hours[i], hours[i + 1], Taken(bookings, courtId, date, id), courtId, date)
  }

  /** The slots of one court on one date: one per pair of consecutive hour
      boundaries, flagged booked when a stored booking holds it. */
  function Grid(hours: seq<string>, courtId: string, date: string, bookings: seq<Booking>): (slots: seq<TimeSlot>)
    ensures |slots| == if |hours| == 0 then 0 else |hours| - 1
    ensures forall i :: 0 <= i < |slots| ==>
      && slots[i].startTime == hours[i]
      && slots[i].endTime == hours[i + 1]
      && slots[i].id == SlotId(courtId, date, hours[i])
      && slots[i].courtId == courtId
      && slots[i].date == date
    ensures forall i :: 0 <= i < |slots| ==>
      (slots[i].isBooked <==> exists b :: b in bookings && Occupies(b, courtId, date, slots[i].id))
  {
    if |hours| == 0 then []
    else seq(|hours| - 1, i requires 0 <= i < |hours| - 1 => MakeSlot(hours, i, courtId, date, bookings))
  }

  predicate DistinctHours(hours: seq<string>) {
    forall i, j :: 0 <= i < j < |hours| ==> hours[i] != hours[j]
  }

  /** Distinct hour boundaries give pairwise distinct slot ids. */
  lemma GridIdsDistinct(hours: seq<string>, courtId: string, date: string, bookings: seq<Booking>)
    requires DistinctHours(hours)
    ensures var slots := Grid(hours, courtId, date, bookings);
            forall i, j :: 0 <= i < j < |slots| ==> slots[i].id != slots[j].id
  {
    var slots := Grid(hours, courtId, date, bookings);
    forall i, j | 0 <= i < j < |slots| ensures slots[i].id != slots[j].id {
      if slots[i].id == slots[j].id {
        SlotIdInjective(courtId, date, hours[i], hours[j]);
      }
    }
  }

  /** With no bookings every slot is free. */
  lemma GridAllFreeWithoutBookings(hours: seq<string>, courtId: string, date: string)
    ensures forall s :: s in Grid(hours, courtId, date, []) ==> !s.isBooked
  {
  }

  /** The two-digit, on-the-hour label "hh:00" of hour `h`. */
  function HourMark(h: nat): (mark: string)
    requires h < 100
    ensures |mark| == 5 && '-' !in mark
  {
    [('0' as int + h / 10) as char, ('0' as int + h % 10) as char, ':', '0', '0']
  }

  lemma HourMarkInjective(h1: nat, h2: nat)
    requires h1 < 100 && h2 < 100 && HourMark(h1) == HourMark(h2)
    ensures h1 == h2
  {
    assert HourMark(h1)[0] == HourMark(h2)[0] && HourMark(h1)[1] == HourMark(h2)[1];
  }

  /** The operating hours are the on-the-hour marks from 06:00 to 22:00. */
  lemma HourMarksOfOperatingHours()
    ensures |OperatingHours| == 17
    ensures forall i :: 0 <= i < 17 ==> OperatingHours[i] == HourMark(6 + i)
  {
  }

  lemma OperatingHoursDistinct()
    ensures DistinctHours(OperatingHours)
  {
    HourMarksOfOperatingHours();
    forall i, j | 0 <= i < j < 17 ensures OperatingHours[i] != OperatingHours[j] {
      if OperatingHours[i] == OperatingHours[j] {
        HourMarkInjective(6 + i, 6 + j);
      }
    }
  }

  /** The first and last boundaries of the operating hours. */
  lemma OperatingHoursEnds()
    ensures |OperatingHours| == 17
    ensures OperatingHours[0] == "06:00" && OperatingHours[1] == "07:00"
    ensures OperatingHours[15] == "21:00" && OperatingHours[16] == "22:00"
  {
  }

  /** The operating hours are 17 distinct boundaries, so a day has 16 slots,
      the first 06:00-07:00 and the last 21:00-22:00, with distinct ids. */
  lemma OperatingDay(courtId: string, date: string, bookings: seq<Booking>)
    ensures var slots := Grid(OperatingHours, courtId, date, bookings);
            && |slots| == 16
            && slots[0].startTime == "06:00" && slots[0].endTime == "07:00"
            && slots[15].startTime == "21:00" && slots[15].endTime == "22:00"
            && forall i, j :: 0 <= i < j < |slots| ==> slots[i].id != slots[j].id
  {
    OperatingHoursDistinct();
    OperatingHoursEnds();
    GridIdsDistinct(OperatingHours, courtId, date, bookings);
  }

  datatype SlotsResponse = Slots(data: seq<TimeSlot>) | MissingCourtOrDate
  {
    function Status(): int { if Slots? then 200 else 400 }
  }

  // ---------------------------------------------------------------------------
  // Booking collection
  // ---------------------------------------------------------------------------

  /** The collection of stored bookings and the next id to hand out. */
  datatype StoreState = StoreState(bookings: seq<Booking>, nextId: nat)

  predicate SameSlot(a: Booking, b: Booking) {
    a.courtId == b.courtId && a.date == b.date && a.slotId == b.slotId
  }

  /** Two stored bookings differ in id and in (court, date, slot). */
  predicate Apart(a: Booking, b: Booking) {
    a.id != b.id && !SameSlot(a, b)
  }

  predicate AllApart(bookings: seq<Booking>) {
    forall i, j :: 0 <= i < j < |bookings| ==> Apart(bookings[i], bookings[j])
  }

  /** The store's invariant: ids are unique and below the id counter, and the
      unique index on (courtId, date, slotId) allows one booking per slot. */
  predicate Consistent(st: StoreState) {
    && (forall b :: b in st.bookings ==> b.id < st.nextId)
    && AllApart(st.bookings)
  }

  /** The fields the server demands of a create request. */
  predicate Complete(req: BookingRequest) {
    req.courtId != "" && req.date != "" && req.slotId != ""
  }

  datatype CreateResponse = Created(booking: Booking) | InvalidBookingData | AlreadyBooked
  {
    function Status(): int { if InvalidBookingData? then 400 else 200 }
    predicate Success() { Created? }
  }

  /** POST /api/bookings: reject an incomplete request, report a slot that is
      already held, and otherwise store one new booking. */
  function CreateOn(st: StoreState, req: BookingRequest, now: int): (res: (StoreState, CreateResponse))
    ensures res.1.Created? <==> Complete(req) && !Taken(st.bookings, req.courtId, req.date, req.slotId)
    ensures res.1.InvalidBookingData? <==> !Complete(req)
    ensures !res.1.Created? ==> res.0 == st
    ensures res.1.Created? ==>
      var b := res.1.booking;
      && res.0.bookings == st.bookings + [b]
      && b.courtId == req.courtId && b.slotId == req.slotId && b.date == req.date
      && b.userName == req.userName && b.userEmail == req.userEmail && b.userPhone == req.userPhone
      && b.createdAt == now
      && (Consistent(st) ==> forall x :: x in st.bookings ==> x.id != b.id)
  {
    if !Complete(req) then (st, InvalidBookingData)
    else if Taken(st.bookings, req.courtId, req.date, req.slotId) then (st, AlreadyBooked)
    else
      var b := Booking(st.nextId, req.courtId, req.slotId, req.date, req.userName, req.userEmail, req.userPhone, now);
      (StoreState(st.bookings + [b], st.nextId + 1), Created(b))
  }

  /** Creating a booking keeps the store consistent: no slot is ever held twice. */
  lemma CreateKeepsConsistent(st: StoreState, req: BookingRequest, now: int)
    requires Consistent(st)
    ensures Consistent(CreateOn(st, req, now).0)
  {
    var (st', r) := CreateOn(st, req, now);
    if r.Created? {
      var bs, b := st.bookings, r.booking;
      forall i, j | 0 <= i < j < |st'.bookings| ensures Apart(st'.bookings[i], st'.bookings[j]) {
        if j == |bs| {
          assert st'.bookings[i] == bs[i];
          assert !Occupies(bs[i], req.courtId, req.date, req.slotId);
        }
      }
    }
  }

  /** After a create, the requested slot is held whenever the request was
      complete, whether this call stored it or an earlier one did. */
  lemma CreateLeavesSlotTaken(st: StoreState, req: BookingRequest, now: int)
    requires Complete(req)
    ensures Taken(CreateOn(st, req, now).0.bookings, req.courtId, req.date, req.slotId)
  {
    var (st', r) := CreateOn(st, req, now);
    if r.Created? {
      assert Occupies(st'.bookings[|st.bookings|], req.courtId, req.date, req.slotId);
    }
  }

  /** After a create, a slot is held exactly when it was held before or the
      request was complete and asked for it. */
  lemma TakenAfterCreate(st: StoreState, req: BookingRequest, now: int, courtId: string, date: string, slotId: string)
    ensures Taken(CreateOn(st, req, now).0.bookings, courtId, date, slotId)
            <==> Taken(st.bookings, courtId, date, slotId)
                 || (Complete(req) && req.courtId == courtId && req.date == date && req.slotId == slotId)
  {
    var (st', r) := CreateOn(st, req, now);
    if r.Created? {
      var n := |st.bookings|;
      if Taken(st.bookings, courtId, date, slotId) {
        var i :| 0 <= i < n && Occupies(st.bookings[i], courtId, date, slotId);
        assert st'.bookings[i] == st.bookings[i];
      }
      if Taken(st'.bookings, courtId, date, slotId) {
        var i :| 0 <= i < n + 1 && Occupies(st'.bookings[i], courtId, date, slotId);
        if i < n {
          assert st.bookings[i] == st'.bookings[i];
        }
      }
      assert Occupies(st'.bookings[n], req.courtId, req.date, req.slotId);
    } else if Complete(req) && req.courtId == courtId && req.date == date && req.slotId == slotId {
      assert Taken(st.bookings, courtId, date, slotId);
    }
  }

  /** A second request for a slot that a first request just took is refused. */
  lemma SecondCreateConflicts(st: StoreState, req1: BookingRequest, req2: BookingRequest, now1: int, now2: int)
    requires CreateOn(st, req1, now1).1.Created?
    requires req2.courtId == req1.courtId && req2.date == req1.date && req2.slotId == req1.slotId
    ensures CreateOn(CreateOn(st, req1, now1).0, req2, now2).1 == AlreadyBooked
    ensures CreateOn(CreateOn(st, req1, now1).0, req2, now2).0 == CreateOn(st, req1, now1).0
  {
    CreateLeavesSlotTaken(st, req1, now1);
  }

  /** The bookings whose e-mail equals `email` up to ASCII case, in stored order. */
  function WithEmail(bookings: seq<Booking>, email: string): (r: seq<Booking>)
    ensures forall b :: b in r <==> b in bookings && Text.EqualsIgnoreCase(b.userEmail, email)
    ensures forall b :: multiset(r)[b] == if Text.EqualsIgnoreCase(b.userEmail, email) then multiset(bookings)[b] else 0
    ensures |r| <= |bookings|
    decreases |bookings|
  {
    if |bookings| == 0 then []
    else
      var rest := WithEmail(bookings[1..], email);
      assert bookings == [bookings[0]] + bookings[1..];
      if Text.EqualsIgnoreCase(bookings[0].userEmail, email) then [bookings[0]] + rest else rest
  }

  /** Queries that differ only in the case of ASCII letters find the same bookings. */
  lemma {:induction false} WithEmailIgnoresCase(bookings: seq<Booking>, e1: string, e2: string)
    requires Text.LowerStr(e1) == Text.LowerStr(e2)
    ensures WithEmail(bookings, e1) == WithEmail(bookings, e2)
    decreases |bookings|
  {
    if |bookings| > 0 {
      WithEmailIgnoresCase(bookings[1..], e1, e2);
    }
  }

  datatype ListResponse = Found(data: seq<Booking>) | EmailRequired
  {
    function Status(): int { if Found? then 200 else 400 }
  }

  predicate HasId(bookings: seq<Booking>, id: nat) {
    exists i :: 0 <= i < |bookings| && bookings[i].id == id
  }

  /** The bookings other than the one with id `id`, in stored order. */
  function WithoutId(bookings: seq<Booking>, id: nat): (r: seq<Booking>)
    ensures forall b :: b in r <==> b in bookings && b.id != id
    ensures !HasId(r, id)
    decreases |bookings|
  {
    if |bookings| == 0 then []
    else
      var rest := WithoutId(bookings[1..], id);
      if bookings[0].id == id then rest else [bookings[0]] + rest
  }

  /** Removing a booking keeps every remaining pair apart. */
  lemma {:induction false} WithoutIdKeepsApart(bookings: seq<Booking>, id: nat)
    requires AllApart(bookings)
    ensures AllApart(WithoutId(bookings, id))
    decreases |bookings|
  {
    if |bookings| > 0 {
      var x, tail := bookings[0], bookings[1..];
      assert AllApart(tail) by {
        forall i, j | 0 <= i < j < |tail| ensures Apart(tail[i], tail[j]) {
          assert tail[i] == bookings[i + 1] && tail[j] == bookings[j + 1];
        }
      }
      WithoutIdKeepsApart(tail, id);
      var rest := WithoutId(tail, id);
      if x.id != id {
        var r := [x] + rest;
        forall i, j | 0 <= i < j < |r| ensures Apart(r[i], r[j]) {
          if i == 0 {
            assert r[j] in tail;
            var k :| 0 <= k < |tail| && tail[k] == r[j];
            assert bookings[k + 1] == r[j];
          } else {
            assert r[i] == rest[i - 1] && r[j] == rest[j - 1];
          }
        }
      }
    }
  }

  datatype CancelResponse = Cancelled | NotFound
  {
    function Status(): int { if Cancelled? then 200 else 404 }
  }

  /** DELETE /api/bookings/:id: remove the booking with that id, or report
      that there is none. */
  function CancelOn(st: StoreState, id: nat): (res: (StoreState, CancelResponse))
    ensures res.1.Cancelled? <==> HasId(st.bookings, id)
    ensures res.0.nextId == st.nextId
    ensures res.1.NotFound? ==> res.0 == st
    ensures !HasId(res.0.bookings, id)
    ensures forall b :: b in res.0.bookings <==> b in st.bookings && b.id != id
  {
    if HasId(st.bookings, id) then (StoreState(WithoutId(st.bookings, id), st.nextId), Cancelled)
    else (st, NotFound)
  }

  lemma CancelKeepsConsistent(st: StoreState, id: nat)
    requires Consistent(st)
    ensures Consistent(CancelOn(st, id).0)
  {
    if HasId(st.bookings, id) {
      WithoutIdKeepsApart(st.bookings, id);
    }
  }

  /** A second cancel of the same id finds nothing. */
  lemma SecondCancelNotFound(st: StoreState, id: nat)
    ensures CancelOn(CancelOn(st, id).0, id) == (CancelOn(st, id).0, NotFound)
  {
  }

  /** Cancelling a booking frees its slot: with one booking per slot, no
      booking holds that slot afterwards. */
  lemma CancelFreesSlot(st: StoreState, b: Booking)
    requires Consistent(st)
    requires b in st.bookings
    ensures CancelOn(st, b.id).1 == Cancelled
    ensures !Taken(CancelOn(st, b.id).0.bookings, b.courtId, b.date, b.slotId)
  {
    var bs := st.bookings;
    var k :| 0 <= k < |bs| && bs[k] == b;
    var rest := CancelOn(st, b.id).0.bookings;
    forall i | 0 <= i < |rest| ensures !Occupies(rest[i], b.courtId, b.date, b.slotId) {
      assert rest[i] in bs && rest[i].id != b.id;
      var m :| 0 <= m < |bs| && bs[m] == rest[i];
      assert m != k;
      if m < k { assert Apart(bs[m], bs[k]); } else { assert Apart(bs[k], bs[m]); }
    }
  }

  /** After a successful cancel, the cancelled slot reads as free in the grid
      of its court and date. */
  lemma CancelledSlotReadsFree(st: StoreState, b: Booking, hours: seq<string>, k: nat)
    requires Consistent(st)
    requires b in st.bookings
    requires k < |Grid(hours, b.courtId, b.date, st.bookings)|
    requires Grid(hours, b.courtId, b.date, st.bookings)[k].id == b.slotId
    ensures Grid(hours, b.courtId, b.date, st.bookings)[k].isBooked
    ensures !Grid(hours, b.courtId, b.date, CancelOn(st, b.id).0.bookings)[k].isBooked
  {
    CancelFreesSlot(st, b);
    var after := CancelOn(st, b.id).0.bookings;
    forall x | x in after ensures !Occupies(x, b.courtId, b.date, b.slotId) {
      var i :| 0 <= i < |after| && after[i] == x;
    }
  }

  /** The server's booking collection, changed in place by its handlers. */
  class BookingStore {
    var bookings: seq<Booking>
    var nextId: nat

    function State(): StoreState
      reads this
    {
      StoreState(bookings, nextId)
    }

    predicate Valid()
      reads this
    {
      Consistent(State())
    }

    constructor ()
      ensures Valid() && bookings == []
    {
      bookings := [];
      nextId := 0;
    }

    /** GET /api/slots: the day's grid for one court and date with each slot's
        availability; a missing court or date is a bad request. */
    method GetSlots(courtId: string, date: string) returns (r: SlotsResponse)
      ensures r.MissingCourtOrDate? <==> courtId == "" || date == ""
      ensures r.Status() == 400 <==> courtId == "" || date == ""
      ensures r.Slots? ==> r.data == Grid(OperatingHours, courtId, date, bookings)
      ensures r.Slots? ==> |r.data| == 16
    {
      if courtId == "" || date == "" {
        r := MissingCourtOrDate;
      } else {
        OperatingDay(courtId, date, bookings);
        r := Slots(Grid(OperatingHours, courtId, date, bookings));
      }
    }

    /** POST /api/bookings. */
    method Create(req: BookingRequest, now: int) returns (r: CreateResponse)
      requires Valid()
      modifies this
      ensures Valid()
      ensures (State(), r) == CreateOn(old(State()), req, now)
      ensures r.Status() == 400 <==> !Complete(req)
      ensures r.Success() <==> Complete(req) && !Taken(old(bookings), req.courtId, req.date, req.slotId)
    {
      CreateKeepsConsistent(State(), req, now);
      if !Complete(req) {
        return InvalidBookingData;
      }
      if Taken(bookings, req.courtId, req.date, req.slotId) {
        return AlreadyBooked;
      }
      var b := Booking(nextId, req.courtId, req.slotId, req.date, req.userName, req.userEmail, req.userPhone, now);
      bookings := bookings + [b];
      nextId := nextId + 1;
      r := Created(b);
    }

    /** GET /api/my-bookings: the bookings made with an e-mail address, up to
        ASCII case; a missing address is a bad request. */
    method ListByEmail(email: string) returns (r: ListResponse)
      ensures r.EmailRequired? <==> email == ""
      ensures r.Status() == 400 <==> email == ""
      ensures r.Found? ==> forall b :: b in r.data <==> b in bookings && Text.EqualsIgnoreCase(b.userEmail, email)
      ensures r.Found? ==> r.data == WithEmail(bookings, email)
    {
      if email == "" {
        r := EmailRequired;
      } else {
        r := Found(WithEmail(bookings, email));
      }
    }

    /** DELETE /api/bookings/:id. */
    method Cancel(id: nat) returns (r: CancelResponse)
      requires Valid()
      modifies this
      ensures Valid()
      ensures (State(), r) == CancelOn(old(State()), id)
      ensures r.Status() == 404 <==> !HasId(old(bookings), id)
    {
      CancelKeepsConsistent(State(), id);
      if !HasId(bookings, id) {
        return NotFound;
      }
      bookings := WithoutId(bookings, id);
      r := Cancelled;
    }
  }
}
