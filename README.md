# Court booking: slot availability and booking consistency

A Dafny model of the booking core of a sports-court booking application.
The application has three parts:

- An Express/MongoDB server that serves a day's grid of one-hour slots per court.
- A React "explore" page where a customer books slots.
  - The customer picks a sport filter, a court and a date.
  - Two clicks select a contiguous range of free slots.
  - The booking form sends one create request per selected slot.
- A "My Bookings" view that looks bookings up by e-mail, shows them newest first and cancels them.

The model has five modules:

- `Types` (`types.dfy`): the shared records.
  - `Court`, `TimeSlot` and `Booking`.
  - `BookingRequest`, the body of a create request.
  - `UserData`, the customer details of the form.
- `Text` (`text.dfy`): ASCII case folding and JavaScript's `split` on a one-character separator, with its inverse `Join`.
- `Server` (`server.dfy`): the server's logic.
  - The slot grid: `Grid`, over the 17 operating-hour boundaries.
  - The booking collection's transitions as functions on a `StoreState` value: `CreateOn`, `WithEmail` and `CancelOn`.
  - Its invariant `Consistent`: unique ids, and at most one booking per (court, date, slot), the rule the unique index enforces.
  - The class `BookingStore`, which holds the collection and changes it in place. Each handler is specified by the matching transition function.
- `App` (`app.dfy`): the explore page.
  - The click reducer `SelectSlot`.
  - The sport filter and the court auto-selection.
  - The booking button's label.
  - The submission fold `SubmitAll`, with its loop `BookEach`.
  - The class `BookingPage`, which holds the page's state and handlers.
- `MyBookings` (`my_bookings.dfy`): the My Bookings view.
  - `SlotTime`, which reads the start time back out of a slot id.
  - `SortNewestFirst`, the newest-first ordering.
  - The class `MyBookingsView`.

Modelling choices:

- An empty string stands for a field that is absent or empty. The server treats both as missing.
- Store ids are natural numbers from a counter.
- Creation times are opaque integers. The caller passes in the current instant as `now`.
- The page calls the store model directly, so there is no network between them.

Two points of the server's behaviour the model follows:

- A create request is rejected as incomplete only when `courtId`, `date` or `slotId` is missing. The customer's name, e-mail and phone are not checked (server/index.js:87).
- A taken slot is found by a lookup before the insert, and is reported with status 200 and `success: false` (server/index.js:93-101). The unique index is not what rejects it.

## Model

| member | source | states |
|---|---|---|
| Server.Grid | server/index.js:59-75 | an hours list of N entries gives N-1 slots (none for an empty list). Slot i runs from hour i to hour i+1, has id `courtId-date-hour i` and carries the court and date. It is booked iff some stored booking has that court, date and slot id |
| Server.SlotIdInjective | server/index.js:64 | two slot ids of the same court and date are equal only if their start times are |
| Server.GridIdsDistinct | server/index.js:62-64 | distinct hour boundaries give pairwise distinct slot ids within one grid |
| Server.GridAllFreeWithoutBookings | server/index.js:60-65 | with no stored bookings every slot of the grid is free |
| Server.HourMarksOfOperatingHours | server/index.js:46-50 | the operating hours are the 17 on-the-hour marks 06:00 … 22:00 |
| Server.OperatingHoursEnds | server/index.js:46-50 | there are 17 boundaries, the first two 06:00 and 07:00, the last two 21:00 and 22:00 |
| Server.OperatingHoursDistinct | server/index.js:46-50 | the 17 operating-hour boundaries are pairwise distinct |
| Server.OperatingDay | server/index.js:46-50 | a day has 16 slots, 06:00-07:00 first and 21:00-22:00 last, with pairwise distinct ids |
| Server.BookingStore.GetSlots | server/index.js:53-81 | the answer is a bad request (status 400) iff the court or the date is missing. Otherwise it is the 16-slot grid of that court and date over the stored bookings, and the store is not changed |
| Server.CreateOn | server/index.js:84-117 | a request is invalid iff courtId, date or slotId is missing. It creates a booking iff it is complete and its slot is free. Otherwise the state is unchanged. A new booking is appended with the request's fields, creation time `now` and an id unused in a consistent store |
| Server.CreateKeepsConsistent | server/index.js:42 | every create keeps ids unique and leaves at most one booking per (court, date, slot) |
| Server.CreateLeavesSlotTaken | server/index.js:93-104 | after a complete request, its slot is held, by this booking or an earlier one |
| Server.TakenAfterCreate | server/index.js:87-104 | after a create, a slot is held iff it was held before or the request was complete and asked for it |
| Server.SecondCreateConflicts | server/index.js:93-101 | a second request for a slot a first request just took is answered "already booked" and changes nothing |
| Server.BookingStore.Create | server/index.js:84-117 | the in-place create performs exactly CreateOn and keeps the store consistent. The status is 400 iff the request is incomplete, and it succeeds iff the request is complete and its slot was free |
| Server.WithEmail | server/index.js:128-130 | the result holds exactly the stored bookings whose e-mail equals the query up to ASCII case, each as often as it is stored, and is no longer than the collection |
| Server.WithEmailIgnoresCase | server/index.js:129 | queries that differ only in ASCII letter case find the same bookings |
| Server.BookingStore.ListByEmail | server/index.js:120-144 | a missing e-mail is a bad request (status 400), and only it is. Otherwise the answer holds exactly the bookings whose e-mail matches up to case, and the store is not changed |
| Server.WithoutId | server/index.js:151 | the result holds exactly the bookings with another id, and none with this id |
| Server.WithoutIdKeepsApart | server/index.js:151 | removing a booking keeps all remaining pairs apart in id and slot |
| Server.CancelOn | server/index.js:147-161 | a cancel succeeds iff a booking has that id. That booking and only it is removed, and the id counter is kept. An unknown id changes nothing |
| Server.CancelKeepsConsistent | server/index.js:147-161 | every cancel keeps the store consistent |
| Server.SecondCancelNotFound | server/index.js:151-155 | cancelling the same id twice gives "not found" the second time and changes nothing then |
| Server.CancelFreesSlot | server/index.js:151-157 | cancelling a stored booking succeeds, and no booking holds its slot afterwards |
| Server.CancelledSlotReadsFree | server/index.js:151-157 | the cancelled booking's slot reads booked in its grid before the cancel and free after it |
| Server.BookingStore.Cancel | server/index.js:147-161 | the in-place cancel performs exactly CancelOn and keeps the store consistent. The status is 404 iff no booking had the id |
| App.FindIndex | App.tsx:67-68 | the result is -1 iff no slot has the id. Otherwise it is the first position whose slot has the id |
| App.SelectSlot | App.tsx:60-84 | with 0 or at least 2 slots selected, the click starts a new selection `[clicked]`. A click involving a slot missing from the grid changes nothing. An alert always leaves `[clicked]` selected. With both slots found, the click is the range click between their first positions |
| App.RangeClick | App.tsx:72-82 | the inclusive range between the two positions, taken in either order, is refused with an alert iff one of its slots is booked. A refused range leaves `[clicked]`. An accepted range is that slice of the grid, each of its end slots is one of the two clicked positions, and all its slots are free |
| App.SliceBooked | App.tsx:76 | a slice of the grid holds a booked slot iff the grid has one between the slice's ends. Otherwise every slot in it is free |
| App.SecondClick | App.tsx:66-82 | a second click with one slot selected and both slots in the grid: the range is refused with an alert iff a slot between the two positions is booked, and then the selection is the clicked slot. Otherwise the selection is the contiguous slice of the grid between them, its end slots are the two clicked slots, and all are free |
| App.SelectionOrderIndependent | App.tsx:72-73 | clicking the same two slots in either order gives the same verdict and, when accepted, the same range |
| App.RefusedRangeKeepsSecondClick | App.tsx:76-79 | a range with a booked slot between its ends is neither trimmed nor kept: the selection becomes the second click alone, with an alert |
| App.FilteredCourts | App.tsx:25-27 | the filter "All" keeps the catalogue. A sport keeps exactly the catalogue's courts of that sport |
| App.AutoSelectCourt | App.tsx:30-34 | the current court is kept iff the filter shows it. Otherwise the result is exactly the first shown court, or exactly the catalogue's first court when none is shown |
| App.FirstShownLeads | App.tsx:25-27 | the first court of the filtered list is the first court of the catalogue that the filter shows |
| App.ApplyFilterAsWritten | App.tsx:30-34 | a filter change as written: the court is auto-selected, and the selection is kept whatever the court becomes |
| App.FilterSwitchBooksStaleSlot | App.tsx:30-34 | as written, choosing Cricket while a Football court's 09:00 slot is selected switches to the Cricket court but keeps the slot. Submitting it stores a booking under the Cricket court with the Football court's slot id, and the Football court's grid still shows 09:00 free |
| App.ApplyFilter | App.tsx:30-34 | the corrected filter change: the same auto-selected court, and the selection dropped iff the court changes |
| App.FilterKeepsSelectionOfCourt | App.tsx:30-34 | with the correction, a selection of the current court and date always belongs to the court shown after a filter change |
| App.BookButtonLabel | App.tsx:246-248 | "Select Time Range" iff nothing is selected. Otherwise the number of selected slots and their price, the court's hourly rate times that number |
| App.Requests | App.tsx:93-101 | one create request per selected slot, in order, each with the page's court and date, the slot's id and the form's customer details |
| App.SubmitAll | App.tsx:90-103 | the store after sending the requests in order, and the number accepted, which is at most the number of requests |
| App.LabelCountsBookings | App.tsx:246-248 | the button's label matches what the submission books. With nothing selected nothing is sent. Otherwise the label counts one request per slot, and when all are accepted the collection grows by that count and the total is the hourly rate times the bookings added |
| App.SubmitOnlyAppends | App.tsx:93-103 | nothing is rolled back: the earlier bookings stay in front, and each accepted request adds exactly one booking |
| App.SubmitKeepsConsistent | App.tsx:93-103 | a submission keeps the store consistent |
| App.SubmitTakes | App.tsx:93-103 | after a submission, a slot is held iff it was held before or a complete request asked for it |
| App.FreeCount | App.tsx:102 | the number of requests whose slot is free is at most the number of requests |
| App.SubmitCountsFreeSlots | App.tsx:102 | for complete requests for distinct slots, the success count is the number of slots that were free at the start |
| App.FullCountIffAllFree | App.tsx:105 | every request is counted free iff no requested slot is held |
| App.SubmitSucceedsIffAllFree | App.tsx:105 | for complete requests for distinct slots, every call succeeds iff no requested slot was held at the start |
| App.PartialSuccessOfThree | App.tsx:102-116 | of three slots whose middle one is already held, two are booked, and afterwards all three are held |
| App.SubmittedSlotsTaken | App.tsx:93-103 | after a submission every selected slot is held at the page's court and date |
| App.BookEach | App.tsx:93-103 | the loop makes one create call per selected slot, in order, and its store and count are those of SubmitAll |
| App.BookedSlotsShowBooked | App.tsx:105-116 | slots held in the store read as booked in the grid fetched from it |
| App.SubmitShowsSelectionBooked | App.tsx:93-115 | a submission of slots of the page's court and date keeps the store consistent, and the grid fetched afterwards shows each of them booked |
| App.BookingPage.constructor | App.tsx:15-23 | the page starts with filter All, the catalogue's first court, today's date and no slots or selection |
| App.BookingPage.FetchSlots | App.tsx:47-54 | the shown slots become the grid of the selected court and date |
| App.BookingPage.SelectDate | App.tsx:163-166 | a date click drops the selection and keeps the court and filter. The grid is reloaded iff the date differs, otherwise the shown grid stays |
| App.BookingPage.SelectCourt | App.tsx:202-205 | a court click drops the selection and keeps the date and filter. The grid is reloaded iff the court id differs, otherwise the shown grid stays |
| App.BookingPage.SelectFilter | App.tsx:30-34 | a filter change sets the filter and applies the corrected auto-selection. The grid is reloaded iff the court id changes, otherwise the shown grid stays |
| App.BookingPage.ClickSlot | App.tsx:60-84 | a click on a free slot of the grid updates the selection as SelectSlot says, and the selection stays free slots of the shown court and date |
| App.BookingPage.OpenBookingForm | App.tsx:235-237 | the form opens only when something is selected |
| App.BookingPage.Submit | App.tsx:86-117 | an empty selection sends nothing and changes nothing. Otherwise the store ends as SubmitAll says. If every call succeeded, the selection is cleared, the form closed and the success banner shown. Otherwise the counts "k out of n" are reported, and the selection, the form and the banner are kept. The court, date and filter are kept. Either way the grid is reloaded and shows every selected slot as booked |
| MyBookings.SlotTime | components/MyBookingsView.tsx:124-125 | an id with fewer than three `-`-separated fields (an empty id included) shows "00:00". Otherwise the time is the text after the id's last `-` |
| MyBookings.SlotTimeOfSlotId | components/MyBookingsView.tsx:124-125 | for an id built as `courtId-date-time` with no `-` in the time, the shown time is that time, although the date contains `-` |
| MyBookings.OperatingSlotTimes | components/MyBookingsView.tsx:124-125 | every slot of an operating day shows its own start time |
| MyBookings.PrependNewest | components/MyBookingsView.tsx:27 | a booking no older than any in a newest-first list can go in front of it |
| MyBookings.InsertNewestFirst | components/MyBookingsView.tsx:27 | inserting a booking into a newest-first list keeps it newest first and adds exactly that booking |
| MyBookings.InsertBehindHead | components/MyBookingsView.tsx:27 | a booking older than the head of a newest-first list is inserted behind it, keeping the order and the contents |
| MyBookings.SortNewestFirst | components/MyBookingsView.tsx:27 | the result is ordered by creation time, newest first, and is a permutation of the input |
| MyBookings.MyBookingsView.constructor | components/MyBookingsView.tsx:8-11 | the view starts with no e-mail, no search, no bookings and not loading |
| MyBookings.MyBookingsView.EnterEmail | components/MyBookingsView.tsx:59 | typing sets the e-mail |
| MyBookings.MyBookingsView.RefreshBookings | components/MyBookingsView.tsx:19-30 | marks the search done and ends not loading. A successful fetch shows a newest-first permutation of the bookings matching the e-mail. A failed fetch (missing e-mail) keeps the previous list |
| MyBookings.MyBookingsView.HandleSearch | components/MyBookingsView.tsx:13-17 | an empty e-mail changes nothing. Otherwise the view shows the matching bookings, newest first |
| MyBookings.MyBookingsView.HandleCancel | components/MyBookingsView.tsx:32-43 | the store performs CancelOn. A failed cancel keeps the list. A successful one refetches. With an e-mail entered, the list no longer shows the cancelled id. With none, the refetch is refused and the list stays |
| Text.Extend | components/MyBookingsView.tsx:124 | one more character adds an empty part if it is the separator, and otherwise extends only the last part |
| Text.Split | components/MyBookingsView.tsx:124 | `split` gives one more part than there are separators |
| Text.SplitSnoc | components/MyBookingsView.tsx:124 | appending a character to a string extends its parts |
| Text.SplitPartsLackSep | components/MyBookingsView.tsx:124 | no part of a split contains the separator |
| Text.JoinExtend | components/MyBookingsView.tsx:124 | joining extended parts gives the joined string plus the character |
| Text.ExtendAppend | components/MyBookingsView.tsx:124 | extending the parts of `pa + pb`, with `pb` nonempty, extends the parts of `pb` only |
| Text.JoinSplit | components/MyBookingsView.tsx:124 | joining the parts of a split with the separator gives back the string |
| Text.SplitAtSep | components/MyBookingsView.tsx:124 | the parts of `a + sep + b` are the parts of `a` followed by the parts of `b` |
| Text.SplitNoSep | components/MyBookingsView.tsx:124 | a string without the separator splits into itself alone |
| Text.SplitLastIsSuffix | components/MyBookingsView.tsx:125 | the last part of a split is the suffix after the last separator |
| Text.CountedCharOccurs | components/MyBookingsView.tsx:124 | a character counted a positive number of times occurs in the string |

## Left out

- Express, body-parser, CORS, the MongoDB connection, the mapping of `_id` to `id`, and `app.listen` (server/index.js:1-28, 106-110, 163-168) are not modelled. The collection is an in-memory sequence with a counter for ids.
- The 500 answers for storage errors are not modelled (server/index.js:78-80, 113-116, 141-143, 158-160). This includes an id that is not a valid ObjectId on cancel. The model is sequential and storage never fails.
- Concurrent creates are not modelled. Two requests for one slot can both pass the lookup at server/index.js:93. The unique index then makes the second `save` throw, and the client sees 500, not "already booked".
- Server.WithEmail: the e-mail is interpolated unescaped into a regular expression (server/index.js:129), so characters such as `.` act as wildcards. The `i` flag also folds non-ASCII letters. The model matches by exact equality up to ASCII case only.
- Query parameters given as arrays or objects are not modelled. The model treats every field as a plain string.
- A client-supplied `createdAt` in the create body is not modelled. The model's booking always gets the server's `now`.
- The client's network layer (`services/mockBackend.ts`) is not part of this model. It turns network errors into `success: false`. The page calls the store model directly, so a request that never reaches the server is not represented.
- App.BookingPage.Submit: one instant `now` is used for all bookings of a submission. The `isSubmitting` flag and the 5-second timer that hides the success banner (App.tsx:89, 106, 111, 113) are not modelled. The alert text becomes the `PartlyBooked` report.
- Dates, the clock and timers are not modelled: today's date and the seven date options (App.tsx:17, 36-45), and the 800 ms delay (components/MyBookingsView.tsx:23). Dates are opaque strings. Parsing `createdAt` into a `Date` is replaced by an integer.
- The `confirm` dialog before a cancel and the `alert` after a failed one are not modelled. The model assumes the customer confirmed and reports the outcome as the returned `CancelResponse`.
- The `loadingSlots` and `activeView` flags are not modelled, nor the effect that refetches slots on a view change (App.tsx:19, 56-58). The grid is fetched by the handler that changes the court id or the date, and only when one of them changes, as the fetch is keyed on them (App.tsx:47-54).
- Rendering and styling (Layout, Navbar, CourtCard, SlotSelector, BookingModal) are not modelled. The disabled button on booked slots (components/SlotSelector.tsx:34) becomes the precondition of App.BookingPage.ClickSlot.
- The static catalogue (`constants.tsx`) is a parameter of the page's constructor.
- MyBookings.SortNewestFirst: stability is not stated. The insertion keeps bookings with equal creation times in their original order, but no lemma states it. The JavaScript sort sorts the fetched array in place. The model computes the sorted list as a value, because that array is not shared with anything else.
- MyBookings.MyBookingsView.HandleCancel: cancel ids are the model's natural numbers, not ObjectId strings.

## Findings

| source | as written | input that shows it | evidently intended | confidence | as-written member | corrected member |
|---|---|---|---|---|---|---|
| App.tsx:30-34 | When the filter hides the selected court, the effect switches to another court but keeps the selected slots. A direct court or date change clears them (App.tsx:165, 204). | Football court c1 with slot `c1-2026-10-15-09:00` selected, then the Cricket filter: the court becomes c2 and the slot stays. Submitting books court c2 with the slot id of c1, and c1's 09:00 still reads free. | Clear the selection whenever the court changes, as the court and date handlers do. | not executed | App.ApplyFilterAsWritten, App.FilterSwitchBooksStaleSlot | App.ApplyFilter, App.FilterKeepsSelectionOfCourt |
