/** The records shared by the client and the server (types.ts and the
    booking schema of server/index.js). */
module Types {

  datatype SportType = Football | Cricket | Badminton | Tennis

  /** A venue of the static catalogue. The image, rating and location are
      display data and are not part of this model. */
  datatype Court = Court(id: string, name: string, sport: SportType, pricePerHour: int)

  /** One bookable hour of one court on one date, as served by the slots query. */
  datatype TimeSlot = TimeSlot(
    id: string,
    startTime: string,
    endTime: string,
    isBooked: bool,
    courtId: string,
    date: string)

  /** A stored booking. The store's generated id is a number here, and the
      creation time is an opaque instant. */
  datatype Booking = Booking(
    id: nat,
    courtId: string,
    slotId: string,
    date: string,
    userName: string,
    userEmail: string,
    userPhone: string,
    createdAt: int)

  /** The body of a create request: a booking without id and creation time.
      An empty string stands for a field that is absent or empty, both of
      which the server treats as missing. */
  datatype BookingRequest = BookingRequest(
    courtId: string,
    slotId: string,
    date: string,
    userName: string,
    userEmail: string,
    userPhone: string)

  /** The customer details entered in the booking form. */
  datatype UserData = UserData(name: string, email: string, phone: string)
}
