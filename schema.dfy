/** The rows of the booking plugin's tables, as values: booking types, slots,
    bookings and add-ons. Dates are day numbers (the `DATE` columns and the
    client's `YYYY-MM-DD` keys are compared only for equality and order);
    money is in integer minor units. */
module Schema {
  import opened Text

  /** A calendar day as a day number. */
  type Date = int

  /** The `type_category` column. Categories other than the four the code
      tests for fall into `OtherCategory`. */
  datatype Category = Hall | Staircase | IndividualTour | EventTour | OtherCategory

  /** The `status` column of a booking. */
  datatype Status = Pending | Approved | Rejected

  function StatusName(s: Status): string
  {
    match s
    case Pending => "pending"
    case Approved => "approved"
    case Rejected => "rejected"
  }

  /** The status names `update_booking_status` accepts. */
  function ParseStatus(s: string): (r: Option<Status>)
    ensures r.Some? ==> StatusName(r.value) == s
    ensures forall st :: s == StatusName(st) ==> r == Some(st)
  {
    if s == "approved" then Some(Approved)
    else if s == "rejected" then Some(Rejected)
    else if s == "pending" then Some(Pending)
    else None
  }

  /** Only pending and approved bookings take up availability. */
  predicate IsActive(s: Status) { s == Pending || s == Approved }

  /** A row of `bt_booking_types` with the settings the code reads from it.
      `weekendDays` and `bookingWindowDays` are kept as the text the client
      parses; `tourStartTime` is a `TIME` value as text. */
  datatype BookingType = BookingType(
    id: int,
    category: Category,
    weekendDays: string,
    maxDailyCapacity: int,
    ticketPrice: int,
    tourPrice: int,
    tourStartTime: string,
    bookingWindowMode: string,
    bookingWindowDays: string)

  /** A row of `bt_slots`: a named, priced interval of a hall type. */
  datatype Slot = Slot(id: int, typeId: int, name: string, startTime: string, endTime: string, price: int)

  /** A row of `bt_bookings`. `slotIds` is the comma-separated text the
      client sent. */
  datatype Booking = Booking(
    id: nat,
    typeId: int,
    date: Date,
    slotIds: string,
    ticketCount: int,
    totalPrice: int,
    customerName: string,
    customerEmail: string,
    customerPhone: string,
    transactionId: string,
    paymentImage: string,
    notes: string,
    status: Status)

  /** A hall add-on with its stock ceiling. */
  datatype Addon = Addon(id: int, name: string, price: int, maxQuantity: int)

  /** The first element whose id, as `idOf` reads it, is `id`. Every
      lookup by id in the plugin takes this shape: a `WHERE id = %d` row
      on the server, `slots.find` and `addons.find` in the form. */
  function FindById<T>(xs: seq<T>, id: int, idOf: T -> int): (r: Option<T>)
    ensures r.Some? ==> r.value in xs && idOf(r.value) == id
    ensures r.None? <==> forall i :: 0 <= i < |xs| ==> idOf(xs[i]) != id
  {
    if xs == [] then None
    else if idOf(xs[0]) == id then Some(xs[0])
    else FindById(xs[1..], id, idOf)
  }

  /** The element found is the first one carrying the id. */
  lemma {:induction false} FindByIdFirst<T>(xs: seq<T>, id: int, idOf: T -> int, i: nat)
    requires i < |xs| && idOf(xs[i]) == id
    requires forall j :: 0 <= j < i ==> idOf(xs[j]) != id
    ensures FindById(xs, id, idOf) == Some(xs[i])
  {
    if i > 0 {
      assert idOf(xs[0]) != id;
      forall j | 0 <= j < i - 1 ensures idOf(xs[1..][j]) != id {
        assert xs[1..][j] == xs[j + 1];
      }
      FindByIdFirst(xs[1..], id, idOf, i - 1);
    }
  }

  function TypeId(t: BookingType): int { t.id }

  /** `SELECT * FROM bt_booking_types WHERE id = %d`: the first row with that id. */
  function FindType(types: seq<BookingType>, id: int): Option<BookingType>
  {
    FindById(types, id, TypeId)
  }

  /** `SELECT id FROM bt_booking_types WHERE type_category = ...`: the id of
      the first type of a category, which the code treats as "the" type of
      that category. */
  function FirstOfCategory(types: seq<BookingType>, c: Category): (r: Option<int>)
    ensures r.Some? ==> exists i :: 0 <= i < |types| && types[i].category == c && types[i].id == r.value
    ensures r.None? <==> forall i :: 0 <= i < |types| ==> types[i].category != c
  {
    if types == [] then None
    else if types[0].category == c then Some(types[0].id)
    else FirstOfCategory(types[1..], c)
  }

  /** Type ids are the table's primary key. */
  ghost predicate TypeIdsDistinct(types: seq<BookingType>)
  {
    forall i, j :: 0 <= i < j < |types| ==> types[i].id != types[j].id
  }

  /** With distinct ids, the first type of a category is found again by its id. */
  lemma FirstOfCategoryFound(types: seq<BookingType>, c: Category)
    requires TypeIdsDistinct(types)
    requires FirstOfCategory(types, c).Some?
    ensures FindType(types, FirstOfCategory(types, c).value).Some?
    ensures FindType(types, FirstOfCategory(types, c).value).value.category == c
  {
    var id := FirstOfCategory(types, c).value;
    var i :| 0 <= i < |types| && types[i].category == c && types[i].id == id;
    FindTypeUnique(types, i);
  }

  lemma {:induction false} FindTypeUnique(types: seq<BookingType>, i: nat)
    requires TypeIdsDistinct(types)
    requires i < |types|
    ensures FindType(types, types[i].id) == Some(types[i])
  {
    if i > 0 {
      assert types[0].id != types[i].id;
      assert TypeIdsDistinct(types[1..]) by {
        forall a, b | 0 <= a < b < |types[1..]| ensures types[1..][a].id != types[1..][b].id {
          assert types[1..][a] == types[a + 1] && types[1..][b] == types[b + 1];
        }
      }
      FindTypeUnique(types[1..], i - 1);
    }
  }
}
