/** Values of the train-ticketing service and the functions over the seat
    table that the handler's operations are specified by.

    The seat table maps a seat id (1..20) to a Seat. A Seat keeps the two
    fields of the service's wire type: `seatNumber` (0 while the seat is
    free) and an optional `user`. The operations do not agree on what
    "occupied" means, so the predicates below keep the three readings apart:
    - IsFree: `seatNumber == 0` (the free-seat scan of PurchaseTicket and
      ModifySeat);
    - HoldsReceipt: `seatNumber != 0`, a user present and all three names
      equal (the receipt lookup);
    - IsListed / HeldBy: a user present, whatever the seat number (the admin
      view, RemoveUser and ModifySeat). */
module SeatModel {
  import opened Wrappers

  /** Number of seats the table is built with. */
  const SeatCount: nat := 20

  datatype User = User(firstName: string, lastName: string, email: string)

  /** The ticket price is a floating-point number that the service never
      inspects; it is carried as an uninterpreted encoding. */
  datatype Price = Price(encoding: int)

  datatype Ticket = Ticket(from: string, to: string, user: Option<User>, pricePaid: Price)

  datatype Receipt = Receipt(ticket: Ticket)

  datatype Seat = Seat(seatNumber: int, user: Option<User>)

  /** The user a seat is left holding after RemoveUser: present, all fields empty. */
  const BlankUser: User := User("", "", "")

  // The generated getters return "" when called on a nil user.

  function FirstNameOf(u: Option<User>): string {
    if u.Some? then u.value.firstName else ""
  }

  function LastNameOf(u: Option<User>): string {
    if u.Some? then u.value.lastName else ""
  }

  function EmailOf(u: Option<User>): string {
    if u.Some? then u.value.email else ""
  }

  /** PurchaseTicket's input check: a user is present and no field is empty. */
  predicate ValidPurchaser(u: Option<User>) {
    u.Some? && u.value.firstName != "" && u.value.lastName != "" && u.value.email != ""
  }

  predicate IsFree(s: Seat) {
    s.seatNumber == 0
  }

  predicate IsListed(s: Seat) {
    s.user.Some?
  }

  predicate HeldBy(s: Seat, firstName: string) {
    s.user.Some? && s.user.value.firstName == firstName
  }

  predicate HoldsReceipt(s: Seat, t: Ticket) {
    && s.seatNumber != 0
    && s.user.Some?
    && s.user.value.firstName == FirstNameOf(t.user)
    && s.user.value.lastName == LastNameOf(t.user)
    && s.user.value.email == EmailOf(t.user)
  }

  /** Does some directory entry carry this first name? (RemoveUser's guard:
      it scans the entries, not the keys.) */
  ghost predicate DirectoryHas(users: map<string, User>, firstName: string) {
    exists key :: key in users && users[key].firstName == firstName
  }

  /** The ids 1..hi. */
  ghost function IdsUpTo(hi: nat): set<nat> {
    if hi == 0 then {} else IdsUpTo(hi - 1) + {hi}
  }

  /** Ids of the seats the table is built with: 1..20. */
  predicate IsSeatId(id: int) {
    1 <= id <= SeatCount
  }

  /** Seats 1..hi, each with number 0 and no user: the table the
      construction loop has built once it has added seat hi. */
  function BlankSeats(hi: nat): map<nat, Seat> {
    if hi == 0 then map[] else BlankSeats(hi - 1)[hi := Seat(0, None)]
  }

  /** The table as construction leaves it: seats 1..20, each with number 0
      and no user. */
  ghost predicate IsInitial(seats: map<nat, Seat>) {
    && WellFormed(seats)
    && forall id :: id in seats ==> seats[id] == Seat(0, None)
  }

  ghost function FreeIds(seats: map<nat, Seat>): set<nat> {
    set id | id in seats && IsFree(seats[id])
  }

  ghost function ListedIds(seats: map<nat, Seat>): set<nat> {
    set id | id in seats && IsListed(seats[id])
  }

  ghost function HeldIds(seats: map<nat, Seat>, firstName: string): set<nat> {
    set id | id in seats && HeldBy(seats[id], firstName)
  }

  /** The table invariant: exactly the ids 1..20, and every seat number is
      0 or one of those ids. */
  ghost predicate WellFormed(seats: map<nat, Seat>) {
    && (forall id :: id in seats ==> IsSeatId(id))
    && (forall id: nat :: IsSeatId(id) ==> id in seats)
    && (forall id :: id in seats ==> seats[id].seatNumber == 0 || IsSeatId(seats[id].seatNumber))
  }

  /** PurchaseTicket's assignment: seat `k` gets its own id as number and the buyer. */
  function Occupy(seats: map<nat, Seat>, k: nat, u: User): map<nat, Seat> {
    seats[k := Seat(k, Some(u))]
  }

  /** RemoveUser's treatment of one seat. */
  function Vacate(s: Seat, firstName: string): Seat {
    if HeldBy(s, firstName) then Seat(0, Some(BlankUser)) else s
  }

  /** RemoveUser's pass over the whole table. */
  function VacateAll(seats: map<nat, Seat>, firstName: string): map<nat, Seat> {
    map id | id in seats :: Vacate(seats[id], firstName)
  }

  /** ModifySeat's update: the matched seat `m` takes the new user and the
      number of the free seat `f`; seat `f` itself is not touched. */
  function Reassign(seats: map<nat, Seat>, m: nat, f: nat, u: Option<User>): map<nat, Seat> {
    seats[m := Seat(f, u)]
  }

  /** IdsUpTo(hi) is the range 1..hi and has hi elements. */
  lemma {:induction false} IdsUpToRange(hi: nat)
    ensures forall id :: id in IdsUpTo(hi) <==> 1 <= id <= hi
    ensures |IdsUpTo(hi)| == hi
  {
    if hi > 0 {
      IdsUpToRange(hi - 1);
    }
  }

  /** BlankSeats(hi) holds the ids 1..hi, each free and without a user. */
  lemma {:induction false} BlankSeatsShape(hi: nat)
    ensures BlankSeats(hi).Keys == IdsUpTo(hi)
    ensures forall id :: id in BlankSeats(hi) ==> BlankSeats(hi)[id] == Seat(0, None)
  {
    if hi > 0 {
      BlankSeatsShape(hi - 1);
    }
  }

  /** The construction loop, run to the end, builds the initial table. */
  lemma BlankSeatsInitial()
    ensures IsInitial(BlankSeats(SeatCount))
  {
    IdsUpToRange(SeatCount);
    BlankSeatsShape(SeatCount);
  }

  /** In the initial table all 20 seats are free and none has a user. */
  lemma InitialCounts(seats: map<nat, Seat>)
    requires IsInitial(seats)
    ensures FreeIds(seats) == seats.Keys
    ensures |FreeIds(seats)| == SeatCount
    ensures ListedIds(seats) == {}
  {
    IdsUpToRange(SeatCount);
    assert FreeIds(seats) == IdsUpTo(SeatCount);
  }

  /** A purchase turns exactly one free seat into a non-free one and keeps
      the table well formed. */
  lemma OccupyEffect(seats: map<nat, Seat>, k: nat, u: User)
    requires WellFormed(seats) && k in FreeIds(seats)
    ensures WellFormed(Occupy(seats, k, u))
    ensures FreeIds(Occupy(seats, k, u)) == FreeIds(seats) - {k}
    ensures |FreeIds(Occupy(seats, k, u))| == |FreeIds(seats)| - 1
    ensures ListedIds(Occupy(seats, k, u)) == ListedIds(seats) + {k}
  {
  }

  /** RemoveUser frees every seat held under the first name, leaves the
      others alone, and keeps the table well formed. Unless the name is
      empty, no seat is held under it afterwards. */
  lemma VacateAllEffect(seats: map<nat, Seat>, firstName: string)
    requires WellFormed(seats)
    ensures WellFormed(VacateAll(seats, firstName))
    ensures VacateAll(seats, firstName).Keys == seats.Keys
    ensures forall id :: id in HeldIds(seats, firstName) ==>
      VacateAll(seats, firstName)[id] == Seat(0, Some(BlankUser))
    ensures forall id :: id in seats && id !in HeldIds(seats, firstName) ==>
      VacateAll(seats, firstName)[id] == seats[id]
    ensures FreeIds(VacateAll(seats, firstName)) == FreeIds(seats) + HeldIds(seats, firstName)
    ensures firstName != "" ==> HeldIds(VacateAll(seats, firstName), firstName) == {}
  {
  }

  /** ModifySeat does not move anyone: the free seat whose number it uses
      stays free (unless it is the matched seat itself), and the matched seat
      now carries that number. */
  lemma ReassignEffect(seats: map<nat, Seat>, m: nat, f: nat, u: Option<User>)
    requires WellFormed(seats) && f in FreeIds(seats) && m in seats
    ensures WellFormed(Reassign(seats, m, f, u))
    ensures Reassign(seats, m, f, u)[m] == Seat(f, u)
    ensures m != f ==> f in FreeIds(Reassign(seats, m, f, u))
    ensures FreeIds(Reassign(seats, m, f, u)) == FreeIds(seats) - {m}
  {
  }

  /** Because ModifySeat does not relocate, a purchase that follows it can
      take the free seat whose number was stamped on the matched seat: two
      seats then carry the same seat number. */
  lemma ReassignThenOccupySharesNumber(seats: map<nat, Seat>, m: nat, f: nat, u: Option<User>, v: User)
    requires WellFormed(seats) && f in FreeIds(seats) && m in seats && m != f
    ensures f in FreeIds(Reassign(seats, m, f, u))
    ensures var after := Occupy(Reassign(seats, m, f, u), f, v);
      after[m].seatNumber == after[f].seatNumber == f
  {
  }
}
