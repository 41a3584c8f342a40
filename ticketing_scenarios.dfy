/** Clients of the ticketing handler that start from a freshly built one and
    show, from the method contracts alone, what a sequence of calls yields. */
module TicketingScenarios {
  import opened Wrappers
  import opened Collections
  import opened SeatModel
  import opened Ticketing

  /** On a fresh handler, 20 purchases with a valid buyer succeed and the
      21st fails with ResourceExhausted. The filled table has no free seat
      and every seat `id` holds number `id` and the buyer: 20 distinct seats
      were taken, none twice. */
  method FillTrain(ticket: Ticket) returns (outcomes: seq<Result<Receipt, RpcError>>, handler: TicketingHandler)
    requires ValidPurchaser(ticket.user)
    ensures |outcomes| == SeatCount + 1
    ensures forall i :: 0 <= i < SeatCount ==> outcomes[i] == Success(Receipt(ticket))
    ensures outcomes[SeatCount] == Failure(NoSeats)
    ensures handler.Valid()
    ensures FreeIds(handler.seats) == {}
    ensures ListedIds(handler.seats) == handler.seats.Keys
    ensures forall id :: id in handler.seats ==> handler.seats[id] == Seat(id, ticket.user)
  {
    handler := new TicketingHandler();
    InitialCounts(handler.seats);
    outcomes := [];
    while |outcomes| < SeatCount
      invariant handler.Valid()
      invariant |outcomes| <= SeatCount
      invariant |FreeIds(handler.seats)| == SeatCount - |outcomes|
      invariant forall i :: 0 <= i < |outcomes| ==> outcomes[i] == Success(Receipt(ticket))
      invariant forall id :: id in handler.seats ==>
        handler.seats[id] == Seat(0, None) || handler.seats[id] == Seat(id, ticket.user)
    {
      var r := handler.PurchaseTicket(ticket);
      outcomes := outcomes + [r];
    }
    assert FreeIds(handler.seats) == {};
    forall id | id in handler.seats
      ensures handler.seats[id] == Seat(id, ticket.user)
    {
      assert id !in FreeIds(handler.seats);
    }
    var last := handler.PurchaseTicket(ticket);
    outcomes := outcomes + [last];
  }

  /** One purchase on a fresh handler, then the admin view, the receipt
      lookup with the same ticket and with another email, and a removal of
      the buyer. The admin view lists exactly the buyer; the lookup succeeds
      only with the buyer's own details; the removal fails because purchases
      never enter the user directory. */
  method PurchaseThenInspect(ticket: Ticket, otherEmail: string)
    returns (purchase: Result<Receipt, RpcError>, adminUsers: seq<User>,
             receipt: Result<Receipt, RpcError>, miss: Result<Receipt, RpcError>,
             removal: Result<(), RpcError>)
    requires ValidPurchaser(ticket.user)
    requires otherEmail != ticket.user.value.email
    ensures purchase == Success(Receipt(ticket))
    ensures adminUsers == [ticket.user.value]
    ensures receipt == Success(Receipt(ticket))
    ensures miss == Failure(RpcError(NotFound, ReceiptNotFound))
    ensures removal == Failure(RemoveTargetMissing)
  {
    var u := ticket.user.value;
    var handler := new TicketingHandler();
    ghost var initial := handler.seats;
    InitialCounts(initial);
    purchase := handler.PurchaseTicket(ticket);
    ghost var k :| k in FreeIds(initial) && handler.seats == Occupy(initial, k, u);
    OccupyEffect(initial, k, u);
    assert ListedIds(handler.seats) == {k};

    var adminSeats;
    ghost var ids;
    adminSeats, adminUsers, ids := handler.ViewAdminDetails();
    assert |ids| == 1 && ids[0] in Elements(ids);
    assert adminUsers[0] == u;

    assert HoldsReceipt(handler.seats[k], ticket);
    receipt := handler.ViewReceipt(ticket);

    var other := ticket.(user := Some(u.(email := otherEmail)));
    assert forall id :: id in handler.seats ==> !HoldsReceipt(handler.seats[id], other);
    miss := handler.ViewReceipt(other);

    removal := handler.RemoveUser(ticket.user);
  }
}
