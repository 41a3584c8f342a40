/** The train-ticketing handler: a seat table and a user directory that one
    object owns and updates in place. Each RPC is one method call; the lock
    the service takes around each call makes the call atomic, which is what
    a method call is here.

    The service scans its seat map with Go's `range`, whose order is
    unspecified. The methods below scan a shrinking set of unvisited ids and
    pick the next one with `:|`, so their contracts hold whatever order the
    scan takes. */
module Ticketing {
  import opened Wrappers
  import opened Collections
  import opened SeatModel

  /** The RPC status codes the handler returns. */
  datatype Code = InvalidArgument | ResourceExhausted | NotFound | Internal

  datatype RpcError = RpcError(code: Code, message: string)

  const InvalidUser := RpcError(InvalidArgument, "user information is invalid")
  const NoSeats := RpcError(ResourceExhausted, "no available seats")
  const ReceiptNotFound := "receipt not found"
  const SeatIdUnparsable := RpcError(Internal, "failed to parse available seat ID")
  const RemoveTargetMissing := RpcError(NotFound, "user to be removed not found")
  const ModifyTargetMissing := RpcError(NotFound, "user not found in seats")

  class TicketingHandler {
    /** The user directory, keyed by first name. */
    var users: map<string, User>
    /** The seat table, keyed by seat id. */
    var seats: map<nat, Seat>

    ghost predicate Valid()
      reads this
    {
      WellFormed(seats)
    }

    /** Builds the table of 20 free seats and an empty directory. */
    constructor ()
      ensures Valid()
      ensures IsInitial(seats) && users == map[]
    {
      var table := map[];
      var i := 1;
      while i <= SeatCount
        invariant 1 <= i <= SeatCount + 1
        invariant table == BlankSeats(i - 1)
      {
        table := table[i := Seat(0, None)];
        i := i + 1;
      }
      BlankSeatsInitial();
      users := map[];
      seats := table;
    }

    /** The scan for a seat whose number is 0, in any order. */
    method FindFreeSeat() returns (found: Option<nat>)
      ensures found.None? <==> FreeIds(seats) == {}
      ensures found.Some? ==> found.value in FreeIds(seats)
    {
      var unvisited := seats.Keys;
      while unvisited != {}
        invariant unvisited <= seats.Keys
        invariant forall id :: id in seats && id !in unvisited ==> !IsFree(seats[id])
        decreases unvisited
      {
        var id :| id in unvisited;
        if seats[id].seatNumber == 0 {
          assert id in FreeIds(seats);
          return Some(id);
        }
        unvisited := unvisited - {id};
      }
      assert FreeIds(seats) == {} by {
        forall id | id in seats
          ensures !IsFree(seats[id])
        {
        }
      }
      return None;
    }

    /** Validates the buyer, takes a free seat for them and returns a receipt
        that wraps the submitted ticket. */
    method PurchaseTicket(ticket: Ticket) returns (r: Result<Receipt, RpcError>)
      requires Valid()
      modifies this
      ensures Valid()
      ensures users == old(users)
      ensures !ValidPurchaser(ticket.user) ==>
        r == Failure(InvalidUser) && seats == old(seats)
      ensures ValidPurchaser(ticket.user) && FreeIds(old(seats)) == {} ==>
        r == Failure(NoSeats) && seats == old(seats)
      ensures ValidPurchaser(ticket.user) && FreeIds(old(seats)) != {} ==>
        && r == Success(Receipt(ticket))
        && exists k :: k in FreeIds(old(seats)) && seats == Occupy(old(seats), k, ticket.user.value)
      ensures r.Success? ==> |FreeIds(seats)| == |FreeIds(old(seats))| - 1
      ensures r.Success? ==> ListedIds(seats) == ListedIds(old(seats)) + (FreeIds(old(seats)) - FreeIds(seats))
    {
      var user := ticket.user;
      if user.None? || user.value.firstName == "" || user.value.lastName == "" || user.value.email == "" {
        return Failure(InvalidUser);
      }
      var available := FindFreeSeat();
      if available.None? {
        return Failure(NoSeats);
      }
      var k := available.value;
      OccupyEffect(seats, k, user.value);
      seats := seats[k := Seat(k, user)];
      r := Success(Receipt(ticket));
    }

    /** Looks for an occupied seat (number not 0, user present) whose user has
        the ticket's first name, last name and email. */
    method RetrieveReceipt(ticket: Ticket) returns (r: Result<Receipt, string>)
      ensures r.Success? <==> exists id :: id in seats && HoldsReceipt(seats[id], ticket)
      ensures r.Success? ==> r.value == Receipt(ticket)
      ensures r.Failure? ==> r.error == ReceiptNotFound
    {
      var unvisited := seats.Keys;
      while unvisited != {}
        invariant unvisited <= seats.Keys
        invariant forall id :: id in seats && id !in unvisited ==> !HoldsReceipt(seats[id], ticket)
        decreases unvisited
      {
        var id :| id in unvisited;
        var seat := seats[id];
        if seat.seatNumber != 0 && seat.user.Some? {
          if seat.user.value.firstName == FirstNameOf(ticket.user)
             && seat.user.value.lastName == LastNameOf(ticket.user)
             && seat.user.value.email == EmailOf(ticket.user)
          {
            return Success(Receipt(ticket));
          }
        }
        unvisited := unvisited - {id};
      }
      return Failure(ReceiptNotFound);
    }

    /** The receipt lookup, with a miss reported as NotFound. */
    method ViewReceipt(ticket: Ticket) returns (r: Result<Receipt, RpcError>)
      ensures r.Success? <==> exists id :: id in seats && HoldsReceipt(seats[id], ticket)
      ensures r.Success? ==> r.value == Receipt(ticket)
      ensures r.Failure? ==> r.error == RpcError(NotFound, ReceiptNotFound)
    {
      var found := RetrieveReceipt(ticket);
      if found.Failure? {
        return Failure(RpcError(NotFound, found.error));
      }
      r := Success(found.value);
    }

    /** Lists every seat that has a user, with that user, in scan order.
        `ids` is the (ghost) order in which the seats were listed. */
    method ViewAdminDetails() returns (adminSeats: seq<Seat>, adminUsers: seq<User>, ghost ids: seq<nat>)
      ensures |adminSeats| == |adminUsers| == |ids|
      ensures forall i :: 0 <= i < |ids| ==>
        ids[i] in seats && adminSeats[i] == seats[ids[i]] && adminSeats[i].user == Some(adminUsers[i])
      ensures Distinct(ids)
      ensures Elements(ids) == ListedIds(seats)
      ensures |adminSeats| == |ListedIds(seats)|
    {
      adminSeats, adminUsers, ids := [], [], [];
      var unvisited := seats.Keys;
      while unvisited != {}
        invariant unvisited <= seats.Keys
        invariant |adminSeats| == |adminUsers| == |ids|
        invariant forall i :: 0 <= i < |ids| ==>
          ids[i] in seats && ids[i] !in unvisited
          && adminSeats[i] == seats[ids[i]] && adminSeats[i].user == Some(adminUsers[i])
        invariant Distinct(ids)
        invariant Elements(ids) == ListedIds(seats) - unvisited
        decreases unvisited
      {
        var id :| id in unvisited;
        var seat := seats[id];
        if seat.user.Some? {
          assert Elements(ids + [id]) == Elements(ids) + {id};
          adminSeats := adminSeats + [seat];
          adminUsers := adminUsers + [seat.user.value];
          ids := ids + [id];
        }
        unvisited := unvisited - {id};
      }
      DistinctCard(ids);
    }

    /** Removes the directory entry keyed by the first name and clears every
        seat held under that first name. Fails unless some directory entry
        carries that first name. */
    method RemoveUser(user: Option<User>) returns (r: Result<(), RpcError>)
      requires Valid()
      modifies this
      ensures Valid()
      ensures r.Failure? <==> !DirectoryHas(old(users), FirstNameOf(user))
      ensures r.Failure? ==>
        r.error == RemoveTargetMissing && seats == old(seats) && users == old(users)
      ensures r.Success? ==>
        && users == old(users) - {FirstNameOf(user)}
        && seats == VacateAll(old(seats), FirstNameOf(user))
    {
      var firstName := FirstNameOf(user);
      var found := false;
      var unvisitedUsers := users.Keys;
      while unvisitedUsers != {} && !found
        invariant unvisitedUsers <= users.Keys
        invariant found ==> DirectoryHas(users, firstName)
        invariant !found ==> forall key :: key in users && key !in unvisitedUsers ==> users[key].firstName != firstName
        decreases unvisitedUsers
      {
        var key :| key in unvisitedUsers;
        if users[key].firstName == firstName {
          found := true;
        }
        unvisitedUsers := unvisitedUsers - {key};
      }
      if !found {
        return Failure(RemoveTargetMissing);
      }

      users := users - {firstName};

      VacateAllEffect(seats, firstName);
      var unvisited := seats.Keys;
      while unvisited != {}
        invariant unvisited <= seats.Keys
        invariant seats.Keys == old(seats).Keys
        invariant forall id :: id in seats ==>
          seats[id] == if id in unvisited then old(seats)[id] else Vacate(old(seats)[id], firstName)
        invariant users == old(users) - {firstName}
        decreases unvisited
      {
        var id :| id in unvisited;
        if seats[id].user.Some? && seats[id].user.value.firstName == firstName {
          seats := seats[id := Seat(0, Some(BlankUser))];
        }
        unvisited := unvisited - {id};
      }
      r := Success(());
    }

    /** Finds a free seat first (none: Internal), then gives the first seat
        held under the input's first name the input user and the free seat's
        number (none held: NotFound). The matched seat is updated in place; no
        one is moved to the free seat. */
    method ModifySeat(user: Option<User>) returns (r: Result<(), RpcError>)
      requires Valid()
      modifies this
      ensures Valid()
      ensures users == old(users)
      ensures FreeIds(old(seats)) == {} ==>
        r == Failure(SeatIdUnparsable) && seats == old(seats)
      ensures FreeIds(old(seats)) != {} && HeldIds(old(seats), FirstNameOf(user)) == {} ==>
        r == Failure(ModifyTargetMissing) && seats == old(seats)
      ensures FreeIds(old(seats)) != {} && HeldIds(old(seats), FirstNameOf(user)) != {} ==>
        && r == Success(())
        && exists f, m :: f in FreeIds(old(seats)) && m in HeldIds(old(seats), FirstNameOf(user))
                       && seats == Reassign(old(seats), m, f, user)
    {
      var available := FindFreeSeat();
      if available.None? {
        return Failure(SeatIdUnparsable);
      }
      var f := available.value;
      var firstName := FirstNameOf(user);

      var found := false;
      var unvisited := seats.Keys;
      while unvisited != {} && !found
        invariant unvisited <= seats.Keys
        invariant users == old(users)
        invariant !found ==> seats == old(seats)
        invariant !found ==> forall id :: id in seats && id !in unvisited ==> !HeldBy(seats[id], firstName)
        invariant found ==> exists m :: m in HeldIds(old(seats), firstName) && seats == Reassign(old(seats), m, f, user)
        decreases unvisited
      {
        var id :| id in unvisited;
        if seats[id].user.Some? && seats[id].user.value.firstName == firstName {
          ReassignEffect(seats, id, f, user);
          seats := seats[id := Seat(f, user)];
          found := true;
        }
        unvisited := unvisited - {id};
      }

      if !found {
        assert HeldIds(old(seats), firstName) == {};
        return Failure(ModifyTargetMissing);
      }
      r := Success(());
    }
  }
}
