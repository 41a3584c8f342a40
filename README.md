# Train-seat reservation table and book registry, modelled in Dafny

This project models the two in-memory services of the `ticketing` Go package.

**The train-ticketing handler** (`MyTrainTicketingServiceHandler`) has two parts:
- a seat table of 20 seats keyed `1`..`20`;
- a user directory keyed by first name.

Five RPCs read or rewrite that state: PurchaseTicket, ViewReceipt (with its helper retrieveReceipt), ViewAdminDetails, RemoveUser and ModifySeat.

**The library service** (`LibraryService`) sits on a `BookRegistry`, which is a map from book id to book. It offers BorrowBook, ReturnBook and ListBooks.

Both are modelled as classes whose methods update their map fields in place. Each RPC is modelled as one atomic method call. For the ticketing handler this is what the source does: each RPC holds the handler's one mutex from start to end. The library service has no lock of its own. Each registry method takes the registry's lock separately, so an RPC that calls two registry methods runs as two critical sections (see "## Left out").

Layout:
- `wrappers.dfy`: `Option` (a pointer that may be nil) and `Result` (a value or an error).
- `collections.dfy`: sequences without repetitions and their length.
- `seat_model.dfy`: module `SeatModel`. It holds the value types (User, Ticket, Receipt, Seat) and the functions that specify the seat-table updates (`Occupy`, `VacateAll`, `Reassign`). It also holds the lemmas about those functions.
- `ticketing.dfy`: module `Ticketing`, with the class `TicketingHandler` and the RPC error codes.
- `ticketing_scenarios.dfy`: clients that start from a fresh handler.
- `library.dfy`: module `Library`, with the classes `BookRegistry` and `LibraryService`.
- `library_scenarios.dfy`: a client that starts from a fresh library service.

Points where the model follows the code closely:
- **Seat fields are kept as they are.** A seat keeps the wire type's two fields: `seatNumber` (0 means free) and an optional `user`. The operations disagree on what "occupied" means:
  - the free-seat scans test `seatNumber == 0`;
  - the receipt lookup tests `seatNumber != 0` and a present user;
  - the admin view, RemoveUser and ModifySeat test only for a present user.

  `SeatModel` keeps these three readings apart (`IsFree`, `HoldsReceipt`, `IsListed`/`HeldBy`).
- **Any iteration order.** Go's `range` over a map visits keys in an unspecified order. Every scan here visits a shrinking set of unvisited keys and picks the next key with `:|`. The contracts therefore hold for every visit order. Where the order decides the outcome, the contract is existential, for example "some previously free seat `k` is now taken".
- **Nil getters.** A nil user's generated getters return `""`. `FirstNameOf`, `LastNameOf` and `EmailOf` model this. As a result:
  - the receipt lookup with a ticket that has no user matches a seat whose user has three empty fields;
  - ModifySeat with no user matches seats held under the empty first name and leaves them with no user.
- **RemoveUser checks values but deletes by key.** Its guard looks for a directory ENTRY whose first name matches. It then deletes the KEY equal to that first name. Cleared seats get seat number 0 and a present, all-empty user, not a missing one.
- **Purchases never fill the directory.** The constructor leaves `users` empty. Every method's contract keeps `users` unchanged, except RemoveUser, which can only delete and fails when nothing matches. So, from construction, RemoveUser fails with NotFound after any sequence of calls. `PurchaseThenInspect` shows one such sequence.
- **ModifySeat is modelled literally.**
  - It looks for a free seat first. If there is none, the id string stays empty, parsing it fails, and the result is Internal, ahead of any NotFound.
  - It then gives the first matching seat the input user and the free seat's NUMBER. Nobody moves to the free seat.
  - `ReassignEffect` states that the free seat stays free. `ReassignThenOccupySharesNumber` shows that a later purchase can take that seat, after which two seats carry the same seat number.
- **BorrowBook's message** is "Book checked out successfully", as the code returns it. The test's expected response says "Book borrowed successfully", but the test compares only the success flag and the book.

## Model

| member | source | states |
|---|---|---|
| `Ticketing.TicketingHandler.constructor` | handler.go:25-33 | The table holds exactly the seats 1..20, each with seat number 0 and no user, and the user directory is empty. |
| `SeatModel.BlankSeatsInitial` | handler.go:29-33 | Adding seats 1..20 one by one, each with number 0, yields the initial table (ids exactly 1..20, all blank). |
| `SeatModel.InitialCounts` | handler.go:25-33 | In the initial table all 20 seats are free and no seat has a user. |
| `Ticketing.TicketingHandler.FindFreeSeat` | handler.go:79-85 | Returns a seat whose number is 0, whichever order the scan takes, and returns none exactly when no such seat exists. |
| `Ticketing.TicketingHandler.PurchaseTicket` | handler.go:63-113 | A missing user or an empty first name, last name or email gives InvalidArgument. Otherwise, no free seat gives ResourceExhausted. Otherwise some previously free seat `k` gets number `k` and the buyer, and a receipt wraps the input ticket. Failures change nothing, the directory never changes, and success lowers the free count by one. |
| `SeatModel.OccupyEffect` | handler.go:97-100 | Taking free seat `k` removes exactly `k` from the free seats (count down by one), adds `k` to the seats with a user, and keeps ids 1..20 and seat numbers within 0..20. |
| `Ticketing.TicketingHandler.RetrieveReceipt` | handler.go:139-156 | Succeeds exactly when some seat has a non-zero number, a user, and that user's first name, last name and email equal the ticket's. The receipt holds the input ticket; otherwise the error is "receipt not found". Reads only. |
| `Ticketing.TicketingHandler.ViewReceipt` | handler.go:116-137 | The same success condition, with a miss reported as NotFound carrying the lookup's error. Reads only. |
| `Ticketing.TicketingHandler.ViewAdminDetails` | handler.go:159-188 | Returns parallel sequences of equal length with `users[i]` the user of `seats[i]`. They list each seat that has a user exactly once, and no other seat, so their length is the number of such seats. Reads only. |
| `Ticketing.TicketingHandler.RemoveUser` | handler.go:191-229 | Fails with NotFound, changing nothing, exactly when no directory entry carries the first name. Otherwise it deletes the directory key equal to the first name. Every seat held under that first name gets number 0 and an all-empty user; other seats are untouched. |
| `SeatModel.VacateAllEffect` | handler.go:214-224 | The removal pass frees exactly the seats held under the name, blanks their user, leaves the rest equal, and keeps the table well formed. For a non-empty name, no seat is held under it afterwards. |
| `Ticketing.TicketingHandler.ModifySeat` | handler.go:232-277 | No free seat gives Internal, checked before the user search. Otherwise, no seat held under the input's first name gives NotFound. Otherwise exactly one such seat `m` gets the input user and the number of some free seat `f`. Failures change nothing, and the directory never changes. |
| `SeatModel.ReassignEffect` | handler.go:256-268 | The matched seat ends with the free seat's number. A distinct free seat stays free, so nobody is moved. The free seats lose only the matched seat, and the table stays well formed. |
| `SeatModel.ReassignThenOccupySharesNumber` | handler.go:259-262 | After ModifySeat stamps seat `m` with free seat `f`'s number, a purchase of seat `f` leaves both seats with seat number `f`. |
| `TicketingScenarios.FillTrain` | handler.go:79-90 | From construction, 20 purchases by a valid buyer succeed with the receipt of the input ticket, and the 21st fails with ResourceExhausted. Afterwards no seat is free, every seat has a user, and each seat `id` holds number `id` and the buyer, so the 20 purchases took 20 distinct seats, none twice. |
| `TicketingScenarios.PurchaseThenInspect` | ticketing_handler_test.go:17-108 | After one purchase on a fresh handler: the admin view lists exactly the buyer, and the receipt lookup succeeds with the same ticket. It fails with NotFound when the email differs. RemoveUser of the buyer fails with NotFound because the directory is still empty. |
| `Library.BookRegistry.constructor` | library_handler.go:23-28 | The registry starts with no books and `nextID` 1. |
| `Library.LibraryService.constructor` | library_handler.go:34-44 | A fresh registry that holds exactly book "123" ("Sample Book", "Sample Author"). |
| `Library.BookRegistry.AddBook` | library_handler.go:126-132 | Stores the book under its own id, replacing any earlier entry and leaving other keys unchanged, and returns that id. |
| `Library.BookRegistry.GetBook` | library_handler.go:135-140 | Returns the stored book exactly when the id is a key, and nothing otherwise. Reads only. |
| `Library.BookRegistry.RemoveBook` | library_handler.go:143-148 | Deletes only that key. An absent key leaves the map as it was, so removing twice equals removing once. |
| `Library.BookRegistry.GetAllBooks` | library_handler.go:51-60 | Returns exactly the stored books, each once, paired with its key in visit order. Every key is visited once, so the length equals the number of books. Reads only. |
| `Library.LibraryService.BorrowBook` | library_handler.go:62-83 | An absent id fails with "book not found". Otherwise the result is success, the fixed message, and the stored book unchanged. Reads only. |
| `Library.LibraryService.ReturnBook` | library_handler.go:85-107 | An absent id fails and changes nothing. Otherwise the book is deleted with success and "Book returned successfully". Either way the id is absent afterwards. |
| `Library.LibraryService.ListBooks` | library_handler.go:109-123 | Exactly the registry's books, each once, so the length is the registry's size. Reads only. |
| `LibraryScenarios.BorrowReturnBorrow` | library_handler_test.go:33-109 | On a fresh service: borrowing "123" returns the sample book, and returning it succeeds. After that, borrowing and returning it again fail with "book not found", and the listing is empty. |

## Left out

- The JWT interceptor (handler.go:46-60) and the connect/HTTP handler wiring (handler.go:36-43, library_handler.go:46-48) are transport, not state.
- The HTTP client (client.go), the test round-tripper and the code-extraction script are not part of this model.
- `Library.LibraryService.ReturnBook`: in the source, the existence check (GetBook, under the registry's read lock) and the delete (RemoveBook, under a second write lock) are two separate critical sections. Two concurrent returns of the same id can therefore both succeed. The model runs the check and the delete as one step, so a second return of that id fails.
- The mutexes are not modelled. Each RPC is one atomic method call, so the concurrency stress property ("no seat assigned twice under concurrent purchases") holds only in that serialised reading.
- PurchaseTicket's `strconv.Atoi` failure branch (handler.go:92-95) is not modelled. Seat ids are naturals 1..20 and the parse cannot fail there.
- ModifySeat's `ParseInt` is modelled only through its failure on the empty id, that is, "no free seat gives Internal".
- Seat numbers are `int32` in the source. All values stored are 0..20, so no wrap-around is modelled.
- `Ticket.PricePaid` (a float) is an uninterpreted `Price` value. It and `From`/`To` are carried and never inspected, as in the source.
- A nil ticket is not modelled; a ticket is always present and its user may be absent. In the source, a nil ticket behaves like a ticket with no user, except that the receipt would hold the nil ticket.
- The user directory's values are always present users. The source never inserts into the directory, so a nil value cannot occur there.
- Pointer aliasing is not modelled. ViewAdminDetails returns the seat objects themselves, and BorrowBook returns the stored book pointer; the model returns values.
- `BookRegistry.nextID` is kept and shown unchanged, but the source never reads or advances it.
- GetAllBooks's error result is always nil in the source, so ListBooks's "failed to get all books" branch cannot be reached. It is not modelled.
- ViewAdminDetails ignores its request's section field, as in the source. The model's method therefore takes no input.
