/** The book-lending service: a registry object that owns a map from book id
    to book and updates it in place, and the service whose RPCs are built on
    it. Each registry method runs under the registry's lock. The service has
    no lock of its own: ReturnBook checks and deletes under two separate
    lock sections, and is modelled here as one atomic step. */
module Library {
  import opened Wrappers
  import opened Collections

  datatype Book = Book(id: string, title: string, author: string)

  datatype BorrowResponse = BorrowResponse(success: bool, message: string, book: Book)

  datatype ReturnResponse = ReturnResponse(success: bool, message: string)

  const BookNotFound := "book not found"
  const CheckedOut := "Book checked out successfully"
  const Returned := "Book returned successfully"

  /** The book the service is seeded with. */
  const SampleBook := Book("123", "Sample Book", "Sample Author")

  class BookRegistry {
    var books: map<string, Book>
    /** Initialised to 1 and never read or advanced. */
    var nextID: int

    constructor ()
      ensures books == map[] && nextID == 1
    {
      books := map[];
      nextID := 1;
    }

    /** Stores the book under its own id, replacing any earlier entry. */
    method AddBook(book: Book) returns (id: string)
      modifies this
      ensures id == book.id
      ensures books == old(books)[book.id := book]
      ensures nextID == old(nextID)
    {
      books := books[book.id := book];
      id := book.id;
    }

    method GetBook(bookId: string) returns (book: Option<Book>)
      ensures book.Some? <==> bookId in books
      ensures book.Some? ==> book.value == books[bookId]
    {
      if bookId in books {
        book := Some(books[bookId]);
      } else {
        book := None;
      }
    }

    /** Deletes the entry for the id, if any; the other entries stay. */
    method RemoveBook(bookId: string)
      modifies this
      ensures books == old(books) - {bookId}
      ensures nextID == old(nextID)
    {
      books := books - {bookId};
    }

    /** Every stored book once, in the map's (unspecified) iteration order.
        `ids` is the (ghost) order in which the keys were visited. */
    method GetAllBooks() returns (all: seq<Book>, ghost ids: seq<string>)
      ensures |all| == |ids|
      ensures forall i :: 0 <= i < |ids| ==> ids[i] in books && all[i] == books[ids[i]]
      ensures Distinct(ids) && Elements(ids) == books.Keys
      ensures |all| == |books|
      ensures forall b :: b in all <==> b in books.Values
    {
      all, ids := [], [];
      var unvisited := books.Keys;
      while unvisited != {}
        invariant unvisited <= books.Keys
        invariant |all| == |ids|
        invariant forall i :: 0 <= i < |ids| ==> ids[i] in books && ids[i] !in unvisited && all[i] == books[ids[i]]
        invariant Distinct(ids)
        invariant Elements(ids) == books.Keys - unvisited
        decreases unvisited
      {
        var key :| key in unvisited;
        assert Elements(ids + [key]) == Elements(ids) + {key};
        all := all + [books[key]];
        ids := ids + [key];
        unvisited := unvisited - {key};
      }
      DistinctCard(ids);
      forall b | b in books.Values
        ensures b in all
      {
        var key :| key in books && books[key] == b;
        assert key in Elements(ids);
        var i :| 0 <= i < |ids| && ids[i] == key;
        assert all[i] == b;
      }
    }
  }

  class LibraryService {
    const registry: BookRegistry

    /** A fresh registry seeded with the sample book "123". */
    constructor ()
      ensures fresh(registry)
      ensures registry.books == map[SampleBook.id := SampleBook]
      ensures registry.nextID == 1
    {
      var r := new BookRegistry();
      var _ := r.AddBook(SampleBook);
      registry := r;
    }

    /** Succeeds with the stored book when the id is present; changes nothing. */
    method BorrowBook(bookId: string) returns (r: Result<BorrowResponse, string>)
      ensures bookId !in registry.books ==> r == Failure(BookNotFound)
      ensures bookId in registry.books ==>
        r == Success(BorrowResponse(true, CheckedOut, registry.books[bookId]))
    {
      var book := registry.GetBook(bookId);
      if book.None? {
        return Failure(BookNotFound);
      }
      r := Success(BorrowResponse(true, CheckedOut, book.value));
    }

    /** Deletes the book when the id is present; fails and changes nothing otherwise. */
    method ReturnBook(bookId: string) returns (r: Result<ReturnResponse, string>)
      modifies registry
      ensures old(bookId in registry.books) ==>
        r == Success(ReturnResponse(true, Returned)) && registry.books == old(registry.books) - {bookId}
      ensures old(bookId !in registry.books) ==>
        r == Failure(BookNotFound) && registry.books == old(registry.books)
      ensures bookId !in registry.books
      ensures registry.nextID == old(registry.nextID)
    {
      var book := registry.GetBook(bookId);
      if book.None? {
        return Failure(BookNotFound);
      }
      registry.RemoveBook(bookId);
      r := Success(ReturnResponse(true, Returned));
    }

    /** The registry's books, each once. */
    method ListBooks() returns (books: seq<Book>, ghost ids: seq<string>)
      ensures |books| == |ids| == |registry.books|
      ensures forall i :: 0 <= i < |ids| ==> ids[i] in registry.books && books[i] == registry.books[ids[i]]
      ensures Distinct(ids) && Elements(ids) == registry.books.Keys
      ensures forall b :: b in books <==> b in registry.books.Values
    {
      books, ids := registry.GetAllBooks();
    }
  }
}
