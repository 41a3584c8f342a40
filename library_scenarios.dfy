/** A client of the library service that starts from a freshly seeded one. */
module LibraryScenarios {
  import opened Wrappers
  import opened Library

  /** Borrowing the seeded book returns it; returning it succeeds; after that
      both borrowing and returning it again fail, and the listing is empty. */
  method BorrowReturnBorrow()
    returns (firstBorrow: Result<BorrowResponse, string>, giveBack: Result<ReturnResponse, string>,
             secondBorrow: Result<BorrowResponse, string>, secondReturn: Result<ReturnResponse, string>,
             listed: seq<Book>)
    ensures firstBorrow == Success(BorrowResponse(true, CheckedOut, SampleBook))
    ensures giveBack == Success(ReturnResponse(true, Returned))
    ensures secondBorrow == Failure(BookNotFound)
    ensures secondReturn == Failure(BookNotFound)
    ensures listed == []
  {
    var service := new LibraryService();
    firstBorrow := service.BorrowBook("123");
    giveBack := service.ReturnBook("123");
    secondBorrow := service.BorrowBook("123");
    secondReturn := service.ReturnBook("123");
    ghost var ids;
    listed, ids := service.ListBooks();
  }
}
