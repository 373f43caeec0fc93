/** A client of the engine object: the unit tests' set-up performed on a
    `LibrarySystem`, followed by their borrow-and-return test. Each step
    follows from the method contracts and the `Scenarios` lemmas. */
module Client {
  import opened Catalog
  import Library
  import Scenarios

  method BorrowAndReturnScenario() {
    var lib := new Library.LibrarySystem();
    var ok := lib.RegisterMember("user1", "1");
    ok := lib.LoginMember("1");
    lib.AddBook("Book One", "Author A", "ISBN001");
    lib.AddBook("Book Two", "Author B", "ISBN002");
    assert lib.Snapshot() == Scenarios.SetUp();
    Scenarios.TestBorrowAndReturnBook(lib.Snapshot());
    ok := lib.BorrowBook("ISBN001");
    assert ok && ViewBorrowedBooks(lib.Snapshot()) == [0];
    ok := lib.ReturnBook("ISBN001");
    assert ok && ViewBorrowedBooks(lib.Snapshot()) == [];
  }
}
