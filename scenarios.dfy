/** The repository's unit tests restated as facts about the model. Every test
    starts from the same fixture: member "user1" with id "1" is registered and
    logged in, and the catalog holds "Book One" (ISBN001) and "Book Two"
    (ISBN002), both on the shelf. Each lemma below holds for every state
    matching the fixture, and `SetUp` shows the fixture is reached by the
    same calls the tests make. */
module Scenarios {
  import opened Seqs
  import opened Catalog
  import CatalogProperties
  import Text

  const BookOne := Book("Book One", "Author A", "ISBN001", None)
  const BookTwo := Book("Book Two", "Author B", "ISBN002", None)

  /** The state every test starts from. */
  ghost predicate Fixture(s: State) {
    && Valid(s)
    && s.members == map["1" := Member("user1", "1", [])]
    && s.session == Some("1")
    && s.books == [BookOne, BookTwo]
  }

  /** The tests' set-up: register, log in, add the two books. */
  function SetUp(): (s: State)
    ensures Fixture(s)
  {
    var s1 := Register(Init(), "user1", "1").state;
    var s2 := Login(s1, "1").state;
    var s3 := AddBook(s2, "Book One", "Author A", "ISBN001");
    CatalogProperties.RegisterPreservesValid(Init(), "user1", "1");
    CatalogProperties.LoginPreservesValid(s1, "1");
    CatalogProperties.AddBookPreservesValid(s2, "Book One", "Author A", "ISBN001");
    CatalogProperties.AddBookPreservesValid(s3, "Book Two", "Author B", "ISBN002");
    AddBook(s3, "Book Two", "Author B", "ISBN002")
  }

  /** A new id registers, an id already taken does not, whatever the name. */
  lemma TestRegisterMember(s: State)
    requires Fixture(s)
    ensures var r := Register(s, "user2", "2");
      r.ok && !Register(r.state, "user1", "1").ok
    ensures !Register(s, "user2", "1").ok
  {
    assert "2" != "1";
  }

  /** After a logout the registered id logs in again; an unknown id does not. */
  lemma TestLoginMember(s: State)
    requires Fixture(s)
    ensures var r := Login(Logout(s), "1");
      r.ok && r.state.session == Some("1") && !Login(r.state, "unknown").ok
  {
    assert "unknown" != "1";
  }

  /** Borrowing ISBN001 lists "Book One" as the member's only book; returning
      it empties the list again. */
  lemma TestBorrowAndReturnBook(s: State)
    requires Fixture(s)
    ensures var b := Borrow(s, "ISBN001");
      && b.ok
      && ViewBorrowedBooks(b.state) == [0]
      && b.state.books[0].title == "Book One"
      && Return(b.state, "ISBN001").ok
      && ViewBorrowedBooks(Return(b.state, "ISBN001").state) == []
  {
    assert IsAvailableCopy(s.books[0], "ISBN001");
    CatalogProperties.BorrowEffect(s, "ISBN001", 0);
    CatalogProperties.BorrowReturnRoundTrip(s, "ISBN001");
  }

  /** The only copy of ISBN001, once lent, cannot be borrowed again. */
  lemma TestBorrowUnavailableBook(s: State)
    requires Fixture(s)
    ensures !Borrow(Borrow(s, "ISBN001").state, "ISBN001").ok
  {
    assert IsAvailableCopy(s.books[0], "ISBN001");
    CatalogProperties.BorrowEffect(s, "ISBN001", 0);
    var t := Borrow(s, "ISBN001").state;
    assert "ISBN002" != "ISBN001";
    forall i | 0 <= i < |t.books| ensures !IsAvailableCopy(t.books[i], "ISBN001") {
      if i == 1 {
        assert t.books[1] == BookTwo;
      }
    }
  }

  /** With "Book One" lent, "Book Two" is the only available book. */
  lemma TestViewAvailableBooks(s: State)
    requires Fixture(s)
    ensures var t := Borrow(s, "ISBN001").state;
      ViewAvailableBooks(t) == [1] && t.books[1].title == "Book Two"
  {
    assert IsAvailableCopy(s.books[0], "ISBN001");
    CatalogProperties.BorrowEffect(s, "ISBN001", 0);
    var t := Borrow(s, "ISBN001").state;
    assert t.books[1] == BookTwo;
    IncreasingSingleton(ViewAvailableBooks(t), 1);
  }

  /** Two books, none borrowed; borrowing one makes one borrowed. */
  lemma TestViewStatistics(s: State)
    requires Fixture(s)
    ensures ViewStatistics(s) == (2, 0)
    ensures ViewStatistics(Borrow(s, "ISBN001").state) == (2, 1)
  {
    CatalogProperties.StatisticsPartition(s);
    SelectAll(s.books, IsAvailable);
    assert IsAvailableCopy(s.books[0], "ISBN001");
    CatalogProperties.BorrowCountsOne(s, "ISBN001");
  }

  /** "one" occurs in "book one" at position 5. */
  lemma OneMatchesBookOne(b: Book)
    requires b == BookOne
    ensures TitleMatches(b, "One")
  {
    Text.MatchAt(b.title, "One", 5);
  }

  /** "Book Two" has no 'n' in either case, so "one" cannot occur in it. */
  lemma OneMissesBookTwo(b: Book)
    requires b == BookTwo
    ensures !TitleMatches(b, "One")
  {
    var t := b.title;
    assert 'n' !in t && 'N' !in t;
    forall i | 0 <= i < |t| ensures Text.LowerChar(t[i]) != Text.LowerChar('n') {
      assert t[i] in t;
    }
    Text.NoMatchOfChar(t, "One", 1);
  }

  /** A keyword longer than a title cannot occur in it. */
  lemma NonexistentMisses(b: Book)
    requires b == BookOne || b == BookTwo
    ensures !TitleMatches(b, "Nonexistent")
  {
    var title := Text.Lower(b.title);
    Text.ContainsIff(title, Text.Lower("Nonexistent"));
  }

  /** "One" finds exactly "Book One" (the case of the keyword does not
      matter). */
  lemma TestSearchBooksByTitle(s: State)
    requires s.books == [BookOne, BookTwo]
    ensures SearchBooksByTitle(s, "One") == [0]
  {
    var s0 := s.(books := []);
    var s1 := AddBook(s0, "Book One", "Author A", "ISBN001");
    assert AddBook(s1, "Book Two", "Author B", "ISBN002") == s;
    OneMatchesBookOne(BookOne);
    OneMissesBookTwo(BookTwo);
    CatalogProperties.SearchAfterAddBook(s0, "Book One", "Author A", "ISBN001", "One");
    CatalogProperties.SearchAfterAddBook(s1, "Book Two", "Author B", "ISBN002", "One");
  }

  /** "Nonexistent" finds nothing. */
  lemma TestSearchNoResults(s: State)
    requires s.books == [BookOne, BookTwo]
    ensures SearchBooksByTitle(s, "Nonexistent") == []
  {
    forall i | 0 <= i < |s.books| ensures !TitleMatches(s.books[i], "Nonexistent") {
      NonexistentMisses(s.books[i]);
    }
    CatalogProperties.SearchFindsNone(s, "Nonexistent");
  }

  const CppPrimer := Book("C++ Primer", "Author C", "ISBN003", None)

  lemma CppMatchesPrimer(b: Book)
    requires b == CppPrimer
    ensures TitleMatches(b, "C++")
  {
    Text.MatchAt(b.title, "C++", 0);
  }

  /** Neither title of the fixture holds a 'c' in either case. */
  lemma CppMisses(b: Book)
    requires b == BookOne || b == BookTwo
    ensures !TitleMatches(b, "C++")
  {
    var t := b.title;
    assert 'c' !in t && 'C' !in t;
    forall i | 0 <= i < |t| ensures Text.LowerChar(t[i]) != Text.LowerChar('C') {
      assert t[i] in t;
    }
    Text.NoMatchOfChar(t, "C++", 0);
  }

  /** Characters such as '+' are matched literally: "C++" finds only the
      newly added "C++ Primer". */
  lemma TestSearchWithSpecialCharacters(s: State)
    requires s.books == [BookOne, BookTwo]
    ensures SearchBooksByTitle(AddBook(s, "C++ Primer", "Author C", "ISBN003"), "C++") == [2]
  {
    forall i | 0 <= i < |s.books| ensures !TitleMatches(s.books[i], "C++") {
      CppMisses(s.books[i]);
    }
    CatalogProperties.SearchFindsNone(s, "C++");
    CppMatchesPrimer(CppPrimer);
    CatalogProperties.SearchAfterAddBook(s, "C++ Primer", "Author C", "ISBN003", "C++");
  }

  const AdvancedPython := Book("Advanced Python", "Author D", "ISBN004", None)

  lemma PythonMatches(b: Book)
    requires b == AdvancedPython
    ensures TitleMatches(b, "Python")
  {
    Text.MatchAt(b.title, "Python", 9);
  }

  /** A newly added book is found by a word of its title. */
  lemma TestAddAndSearchBooks(s: State)
    requires s.books == [BookOne, BookTwo]
    ensures 2 in SearchBooksByTitle(AddBook(s, "Advanced Python", "Author D", "ISBN004"), "Python")
  {
    var t := AddBook(s, "Advanced Python", "Author D", "ISBN004");
    PythonMatches(t.books[2]);
  }

  /** The refusals the tests check: an ISBN not held, an ISBN not in the
      catalog, and any borrow or return without a session. */
  lemma TestRefusals(s: State)
    requires Fixture(s)
    ensures !Return(s, "ISBN002").ok
    ensures !Borrow(s, "NONEXISTENTISBN").ok
    ensures !Return(Login(s, "1").state, "NONEXISTENTISBN").ok
    ensures !Borrow(Logout(s), "ISBN001").ok
    ensures !Return(Logout(s), "ISBN001").ok
  {
    assert "NONEXISTENTISBN" != "ISBN001" && "NONEXISTENTISBN" != "ISBN002";
    assert !IsAvailableCopy(s.books[0], "NONEXISTENTISBN");
    assert !IsAvailableCopy(s.books[1], "NONEXISTENTISBN");
    CatalogProperties.LogoutPreservesValid(s);
  }
}
