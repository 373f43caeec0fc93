/** What the catalog operations promise: the borrower/held-list invariant is
    kept by every operation, borrowing and returning touch exactly one book
    and one member, a borrow followed by a return restores the state, the
    catalog never shrinks, and the views and statistics agree. */
module CatalogProperties {
  import opened Seqs
  import opened Catalog
  import Text

  /** The two-way link: a book names a member as borrower exactly when that
      member lists the book. */
  lemma BorrowerIffHeld(s: State, i: nat, id: string)
    requires Valid(s) && i < |s.books| && id in s.members
    ensures s.books[i].borrower == Some(id) <==> i in s.members[id].borrowedBooks
  {
    assert BorrowerHolds(s, i);
    assert HeldListValid(s.books, id, s.members[id].borrowedBooks);
  }

  /** A borrowed book is listed exactly once by its borrower and by no other member. */
  lemma HeldExactlyOnce(s: State, i: nat)
    requires Valid(s) && i < |s.books| && s.books[i].borrower.Some?
    ensures var id := s.books[i].borrower.value;
      id in s.members && multiset(s.members[id].borrowedBooks)[i] == 1
    ensures forall other :: other in s.members && other != s.books[i].borrower.value ==>
      i !in s.members[other].borrowedBooks
  {
    var id := s.books[i].borrower.value;
    assert BorrowerHolds(s, i);
    assert HeldListValid(s.books, id, s.members[id].borrowedBooks);
    NoDupOnce(s.members[id].borrowedBooks, i);
    forall other | other in s.members && other != id
      ensures i !in s.members[other].borrowedBooks
    {
      assert HeldListValid(s.books, other, s.members[other].borrowedBooks);
    }
  }

  lemma RegisterPreservesValid(s: State, username: string, memberId: string)
    requires Valid(s)
    ensures Valid(Register(s, username, memberId).state)
  {
    var t := Register(s, username, memberId).state;
    forall i: nat | i < |t.books| ensures BorrowerHolds(t, i) {
      assert BorrowerHolds(s, i);
    }
    forall id | id in t.members ensures HeldListValid(t.books, id, t.members[id].borrowedBooks) {
      if id in s.members {
        assert HeldListValid(s.books, id, s.members[id].borrowedBooks);
      }
    }
  }

  lemma LoginPreservesValid(s: State, memberId: string)
    requires Valid(s)
    ensures Valid(Login(s, memberId).state)
  {
    var t := Login(s, memberId).state;
    forall i: nat | i < |t.books| ensures BorrowerHolds(t, i) {
      assert BorrowerHolds(s, i);
    }
  }

  lemma LogoutPreservesValid(s: State)
    requires Valid(s)
    ensures Valid(Logout(s))
  {
    var t := Logout(s);
    forall i: nat | i < |t.books| ensures BorrowerHolds(t, i) {
      assert BorrowerHolds(s, i);
    }
  }

  lemma AddBookPreservesValid(s: State, title: string, author: string, isbn: string)
    requires Valid(s)
    ensures Valid(AddBook(s, title, author, isbn))
  {
    var t := AddBook(s, title, author, isbn);
    forall i: nat | i < |t.books| ensures BorrowerHolds(t, i) {
      if i < |s.books| {
        assert BorrowerHolds(s, i);
      }
    }
    forall id | id in t.members ensures HeldListValid(t.books, id, t.members[id].borrowedBooks) {
      assert HeldListValid(s.books, id, s.members[id].borrowedBooks);
    }
  }

  /** What a successful borrow does, given the first available copy `i`:
      that book now names the session member, who lists it last; every other
      book and every other member is as before. */
  lemma BorrowEffect(s: State, isbn: string, i: nat)
    requires Valid(s) && s.session.Some?
    requires i < |s.books| && IsAvailableCopy(s.books[i], isbn)
    requires forall j :: 0 <= j < i ==> !IsAvailableCopy(s.books[j], isbn)
    ensures Borrow(s, isbn) == Outcome(Lend(s, s.session.value, i), true)
  {
    var p := (b: Book) => IsAvailableCopy(b, isbn);
    assert FirstIndex(s.books, p) == Some(i);
  }

  /** Borrowing never takes a book away from whoever holds it, and changes
      at most one book. */
  lemma BorrowKeepsHolders(s: State, isbn: string, j: nat)
    requires Valid(s) && j < |s.books| && s.books[j].borrower.Some?
    ensures Borrow(s, isbn).state.books[j] == s.books[j]
  {
    if Borrow(s, isbn).ok {
      var i := FirstIndex(s.books, (b: Book) => IsAvailableCopy(b, isbn)).value;
      BorrowEffect(s, isbn, i);
    }
  }

  /** What a successful return does, given the first book `held[k]` of the
      session member's list with this ISBN: that slot is reclaimed. */
  lemma ReturnEffect(s: State, isbn: string, k: nat)
    requires Valid(s) && s.session.Some?
    requires var held := ViewBorrowedBooks(s);
      && k < |held| && IsCopyOf(s.books, held[k], isbn)
      && forall j :: 0 <= j < k ==> !IsCopyOf(s.books, held[j], isbn)
    ensures Return(s, isbn) == Outcome(Reclaim(s, s.session.value, k), true)
  {
    var held := s.members[s.session.value].borrowedBooks;
    var p := (j: nat) => IsCopyOf(s.books, j, isbn);
    assert FirstIndex(held, p) == Some(k);
  }

  /** Returning only looks at the session member's own list: a copy held by
      someone else, or on the shelf, is never touched. */
  lemma ReturnKeepsOthersBooks(s: State, isbn: string, j: nat)
    requires Valid(s) && j < |s.books| && s.books[j].borrower != s.session
    ensures Return(s, isbn).state.books[j] == s.books[j]
  {
    if Return(s, isbn).ok {
      var held := s.members[s.session.value].borrowedBooks;
      var k := FirstIndex(held, (i: nat) => IsCopyOf(s.books, i, isbn)).value;
      ReturnEffect(s, isbn, k);
    }
  }

  /** A successful borrow followed by a return of the same ISBN by the same
      member gives back exactly the state before, provided the member held no
      other copy with that ISBN (otherwise the return picks that older copy,
      see `BorrowThenReturnFreesEarlierCopy`). In particular the member's list
      of borrowed books and the available books are as before. */
  lemma BorrowReturnRoundTrip(s: State, isbn: string)
    requires Valid(s) && Borrow(s, isbn).ok
    requires forall k :: 0 <= k < |ViewBorrowedBooks(s)| ==> !IsCopyOf(s.books, ViewBorrowedBooks(s)[k], isbn)
    ensures Return(Borrow(s, isbn).state, isbn) == Outcome(s, true)
    ensures ViewBorrowedBooks(Return(Borrow(s, isbn).state, isbn).state) == ViewBorrowedBooks(s)
    ensures ViewAvailableBooks(Return(Borrow(s, isbn).state, isbn).state) == ViewAvailableBooks(s)
  {
    var id := s.session.value;
    var held := s.members[id].borrowedBooks;
    var i := FirstIndex(s.books, (b: Book) => IsAvailableCopy(b, isbn)).value;
    BorrowEffect(s, isbn, i);
    var t := Lend(s, id, i);
    var held' := held + [i];
    forall j | 0 <= j < |held| ensures !IsCopyOf(t.books, held'[j], isbn) {
      assert held'[j] == held[j] && ViewBorrowedBooks(s)[j] == held[j];
    }
    assert ViewBorrowedBooks(t) == held';
    ReturnEffect(t, isbn, |held|);
    LendThenReclaimLast(s, id, i);
  }

  /** Reclaiming the slot that lending just appended undoes the lending. */
  lemma LendThenReclaimLast(s: State, id: string, i: nat)
    requires Valid(s) && id in s.members && i < |s.books| && s.books[i].borrower.None?
    ensures |Lend(s, id, i).members[id].borrowedBooks| == |s.members[id].borrowedBooks| + 1
    ensures Reclaim(Lend(s, id, i), id, |s.members[id].borrowedBooks|) == s
  {
    var held := s.members[id].borrowedBooks;
    var t := Lend(s, id, i);
    var u := Reclaim(t, id, |held|);
    var held' := held + [i];
    assert held'[..|held|] + held'[|held| + 1..] == held;
    assert u.books == s.books;
    assert u.members == s.members;
  }

  /** With duplicate ISBNs a round trip need not restore the state: if the
      member already held a copy `held[k]` with this ISBN, the borrow takes the
      first available copy `i` and the return then frees the older copy. */
  lemma BorrowThenReturnFreesEarlierCopy(s: State, isbn: string, i: nat, k: nat)
    requires Valid(s) && s.session.Some?
    requires i < |s.books| && IsAvailableCopy(s.books[i], isbn)
    requires forall j :: 0 <= j < i ==> !IsAvailableCopy(s.books[j], isbn)
    requires var held := ViewBorrowedBooks(s);
      && k < |held| && IsCopyOf(s.books, held[k], isbn)
      && forall j :: 0 <= j < k ==> !IsCopyOf(s.books, held[j], isbn)
    ensures var u := Return(Borrow(s, isbn).state, isbn);
      var id := s.session.value; var held := s.members[id].borrowedBooks;
      && u.ok
      && u.state.books[held[k]].borrower.None?
      && u.state.books[i].borrower == Some(id)
      && u.state.members[id].borrowedBooks == held[..k] + held[k + 1..] + [i]
  {
    var id := s.session.value;
    var held := s.members[id].borrowedBooks;
    BorrowEffect(s, isbn, i);
    var t := Lend(s, id, i);
    var held' := held + [i];
    assert ViewBorrowedBooks(t) == held';
    assert forall j :: 0 <= j < k ==> !IsCopyOf(t.books, held'[j], isbn) by {
      forall j | 0 <= j < k ensures !IsCopyOf(t.books, held'[j], isbn) {
        assert held'[j] == held[j] && ViewBorrowedBooks(s)[j] == held[j];
      }
    }
    ReturnEffect(t, isbn, k);
    LendThenReclaim(s, id, i, k);
  }

  /** Lending book `i` and then reclaiming slot `k` of the older part of the
      same member's list frees the older book and keeps book `i` out. */
  lemma LendThenReclaim(s: State, id: string, i: nat, k: nat)
    requires Valid(s) && id in s.members && i < |s.books| && s.books[i].borrower.None?
    requires k < |s.members[id].borrowedBooks|
    ensures k < |Lend(s, id, i).members[id].borrowedBooks|
    ensures var held := s.members[id].borrowedBooks; var u := Reclaim(Lend(s, id, i), id, k);
      && u.books[held[k]].borrower.None?
      && u.books[i].borrower == Some(id)
      && u.members[id].borrowedBooks == held[..k] + held[k + 1..] + [i]
  {
    var held := s.members[id].borrowedBooks;
    var t := Lend(s, id, i);
    var held' := held + [i];
    assert held[k] != i by {
      assert HeldListValid(s.books, id, held);
    }
    assert held'[k] == held[k];
    assert held'[..k] == held[..k];
    assert held'[k + 1..] == held[k + 1..] + [i];
  }

  /** `view_statistics`: every book is either borrowed or listed as available. */
  lemma StatisticsPartition(s: State)
    ensures ViewStatistics(s).0 == ViewStatistics(s).1 + |ViewAvailableBooks(s)|
  {
    SelectCountPartition(s.books, IsAvailable, IsBorrowed);
  }

  /** A successful borrow raises the borrowed count by one; the total stays. */
  lemma BorrowCountsOne(s: State, isbn: string)
    requires Valid(s) && Borrow(s, isbn).ok
    ensures ViewStatistics(Borrow(s, isbn).state) == (ViewStatistics(s).0, ViewStatistics(s).1 + 1)
  {
    var i := FirstIndex(s.books, (b: Book) => IsAvailableCopy(b, isbn)).value;
    BorrowEffect(s, isbn, i);
    CountUpdate(s.books, IsBorrowed, i, s.books[i].(borrower := s.session));
  }

  /** A successful return lowers the borrowed count by one; the total stays. */
  lemma ReturnCountsOne(s: State, isbn: string)
    requires Valid(s) && Return(s, isbn).ok
    ensures ViewStatistics(Return(s, isbn).state).0 == ViewStatistics(s).0
    ensures ViewStatistics(Return(s, isbn).state).1 + 1 == ViewStatistics(s).1
  {
    var id := s.session.value;
    var held := s.members[id].borrowedBooks;
    var k := FirstIndex(held, (j: nat) => IsCopyOf(s.books, j, isbn)).value;
    ReturnEffect(s, isbn, k);
    assert HeldListValid(s.books, id, held);
    var i := held[k];
    CountUpdate(s.books, IsBorrowed, i, s.books[i].(borrower := None));
  }

  /** An empty keyword matches every book, in catalog order. */
  lemma SearchEmptyKeyword(s: State)
    ensures SearchBooksByTitle(s, "") == Range(|s.books|)
  {
    assert Text.Lower("") == "";
    forall i | 0 <= i < |s.books| ensures TitleMatches(s.books[i], "") {
      Text.EmptyContained(Text.Lower(s.books[i].title));
    }
    SelectAll(s.books, (b: Book) => TitleMatches(b, ""));
  }

  /** Adding a book leaves earlier search results alone and appends the new
      position exactly when the new title matches. */
  lemma SearchAfterAddBook(s: State, title: string, author: string, isbn: string, keyword: string)
    ensures SearchBooksByTitle(AddBook(s, title, author, isbn), keyword)
         == SearchBooksByTitle(s, keyword) + (if TitleMatches(Book(title, author, isbn, None), keyword) then [|s.books|] else [])
  {
    SelectAppend(s.books, Book(title, author, isbn, None), (b: Book) => TitleMatches(b, keyword));
  }

  /** When exactly one title matches, the search finds exactly that book. */
  lemma SearchFindsOnly(s: State, keyword: string, x: nat)
    requires x < |s.books| && TitleMatches(s.books[x], keyword)
    requires forall i :: 0 <= i < |s.books| && i != x ==> !TitleMatches(s.books[i], keyword)
    ensures SearchBooksByTitle(s, keyword) == [x]
  {
    IncreasingSingleton(SearchBooksByTitle(s, keyword), x);
  }

  /** When no title matches, the search finds nothing. */
  lemma SearchFindsNone(s: State, keyword: string)
    requires forall i :: 0 <= i < |s.books| ==> !TitleMatches(s.books[i], keyword)
    ensures SearchBooksByTitle(s, keyword) == []
  {
    NoMember(SearchBooksByTitle(s, keyword));
  }

  /** The catalog never shrinks and entries keep their title, author and ISBN;
      members are never dropped and keep their name and id. */
  ghost predicate Grows(s: State, t: State) {
    && |s.books| <= |t.books|
    && (forall i :: 0 <= i < |s.books| ==>
          t.books[i].title == s.books[i].title && t.books[i].author == s.books[i].author
          && t.books[i].isbn == s.books[i].isbn)
    && (forall id :: id in s.members ==>
          id in t.members && t.members[id].username == s.members[id].username
          && t.members[id].memberId == s.members[id].memberId)
  }

  /** One call into the engine, as the console loop makes it. */
  datatype Op =
    | DoRegister(username: string, memberId: string)
    | DoLogin(memberId: string)
    | DoLogout
    | DoAddBook(title: string, author: string, isbn: string)
    | DoBorrow(isbn: string)
    | DoReturn(isbn: string)

  /** The state after one call; every call keeps the invariant and grows the state. */
  function Step(s: State, op: Op): (t: State)
    requires Valid(s)
    ensures Valid(t) && Grows(s, t)
  {
    match op
    case DoRegister(name, id) => RegisterPreservesValid(s, name, id); Register(s, name, id).state
    case DoLogin(id) => LoginPreservesValid(s, id); Login(s, id).state
    case DoLogout => LogoutPreservesValid(s); Logout(s)
    case DoAddBook(title, author, isbn) => AddBookPreservesValid(s, title, author, isbn); AddBook(s, title, author, isbn)
    case DoBorrow(isbn) => BorrowGrows(s, isbn); Borrow(s, isbn).state
    case DoReturn(isbn) => ReturnGrows(s, isbn); Return(s, isbn).state
  }

  lemma BorrowGrows(s: State, isbn: string)
    requires Valid(s)
    ensures Grows(s, Borrow(s, isbn).state)
  {
    if Borrow(s, isbn).ok {
      BorrowEffect(s, isbn, FirstIndex(s.books, (b: Book) => IsAvailableCopy(b, isbn)).value);
    }
  }

  lemma ReturnGrows(s: State, isbn: string)
    requires Valid(s)
    ensures Grows(s, Return(s, isbn).state)
  {
    if Return(s, isbn).ok {
      var held := s.members[s.session.value].borrowedBooks;
      ReturnEffect(s, isbn, FirstIndex(held, (j: nat) => IsCopyOf(s.books, j, isbn)).value);
    }
  }

  /** The state after a sequence of calls. */
  function Run(s: State, ops: seq<Op>): (t: State)
    requires Valid(s)
    ensures Valid(t) && Grows(s, t)
    decreases |ops|
  {
    if |ops| == 0 then s else Run(Step(s, ops[0]), ops[1..])
  }

  /** Every state the engine can reach from a fresh start satisfies the
      invariant: in particular the session is always none or a registered
      member, and borrowers and held lists always agree. */
  lemma ReachableValid(ops: seq<Op>)
    ensures Valid(Run(Init(), ops))
    ensures var t := Run(Init(), ops);
      t.session.Some? ==> t.session.value in t.members
  {
  }
}
