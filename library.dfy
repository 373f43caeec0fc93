/** The catalog engine as an object: `LibrarySystem` keeps the members, the
    books and the session in three fields and its operations update them in
    place. Each method is proved to leave the fields as the corresponding
    function of module `Catalog` says, and to keep the engine's invariant. */
module Library {
  import opened Seqs
  import opened Catalog
  import CatalogProperties

  class LibrarySystem {
    var members: map<string, Member>
    var books: seq<Book>
    var loggedInMember: Option<string>

    /** The three fields as one value. */
    function Snapshot(): State
      reads this
    {
      State(members, books, loggedInMember)
    }

    ghost predicate Valid()
      reads this
    {
      Catalog.Valid(Snapshot())
    }

    /** A new engine has no members, no books and nobody logged in. */
    constructor ()
      ensures Valid() && Snapshot() == Init()
    {
      members := map[];
      books := [];
      loggedInMember := None;
    }

    method RegisterMember(username: string, memberId: string) returns (ok: bool)
      requires Valid()
      modifies this
      ensures Valid()
      ensures Outcome(Snapshot(), ok) == Register(old(Snapshot()), username, memberId)
    {
      if memberId in members {
        return false;
      }
      members := members[memberId := Member(username, memberId, [])];
      CatalogProperties.RegisterPreservesValid(old(Snapshot()), username, memberId);
      return true;
    }

    method LoginMember(memberId: string) returns (ok: bool)
      requires Valid()
      modifies this
      ensures Valid()
      ensures Outcome(Snapshot(), ok) == Login(old(Snapshot()), memberId)
    {
      if memberId !in members {
        return false;
      }
      loggedInMember := Some(memberId);
      CatalogProperties.LoginPreservesValid(old(Snapshot()), memberId);
      return true;
    }

    method LogoutMember()
      requires Valid()
      modifies this
      ensures Valid()
      ensures Snapshot() == Logout(old(Snapshot()))
    {
      loggedInMember := None;
      CatalogProperties.LogoutPreservesValid(old(Snapshot()));
    }

    method AddBook(title: string, author: string, isbn: string)
      requires Valid()
      modifies this
      ensures Valid()
      ensures Snapshot() == Catalog.AddBook(old(Snapshot()), title, author, isbn)
    {
      books := books + [Book(title, author, isbn, None)];
      CatalogProperties.AddBookPreservesValid(old(Snapshot()), title, author, isbn);
    }

    /** Scans the catalog in order and lends the first available copy. */
    method BorrowBook(isbn: string) returns (ok: bool)
      requires Valid()
      modifies this
      ensures Valid()
      ensures Outcome(Snapshot(), ok) == Borrow(old(Snapshot()), isbn)
    {
      if loggedInMember.None? {
        return false;
      }
      var id := loggedInMember.value;
      var i := 0;
      while i < |books|
        invariant 0 <= i <= |books|
        invariant Snapshot() == old(Snapshot())
        invariant forall j :: 0 <= j < i ==> !IsAvailableCopy(books[j], isbn)
      {
        if books[i].isbn == isbn && books[i].borrower.None? {
          CatalogProperties.BorrowEffect(old(Snapshot()), isbn, i);
          books := books[i := books[i].(borrower := Some(id))];
          var m := members[id];
          members := members[id := m.(borrowedBooks := m.borrowedBooks + [i])];
          return true;
        }
        i := i + 1;
      }
      return false;
    }

    /** Scans only the session member's own list and gives back the first
        book with this ISBN. */
    method ReturnBook(isbn: string) returns (ok: bool)
      requires Valid()
      modifies this
      ensures Valid()
      ensures Outcome(Snapshot(), ok) == Return(old(Snapshot()), isbn)
    {
      if loggedInMember.None? {
        return false;
      }
      var id := loggedInMember.value;
      var held := members[id].borrowedBooks;
      assert HeldListValid(books, id, held);
      var k := 0;
      while k < |held|
        invariant 0 <= k <= |held|
        invariant Snapshot() == old(Snapshot())
        invariant forall j :: 0 <= j < k ==> !IsCopyOf(books, held[j], isbn)
      {
        var i := held[k];
        if books[i].isbn == isbn {
          CatalogProperties.ReturnEffect(old(Snapshot()), isbn, k);
          books := books[i := books[i].(borrower := None)];
          members := members[id := members[id].(borrowedBooks := RemoveFirst(held, i))];
          return true;
        }
        k := k + 1;
      }
      return false;
    }
  }
}
