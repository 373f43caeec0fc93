/** The catalog engine's state and operations as values.

    A book is referred to by its position in `books`, which never changes
    because books are only ever appended; a member is referred to by its
    member id, the key it is stored under. So a book's `borrower` is a member
    id and a member's `borrowedBooks` is a sequence of catalog positions. */
module Catalog {
  import opened Seqs
  import Text

  /** A registered member and the catalog positions it holds, in borrowing order. */
  datatype Member = Member(username: string, memberId: string, borrowedBooks: seq<nat>)

  /** A catalog entry; `borrower` is the id of the member holding it, if any. */
  datatype Book = Book(title: string, author: string, isbn: string, borrower: Option<string>)

  /** The engine: members by id, books in the order they were added, and the session. */
  datatype State = State(members: map<string, Member>, books: seq<Book>, session: Option<string>)

  /** The state after an operation and the boolean the operation returns. */
  datatype Outcome = Outcome(state: State, ok: bool)

  predicate IsAvailable(b: Book) {
    b.borrower.None?
  }

  predicate IsBorrowed(b: Book) {
    b.borrower.Some?
  }

  /** A copy with this ISBN that nobody holds: what `borrow_book` looks for. */
  predicate IsAvailableCopy(b: Book, isbn: string) {
    b.isbn == isbn && b.borrower.None?
  }

  /** Position `i` is a book with this ISBN: what `return_book` looks for. */
  predicate IsCopyOf(books: seq<Book>, i: nat, isbn: string) {
    i < |books| && books[i].isbn == isbn
  }

  /** The books a member holds are real catalog positions naming that member
      as borrower, each listed once. */
  ghost predicate HeldListValid(books: seq<Book>, id: string, held: seq<nat>) {
    && NoDup(held)
    && forall k :: 0 <= k < |held| ==> held[k] < |books| && books[held[k]].borrower == Some(id)
  }

  /** A borrowed book's borrower is registered and lists the book. */
  ghost predicate BorrowerHolds(s: State, i: nat)
    requires i < |s.books|
  {
    s.books[i].borrower.Some? ==>
      var id := s.books[i].borrower.value;
      id in s.members && i in s.members[id].borrowedBooks
  }

  /** The engine's invariant: members are stored under their own id, the
      session is a registered member, and `borrower` and `borrowedBooks`
      agree in both directions. */
  ghost predicate Valid(s: State) {
    && (forall id :: id in s.members ==> s.members[id].memberId == id)
    && (s.session.Some? ==> s.session.value in s.members)
    && (forall i: nat :: i < |s.books| ==> BorrowerHolds(s, i))
    && (forall id :: id in s.members ==> HeldListValid(s.books, id, s.members[id].borrowedBooks))
  }

  /** A fresh engine: no members, no books, nobody logged in. */
  function Init(): (s: State)
    ensures Valid(s) && s.books == [] && s.members == map[] && s.session.None?
  {
    State(map[], [], None)
  }

  /** `register_member`: refuses an id already registered, otherwise adds
      one member holding nothing. */
  function Register(s: State, username: string, memberId: string): (r: Outcome)
    ensures r.ok <==> memberId !in s.members
    ensures !r.ok ==> r.state == s
    ensures r.ok ==> r.state.members.Keys == s.members.Keys + {memberId}
    ensures r.ok ==> r.state.members[memberId].username == username
    ensures r.ok ==> r.state.members[memberId].memberId == memberId
    ensures r.ok ==> r.state.members[memberId].borrowedBooks == []
    ensures forall id :: id in s.members ==> id in r.state.members && r.state.members[id] == s.members[id]
    ensures r.state.books == s.books && r.state.session == s.session
  {
    if memberId in s.members then Outcome(s, false)
    else Outcome(s.(members := s.members[memberId := Member(username, memberId, [])]), true)
  }

  /** `login_member`: an unknown id changes nothing; a known id becomes the
      session, replacing whoever was logged in. */
  function Login(s: State, memberId: string): (r: Outcome)
    ensures r.ok <==> memberId in s.members
    ensures !r.ok ==> r.state == s
    ensures r.ok ==> r.state.session == Some(memberId)
    ensures r.state.members == s.members && r.state.books == s.books
  {
    if memberId !in s.members then Outcome(s, false)
    else Outcome(s.(session := Some(memberId)), true)
  }

  /** `logout_member`: ends the session, whether or not there was one. */
  function Logout(s: State): (r: State)
    ensures r.session.None?
    ensures r.members == s.members && r.books == s.books
  {
    s.(session := None)
  }

  /** `add_book`: appends an available book; ISBNs need not be unique. */
  function AddBook(s: State, title: string, author: string, isbn: string): (r: State)
    ensures |r.books| == |s.books| + 1 && r.books[..|s.books|] == s.books
    ensures r.books[|s.books|] == Book(title, author, isbn, None)
    ensures r.members == s.members && r.session == s.session
  {
    s.(books := s.books + [Book(title, author, isbn, None)])
  }

  /** `view_borrowed_books`: the session's held books, or none without a session. */
  function ViewBorrowedBooks(s: State): (r: seq<nat>)
    requires s.session.Some? ==> s.session.value in s.members
    ensures s.session.None? ==> r == []
    ensures s.session.Some? ==> r == s.members[s.session.value].borrowedBooks
  {
    match s.session
    case None => []
    case Some(id) => s.members[id].borrowedBooks
  }

  /** The state after member `id` takes the available book at position `i`:
      the book names `id` as borrower and goes to the end of its list. */
  function Lend(s: State, id: string, i: nat): (t: State)
    requires Valid(s) && id in s.members && i < |s.books| && s.books[i].borrower.None?
    ensures Valid(t)
    ensures t.session == s.session && t.members.Keys == s.members.Keys && |t.books| == |s.books|
    ensures t.books[i].borrower == Some(id) && t.books[i].(borrower := None) == s.books[i]
    ensures forall j :: 0 <= j < |s.books| && j != i ==> t.books[j] == s.books[j]
    ensures t.members[id].borrowedBooks == s.members[id].borrowedBooks + [i]
    ensures t.members[id].(borrowedBooks := s.members[id].borrowedBooks) == s.members[id]
    ensures forall other :: other in s.members && other != id ==> t.members[other] == s.members[other]
  {
    var m := s.members[id];
    var held := m.borrowedBooks;
    var t := s.(books := s.books[i := s.books[i].(borrower := Some(id))],
                members := s.members[id := m.(borrowedBooks := held + [i])]);
    assert Valid(t) by {
      assert HeldListValid(s.books, id, held);
      assert i !in held;
      forall j: nat | j < |t.books| ensures BorrowerHolds(t, j) {
        if j == i {
          assert i == (held + [i])[|held|];
        } else {
          assert BorrowerHolds(s, j);
          if s.books[j].borrower == Some(id) {
            var k :| 0 <= k < |held| && held[k] == j;
            assert (held + [i])[k] == j;
          }
        }
      }
      forall other | other in t.members
        ensures HeldListValid(t.books, other, t.members[other].borrowedBooks)
      {
        assert HeldListValid(s.books, other, s.members[other].borrowedBooks);
        if other == id {
          var nh := held + [i];
          forall a, b | 0 <= a < b < |nh| ensures nh[a] != nh[b] {
            if b == |held| { assert nh[a] == held[a]; }
          }
        } else {
          var oh := s.members[other].borrowedBooks;
          forall k | 0 <= k < |oh| ensures oh[k] != i {
            assert s.books[oh[k]].borrower == Some(other);
          }
        }
      }
    }
    t
  }

  /** The state after member `id` gives back the book in slot `k` of its list:
      the book is free again and `list.remove` takes it out of the list. */
  function Reclaim(s: State, id: string, k: nat): (t: State)
    requires Valid(s) && id in s.members && k < |s.members[id].borrowedBooks|
    ensures var held := s.members[id].borrowedBooks; var i := held[k];
      && Valid(t)
      && t.session == s.session && t.members.Keys == s.members.Keys && |t.books| == |s.books|
      && i < |s.books| && s.books[i].borrower == Some(id)
      && t.books[i] == s.books[i].(borrower := None)
      && (forall j :: 0 <= j < |s.books| && j != i ==> t.books[j] == s.books[j])
      && t.members[id].borrowedBooks == held[..k] + held[k + 1..]
      && i !in t.members[id].borrowedBooks
      && t.members[id].(borrowedBooks := held) == s.members[id]
      && (forall other :: other in s.members && other != id ==> t.members[other] == s.members[other])
  {
    var m := s.members[id];
    var held := m.borrowedBooks;
    var i := held[k];
    assert HeldListValid(s.books, id, held);
    RemoveFirstAt(held, i, k);
    CutKeepsNoDup(held, k);
    var nh := held[..k] + held[k + 1..];
    var t := s.(books := s.books[i := s.books[i].(borrower := None)],
                members := s.members[id := m.(borrowedBooks := RemoveFirst(held, i))]);
    assert t.members[id].borrowedBooks == nh;
    assert Valid(t) by {
      forall j: nat | j < |t.books| ensures BorrowerHolds(t, j) {
        assert BorrowerHolds(s, j);
      }
      forall other | other in t.members
        ensures HeldListValid(t.books, other, t.members[other].borrowedBooks)
      {
        var oh := s.members[other].borrowedBooks;
        assert HeldListValid(s.books, other, oh);
        if other == id {
          forall a | 0 <= a < |nh| ensures nh[a] < |t.books| && t.books[nh[a]].borrower == Some(id) {
            assert nh[a] in held;
          }
        } else {
          forall a | 0 <= a < |oh| ensures oh[a] != i {
            assert s.books[oh[a]].borrower == Some(other);
          }
        }
      }
    }
    t
  }

  /** `borrow_book`: with a session, the first available copy with this ISBN
      in catalog order is lent to the session member. */
  function Borrow(s: State, isbn: string): (r: Outcome)
    requires Valid(s)
    ensures r.ok <==> s.session.Some? && exists i :: 0 <= i < |s.books| && IsAvailableCopy(s.books[i], isbn)
    ensures !r.ok ==> r.state == s
    ensures Valid(r.state)
  {
    match s.session
    case None => Outcome(s, false)
    case Some(id) =>
      match FirstIndex(s.books, b => IsAvailableCopy(b, isbn))
      case None => Outcome(s, false)
      case Some(i) => Outcome(Lend(s, id, i), true)
  }

  /** `return_book`: with a session, the first book in the session member's
      own list with this ISBN is reclaimed; the rest of the catalog is not searched. */
  function Return(s: State, isbn: string): (r: Outcome)
    requires Valid(s)
    ensures r.ok <==> exists k :: 0 <= k < |ViewBorrowedBooks(s)| && IsCopyOf(s.books, ViewBorrowedBooks(s)[k], isbn)
    ensures !r.ok ==> r.state == s
    ensures Valid(r.state)
  {
    match s.session
    case None => Outcome(s, false)
    case Some(id) =>
      var held := s.members[id].borrowedBooks;
      match FirstIndex(held, i => IsCopyOf(s.books, i, isbn))
      case None => Outcome(s, false)
      case Some(k) =>
        assert ViewBorrowedBooks(s) == held && IsCopyOf(s.books, ViewBorrowedBooks(s)[k], isbn);
        Outcome(Reclaim(s, id, k), true)
  }

  /** `view_available_books`: the positions of the books nobody holds, in catalog order. */
  function ViewAvailableBooks(s: State): (r: seq<nat>)
    ensures Increasing(r)
    ensures forall i: nat :: i in r <==> i < |s.books| && s.books[i].borrower.None?
  {
    Select(s.books, IsAvailable)
  }

  /** True when the lower-cased keyword occurs in the lower-cased title
      (see `TitleMatchesIff` for the substring reading). */
  predicate TitleMatches(b: Book, keyword: string) {
    Text.Contains(Text.Lower(b.title), Text.Lower(keyword))
  }

  /** `search_books_by_title`: the positions of the books whose title contains
      the keyword, ignoring case, in catalog order. */
  function SearchBooksByTitle(s: State, keyword: string): (r: seq<nat>)
    ensures Increasing(r)
    ensures forall i: nat :: i in r <==> i < |s.books| && TitleMatches(s.books[i], keyword)
  {
    Select(s.books, b => TitleMatches(b, keyword))
  }

  /** The case-insensitive match is a substring test on the lower-cased texts. */
  lemma TitleMatchesIff(b: Book, keyword: string)
    ensures TitleMatches(b, keyword) ==> exists k :: Text.OccursAt(Text.Lower(b.title), Text.Lower(keyword), k)
    ensures forall k :: Text.OccursAt(Text.Lower(b.title), Text.Lower(keyword), k) ==> TitleMatches(b, keyword)
  {
    var title, kw := Text.Lower(b.title), Text.Lower(keyword);
    Text.ContainsIff(title, kw);
    if Text.Contains(title, kw) {
      var k :| Text.OccursAt(title, kw, k);
      assert Text.OccursAt(Text.Lower(b.title), Text.Lower(keyword), k);
    }
  }

  /** `view_statistics`: the catalog size and how many books are held. */
  function ViewStatistics(s: State): (r: (nat, nat))
    ensures r.0 == |s.books| && r.1 <= r.0
  {
    (|s.books|, Count(s.books, IsBorrowed))
  }
}
