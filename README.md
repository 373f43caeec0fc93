# Library catalog engine in Dafny

This project models the in-memory catalog engine `LibrarySystem` of
`library_system.py` and proves its properties. The engine:

- registers members under a member id;
- keeps one login session;
- appends books to a catalog in the order they are added;
- lends a book to the logged-in member and takes it back;
- answers read-only queries: available books, the session member's borrowed
  books, a case-insensitive title search, and statistics.

The model is split into modules:

- `Seqs` (seqs.dfy) holds sequence helpers:
  - `FirstIndex`, the first-match scan;
  - `Select`, the order-preserving filter that returns positions;
  - `Count`;
  - `RemoveFirst`, which is Python's `list.remove`.
- `Text` (text.dfy) holds ASCII lower-casing and substring containment.
- `Catalog` (catalog.dfy) is the engine as values:
  - the records `Member` and `Book` and the whole `State`;
  - the invariant `Valid`;
  - one function per engine operation. Each mutator returns an `Outcome`, which is the new state and the boolean the source returns.
- `CatalogProperties` (catalog_properties.dfy) holds what the operations promise:
  - every operation preserves the invariant;
  - borrow and return touch exactly one book and one member;
  - a borrow followed by a return restores the state, and with duplicate ISBNs it need not;
  - the catalog never shrinks over any run of calls;
  - the views and the statistics agree.
- `Library` (library.dfy) is the class `LibrarySystem`:
  - It has the three fields `members`, `books` and `loggedInMember`, and methods that update them in place.
  - `BorrowBook` and `ReturnBook` run the source's early-return scans as loops with invariants.
  - Each method is proved to leave the fields exactly as the `Catalog` function says and to keep `Valid`.
- `Scenarios` (scenarios.dfy) restates the repository's unit tests as lemmas over the tests' fixture.
- `Client` (client.dfy) runs the tests' set-up and their borrow-and-return test on a `LibrarySystem` object. Every step is checked from the method contracts and the `Scenarios` lemmas. It is a client of the engine, so it has no contract of its own and no row below.

Identity:

- A book is identified by its position in `books`. Books are only ever appended, so a position never changes.
- Duplicate ISBNs are allowed and handled: two copies with one ISBN are two positions.
- A member is identified by its member id, the key it is stored under.
- A book's `borrower` and the session are member ids.
- A member's `borrowedBooks` is a sequence of catalog positions in borrowing order.

The invariant `Catalog.Valid` ties these together:

- a book names member `m` as its borrower exactly when `m`'s list holds the book's position;
- the book then appears in that list exactly once and in no other member's list;
- the session, if any, is a registered member.

What the model has is what `library_system.py` has:

- `library_system.py` imports `datetime` but records no dates, and it has no `view_all_members`; the model has neither.
- Nothing in the code enforces unique ISBNs, so the model allows duplicates.

## Model

| member | source | states |
|---|---|---|
| Catalog.Init | library_system.py:19-22 | A new engine has no members, no books and no session, and satisfies the invariant |
| Catalog.Register | library_system.py:25-29 | Succeeds exactly when the id is not yet a key. On failure the state is unchanged. On success exactly one key is added, holding the given name and id and an empty list; existing members, books and session are unchanged |
| Catalog.Login | library_system.py:32-36 | Succeeds exactly when the id is registered. On failure nothing changes. On success the session becomes that member, replacing any earlier one; members and books are unchanged |
| Catalog.Logout | library_system.py:39-40 | The session is cleared whether or not there was one; members and books are unchanged |
| Catalog.AddBook | library_system.py:43-45 | The catalog grows by one book at the end with no borrower; earlier books, members and session are unchanged; no ISBN uniqueness check |
| Catalog.ViewBorrowedBooks | library_system.py:75-78 | No session gives the empty list; otherwise the session member's own list |
| Catalog.Lend | library_system.py:53-54 | Lending an available book sets its borrower to the member and appends it to that member's list. Nothing else changes and the invariant is kept |
| Catalog.Reclaim | library_system.py:63-65 | Giving back slot k of a member's list clears that book's borrower and cuts exactly that slot out of the list with `list.remove`. The book is then no longer listed, nothing else changes, and the invariant is kept |
| Catalog.Borrow | library_system.py:48-56 | Succeeds exactly when there is a session and some book with that ISBN has no borrower. On failure nothing changes. The result keeps the invariant |
| Catalog.Return | library_system.py:59-67 | Succeeds exactly when the session member's own list holds a book with that ISBN, so a copy held by someone else or on the shelf is never returned. On failure nothing changes. The result keeps the invariant |
| Catalog.ViewAvailableBooks | library_system.py:70-72 | Exactly the positions of the books with no borrower, in increasing (catalog) order |
| Catalog.SearchBooksByTitle | library_system.py:81-82 | Exactly the positions whose lower-cased title contains the lower-cased keyword, in catalog order |
| Catalog.TitleMatchesIff | library_system.py:82 | The scan-based title match holds exactly when some slice of the lower-cased title equals the lower-cased keyword |
| Catalog.ViewStatistics | library_system.py:85-88 | The first component is the number of books and the second never exceeds it |
| CatalogProperties.BorrowerIffHeld | library_system.py:53-54 | A book names a member as borrower exactly when that member's list contains it |
| CatalogProperties.HeldExactlyOnce | library_system.py:53-54 | A borrowed book appears exactly once in its borrower's list and in no other member's list |
| CatalogProperties.RegisterPreservesValid | library_system.py:25-29 | Registration keeps the invariant |
| CatalogProperties.LoginPreservesValid | library_system.py:32-36 | Login keeps the invariant, so the session is always a registered member |
| CatalogProperties.LogoutPreservesValid | library_system.py:39-40 | Logout keeps the invariant |
| CatalogProperties.AddBookPreservesValid | library_system.py:43-45 | Adding a book keeps the invariant |
| CatalogProperties.BorrowEffect | library_system.py:51-56 | With a session, a successful borrow lends exactly the first available copy with that ISBN in catalog order to the session member |
| CatalogProperties.BorrowKeepsHolders | library_system.py:52 | A borrow never changes a book that is already borrowed, so the existing borrower is kept |
| CatalogProperties.ReturnEffect | library_system.py:62-66 | A successful return reclaims exactly the first book in the session member's list with that ISBN |
| CatalogProperties.ReturnKeepsOthersBooks | library_system.py:62-65 | A return never touches a book that is not held by the session member |
| CatalogProperties.BorrowReturnRoundTrip | library_system.py:48-67 | Borrowing an available ISBN and returning it gives back exactly the earlier state, when the member held no other copy of that ISBN. In particular the borrowed list and the available books are restored |
| CatalogProperties.LendThenReclaimLast | library_system.py:53-65 | Reclaiming the slot that lending just appended restores the state |
| CatalogProperties.BorrowThenReturnFreesEarlierCopy | library_system.py:48-67 | If the member already held a copy with that ISBN, borrow then return frees that older copy and keeps the new one. The list becomes the old list without that copy, followed by the new one |
| CatalogProperties.LendThenReclaim | library_system.py:53-65 | Lending a book and reclaiming an older slot frees the older book, keeps the new one, and leaves the list as described above |
| CatalogProperties.StatisticsPartition | library_system.py:70-88 | The total number of books equals the borrowed count plus the number of available books |
| CatalogProperties.BorrowCountsOne | library_system.py:85-88 | A successful borrow raises the borrowed count by one and keeps the total |
| CatalogProperties.ReturnCountsOne | library_system.py:85-88 | A successful return lowers the borrowed count by one and keeps the total |
| CatalogProperties.SearchEmptyKeyword | library_system.py:81-82 | The empty keyword finds every book, in catalog order |
| CatalogProperties.SearchAfterAddBook | library_system.py:81-82 | Adding a book keeps all earlier search results and appends its position exactly when its title matches |
| CatalogProperties.SearchFindsOnly | library_system.py:81-82 | When exactly one title matches, the search returns just that book |
| CatalogProperties.SearchFindsNone | library_system.py:81-82 | When no title matches, the search returns nothing |
| CatalogProperties.BorrowGrows | library_system.py:48-56 | A borrow keeps every book's title, author and ISBN, and every member's name and id |
| CatalogProperties.ReturnGrows | library_system.py:59-67 | A return keeps every book's title, author and ISBN, and every member's name and id |
| CatalogProperties.Step | library_system.py:25-67 | Every single engine call keeps the invariant. The catalog never shrinks, and no member or book loses its identifying fields |
| CatalogProperties.Run | library_system.py:25-67 | The same holds for any sequence of calls |
| CatalogProperties.ReachableValid | library_system.py:19-67 | Every state reachable from a new engine satisfies the invariant, so the session is none or a registered member |
| Library.LibrarySystem.constructor | library_system.py:19-22 | The new object's fields are the empty engine |
| Library.LibrarySystem.RegisterMember | library_system.py:25-29 | Fields and result are as `Catalog.Register` says; invariant kept |
| Library.LibrarySystem.LoginMember | library_system.py:32-36 | Fields and result are as `Catalog.Login` says; invariant kept |
| Library.LibrarySystem.LogoutMember | library_system.py:39-40 | Fields are as `Catalog.Logout` says; invariant kept |
| Library.LibrarySystem.AddBook | library_system.py:43-45 | Fields are as `Catalog.AddBook` says; invariant kept |
| Library.LibrarySystem.BorrowBook | library_system.py:48-56 | The in-place scan with early return leaves fields and result exactly as `Catalog.Borrow` says; invariant kept |
| Library.LibrarySystem.ReturnBook | library_system.py:59-67 | The in-place scan of the member's list, with `list.remove`, leaves fields and result exactly as `Catalog.Return` says; invariant kept |
| Seqs.FirstIndex | library_system.py:51-52 | The first position satisfying the test, none before it does, and none only when no element does |
| Seqs.Select | library_system.py:71 | The positions kept by a list comprehension: exactly those satisfying the test, in increasing order |
| Seqs.RemoveFirst | library_system.py:65 | `RemoveFirst` drops the first occurrence of a present value. On a missing value it returns the list unchanged, where `list.remove` raises (`return_book` never passes one) |
| Seqs.RemoveFirstAt | library_system.py:65 | Removing the first occurrence found at position j cuts out exactly slot j |
| Seqs.RemoveFirstMultiset | library_system.py:65 | `list.remove` drops exactly one copy of the value and keeps every other multiplicity |
| Seqs.SelectCountPartition | library_system.py:85-88 | Kept positions plus counted complement give the length |
| Seqs.SelectAppend | library_system.py:70-72 | Filtering an extended list extends the result by the new position if it is kept |
| Text.Lower | library_system.py:82 | ASCII `str.lower`: same length, each character lower-cased |
| Text.ContainsIff | library_system.py:82 | The scan-based `in` test holds exactly when some slice equals the needle |
| Scenarios.SetUp | testcases.py:7-12 | Registering and logging in "user1" and adding the two books produces the fixture state |
| Scenarios.TestRegisterMember | testcases.py:14-18 | A new id registers and a taken id does not, even under another name |
| Scenarios.TestLoginMember | testcases.py:20-25 | After logout the id logs in again; an unknown id is refused |
| Scenarios.TestBorrowAndReturnBook | testcases.py:27-37 | Borrowing ISBN001 lists only "Book One"; returning it empties the list |
| Scenarios.TestBorrowUnavailableBook | test_cases.py:44-47 | The single copy, once lent, cannot be borrowed again |
| Scenarios.TestViewAvailableBooks | testcases.py:39-43 | With "Book One" lent, "Book Two" is the only available book |
| Scenarios.TestViewStatistics | testcases.py:50-56 | Statistics are (2, 0), then (2, 1) after a borrow |
| Scenarios.TestSearchBooksByTitle | testcases.py:45-48 | "One" finds exactly "Book One" |
| Scenarios.TestSearchNoResults | test_cases.py:64-66 | "Nonexistent" finds nothing |
| Scenarios.TestSearchWithSpecialCharacters | test_cases.py:89-93 | "C++" finds exactly the newly added "C++ Primer" |
| Scenarios.TestAddAndSearchBooks | test_cases.py:95-98 | A newly added "Advanced Python" is found by "Python" |
| Scenarios.TestRefusals | test_cases.py:49-51 | Borrow and return fail for an ISBN not held, an ISBN not in the catalog, and without a session. This is also shown by test_cases.py:100-117 |

## Left out

- The console program `main` with its menu loop, `input` and `print` (library_system.py:91-160) is console I/O that only dispatches to the engine.
- The unused `datetime` import (library_system.py:1) is left out: the code records no timestamps.
- `view_all_members` is called by test_cases.py:80 but does not exist in library_system.py, so it is not modelled.
- The fourth `category` argument that test_cases.py passes to `add_book` does not exist in the code. The `Scenarios` lemmas use the three-argument `add_book` of library_system.py.
- Text.Lower: lower-cases only the ASCII letters A to Z. Python's `str.lower` also maps non-ASCII letters, and for some characters it changes the string's length.
- Object aliasing is dropped:
  - A `Book` or `Member` object is modelled as a record named by catalog position or member id.
  - The session holds the member id instead of the `Member` object.
  - `view_borrowed_books` returns the list's value, not the live list object.
  - `view_available_books` and `search_books_by_title` return positions instead of `Book` objects.

  For the identity bullets this is exact, because members are never replaced and books are never removed.
  The live list is not captured. In Python, `view_borrowed_books` (library_system.py:75-78) hands out the member's own list object. A caller holding it sees later borrows and returns, and a caller changing it changes the engine, which can break the borrower/list invariant. The model returns a copy.
- Python truthiness (`not self.logged_in_member`, `not book.borrower`) is modelled as a plain "is none" test, because `Member` and `Book` define no `__bool__` or `__len__`.
- The `ValueError` that `list.remove` raises for a missing element is not modelled: `return_book` removes only a book it has just found in the list.
- In `Catalog`, the mutators are functions on values; in-place update is in `Library.LibrarySystem`.
