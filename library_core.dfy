/**
 * The inventory ledger: `Book`, `User` and `Library` as classes whose fields the
 * operations update in place. `Library.State()` reads the catalogue as an
 * `Inventory.Stock` value; every method's postcondition gives the new state as an
 * `Inventory` function of the old one.
 */
module LibraryCore {
  import opened Wrappers
  import opened Inventory
  import Text

  class Book {
    var title: string
    var author: string
    const bookId: string
    var totalCopies: int
    var availableCopies: int
    var price: int
    var imageUrl: Option<string>
    var imageBytes: Option<Bytes>
    var imageMime: Option<string>

    /** The book's fields as a value. */
    function State(): BookState
      reads this
    {
      BookState(title, author, totalCopies, availableCopies, price, imageUrl, imageBytes, imageMime)
    }

    /** `Book(...)` for a total that has passed the check in `Create`. */
    constructor (title: string, author: string, bookId: string, totalCopies: int,
                 imageUrl: Option<string>, imageBytes: Option<Bytes>, imageMime: Option<string>,
                 price: int)
      requires totalCopies >= 0
      ensures this.bookId == bookId
      ensures State() == NewBookState(title, author, totalCopies, imageUrl, imageBytes, imageMime).(price := price)
    {
      this.title := title;
      this.author := author;
      this.bookId := bookId;
      this.totalCopies := totalCopies;
      this.availableCopies := totalCopies;
      this.price := price;
      this.imageUrl := imageUrl;
      this.imageBytes := imageBytes;
      this.imageMime := imageMime;
    }

    /** `Book.__init__`: a negative total raises `ValueError` (here: `None`). */
    static method Create(title: string, author: string, bookId: string, totalCopies: int,
                         imageUrl: Option<string>, imageBytes: Option<Bytes>, imageMime: Option<string>,
                         price: int)
      returns (r: Option<Book>)
      ensures r.None? <==> totalCopies < 0
      ensures r.Some? ==> fresh(r.value) && r.value.bookId == bookId
      ensures r.Some? ==> r.value.State()
                          == NewBookState(title, author, totalCopies, imageUrl, imageBytes, imageMime).(price := price)
    {
      if totalCopies < 0 {
        return None;
      }
      var b := new Book(title, author, bookId, totalCopies, imageUrl, imageBytes, imageMime, price);
      return Some(b);
    }

    /**
     * The body of `add_book` for an existing book: the total is set, the available copies
     * recomputed from what is already out, and the cover replaced by an upload or a URL.
     */
    method Update(title: string, author: string, totalCopies: int,
                  imageUrl: Option<string>, imageBytes: Option<Bytes>, imageMime: Option<string>)
      requires totalCopies > 0
      modifies this
      ensures State() == Overwritten(old(State()), title, author, totalCopies, imageUrl, imageBytes, imageMime)
    {
      var soldOrOut := this.totalCopies - availableCopies;
      if soldOrOut < 0 {
        soldOrOut := 0;
      }
      this.title := title;
      this.author := author;
      this.totalCopies := totalCopies;
      availableCopies := Max(0, this.totalCopies - soldOrOut);
      availableCopies := Min(this.totalCopies, availableCopies);
      if imageBytes.Some? {
        this.imageBytes := imageBytes;
        this.imageMime := imageMime;
        this.imageUrl := None;
      } else if imageUrl.Some? && imageUrl.value != "" {
        this.imageUrl := imageUrl;
        this.imageBytes := None;
        this.imageMime := None;
      }
    }

    predicate IsAvailable()
      reads this
    {
      availableCopies > 0
    }
  }

  /** The position of the first occurrence of `x`. */
  function FirstIndex(s: seq<string>, x: string): (k: nat)
    requires x in s
    ensures k < |s| && s[k] == x
    ensures forall j :: 0 <= j < k ==> s[j] != x
  {
    if s[0] == x then 0 else FirstIndex(s[1..], x) + 1
  }

  /** Python's `list.remove(x)` when `x` is present; the list unchanged otherwise. */
  function RemoveFirst(s: seq<string>, x: string): seq<string> {
    if s == [] then []
    else if s[0] == x then s[1..]
    else [s[0]] + RemoveFirst(s[1..], x)
  }

  /** Without an occurrence of `x`, `list.remove` leaves the list as it is. */
  lemma {:induction false} RemoveFirstAbsent(s: seq<string>, x: string)
    requires x !in s
    ensures RemoveFirst(s, x) == s
  {
    if s != [] {
      assert x !in s[1..];
      RemoveFirstAbsent(s[1..], x);
      assert s == [s[0]] + s[1..];
    }
  }

  /**
   * What `list.remove` does: the first occurrence of `x` goes and everything before
   * and after it stays in order.
   */
  lemma {:induction false} RemoveFirstSlices(s: seq<string>, x: string)
    requires x in s
    ensures RemoveFirst(s, x) == s[..FirstIndex(s, x)] + s[FirstIndex(s, x) + 1..]
  {
    if s[0] != x {
      var t := s[1..];
      assert x in t by {
        var i :| 0 <= i < |s| && s[i] == x;
        assert t[i - 1] == x;
      }
      var k := FirstIndex(t, x);
      RemoveFirstSlices(t, x);
      assert FirstIndex(s, x) == k + 1;
      ConsSlices(s, k);
    }
  }

  /** Cutting position `k` out of the tail is cutting position `k + 1` out of the list. */
  lemma ConsSlices(s: seq<string>, k: nat)
    requires k + 1 < |s|
    ensures [s[0]] + (s[1..][..k] + s[1..][k + 1..]) == s[..k + 1] + s[k + 2..]
  {
    assert s[..k + 1] == [s[0]] + s[1..][..k];
    assert s[k + 2..] == s[1..][k + 1..];
  }

  /** The multiset of ids loses exactly one `x` (none when there is no `x`). */
  lemma {:induction false} RemoveFirstMultiset(s: seq<string>, x: string)
    ensures multiset(RemoveFirst(s, x)) == multiset(s) - multiset{x}
  {
    if s != [] {
      assert s == [s[0]] + s[1..];
      if s[0] != x {
        RemoveFirstMultiset(s[1..], x);
      }
    }
  }

  class User {
    const name: string
    var borrowedBooks: seq<string>

    constructor (name: string)
      ensures this.name == name && borrowedBooks == []
    {
      this.name := name;
      borrowedBooks := [];
    }

    /** `User.borrow`: appends the id. */
    method Borrow(bookId: string)
      modifies this
      ensures borrowedBooks == old(borrowedBooks) + [bookId]
    {
      borrowedBooks := borrowedBooks + [bookId];
    }

    /** `User.return_book`: removes the first occurrence, reporting whether there was one. */
    method ReturnBook(bookId: string) returns (found: bool)
      modifies this
      ensures found <==> bookId in old(borrowedBooks)
      ensures borrowedBooks == RemoveFirst(old(borrowedBooks), bookId)
      ensures !found ==> borrowedBooks == old(borrowedBooks)
    {
      if bookId in borrowedBooks {
        borrowedBooks := RemoveFirst(borrowedBooks, bookId);
        return true;
      }
      RemoveFirstAbsent(borrowedBooks, bookId);
      return false;
    }
  }

  /** One entry of `borrow_records`. */
  datatype BorrowRecord = BorrowRecord(user: string, bookId: string, title: string)

  predicate Matches(r: BorrowRecord, user: string, bookId: string) {
    r.user == user && r.bookId == bookId
  }

  /** The ids of the books the records say `user` has out. */
  function BorrowedBy(records: seq<BorrowRecord>, user: string): multiset<string> {
    if records == [] then multiset{}
    else
      var last := records[|records| - 1];
      BorrowedBy(records[..|records| - 1], user) + (if last.user == user then multiset{last.bookId} else multiset{})
  }

  lemma {:induction false} BorrowedByAppend(a: seq<BorrowRecord>, b: seq<BorrowRecord>, user: string)
    ensures BorrowedBy(a + b, user) == BorrowedBy(a, user) + BorrowedBy(b, user)
    decreases |b|
  {
    if b == [] {
      assert a + b == a;
    } else {
      assert (a + b)[..|a + b| - 1] == a + b[..|b| - 1];
      BorrowedByAppend(a, b[..|b| - 1], user);
    }
  }

  /** Records of other users contribute nothing. */
  lemma {:induction false} BorrowedByNone(records: seq<BorrowRecord>, user: string)
    requires forall k :: 0 <= k < |records| ==> records[k].user != user
    ensures BorrowedBy(records, user) == multiset{}
  {
    if records != [] {
      var init := records[..|records| - 1];
      assert forall k :: 0 <= k < |init| ==> init[k] == records[k];
      BorrowedByNone(init, user);
    }
  }

  /** A book the records count for `user` has a matching record. */
  lemma {:induction false} BorrowedByHasRecord(records: seq<BorrowRecord>, user: string, bookId: string)
    requires bookId in BorrowedBy(records, user)
    ensures exists k :: 0 <= k < |records| && Matches(records[k], user, bookId)
  {
    var init, last := records[..|records| - 1], records[|records| - 1];
    if !Matches(last, user, bookId) {
      BorrowedByHasRecord(init, user, bookId);
      var k :| 0 <= k < |init| && Matches(init[k], user, bookId);
      assert records[k] == init[k];
    }
  }

  /** Dropping record `k` takes its book off its user's count and off no one else's. */
  lemma BorrowedByRemove(records: seq<BorrowRecord>, k: nat, user: string)
    requires k < |records|
    ensures BorrowedBy(records[..k] + records[k + 1..], user)
         == BorrowedBy(records, user)
            - (if records[k].user == user then multiset{records[k].bookId} else multiset{})
  {
    assert records == records[..k] + [records[k]] + records[k + 1..];
    BorrowedByAppend(records[..k] + [records[k]], records[k + 1..], user);
    BorrowedByAppend(records[..k], [records[k]], user);
    BorrowedByAppend(records[..k], records[k + 1..], user);
    assert BorrowedBy([records[k]], user)
        == (if records[k].user == user then multiset{records[k].bookId} else multiset{}) by {
      assert [records[k]][..0] == [];
    }
  }

  /** The records after `return_book`'s loop: the first record for (`user`, `bookId`) is popped. */
  function RemoveFirstRecord(records: seq<BorrowRecord>, user: string, bookId: string): seq<BorrowRecord> {
    if records == [] then []
    else if Matches(records[0], user, bookId) then records[1..]
    else [records[0]] + RemoveFirstRecord(records[1..], user, bookId)
  }

  lemma {:induction false} RemoveFirstRecordAt(records: seq<BorrowRecord>, user: string, bookId: string, k: nat)
    requires k < |records| && Matches(records[k], user, bookId)
    requires forall j :: 0 <= j < k ==> !Matches(records[j], user, bookId)
    ensures RemoveFirstRecord(records, user, bookId) == records[..k] + records[k + 1..]
  {
    if k > 0 {
      var rest := records[1..];
      assert !Matches(records[0], user, bookId);
      forall j | 0 <= j < k - 1
        ensures !Matches(rest[j], user, bookId)
      {
        assert rest[j] == records[j + 1];
      }
      RemoveFirstRecordAt(rest, user, bookId, k - 1);
      assert RemoveFirstRecord(records, user, bookId) == [records[0]] + (rest[..k - 1] + rest[k..]);
      assert records[..k] == [records[0]] + rest[..k - 1];
      assert records[k + 1..] == rest[k..];
    }
  }

  lemma {:induction false} RemoveFirstRecordNone(records: seq<BorrowRecord>, user: string, bookId: string)
    requires forall j :: 0 <= j < |records| ==> !Matches(records[j], user, bookId)
    ensures RemoveFirstRecord(records, user, bookId) == records
  {
    if records != [] {
      assert forall j :: 0 <= j < |records| - 1 ==> records[1..][j] == records[j + 1];
      RemoveFirstRecordNone(records[1..], user, bookId);
    }
  }

  /** Each user's borrowed-book list, keyed by user name. */
  type LoanLists = map<string, seq<string>>

  /** The list of `user`, `[]` for a user not yet created. */
  function ListOf(loans: LoanLists, user: string): seq<string> {
    if user in loans then loans[user] else []
  }

  /**
   * The two sides of the loan ledger agree: every record names a known user, and each
   * user's list holds exactly the books the records assign to that user.
   */
  predicate LedgerOk(loans: LoanLists, records: seq<BorrowRecord>) {
    (forall k :: 0 <= k < |records| ==> records[k].user in loans)
    && (forall u :: u in loans ==> multiset(loans[u]) == BorrowedBy(records, u))
  }

  /** The first record for (`user`, `bookId`), when there is one. */
  lemma {:induction false} FirstMatch(records: seq<BorrowRecord>, user: string, bookId: string) returns (k: nat)
    requires exists j :: 0 <= j < |records| && Matches(records[j], user, bookId)
    ensures k < |records| && Matches(records[k], user, bookId)
    ensures forall j :: 0 <= j < k ==> !Matches(records[j], user, bookId)
  {
    if Matches(records[0], user, bookId) {
      k := 0;
    } else {
      var j :| 0 <= j < |records| && Matches(records[j], user, bookId);
      assert records[1..][j - 1] == records[j];
      var k' := FirstMatch(records[1..], user, bookId);
      k := k' + 1;
      forall i | 0 <= i < k ensures !Matches(records[i], user, bookId) {
        if i > 0 { assert records[i] == records[1..][i - 1]; }
      }
    }
  }

  /** `get_or_create_user` for a new name keeps the ledger consistent. */
  lemma LedgerNewUser(loans: LoanLists, records: seq<BorrowRecord>, user: string)
    requires LedgerOk(loans, records) && user !in loans
    ensures LedgerOk(loans[user := []], records)
  {
    BorrowedByNone(records, user);
  }

  /** A borrow appends the book to the user's list and one record: the ledger stays consistent. */
  lemma LedgerBorrow(loans: LoanLists, records: seq<BorrowRecord>, user: string, bookId: string, title: string)
    requires LedgerOk(loans, records)
    ensures LedgerOk(loans[user := ListOf(loans, user) + [bookId]], records + [BorrowRecord(user, bookId, title)])
  {
    if user in loans {
      LedgerBorrowKnown(loans, records, user, bookId, title);
    } else {
      LedgerNewUser(loans, records, user);
      LedgerBorrowKnown(loans[user := []], records, user, bookId, title);
      UpdateTwice(loans, user, [], [bookId]);
    }
  }

  /** `LedgerBorrow` for a user who already has a list. */
  lemma LedgerBorrowKnown(loans: LoanLists, records: seq<BorrowRecord>, user: string, bookId: string, title: string)
    requires LedgerOk(loans, records) && user in loans
    ensures LedgerOk(loans[user := loans[user] + [bookId]], records + [BorrowRecord(user, bookId, title)])
  {
    var loans' := loans[user := loans[user] + [bookId]];
    var records' := records + [BorrowRecord(user, bookId, title)];
    forall k | 0 <= k < |records'|
      ensures records'[k].user in loans'
    {
      if k < |records| {
        assert records'[k] == records[k];
      }
    }
    forall u | u in loans'
      ensures multiset(loans'[u]) == BorrowedBy(records', u)
    {
      assert records'[..|records'| - 1] == records;
    }
  }

  /**
   * A return takes the first occurrence off the user's list and the first matching
   * record off `borrow_records`: the ledger stays consistent.
   */
  lemma LedgerReturn(loans: LoanLists, records: seq<BorrowRecord>, user: string, bookId: string)
    requires LedgerOk(loans, records) && user in loans && bookId in loans[user]
    ensures LedgerOk(loans[user := RemoveFirst(loans[user], bookId)], RemoveFirstRecord(records, user, bookId))
  {
    assert bookId in multiset(loans[user]);
    BorrowedByHasRecord(records, user, bookId);
    var k := FirstMatch(records, user, bookId);
    RemoveFirstRecordAt(records, user, bookId, k);
    LedgerDrop(loans, records, user, bookId, k);
  }

  /** Dropping a record for (`user`, `bookId`) and one `bookId` from the user's list keeps the ledger. */
  lemma LedgerDrop(loans: LoanLists, records: seq<BorrowRecord>, user: string, bookId: string, k: nat)
    requires LedgerOk(loans, records) && user in loans && bookId in loans[user]
    requires k < |records| && Matches(records[k], user, bookId)
    ensures LedgerOk(loans[user := RemoveFirst(loans[user], bookId)], records[..k] + records[k + 1..])
  {
    RemoveFirstMultiset(loans[user], bookId);
    var loans' := loans[user := RemoveFirst(loans[user], bookId)];
    var records' := records[..k] + records[k + 1..];
    forall u | u in loans' ensures multiset(loans'[u]) == BorrowedBy(records', u) {
      BorrowedByRemove(records, k, u);
    }
    forall j | 0 <= j < |records'| ensures records'[j].user in loans' {
      if j < k { assert records'[j] == records[j]; } else { assert records'[j] == records[j + 1]; }
    }
  }

  /** A second update of the same key overrides the first. */
  lemma UpdateTwice(m: LoanLists, k: string, a: seq<string>, b: seq<string>)
    ensures m[k := a][k := b] == m[k := b]
  {
  }

  class Library {
    const name: string
    var books: map<string, Book>
    /** The keys of `books` in dictionary (insertion) order. */
    var ids: seq<string>
    var users: map<string, User>
    var borrowRecords: seq<BorrowRecord>

    /** The catalogue as a value. */
    function State(): Stock
      reads this`books, books.Values
    {
      map id | id in books :: books[id].State()
    }

    /** The borrowed-book list of every user, as a value (see `LoansOk`). */
    ghost var loans: LoanLists

    /**
     * The structure every method keeps: each book and user sits under its own id,
     * `ids` lists the keys once each, and no total is negative.
     */
    ghost predicate Valid()
      reads this`books, this`ids, this`users, books.Values
    {
      BooksOk() && UsersOk()
    }

    ghost predicate BooksOk()
      reads this`books, this`ids, books.Values
    {
      (forall id :: id in books ==> books[id].bookId == id && books[id].totalCopies >= 0)
      && NoDuplicates(ids)
      && (forall id :: id in books ==> id in ids)
      && (forall id :: id in ids ==> id in books)
    }

    ghost predicate UsersOk()
      reads this`users
    {
      forall u :: u in users ==> users[u].name == u
    }

    /** In terms of the catalogue value: `ids` and the books form a `Catalogue`. */
    lemma ValidCatalogue()
      requires Valid()
      ensures Catalogue(State(), ids)
    {
    }

    /** A library whose fields and books were left alone has the same catalogue and keeps its invariant. */
    twostate lemma Untouched()
      requires unchanged(this) && unchanged(books.Values)
      ensures State() == old(State())
      ensures old(Valid()) ==> Valid()
    {
    }

    /** A library whose book map and books were left alone has the same catalogue. */
    twostate lemma SameStock()
      requires old(books) == books && unchanged(books.Values)
      ensures State() == old(State())
    {
    }

    /** `loans` holds exactly the users' `borrowed_books` lists. */
    ghost predicate LoansOk()
      reads this`users, this`loans, users.Values
    {
      && loans.Keys == users.Keys
      && forall u :: u in users ==> users[u].borrowedBooks == loans[u]
    }

    /** Each user's borrowed list agrees with `borrow_records`. */
    ghost predicate BorrowsOk()
      reads this`loans, this`borrowRecords
    {
      LedgerOk(loans, borrowRecords)
    }

    constructor (name: string)
      ensures Valid() && LoansOk() && BorrowsOk()
      ensures this.name == name && State() == map[] && ids == [] && users == map[] && borrowRecords == []
    {
      this.name := name;
      books := map[];
      ids := [];
      users := map[];
      loans := map[];
      borrowRecords := [];
    }

    /** `get_or_create_user`. */
    method GetOrCreateUser(userName: string) returns (u: User)
      requires Valid() && LoansOk()
      modifies this`users, this`loans
      ensures Valid() && LoansOk()
      ensures userName in users && u == users[userName] && u.name == userName
      ensures userName in old(users) ==> users == old(users)
      ensures userName !in old(users) ==> fresh(u) && users == old(users)[userName := u]
      ensures users.Keys == old(users.Keys) + {userName}
      ensures forall v :: v in old(users) ==> v in users && users[v] == old(users[v])
      ensures State() == old(State())
      ensures loans == old(loans)[userName := ListOf(old(loans), userName)]
      ensures old(BorrowsOk()) ==> BorrowsOk()
    {
      if userName !in users {
        u := AddUser(userName);
      }
      u := users[userName];
      SameStock();
    }

    /** The branch of `get_or_create_user` for a new name: a fresh `User` with no loans. */
    method AddUser(userName: string) returns (u: User)
      requires Valid() && LoansOk() && userName !in users
      modifies this`users, this`loans
      ensures Valid() && LoansOk()
      ensures fresh(u) && u.name == userName && users == old(users)[userName := u]
      ensures loans == old(loans)[userName := []]
      ensures old(BorrowsOk()) ==> BorrowsOk()
    {
      u := new User(userName);
      if BorrowsOk() {
        LedgerNewUser(loans, borrowRecords, userName);
      }
      users := users[userName := u];
      loans := loans[userName := []];
    }

    /** The branch of `add_book` for an id already in the catalogue. */
    method UpdateBook(bookId: string, title: string, author: string, totalCopies: int,
                      imageUrl: Option<string>, imageBytes: Option<Bytes>, imageMime: Option<string>)
      requires Valid() && bookId in books && totalCopies > 0
      modifies books[bookId]
      ensures Valid()
      ensures State() == old(State())[bookId := Overwritten(old(State())[bookId], title, author,
                                                            totalCopies, imageUrl, imageBytes, imageMime)]
    {
      var b := books[bookId];
      b.Update(title, author, totalCopies, imageUrl, imageBytes, imageMime);
      assert forall id :: id in books && id != bookId ==> books[id] != b;
    }

    /** The branch of `add_book` for a new id: a fresh `Book` goes at the end of the dictionary. */
    method InsertBook(bookId: string, title: string, author: string, totalCopies: int,
                      imageUrl: Option<string>, imageBytes: Option<Bytes>, imageMime: Option<string>)
      requires Valid() && bookId !in books && totalCopies > 0
      modifies this`books, this`ids
      ensures Valid()
      ensures ids == old(ids) + [bookId] && bookId in books && fresh(books[bookId])
      ensures forall id :: id in old(books) ==> id in books && books[id] == old(books[id])
      ensures State() == old(State())[bookId := NewBookState(title, author, totalCopies,
                                                             imageUrl, imageBytes, imageMime)]
    {
      var b := new Book(title, author, bookId, totalCopies, imageUrl, imageBytes, imageMime, 0);
      PutBook(b);
    }

    /** Puts a book not yet in the dictionary under its own id, at the end. */
    method PutBook(b: Book)
      requires Valid() && b.bookId !in books && b.totalCopies >= 0
      modifies this`books, this`ids
      ensures Valid()
      ensures books == old(books)[b.bookId := b] && ids == old(ids) + [b.bookId]
      ensures State() == old(State())[b.bookId := b.State()]
    {
      assert (ids + [b.bookId])[..|ids|] == ids;
      books := books[b.bookId := b];
      ids := ids + [b.bookId];
    }

    /**
     * `add_book`: rejects a non-positive total; on an existing id overwrites it as
     * `Overwritten` says; otherwise adds a new book at the end of the dictionary.
     */
    method AddBook(title: string, author: string, bookId: string, totalCopies: int,
                   imageUrl: Option<string>, imageBytes: Option<Bytes>, imageMime: Option<string>)
      returns (msg: string)
      requires Valid()
      modifies this`books, this`ids, books.Values
      ensures Valid()
      ensures forall id :: id in old(books) ==> id in books && books[id] == old(books[id])
      ensures totalCopies <= 0 ==>
                msg == "total_copies must be > 0." && books == old(books) && ids == old(ids)
                && State() == old(State())
      ensures totalCopies > 0 && bookId in old(books) ==>
                msg == "Book updated (total copies set)." && books == old(books) && ids == old(ids)
                && State() == old(State())[bookId := Overwritten(old(State())[bookId], title, author,
                                                                totalCopies, imageUrl, imageBytes, imageMime)]
      ensures totalCopies > 0 && bookId !in old(books) ==>
                msg == "Book added successfully." && ids == old(ids) + [bookId] && bookId in books && fresh(books[bookId])
                && State() == old(State())[bookId := NewBookState(title, author, totalCopies,
                                                                 imageUrl, imageBytes, imageMime)]
      ensures StockOk(old(State())) ==> StockOk(State())
    {
      if totalCopies <= 0 {
        return "total_copies must be > 0.";
      }
      if bookId in books {
        UpdateBook(bookId, title, author, totalCopies, imageUrl, imageBytes, imageMime);
        return "Book updated (total copies set).";
      }
      InsertBook(bookId, title, author, totalCopies, imageUrl, imageBytes, imageMime);
      return "Book added successfully.";
    }

    /** `set_price`. */
    method SetPrice(bookId: string, price: int) returns (msg: string)
      requires Valid()
      modifies books.Values
      ensures Valid()
      ensures bookId !in books ==> msg == "Book ID not found." && State() == old(State())
      ensures bookId in books ==>
                msg == "Price updated." && State() == old(State())[bookId := old(State())[bookId].(price := price)]
      ensures StockOk(old(State())) ==> StockOk(State())
    {
      if bookId !in books {
        return "Book ID not found.";
      }
      var b := books[bookId];
      b.price := price;
      assert forall id :: id in books && id != bookId ==> books[id] != b;
      assert State() == old(State())[bookId := b.State()];
      return "Price updated.";
    }

    /** `add_stock`: checks the quantity first, then the id. */
    method AddStock(bookId: string, qty: int) returns (msg: string)
      requires Valid()
      modifies books.Values
      ensures Valid()
      ensures qty <= 0 ==> msg == "qty must be > 0." && State() == old(State())
      ensures qty > 0 && bookId !in books ==> msg == "Book ID not found." && State() == old(State())
      ensures qty > 0 && bookId in books ==>
                msg == "Stock added." && State() == old(State())[bookId := StockAdded(old(State())[bookId], qty)]
      ensures StockOk(old(State())) ==> StockOk(State())
    {
      if qty <= 0 {
        return "qty must be > 0.";
      }
      if bookId !in books {
        return "Book ID not found.";
      }
      var b := books[bookId];
      b.totalCopies := b.totalCopies + qty;
      b.availableCopies := Min(b.totalCopies, b.availableCopies + qty);
      assert forall id :: id in books && id != bookId ==> books[id] != b;
      assert State() == old(State())[bookId := b.State()];
      return "Stock added.";
    }

    /** Writes one book's available copies; every other field and book stays as it was. */
    method SetAvailable(bookId: string, n: int)
      requires Valid() && bookId in books
      modifies books[bookId]
      ensures Valid() && (old(LoansOk()) ==> LoansOk())
      ensures State() == old(State())[bookId := old(State())[bookId].(availableCopies := n)]
    {
      var b := books[bookId];
      ghost var s0 := State();
      ghost var b0 := b.State();
      b.availableCopies := n;
      assert forall id :: id in books && id != bookId ==> books[id] != b;
      assert b.State() == b0.(availableCopies := n);
      assert State() == s0[bookId := b.State()];
    }

    /** `can_purchase`: walks the lines in order and reports the first one that cannot be sold. */
    method CanPurchase(items: seq<Line>) returns (ok: bool, msg: string)
      ensures (ok, msg) == CheckPurchase(State(), items)
      ensures ok <==> AllSellable(State(), items)
    {
      var i := 0;
      while i < |items|
        invariant 0 <= i <= |items|
        invariant CheckPurchase(State(), items) == CheckPurchase(State(), items[i..])
      {
        var l := items[i];
        assert items[i..][0] == l && items[i..][1..] == items[i + 1..];
        if l.bookId !in books {
          return false, "Book ID not found: " + l.bookId;
        }
        if l.qty <= 0 {
          return false, "Qty must be > 0.";
        }
        if books[l.bookId].availableCopies < l.qty {
          return false, "Not enough stock for " + books[l.bookId].title + ".";
        }
        i := i + 1;
      }
      return true, "OK";
    }

    /**
     * `purchase`: all or nothing. If `can_purchase` refuses, no book changes; otherwise
     * every line is taken off its book's available copies.
     */
    method Purchase(items: seq<Line>) returns (ok: bool, msg: string)
      requires Valid()
      modifies books.Values
      ensures Valid()
      ensures ok == CheckPurchase(old(State()), items).0
      ensures msg == if ok then "Purchased." else CheckPurchase(old(State()), items).1
      ensures State() == if ok then Purchased(old(State()), items) else old(State())
      ensures StockOk(old(State())) ==> StockOk(State())
    {
      ok, msg := CanPurchase(items);
      if !ok {
        return;
      }
      ghost var s0 := State();
      var i := 0;
      while i < |items|
        invariant 0 <= i <= |items|
        invariant Valid()
        invariant State() == Purchased(s0, items[..i])
      {
        var l := items[i];
        assert Sellable(s0, l);
        ghost var before := State();
        var left := books[l.bookId].availableCopies;
        SetAvailable(l.bookId, Max(0, left - l.qty));
        PurchaseLineAt(before, l, left, State());
        PurchasedStep(s0, items, i);
        i := i + 1;
      }
      assert items[..|items|] == items;
      if StockOk(s0) {
        PurchasePreservesStockOk(s0, items);
      }
      msg := "Purchased.";
    }

    /** `restock`: gives the lines back, skipping unknown ids and clamping at the total. */
    method Restock(items: seq<Line>) returns (msg: string)
      requires Valid()
      modifies books.Values
      ensures Valid()
      ensures msg == "Restocked."
      ensures State() == Restocked(old(State()), items)
      ensures StockOk(old(State())) && (forall k :: 0 <= k < |items| ==> items[k].qty >= 0) ==> StockOk(State())
    {
      ghost var s0 := State();
      var i := 0;
      while i < |items|
        invariant 0 <= i <= |items|
        invariant Valid()
        invariant State() == Restocked(s0, items[..i])
      {
        var l := items[i];
        ghost var before := State();
        if l.bookId in books {
          var left := books[l.bookId].availableCopies;
          SetAvailable(l.bookId, Min(books[l.bookId].totalCopies, left + l.qty));
          RestockLineAt(before, l, left, State());
        }
        RestockedStep(s0, items, i);
        i := i + 1;
      }
      assert items[..|items|] == items;
      if StockOk(s0) && forall k :: 0 <= k < |items| ==> items[k].qty >= 0 {
        RestockPreservesStockOk(s0, items);
      }
      msg := "Restocked.";
    }

    /** The index of the first borrow record for (`user`, `bookId`), as `return_book`'s loop finds it. */
    method FindBorrowRecord(user: string, bookId: string) returns (r: Option<nat>)
      ensures r.None? <==> forall k :: 0 <= k < |borrowRecords| ==> !Matches(borrowRecords[k], user, bookId)
      ensures r.Some? ==> r.value < |borrowRecords| && Matches(borrowRecords[r.value], user, bookId)
      ensures r.Some? ==> forall k :: 0 <= k < r.value ==> !Matches(borrowRecords[k], user, bookId)
    {
      var i := 0;
      while i < |borrowRecords|
        invariant 0 <= i <= |borrowRecords|
        invariant forall k :: 0 <= k < i ==> !Matches(borrowRecords[k], user, bookId)
      {
        if borrowRecords[i].user == user && borrowRecords[i].bookId == bookId {
          return Some(i);
        }
        i := i + 1;
      }
      return None;
    }

    /** The user-side and record-side effect of `borrow_book`. */
    method RecordLoan(userName: string, bookId: string, title: string)
      requires Valid() && LoansOk() && userName in users
      modifies this`borrowRecords, this`loans, users[userName]
      ensures Valid() && LoansOk() && State() == old(State())
      ensures borrowRecords == old(borrowRecords) + [BorrowRecord(userName, bookId, title)]
      ensures loans == old(loans)[userName := old(loans)[userName] + [bookId]]
    {
      var user := users[userName];
      user.Borrow(bookId);
      assert unchanged(books.Values);
      assert forall u :: u in users && u != userName ==> users[u] != user;
      loans := loans[userName := loans[userName] + [bookId]];
      borrowRecords := borrowRecords + [BorrowRecord(userName, bookId, title)];
      SameStock();
    }

    /** `user.return_book(book_id)` on the user stored under `userName`. */
    method TakeBack(userName: string, bookId: string) returns (found: bool)
      requires Valid() && LoansOk() && userName in users
      modifies this`loans, users[userName]
      ensures Valid() && LoansOk() && State() == old(State())
      ensures found <==> bookId in old(loans)[userName]
      ensures found ==> loans == old(loans)[userName := RemoveFirst(old(loans)[userName], bookId)]
      ensures !found ==> loans == old(loans)
    {
      var user := users[userName];
      found := user.ReturnBook(bookId);
      assert unchanged(books.Values);
      assert forall u :: u in users && u != userName ==> users[u] != user;
      if found {
        loans := loans[userName := user.borrowedBooks];
      }
      SameStock();
    }

    /** `return_book`'s loop over `borrow_records`: the first record for the pair is popped. */
    method PopBorrowRecord(userName: string, bookId: string)
      requires Valid() && LoansOk()
      modifies this`borrowRecords
      ensures Valid() && LoansOk() && State() == old(State())
      ensures borrowRecords == RemoveFirstRecord(old(borrowRecords), userName, bookId)
    {
      var idx := FindBorrowRecord(userName, bookId);
      if idx.Some? {
        RemoveFirstRecordAt(borrowRecords, userName, bookId, idx.value);
        borrowRecords := borrowRecords[..idx.value] + borrowRecords[idx.value + 1..];
      } else {
        RemoveFirstRecordNone(borrowRecords, userName, bookId);
      }
    }

    /**
     * `borrow_book`: fails on an unknown id or when no copy is available; otherwise takes
     * one copy, creates the user if needed, and records the loan on both sides.
     */
    method BorrowBook(userName: string, bookId: string) returns (msg: string)
      requires Valid() && LoansOk()
      modifies this`users, this`loans, this`borrowRecords, books.Values, users.Values
      ensures Valid() && LoansOk()
      ensures old(BorrowsOk()) ==> BorrowsOk()
      ensures bookId !in old(books) ==>
                msg == "Book ID not found." && State() == old(State()) && users == old(users)
                && loans == old(loans) && borrowRecords == old(borrowRecords)
      ensures bookId in old(books) && old(books[bookId].availableCopies) <= 0 ==>
                msg == "No copies available." && State() == old(State()) && users == old(users)
                && loans == old(loans) && borrowRecords == old(borrowRecords)
      ensures bookId in old(books) && old(books[bookId].availableCopies) > 0 ==>
                && msg == userName + " borrowed '" + old(books[bookId].title) + "' successfully."
                && State() == old(State())[bookId := BorrowedOne(old(State())[bookId])]
                && users.Keys == old(users.Keys) + {userName}
                && loans == old(loans)[userName := ListOf(old(loans), userName) + [bookId]]
                && borrowRecords == old(borrowRecords) + [BorrowRecord(userName, bookId, old(books[bookId].title))]
    {
      if bookId !in books {
        return "Book ID not found.";
      }
      if !books[bookId].IsAvailable() {
        return "No copies available.";
      }
      msg := Lend(userName, bookId);
    }

    /** The part of `borrow_book` after both checks have passed. */
    method Lend(userName: string, bookId: string) returns (msg: string)
      requires Valid() && LoansOk() && bookId in books && books[bookId].availableCopies > 0
      modifies this`users, this`loans, this`borrowRecords, books[bookId], users.Values
      ensures Valid() && LoansOk()
      ensures old(BorrowsOk()) ==> BorrowsOk()
      ensures msg == userName + " borrowed '" + old(books[bookId].title) + "' successfully."
      ensures State() == old(State())[bookId := BorrowedOne(old(State())[bookId])]
      ensures users.Keys == old(users.Keys) + {userName}
      ensures loans == old(loans)[userName := ListOf(old(loans), userName) + [bookId]]
      ensures borrowRecords == old(borrowRecords) + [BorrowRecord(userName, bookId, old(books[bookId].title))]
    {
      ghost var loans0 := loans;
      var user := GetOrCreateUser(userName);
      msg := LendTo(userName, bookId);
      UpdateTwice(loans0, userName, ListOf(loans0, userName), ListOf(loans0, userName) + [bookId]);
    }

    /** The part of `borrow_book` after both checks have passed and the user exists. */
    method LendTo(userName: string, bookId: string) returns (msg: string)
      requires Valid() && LoansOk() && bookId in books && books[bookId].availableCopies > 0
      requires userName in users
      modifies this`loans, this`borrowRecords, books[bookId], users[userName]
      ensures Valid() && LoansOk()
      ensures old(BorrowsOk()) ==> BorrowsOk()
      ensures msg == userName + " borrowed '" + old(books[bookId].title) + "' successfully."
      ensures State() == old(State())[bookId := BorrowedOne(old(State())[bookId])]
      ensures loans == old(loans)[userName := old(loans)[userName] + [bookId]]
      ensures borrowRecords == old(borrowRecords) + [BorrowRecord(userName, bookId, old(books[bookId].title))]
    {
      if BorrowsOk() {
        LedgerBorrowKnown(loans, borrowRecords, userName, bookId, books[bookId].title);
      }
      ghost var before := State();
      var book := books[bookId];
      var left := book.availableCopies;
      SetAvailable(bookId, left - 1);
      BorrowedOneAt(before, bookId, left, State());
      RecordLoan(userName, bookId, book.title);
      msg := userName + " borrowed '" + book.title + "' successfully.";
    }

    /**
     * `return_book`: fails on an unknown book, an unknown user, or a user who does not
     * hold the book; otherwise gives one copy back (clamped at the total), takes the
     * first occurrence off the user's list and pops the first matching borrow record.
     */
    method ReturnBook(userName: string, bookId: string) returns (msg: string)
      requires Valid() && LoansOk()
      modifies this`loans, this`borrowRecords, books.Values, users.Values
      ensures Valid() && LoansOk()
      ensures old(BorrowsOk()) ==> BorrowsOk()
      ensures books == old(books) && users == old(users)
      ensures bookId !in old(books) ==>
                msg == "Book ID not found in library." && State() == old(State())
                && loans == old(loans) && borrowRecords == old(borrowRecords)
      ensures bookId in old(books) && userName !in old(users) ==>
                msg == "User not found." && State() == old(State())
                && loans == old(loans) && borrowRecords == old(borrowRecords)
      ensures bookId in old(books) && userName in old(users) && bookId !in old(loans)[userName] ==>
                msg == "This user did not borrow this book." && State() == old(State())
                && loans == old(loans) && borrowRecords == old(borrowRecords)
      ensures bookId in old(books) && userName in old(users) && bookId in old(loans)[userName] ==>
                && msg == userName + " returned '" + old(books[bookId].title) + "' successfully."
                && State() == old(State())[bookId := ReturnedOne(old(State())[bookId])]
                && loans == old(loans)[userName := RemoveFirst(old(loans)[userName], bookId)]
                && borrowRecords == RemoveFirstRecord(old(borrowRecords), userName, bookId)
    {
      if bookId !in books {
        return "Book ID not found in library.";
      }
      if userName !in users {
        return "User not found.";
      }
      msg := ReturnHeld(userName, bookId);
    }

    /** The part of `return_book` once the book and the user are known. */
    method ReturnHeld(userName: string, bookId: string) returns (msg: string)
      requires Valid() && LoansOk() && bookId in books && userName in users
      modifies this`loans, this`borrowRecords, books[bookId], users[userName]
      ensures Valid() && LoansOk()
      ensures old(BorrowsOk()) ==> BorrowsOk()
      ensures bookId !in old(loans)[userName] ==>
                msg == "This user did not borrow this book." && State() == old(State())
                && loans == old(loans) && borrowRecords == old(borrowRecords)
      ensures bookId in old(loans)[userName] ==>
                && msg == userName + " returned '" + old(books[bookId].title) + "' successfully."
                && State() == old(State())[bookId := ReturnedOne(old(State())[bookId])]
                && loans == old(loans)[userName := RemoveFirst(old(loans)[userName], bookId)]
                && borrowRecords == RemoveFirstRecord(old(borrowRecords), userName, bookId)
    {
      ghost var before := State();
      if BorrowsOk() && bookId in loans[userName] {
        LedgerReturn(loans, borrowRecords, userName, bookId);
      }
      var returned := TakeBack(userName, bookId);
      if !returned {
        return "This user did not borrow this book.";
      }
      var book := books[bookId];
      var left := book.availableCopies;
      SetAvailable(bookId, Min(book.totalCopies, left + 1));
      ReturnedOneAt(before, bookId, left, book.totalCopies, State());
      PopBorrowRecord(userName, bookId);
      msg := userName + " returned '" + book.title + "' successfully.";
    }

    /** `to_dict`: one record per book in dictionary order, which loads back to this catalogue. */
    function ToDict(): (r: seq<(string, StoredBook)>)
      reads this`books, this`ids, this`users, books.Values
      requires Valid()
      ensures |r| == |ids| && forall k :: 0 <= k < |ids| ==> r[k] == (ids[k], Record(State()[ids[k]]))
      ensures Load(r) == Loaded(true, WithoutUploads(State()), ids)
    {
      ValidCatalogue();
      RoundTrip(State(), ids);
      Serialize(State(), ids)
    }

    /** One step of `load_from_dict`: `Book(...)` for the record, then its saved available copies. */
    method LoadRecord(bid: string, d: StoredBook) returns (ok: bool)
      requires Valid() && bid !in books
      modifies this`books, this`ids
      ensures Valid()
      ensures ok <==> d.totalCopies >= 0
      ensures !ok ==> books == old(books) && ids == old(ids) && State() == old(State())
      ensures ok ==> ids == old(ids) + [bid] && State() == old(State())[bid := FromRecord(d)]
    {
      var created := Book.Create(d.title, d.author, bid, d.totalCopies, d.imageUrl, None, None, d.price.GetOr(0));
      if created.None? {
        Untouched();
        return false;
      }
      var b := created.value;
      b.availableCopies := d.availableCopies.GetOr(d.totalCopies);
      PutBook(b);
      return true;
    }

    /**
     * `load_from_dict`: empties the catalogue and builds a fresh `Book` per record, in
     * order; a record with a negative total stops the load (the `ValueError` of `Book`).
     */
    method LoadFromDict(data: seq<(string, StoredBook)>) returns (ok: bool)
      requires Valid()
      requires DistinctKeys(data)
      modifies this`books, this`ids
      ensures Valid()
      ensures Loaded(ok, State(), ids) == Load(data)
    {
      books := map[];
      ids := [];
      var i := 0;
      while i < |data|
        invariant 0 <= i <= |data|
        invariant Valid()
        invariant Loaded(true, State(), ids) == Load(data[..i])
      {
        LoadFresh(data, i, State(), ids);
        var loaded := LoadNext(data, i);
        if !loaded {
          return false;
        }
        i := i + 1;
      }
      assert data[..|data|] == data;
      return true;
    }

    /**
     * One turn of the loading loop: after a completed load of `data[..i]`, record `i`
     * either extends it or ends the whole load with `ok == false`.
     */
    method LoadNext(data: seq<(string, StoredBook)>, i: nat) returns (ok: bool)
      requires Valid() && i < |data| && data[i].0 !in books
      requires Loaded(true, State(), ids) == Load(data[..i])
      modifies this`books, this`ids
      ensures Valid()
      ensures ok ==> Loaded(true, State(), ids) == Load(data[..i + 1])
      ensures !ok ==> Loaded(false, State(), ids) == Load(data)
    {
      var (bid, d) := data[i];
      if d.totalCopies >= 0 {
        LoadStep(data, i, State(), ids);
      }
      ok := LoadRecord(bid, d);
      if !ok {
        LoadStops(data, i);
      }
    }

    /** The test both searches apply to one book. */
    predicate Hit(b: Book, query: string, byAuthor: bool)
      reads b
    {
      Text.Contains(Text.Lower(if byAuthor then b.author else b.title), query)
    }

    /**
     * The books `search_by_title` / `search_by_author` collect while walking `ks`: the hits,
     * each once, in the order of `ks`.
     */
    function Matching(ks: seq<string>, query: string, byAuthor: bool): (r: seq<Book>)
      reads this`books, books.Values
      requires forall k :: 0 <= k < |ks| ==> ks[k] in books && books[ks[k]].bookId == ks[k]
      requires forall i, j :: 0 <= i < j < |ks| ==> ks[i] != ks[j]
      ensures forall i :: 0 <= i < |r| ==>
                r[i].bookId in ks && r[i].bookId in books && r[i] == books[r[i].bookId] && Hit(r[i], query, byAuthor)
      ensures forall i, j :: 0 <= i < j < |r| ==> FirstIndex(ks, r[i].bookId) < FirstIndex(ks, r[j].bookId)
      ensures forall k :: 0 <= k < |ks| && Hit(books[ks[k]], query, byAuthor) ==> books[ks[k]] in r
    {
      if ks == [] then []
      else
        var b := books[ks[0]];
        assert forall k :: 1 <= k < |ks| ==> ks[1..][k - 1] == ks[k];
        var rest := Matching(ks[1..], query, byAuthor);
        ShiftedPositions(ks, rest);
        if Hit(b, query, byAuthor) then HeadFirst(ks, b, rest); [b] + rest else rest
    }

    /** `search_by_title`: the books whose lower-cased title contains the stripped, lower-cased query. */
    function SearchByTitle(title: string): (r: seq<Book>)
      reads this`books, this`ids, this`users, books.Values
      requires Valid()
      ensures forall i :: 0 <= i < |r| ==>
                r[i] in books.Values && r[i].bookId in ids && r[i].bookId in books && r[i] == books[r[i].bookId]
                && Text.Contains(Text.Lower(r[i].title), Text.Lower(Text.Strip(title)))
      ensures forall id :: id in books && Text.Contains(Text.Lower(books[id].title), Text.Lower(Text.Strip(title)))
                ==> books[id] in r
      ensures forall i, j :: 0 <= i < j < |r| ==> FirstIndex(ids, r[i].bookId) < FirstIndex(ids, r[j].bookId)
    {
      NoDuplicatesPairwise(ids);
      Matching(ids, Text.Lower(Text.Strip(title)), false)
    }

    /** `search_by_author`: the same test on the author. */
    function SearchByAuthor(author: string): (r: seq<Book>)
      reads this`books, this`ids, this`users, books.Values
      requires Valid()
      ensures forall i :: 0 <= i < |r| ==>
                r[i] in books.Values && r[i].bookId in ids && r[i].bookId in books && r[i] == books[r[i].bookId]
                && Text.Contains(Text.Lower(r[i].author), Text.Lower(Text.Strip(author)))
      ensures forall id :: id in books && Text.Contains(Text.Lower(books[id].author), Text.Lower(Text.Strip(author)))
                ==> books[id] in r
      ensures forall i, j :: 0 <= i < j < |r| ==> FirstIndex(ids, r[i].bookId) < FirstIndex(ids, r[j].bookId)
    {
      NoDuplicatesPairwise(ids);
      Matching(ids, Text.Lower(Text.Strip(author)), true)
    }
  }

  /**
   * In a list of distinct keys, a key found in the tail is not the head, and its first
   * position in the whole list is one past its position in the tail.
   */
  lemma TailKey(ks: seq<string>, x: string)
    requires ks != [] && forall i, j :: 0 <= i < j < |ks| ==> ks[i] != ks[j]
    requires x in ks[1..]
    ensures x != ks[0] && x in ks && FirstIndex(ks, x) == FirstIndex(ks[1..], x) + 1
  {
    var m :| 0 <= m < |ks[1..]| && ks[1..][m] == x;
    assert ks[m + 1] == x;
  }

  /** A run of tail hits in key order stays in key order against the whole key list. */
  lemma ShiftedPositions(ks: seq<string>, rest: seq<Book>)
    requires ks != [] && forall i, j :: 0 <= i < j < |ks| ==> ks[i] != ks[j]
    requires forall i :: 0 <= i < |rest| ==> rest[i].bookId in ks[1..]
    requires forall i, j :: 0 <= i < j < |rest| ==>
               FirstIndex(ks[1..], rest[i].bookId) < FirstIndex(ks[1..], rest[j].bookId)
    ensures forall i :: 0 <= i < |rest| ==> rest[i].bookId != ks[0] && rest[i].bookId in ks
    ensures forall i, j :: 0 <= i < j < |rest| ==> FirstIndex(ks, rest[i].bookId) < FirstIndex(ks, rest[j].bookId)
  {
    forall i | 0 <= i < |rest|
      ensures rest[i].bookId != ks[0] && rest[i].bookId in ks
      ensures FirstIndex(ks, rest[i].bookId) == FirstIndex(ks[1..], rest[i].bookId) + 1
    {
      TailKey(ks, rest[i].bookId);
    }
  }

  /** Putting the head key's book in front of such a run keeps it in key order. */
  lemma HeadFirst(ks: seq<string>, b: Book, rest: seq<Book>)
    requires ks != [] && b.bookId == ks[0]
    requires forall i :: 0 <= i < |rest| ==> rest[i].bookId != ks[0] && rest[i].bookId in ks
    requires forall i, j :: 0 <= i < j < |rest| ==> FirstIndex(ks, rest[i].bookId) < FirstIndex(ks, rest[j].bookId)
    ensures forall i :: 0 <= i < |[b] + rest| ==> ([b] + rest)[i].bookId in ks
    ensures forall i, j :: 0 <= i < j < |[b] + rest| ==>
              FirstIndex(ks, ([b] + rest)[i].bookId) < FirstIndex(ks, ([b] + rest)[j].bookId)
  {
    var r := [b] + rest;
    forall i | 0 <= i < |r|
      ensures r[i].bookId in ks
    {
      if i > 0 {
        assert r[i] == rest[i - 1];
      }
    }
    forall i, j | 0 <= i < j < |r|
      ensures FirstIndex(ks, r[i].bookId) < FirstIndex(ks, r[j].bookId)
    {
      assert r[j] == rest[j - 1];
      if i > 0 {
        assert r[i] == rest[i - 1];
      }
    }
  }
}
