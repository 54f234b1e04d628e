/** Properties that relate several requests or hold across every route. */
module Properties {
  import opened Wrappers
  import opened Entities
  import opened Http
  import opened Routes
  import Repo
  import Params

  /** The store's primary keys are distinct in every table. */
  predicate Valid(s: Store) {
    && Repo.KeysDistinct(s.readers, ReaderKey)
    && Repo.KeysDistinct(s.books, BookKey)
    && Repo.KeysDistinct(s.debts, DebtKey)
  }

  /** Every request keeps the primary keys of every table distinct. */
  lemma HandleKeepsValid(s: Store, req: Request, be: Backend)
    requires Valid(s)
    ensures Valid(Handle(s, req, be).store)
  {
  }

  /** The requests that carry a body: every POST and PUT. */
  predicate BodyUndecodable(req: Request) {
    match req
    case PostReaderReq(body) => body.None?
    case PutReaderReq(_, body) => body.None?
    case PostBookReq(body) => body.None?
    case PutBookReq(_, body) => body.None?
    case PostDebtReq(body) => body.None?
    case _ => false
  }

  /** A body that does not decode gives 400 and changes nothing, whatever the id. */
  lemma BadBodyIsBadRequest(s: Store, req: Request, be: Backend)
    requires BodyUndecodable(req)
    ensures Handle(s, req, be) == Outcome(Bad, s)
  {
  }

  /** The GET routes. */
  predicate IsRead(req: Request) {
    req.GetBooksReq? || req.GetReaderBooksReq? || req.GetBookReq?
      || req.GetReaderDebtsReq? || req.GetAllMyDebtReq?
  }

  /** A GET never changes the store. */
  lemma ReadsChangeNothing(s: Store, req: Request, be: Backend)
    requires IsRead(req)
    ensures Handle(s, req, be).store == s
  {
  }

  /**
   * Each route writes at most its own table, and the debt table changes only
   * when a debt is added and 200 is sent.
   */
  lemma WritesStayInTheirTable(s: Store, req: Request, be: Backend)
    ensures var t := Handle(s, req, be).store;
      && (t.readers != s.readers ==> req.PostReaderReq? || req.PutReaderReq? || req.DeleteReaderReq?)
      && (t.books != s.books ==> req.PostBookReq? || req.PutBookReq? || req.DeleteBookReq?)
      && (t.debts != s.debts ==> req.PostDebtReq? && Handle(s, req, be).response == OkEmpty)
  {
  }

  /**
   * Only the debt route can let an exception escape, and only when the
   * "taken" check passes and no book has the debt's `readerId` as its id.
   */
  lemma OnlyDebtCreationThrows(s: Store, req: Request, be: Backend)
    ensures Handle(s, req, be).response == Thrown <==>
      req.PostDebtReq? && req.debtBody.Some?
      && TakenCheck(s.books, req.debtBody.value)
      && !Repo.HasKey(s.books, BookKey, req.debtBody.value.readerId)
  {
  }

  /** Every route but PUT `/reader/{id}` keeps reader names pairwise distinct. */
  lemma NamesStayDistinct(s: Store, req: Request, be: Backend)
    requires Valid(s) && NamesDistinct(s.readers)
    requires !req.PutReaderReq?
    ensures NamesDistinct(Handle(s, req, be).store.readers)
  {
  }

  /** PUT `/reader/{id}` does not check names, so it can give two readers the same name. */
  lemma PutReaderMayDuplicateName()
    ensures var s := Store([Reader(1, "Alice"), Reader(2, "Bob")], [], []);
      var out := Handle(s, PutReaderReq(Some("2"), Some(Reader(0, "Alice"))), Backend(true, 0));
      NamesDistinct(s.readers) && out.response == OkEmpty && !NamesDistinct(out.store.readers)
  {
    var s := Store([Reader(1, "Alice"), Reader(2, "Bob")], [], []);
    assert Params.ToIntOrNull("2") == Some(2) by {
      assert Params.SplitSign("2").0 == "2";
      assert Params.DigitsValue("2") == 2;
    }
    assert Repo.HasKey(s.readers, ReaderKey, 2) by {
      assert ReaderKey(s.readers[1]) == 2;
    }
    var out := Handle(s, PutReaderReq(Some("2"), Some(Reader(0, "Alice"))), Backend(true, 0));
    assert out.store.readers[0].name == out.store.readers[1].name;
  }

  /** Once a name is registered, posting it again gives 409 and leaves the store as it is. */
  lemma RepeatedPostConflicts(s: Store, r: Reader, be: Backend, r': Reader, be': Backend)
    requires PostReader(s, Some(r), be).response.Reply?
    requires PostReader(s, Some(r), be).response.status == OK
    requires r'.name == r.name
    ensures var t := PostReader(s, Some(r), be).store;
      PostReader(t, Some(r'), be') == Outcome(Reply(Conflict, Text(NameTaken)), t)
  {
  }

  /**
   * The two empty answers differ: with no books at all, the whole-table query
   * is 404 while a reader's list is an empty 200.
   */
  lemma EmptyAnswersDiffer(s: Store, idParam: Option<string>)
    requires s.books == []
    ensures GetBooks(s).response == Missing
    ensures GetReaderBooks(s, idParam).response == Reply(OK, BookList([]))
  {
  }

  /** After a successful PUT of a book, GET on the same id returns the new record under that id. */
  lemma PutThenGetBook(s: Store, idParam: Option<string>, elem: MyBook, be: Backend)
    requires Valid(s)
    requires PutBook(s, idParam, Some(elem), be).response == OkEmpty
    ensures var id := Params.ParseId(idParam).value;
      GetBook(PutBook(s, idParam, Some(elem), be).store, idParam).response
        == Reply(OK, BookRecord(elem.(id := id)))
  {
  }

  /** After a successful DELETE of a book, GET on the same id is 404. */
  lemma DeleteThenGetBook(s: Store, idParam: Option<string>, be: Backend)
    requires DeleteBook(s, idParam, be).response == OkEmpty
    ensures GetBook(DeleteBook(s, idParam, be).store, idParam).response == Missing
  {
  }

  /**
   * A book added under a 32-bit id can be fetched through the decimal path
   * segment of that id, and comes back as stored.
   */
  lemma PostThenGetBook(s: Store, elem: MyBook, be: Backend)
    requires Valid(s)
    requires Params.IntMin <= be.nextId <= Params.IntMax
    requires PostBook(s, Some(elem), be).response == OkEmpty
    ensures GetBook(PostBook(s, Some(elem), be).store, Some(Params.Show(be.nextId))).response
      == Reply(OK, BookRecord(elem.(id := be.nextId)))
  {
    Params.ShowParseRoundTrip(be.nextId);
    var t := PostBook(s, Some(elem), be).store;
    Repo.GetUnique(t.books, BookKey, |s.books|);
  }

  /**
   * The "taken" check as written lets a debt through for a reader who holds
   * no book at all: reader 5 holds nothing and book 7 does not exist, yet the
   * debt is added because book 5 (of reader 1) is overdue.
   */
  lemma DebtForUnheldBookAccepted()
    ensures var s := Store([], [MyBook(5, 1, -1)], []);
      var elem := MyDebt(0, 5, 7);
      PostDebt(s, Some(elem), Backend(true, 1)) == Outcome(OkEmpty, s.(debts := [elem.(id := 1)]))
  {
    var s := Store([], [MyBook(5, 1, -1)], []);
    assert TakenCheck(s.books, MyDebt(0, 5, 7)) by {
      assert s.books[0].readerId != 5 && s.books[0].id != 7;
    }
    assert Repo.HasKey(s.books, BookKey, 5) by {
      assert BookKey(s.books[0]) == 5;
    }
  }

  /**
   * Conversely, the check rejects a reader who holds exactly the book named
   * in the debt, overdue, when nobody else holds a book.
   */
  lemma SoleHolderRejected(books: seq<MyBook>, elem: MyDebt, s: Store, be: Backend)
    requires s.books == books
    requires forall i :: 0 <= i < |books| ==> books[i].readerId == elem.readerId
    ensures PostDebt(s, Some(elem), be) == Outcome(Reply(BadRequest, Text(BookNotTaken)), s)
  {
  }

  /**
   * The deadline checked is that of the book whose id equals the debt's
   * `readerId`, not the book the debt names.
   */
  lemma DeadlineReadFromReaderIdBook(s: Store, elem: MyDebt, be: Backend)
    requires Valid(s)
    requires TakenCheck(s.books, elem)
    requires exists i :: 0 <= i < |s.books| && s.books[i].id == elem.readerId && s.books[i].deadlineCount >= 0
    ensures PostDebt(s, Some(elem), be) == Outcome(Reply(BadRequest, Text(DeadlineNotPassed)), s)
  {
  }

  /**
   * The debts listed for a reader are those whose `readerId` field holds the
   * id of one of the reader's books; a debt filed under the reader's own id
   * is not listed.
   */
  lemma ReaderDebtsMatchBookIds()
    ensures var s := Store([], [MyBook(10, 1, -1)], [MyDebt(100, 1, 10), MyDebt(101, 10, 10)]);
      GetReaderDebts(s, Some(Params.Show(1))).response == Reply(OK, DebtList([MyDebt(101, 10, 10)]))
  {
    var s := Store([], [MyBook(10, 1, -1)], [MyDebt(100, 1, 10), MyDebt(101, 10, 10)]);
    Params.ShowParseRoundTrip(1);
    assert Queries.BooksOf(s.books, Some(1)) == s.books;
    assert Queries.DebtsOfBook(s.debts, 10) == [MyDebt(101, 10, 10)];
    assert Queries.JoinDebts(s.books, s.debts) == [MyDebt(101, 10, 10)] by {
      assert s.books[..0] == [];
    }
  }
}
