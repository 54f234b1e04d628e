/**
 * The route handlers of `Application.restReader`, each a pure function from
 * the store, the parsed request and the repository's verdict to the
 * response and the store afterwards.
 */
module Routes {
  import opened Wrappers
  import opened Entities
  import opened Http
  import Repo
  import Params
  import Queries

  /**
   * What the store decides on a write: whether it accepts it at all, and the
   * id it assigns to a row that `add` inserts.
   */
  datatype Backend = Backend(accepts: bool, nextId: int)

  /** The response and the store after one request. */
  datatype Outcome = Outcome(response: Response, store: Store)

  /** Kotlin's `find { it.name == name }`: the first reader with that name. */
  function FindByName(readers: seq<Reader>, name: string): (r: Option<Reader>)
    ensures r.Some? ==> r.value.name == name && r.value in readers
    ensures r.Some? ==>
      (exists i :: 0 <= i < |readers| && readers[i] == r.value && (forall j :: 0 <= j < i ==> readers[j].name != name))
    ensures r.None? <==> !NameUsed(readers, name)
  {
    if |readers| == 0 then None
    else if readers[0].name == name then Some(readers[0])
    else FindByName(readers[1..], name)
  }

  /** The status for a repository write's boolean. */
  function WriteStatus(ok: bool): Response {
    if ok then OkEmpty else Missing
  }

  /** POST `/reader`. */
  function PostReader(s: Store, body: Option<Reader>, be: Backend): (out: Outcome)
    ensures body.None? ==> out == Outcome(Bad, s)
    ensures body.Some? && NameUsed(s.readers, body.value.name) ==>
      out == Outcome(Reply(Conflict, Text(NameTaken)), s)
    ensures body.Some? && !NameUsed(s.readers, body.value.name) ==>
      var stored := body.value.(id := be.nextId);
      if be.accepts && !Repo.HasKey(s.readers, ReaderKey, be.nextId) then
        out == Outcome(Reply(OK, ReaderRecord(stored)), s.(readers := s.readers + [stored]))
      else
        out == Outcome(Missing, s)
    ensures out.store.books == s.books && out.store.debts == s.debts
    ensures NamesDistinct(s.readers) ==> NamesDistinct(out.store.readers)
  {
    match body
    case None => Outcome(Bad, s)
    case Some(reader) =>
      if !NameUsed(s.readers, reader.name) then
        var w := Repo.Add(s.readers, ReaderKey, reader.(id := be.nextId), be.accepts);
        if w.ok then
          NewNameFoundLast(s.readers, reader.(id := be.nextId));
          match FindByName(w.table, reader.name)
          case Some(user) => Outcome(Reply(OK, ReaderRecord(user)), s.(readers := w.table))
          case None => Outcome(Thrown, s.(readers := w.table))
        else
          Outcome(Missing, s)
      else
        Outcome(Reply(Conflict, Text(NameTaken)), s)
  }

  /** A reader with a name nobody had is the one `find` returns after appending it. */
  lemma NewNameFoundLast(readers: seq<Reader>, r: Reader)
    requires !NameUsed(readers, r.name)
    ensures FindByName(readers + [r], r.name) == Some(r)
    ensures NamesDistinct(readers) ==> NamesDistinct(readers + [r])
  {
    if |readers| > 0 {
      assert (readers + [r])[1..] == readers[1..] + [r];
      NewNameFoundLast(readers[1..], r);
    }
  }

  /** PUT `/reader/{id}`: the body is decoded first, then the id. */
  function PutReader(s: Store, idParam: Option<string>, body: Option<Reader>, be: Backend): (out: Outcome)
    ensures body.None? || Params.ParseId(idParam).None? ==> out == Outcome(Bad, s)
    ensures body.Some? && Params.ParseId(idParam).Some? ==>
      var id := Params.ParseId(idParam).value;
      out.response == (if be.accepts && Repo.HasKey(s.readers, ReaderKey, id) then OkEmpty else Missing)
    ensures out.response == OkEmpty ==> Repo.HasKey(s.readers, ReaderKey, Params.ParseId(idParam).value)
    ensures out.response != OkEmpty ==> out.store == s
    ensures out.store.books == s.books && out.store.debts == s.debts
    ensures |out.store.readers| == |s.readers|
    ensures out.response == OkEmpty ==> forall i :: 0 <= i < |s.readers| ==>
      out.store.readers[i] == (if s.readers[i].id == Params.ParseId(idParam).value
                               then body.value.(id := s.readers[i].id) else s.readers[i])
    ensures Repo.KeysDistinct(s.readers, ReaderKey) ==> Repo.KeysDistinct(out.store.readers, ReaderKey)
  {
    match body
    case None => Outcome(Bad, s)
    case Some(elem) =>
      match Params.ParseId(idParam)
      case None => Outcome(Bad, s)
      case Some(id) =>
        var w := Repo.Update(s.readers, ReaderKey, id, elem.(id := id), be.accepts);
        Outcome(WriteStatus(w.ok), s.(readers := w.table))
  }

  /** DELETE `/reader/{id}`. */
  function DeleteReader(s: Store, idParam: Option<string>, be: Backend): (out: Outcome)
    ensures Params.ParseId(idParam).None? ==> out == Outcome(Bad, s)
    ensures Params.ParseId(idParam).Some? ==>
      var id := Params.ParseId(idParam).value;
      out.response == (if be.accepts && Repo.HasKey(s.readers, ReaderKey, id) then OkEmpty else Missing)
        && (out.response == OkEmpty ==> !Repo.HasKey(out.store.readers, ReaderKey, id))
    ensures out.response != OkEmpty ==> out.store == s
    ensures out.store.books == s.books && out.store.debts == s.debts
    ensures forall r :: r in out.store.readers ==> r in s.readers
    ensures out.response == OkEmpty ==> forall r :: r in s.readers && r.id != Params.ParseId(idParam).value ==>
      r in out.store.readers
    ensures Repo.KeysDistinct(s.readers, ReaderKey) ==> Repo.KeysDistinct(out.store.readers, ReaderKey)
  {
    match Params.ParseId(idParam)
    case None => Outcome(Bad, s)
    case Some(id) =>
      var w := Repo.Delete(s.readers, ReaderKey, id, be.accepts);
      Outcome(WriteStatus(w.ok), s.(readers := w.table))
  }

  /** POST `/reader/myBook`. */
  function PostBook(s: Store, body: Option<MyBook>, be: Backend): (out: Outcome)
    ensures body.None? ==> out == Outcome(Bad, s)
    ensures body.Some? ==>
      var stored := body.value.(id := be.nextId);
      if be.accepts && !Repo.HasKey(s.books, BookKey, be.nextId) then
        out == Outcome(OkEmpty, s.(books := s.books + [stored]))
      else
        out == Outcome(Missing, s)
    ensures out.store.readers == s.readers && out.store.debts == s.debts
    ensures Repo.KeysDistinct(s.books, BookKey) ==> Repo.KeysDistinct(out.store.books, BookKey)
  {
    match body
    case None => Outcome(Bad, s)
    case Some(elem) =>
      var w := Repo.Add(s.books, BookKey, elem.(id := be.nextId), be.accepts);
      Outcome(WriteStatus(w.ok), s.(books := w.table))
  }

  /** GET `/reader/myBook`: the whole table, or 404 when it is empty. */
  function GetBooks(s: Store): (out: Outcome)
    ensures out.store == s
    ensures out.response.Reply? && (out.response.status == OK <==> |s.books| > 0)
    ensures out.response.status == OK ==> out.response.payload == BookList(s.books)
    ensures out.response.status != OK ==> out.response == Missing
  {
    if |s.books| > 0 then Outcome(Reply(OK, BookList(s.books)), s)
    else Outcome(Missing, s)
  }

  /** GET `/reader/{id}/myBook`: always a list, possibly empty. */
  function GetReaderBooks(s: Store, idParam: Option<string>): (out: Outcome)
    ensures out.store == s
    ensures out.response.Reply? && out.response.status == OK && out.response.payload.BookList?
    ensures forall b :: b in out.response.payload.books <==>
      b in s.books && Some(b.readerId) == Params.ParseId(idParam)
    ensures out.response.payload.books == Queries.BooksOf(s.books, Params.ParseId(idParam))
    ensures Params.ParseId(idParam).None? ==> out.response.payload.books == []
  {
    var books := Queries.BooksOf(s.books, Params.ParseId(idParam));
    Queries.BooksOfMembers(s.books, Params.ParseId(idParam));
    if |books| > 0 then Outcome(Reply(OK, BookList(books)), s)
    else Outcome(Reply(OK, BookList([])), s)
  }

  /** GET `/reader/myBook/{id}`. */
  function GetBook(s: Store, idParam: Option<string>): (out: Outcome)
    ensures out.store == s
    ensures Params.ParseId(idParam).None? ==> out.response == Bad
    ensures Params.ParseId(idParam).Some? ==>
      var id := Params.ParseId(idParam).value;
      (out.response == Missing <==> !Repo.HasKey(s.books, BookKey, id))
        && (out.response != Missing ==>
              out.response.Reply? && out.response.status == OK && out.response.payload.BookRecord?
              && out.response.payload.book.id == id && out.response.payload.book in s.books)
  {
    match Params.ParseId(idParam)
    case None => Outcome(Bad, s)
    case Some(id) =>
      match Repo.Get(s.books, BookKey, id)
      case Some(elem) => Outcome(Reply(OK, BookRecord(elem)), s)
      case None => Outcome(Missing, s)
  }

  /** PUT `/reader/myBook/{id}`: the body is decoded first, then the id. */
  function PutBook(s: Store, idParam: Option<string>, body: Option<MyBook>, be: Backend): (out: Outcome)
    ensures body.None? || Params.ParseId(idParam).None? ==> out == Outcome(Bad, s)
    ensures body.Some? && Params.ParseId(idParam).Some? ==>
      var id := Params.ParseId(idParam).value;
      out.response == (if be.accepts && Repo.HasKey(s.books, BookKey, id) then OkEmpty else Missing)
    ensures out.response == OkEmpty ==> Repo.HasKey(s.books, BookKey, Params.ParseId(idParam).value)
    ensures out.response != OkEmpty ==> out.store == s
    ensures out.store.readers == s.readers && out.store.debts == s.debts
    ensures |out.store.books| == |s.books|
    ensures out.response == OkEmpty ==> forall i :: 0 <= i < |s.books| ==>
      out.store.books[i] == (if s.books[i].id == Params.ParseId(idParam).value
                             then body.value.(id := s.books[i].id) else s.books[i])
    ensures Repo.KeysDistinct(s.books, BookKey) ==> Repo.KeysDistinct(out.store.books, BookKey)
  {
    match body
    case None => Outcome(Bad, s)
    case Some(elem) =>
      match Params.ParseId(idParam)
      case None => Outcome(Bad, s)
      case Some(id) =>
        var w := Repo.Update(s.books, BookKey, id, elem.(id := id), be.accepts);
        Outcome(WriteStatus(w.ok), s.(books := w.table))
  }

  /** DELETE `/reader/myBook/{id}`. */
  function DeleteBook(s: Store, idParam: Option<string>, be: Backend): (out: Outcome)
    ensures Params.ParseId(idParam).None? ==> out == Outcome(Bad, s)
    ensures Params.ParseId(idParam).Some? ==>
      var id := Params.ParseId(idParam).value;
      out.response == (if be.accepts && Repo.HasKey(s.books, BookKey, id) then OkEmpty else Missing)
        && (out.response == OkEmpty ==> !Repo.HasKey(out.store.books, BookKey, id))
    ensures out.response != OkEmpty ==> out.store == s
    ensures out.store.readers == s.readers && out.store.debts == s.debts
    ensures forall b :: b in out.store.books ==> b in s.books
    ensures out.response == OkEmpty ==> forall b :: b in s.books && b.id != Params.ParseId(idParam).value ==>
      b in out.store.books
    ensures Repo.KeysDistinct(s.books, BookKey) ==> Repo.KeysDistinct(out.store.books, BookKey)
  {
    match Params.ParseId(idParam)
    case None => Outcome(Bad, s)
    case Some(id) =>
      var w := Repo.Delete(s.books, BookKey, id, be.accepts);
      Outcome(WriteStatus(w.ok), s.(books := w.table))
  }

  /**
   * The "reader took this book" check exactly as the handler writes it: some
   * stored book has a `readerId` different from the debt's `readerId` AND an
   * `id` different from the debt's `myBookId`.
   */
  predicate TakenCheck(books: seq<MyBook>, elem: MyDebt) {
    exists i :: 0 <= i < |books| && books[i].readerId != elem.readerId && books[i].id != elem.myBookId
  }

  /** POST `/reader/myBook/myDebt`: two checks in order, then `add`. */
  function PostDebt(s: Store, body: Option<MyDebt>, be: Backend): (out: Outcome)
    ensures body.None? ==> out == Outcome(Bad, s)
    ensures body.Some? && !TakenCheck(s.books, body.value) ==>
      out == Outcome(Reply(BadRequest, Text(BookNotTaken)), s)
    ensures body.Some? && TakenCheck(s.books, body.value) ==>
      var lookedUp := Repo.Get(s.books, BookKey, body.value.readerId);
      && (lookedUp.None? ==> out == Outcome(Thrown, s))
      && (lookedUp.Some? && lookedUp.value.deadlineCount >= 0 ==>
            out == Outcome(Reply(BadRequest, Text(DeadlineNotPassed)), s))
      && (lookedUp.Some? && lookedUp.value.deadlineCount < 0 ==>
            var stored := body.value.(id := be.nextId);
            if be.accepts && !Repo.HasKey(s.debts, DebtKey, be.nextId) then
              out == Outcome(OkEmpty, s.(debts := s.debts + [stored]))
            else
              out == Outcome(NoReply, s))
    ensures out.store.readers == s.readers && out.store.books == s.books
    ensures out.store.debts != s.debts ==> out.response == OkEmpty
    ensures Repo.KeysDistinct(s.debts, DebtKey) ==> Repo.KeysDistinct(out.store.debts, DebtKey)
  {
    match body
    case None => Outcome(Bad, s)
    case Some(elem) =>
      if TakenCheck(s.books, elem) then
        match Repo.Get(s.books, BookKey, elem.readerId)
        case None => Outcome(Thrown, s)
        case Some(book) =>
          if book.deadlineCount < 0 then
            var w := Repo.Add(s.debts, DebtKey, elem.(id := be.nextId), be.accepts);
            Outcome(if w.ok then OkEmpty else NoReply, s.(debts := w.table))
          else
            Outcome(Reply(BadRequest, Text(DeadlineNotPassed)), s)
      else
        Outcome(Reply(BadRequest, Text(BookNotTaken)), s)
  }

  /** GET `/reader/{id}/myBook/myDebts`: always a list. */
  function GetReaderDebts(s: Store, idParam: Option<string>): (out: Outcome)
    ensures out.store == s
    ensures out.response.Reply? && out.response.status == OK && out.response.payload.DebtList?
    ensures forall d :: d in out.response.payload.debts <==>
      d in s.debts && exists b :: b in s.books && Some(b.readerId) == Params.ParseId(idParam) && d.readerId == b.id
    ensures out.response.payload.debts == Queries.ReaderDebts(s.books, s.debts, Params.ParseId(idParam))
  {
    Queries.ReaderDebtsMembers(s.books, s.debts, Params.ParseId(idParam));
    Outcome(Reply(OK, DebtList(Queries.ReaderDebts(s.books, s.debts, Params.ParseId(idParam)))), s)
  }

  /** GET `/reader/myBook/allMyDebt`: gated on the debt table, answers with the book table. */
  function GetAllMyDebt(s: Store): (out: Outcome)
    ensures out.store == s
    ensures out.response.Reply? && (out.response.status == OK <==> |s.debts| > 0)
    ensures out.response.status == OK ==> out.response.payload == BookList(s.books)
    ensures out.response.status != OK ==> out.response == Missing
  {
    if |s.debts| > 0 then Outcome(Reply(OK, BookList(s.books)), s)
    else Outcome(Missing, s)
  }

  /** One request per route and method, carrying the raw `id` path segment and the decoded body. */
  datatype Request =
    | PostReaderReq(readerBody: Option<Reader>)
    | PutReaderReq(readerIdParam: Option<string>, readerUpdate: Option<Reader>)
    | DeleteReaderReq(deletedReader: Option<string>)
    | PostBookReq(bookBody: Option<MyBook>)
    | GetBooksReq
    | GetReaderBooksReq(ownerParam: Option<string>)
    | GetBookReq(bookParam: Option<string>)
    | PutBookReq(bookIdParam: Option<string>, bookUpdate: Option<MyBook>)
    | DeleteBookReq(deletedBook: Option<string>)
    | PostDebtReq(debtBody: Option<MyDebt>)
    | GetReaderDebtsReq(debtorParam: Option<string>)
    | GetAllMyDebtReq

  /** Dispatch a request to its handler. */
  function Handle(s: Store, req: Request, be: Backend): Outcome {
    match req
    case PostReaderReq(body) => PostReader(s, body, be)
    case PutReaderReq(p, body) => PutReader(s, p, body, be)
    case DeleteReaderReq(p) => DeleteReader(s, p, be)
    case PostBookReq(body) => PostBook(s, body, be)
    case GetBooksReq => GetBooks(s)
    case GetReaderBooksReq(p) => GetReaderBooks(s, p)
    case GetBookReq(p) => GetBook(s, p)
    case PutBookReq(p, body) => PutBook(s, p, body, be)
    case DeleteBookReq(p) => DeleteBook(s, p, be)
    case PostDebtReq(body) => PostDebt(s, body, be)
    case GetReaderDebtsReq(p) => GetReaderDebts(s, p)
    case GetAllMyDebtReq => GetAllMyDebt(s)
  }
}
