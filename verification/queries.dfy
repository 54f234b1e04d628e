/** The list queries over the book and debt tables. */
module Queries {
  import opened Wrappers
  import opened Entities
  import Seqs

  /** The books whose `readerId` equals the parsed id; none when the id did not parse. */
  function BooksOf(books: seq<MyBook>, readerId: Option<int>): seq<MyBook> {
    Seqs.Filter(books, (b: MyBook) => Some(b.readerId) == readerId)
  }

  /** The debts whose `readerId` field equals a book's id. */
  function DebtsOfBook(debts: seq<MyDebt>, bookId: int): seq<MyDebt> {
    Seqs.Filter(debts, (d: MyDebt) => d.readerId == bookId)
  }

  /** The debts of each book in turn, concatenated in book order. */
  function JoinDebts(readerBooks: seq<MyBook>, debts: seq<MyDebt>): seq<MyDebt> {
    if |readerBooks| == 0 then []
    else JoinDebts(readerBooks[..|readerBooks| - 1], debts) + DebtsOfBook(debts, readerBooks[|readerBooks| - 1].id)
  }

  /** The two-level join behind `/reader/{id}/myBook/myDebts`. */
  function ReaderDebts(books: seq<MyBook>, debts: seq<MyDebt>, readerId: Option<int>): seq<MyDebt> {
    JoinDebts(BooksOf(books, readerId), debts)
  }

  /** Exactly the books of that reader, and none at all for an unparsed id. */
  lemma BooksOfMembers(books: seq<MyBook>, readerId: Option<int>)
    ensures forall b :: b in BooksOf(books, readerId) <==> b in books && Some(b.readerId) == readerId
    ensures readerId.None? ==> BooksOf(books, readerId) == []
  {
    var r := BooksOf(books, readerId);
    forall b | b in books && Some(b.readerId) == readerId
      ensures b in r
    {
      var i :| 0 <= i < |books| && books[i] == b;
    }
    if readerId.None? {
      Seqs.FilterEmpty(books, (b: MyBook) => Some(b.readerId) == readerId);
    }
  }

  /** The list keeps store order: querying a split table gives the two answers in sequence. */
  lemma BooksOfAppend(a: seq<MyBook>, b: seq<MyBook>, readerId: Option<int>)
    ensures BooksOf(a + b, readerId) == BooksOf(a, readerId) + BooksOf(b, readerId)
  {
    Seqs.FilterAppend(a, b, (x: MyBook) => Some(x.readerId) == readerId);
  }

  /** The debt's `readerId` field equals the id of one of the listed books. */
  predicate MatchesBook(readerBooks: seq<MyBook>, d: MyDebt) {
    exists i :: 0 <= i < |readerBooks| && d.readerId == readerBooks[i].id
  }

  /** Matching a list ending in `b` is matching the rest or matching `b`. */
  lemma MatchesBookSnoc(readerBooks: seq<MyBook>, d: MyDebt)
    requires |readerBooks| > 0
    ensures var n := |readerBooks| - 1;
      MatchesBook(readerBooks, d) <==> MatchesBook(readerBooks[..n], d) || d.readerId == readerBooks[n].id
  {
  }

  /** A debt is listed for a book exactly when it is stored and names that book's id as its `readerId`. */
  lemma DebtsOfBookMembers(debts: seq<MyDebt>, bookId: int)
    ensures forall d :: d in DebtsOfBook(debts, bookId) <==> d in debts && d.readerId == bookId
  {
  }

  /** A debt is in the join exactly when it is stored and matches one of the listed books. */
  lemma {:induction false} JoinDebtsMembers(readerBooks: seq<MyBook>, debts: seq<MyDebt>)
    ensures forall d :: d in JoinDebts(readerBooks, debts) <==> d in debts && MatchesBook(readerBooks, d)
    decreases |readerBooks|
  {
    if |readerBooks| > 0 {
      var n := |readerBooks| - 1;
      JoinDebtsMembers(readerBooks[..n], debts);
      DebtsOfBookMembers(debts, readerBooks[n].id);
      forall d
        ensures MatchesBook(readerBooks, d) <==> MatchesBook(readerBooks[..n], d) || d.readerId == readerBooks[n].id
      {
        MatchesBookSnoc(readerBooks, d);
      }
    }
  }

  /**
   * A debt is listed for a reader exactly when it is stored and its
   * `readerId` field equals the id of some book that reader holds.
   */
  lemma ReaderDebtsMembers(books: seq<MyBook>, debts: seq<MyDebt>, readerId: Option<int>)
    ensures forall d :: d in ReaderDebts(books, debts, readerId) <==>
      d in debts && exists b :: b in books && Some(b.readerId) == readerId && d.readerId == b.id
  {
    var rb := BooksOf(books, readerId);
    BooksOfMembers(books, readerId);
    JoinDebtsMembers(rb, debts);
    forall d | d in debts && (exists b :: b in books && Some(b.readerId) == readerId && d.readerId == b.id)
      ensures MatchesBook(rb, d)
    {
      var b :| b in books && Some(b.readerId) == readerId && d.readerId == b.id;
      assert b in rb;
      var i :| 0 <= i < |rb| && rb[i] == b;
    }
    forall d | d in ReaderDebts(books, debts, readerId)
      ensures exists b :: b in books && Some(b.readerId) == readerId && d.readerId == b.id
    {
      assert MatchesBook(rb, d);
      var i :| 0 <= i < |rb| && d.readerId == rb[i].id;
      assert rb[i] in rb;
    }
  }

  /**
   * The handler's own loops: for each book of the reader, in order, append
   * the debts matching that book, in order.
   */
  method CollectReaderDebts(books: seq<MyBook>, allDebts: seq<MyDebt>, readerId: Option<int>)
    returns (debts: seq<MyDebt>)
    ensures debts == ReaderDebts(books, allDebts, readerId)
    ensures forall d :: d in debts <==>
      d in allDebts && exists b :: b in books && Some(b.readerId) == readerId && d.readerId == b.id
  {
    var readerBooks := BooksOf(books, readerId);
    debts := [];
    var i := 0;
    while i < |readerBooks|
      invariant 0 <= i <= |readerBooks|
      invariant debts == JoinDebts(readerBooks[..i], allDebts)
    {
      var book := readerBooks[i];
      var myDebts := DebtsOfBook(allDebts, book.id);
      var j := 0;
      while j < |myDebts|
        invariant 0 <= j <= |myDebts|
        invariant debts == JoinDebts(readerBooks[..i], allDebts) + myDebts[..j]
      {
        debts := debts + [myDebts[j]];
        j := j + 1;
      }
      assert readerBooks[..i + 1][..i] == readerBooks[..i];
      assert myDebts[..j] == myDebts;
      i := i + 1;
    }
    assert readerBooks[..i] == readerBooks;
    ReaderDebtsMembers(books, allDebts, readerId);
  }
}
