/** The three records of the lending service and the store that holds them. */
module Entities {

  /** A registered reader; `name` is meant to be unique. */
  datatype Reader = Reader(id: int, name: string)

  /** One reader holding one book; a negative `deadlineCount` means the deadline has passed. */
  datatype MyBook = MyBook(id: int, readerId: int, deadlineCount: int)

  /** A debt for an unreturned book. */
  datatype MyDebt = MyDebt(id: int, readerId: int, myBookId: int)

  /** The primary key of each table. */
  function ReaderKey(r: Reader): int { r.id }
  function BookKey(b: MyBook): int { b.id }
  function DebtKey(d: MyDebt): int { d.id }

  /** The backing store: one table per entity, each in the order the store lists it. */
  datatype Store = Store(readers: seq<Reader>, books: seq<MyBook>, debts: seq<MyDebt>)

  /** Reader names are pairwise distinct. */
  predicate NamesDistinct(readers: seq<Reader>) {
    forall i, j :: 0 <= i < j < |readers| ==> readers[i].name != readers[j].name
  }

  /** Some stored reader already carries `name`. */
  predicate NameUsed(readers: seq<Reader>, name: string) {
    exists i :: 0 <= i < |readers| && readers[i].name == name
  }
}
