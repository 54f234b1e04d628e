/** What a route handler sends back, with the HTTP layer abstracted away. */
module Http {
  import opened Entities

  /** The status codes the handlers use. */
  datatype Status = OK | BadRequest | NotFound | Conflict

  /** The body of a response. */
  datatype Payload =
    | NoPayload
    | Text(text: string)
    | ReaderRecord(reader: Reader)
    | BookRecord(book: MyBook)
    | BookList(books: seq<MyBook>)
    | DebtList(debts: seq<MyDebt>)

  /**
   * A handler either responds, returns without responding (the framework's
   * default reply is not part of this model), or lets an exception escape.
   */
  datatype Response =
    | Reply(status: Status, payload: Payload)
    | NoReply
    | Thrown

  /** The bare status replies the handlers send. */
  const OkEmpty: Response := Reply(OK, NoPayload)
  const Bad: Response := Reply(BadRequest, NoPayload)
  const Missing: Response := Reply(NotFound, NoPayload)

  /** The messages sent with 409 and with the two rejected debt checks. */
  const NameTaken: string := "Читатель с таким именем уже существует"
  const DeadlineNotPassed: string := "Срок сдачи книги не истек"
  const BookNotTaken: string := "Читатель не брал данную книгу"
}
