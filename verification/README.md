# Library-lending backend: request handling, modelled in Dafny

This project models the request handlers of the lending service's REST
layer (`Application.restReader`). The service keeps three tables:

- readers (`Reader`: id, name);
- books a reader currently holds (`MyBook`: id, readerId, deadlineCount);
- debts for unreturned books (`MyDebt`: id, readerId, myBookId).

Each route handler is a pure function. It takes the store, the parsed
request and the repository's verdict on writes, and returns the response
and the store afterwards.

Modules:

- `Wrappers` – `Option`, standing in for Kotlin's nullable types.
- `Seqs` – order-preserving `Filter`, the model of `List.filter`.
- `Entities` – the three records, their primary keys and the `Store`.
- `Repo` – the generic repository `Repo<T>`: `get`, `add`, `update` and
  `delete` over one table, each write returning a boolean and the new table.
- `Params` – `parseId`, i.e. `String.toIntOrNull()` in base 10, with its
  round trip against `Int.toString()`.
- `Http` – status codes, payloads and the three ways a handler can end:
  it replies, it returns without replying, or an exception escapes it.
- `Queries` – the per-reader book list and the two-level debt join.
  `CollectReaderDebts` mirrors the handler's nested loops and is proved
  equal to the functional join.
- `Routes` – one function per route and method, plus the `Handle` dispatcher.
- `Properties` – facts that span several requests or hold on every route.

The source's predicates are kept exactly as written, including the odd ones:

- The "reader took this book" check at line 120 passes when SOME stored book
  has a `readerId` different from the debt's `readerId` and an `id` different
  from the debt's `myBookId`.
- The deadline check at line 122 reads the book whose id equals the debt's
  `readerId`.
- The debt join at line 142 matches a debt's `readerId` against a book's id.
- `allMyDebt` at lines 153-155 answers with the book table.

Lemmas in `Properties` spell out what these predicates do. For example,
`DebtForUnheldBookAccepted` shows a debt accepted for a reader who holds no
book, naming a book that does not exist.

## Model

| member | source | states |
|---|---|---|
| Repo.Get | src/rest/restReader.kt:91 | `get(id)` finds a row exactly when some row has key `id`, and the row it returns carries that key and is stored |
| Repo.GetUnique | src/rest/restReader.kt:91 | with distinct keys, `get` on a row's key returns that very row |
| Repo.Add | src/rest/restReader.kt:26 | `add` succeeds exactly when the store accepts the write and the assigned id is not already a key; on success the record becomes the last row and earlier rows stay put; keys stay distinct |
| Repo.Update | src/rest/restReader.kt:42 | `update` succeeds exactly when accepted and the id is present; only the row with that key changes, to the new value; row count and keys are kept |
| Repo.Delete | src/rest/restReader.kt:51 | `delete` succeeds exactly when accepted and the id is present; on success the table is the old one with that key's rows filtered out, in order, so no row has the key and every other row survives; on failure the table is unchanged |
| Repo.DeleteRemovesOne | src/rest/restReader.kt:108 | with distinct keys, a successful delete removes exactly one row |
| Params.ToIntOrNull | src/rest/restReader.kt:167-168 | a parsed id lies in the 32-bit range and is an optional sign followed by decimal digits; empty text, a bare sign or a leading non-digit, non-sign character give null |
| Params.ParseId | src/rest/restReader.kt:167-168 | a missing path parameter gives null; a parsed id fits in an `Int` |
| Params.ShowParseRoundTrip | src/rest/restReader.kt:167-168 | the decimal rendering of `n` parses back to `n` exactly when `n` fits in 32 bits, and to null otherwise |
| Seqs.FilterAppend | src/rest/restReader.kt:79 | filtering distributes over concatenation, so filtered lists keep store order |
| Seqs.FilterEmpty | src/rest/restReader.kt:80-84 | a filter is empty exactly when no element satisfies the predicate |
| Queries.BooksOfMembers | src/rest/restReader.kt:79 | a reader's list holds exactly the stored books whose `readerId` equals the parsed id, and nothing when the id did not parse |
| Queries.BooksOfAppend | src/rest/restReader.kt:79 | the reader's list is in store order |
| Queries.DebtsOfBookMembers | src/rest/restReader.kt:142 | a debt is listed for a book exactly when it is stored and its `readerId` field equals that book's id |
| Queries.JoinDebtsMembers | src/rest/restReader.kt:141-146 | a debt is in the join exactly when it is stored and its `readerId` equals the id of one of the listed books |
| Queries.ReaderDebtsMembers | src/rest/restReader.kt:138-146 | a debt is listed for a reader exactly when it is stored and its `readerId` is the id of a book that reader holds |
| Queries.CollectReaderDebts | src/rest/restReader.kt:138-147 | the nested loops produce the join, book by book and debt by debt in store order, with exactly the members above |
| Routes.FindByName | src/rest/restReader.kt:27 | `find` yields the FIRST stored reader with that name, and nothing exactly when the name is unused |
| Routes.NewNameFoundLast | src/rest/restReader.kt:25-28 | after appending a reader with an unused name, `find` returns that reader, and names stay pairwise distinct |
| Routes.PostReader | src/rest/restReader.kt:23-36 | undecodable body: 400, nothing changes. Name in use: 409 with its message, nothing changes. Otherwise: the stored record (submitted name, assigned id) if `add` succeeds, else 404. Only the reader table changes, and names stay distinct |
| Routes.PutReader | src/rest/restReader.kt:39-48 | 400 for an undecodable body or unparseable id; otherwise 200 exactly when `update` succeeds (accepted, id present), after which the row with that id holds the body under that id and every other reader is as before; else 404 with nothing changed |
| Routes.DeleteReader | src/rest/restReader.kt:49-56 | 400 for an unparseable id; otherwise 200 exactly when `delete` succeeds, after which the id is gone and every other reader survives; else 404 with nothing changed |
| Routes.PostBook | src/rest/restReader.kt:59-66 | 400 for an undecodable body; otherwise 200 and the book appended under the assigned id when `add` succeeds, else 404 with nothing changed |
| Routes.GetBooks | src/rest/restReader.kt:67-74 | 200 with the whole book table exactly when it is non-empty, else 404; the store is unchanged |
| Routes.GetReaderBooks | src/rest/restReader.kt:78-85 | always 200 with the list of that reader's books in store order (the `BooksOf` filter, whose order law is `BooksOfAppend`), empty (not 404) when there are none or the id does not parse |
| Routes.GetBook | src/rest/restReader.kt:89-95 | 400 for an unparseable id, 404 exactly when no book has it, otherwise 200 with the stored book carrying that id |
| Routes.PutBook | src/rest/restReader.kt:96-105 | 400 for an undecodable body or unparseable id; otherwise 200 exactly when `update` succeeds, after which the row with that id holds the body under that id and every other book is as before; else 404 with nothing changed |
| Routes.DeleteBook | src/rest/restReader.kt:106-113 | 400 for an unparseable id; otherwise 200 exactly when `delete` succeeds, after which the id is gone and every other book survives; else 404 with nothing changed |
| Routes.PostDebt | src/rest/restReader.kt:117-133 | checks in order: undecodable body gives 400; failed "taken" check gives 400 with its message; no book under the debt's `readerId` throws; a non-negative deadline gives 400 with its message; else `add`, replying 200 on success and not at all on failure. The debt table changes only with a 200 |
| Routes.GetReaderDebts | src/rest/restReader.kt:137-148 | always 200 with the two-level join in book order then debt order (the list `CollectReaderDebts` builds), holding exactly the stored debts whose `readerId` is the id of one of that reader's books |
| Routes.GetAllMyDebt | src/rest/restReader.kt:152-159 | 200 with the BOOK table exactly when the debt table is non-empty, else 404; the store is unchanged |
| Properties.HandleKeepsValid | src/rest/restReader.kt:21-163 | no request makes two rows of a table share a primary key |
| Properties.BadBodyIsBadRequest | src/rest/restReader.kt:173-183 | on every POST and PUT, a body that fails to decode gives 400 and leaves the store unchanged, whatever the id |
| Properties.ReadsChangeNothing | src/rest/restReader.kt:67-159 | no GET changes the store |
| Properties.WritesStayInTheirTable | src/rest/restReader.kt:21-163 | each route writes at most its own table; the debt table changes only through a debt POST that replies 200 |
| Properties.OnlyDebtCreationThrows | src/rest/restReader.kt:122 | an exception escapes exactly on a decoded debt POST that passes the "taken" check when no book has the debt's `readerId` as its id |
| Properties.NamesStayDistinct | src/rest/restReader.kt:25-28 | every route except PUT `/reader/{id}` keeps reader names pairwise distinct |
| Properties.PutReaderMayDuplicateName | src/rest/restReader.kt:39-48 | PUT `/reader/{id}` does not check names and can give two readers the same name |
| Properties.RepeatedPostConflicts | src/rest/restReader.kt:25-34 | after a successful POST of a name, a second POST with that name gives 409 and changes nothing |
| Properties.EmptyAnswersDiffer | src/rest/restReader.kt:67-85 | with no books stored, the whole-table query is 404 while any reader's list is an empty 200 |
| Properties.PutThenGetBook | src/rest/restReader.kt:89-105 | after a successful PUT of a book, GET on the same id returns the new record under that id |
| Properties.DeleteThenGetBook | src/rest/restReader.kt:89-113 | after a successful DELETE of a book, GET on the same id is 404 |
| Properties.PostThenGetBook | src/rest/restReader.kt:59-95 | a book added under a 32-bit id is fetched back, as stored, through the decimal path segment of that id |
| Properties.DebtForUnheldBookAccepted | src/rest/restReader.kt:119-124 | the "taken" check as written accepts a debt for a reader who holds no book, naming a book that does not exist |
| Properties.SoleHolderRejected | src/rest/restReader.kt:119-131 | when every book belongs to the debt's reader, even its own overdue book, the "taken" check rejects the debt |
| Properties.DeadlineReadFromReaderIdBook | src/rest/restReader.kt:122-127 | the deadline examined is that of the book whose id equals the debt's `readerId`; a non-negative one gives 400 with its message |
| Properties.ReaderDebtsMatchBookIds | src/rest/restReader.kt:142 | a debt filed under the reader's own id is not listed; one filed under the id of the reader's book is |

## Left out

- Process bootstrap (`src/Application.kt`) is not part of this model: plugin installation, CORS, default headers, database initialisation, schema creation and the `/api` version text hold no request logic.
- Ktor's route matching, such as whether `/reader/myBook` is taken as `/reader/{id}`, is not modelled. The `Handle` dispatcher takes the route as already chosen.
- What the framework sends when a handler replies nothing (`NoReply`) or an exception escapes (`Thrown`) is not modelled.
- JSON decoding is not modelled. `parseBody` is the `Option` the handler receives, so a body that fails to decode is `None`.
- The SQL store behind `RepoDSL` is not shown. Whether it accepts a write is the parameter `Backend.accepts`, and the id it assigns to an added row is `Backend.nextId`. On a successful `update`, the row is assumed to keep the id given in the path.
- The store is assumed to reject an `add` whose assigned id is already a primary key. Distinct keys after every request (Properties.HandleKeepsValid) rest on that store constraint; the handlers do not check ids themselves.
- Repo.Add: the model appends the new row at the end of the table. The store's own listing order is not shown.
- Params.ToIntOrNull: it accepts only ASCII digits. The JVM's digit test also accepts other Unicode decimal digits.
- The record fields are 32-bit `Int`s in the source; the model uses unbounded integers. No handler does arithmetic on them, so no wrap-around is lost.
- Races between a check and the write that follows it (the name check before `add`, the debt checks before `add`) are concurrency concerns; the model runs one request at a time.
- The unused `myBookId` parameter helper (src/rest/restReader.kt:170-171) and the unused token-verification imports do nothing a request can observe.
