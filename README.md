# Bookshelf back end: a Dafny model of the book store

The service keeps one ordered table of book records in memory and answers five
requests on it: add a book, list books (optionally filtered by `reading`,
`finished` or a name fragment), get a book by id, edit a book, and delete a
book. This project models that table and those five handlers, and proves what
each one does to the table and what it returns.

- `text.dfy` (module `Text`): ASCII lower-casing and substring search, the two
  string operations behind the case-insensitive name filter, with the search
  proved equal to the declarative "occurs at some position".
- `books.dfy` (module `Books`): the book record, the request payload, the
  validation shared by add and edit, the records add and edit build, and the
  two scans every handler is made of: `findIndex` (`FindIndex`) and `filter`
  (`Select`). `Select` is proved to meet a declarative description (`Keeps`:
  a subsequence holding every matching occurrence and nothing else) and that
  description is proved to determine the result uniquely.
- `handler.dfy` (module `Handler`): listing and lookup as functions of the
  table, and the class `BookStore`, whose `books` field is the table and whose
  methods `Add`, `Edit` and `Delete` change it in place. Lemmas tie the
  operations together (add then get, edit then get, delete then get).

Behaviour kept exactly as the code has it:

- Edit does not touch `finished`: the old record is spread first and
  `finished` is not among the replaced fields, so it can go stale
  (`EditLeavesFinishedStale`).
- A non-empty `name` query that matches nothing returns every book, not an
  empty list, because the handler falls through to its "return all" branch.
  The code has no separate "no match" outcome for the name filter, and
  neither does the model.
- A `reading` or `finished` value other than `'1'` or `'0'` is ignored and
  the next rule is tried.
- Add re-filters the table by the new id after pushing and would answer 500 if
  nothing carried it; `BookStore.Add` proves that branch never fires.
- Ids are not checked for reuse. Lookups, edits and deletes act on the first
  record with the id; uniqueness appears only as an optional hypothesis.
- The list handler's final 500 branch needs `request.query` to be undefined,
  but the first rule already reads `request.query.reading`, so that branch
  cannot be reached with a response; it is not an outcome of `List`.

Environment inputs are parameters: the generated id and the current time
(an opaque timestamp string) are arguments of `Add` and `Edit`, and the
initial table is the argument of the `BookStore` constructor.

## Model

| member | source | states |
|---|---|---|
| Text.LowerChar | src/handler.js:157 | one character of `toLowerCase`: an ASCII upper-case letter becomes its lower-case letter, every other character is kept, and no upper-case letter comes out |
| Text.Contains | src/handler.js:157 | `includes`: a match needs the query to be no longer than the name (the full meaning is proved in `Text.ContainsIffOccurs`) |
| Text.Lower | src/handler.js:157 | lower-casing keeps the length, maps each character through the ASCII rule, and leaves no upper-case letter |
| Text.ContainsIffOccurs | src/handler.js:157 | `includes` holds exactly when the query occurs at some position of the name |
| Books.Validate | src/handler.js:24-40 | a payload is accepted iff the name is non-empty and readPage <= pageCount; an empty name is reported first, the page check only for a non-empty name |
| Books.NewBook | src/handler.js:16-55 | the added record carries the payload's eight fields and the given id, has insertedAt == updatedAt == the given time, and finished == (readPage == pageCount) |
| Books.Edited | src/handler.js:257-268 | the edited record carries the payload's eight fields and the new updatedAt, and keeps id, insertedAt and finished of the old record |
| Books.EditLeavesFinishedStale | src/handler.js:257-268 | a finished book edited to readPage < pageCount stays finished, so finished no longer matches the pages |
| Books.Project | src/handler.js:178-182 | the `.map` to `{id, name, publisher}`: the same length as its input, each element the summary of the record at the same position |
| Books.Matches | src/handler.js:85 | the filter predicates: reading, finished and id compare one field; the name test holds exactly when the lower-cased query occurs somewhere in the lower-cased name (lines 103, 121, 139, 157, 201 hold the other four) |
| Books.Select | src/handler.js:84-85 | `Array.prototype.filter` (also lines 59, 103, 121, 139, 157, 201): never longer than its input and every kept record matches; that it keeps every match, in order and with multiplicity, is `Books.SelectKeeps` |
| Books.FindIndex | src/handler.js:254 | the result is -1 iff no record has the id, and otherwise the position of a record with the id before which none has it |
| Books.SelectKeeps | src/handler.js:84-85 | the filter is a subsequence in stored order containing each matching record as often as the table does and no other record |
| Books.KeepsIsSelect | src/handler.js:84-85 | any sequence meeting that description is the filter's result, so the description is complete |
| Books.SelectAppend | src/handler.js:59 | filtering a concatenation filters each part and concatenates the results; `BookStore.Add` uses it to show the post-push filter by the new id is the old filter plus the new record |
| Books.FilterHeadIsFirstMatch | src/handler.js:201 | `filter(id)[0]` exists iff `findIndex(id)` is not -1, and then it is the record at that index |
| Books.FindIndexAppend | src/handler.js:289 | the first match in s + t is the first match in s if any, else the length of s plus the first match in t, else -1 |
| Handler.Listed | src/handler.js:83-187 | the listed records are a subsequence of the table; reading=1, reading=0, finished=1, finished=0 and a matching name each select exactly the matching records, in that precedence, a flag value other than 1 or 0 falling through; an empty or unmatched name, or no rule, lists every record |
| Handler.List | src/handler.js:84-90 | the 200 body of the list handler (also lines 162-166 and 178-182): one `{id, name, publisher}` summary per record `Handler.Listed` reports, in the same order, never more than the table holds |
| Handler.ListIsProjectedSubsequence | src/handler.js:174-187 | every list body is the {id, name, publisher} projection of a subsequence of the table |
| Handler.NameRuleNeverEmpties | src/handler.js:155-187 | when neither flag rule applies, the list is empty only for an empty table |
| Handler.AddedFinishedBookIsListed | src/handler.js:119-135 | a book added with readPage == pageCount appears under finished=1 |
| Handler.GetById | src/handler.js:198-217 | the lookup is absent iff no record has the id, and otherwise is the record at the first index with the id |
| Handler.AddThenGet | src/handler.js:57 | after a push, looking up the new id gives the new record unless an older record already had that id |
| Handler.EditThenGet | src/handler.js:254-268 | after an edit, looking up the id gives the edited record and every other id gives what it gave before |
| Handler.DeleteThenGet | src/handler.js:289-292 | after a delete, looking up the id finds the next record that carries it, if there is one |
| Handler.DeleteThenGetUnique | src/handler.js:289-292 | when ids are unique, a deleted id is no longer found |
| Handler.BookStore.constructor | src/handler.js:2 | the table starts as the given initial records |
| Handler.BookStore.Add | src/handler.js:4-79 | a rejected payload answers 400 with the reason and leaves the table; otherwise exactly the new record is appended and the answer is 201 with the id, never 500; well-formed records and, for a fresh id, unique ids are preserved |
| Handler.BookStore.Edit | src/handler.js:220-284 | validation precedes the lookup; a rejection or an unknown id leaves the table; otherwise only the first record with the id is replaced by the edited record; the length never changes |
| Handler.BookStore.Delete | src/handler.js:286-307 | an unknown id answers 404 and leaves the table; otherwise exactly the first record with the id is removed, the rest keep their order and the length drops by one |

## Left out

- HTTP plumbing: hapi request objects, response envelopes, status codes as numbers and the message texts; each outcome is a constructor of `Outcome` (or `Option` for lookups).
- Id generation: `nanoid(16)` is a foreign random generator; the id is a parameter of `Add`, and its uniqueness is not assumed.
- Wall-clock time: `new Date().toISOString()` is a parameter `now` of `Add` and `Edit`; timestamps are opaque strings.
- Unicode case folding: `toLowerCase` is modelled on ASCII letters only; other characters are kept as they are.
- JavaScript loose typing: `pageCount` and `readPage` are integers, `reading` a boolean and `name` a string, with an absent name the same as an empty one; payloads with missing or mistyped fields (where `undefined > n` is false) are not modelled. Query values that are arrays (a repeated key) are not modelled.
- Non-negative page counts: the handlers never check that `pageCount` and `readPage` are non-negative, so the model does not require or promise it.
- The `books` module holding the initial table is not part of this model; the initial table is the constructor's argument.
- Server start-up and the route table.
