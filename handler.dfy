/** The five request handlers of the bookshelf service over its one ordered
    table of books. Listing and lookup only read the table and are functions of
    it; adding, editing and deleting change it in place and are methods of the
    store object that owns it. */
module Handler {
  import opened Text
  import opened Books

  /** The query string of a list request. An absent key and an empty value
      behave alike under every rule (`=== '1'`, `=== '0'`, a truthy name), so
      both are the empty string here. */
  datatype Query = Query(reading: string, finished: string, name: string)

  /** A value the reading and finished rules react to. Any other value lets the
      request fall through to the next rule. */
  predicate IsFlag(v: string) {
    v == "1" || v == "0"
  }

  /** Some stored name contains the query, ignoring ASCII case. */
  ghost predicate AnyNameMatch(books: seq<Book>, query: string) {
    exists b :: b in books && Matches(b, NameContains(query))
  }

  /** The records the list handler reports, before projection. The first rule
      that applies wins: reading=1, reading=0, finished=1, finished=0, then a
      non-empty name; a name that matches nothing, or no rule at all, reports
      every record. */
  function Listed(books: seq<Book>, q: Query): (r: seq<Book>)
    ensures IsSubseq(r, books)
    ensures q.reading == "1" ==> Keeps(r, books, ReadingIs(true))
    ensures q.reading == "0" ==> Keeps(r, books, ReadingIs(false))
    ensures !IsFlag(q.reading) && q.finished == "1" ==> Keeps(r, books, FinishedIs(true))
    ensures !IsFlag(q.reading) && q.finished == "0" ==> Keeps(r, books, FinishedIs(false))
    ensures !IsFlag(q.reading) && !IsFlag(q.finished) && q.name != "" && AnyNameMatch(books, q.name) ==>
              Keeps(r, books, NameContains(q.name))
    ensures !IsFlag(q.reading) && !IsFlag(q.finished) && (q.name == "" || !AnyNameMatch(books, q.name)) ==>
              r == books
  {
    SelectKeeps(books, ReadingIs(true));
    SelectKeeps(books, ReadingIs(false));
    SelectKeeps(books, FinishedIs(true));
    SelectKeeps(books, FinishedIs(false));
    SelectKeeps(books, NameContains(q.name));
    SubseqRefl(books);
    if q.reading == "1" then Select(books, ReadingIs(true))
    else if q.reading == "0" then Select(books, ReadingIs(false))
    else if q.finished == "1" then Select(books, FinishedIs(true))
    else if q.finished == "0" then Select(books, FinishedIs(false))
    else if q.name != "" && |Select(books, NameContains(q.name))| > 0 then Select(books, NameContains(q.name))
    else books
  }

  /** The body of a successful list response: `{id, name, publisher}` of each
      reported record. (The handler's failure branch needs an undefined query
      object, which the earlier rules would already have dereferenced.) */
  function List(books: seq<Book>, q: Query): (r: seq<Summary>)
    ensures |r| == |Listed(books, q)| <= |books|
    ensures forall i :: 0 <= i < |r| ==> r[i] == Summarize(Listed(books, q)[i])
  {
    SubseqMultiset(Listed(books, q), books);
    Project(Listed(books, q))
  }

  /** Every list response projects records taken from the table in stored order. */
  lemma ListIsProjectedSubsequence(books: seq<Book>, q: Query)
    ensures exists sub :: IsSubseq(sub, books) && List(books, q) == Project(sub)
  {
    assert IsSubseq(Listed(books, q), books);
  }

  /** Once the flag rules do not apply, the list is never empty for a non-empty
      table: a name that matches nothing falls back to every book. */
  lemma NameRuleNeverEmpties(books: seq<Book>, q: Query)
    requires !IsFlag(q.reading) && !IsFlag(q.finished)
    ensures List(books, q) == [] <==> books == []
  {
    var r := Listed(books, q);
    if q.name != "" && AnyNameMatch(books, q.name) {
      var b :| b in books && Matches(b, NameContains(q.name));
      assert multiset(r)[b] == multiset(books)[b];
      assert b in r;
    }
  }

  /** A book added with its last page read shows up under finished=1. */
  lemma AddedFinishedBookIsListed(books: seq<Book>, p: Payload, id: string, now: string)
    requires p.readPage == p.pageCount
    ensures Summarize(NewBook(p, id, now)) in List(books + [NewBook(p, id, now)], Query("", "1", ""))
  {
    var nb := NewBook(p, id, now);
    var all := books + [nb];
    var r := Listed(all, Query("", "1", ""));
    assert nb in all && Matches(nb, FinishedIs(true));
    assert multiset(r)[nb] == multiset(all)[nb];
    var i :| 0 <= i < |r| && r[i] == nb;
    assert List(all, Query("", "1", ""))[i] == Summarize(nb);
  }

  /** `filter(b => b.id === id)[0]`: the first record with the id, if any. */
  function GetById(books: seq<Book>, id: string): (r: Option<Book>)
    ensures r == None <==> forall i :: 0 <= i < |books| ==> books[i].id != id
    ensures r != None ==> r.value == books[FindIndex(books, id)] && r.value.id == id
  {
    FilterHeadIsFirstMatch(books, id);
    var hits := Select(books, IdIs(id));
    if |hits| > 0 then Some(hits[0]) else None
  }

  /** After a push, a lookup of the new id finds the new record, unless an
      older record already carried that id (ids are not checked for reuse). */
  lemma AddThenGet(books: seq<Book>, p: Payload, id: string, now: string)
    ensures GetById(books + [NewBook(p, id, now)], id) ==
      if FindIndex(books, id) == -1 then Some(NewBook(p, id, now)) else GetById(books, id)
  {
    FindIndexAppend(books, [NewBook(p, id, now)], id);
  }

  /** After an edit, a lookup of the edited id returns the edited record, and
      a lookup of any other id returns what it did before. */
  lemma EditThenGet(books: seq<Book>, id: string, p: Payload, now: string)
    requires FindIndex(books, id) >= 0
    ensures var i := FindIndex(books, id);
      GetById(books[i := Edited(books[i], p, now)], id) == Some(Edited(books[i], p, now))
    ensures var i := FindIndex(books, id);
      forall other :: other != id ==> GetById(books[i := Edited(books[i], p, now)], other) == GetById(books, other)
  {
    var i := FindIndex(books, id);
    var after := books[i := Edited(books[i], p, now)];
    FindIndexSameIds(after, books, id);
    LookupAt(after, id);
    forall other | other != id
      ensures GetById(after, other) == GetById(books, other)
    {
      FindIndexSameIds(after, books, other);
      LookupAt(after, other);
      LookupAt(books, other);
      var j := FindIndex(books, other);
      assert j != i;
      assert j >= 0 ==> after[j] == books[j];
    }
  }

  /** `findIndex` looks only at the ids. */
  lemma FindIndexSameIds(s: seq<Book>, t: seq<Book>, id: string)
    requires |s| == |t| && forall k :: 0 <= k < |s| ==> s[k].id == t[k].id
    ensures FindIndex(s, id) == FindIndex(t, id)
  {
  }

  /** After a delete, a lookup of the id finds the next record carrying it, if
      any. */
  lemma DeleteThenGet(books: seq<Book>, id: string)
    requires FindIndex(books, id) >= 0
    ensures var i := FindIndex(books, id);
      GetById(books[..i] + books[i + 1..], id) == GetById(books[i + 1..], id)
  {
    var i := FindIndex(books, id);
    var before, rest := books[..i], books[i + 1..];
    FindIndexAppend(before, rest, id);
    LookupAt(before + rest, id);
    LookupAt(rest, id);
    var j := FindIndex(rest, id);
    if j >= 0 {
      assert (before + rest)[|before| + j] == rest[j];
    }
  }

  /** With unique ids, a deleted id is no longer found. */
  lemma DeleteThenGetUnique(books: seq<Book>, id: string)
    requires FindIndex(books, id) >= 0 && UniqueIds(books)
    ensures var i := FindIndex(books, id);
      GetById(books[..i] + books[i + 1..], id) == None
  {
    var i := FindIndex(books, id);
    var rest := books[i + 1..];
    DeleteThenGet(books, id);
    forall k | 0 <= k < |rest| ensures rest[k].id != id {
      assert rest[k] == books[i + 1 + k];
    }
  }

  /** Lookup in terms of `findIndex` alone. */
  lemma LookupAt(s: seq<Book>, id: string)
    ensures GetById(s, id) == if FindIndex(s, id) == -1 then None else Some(s[FindIndex(s, id)])
  {
  }

  /** Every stored record passed validation. */
  ghost predicate AllWellFormed(books: seq<Book>) {
    forall i :: 0 <= i < |books| ==> WellFormed(books[i])
  }

  /** The outcome of a state-changing request: 201, 200, 404, 400 or 500. */
  datatype Outcome = Created(bookId: string) | Ok | NotFound | Invalid(reason: Rejection) | InsertFailed

  /** The service's book table. The initial contents come from outside. */
  class BookStore {
    var books: seq<Book>

    constructor (initial: seq<Book>)
      ensures books == initial
    {
      books := initial;
    }

    /** POST /books. The id and the timestamp are supplied by the caller. After
        pushing, the handler re-filters by the id and answers 500 if nothing
        carries it; that cannot happen. */
    method Add(p: Payload, id: string, now: string) returns (r: Outcome)
      modifies this
      ensures Validate(p) != None ==> r == Invalid(Validate(p).value) && books == old(books)
      ensures Validate(p) == None ==> r == Created(id) && books == old(books) + [NewBook(p, id, now)]
      ensures AllWellFormed(old(books)) ==> AllWellFormed(books)
      ensures UniqueIds(old(books)) && FindIndex(old(books), id) == -1 ==> UniqueIds(books)
    {
      var rejection := Validate(p);
      if rejection != None {
        return Invalid(rejection.value);
      }
      var book := NewBook(p, id, now);
      books := books + [book];
      SelectAppend(old(books), [book], IdIs(id));
      assert Select(books, IdIs(id)) == Select(old(books), IdIs(id)) + [book];
      var isSuccess := |Select(books, IdIs(id))| > 0;
      if isSuccess {
        r := Created(id);
      } else {
        r := InsertFailed;
      }
    }

    /** PUT /books/{id}. Validation comes before the lookup; the first record
        with the id is replaced by the edited record and nothing else moves. */
    method Edit(id: string, p: Payload, now: string) returns (r: Outcome)
      modifies this
      ensures Validate(p) != None ==> r == Invalid(Validate(p).value) && books == old(books)
      ensures Validate(p) == None && FindIndex(old(books), id) == -1 ==> r == NotFound && books == old(books)
      ensures Validate(p) == None && FindIndex(old(books), id) >= 0 ==>
                var i := FindIndex(old(books), id);
                r == Ok && books == old(books)[i := Edited(old(books)[i], p, now)]
      ensures |books| == |old(books)|
      ensures AllWellFormed(old(books)) ==> AllWellFormed(books)
      ensures UniqueIds(old(books)) ==> UniqueIds(books)
    {
      var rejection := Validate(p);
      if rejection != None {
        return Invalid(rejection.value);
      }
      var index := FindIndex(books, id);
      if index != -1 {
        books := books[index := Edited(books[index], p, now)];
        r := Ok;
      } else {
        r := NotFound;
      }
    }

    /** DELETE /books/{id}. The first record with the id is spliced out. */
    method Delete(id: string) returns (r: Outcome)
      modifies this
      ensures FindIndex(old(books), id) == -1 ==> r == NotFound && books == old(books)
      ensures FindIndex(old(books), id) >= 0 ==>
                var i := FindIndex(old(books), id);
                r == Ok && books == old(books)[..i] + old(books)[i + 1..] && |books| == |old(books)| - 1
      ensures AllWellFormed(old(books)) ==> AllWellFormed(books)
      ensures UniqueIds(old(books)) ==> UniqueIds(books)
    {
      var index := FindIndex(books, id);
      if index != -1 {
        books := books[..index] + books[index + 1..];
        r := Ok;
      } else {
        r := NotFound;
      }
    }
  }
}
