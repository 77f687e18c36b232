/** The book record, the request payload that Add and Edit receive, the
    validation they share, and the two scans over the stored sequence that every
    handler is built from: `findIndex` (first position with an id) and `filter`
    (the matching records, in stored order). */
module Books {
  import opened Text

  datatype Option<T> = None | Some(value: T)

  /** One stored book. `finished` is derived by Add; ids and timestamps are opaque strings. */
  datatype Book = Book(
    id: string,
    name: string,
    year: int,
    author: string,
    summary: string,
    publisher: string,
    pageCount: int,
    readPage: int,
    finished: bool,
    reading: bool,
    insertedAt: string,
    updatedAt: string)

  /** The fields a client sends to Add and Edit. */
  datatype Payload = Payload(
    name: string,
    year: int,
    author: string,
    summary: string,
    publisher: string,
    pageCount: int,
    readPage: int,
    reading: bool)

  /** The lightweight view the list handler returns for each book. */
  datatype Summary = Summary(id: string, name: string, publisher: string)

  /** Why a payload is refused with status 400. */
  datatype Rejection = MissingName | ReadPageExceedsPageCount

  /** The checks Add and Edit run before touching the store, in their order:
      an absent or empty name first, then a read page beyond the page count. */
  function Validate(p: Payload): (r: Option<Rejection>)
    ensures r == None <==> p.name != "" && p.readPage <= p.pageCount
    ensures r == Some(MissingName) <==> p.name == ""
    ensures r == Some(ReadPageExceedsPageCount) <==> p.name != "" && p.readPage > p.pageCount
  {
    if p.name == "" then Some(MissingName)
    else if p.readPage > p.pageCount then Some(ReadPageExceedsPageCount)
    else None
  }

  /** The eight client-supplied fields of `b` are those of `p`. */
  predicate Carries(b: Book, p: Payload) {
    && b.name == p.name && b.year == p.year && b.author == p.author
    && b.summary == p.summary && b.publisher == p.publisher
    && b.pageCount == p.pageCount && b.readPage == p.readPage && b.reading == p.reading
  }

  /** `finished` says whether the last page has been read. */
  predicate FinishedConsistent(b: Book) {
    b.finished == (b.readPage == b.pageCount)
  }

  /** What a stored book always satisfies when it came through Add or Edit. */
  predicate WellFormed(b: Book) {
    b.name != "" && b.readPage <= b.pageCount
  }

  /** The record Add appends: the payload, the generated id, `finished`
      derived from the pages, and both timestamps set to the same instant. */
  function NewBook(p: Payload, id: string, now: string): (b: Book)
    ensures Carries(b, p)
    ensures b.id == id
    ensures b.insertedAt == now && b.updatedAt == b.insertedAt
    ensures FinishedConsistent(b)
    ensures Validate(p) == None ==> WellFormed(b)
  {
    Book(id, p.name, p.year, p.author, p.summary, p.publisher,
         p.pageCount, p.readPage, p.pageCount == p.readPage, p.reading, now, now)
  }

  /** The record Edit stores: the old record spread first, then the payload
      and the new update time on top. `finished` is not among the replaced
      fields, so it keeps its old value. */
  function Edited(b: Book, p: Payload, now: string): (r: Book)
    ensures Carries(r, p)
    ensures r.id == b.id && r.insertedAt == b.insertedAt && r.finished == b.finished
    ensures r.updatedAt == now
    ensures Validate(p) == None ==> WellFormed(r)
  {
    b.(name := p.name, year := p.year, author := p.author, summary := p.summary,
       publisher := p.publisher, pageCount := p.pageCount, readPage := p.readPage,
       reading := p.reading, updatedAt := now)
  }

  /** Because Edit keeps the old `finished`, a book added as finished stays
      finished after an edit that sets the read page below the page count. */
  lemma EditLeavesFinishedStale(b: Book, p: Payload, now: string)
    requires b.finished && p.readPage < p.pageCount
    ensures Edited(b, p, now).finished
    ensures !FinishedConsistent(Edited(b, p, now))
  {
  }

  function Summarize(b: Book): Summary {
    Summary(b.id, b.name, b.publisher)
  }

  /** `map(b => ({id, name, publisher}))` over a sequence of books. */
  function Project(s: seq<Book>): (r: seq<Summary>)
    ensures |r| == |s|
    ensures forall i :: 0 <= i < |s| ==> r[i] == Summarize(s[i])
  {
    seq(|s|, i requires 0 <= i < |s| => Summarize(s[i]))
  }

  /** `findIndex(book => book.id === id)`: the first position holding `id`, or -1. */
  function FindIndex(s: seq<Book>, id: string): (r: int)
    ensures -1 <= r < |s|
    ensures r == -1 <==> forall i :: 0 <= i < |s| ==> s[i].id != id
    ensures 0 <= r ==> s[r].id == id && forall i :: 0 <= i < r ==> s[i].id != id
  {
    if |s| == 0 then -1
    else if s[0].id == id then 0
    else
      var k := FindIndex(s[1..], id);
      if k == -1 then -1 else k + 1
  }

  /** `r` is `s` with some elements dropped, the rest in their original order. */
  predicate IsSubseq<T(==)>(r: seq<T>, s: seq<T>)
    decreases |s|
  {
    r == [] || (s != [] && ((r[0] == s[0] && IsSubseq(r[1..], s[1..])) || IsSubseq(r, s[1..])))
  }

  lemma {:induction false} SubseqMultiset<T>(r: seq<T>, s: seq<T>)
    requires IsSubseq(r, s)
    ensures multiset(r) <= multiset(s)
    decreases |s|
  {
    if r != [] {
      assert s == [s[0]] + s[1..];
      if r[0] == s[0] && IsSubseq(r[1..], s[1..]) {
        SubseqMultiset(r[1..], s[1..]);
        assert r == [r[0]] + r[1..];
      } else {
        SubseqMultiset(r, s[1..]);
      }
    }
  }

  lemma {:induction false} SubseqRefl<T>(s: seq<T>)
    ensures IsSubseq(s, s)
    decreases |s|
  {
    if s != [] {
      SubseqRefl(s[1..]);
    }
  }

  /** The predicates the handlers pass to `filter`. The name test lower-cases
      both sides and asks for a substring. */
  datatype Criterion = ReadingIs(reading: bool) | FinishedIs(finished: bool) | NameContains(query: string) | IdIs(id: string)

  predicate Matches(b: Book, c: Criterion)
    ensures c.NameContains? ==>
      (Matches(b, c) <==> exists i :: OccursAt(Lower(b.name), Lower(c.query), i))
  {
    match c
    case ReadingIs(v) => b.reading == v
    case FinishedIs(v) => b.finished == v
    case NameContains(q) =>
      ContainsIffOccurs(Lower(b.name), Lower(q));
      Contains(Lower(b.name), Lower(q))
    case IdIs(id) => b.id == id
  }

  /** Declarative description of `s.filter(c)`: a subsequence of `s` that holds
      every matching occurrence of `s` and nothing else. */
  ghost predicate Keeps(r: seq<Book>, s: seq<Book>, c: Criterion) {
    IsSubseq(r, s) && forall b :: multiset(r)[b] == if Matches(b, c) then multiset(s)[b] else 0
  }

  /** `s.filter(c)`. */
  function Select(s: seq<Book>, c: Criterion): (r: seq<Book>)
    ensures |r| <= |s|
    ensures forall i :: 0 <= i < |r| ==> Matches(r[i], c)
  {
    if s == [] then []
    else if Matches(s[0], c) then [s[0]] + Select(s[1..], c)
    else Select(s[1..], c)
  }

  /** The filter meets its declarative description, and so keeps exactly the
      matching records. */
  lemma {:induction false} SelectKeeps(s: seq<Book>, c: Criterion)
    ensures Keeps(Select(s, c), s, c)
    ensures forall b :: b in Select(s, c) <==> b in s && Matches(b, c)
    decreases |s|
  {
    if s != [] {
      SelectKeeps(s[1..], c);
      assert s == [s[0]] + s[1..];
    }
  }

  /** Keeps describes exactly one sequence: whatever satisfies it is the filter. */
  lemma {:induction false} KeepsIsSelect(r: seq<Book>, s: seq<Book>, c: Criterion)
    requires Keeps(r, s, c)
    ensures r == Select(s, c)
    decreases |s|
  {
    if s != [] {
      var x, t := s[0], s[1..];
      assert s == [x] + t;
      if Matches(x, c) {
        if r != [] && r[0] == x && IsSubseq(r[1..], t) {
          assert r == [x] + r[1..];
          assert Keeps(r[1..], t, c);
          KeepsIsSelect(r[1..], t, c);
        } else {
          assert multiset(r)[x] == multiset(s)[x];
          SubseqMultiset(r, t);
          assert false;
        }
      } else {
        assert x !in r;
        assert Keeps(r, t, c);
        KeepsIsSelect(r, t, c);
      }
    }
  }

  /** Filtering a concatenation filters each part. */
  lemma {:induction false} SelectAppend(s: seq<Book>, t: seq<Book>, c: Criterion)
    ensures Select(s + t, c) == Select(s, c) + Select(t, c)
    decreases |s|
  {
    if s != [] {
      var u := s + t;
      assert u[0] == s[0] && u[1..] == s[1..] + t;
      SelectAppend(s[1..], t, c);
      if Matches(s[0], c) {
        assert Select(u, c) == [s[0]] + Select(s[1..] + t, c);
        assert Select(s, c) == [s[0]] + Select(s[1..], c);
      } else {
        assert Select(u, c) == Select(s[1..] + t, c);
        assert Select(s, c) == Select(s[1..], c);
      }
    } else {
      assert s + t == t;
    }
  }

  /** `filter(b => b.id === id)[0]` is the record `findIndex` finds. */
  lemma {:induction false} FilterHeadIsFirstMatch(s: seq<Book>, id: string)
    ensures Select(s, IdIs(id)) != [] <==> FindIndex(s, id) >= 0
    ensures Select(s, IdIs(id)) != [] ==> Select(s, IdIs(id))[0] == s[FindIndex(s, id)]
    decreases |s|
  {
    if s != [] && s[0].id != id {
      FilterHeadIsFirstMatch(s[1..], id);
    }
  }

  /** The first match in a concatenation is in the first part when it can be. */
  lemma {:induction false} FindIndexAppend(s: seq<Book>, t: seq<Book>, id: string)
    ensures FindIndex(s + t, id) ==
      if FindIndex(s, id) >= 0 then FindIndex(s, id)
      else if FindIndex(t, id) >= 0 then |s| + FindIndex(t, id)
      else -1
    decreases |s|
  {
    if s != [] && s[0].id != id {
      var u := s + t;
      assert u[0] == s[0] && u[1..] == s[1..] + t;
      FindIndexAppend(s[1..], t, id);
    } else if s == [] {
      assert s + t == t;
    } else {
      assert (s + t)[0] == s[0];
    }
  }

  /** No two stored records share an id. The handlers never check this. */
  ghost predicate UniqueIds(s: seq<Book>) {
    forall i, j :: 0 <= i < j < |s| ==> s[i].id != s[j].id
  }
}
