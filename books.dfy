/**
 * Book records and the read-only operations over the book list: the
 * case-insensitive title match used by removal, Python's `list.remove`,
 * the search filter, the read count behind the statistics page and the
 * 1-based numbering of listings.
 */
module Books {
  import opened Text

  /** One catalogued book, as stored in the library file. */
  datatype Book = Book(title: string, author: string, year: int, genre: string, read: bool)

  datatype Option<T> = None | Some(value: T)

  // ---------------------------------------------------------------------
  // Removal by title
  // ---------------------------------------------------------------------

  /** `book["title"].lower() == title.lower()` */
  predicate TitleMatches(b: Book, title: string)
    ensures b.title == title ==> TitleMatches(b, title)
    ensures TitleMatches(b, title) ==> |b.title| == |title|
  {
    Lower(b.title) == Lower(title)
  }

  /** The index of the first record whose title matches `title` case-insensitively. */
  function FirstTitleMatch(lib: seq<Book>, title: string): (r: Option<nat>)
    ensures r.Some? ==> r.value < |lib| && TitleMatches(lib[r.value], title)
    ensures r.Some? ==> forall j :: 0 <= j < r.value ==> !TitleMatches(lib[j], title)
    ensures r.None? <==> forall j :: 0 <= j < |lib| ==> !TitleMatches(lib[j], title)
  {
    if lib == [] then None
    else if TitleMatches(lib[0], title) then Some(0)
    else match FirstTitleMatch(lib[1..], title)
      case None => None
      case Some(i) => Some(i + 1)
  }

  /** The list with the element at index `i` taken out. */
  function DeleteAt<T>(s: seq<T>, i: nat): seq<T>
    requires i < |s|
  {
    s[..i] + s[i + 1..]
  }

  /** Python's `list.remove(x)`: drops the first element equal to `x`. */
  function RemoveFirst<T(==)>(s: seq<T>, x: T): (r: seq<T>)
    requires x in s
    ensures |r| == |s| - 1
  {
    if s[0] == x then s[1..] else [s[0]] + RemoveFirst(s[1..], x)
  }

  /** `list.remove(x)` deletes at the first index holding `x`. */
  lemma {:induction false} RemoveFirstAt<T>(s: seq<T>, x: T, i: nat)
    requires i < |s| && s[i] == x
    requires forall j :: 0 <= j < i ==> s[j] != x
    ensures RemoveFirst(s, x) == DeleteAt(s, i)
  {
    if i > 0 {
      RemoveFirstAt(s[1..], x, i - 1);
      assert s[1..][..i - 1] + s[1..][i..] == s[1..i] + s[i + 1..];
      assert [s[0]] + s[1..i] == s[..i];
    }
  }

  /**
   * Removing the book found by the title scan, by value as the source does,
   * deletes exactly the record at the first matching index: a record equal
   * to the found one earlier in the list would have matched first.
   */
  lemma RemoveFoundBook(lib: seq<Book>, title: string, i: nat)
    requires FirstTitleMatch(lib, title) == Some(i)
    ensures lib[i] in lib
    ensures RemoveFirst(lib, lib[i]) == DeleteAt(lib, i)
  {
    forall j | 0 <= j < i ensures lib[j] != lib[i] {
      assert !TitleMatches(lib[j], title);
    }
    RemoveFirstAt(lib, lib[i], i);
  }

  /**
   * Deleting one record keeps the others in order, and the old list is the
   * new one with exactly that record added back.
   */
  lemma {:induction false} DeleteAtSpec<T>(s: seq<T>, i: nat)
    requires i < |s|
    ensures |DeleteAt(s, i)| == |s| - 1
    ensures forall j :: 0 <= j < i ==> DeleteAt(s, i)[j] == s[j]
    ensures forall j :: i < j < |s| ==> DeleteAt(s, i)[j - 1] == s[j]
    ensures multiset(DeleteAt(s, i)) + multiset{s[i]} == multiset(s)
  {
    assert s == s[..i] + [s[i]] + s[i + 1..];
    calc {
      multiset(s);
      multiset(s[..i]) + multiset{s[i]} + multiset(s[i + 1..]);
      multiset(s[..i] + s[i + 1..]) + multiset{s[i]};
    }
  }

  /** The removal target's own letter case does not matter: "dune" finds what "Dune" finds. */
  lemma FirstTitleMatchIgnoresCase(lib: seq<Book>, t: string, u: string)
    requires Lower(t) == Lower(u)
    ensures FirstTitleMatch(lib, t) == FirstTitleMatch(lib, u)
  {
  }

  /** Lower-casing the removal target first changes nothing. */
  lemma FirstTitleMatchLowered(lib: seq<Book>, t: string)
    ensures FirstTitleMatch(lib, Lower(t)) == FirstTitleMatch(lib, t)
  {
    LowerIdempotent(t);
    FirstTitleMatchIgnoresCase(lib, Lower(t), t);
  }

  /**
   * One removal takes out only the first match: the shortened list still
   * has a matching record exactly when a later record of the original matched.
   */
  lemma RemoveAtMostOne(lib: seq<Book>, title: string, i: nat)
    requires FirstTitleMatch(lib, title) == Some(i)
    ensures FirstTitleMatch(DeleteAt(lib, i), title).Some? <==>
      exists j :: i < j < |lib| && TitleMatches(lib[j], title)
  {
    DeleteAtSpec(lib, i);
    var rest := DeleteAt(lib, i);
    if j :| i < j < |lib| && TitleMatches(lib[j], title) {
      assert TitleMatches(rest[j - 1], title);
    }
    if FirstTitleMatch(rest, title).Some? {
      var k := FirstTitleMatch(rest, title).value;
      assert k >= i;
      assert TitleMatches(lib[k + 1], title);
    }
  }

  /**
   * Appending a book whose title no earlier record shares, then removing
   * that title, gives back the original list.
   */
  lemma {:induction false} AddThenRemove(lib: seq<Book>, b: Book)
    requires FirstTitleMatch(lib, b.title).None?
    ensures FirstTitleMatch(lib + [b], b.title) == Some(|lib|)
    ensures DeleteAt(lib + [b], |lib|) == lib
  {
    var ext := lib + [b];
    assert TitleMatches(ext[|lib|], b.title);
    assert forall j :: 0 <= j < |lib| ==> ext[j] == lib[j];
    var r := FirstTitleMatch(ext, b.title);
    assert r.Some?;
    assert r.value == |lib|;
  }

  // ---------------------------------------------------------------------
  // Subsequences
  // ---------------------------------------------------------------------

  /** `a` is `b` with some elements left out and the rest kept in order. */
  predicate IsSubsequence<T(==)>(a: seq<T>, b: seq<T>)
    decreases |b|
  {
    if a == [] then true
    else if b == [] then false
    else if a[0] == b[0] then IsSubsequence(a[1..], b[1..])
    else IsSubsequence(a, b[1..])
  }

  /** A list with one record deleted is a subsequence of the list. */
  lemma {:induction false} DeleteAtIsSubsequence<T>(s: seq<T>, i: nat)
    requires i < |s|
    ensures IsSubsequence(DeleteAt(s, i), s)
  {
    if i == 0 {
      assert DeleteAt(s, 0) == s[1..];
      SelfIsSubsequence(s[1..]);
      SubsequenceOfTail(s[1..], s);
    } else {
      DeleteAtIsSubsequence(s[1..], i - 1);
      assert DeleteAt(s, i)[0] == s[0];
      assert DeleteAt(s, i)[1..] == DeleteAt(s[1..], i - 1);
    }
  }

  lemma {:induction false} SelfIsSubsequence<T>(a: seq<T>)
    ensures IsSubsequence(a, a)
  {
    if a != [] {
      SelfIsSubsequence(a[1..]);
    }
  }

  /** Dropping the head of a subsequence keeps it a subsequence. */
  lemma {:induction false} SubsequenceTail<T>(a: seq<T>, b: seq<T>)
    requires a != [] && IsSubsequence(a, b)
    ensures IsSubsequence(a[1..], b)
    decreases |b|, |a|
  {
    if a[0] == b[0] {
      SubsequenceOfTail(a[1..], b);
    } else {
      SubsequenceTail(a, b[1..]);
      SubsequenceOfTail(a[1..], b);
    }
  }

  /** A subsequence of `b[1..]` is a subsequence of `b`. */
  lemma {:induction false} SubsequenceOfTail<T>(a: seq<T>, b: seq<T>)
    requires b != [] && IsSubsequence(a, b[1..])
    ensures IsSubsequence(a, b)
    decreases |b|, |a|
  {
    if a != [] && a[0] == b[0] {
      SubsequenceTail(a, b[1..]);
    }
  }

  // ---------------------------------------------------------------------
  // Search
  // ---------------------------------------------------------------------

  /** The two choices of the "Search by" radio button. */
  datatype SearchField = ByTitle | ByAuthor

  function FieldOf(b: Book, field: SearchField): string {
    match field
    case ByTitle => b.title
    case ByAuthor => b.author
  }

  /** `term.lower() in book[field].lower()` */
  predicate Hit(b: Book, field: SearchField, term: string)
    ensures term == "" ==> Hit(b, field, term)
    ensures Hit(b, field, term) ==> |term| <= |FieldOf(b, field)|
  {
    Contains(Lower(FieldOf(b, field)), Lower(term))
  }

  /** The list comprehension `[x for x in s if keep(x)]`. */
  function Filter<T>(s: seq<T>, keep: T -> bool): (r: seq<T>)
    ensures |r| <= |s|
    ensures forall k :: 0 <= k < |r| ==> keep(r[k])
  {
    if s == [] then []
    else (if keep(s[0]) then [s[0]] else []) + Filter(s[1..], keep)
  }

  /** The books of the library whose chosen field contains the term, ignoring case. */
  function Matching(lib: seq<Book>, field: SearchField, term: string): (r: seq<Book>)
    ensures |r| <= |lib|
    ensures forall k :: 0 <= k < |r| ==> Hit(r[k], field, term)
  {
    Filter(lib, (b: Book) => Hit(b, field, term))
  }

  /** An element is kept exactly when it is in the list and passes the test. */
  lemma {:induction false} FilterMembership<T>(s: seq<T>, keep: T -> bool, x: T)
    ensures x in Filter(s, keep) <==> x in s && keep(x)
  {
    if s != [] {
      FilterMembership(s[1..], keep, x);
      assert s == [s[0]] + s[1..];
    }
  }

  /** Filtering distributes over concatenation, so relative order is kept. */
  lemma {:induction false} FilterAppend<T>(a: seq<T>, c: seq<T>, keep: T -> bool)
    ensures Filter(a + c, keep) == Filter(a, keep) + Filter(c, keep)
  {
    if a == [] {
      assert a + c == c;
    } else {
      var head := if keep(a[0]) then [a[0]] else [];
      assert Filter(a + c, keep) == head + Filter(a[1..] + c, keep) by {
        assert (a + c)[0] == a[0];
        assert (a + c)[1..] == a[1..] + c;
      }
      calc {
        Filter(a + c, keep);
        head + Filter(a[1..] + c, keep);
        { FilterAppend(a[1..], c, keep); }
        head + (Filter(a[1..], keep) + Filter(c, keep));
        (head + Filter(a[1..], keep)) + Filter(c, keep);
      }
    }
  }

  /** The kept elements are a subsequence of the list. */
  lemma {:induction false} FilterIsSubsequence<T>(s: seq<T>, keep: T -> bool)
    ensures IsSubsequence(Filter(s, keep), s)
  {
    if s != [] {
      var rest := Filter(s[1..], keep);
      FilterIsSubsequence(s[1..], keep);
      if keep(s[0]) {
        assert Filter(s, keep) == [s[0]] + rest;
        assert ([s[0]] + rest)[1..] == rest;
      } else {
        assert Filter(s, keep) == rest;
        SubsequenceOfTail(rest, s);
      }
    }
  }

  /** When every element passes, the whole list is kept. */
  lemma {:induction false} FilterAll<T>(s: seq<T>, keep: T -> bool)
    requires forall k :: 0 <= k < |s| ==> keep(s[k])
    ensures Filter(s, keep) == s
  {
    if s != [] {
      FilterAll(s[1..], keep);
      assert s == [s[0]] + s[1..];
    }
  }

  /** Nothing is kept exactly when no element passes. */
  lemma {:induction false} FilterNone<T>(s: seq<T>, keep: T -> bool)
    ensures Filter(s, keep) == [] <==> forall k :: 0 <= k < |s| ==> !keep(s[k])
  {
    if s != [] {
      FilterNone(s[1..], keep);
      assert forall k :: 1 <= k < |s| ==> s[1..][k - 1] == s[k];
    }
  }

  /** A record is a search match exactly when it is in the library and its chosen field contains the term. */
  lemma MatchingMembership(lib: seq<Book>, field: SearchField, term: string, b: Book)
    ensures b in Matching(lib, field, term) <==> b in lib && Hit(b, field, term)
  {
    FilterMembership(lib, (x: Book) => Hit(x, field, term), b);
  }

  /** The search matches are a subsequence of the library. */
  lemma MatchingIsSubsequence(lib: seq<Book>, field: SearchField, term: string)
    ensures IsSubsequence(Matching(lib, field, term), lib)
  {
    FilterIsSubsequence(lib, (x: Book) => Hit(x, field, term));
  }

  /** Searching two parts of a library and joining the results is searching the whole. */
  lemma MatchingAppend(c: seq<Book>, d: seq<Book>, field: SearchField, term: string)
    ensures Matching(c + d, field, term) == Matching(c, field, term) + Matching(d, field, term)
  {
    FilterAppend(c, d, (x: Book) => Hit(x, field, term));
  }

  /** When every record hits, the search returns the whole library. */
  lemma MatchingAll(lib: seq<Book>, field: SearchField, term: string)
    requires forall k :: 0 <= k < |lib| ==> Hit(lib[k], field, term)
    ensures Matching(lib, field, term) == lib
  {
    FilterAll(lib, (x: Book) => Hit(x, field, term));
  }

  /** Were the empty term searched, every record would match: `"" in s` holds for every `s`. */
  lemma EmptyTermMatchesAll(lib: seq<Book>, field: SearchField)
    ensures Matching(lib, field, "") == lib
  {
    MatchingAll(lib, field, "");
  }

  /** There are no search matches exactly when no record hits. */
  lemma MatchingNone(lib: seq<Book>, field: SearchField, term: string)
    ensures Matching(lib, field, term) == [] <==> forall k :: 0 <= k < |lib| ==> !Hit(lib[k], field, term)
  {
    FilterNone(lib, (x: Book) => Hit(x, field, term));
  }

  // ---------------------------------------------------------------------
  // Numbered listings
  // ---------------------------------------------------------------------

  /** One line of a listing: its number, the book and its read status label. */
  datatype Entry = Entry(number: nat, book: Book, status: string)

  function StatusLabel(b: Book): (s: string)
    ensures s == "Read" || s == "Unread"
    ensures s == "Read" <==> b.read
  {
    if b.read then "Read" else "Unread"
  }

  /** `enumerate(books, first)` together with the status label of each book. */
  function Numbered(books: seq<Book>, first: nat): (r: seq<Entry>)
    ensures |r| == |books|
    ensures forall k :: 0 <= k < |r| ==> r[k] == Entry(first + k, books[k], StatusLabel(books[k]))
  {
    if books == [] then []
    else [Entry(first, books[0], StatusLabel(books[0]))] + Numbered(books[1..], first + 1)
  }

  /** What the search page shows. */
  datatype SearchResult = NotSearched | NoMatches | Found(entries: seq<Entry>)

  /**
   * The search page: nothing for an empty term; otherwise the matches
   * numbered from 1, or the no-match warning when there are none.
   */
  function SearchBooks(lib: seq<Book>, field: SearchField, term: string): (r: SearchResult)
    ensures r.NotSearched? <==> term == ""
    ensures r.NoMatches? <==> term != "" && Matching(lib, field, term) == []
    ensures r.Found? ==> 0 < |r.entries| == |Matching(lib, field, term)|
    ensures r.Found? ==> forall k :: 0 <= k < |r.entries| ==>
      r.entries[k].number == k + 1 && r.entries[k].book == Matching(lib, field, term)[k]
      && r.entries[k].status == StatusLabel(Matching(lib, field, term)[k])
  {
    if term == "" then NotSearched
    else
      var matches := Matching(lib, field, term);
      if matches == [] then NoMatches else Found(Numbered(matches, 1))
  }

  /** What the "Display All Books" page shows. */
  datatype Display = EmptyLibrary | Listing(entries: seq<Entry>)

  function DisplayBooks(lib: seq<Book>): (r: Display)
    ensures r.EmptyLibrary? <==> lib == []
    ensures r.Listing? ==> |r.entries| == |lib|
    ensures r.Listing? ==> forall k :: 0 <= k < |lib| ==>
      r.entries[k].number == k + 1 && r.entries[k].book == lib[k] && r.entries[k].status == StatusLabel(lib[k])
  {
    if lib == [] then EmptyLibrary else Listing(Numbered(lib, 1))
  }

  // ---------------------------------------------------------------------
  // Statistics
  // ---------------------------------------------------------------------

  /** `sum(1 for book in library if book["read"])` */
  function ReadCount(lib: seq<Book>): (r: nat)
    ensures r <= |lib|
  {
    if lib == [] then 0 else (if lib[0].read then 1 else 0) + ReadCount(lib[1..])
  }

  /** The read flags of the records, in order. */
  function ReadFlags(lib: seq<Book>): (r: seq<bool>)
    ensures |r| == |lib|
    ensures forall k :: 0 <= k < |lib| ==> r[k] == lib[k].read
  {
    seq(|lib|, k requires 0 <= k < |lib| => lib[k].read)
  }

  /** The read count is the number of `true` read flags. */
  lemma {:induction false} ReadCountIsFlagCount(lib: seq<Book>)
    ensures ReadCount(lib) == multiset(ReadFlags(lib))[true]
  {
    if lib != [] {
      ReadCountIsFlagCount(lib[1..]);
      assert ReadFlags(lib) == [lib[0].read] + ReadFlags(lib[1..]);
    }
  }

  /** Counting distributes over concatenation. */
  lemma {:induction false} ReadCountAppend(a: seq<Book>, c: seq<Book>)
    ensures ReadCount(a + c) == ReadCount(a) + ReadCount(c)
  {
    if a == [] {
      assert a + c == c;
    } else {
      ReadCountAppend(a[1..], c);
      assert (a + c)[1..] == a[1..] + c;
    }
  }

  /** All records are read exactly when the count reaches the total; none when it is 0. */
  lemma {:induction false} ReadCountExtremes(lib: seq<Book>)
    ensures ReadCount(lib) == |lib| <==> forall k :: 0 <= k < |lib| ==> lib[k].read
    ensures ReadCount(lib) == 0 <==> forall k :: 0 <= k < |lib| ==> !lib[k].read
  {
    if lib != [] {
      ReadCountExtremes(lib[1..]);
      assert forall k :: 1 <= k < |lib| ==> lib[1..][k - 1] == lib[k];
    }
  }

  /** Adding a book raises the count by one exactly when the new book is read. */
  lemma AddReadCount(lib: seq<Book>, b: Book)
    ensures ReadCount(lib + [b]) == ReadCount(lib) + (if b.read then 1 else 0)
  {
    ReadCountAppend(lib, [b]);
  }

  /** Removing a record lowers the count by one exactly when that record was read. */
  lemma {:induction false} RemoveReadCount(lib: seq<Book>, i: nat)
    requires i < |lib|
    ensures ReadCount(DeleteAt(lib, i)) == ReadCount(lib) - (if lib[i].read then 1 else 0)
  {
    if i == 0 {
      assert DeleteAt(lib, 0) == lib[1..];
    } else {
      var rest := DeleteAt(lib[1..], i - 1);
      RemoveReadCount(lib[1..], i - 1);
      assert DeleteAt(lib, i) == [lib[0]] + rest;
      assert ([lib[0]] + rest)[1..] == rest;
    }
  }

  /** What the statistics page shows: nothing for an empty library, else total and read count. */
  datatype StatsReport = NoStats | Report(total: nat, read: nat)

  function LibraryStats(lib: seq<Book>): (r: StatsReport)
    ensures r.NoStats? <==> lib == []
    ensures r.Report? ==> r.total == |lib| && 0 <= r.read <= r.total
    ensures r.Report? ==> r.read == multiset(ReadFlags(lib))[true]
  {
    if |lib| == 0 then NoStats
    else
      ReadCountIsFlagCount(lib);
      Report(|lib|, ReadCount(lib))
  }
}
