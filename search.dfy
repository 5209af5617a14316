/** Verse search: scope resolution, the collection of matching verses, the
    highlighting of matches in a result, and jumping to a result. */
module Search {
  import opened Corpus
  import opened Text
  import opened Navigation

  /** The three radio buttons: "chapter", "book", "bible". */
  datatype Scope = InChapter | InBook | InBible

  /** One search hit. `normalizedVerse` and `normalizedQuery` are carried for
      the highlighter, as the records built by the search carry them. */
  datatype SearchResult = SearchResult(
    book: string, chapter: int, verse: int, text: string,
    normalizedVerse: string, normalizedQuery: string)

  /** A verse of a book list by 0-based book, chapter and verse index. */
  datatype Loc = Loc(book: nat, chapter: nat, verse: nat)

  predicate ValidLoc(books: seq<Book>, l: Loc)
  {
    l.book < |books| && l.chapter < |books[l.book].chapters| &&
    l.verse < |books[l.book].chapters[l.chapter]|
  }

  function VerseText(books: seq<Book>, l: Loc): string
    requires ValidLoc(books, l)
  {
    books[l.book].chapters[l.chapter][l.verse]
  }

  /** The verse at `l` contains the normalized query once normalized itself. */
  predicate IsMatch(books: seq<Book>, normalize: string -> string, nq: string, l: Loc)
  {
    ValidLoc(books, l) && Contains(normalize(VerseText(books, l)), nq)
  }

  /** Traversal order: book, then chapter, then verse. */
  predicate Before(a: Loc, b: Loc)
  {
    a.book < b.book ||
    (a.book == b.book && (a.chapter < b.chapter || (a.chapter == b.chapter && a.verse < b.verse)))
  }

  predicate Sorted(locs: seq<Loc>)
  {
    forall i, j :: 0 <= i < j < |locs| ==> Before(locs[i], locs[j])
  }

  /** The books a search walks, by scope. In chapter scope the selected book is
      rebuilt with the selected chapter as its only chapter. */
  function SearchBooks(scope: Scope, books: seq<Book>, selectedBook: Option<Book>, selectedChapter: int): seq<Book>
  {
    if scope == InBible then books
    else if scope == InBook && selectedBook.Some? then [selectedBook.value]
    else if scope == InChapter && selectedBook.Some? then
      [Book(selectedBook.value.name, [ChapterAt(selectedBook.value, selectedChapter)])]
    else []
  }

  /** "bible" walks the whole corpus, "book" the selected book, "chapter" a
      one-chapter copy of the selected book holding the selected chapter (no
      verses if it is missing); without a selected book only "bible" walks anything. */
  lemma SearchBooksSpec(scope: Scope, books: seq<Book>, selectedBook: Option<Book>, selectedChapter: int)
    ensures scope == InBible ==> SearchBooks(scope, books, selectedBook, selectedChapter) == books
    ensures scope != InBible && selectedBook.None? ==> SearchBooks(scope, books, selectedBook, selectedChapter) == []
    ensures scope == InBook && selectedBook.Some? ==> SearchBooks(scope, books, selectedBook, selectedChapter) == [selectedBook.value]
    ensures scope == InChapter && selectedBook.Some? ==>
      |SearchBooks(scope, books, selectedBook, selectedChapter)| == 1 &&
      SearchBooks(scope, books, selectedBook, selectedChapter)[0].name == selectedBook.value.name &&
      SearchBooks(scope, books, selectedBook, selectedChapter)[0].chapters == [ChapterAt(selectedBook.value, selectedChapter)]
  {
  }

  /** Matching verses among the first `n` verses of chapter `ci` of book `bi`, in order. */
  function VerseLocs(books: seq<Book>, normalize: string -> string, nq: string, bi: nat, ci: nat, n: nat): (r: seq<Loc>)
    requires bi < |books| && ci < |books[bi].chapters| && n <= |books[bi].chapters[ci]|
    ensures forall l :: l in r ==> ValidLoc(books, l)
  {
    if n == 0 then []
    else
      var prefix := VerseLocs(books, normalize, nq, bi, ci, n - 1);
      var l := Loc(bi, ci, n - 1);
      if IsMatch(books, normalize, nq, l) then prefix + [l] else prefix
  }

  /** Matching verses among the first `n` chapters of book `bi`, in order. */
  function ChapterLocs(books: seq<Book>, normalize: string -> string, nq: string, bi: nat, n: nat): (r: seq<Loc>)
    requires bi < |books| && n <= |books[bi].chapters|
    ensures forall l :: l in r ==> ValidLoc(books, l)
  {
    if n == 0 then []
    else ChapterLocs(books, normalize, nq, bi, n - 1) + VerseLocs(books, normalize, nq, bi, n - 1, |books[bi].chapters[n - 1]|)
  }

  /** Matching verses among the first `n` books, in order. */
  function BookLocs(books: seq<Book>, normalize: string -> string, nq: string, n: nat): (r: seq<Loc>)
    requires n <= |books|
    ensures forall l :: l in r ==> ValidLoc(books, l)
  {
    if n == 0 then []
    else BookLocs(books, normalize, nq, n - 1) + ChapterLocs(books, normalize, nq, n - 1, |books[n - 1].chapters|)
  }

  /** Every matching verse of `books`, in traversal order. */
  function MatchLocs(books: seq<Book>, normalize: string -> string, nq: string): (r: seq<Loc>)
    ensures forall l :: l in r ==> ValidLoc(books, l)
  {
    BookLocs(books, normalize, nq, |books|)
  }

  /** The record pushed for the verse at `l`: 1-based chapter and verse numbers. */
  function RecordAt(books: seq<Book>, l: Loc, normalize: string -> string, nq: string): SearchResult
    requires ValidLoc(books, l)
  {
    var text := VerseText(books, l);
    SearchResult(books[l.book].name, l.chapter + 1, l.verse + 1, text, normalize(text), nq)
  }

  /** A record numbers chapter and verse from 1, and those numbers lead back to
      the verse whose text and normalized text it carries. */
  lemma RecordAtSpec(books: seq<Book>, l: Loc, normalize: string -> string, nq: string)
    requires ValidLoc(books, l)
    ensures RecordAt(books, l, normalize, nq).book == books[l.book].name
    ensures RecordAt(books, l, normalize, nq).chapter == l.chapter + 1 && RecordAt(books, l, normalize, nq).verse == l.verse + 1
    ensures 1 <= RecordAt(books, l, normalize, nq).chapter <= |books[l.book].chapters|
    ensures 1 <= RecordAt(books, l, normalize, nq).verse <= |books[l.book].chapters[RecordAt(books, l, normalize, nq).chapter - 1]|
    ensures RecordAt(books, l, normalize, nq).text ==
      books[l.book].chapters[RecordAt(books, l, normalize, nq).chapter - 1][RecordAt(books, l, normalize, nq).verse - 1]
    ensures RecordAt(books, l, normalize, nq).normalizedVerse == normalize(RecordAt(books, l, normalize, nq).text)
    ensures RecordAt(books, l, normalize, nq).normalizedQuery == nq
  {
  }

  /** The records of the verses at `locs`, in the same order. */
  function Records(books: seq<Book>, locs: seq<Loc>, normalize: string -> string, nq: string): (rs: seq<SearchResult>)
    requires forall l :: l in locs ==> ValidLoc(books, l)
    ensures |rs| == |locs|
  {
    if locs == [] then []
    else Records(books, locs[..|locs| - 1], normalize, nq) + [RecordAt(books, locs[|locs| - 1], normalize, nq)]
  }

  /** The results of searching `sb`: the record of every matching verse, in
      traversal order. */
  function Hits(sb: seq<Book>, normalize: string -> string, nq: string): seq<SearchResult>
  {
    Records(sb, MatchLocs(sb, normalize, nq), normalize, nq)
  }

  /** The results of a search in `scope` from the current reading position. */
  function ScopedHits(scope: Scope, books: seq<Book>, selectedBook: Option<Book>, selectedChapter: int,
                      normalize: string -> string, nq: string): seq<SearchResult>
  {
    Hits(SearchBooks(scope, books, selectedBook, selectedChapter), normalize, nq)
  }

  lemma RecordsSnoc(books: seq<Book>, locs: seq<Loc>, l: Loc, normalize: string -> string, nq: string)
    requires forall m :: m in locs ==> ValidLoc(books, m)
    requires ValidLoc(books, l)
    ensures Records(books, locs + [l], normalize, nq) == Records(books, locs, normalize, nq) + [RecordAt(books, l, normalize, nq)]
  {
    assert (locs + [l])[..|locs|] == locs;
  }

  lemma VerseLocsStep(books: seq<Book>, normalize: string -> string, nq: string, bi: nat, ci: nat, n: nat)
    requires bi < |books| && ci < |books[bi].chapters| && n < |books[bi].chapters[ci]|
    ensures VerseLocs(books, normalize, nq, bi, ci, n + 1) == VerseLocs(books, normalize, nq, bi, ci, n) +
      (if Contains(normalize(books[bi].chapters[ci][n]), nq) then [Loc(bi, ci, n)] else [])
  {
  }

  lemma ChapterLocsStep(books: seq<Book>, normalize: string -> string, nq: string, bi: nat, n: nat)
    requires bi < |books| && n < |books[bi].chapters|
    ensures ChapterLocs(books, normalize, nq, bi, n + 1) == ChapterLocs(books, normalize, nq, bi, n) +
      VerseLocs(books, normalize, nq, bi, n, |books[bi].chapters[n]|)
  {
  }

  lemma BookLocsStep(books: seq<Book>, normalize: string -> string, nq: string, n: nat)
    requires n < |books|
    ensures BookLocs(books, normalize, nq, n + 1) == BookLocs(books, normalize, nq, n) +
      ChapterLocs(books, normalize, nq, n, |books[n].chapters|)
  {
  }

  lemma {:induction false} RecordsAppend(books: seq<Book>, a: seq<Loc>, b: seq<Loc>, normalize: string -> string, nq: string)
    requires forall m :: m in a ==> ValidLoc(books, m)
    requires forall m :: m in b ==> ValidLoc(books, m)
    ensures Records(books, a + b, normalize, nq) == Records(books, a, normalize, nq) + Records(books, b, normalize, nq)
    decreases |b|
  {
    if b != [] {
      var init := b[..|b| - 1];
      assert (a + b)[..|a + b| - 1] == a + init;
      assert (a + b)[|a + b| - 1] == b[|b| - 1];
      RecordsAppend(books, a, init, normalize, nq);
      calc {
        Records(books, a + b, normalize, nq);
        Records(books, a + init, normalize, nq) + [RecordAt(books, b[|b| - 1], normalize, nq)];
        Records(books, a, normalize, nq) + Records(books, init, normalize, nq) + [RecordAt(books, b[|b| - 1], normalize, nq)];
        Records(books, a, normalize, nq) + Records(books, b, normalize, nq);
      }
    } else {
      assert a + b == a;
    }
  }

  /** One verse of the innermost walk: the records grow by that verse's record exactly when it is a hit. */
  lemma RecordsVerseStep(books: seq<Book>, normalize: string -> string, nq: string, bi: nat, ci: nat, n: nat)
    requires bi < |books| && ci < |books[bi].chapters| && n < |books[bi].chapters[ci]|
    ensures Records(books, VerseLocs(books, normalize, nq, bi, ci, n + 1), normalize, nq)
      == Records(books, VerseLocs(books, normalize, nq, bi, ci, n), normalize, nq) +
         (if Contains(normalize(books[bi].chapters[ci][n]), nq) then [RecordAt(books, Loc(bi, ci, n), normalize, nq)] else [])
  {
    VerseLocsStep(books, normalize, nq, bi, ci, n);
    if Contains(normalize(books[bi].chapters[ci][n]), nq) {
      RecordsSnoc(books, VerseLocs(books, normalize, nq, bi, ci, n), Loc(bi, ci, n), normalize, nq);
    }
  }

  /** The innermost walk: the verses of chapter `ci` of book `bi`. */
  method CollectVerses(searchBooks: seq<Book>, normalize: string -> string, normalizedQuery: string, bi: nat, ci: nat)
    returns (found: seq<SearchResult>)
    requires bi < |searchBooks| && ci < |searchBooks[bi].chapters|
    ensures found == Records(searchBooks, VerseLocs(searchBooks, normalize, normalizedQuery, bi, ci, |searchBooks[bi].chapters[ci]|), normalize, normalizedQuery)
  {
    var book := searchBooks[bi];
    var chapter := book.chapters[ci];
    found := [];
    var vi := 0;
    while vi < |chapter|
      invariant 0 <= vi <= |chapter|
      invariant found == Records(searchBooks, VerseLocs(searchBooks, normalize, normalizedQuery, bi, ci, vi), normalize, normalizedQuery)
    {
      var verse := chapter[vi];
      var normalizedVerse := normalize(verse);
      RecordsVerseStep(searchBooks, normalize, normalizedQuery, bi, ci, vi);
      if Contains(normalizedVerse, normalizedQuery) {
        assert SearchResult(book.name, ci + 1, vi + 1, verse, normalizedVerse, normalizedQuery)
          == RecordAt(searchBooks, Loc(bi, ci, vi), normalize, normalizedQuery);
        found := found + [SearchResult(book.name, ci + 1, vi + 1, verse, normalizedVerse, normalizedQuery)];
      }
      vi := vi + 1;
    }
  }

  /** The middle walk: the chapters of book `bi`. */
  method CollectChapters(searchBooks: seq<Book>, normalize: string -> string, normalizedQuery: string, bi: nat)
    returns (found: seq<SearchResult>)
    requires bi < |searchBooks|
    ensures found == Records(searchBooks, ChapterLocs(searchBooks, normalize, normalizedQuery, bi, |searchBooks[bi].chapters|), normalize, normalizedQuery)
  {
    var book := searchBooks[bi];
    found := [];
    var ci := 0;
    while ci < |book.chapters|
      invariant 0 <= ci <= |book.chapters|
      invariant found == Records(searchBooks, ChapterLocs(searchBooks, normalize, normalizedQuery, bi, ci), normalize, normalizedQuery)
    {
      var hits := CollectVerses(searchBooks, normalize, normalizedQuery, bi, ci);
      ChapterLocsStep(searchBooks, normalize, normalizedQuery, bi, ci);
      RecordsAppend(searchBooks, ChapterLocs(searchBooks, normalize, normalizedQuery, bi, ci),
        VerseLocs(searchBooks, normalize, normalizedQuery, bi, ci, |book.chapters[ci]|), normalize, normalizedQuery);
      found := found + hits;
      ci := ci + 1;
    }
  }

  /** The walk over books, chapters and verses that fills `found`, in traversal order. */
  method Collect(searchBooks: seq<Book>, normalize: string -> string, normalizedQuery: string)
    returns (found: seq<SearchResult>)
    ensures found == Hits(searchBooks, normalize, normalizedQuery)
  {
    found := [];
    var bi := 0;
    while bi < |searchBooks|
      invariant 0 <= bi <= |searchBooks|
      invariant found == Records(searchBooks, BookLocs(searchBooks, normalize, normalizedQuery, bi), normalize, normalizedQuery)
    {
      var hits := CollectChapters(searchBooks, normalize, normalizedQuery, bi);
      BookLocsStep(searchBooks, normalize, normalizedQuery, bi);
      RecordsAppend(searchBooks, BookLocs(searchBooks, normalize, normalizedQuery, bi),
        ChapterLocs(searchBooks, normalize, normalizedQuery, bi, |searchBooks[bi].chapters|), normalize, normalizedQuery);
      found := found + hits;
      bi := bi + 1;
    }
  }

  /** A piece of the highlighted verse: plain text, or a match shown in bold. */
  datatype Part = Plain(s: string) | Strong(s: string)

  /** The text of the parts with the markup left out. */
  function Strip(parts: seq<Part>): string
  {
    if parts == [] then "" else parts[0].s + Strip(parts[1..])
  }

  /** `parts.join("")`, each match wrapped in a `strong` element. */
  function Render(parts: seq<Part>): (html: string)
    ensures (forall k :: 0 <= k < |parts| ==> parts[k].Plain?) ==> html == Strip(parts)
  {
    if parts == [] then ""
    else
      (if parts[0].Strong? then "<strong class='text-orange-500'>" + parts[0].s + "</strong>" else parts[0].s) +
      Render(parts[1..])
  }

  /** The match positions the highlight loop visits from `from` on: each search
      resumes at the end of the previous match. */
  function Positions(nv: string, q: string, from: int): seq<int>
    requires |q| > 0
    decreases |nv| - from
  {
    var pos := IndexOf(nv, q, from);
    if pos == -1 then [] else [pos] + Positions(nv, q, pos + |q|)
  }

  /** The positions highlighted in a result; none when the normalized query is empty. */
  function HighlightPositions(nv: string, q: string): seq<int>
  {
    PositionsFrom(nv, q, 0)
  }

  /** The positions still to visit once the loop resumes at `from`. */
  function PositionsFrom(nv: string, q: string, from: int): seq<int>
  {
    if |q| == 0 then [] else Positions(nv, q, from)
  }

  /** The parts built from match positions `ps` of length `qlen`, starting at `last`. */
  function Split(text: string, ps: seq<int>, qlen: nat, last: int): seq<Part>
  {
    if ps == [] then [Plain(Slice(text, last, |text|))]
    else [Plain(Slice(text, last, ps[0])), Strong(Slice(text, ps[0], ps[0] + qlen))] +
         Split(text, ps[1..], qlen, ps[0] + qlen)
  }

  /** One turn of the highlight loop: the next match, then the rest from its end. */
  lemma PositionsStep(nv: string, q: string, from: int, pos: int, next: int)
    requires |q| > 0 && pos == IndexOf(nv, q, from) && pos != -1 && next == pos + |q|
    ensures PositionsFrom(nv, q, from) == [pos] + PositionsFrom(nv, q, next)
  {
  }

  lemma SplitCons(text: string, p: int, rest: seq<int>, qlen: nat, last: int)
    ensures Split(text, [p] + rest, qlen, last)
      == [Plain(Slice(text, last, p)), Strong(Slice(text, p, p + qlen))] + Split(text, rest, qlen, p + qlen)
  {
    assert ([p] + rest)[1..] == rest;
  }

  lemma AppendPair<T>(parts: seq<T>, a: T, b: T, tail: seq<T>, whole: seq<T>)
    requires parts + ([a, b] + tail) == whole
    ensures parts + [a] + [b] + tail == whole
  {
    assert parts + [a] + [b] + tail == parts + ([a, b] + tail);
  }

  /** One turn of the highlight loop keeps the parts built so far, followed by
      the parts still to come, equal to the whole split. */
  lemma HighlightTurn(text: string, nv: string, q: string, lastIndex: int, pos: int, nextIndex: int,
                      parts: seq<Part>, next: seq<Part>, whole: seq<Part>)
    requires |q| > 0 && pos == IndexOf(nv, q, lastIndex) && pos != -1 && nextIndex == pos + |q|
    requires parts + Split(text, PositionsFrom(nv, q, lastIndex), |q|, lastIndex) == whole
    requires next == parts + [Plain(Slice(text, lastIndex, pos))] + [Strong(Slice(text, pos, pos + |q|))]
    ensures lastIndex < nextIndex <= |nv|
    ensures next + Split(text, PositionsFrom(nv, q, nextIndex), |q|, nextIndex) == whole
  {
    var rest := PositionsFrom(nv, q, nextIndex);
    PositionsStep(nv, q, lastIndex, pos, nextIndex);
    SplitCons(text, pos, rest, |q|, lastIndex);
    var tail := Split(text, rest, |q|, nextIndex);
    assert Split(text, PositionsFrom(nv, q, lastIndex), |q|, lastIndex)
      == [Plain(Slice(text, lastIndex, pos)), Strong(Slice(text, pos, nextIndex))] + tail;
    AppendPair(parts, Plain(Slice(text, lastIndex, pos)), Strong(Slice(text, pos, nextIndex)), tail, whole);
  }

  /** Once no match is left, the rest of the split is the plain tail. */
  lemma HighlightDone(text: string, nv: string, q: string, lastIndex: int)
    requires |q| == 0 || IndexOf(nv, q, lastIndex) == -1
    ensures Split(text, PositionsFrom(nv, q, lastIndex), |q|, lastIndex) == [Plain(Slice(text, lastIndex, |text|))]
  {
  }

  /** The highlight loop of the results list, with the loop skipped when the
      normalized query is empty. */
  method Highlight(r: SearchResult) returns (parts: seq<Part>)
    ensures parts == Split(r.text, HighlightPositions(r.normalizedVerse, r.normalizedQuery), |r.normalizedQuery|, 0)
  {
    var text, nv, q := r.text, r.normalizedVerse, r.normalizedQuery;
    ghost var whole := Split(text, HighlightPositions(nv, q), |q|, 0);
    parts := [];
    var lastIndex := 0;
    var pos := if |q| == 0 then -1 else IndexOf(nv, q, 0);
    assert parts + whole == whole;

    while pos != -1
      invariant |q| > 0 || pos == -1
      invariant |q| > 0 ==> pos == IndexOf(nv, q, lastIndex)
      invariant parts + Split(text, PositionsFrom(nv, q, lastIndex), |q|, lastIndex) == whole
      decreases |nv| - lastIndex
    {
      ghost var before, start := parts, lastIndex;
      parts := parts + [Plain(Slice(text, lastIndex, pos))];
      var matched := Slice(text, pos, pos + |q|);
      parts := parts + [Strong(matched)];
      lastIndex := pos + |q|;
      HighlightTurn(text, nv, q, start, pos, lastIndex, before, parts, whole);
      pos := IndexOf(nv, q, lastIndex);
    }

    HighlightDone(text, nv, q, lastIndex);
    parts := parts + [Plain(Slice(text, lastIndex, |text|))];
  }

  /** The position `handleGoTo` leads to: nothing changes when no book has
      the result's book name; otherwise `selectChapter` then the verse. */
  function GoToPos(books: seq<Book>, r: SearchResult, p: Position): (g: Position)
  {
    match FindByName(books, r.book)
    case None => p
    case Some(b) => Position(Some(b), ClampChapter(b, r.chapter), r.verse)
  }

  /** An unknown book name leaves the position unchanged; otherwise the jump
      lands on a corpus book with the result's name, at the result's verse, and
      at the result's chapter when that exists (a clamped one otherwise). */
  lemma GoToPosSpec(books: seq<Book>, r: SearchResult, p: Position)
    ensures (forall j :: 0 <= j < |books| ==> books[j].name != r.book) ==> GoToPos(books, r, p) == p
    ensures (exists j :: 0 <= j < |books| && books[j].name == r.book) ==>
      GoToPos(books, r, p).book.Some? && GoToPos(books, r, p).book.value in books &&
      GoToPos(books, r, p).book.value.name == r.book && GoToPos(books, r, p).verse == r.verse
    ensures (exists j :: 0 <= j < |books| && books[j].name == r.book) ==>
      1 <= GoToPos(books, r, p).chapter &&
      (GoToPos(books, r, p).chapter <= |GoToPos(books, r, p).book.value.chapters| || GoToPos(books, r, p).chapter == 1) &&
      (1 <= r.chapter <= |GoToPos(books, r, p).book.value.chapters| ==> GoToPos(books, r, p).chapter == r.chapter)
  {
  }

  /** The search box: query, scope, the last results, and whether a search ran.
      `normalize` stands for the diacritic- and case-folding normalization. */
  class SearchPanel {
    const normalize: string -> string
    var query: string
    var scope: Scope
    var results: seq<SearchResult>
    var hasSearched: bool

    constructor (normalize: string -> string)
      ensures this.normalize == normalize
      ensures query == "" && scope == InChapter && results == [] && !hasSearched
    {
      this.normalize := normalize;
      query := "";
      scope := InChapter;
      results := [];
      hasSearched := false;
    }

    method SetQuery(q: string)
      modifies this
      ensures query == q && scope == old(scope) && results == old(results) && hasSearched == old(hasSearched)
    {
      query := q;
    }

    method SetScope(s: Scope)
      modifies this
      ensures scope == s && query == old(query) && results == old(results) && hasSearched == old(hasSearched)
    {
      scope := s;
    }

    /** `handleSearch`: a blank query does nothing; otherwise the matches of the
      scoped books replace the results. */
    method HandleSearch(nav: BibleState)
      modifies this
      ensures query == old(query) && scope == old(scope)
      ensures Trim(query) == [] ==> results == old(results) && hasSearched == old(hasSearched)
      ensures Trim(query) != [] ==>
        hasSearched && results == ScopedHits(scope, nav.books, nav.selectedBook, nav.selectedChapter, normalize, normalize(query))
    {
      if Trim(query) == [] {
        return;
      }
      var normalizedQuery := normalize(query);
      var searchBooks := SearchBooks(scope, nav.books, nav.selectedBook, nav.selectedChapter);
      var found := Collect(searchBooks, normalize, normalizedQuery);
      results := found;
      hasSearched := true;
    }

    /** `clearSearch`. */
    method ClearSearch()
      modifies this
      ensures query == "" && results == [] && !hasSearched && scope == old(scope)
    {
      query := "";
      results := [];
      hasSearched := false;
    }

    /** `handleGoTo`: find the result's book by name in the current corpus and
      move there; the verse is set after the chapter, so it is not reset. */
    method GoTo(nav: BibleState, r: SearchResult)
      requires nav.Valid()
      modifies nav
      ensures nav.Valid()
      ensures nav.version == old(nav.version) && nav.books == old(nav.books)
      ensures nav.Pos() == GoToPos(nav.books, r, old(nav.Pos()))
    {
      var bookObj := FindByName(nav.books, r.book);
      if bookObj.None? {
        return;
      }
      nav.SelectChapter(bookObj.value, r.chapter);
      nav.SetSelectedVerse(r.verse);
    }
  }
}
