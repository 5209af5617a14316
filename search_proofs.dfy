/** Properties of verse search: what is collected and in which order, what
    each scope restricts the search to, the highlight loop, and jumping to a result. */
module SearchProofs {
  import opened Corpus
  import opened Text
  import opened Navigation
  import opened Search

  lemma SortedAppend(a: seq<Loc>, b: seq<Loc>)
    requires Sorted(a) && Sorted(b)
    requires forall x, y :: x in a && y in b ==> Before(x, y)
    ensures Sorted(a + b)
  {
    forall i, j | 0 <= i < j < |a + b| ensures Before((a + b)[i], (a + b)[j]) {
      if j < |a| {
      } else if i >= |a| {
        assert (a + b)[i] == b[i - |a|] && (a + b)[j] == b[j - |a|];
      } else {
        assert (a + b)[i] in a && (a + b)[j] in b;
      }
    }
  }

  lemma VerseLocsSpec(books: seq<Book>, normalize: string -> string, nq: string, bi: nat, ci: nat, n: nat)
    requires bi < |books| && ci < |books[bi].chapters| && n <= |books[bi].chapters[ci]|
    ensures forall l :: l in VerseLocs(books, normalize, nq, bi, ci, n) <==>
      l.book == bi && l.chapter == ci && l.verse < n && IsMatch(books, normalize, nq, l)
    ensures Sorted(VerseLocs(books, normalize, nq, bi, ci, n))
  {
    VerseLocsMembers(books, normalize, nq, bi, ci, n);
    VerseLocsSorted(books, normalize, nq, bi, ci, n);
  }

  lemma {:induction false} VerseLocsMembers(books: seq<Book>, normalize: string -> string, nq: string, bi: nat, ci: nat, n: nat)
    requires bi < |books| && ci < |books[bi].chapters| && n <= |books[bi].chapters[ci]|
    ensures forall l :: l in VerseLocs(books, normalize, nq, bi, ci, n) <==>
      l.book == bi && l.chapter == ci && l.verse < n && IsMatch(books, normalize, nq, l)
  {
    if n > 0 {
      VerseLocsMembers(books, normalize, nq, bi, ci, n - 1);
      var prefix := VerseLocs(books, normalize, nq, bi, ci, n - 1);
      var l := Loc(bi, ci, n - 1);
      var r := VerseLocs(books, normalize, nq, bi, ci, n);
      if IsMatch(books, normalize, nq, l) {
        assert r == prefix + [l];
        forall m ensures m in r <==> m.book == bi && m.chapter == ci && m.verse < n && IsMatch(books, normalize, nq, m) {
          assert m in r <==> m in prefix || m == l;
        }
      } else {
        assert r == prefix;
        forall m ensures m in r <==> m.book == bi && m.chapter == ci && m.verse < n && IsMatch(books, normalize, nq, m) {
          if m.book == bi && m.chapter == ci && m.verse == n - 1 {
            assert m == l;
          }
        }
      }
    }
  }

  lemma {:induction false} VerseLocsSorted(books: seq<Book>, normalize: string -> string, nq: string, bi: nat, ci: nat, n: nat)
    requires bi < |books| && ci < |books[bi].chapters| && n <= |books[bi].chapters[ci]|
    ensures Sorted(VerseLocs(books, normalize, nq, bi, ci, n))
  {
    if n > 0 {
      VerseLocsSorted(books, normalize, nq, bi, ci, n - 1);
      var prefix := VerseLocs(books, normalize, nq, bi, ci, n - 1);
      var l := Loc(bi, ci, n - 1);
      if IsMatch(books, normalize, nq, l) {
        VerseLocsMembers(books, normalize, nq, bi, ci, n - 1);
        assert VerseLocs(books, normalize, nq, bi, ci, n) == prefix + [l];
        SortedAppend(prefix, [l]);
      }
    }
  }

  lemma {:induction false} ChapterLocsSpec(books: seq<Book>, normalize: string -> string, nq: string, bi: nat, n: nat)
    requires bi < |books| && n <= |books[bi].chapters|
    ensures forall l :: l in ChapterLocs(books, normalize, nq, bi, n) <==>
      l.book == bi && l.chapter < n && IsMatch(books, normalize, nq, l)
    ensures Sorted(ChapterLocs(books, normalize, nq, bi, n))
  {
    if n > 0 {
      ChapterLocsSpec(books, normalize, nq, bi, n - 1);
      VerseLocsSpec(books, normalize, nq, bi, n - 1, |books[bi].chapters[n - 1]|);
      SortedAppend(ChapterLocs(books, normalize, nq, bi, n - 1),
        VerseLocs(books, normalize, nq, bi, n - 1, |books[bi].chapters[n - 1]|));
    }
  }

  lemma {:induction false} BookLocsSpec(books: seq<Book>, normalize: string -> string, nq: string, n: nat)
    requires n <= |books|
    ensures forall l :: l in BookLocs(books, normalize, nq, n) <==> l.book < n && IsMatch(books, normalize, nq, l)
    ensures Sorted(BookLocs(books, normalize, nq, n))
  {
    if n > 0 {
      BookLocsSpec(books, normalize, nq, n - 1);
      ChapterLocsSpec(books, normalize, nq, n - 1, |books[n - 1].chapters|);
      SortedAppend(BookLocs(books, normalize, nq, n - 1),
        ChapterLocs(books, normalize, nq, n - 1, |books[n - 1].chapters|));
    }
  }

  /** The searched verses are exactly the matching ones, each once, in book,
      chapter, verse order. */
  lemma MatchLocsSpec(books: seq<Book>, normalize: string -> string, nq: string)
    ensures forall l :: l in MatchLocs(books, normalize, nq) <==> IsMatch(books, normalize, nq, l)
    ensures Sorted(MatchLocs(books, normalize, nq))
    ensures forall i, j :: 0 <= i < j < |MatchLocs(books, normalize, nq)| ==>
      MatchLocs(books, normalize, nq)[i] != MatchLocs(books, normalize, nq)[j]
  {
    BookLocsSpec(books, normalize, nq, |books|);
  }

  lemma {:induction false} RecordsIndex(books: seq<Book>, locs: seq<Loc>, normalize: string -> string, nq: string)
    requires forall l :: l in locs ==> ValidLoc(books, l)
    ensures |Records(books, locs, normalize, nq)| == |locs|
    ensures forall k :: 0 <= k < |locs| ==> Records(books, locs, normalize, nq)[k] == RecordAt(books, locs[k], normalize, nq)
    decreases |locs|
  {
    if locs != [] {
      var init := locs[..|locs| - 1];
      RecordsIndex(books, init, normalize, nq);
      var rs, prev := Records(books, locs, normalize, nq), Records(books, init, normalize, nq);
      assert rs == prev + [RecordAt(books, locs[|locs| - 1], normalize, nq)];
      forall k | 0 <= k < |locs| ensures rs[k] == RecordAt(books, locs[k], normalize, nq) {
        if k < |locs| - 1 {
          assert rs[k] == prev[k] && locs[k] == init[k];
        }
      }
    }
  }

  /** The `k`-th result is the record of the `k`-th matching verse: its book's
      name, its 1-based chapter and verse numbers, its original text. */
  lemma ResultAt(sb: seq<Book>, normalize: string -> string, nq: string, k: int)
    requires 0 <= k < |MatchLocs(sb, normalize, nq)|
    ensures |Hits(sb, normalize, nq)| == |MatchLocs(sb, normalize, nq)|
    ensures IsMatch(sb, normalize, nq, MatchLocs(sb, normalize, nq)[k])
    ensures Hits(sb, normalize, nq)[k] == RecordAt(sb, MatchLocs(sb, normalize, nq)[k], normalize, nq)
  {
    var locs := MatchLocs(sb, normalize, nq);
    MatchLocsSpec(sb, normalize, nq);
    RecordsIndex(sb, locs, normalize, nq);
    assert locs[k] in locs;
  }

  /** Every matching verse has its record among the results. */
  lemma MatchFound(sb: seq<Book>, normalize: string -> string, nq: string, l: Loc)
    requires IsMatch(sb, normalize, nq, l)
    ensures exists k :: 0 <= k < |Hits(sb, normalize, nq)| && Hits(sb, normalize, nq)[k] == RecordAt(sb, l, normalize, nq)
  {
    var locs := MatchLocs(sb, normalize, nq);
    MatchLocsSpec(sb, normalize, nq);
    RecordsIndex(sb, locs, normalize, nq);
    var k :| 0 <= k < |locs| && locs[k] == l;
    assert Hits(sb, normalize, nq)[k] == RecordAt(sb, l, normalize, nq);
  }

  /** Every result is the record of a matching verse of `sb`. */
  lemma HitSound(sb: seq<Book>, normalize: string -> string, nq: string, r: SearchResult)
    requires r in Hits(sb, normalize, nq)
    ensures exists l :: IsMatch(sb, normalize, nq, l) && r == RecordAt(sb, l, normalize, nq)
  {
    var rs := Hits(sb, normalize, nq);
    var k :| 0 <= k < |rs| && rs[k] == r;
    ResultAt(sb, normalize, nq, k);
    var l := MatchLocs(sb, normalize, nq)[k];
    assert IsMatch(sb, normalize, nq, l) && r == RecordAt(sb, l, normalize, nq);
  }

  /** "book" or "chapter" scope with no selected book searches nothing. */
  lemma NoBookNoResults(scope: Scope, books: seq<Book>, selectedChapter: int, normalize: string -> string, nq: string)
    requires scope != InBible
    ensures ScopedHits(scope, books, None, selectedChapter, normalize, nq) == []
  {
    assert SearchBooks(scope, books, None, selectedChapter) == [];
  }

  /** "bible" scope searches every book of the corpus, whatever is selected. */
  lemma BibleScopeResults(books: seq<Book>, selectedBook: Option<Book>, selectedChapter: int,
                          normalize: string -> string, nq: string)
    ensures ScopedHits(InBible, books, selectedBook, selectedChapter, normalize, nq) == Hits(books, normalize, nq)
  {
  }

  /** "book" scope: every record comes from the selected book, with its real
      chapter and verse. */
  lemma BookScopeSound(books: seq<Book>, b: Book, selectedChapter: int, normalize: string -> string, nq: string,
                       r: SearchResult)
    requires r in ScopedHits(InBook, books, Some(b), selectedChapter, normalize, nq)
    ensures r.book == b.name && 1 <= r.chapter <= |b.chapters| && 1 <= r.verse <= |b.chapters[r.chapter - 1]|
    ensures r.text == b.chapters[r.chapter - 1][r.verse - 1]
    ensures Contains(normalize(r.text), nq)
  {
    var sb := SearchBooks(InBook, books, Some(b), selectedChapter);
    assert sb == [b];
    HitSound(sb, normalize, nq, r);
  }

  /** "book" scope: every matching verse of the selected book is found. */
  lemma BookScopeComplete(books: seq<Book>, b: Book, selectedChapter: int, normalize: string -> string, nq: string,
                          ci: int, vi: int)
    requires 0 <= ci < |b.chapters| && 0 <= vi < |b.chapters[ci]| && Contains(normalize(b.chapters[ci][vi]), nq)
    ensures exists k :: (0 <= k < |ScopedHits(InBook, books, Some(b), selectedChapter, normalize, nq)| &&
      ScopedHits(InBook, books, Some(b), selectedChapter, normalize, nq)[k] ==
        SearchResult(b.name, ci + 1, vi + 1, b.chapters[ci][vi], normalize(b.chapters[ci][vi]), nq))
  {
    var sb := SearchBooks(InBook, books, Some(b), selectedChapter);
    assert sb == [b];
    assert ScopedHits(InBook, books, Some(b), selectedChapter, normalize, nq) == Hits(sb, normalize, nq);
    var l := Loc(0, ci, vi);
    assert IsMatch(sb, normalize, nq, l);
    assert RecordAt(sb, l, normalize, nq) ==
      SearchResult(b.name, ci + 1, vi + 1, b.chapters[ci][vi], normalize(b.chapters[ci][vi]), nq);
    MatchFound(sb, normalize, nq, l);
  }

  /** "chapter" scope: every record comes from the selected chapter of the
      selected book, yet is labelled chapter 1, because the scoped book is
      rebuilt with that chapter as its first. */
  lemma ChapterScopeSound(books: seq<Book>, b: Book, selectedChapter: int, normalize: string -> string, nq: string,
                          r: SearchResult)
    requires r in ScopedHits(InChapter, books, Some(b), selectedChapter, normalize, nq)
    ensures r.book == b.name && r.chapter == 1
    ensures 1 <= r.verse <= |ChapterAt(b, selectedChapter)| && r.text == ChapterAt(b, selectedChapter)[r.verse - 1]
    ensures Contains(normalize(r.text), nq)
  {
    var sb := SearchBooks(InChapter, books, Some(b), selectedChapter);
    assert sb == [Book(b.name, [ChapterAt(b, selectedChapter)])];
    HitSound(sb, normalize, nq, r);
    var l :| IsMatch(sb, normalize, nq, l) && r == RecordAt(sb, l, normalize, nq);
    ChapterRecord(b, selectedChapter, sb, normalize, nq, l, r);
  }

  /** The record of a matching verse of the one-chapter copy of `b`. */
  lemma ChapterRecord(b: Book, selectedChapter: int, sb: seq<Book>, normalize: string -> string, nq: string,
                      l: Loc, r: SearchResult)
    requires sb == [Book(b.name, [ChapterAt(b, selectedChapter)])]
    requires IsMatch(sb, normalize, nq, l) && r == RecordAt(sb, l, normalize, nq)
    ensures r.book == b.name && r.chapter == 1
    ensures 1 <= r.verse <= |ChapterAt(b, selectedChapter)| && r.text == ChapterAt(b, selectedChapter)[r.verse - 1]
    ensures Contains(normalize(r.text), nq)
  {
    assert l.book == 0 && l.chapter == 0;
  }

  /** "chapter" scope: every matching verse of the selected chapter is found. */
  lemma ChapterScopeComplete(books: seq<Book>, b: Book, selectedChapter: int, normalize: string -> string, nq: string,
                             vi: int)
    requires 0 <= vi < |ChapterAt(b, selectedChapter)| && Contains(normalize(ChapterAt(b, selectedChapter)[vi]), nq)
    ensures exists k :: (0 <= k < |ScopedHits(InChapter, books, Some(b), selectedChapter, normalize, nq)| &&
      ScopedHits(InChapter, books, Some(b), selectedChapter, normalize, nq)[k] ==
        SearchResult(b.name, 1, vi + 1, ChapterAt(b, selectedChapter)[vi], normalize(ChapterAt(b, selectedChapter)[vi]), nq))
  {
    var vs := ChapterAt(b, selectedChapter);
    var sb := SearchBooks(InChapter, books, Some(b), selectedChapter);
    assert sb == [Book(b.name, [vs])];
    assert ScopedHits(InChapter, books, Some(b), selectedChapter, normalize, nq) == Hits(sb, normalize, nq);
    var l := Loc(0, 0, vi);
    assert IsMatch(sb, normalize, nq, l);
    assert RecordAt(sb, l, normalize, nq) == SearchResult(b.name, 1, vi + 1, vs[vi], normalize(vs[vi]), nq);
    MatchFound(sb, normalize, nq, l);
  }

  /** "chapter" scope: nothing is found when the selected chapter does not exist. */
  lemma ChapterScopeMissing(books: seq<Book>, b: Book, selectedChapter: int, normalize: string -> string, nq: string)
    requires !(1 <= selectedChapter <= |b.chapters|)
    ensures ScopedHits(InChapter, books, Some(b), selectedChapter, normalize, nq) == []
  {
    var sb := SearchBooks(InChapter, books, Some(b), selectedChapter);
    assert sb == [Book(b.name, [[]])];
    assert VerseLocs(sb, normalize, nq, 0, 0, 0) == [];
    assert ChapterLocs(sb, normalize, nq, 0, 1) == [];
    assert BookLocs(sb, normalize, nq, 1) == [];
  }

  /** Jumping to a result that names a book of the corpus, with a chapter and
      verse that exist in it, lands exactly there. */
  lemma GoToExisting(books: seq<Book>, i: int, r: SearchResult, p: Position)
    requires UniqueNames(books) && 0 <= i < |books| && r.book == books[i].name
    requires 1 <= r.chapter <= |books[i].chapters| && 1 <= r.verse <= |ChapterAt(books[i], r.chapter)|
    ensures GoToPos(books, r, p) == Position(Some(books[i]), r.chapter, r.verse)
    ensures InRange(GoToPos(books, r, p))
  {
    IndexOfOwnName(books, i);
  }

  /** Jumping to any "bible"-scope result lands exactly on the verse it came
      from, a displayable position. */
  lemma GoToBibleResult(books: seq<Book>, normalize: string -> string, nq: string, r: SearchResult, p: Position)
    requires UniqueNames(books)
    requires r in Hits(books, normalize, nq)
    ensures GoToPos(books, r, p).book.Some? && GoToPos(books, r, p).book.value in books
    ensures GoToPos(books, r, p).book.value.name == r.book
    ensures GoToPos(books, r, p).chapter == r.chapter && GoToPos(books, r, p).verse == r.verse
    ensures InRange(GoToPos(books, r, p))
    ensures 1 <= r.verse <= |ChapterAt(GoToPos(books, r, p).book.value, r.chapter)|
    ensures ChapterAt(GoToPos(books, r, p).book.value, r.chapter)[r.verse - 1] == r.text
  {
    HitSound(books, normalize, nq, r);
    var l :| IsMatch(books, normalize, nq, l) && r == RecordAt(books, l, normalize, nq);
    RecordAtSpec(books, l, normalize, nq);
    GoToVerseOf(books, l.book, r, p);
  }

  /** Jumping to any "book"-scope result found in a book of the corpus lands
      exactly on the verse it came from. */
  lemma GoToBookResult(books: seq<Book>, i: int, selectedChapter: int, normalize: string -> string, nq: string,
                       r: SearchResult, p: Position)
    requires UniqueNames(books) && 0 <= i < |books|
    requires r in ScopedHits(InBook, books, Some(books[i]), selectedChapter, normalize, nq)
    ensures 1 <= r.chapter <= |books[i].chapters| && 1 <= r.verse <= |ChapterAt(books[i], r.chapter)|
    ensures ChapterAt(books[i], r.chapter)[r.verse - 1] == r.text
    ensures GoToPos(books, r, p) == Position(Some(books[i]), r.chapter, r.verse)
    ensures InRange(GoToPos(books, r, p))
  {
    BookScopeSound(books, books[i], selectedChapter, normalize, nq, r);
    GoToVerseOf(books, i, r, p);
  }

  /** A result carrying a verse of the i-th book, with that verse's numbers, leads to it. */
  lemma GoToVerseOf(books: seq<Book>, i: int, r: SearchResult, p: Position)
    requires UniqueNames(books) && 0 <= i < |books|
    requires r.book == books[i].name && 1 <= r.chapter <= |books[i].chapters| && 1 <= r.verse <= |books[i].chapters[r.chapter - 1]|
    requires r.text == books[i].chapters[r.chapter - 1][r.verse - 1]
    ensures 1 <= r.chapter <= |books[i].chapters| && 1 <= r.verse <= |ChapterAt(books[i], r.chapter)|
    ensures ChapterAt(books[i], r.chapter)[r.verse - 1] == r.text
    ensures GoToPos(books, r, p) == Position(Some(books[i]), r.chapter, r.verse)
    ensures InRange(GoToPos(books, r, p))
  {
    assert ChapterAt(books[i], r.chapter) == books[i].chapters[r.chapter - 1];
    GoToExisting(books, i, r, p);
  }

  /** Jumping to any "chapter"-scope result found in a book of the corpus
      lands in chapter 1 of that book, whichever chapter was searched. */
  lemma GoToChapterResult(books: seq<Book>, i: int, selectedChapter: int, normalize: string -> string, nq: string,
                          r: SearchResult, p: Position)
    requires UniqueNames(books) && 0 <= i < |books|
    requires r in ScopedHits(InChapter, books, Some(books[i]), selectedChapter, normalize, nq)
    ensures GoToPos(books, r, p) == Position(Some(books[i]), 1, r.verse)
  {
    ChapterScopeSound(books, books[i], selectedChapter, normalize, nq, r);
    IndexOfOwnName(books, i);
  }

  /** A result whose book name is not in the corpus leaves the position alone. */
  lemma GoToUnknownBook(books: seq<Book>, r: SearchResult, p: Position)
    requires forall j :: 0 <= j < |books| ==> books[j].name != r.book
    ensures GoToPos(books, r, p) == p
  {
  }

  /** The parts of positions that never go backwards reassemble the text from `last` on. */
  lemma {:induction false} SplitStrip(text: string, ps: seq<int>, qlen: nat, last: int)
    requires 0 <= last
    requires |ps| > 0 ==> last <= ps[0]
    requires forall k :: 0 <= k < |ps| - 1 ==> ps[k] + qlen <= ps[k + 1]
    ensures Strip(Split(text, ps, qlen, last)) == Slice(text, last, |text|)
    decreases |ps|
  {
    if ps != [] {
      var p, rest := ps[0], ps[1..];
      OrderedTail(ps, qlen);
      SplitStrip(text, rest, qlen, p + qlen);
      var tail := Split(text, rest, qlen, p + qlen);
      assert Split(text, ps, qlen, last) == [Plain(Slice(text, last, p)), Strong(Slice(text, p, p + qlen))] + tail;
      StripStep(text, last, p, qlen, tail);
    }
  }

  lemma OrderedTail(ps: seq<int>, qlen: nat)
    requires ps != []
    requires forall k :: 0 <= k < |ps| - 1 ==> ps[k] + qlen <= ps[k + 1]
    ensures forall k :: 0 <= k < |ps[1..]| - 1 ==> ps[1..][k] + qlen <= ps[1..][k + 1]
  {
    var rest := ps[1..];
    forall k | 0 <= k < |rest| - 1 ensures rest[k] + qlen <= rest[k + 1] {
      assert rest[k] == ps[k + 1] && rest[k + 1] == ps[k + 2];
    }
  }

  /** The gap before a match, the match and the stripped rest make up the text from `last` on. */
  lemma StripStep(text: string, last: int, p: int, qlen: nat, tail: seq<Part>)
    requires 0 <= last <= p
    requires Strip(tail) == Slice(text, p + qlen, |text|)
    ensures Strip([Plain(Slice(text, last, p)), Strong(Slice(text, p, p + qlen))] + tail) == Slice(text, last, |text|)
  {
    SliceThree(text, last, p, p + qlen);
    StripPair(Slice(text, last, p), Slice(text, p, p + qlen), tail, Slice(text, p + qlen, |text|), Slice(text, last, |text|));
  }

  lemma StripPair(a: string, b: string, tail: seq<Part>, rest: string, whole: string)
    requires Strip(tail) == rest && a + (b + rest) == whole
    ensures Strip([Plain(a), Strong(b)] + tail) == whole
  {
    var parts := [Plain(a), Strong(b)] + tail;
    assert parts[1..] == [Strong(b)] + tail;
    assert parts[1..][1..] == tail;
  }

  /** The highlighted verse, markup removed, is the verse text, whatever the
      normalizer and whichever positions match. */
  lemma HighlightRoundTrip(r: SearchResult)
    ensures Strip(Split(r.text, HighlightPositions(r.normalizedVerse, r.normalizedQuery), |r.normalizedQuery|, 0)) == r.text
  {
    if |r.normalizedQuery| > 0 {
      PositionsSpec(r.normalizedVerse, r.normalizedQuery, 0);
      assert HighlightPositions(r.normalizedVerse, r.normalizedQuery) == Positions(r.normalizedVerse, r.normalizedQuery, 0);
    }
    SplitStrip(r.text, HighlightPositions(r.normalizedVerse, r.normalizedQuery), |r.normalizedQuery|, 0);
    SliceAll(r.text);
  }

  /** The positions visited from `from` on are occurrences of `q` at or after
      `from`, each starting after the previous one ends. */
  lemma {:induction false} PositionsSpec(nv: string, q: string, from: int)
    requires |q| > 0
    ensures forall k :: 0 <= k < |Positions(nv, q, from)| ==>
      from <= Positions(nv, q, from)[k] && MatchesAt(nv, q, Positions(nv, q, from)[k])
    ensures forall k :: 0 <= k < |Positions(nv, q, from)| - 1 ==>
      Positions(nv, q, from)[k] + |q| <= Positions(nv, q, from)[k + 1]
    decreases |nv| - from
  {
    var pos := IndexOf(nv, q, from);
    IndexOfSpec(nv, q, from);
    if pos != -1 {
      var rest := Positions(nv, q, pos + |q|);
      PositionsSpec(nv, q, pos + |q|);
      var ps := Positions(nv, q, from);
      assert ps == [pos] + rest;
      assert from <= pos && MatchesAt(nv, q, pos);
      forall k | 0 <= k < |ps| ensures from <= ps[k] && MatchesAt(nv, q, ps[k]) {
        if k > 0 {
          assert ps[k] == rest[k - 1];
        }
      }
      forall k | 0 <= k < |ps| - 1 ensures ps[k] + |q| <= ps[k + 1] {
        assert ps[k + 1] == rest[k];
        if k > 0 {
          assert ps[k] == rest[k - 1];
        }
      }
    }
  }

  /** Position `j` is the start of one of the matches of length `qlen` at `ps`, or lies inside one. */
  predicate Covered(ps: seq<int>, qlen: nat, j: int)
  {
    exists k :: 0 <= k < |ps| && ps[k] <= j < ps[k] + qlen
  }

  lemma CoveredCons(p: int, rest: seq<int>, qlen: nat, j: int)
    requires p <= j < p + qlen || Covered(rest, qlen, j)
    ensures Covered([p] + rest, qlen, j)
  {
    var ps := [p] + rest;
    if p <= j < p + qlen {
      assert ps[0] <= j < ps[0] + qlen;
    } else {
      var k :| 0 <= k < |rest| && rest[k] <= j < rest[k] + qlen;
      assert ps[k + 1] == rest[k];
    }
  }

  /** Every occurrence of `q` at or after `from` is found or begins inside one
      that was, so it overlaps a highlighted match. Overlapping occurrences are
      not highlighted separately. */
  lemma {:induction false} PositionsComplete(nv: string, q: string, from: int, j: int)
    requires |q| > 0
    requires from <= j && MatchesAt(nv, q, j)
    ensures Covered(Positions(nv, q, from), |q|, j)
    decreases |nv| - from
  {
    var pos := IndexOf(nv, q, from);
    assert pos != -1 && pos <= j by {
      IndexOfSpec(nv, q, from);
    }
    var rest := Positions(nv, q, pos + |q|);
    assert Positions(nv, q, from) == [pos] + rest;
    if pos + |q| <= j {
      PositionsComplete(nv, q, pos + |q|, j);
    }
    CoveredCons(pos, rest, |q|, j);
  }

  /** What the highlight loop visits: occurrences of the normalized query in
      the normalized verse, strictly increasing and non-overlapping, with
      every occurrence found or inside a found one; none for an empty query. */
  lemma HighlightPositionsSpec(nv: string, q: string)
    ensures |q| == 0 ==> HighlightPositions(nv, q) == []
    ensures forall k :: 0 <= k < |HighlightPositions(nv, q)| ==> MatchesAt(nv, q, HighlightPositions(nv, q)[k])
    ensures forall k :: 0 <= k < |HighlightPositions(nv, q)| - 1 ==>
      HighlightPositions(nv, q)[k] + |q| <= HighlightPositions(nv, q)[k + 1]
    ensures |q| > 0 ==> forall j :: MatchesAt(nv, q, j) ==> Covered(HighlightPositions(nv, q), |q|, j)
  {
    if |q| > 0 {
      PositionsSpec(nv, q, 0);
      assert HighlightPositions(nv, q) == Positions(nv, q, 0);
      forall j | MatchesAt(nv, q, j) ensures Covered(HighlightPositions(nv, q), |q|, j) {
        PositionsComplete(nv, q, 0, j);
      }
    }
  }

  /** With an empty normalized query every verse is a hit. */
  lemma EmptyQueryMatchesEveryVerse(books: seq<Book>, normalize: string -> string, l: Loc)
    requires ValidLoc(books, l)
    ensures IsMatch(books, normalize, "", l)
  {
  }

  /** One turn of the highlight loop as the results list writes it:
      `lastIndex = pos + q.length; pos = indexOf(q, lastIndex)`. */
  function AsWrittenTurn(nv: string, q: string, pos: int): (next: (int, int))
    ensures next.1 == -1 || next.1 >= 0
  {
    var lastIndex := pos + |q|;
    (lastIndex, IndexOf(nv, q, lastIndex))
  }

  /** As written, the loop with an empty normalized query starts at position 0
      and every turn leaves it at 0, so it never reaches -1. */
  lemma AsWrittenLoopStuckOnEmptyQuery(nv: string)
    ensures IndexOf(nv, "", 0) == 0
    ensures AsWrittenTurn(nv, "", 0) == (0, 0)
  {
  }
}
