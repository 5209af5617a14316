/** Properties of the reading-position transitions. */
module NavigationProofs {
  import opened Corpus
  import opened Navigation

  /** Stepping forward keeps a displayable position displayable. */
  lemma NextPreservesInRange(books: seq<Book>, p: Position)
    requires HasChapters(books)
    requires InRange(p)
    ensures InRange(NextPos(books, p))
  {
  }

  /** Stepping backward keeps a displayable position displayable. */
  lemma PrevPreservesInRange(books: seq<Book>, p: Position)
    requires HasChapters(books)
    requires InRange(p)
    ensures InRange(PrevPos(books, p))
  {
  }

  /** Stepping forward and then back returns to the start, including across
      chapters, books and the wrap from the last verse of the corpus to 1:1 of
      the first book. */
  lemma PrevAfterNext(books: seq<Book>, i: int, p: Position)
    requires HasChapters(books) && UniqueNames(books)
    requires 0 <= i < |books| && p.book == Some(books[i])
    requires InRange(p)
    ensures PrevPos(books, NextPos(books, p)) == p
  {
    var b := books[i];
    var q := NextPos(books, p);
    IndexOfOwnName(books, i);
    if p.verse < |ChapterAt(b, p.chapter)| {
    } else if p.chapter < |b.chapters| {
      assert q == Position(p.book, p.chapter + 1, 1);
    } else if i + 1 < |books| {
      assert q == Position(Some(books[i + 1]), 1, 1);
      IndexOfOwnName(books, i + 1);
      assert PrevPos(books, q) == LastPosition(books[i]);
    } else {
      assert q == Position(Some(books[0]), 1, 1);
      IndexOfOwnName(books, 0);
      assert PrevPos(books, q) == LastPosition(books[|books| - 1]);
    }
  }

  /** Stepping backward and then forward returns to the start, including the
      wrap from 1:1 of the first book to the last verse of the corpus. */
  lemma NextAfterPrev(books: seq<Book>, i: int, p: Position)
    requires HasChapters(books) && UniqueNames(books)
    requires 0 <= i < |books| && p.book == Some(books[i])
    requires InRange(p)
    ensures NextPos(books, PrevPos(books, p)) == p
  {
    var b := books[i];
    var q := PrevPos(books, p);
    IndexOfOwnName(books, i);
    if p.verse > 1 {
    } else if p.chapter > 1 {
      assert q.chapter == p.chapter - 1;
    } else if i >= 1 {
      assert q == LastPosition(books[i - 1]);
      IndexOfOwnName(books, i - 1);
    } else {
      assert q == LastPosition(books[|books| - 1]);
      IndexOfOwnName(books, |books| - 1);
    }
  }

  /** From the last verse of the last book, the next verse is 1:1 of the first book. */
  lemma NextWrapsToFirstBook(books: seq<Book>)
    requires HasChapters(books) && UniqueNames(books) && |books| > 0
    ensures NextPos(books, LastPosition(books[|books| - 1])) == Position(Some(books[0]), 1, 1)
  {
    IndexOfOwnName(books, |books| - 1);
  }

  /** From 1:1 of the first book, the previous verse is the last verse of the last book. */
  lemma PrevWrapsToLastBook(books: seq<Book>)
    requires HasChapters(books) && UniqueNames(books) && |books| > 0
    ensures PrevPos(books, Position(Some(books[0]), 1, 1)) == LastPosition(books[|books| - 1])
  {
    IndexOfOwnName(books, 0);
  }

  /** When the new corpus has a book of the same name: that book is selected,
      the chapter is kept exactly when it exists there (otherwise 1), and the
      verse is kept exactly when it exists in the resulting chapter (otherwise 1). */
  lemma ChangeVersionSameName(newBooks: seq<Book>, p: Position, nb: Book)
    requires HasChapters(newBooks)
    requires p.book.Some? && p.chapter >= 1
    requires FindByName(newBooks, p.book.value.name) == Some(nb)
    ensures ChangeVersionPos(newBooks, p).book == Some(nb)
    ensures ChangeVersionPos(newBooks, p).chapter == (if p.chapter <= |nb.chapters| then p.chapter else 1)
    ensures var r := ChangeVersionPos(newBooks, p);
      r.verse == (if p.verse <= |ChapterAt(nb, r.chapter)| then p.verse else 1)
  {
  }

  /** With no selected book, or none of the same name in the new corpus, the
      position resets to no book, chapter 1, verse 1. */
  lemma ChangeVersionResets(newBooks: seq<Book>, p: Position)
    requires HasChapters(newBooks)
    requires p.book.Some? ==> p.chapter >= 1
    requires p.book.None? || forall j :: 0 <= j < |newBooks| ==> newBooks[j].name != p.book.value.name
    ensures ChangeVersionPos(newBooks, p) == Start
  {
  }

  /** A switch from a valid position always lands on a displayable position
      of a book of the new corpus. */
  lemma ChangeVersionInRange(newBooks: seq<Book>, p: Position)
    requires HasChapters(newBooks)
    requires p.book.Some? ==> p.chapter >= 1 && p.verse >= 1
    ensures InRange(ChangeVersionPos(newBooks, p))
  {
  }

  /** Switching to the same translation twice is the same as switching once. */
  lemma ChangeVersionIdempotent(newBooks: seq<Book>, p: Position)
    requires HasChapters(newBooks)
    requires p.book.Some? ==> p.chapter >= 1
    ensures ChangeVersionPos(newBooks, ChangeVersionPos(newBooks, p)) == ChangeVersionPos(newBooks, p)
  {
    var r := ChangeVersionPos(newBooks, p);
    if r.book.Some? {
      var nb := r.book.value;
      var i := IndexOfName(newBooks, nb.name);
      assert newBooks[i] == nb;
    }
  }

  /** Re-loading the corpus the position already lies in keeps the position. */
  lemma ChangeVersionToSameCorpus(books: seq<Book>, i: int, p: Position)
    requires HasChapters(books) && UniqueNames(books)
    requires 0 <= i < |books| && p.book == Some(books[i])
    requires InRange(p)
    ensures ChangeVersionPos(books, p) == p
  {
    IndexOfOwnName(books, i);
  }

  /** `selectChapter` keeps the verse, so it can leave a displayable position
      pointing past the end of the new chapter. */
  lemma SelectChapterMayLeaveVerseOutOfRange()
    ensures var b := Book("Rute", [["a", "b"], ["c"]]);
      var p := Position(Some(b), 1, 2);
      InRange(p) && !InRange(Position(Some(b), ClampChapter(b, 2), p.verse))
  {
  }

  /** `selectBook` lands on a displayable position exactly when the book has a chapter. */
  lemma SelectBookInRange(b: Book)
    ensures InRange(Position(Some(b), 1, 1)) <==> |b.chapters| >= 1
  {
  }

  /* Reading order. Repeated `gotoNextVerse` calls walk every displayable position
     of the corpus once and then start over. An empty chapter has one displayable
     position (verse 1), so it counts once here, although it holds no verse. */

  /** Displayable positions in the first `n` chapters of `b`. */
  function ChapterPositions(b: Book, n: nat): nat
    requires n <= |b.chapters|
  {
    if n == 0 then 0 else ChapterPositions(b, n - 1) + LastVerse(b.chapters[n - 1])
  }

  /** Displayable positions in the first `n` books. */
  function BookPositions(books: seq<Book>, n: nat): nat
    requires n <= |books|
  {
    if n == 0 then 0 else BookPositions(books, n - 1) + ChapterPositions(books[n - 1], |books[n - 1].chapters|)
  }

  /** Displayable positions in the whole corpus. */
  function Total(books: seq<Book>): nat
  {
    BookPositions(books, |books|)
  }

  /** `p` is a displayable position in the i-th book of the corpus. */
  predicate At(books: seq<Book>, i: int, p: Position)
  {
    0 <= i < |books| && p.book == Some(books[i]) && InRange(p)
  }

  /** How many displayable positions come before `p`, in the i-th book, in reading order. */
  function Rank(books: seq<Book>, i: int, p: Position): nat
    requires At(books, i, p)
  {
    BookPositions(books, i) + ChapterPositions(books[i], p.chapter - 1) + (p.verse - 1)
  }

  /** The position after `n` calls of `gotoNextVerse`. */
  function NextN(books: seq<Book>, p: Position, n: nat): Position
  {
    if n == 0 then p else NextPos(books, NextN(books, p, n - 1))
  }

  lemma {:induction false} ChapterPositionsMono(b: Book, m: nat, n: nat)
    requires m <= n <= |b.chapters|
    ensures ChapterPositions(b, m) <= ChapterPositions(b, n)
  {
    if m < n {
      ChapterPositionsMono(b, m, n - 1);
    }
  }

  lemma {:induction false} BookPositionsMono(books: seq<Book>, m: nat, n: nat)
    requires m <= n <= |books|
    ensures BookPositions(books, m) <= BookPositions(books, n)
  {
    if m < n {
      BookPositionsMono(books, m, n - 1);
    }
  }

  /** The rank of a position in the i-th book lies among that book's positions. */
  lemma RankInBook(books: seq<Book>, i: int, p: Position)
    requires At(books, i, p)
    ensures ChapterPositions(books[i], p.chapter - 1) + (p.verse - 1) < ChapterPositions(books[i], |books[i].chapters|)
    ensures Rank(books, i, p) < BookPositions(books, i + 1) <= Total(books)
  {
    ChapterPositionsMono(books[i], p.chapter, |books[i].chapters|);
    BookPositionsMono(books, i + 1, |books|);
  }

  /** A forward step advances the rank by one, and the last position wraps to rank 0. */
  lemma NextRank(books: seq<Book>, i: int, p: Position)
    requires HasChapters(books) && UniqueNames(books) && At(books, i, p)
    ensures exists j :: (At(books, j, NextPos(books, p)) &&
      Rank(books, j, NextPos(books, p)) == if Rank(books, i, p) + 1 < Total(books) then Rank(books, i, p) + 1 else 0)
  {
    var b := books[i];
    var q := NextPos(books, p);
    IndexOfOwnName(books, i);
    RankInBook(books, i, p);
    if p.verse < |ChapterAt(b, p.chapter)| {
      RankInBook(books, i, q);
      assert At(books, i, q) && Rank(books, i, q) == Rank(books, i, p) + 1;
    } else {
      assert ChapterPositions(b, p.chapter - 1) + p.verse == ChapterPositions(b, p.chapter);
      if p.chapter < |b.chapters| {
        assert q == Position(p.book, p.chapter + 1, 1);
        RankInBook(books, i, q);
        assert At(books, i, q) && Rank(books, i, q) == Rank(books, i, p) + 1;
      } else if i + 1 < |books| {
        assert q == Position(Some(books[i + 1]), 1, 1);
        RankInBook(books, i + 1, q);
        assert At(books, i + 1, q) && Rank(books, i + 1, q) == Rank(books, i, p) + 1;
      } else {
        assert q == Position(Some(books[0]), 1, 1);
        assert At(books, 0, q) && Rank(books, 0, q) == 0;
      }
    }
  }

  /** Positions of the corpus with the same rank are the same position. */
  lemma RankInjective(books: seq<Book>, i: int, p: Position, j: int, q: Position)
    requires At(books, i, p) && At(books, j, q)
    requires Rank(books, i, p) == Rank(books, j, q)
    ensures p == q
  {
    RankInBook(books, i, p);
    RankInBook(books, j, q);
    BookFromOffset(books, i, ChapterPositions(books[i], p.chapter - 1) + (p.verse - 1),
                          j, ChapterPositions(books[j], q.chapter - 1) + (q.verse - 1));
    ChapterFromOffset(books[i], p.chapter, p.verse, q.chapter, q.verse);
  }

  /** An offset within a book's positions determines the book. */
  lemma BookFromOffset(books: seq<Book>, i: int, x: nat, j: int, y: nat)
    requires 0 <= i < |books| && x < ChapterPositions(books[i], |books[i].chapters|)
    requires 0 <= j < |books| && y < ChapterPositions(books[j], |books[j].chapters|)
    requires BookPositions(books, i) + x == BookPositions(books, j) + y
    ensures i == j
  {
    if i < j {
      BookPositionsMono(books, i + 1, j);
    } else if j < i {
      BookPositionsMono(books, j + 1, i);
    }
  }

  /** An offset within a book determines the chapter and the verse. */
  lemma ChapterFromOffset(b: Book, c: int, v: int, d: int, w: int)
    requires 1 <= c <= |b.chapters| && 1 <= v <= LastVerse(b.chapters[c - 1])
    requires 1 <= d <= |b.chapters| && 1 <= w <= LastVerse(b.chapters[d - 1])
    requires ChapterPositions(b, c - 1) + v == ChapterPositions(b, d - 1) + w
    ensures c == d && v == w
  {
    if c < d {
      ChapterPositionsMono(b, c, d - 1);
    } else if d < c {
      ChapterPositionsMono(b, d, c - 1);
    }
  }

  /** `a` steps and then `b` more are `a + b` steps. */
  lemma {:induction false} NextNAdd(books: seq<Book>, p: Position, a: nat, b: nat, c: nat)
    requires a + b == c
    ensures NextN(books, NextN(books, p, a), b) == NextN(books, p, c)
  {
    if b > 0 {
      NextNAdd(books, p, a, b - 1, c - 1);
    }
  }

  /** Before the wrap, `n` forward steps advance the rank by `n`. */
  lemma {:induction false} NextNRank(books: seq<Book>, i: int, p: Position, n: nat)
    requires HasChapters(books) && UniqueNames(books) && At(books, i, p)
    requires Rank(books, i, p) + n < Total(books)
    ensures exists j :: At(books, j, NextN(books, p, n)) && Rank(books, j, NextN(books, p, n)) == Rank(books, i, p) + n
  {
    if n == 0 {
      assert At(books, i, NextN(books, p, 0));
    } else {
      NextNRank(books, i, p, n - 1);
      var q := NextN(books, p, n - 1);
      var j :| At(books, j, q) && Rank(books, j, q) == Rank(books, i, p) + n - 1;
      NextRank(books, j, q);
      var k :| At(books, k, NextPos(books, q)) && Rank(books, k, NextPos(books, q)) == Rank(books, i, p) + n;
      assert NextN(books, p, n) == NextPos(books, q);
    }
  }

  /** From any position, the steps up to the end of the corpus and one more reach rank 0. */
  lemma NextNToFirst(books: seq<Book>, i: int, p: Position, a: nat)
    requires HasChapters(books) && UniqueNames(books) && At(books, i, p)
    requires Rank(books, i, p) + a == Total(books)
    ensures exists j :: At(books, j, NextN(books, p, a)) && Rank(books, j, NextN(books, p, a)) == 0
  {
    RankInBook(books, i, p);
    NextNRank(books, i, p, a - 1);
    var q := NextN(books, p, a - 1);
    var j :| At(books, j, q) && Rank(books, j, q) == Total(books) - 1;
    NextRank(books, j, q);
    assert NextN(books, p, a) == NextPos(books, q);
  }

  /** Up to one full cycle, `n` forward steps advance the rank by `n`, wrapping past the last position. */
  lemma NextNRankAny(books: seq<Book>, i: int, p: Position, n: nat)
    requires HasChapters(books) && UniqueNames(books) && At(books, i, p)
    requires n <= Total(books)
    ensures exists k :: (At(books, k, NextN(books, p, n)) &&
      Rank(books, k, NextN(books, p, n)) ==
        if Rank(books, i, p) + n < Total(books) then Rank(books, i, p) + n else Rank(books, i, p) + n - Total(books))
  {
    RankInBook(books, i, p);
    if Rank(books, i, p) + n < Total(books) {
      NextNRank(books, i, p, n);
      var k :| At(books, k, NextN(books, p, n)) && Rank(books, k, NextN(books, p, n)) == Rank(books, i, p) + n;
    } else {
      NextNWrap(books, i, p, n);
    }
  }

  /** The steps past the last position continue from rank 0. */
  lemma NextNWrap(books: seq<Book>, i: int, p: Position, n: nat)
    requires HasChapters(books) && UniqueNames(books) && At(books, i, p)
    requires Total(books) <= Rank(books, i, p) + n && n <= Total(books)
    ensures exists k :: At(books, k, NextN(books, p, n)) && Rank(books, k, NextN(books, p, n)) == Rank(books, i, p) + n - Total(books)
  {
    RankInBook(books, i, p);
    var a := Total(books) - Rank(books, i, p);
    NextNToFirst(books, i, p, a);
    var first := NextN(books, p, a);
    var j :| At(books, j, first) && Rank(books, j, first) == 0;
    NextNRank(books, j, first, n - a);
    var k :| At(books, k, NextN(books, first, n - a)) && Rank(books, k, NextN(books, first, n - a)) == n - a;
    NextNThen(books, p, a, n, k);
  }

  /** A position reached in two runs of steps is reached in one. */
  lemma NextNThen(books: seq<Book>, p: Position, a: nat, n: nat, k: int)
    requires a <= n && At(books, k, NextN(books, NextN(books, p, a), n - a))
    ensures At(books, k, NextN(books, p, n))
    ensures Rank(books, k, NextN(books, p, n)) == Rank(books, k, NextN(books, NextN(books, p, a), n - a))
  {
    NextNAdd(books, p, a, n - a, n);
  }

  /** With unique names, a position lies in one book of the corpus only. */
  lemma AtUnique(books: seq<Book>, i: int, j: int, p: Position)
    requires UniqueNames(books) && At(books, i, p) && At(books, j, p)
    ensures i == j
  {
  }

  /** Calling `gotoNextVerse` once per displayable position returns to the start. */
  lemma NextCycle(books: seq<Book>, i: int, p: Position)
    requires HasChapters(books) && UniqueNames(books) && At(books, i, p)
    ensures NextN(books, p, Total(books)) == p
  {
    RankInBook(books, i, p);
    NextNRankAny(books, i, p, Total(books));
    var r := NextN(books, p, Total(books));
    var k :| At(books, k, r) && Rank(books, k, r) == Rank(books, i, p);
    RankInjective(books, k, r, i, p);
  }

  /** Fewer calls than there are displayable positions never return to the start. */
  lemma NextNoShorterCycle(books: seq<Book>, i: int, p: Position, n: nat)
    requires HasChapters(books) && UniqueNames(books) && At(books, i, p)
    requires 0 < n < Total(books)
    ensures NextN(books, p, n) != p
  {
    RankInBook(books, i, p);
    NextNRankAny(books, i, p, n);
    var r := NextN(books, p, n);
    var k :| At(books, k, r) && Rank(books, k, r) == if Rank(books, i, p) + n < Total(books) then Rank(books, i, p) + n else Rank(books, i, p) + n - Total(books);
    if r == p {
      AtUnique(books, k, i, p);
    }
  }

  /** Every displayable position of the corpus is reached within one cycle. */
  lemma NextReachesAll(books: seq<Book>, i: int, p: Position, j: int, q: Position)
    requires HasChapters(books) && UniqueNames(books) && At(books, i, p) && At(books, j, q)
    ensures exists n: nat :: n < Total(books) && NextN(books, p, n) == q
  {
    RankInBook(books, i, p);
    RankInBook(books, j, q);
    var n: nat := if Rank(books, i, p) <= Rank(books, j, q) then Rank(books, j, q) - Rank(books, i, p)
                  else Rank(books, j, q) + Total(books) - Rank(books, i, p);
    NextNRankAny(books, i, p, n);
    var r := NextN(books, p, n);
    var k :| At(books, k, r) && Rank(books, k, r) == Rank(books, j, q);
    RankInjective(books, k, r, j, q);
  }
}
