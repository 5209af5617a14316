/** The reading-position state machine: which translation and corpus are loaded,
    and which book, chapter and verse the reader is at. */
module Navigation {
  import opened Corpus

  /** The three position cells. Chapter and verse are 1-based. */
  datatype Position = Position(book: Option<Book>, chapter: int, verse: int)

  /** No book selected, chapter 1, verse 1: the state at start-up and after a reset. */
  const Start := Position(None, 1, 1)

  /** A displayable position: the chapter exists and the verse lies in
      [1, last verse], where an empty chapter still has verse 1. */
  predicate InRange(p: Position)
  {
    p.book.Some? ==>
      1 <= p.chapter <= |p.book.value.chapters| &&
      1 <= p.verse <= LastVerse(ChapterAt(p.book.value, p.chapter))
  }

  /** The last verse of the last chapter of `b`. */
  function LastPosition(b: Book): (p: Position)
    requires |b.chapters| >= 1
    ensures InRange(p) && p.book == Some(b) && p.chapter == |b.chapters|
  {
    Position(Some(b), |b.chapters|, LastVerse(b.chapters[|b.chapters| - 1]))
  }

  /** `selectChapter`'s clamp: `min(max(1, n), max(1, chapter count))`. */
  function ClampChapter(b: Book, n: int): (c: int)
    ensures 1 <= c && (c <= |b.chapters| || c == 1)
    ensures 1 <= n <= |b.chapters| ==> c == n
    ensures n < 1 ==> c == 1
    ensures n > |b.chapters| ==> c == (if |b.chapters| == 0 then 1 else |b.chapters|)
  {
    var maxCh := if |b.chapters| > 1 then |b.chapters| else 1;
    var atLeastOne := if n > 1 then n else 1;
    if atLeastOne < maxCh then atLeastOne else maxCh
  }

  /** The position `gotoNextVerse` moves to. */
  function NextPos(books: seq<Book>, p: Position): (r: Position)
    ensures p.book.None? ==> r == p
    ensures p.book.Some? && |books| > 0 ==> r.book.Some?
    ensures r.book == p.book || (r.book.Some? && r.book.value in books)
  {
    if p.book.None? then p
    else
      var b := p.book.value;
      if p.verse < |ChapterAt(b, p.chapter)| then p.(verse := p.verse + 1)
      else if p.chapter < |b.chapters| then Position(p.book, p.chapter + 1, 1)
      else
        var idx := FindBookIndex(books, p.book);
        if idx + 1 < |books| then Position(Some(books[idx + 1]), 1, 1)
        else if |books| > 0 then Position(Some(books[0]), 1, 1)
        else p
  }

  /** The position `gotoPrevVerse` moves to. */
  function PrevPos(books: seq<Book>, p: Position): (r: Position)
    requires HasChapters(books)
    ensures p.book.None? ==> r == p
    ensures p.book.Some? && |books| > 0 ==> r.book.Some?
    ensures r.book == p.book || (r.book.Some? && r.book.value in books)
  {
    if p.book.None? then p
    else if p.verse > 1 then p.(verse := p.verse - 1)
    else if p.chapter > 1 then
      Position(p.book, p.chapter - 1, LastVerse(ChapterAt(p.book.value, p.chapter - 1)))
    else
      var idx := FindBookIndex(books, p.book);
      if idx - 1 >= 0 then LastPosition(books[idx - 1])
      else if |books| > 0 then LastPosition(books[|books| - 1])
      else p
  }

  /** The position after switching to the corpus `newBooks` (`changeVersion`). */
  function ChangeVersionPos(newBooks: seq<Book>, p: Position): (r: Position)
    requires HasChapters(newBooks)
    requires p.book.Some? ==> p.chapter >= 1
    ensures r == Start || (r.book.Some? && r.book.value in newBooks && 1 <= r.chapter <= |r.book.value.chapters|)
    ensures r.book.Some? <==> p.book.Some? && FindByName(newBooks, p.book.value.name).Some?
    ensures r.book.Some? ==> r.book.value.name == p.book.value.name
  {
    if p.book.None? then Start
    else
      match FindByName(newBooks, p.book.value.name)
      case None => Start
      case Some(nb) =>
        var chapter := if p.chapter <= |nb.chapters| then p.chapter else 1;
        var verse := if p.verse <= |nb.chapters[chapter - 1]| then p.verse else 1;
        Position(Some(nb), chapter, verse)
  }

  /** The state held by the reading context. The three corpora are the
      pre-parsed datasets, given at construction. */
  class BibleState {
    const aa: seq<Book>
    const acf: seq<Book>
    const nvi: seq<Book>

    var version: Version
    var books: seq<Book>
    var selectedBook: Option<Book>
    var selectedChapter: int
    var selectedVerse: int

    /** The corpus of each translation. */
    function VersionData(v: Version): (bs: seq<Book>)
      ensures v == AA ==> bs == aa
      ensures v == ACF ==> bs == acf
      ensures v == NVI ==> bs == nvi
    {
      match v
      case AA => aa
      case ACF => acf
      case NVI => nvi
    }

    /** What the code relies on without checking: every book of every corpus
        has a chapter, and the selected chapter is at least 1. */
    ghost predicate Valid()
      reads this
    {
      HasChapters(aa) && HasChapters(acf) && HasChapters(nvi) &&
      HasChapters(books) && selectedChapter >= 1
    }

    function Pos(): Position
      reads this
    {
      Position(selectedBook, selectedChapter, selectedVerse)
    }

    /** Start-up: version "aa", but the corpus loaded is the "nvi" one; no book selected. */
    constructor (aaBooks: seq<Book>, acfBooks: seq<Book>, nviBooks: seq<Book>)
      requires HasChapters(aaBooks) && HasChapters(acfBooks) && HasChapters(nviBooks)
      ensures Valid()
      ensures aa == aaBooks && acf == acfBooks && nvi == nviBooks
      ensures version == AA && books == nviBooks
      ensures Pos() == Start
    {
      aa, acf, nvi := aaBooks, acfBooks, nviBooks;
      version := AA;
      books := nviBooks;
      selectedBook := None;
      selectedChapter := 1;
      selectedVerse := 1;
    }

    /** `changeVersion`: swap the corpus, keep the position where the same-named book allows it. */
    method ChangeVersion(newVersion: Version)
      requires Valid()
      modifies this
      ensures Valid()
      ensures version == newVersion && books == VersionData(newVersion)
      ensures Pos() == ChangeVersionPos(books, old(Pos()))
    {
      var newBooks := VersionData(newVersion);
      version := newVersion;
      books := newBooks;

      if selectedBook.None? {
        selectedBook := None;
        selectedChapter := 1;
        selectedVerse := 1;
        return;
      }

      var bookInNewVersion := FindByName(newBooks, selectedBook.value.name);
      if bookInNewVersion.Some? {
        var nb := bookInNewVersion.value;
        selectedBook := bookInNewVersion;
        var chapter := if selectedChapter <= |nb.chapters| then selectedChapter else 1;
        selectedChapter := chapter;
        var verse := if selectedVerse <= |nb.chapters[chapter - 1]| then selectedVerse else 1;
        selectedVerse := verse;
      } else {
        selectedBook := None;
        selectedChapter := 1;
        selectedVerse := 1;
      }
    }

    method SelectBook(book: Book)
      requires Valid()
      modifies this
      ensures Valid()
      ensures version == old(version) && books == old(books)
      ensures Pos() == Position(Some(book), 1, 1)
    {
      selectedBook := Some(book);
      selectedChapter := 1;
      selectedVerse := 1;
    }

    /** `selectChapter`: clamps the chapter and deliberately leaves the verse as it was. */
    method SelectChapter(book: Book, chapterNumber: int)
      requires Valid()
      modifies this
      ensures Valid()
      ensures version == old(version) && books == old(books)
      ensures Pos() == Position(Some(book), ClampChapter(book, chapterNumber), old(selectedVerse))
    {
      var maxCh := if |book.chapters| > 1 then |book.chapters| else 1;
      var atLeastOne := if chapterNumber > 1 then chapterNumber else 1;
      var cap := if atLeastOne < maxCh then atLeastOne else maxCh;
      selectedBook := Some(book);
      selectedChapter := cap;
    }

    /** `setSelectedVerse`: no bounds check, so the verse may lie outside the chapter. */
    method SetSelectedVerse(v: int)
      requires Valid()
      modifies this
      ensures Valid()
      ensures version == old(version) && books == old(books)
      ensures Pos() == old(Pos()).(verse := v)
    {
      selectedVerse := v;
    }

    method GotoNextVerse()
      requires Valid()
      modifies this
      ensures Valid()
      ensures version == old(version) && books == old(books)
      ensures Pos() == NextPos(books, old(Pos()))
    {
      if selectedBook.None? {
        return;
      }
      var chapterVerses := ChapterAt(selectedBook.value, selectedChapter);
      var lastVerse := |chapterVerses|;

      if selectedVerse < lastVerse {
        selectedVerse := selectedVerse + 1;
        return;
      }

      if selectedChapter < |selectedBook.value.chapters| {
        selectedChapter := selectedChapter + 1;
        selectedVerse := 1;
        return;
      }

      var idx := FindBookIndex(books, selectedBook);
      if idx + 1 < |books| {
        selectedBook := Some(books[idx + 1]);
        selectedChapter := 1;
        selectedVerse := 1;
        return;
      }

      if |books| > 0 {
        selectedBook := Some(books[0]);
        selectedChapter := 1;
        selectedVerse := 1;
      }
    }

    method GotoPrevVerse()
      requires Valid()
      modifies this
      ensures Valid()
      ensures version == old(version) && books == old(books)
      ensures Pos() == PrevPos(books, old(Pos()))
    {
      if selectedBook.None? {
        return;
      }

      if selectedVerse > 1 {
        selectedVerse := selectedVerse - 1;
        return;
      }

      if selectedChapter > 1 {
        var prevChapterVerses := ChapterAt(selectedBook.value, selectedChapter - 1);
        var lastVerse := LastVerse(prevChapterVerses);
        selectedChapter := selectedChapter - 1;
        selectedVerse := lastVerse;
        return;
      }

      var idx := FindBookIndex(books, selectedBook);
      if idx - 1 >= 0 {
        var prevBook := books[idx - 1];
        var lastChapterIndex := |prevBook.chapters| - 1;
        var lastVerse := LastVerse(prevBook.chapters[lastChapterIndex]);
        selectedBook := Some(prevBook);
        selectedChapter := lastChapterIndex + 1;
        selectedVerse := lastVerse;
        return;
      }

      if |books| > 0 {
        var lastBook := books[|books| - 1];
        var lastChapterIndex := |lastBook.chapters| - 1;
        var lastVerse := LastVerse(lastBook.chapters[lastChapterIndex]);
        selectedBook := Some(lastBook);
        selectedChapter := lastChapterIndex + 1;
        selectedVerse := lastVerse;
      }
    }
  }
}
