/** The corpus of one translation: an ordered sequence of books, each an ordered
    sequence of chapters, each an ordered sequence of verse texts. */
module Corpus {

  datatype Option<T> = None | Some(value: T)

  /** The three translations the reader ships ("aa", "acf", "nvi"). */
  datatype Version = AA | ACF | NVI

  /** A book; chapter 1 is `chapters[0]`, verse 1 of a chapter is its element 0. */
  datatype Book = Book(name: string, chapters: seq<seq<string>>)

  /** Every book has at least one chapter: the navigation code indexes
      `chapters[length - 1]` and `chapters[chapter - 1]` without a guard. */
  predicate HasChapters(books: seq<Book>)
  {
    forall i :: 0 <= i < |books| ==> |books[i].chapters| >= 1
  }

  /** Books are looked up by name, so a name identifies one book. */
  predicate UniqueNames(books: seq<Book>)
  {
    forall i, j :: 0 <= i < j < |books| ==> books[i].name != books[j].name
  }

  /** `chapters[c - 1] || []`: the verses of chapter `c`, or none when `c` is out of range. */
  function ChapterAt(b: Book, c: int): (vs: seq<string>)
    ensures 1 <= c <= |b.chapters| ==> vs == b.chapters[c - 1]
    ensures !(1 <= c <= |b.chapters|) ==> vs == []
  {
    if 1 <= c <= |b.chapters| then b.chapters[c - 1] else []
  }

  /** `verses.length || 1`: the number of the last verse, 1 for an empty chapter. */
  function LastVerse(vs: seq<string>): (n: int)
    ensures n >= 1
    ensures n == |vs| || (vs == [] && n == 1)
  {
    if |vs| == 0 then 1 else |vs|
  }

  /** `findIndex` by name, scanning from position `k`. */
  function IndexOfNameFrom(books: seq<Book>, name: string, k: nat): (r: int)
    requires k <= |books|
    ensures r == -1 || (k <= r < |books| && books[r].name == name)
    ensures r == -1 ==> forall j :: k <= j < |books| ==> books[j].name != name
    ensures r != -1 ==> forall j :: k <= j < r ==> books[j].name != name
    decreases |books| - k
  {
    if k == |books| then -1
    else if books[k].name == name then k
    else IndexOfNameFrom(books, name, k + 1)
  }

  /** `books.findIndex(b => b.name === name)`: the first index with that name, or -1. */
  function IndexOfName(books: seq<Book>, name: string): (r: int)
    ensures -1 <= r < |books|
    ensures r >= 0 ==> books[r].name == name && forall j :: 0 <= j < r ==> books[j].name != name
    ensures r == -1 <==> forall j :: 0 <= j < |books| ==> books[j].name != name
  {
    IndexOfNameFrom(books, name, 0)
  }

  /** `findBookIndex`: -1 when no book is given, otherwise the index of its name. */
  function FindBookIndex(books: seq<Book>, book: Option<Book>): (r: int)
    ensures -1 <= r < |books|
    ensures book.None? ==> r == -1
    ensures book.Some? && r >= 0 ==> books[r].name == book.value.name
    ensures book.Some? && r >= 0 ==> forall j :: 0 <= j < r ==> books[j].name != book.value.name
    ensures book.Some? && r == -1 ==> forall j :: 0 <= j < |books| ==> books[j].name != book.value.name
  {
    if book.None? then -1 else IndexOfName(books, book.value.name)
  }

  /** `books.find(b => b.name === name)`: the first book with that name. */
  function FindByName(books: seq<Book>, name: string): (r: Option<Book>)
    ensures r.Some? ==> r.value in books && r.value.name == name
    ensures r.Some? ==> r == Some(books[IndexOfName(books, name)])
    ensures r.None? <==> forall j :: 0 <= j < |books| ==> books[j].name != name
  {
    var i := IndexOfName(books, name);
    if i < 0 then None else Some(books[i])
  }

  /** With unique names, looking up the name of the i-th book finds index i. */
  lemma IndexOfOwnName(books: seq<Book>, i: int)
    requires UniqueNames(books)
    requires 0 <= i < |books|
    ensures IndexOfName(books, books[i].name) == i
    ensures FindByName(books, books[i].name) == Some(books[i])
  {
  }
}
