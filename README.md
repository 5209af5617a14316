# bibliaonline reading core, in Dafny

A model of the two parts of the bibliaonline scripture reader that carry logic.

The first is the **reading context** (`src/context/BibleContext.tsx`). It holds the loaded translation, its corpus of books, and the reading position: the selected book, chapter and verse. It moves that position:

- when the translation changes;
- when a book or chapter is chosen;
- one verse forward or back, across chapter and book boundaries, wrapping around the corpus.

The second is the **search box** (`src/components/Search.tsx`). It covers:

- resolving the "chapter", "book" or "bible" scope against the reading position;
- collecting every verse whose normalized text contains the normalized query;
- highlighting each occurrence of the query in a result;
- jumping to a result.

Layout of the project:

- `corpus.dfy` (module `Corpus`): books, translations, and lookup of a book by name, modelled as JavaScript's `find` and `findIndex` with name equality.
- `text.dfy` (module `Text`): the JavaScript string operations the search relies on, written out with JavaScript's edge cases:
  - `indexOf` clamps its start position;
  - `includes` of the empty string holds;
  - `slice` accepts negative and out-of-range bounds;
  - `trim` uses ECMAScript's white-space set.
- `navigation.dfy` (module `Navigation`): the reading position.
  - Each transition is first a pure function on positions: `NextPos`, `PrevPos`, `ChangeVersionPos`, `ClampChapter`.
  - The class `BibleState` holds the context's state cells as fields. Each of its methods is proved to move the position exactly as its function says.
- `navigation_proofs.dfy` (module `NavigationProofs`): properties of the transitions. They cover the range invariant, next and previous undoing each other, wrap-around at both ends of the corpus, and what a translation switch keeps and resets. They also show that repeated forward steps visit every displayable position once per cycle. Positions are counted in reading order (`Rank`, `Total`).
- `search.dfy` (module `Search`): the search itself.
  - The verses a search returns are specified by the list of matching locations in traversal order.
  - `Collect` and its two inner loops are proved to build exactly that list's records.
  - `Highlight` is the highlight loop, proved to build exactly the parts that the sequence of match positions determines.
  - The class `SearchPanel` holds the box's state cells; `HandleSearch`, `ClearSearch` and `GoTo` act on it.
- `search_proofs.dfy` (module `SearchProofs`): properties of the search.
  - Results are sound and complete for every scope.
  - With unique book names, jumping to a "bible" or "book" result lands on the verse it came from (`GoToBibleResult`, `GoToBookResult`); jumping to a "chapter" result lands in chapter 1 (`GoToChapterResult`).
  - Highlighting loses no text. Every occurrence is highlighted or overlaps a highlighted one; overlapping occurrences are not highlighted separately.
  - The finding below is shown here.

The Unicode normalization (`normalize`: NFD, diacritics removed, lower case) is a parameter of type `string -> string`. Every search property therefore holds for any normalizer.

Three behaviours of the code a reader may not expect. The model follows the code:

- `selectChapter` keeps the current verse. After choosing a shorter chapter, the verse can lie past its end, so the position is not always in range. `NavigationProofs.SelectChapterMayLeaveVerseOutOfRange` exhibits such a case. The range invariant (`InRange`) is proved for `NextPos`, `PrevPos` and `ChangeVersionPos`, and for a jump to a result naming an existing verse (`SearchProofs.GoToExisting`). `selectBook` keeps it exactly when the book has a chapter (`NavigationProofs.SelectBookInRange`). `setSelectedVerse` checks no bounds, so it keeps no range invariant.
- One forward cycle is `Total` steps, the number of displayable positions. An empty chapter still has verse 1, so it counts as one position although it holds no verse. The cycle is therefore longer than the verse count by the number of empty chapters. `NavigationProofs.NextCycle`, `NextNoShorterCycle` and `NextReachesAll` state the cycle.
- A "chapter"-scope search builds a one-chapter copy of the selected book. Its results are therefore labelled chapter 1, whichever chapter was searched, and jumping to one of them goes to chapter 1. `SearchProofs.ChapterScopeSound` and `SearchProofs.GoToChapterResult` state this.

## Model

| member | source | states |
|---|---|---|
| Corpus.LastVerse | src/context/BibleContext.tsx:143 | `length \|\| 1`: the chapter's verse count, or 1 for an empty chapter; never below 1 |
| Corpus.IndexOfName | src/context/BibleContext.tsx:82 | `findIndex` by name: the first index whose book has the name, and -1 exactly when no book has it |
| Corpus.FindBookIndex | src/context/BibleContext.tsx:80-83 | -1 with no book selected; otherwise the first index of a book with the same name, or -1 exactly when none has it |
| Corpus.FindByName | src/components/Search.tsx:84 | `find` by name: the first book of the corpus with that name, and nothing exactly when no book has it |
| Corpus.IndexOfOwnName | src/context/BibleContext.tsx:116 | with unique names, looking up a book's own name finds that book at its own index |
| Text.IndexOfSpec | src/components/Search.tsx:183 | `indexOf` returns an occurrence at or after the start, no earlier occurrence exists, and -1 means there is none |
| Text.IndexOf | src/components/Search.tsx:192 | the start position is clamped: the result is -1 or an in-bounds position at or after the start, or the string's end for an empty query past the end |
| Text.ContainsIff | src/components/Search.tsx:58 | `includes` holds exactly when the query occurs at some position, exactly when `indexOf` from 0 finds it |
| Text.SliceConcat | src/components/Search.tsx:186-195 | adjacent `slice`s join into the slice spanning both |
| Text.TrimEmptyIffBlank | src/components/Search.tsx:31 | `!query.trim()` holds exactly when every character of the query is white space |
| Text.TrimStartSpec | src/components/Search.tsx:31 | trimming the front removes exactly the leading white space, leaving a suffix that starts with another character |
| Text.TrimEndSpec | src/components/Search.tsx:31 | trimming the back removes exactly the trailing white space, leaving a prefix that ends with another character |
| Text.SliceSpec | src/components/Search.tsx:186-195 | `slice` with in-range bounds is the substring between them; an end past the string stops at its end; an end at or before the start gives "" |
| Text.Trim | src/components/Search.tsx:31 | `trim` never lengthens the string, and what is left is empty or starts and ends with a character that is not white space |
| Text.ContainsEdgeCases | src/components/Search.tsx:58 | `includes("")` always holds, and a query longer than the string is never found (`Text.ContainsIff` gives the full meaning) |
| Corpus.ChapterAt | src/context/BibleContext.tsx:102 | `chapters[c - 1] \|\| []`: the verses of chapter `c` when it exists, and none otherwise |
| Navigation.ClampChapter | src/context/BibleContext.tsx:92-94 | `selectChapter`'s clamp: an in-range chapter is kept; below 1 gives 1; above the count gives the last chapter (1 for a book with no chapters) |
| Navigation.NextPos | src/context/BibleContext.tsx:99-130 | with no book nothing moves; with a non-empty corpus a book stays selected, and it is the same book or one of the corpus |
| Navigation.PrevPos | src/context/BibleContext.tsx:132-168 | with no book nothing moves; with a non-empty corpus a book stays selected, and it is the same book or one of the corpus |
| Navigation.ChangeVersionPos | src/context/BibleContext.tsx:50-77 | the position is reset, or it names the book of the same name in the new corpus, with a chapter that exists; a book survives exactly when one with its name exists |
| Navigation.LastPosition | src/context/BibleContext.tsx:152-156 | the last verse of a book is a displayable position in its last chapter |
| Navigation.BibleState.VersionData | src/context/BibleContext.tsx:39-43 | "aa" loads the aa corpus, "acf" the acf corpus, "nvi" the nvi corpus |
| Navigation.BibleState.constructor | src/context/BibleContext.tsx:31-37 | start-up: translation "aa" with the "nvi" corpus loaded, no book, chapter 1, verse 1 |
| Navigation.BibleState.ChangeVersion | src/context/BibleContext.tsx:45-78 | switches translation and corpus, and the position becomes `ChangeVersionPos` of the old one |
| Navigation.BibleState.SelectBook | src/context/BibleContext.tsx:85-89 | the book at chapter 1, verse 1; translation and corpus unchanged |
| Navigation.BibleState.SelectChapter | src/context/BibleContext.tsx:92-97 | the book at the clamped chapter, with the verse left as it was |
| Navigation.BibleState.SetSelectedVerse | src/context/BibleContext.tsx:37 | only the verse changes |
| Navigation.BibleState.GotoNextVerse | src/context/BibleContext.tsx:99-130 | the position becomes `NextPos` of the old one; translation and corpus unchanged |
| Navigation.BibleState.GotoPrevVerse | src/context/BibleContext.tsx:132-168 | the position becomes `PrevPos` of the old one; translation and corpus unchanged |
| NavigationProofs.NextPreservesInRange | src/context/BibleContext.tsx:99-130 | moving forward from a displayable position gives a displayable position |
| NavigationProofs.PrevPreservesInRange | src/context/BibleContext.tsx:132-168 | moving back from a displayable position gives a displayable position |
| NavigationProofs.PrevAfterNext | src/context/BibleContext.tsx:99-168 | in a corpus with unique names, one verse back after one verse forward returns to any displayable position of a corpus book |
| NavigationProofs.NextAfterPrev | src/context/BibleContext.tsx:99-168 | in a corpus with unique names, one verse forward after one verse back returns to any displayable position of a corpus book |
| NavigationProofs.NextWrapsToFirstBook | src/context/BibleContext.tsx:125-129 | after the last verse of the last book comes verse 1 of chapter 1 of the first book |
| NavigationProofs.PrevWrapsToLastBook | src/context/BibleContext.tsx:160-167 | before verse 1 of chapter 1 of the first book comes the last verse of the last book |
| NavigationProofs.NextRank | src/context/BibleContext.tsx:99-130 | in a corpus with unique names, a forward step from a displayable position of a corpus book moves one place on in reading order, and from the last place to the first |
| NavigationProofs.NextCycle | src/context/BibleContext.tsx:99-130 | in a corpus with unique names, one forward step per displayable position of the corpus returns to the starting position |
| NavigationProofs.NextNoShorterCycle | src/context/BibleContext.tsx:99-130 | fewer forward steps than there are displayable positions never return to the starting position |
| NavigationProofs.NextReachesAll | src/context/BibleContext.tsx:99-130 | from any displayable position, fewer forward steps than there are positions reach any other displayable position of the corpus |
| NavigationProofs.ChangeVersionSameName | src/context/BibleContext.tsx:57-72 | when the new corpus has the book: that book; the chapter kept if it exists, else 1; the verse kept if it exists in that chapter, else 1 |
| NavigationProofs.ChangeVersionResets | src/context/BibleContext.tsx:50-77 | with no book, or a book the new corpus lacks, the position resets to no book, chapter 1, verse 1 |
| NavigationProofs.ChangeVersionInRange | src/context/BibleContext.tsx:45-78 | after a translation switch the position is displayable |
| NavigationProofs.ChangeVersionIdempotent | src/context/BibleContext.tsx:45-78 | switching to the same corpus twice is the same as once |
| NavigationProofs.ChangeVersionToSameCorpus | src/context/BibleContext.tsx:45-78 | reloading the corpus a displayable position came from leaves it unchanged |
| NavigationProofs.SelectChapterMayLeaveVerseOutOfRange | src/context/BibleContext.tsx:91-97 | a concrete case where choosing a shorter chapter leaves the verse past its end |
| NavigationProofs.SelectBookInRange | src/context/BibleContext.tsx:85-89 | the position `selectBook` sets is displayable exactly when the book has a chapter |
| Search.SearchBooksSpec | src/components/Search.tsx:36-50 | "bible" scope walks the whole corpus; "book" scope the selected book; "chapter" scope a copy of the selected book whose only chapter is the selected one (none if it is missing); no book selected and not "bible" scope walks nothing |
| Search.RecordAtSpec | src/components/Search.tsx:59-66 | the record of a verse: the book's name, 1-based chapter and verse numbers that point back at the same verse, its text, its normalized text and the normalized query |
| Search.Records | src/components/Search.tsx:59-66 | as many records as locations (`SearchProofs.RecordsIndex` says which record is where) |
| Search.RecordsAppend | src/components/Search.tsx:52-71 | the records of two location lists joined are the two record lists joined |
| Search.CollectVerses | src/components/Search.tsx:55-68 | the inner loop pushes exactly the records of the matching verses of one chapter, in verse order |
| Search.CollectChapters | src/components/Search.tsx:53-69 | the middle loop pushes exactly the records of the matching verses of one book, in chapter order |
| Search.Collect | src/components/Search.tsx:52-71 | the loops push exactly the records of all matching verses of the searched books, in traversal order |
| Search.Render | src/components/Search.tsx:188-205 | the parts joined into HTML; without matches the HTML is the plain text |
| Search.PositionsStep | src/components/Search.tsx:185-192 | one loop turn: the positions still to visit are the found match followed by those from the match's end |
| Search.HighlightTurn | src/components/Search.tsx:185-192 | one loop turn pushes the text before the match and the match, and the search resumes strictly further on |
| Search.HighlightDone | src/components/Search.tsx:185-195 | when no match is left, the remaining part is the rest of the text |
| Search.Highlight | src/components/Search.tsx:179-195 | the parts are exactly the split of the text at the highlighted positions (the loop is skipped for an empty normalized query; see Findings) |
| Search.GoToPosSpec | src/components/Search.tsx:83-91 | an unknown book name leaves the position unchanged; otherwise the position is a corpus book with the result's name, at the result's verse, and at the result's chapter when it exists (else a clamped one) |
| Search.SearchPanel.constructor | src/components/Search.tsx:22-28 | empty query, "chapter" scope, no results, not searched |
| Search.SearchPanel.SetQuery | src/components/Search.tsx:107 | only the query changes |
| Search.SearchPanel.SetScope | src/components/Search.tsx:118-140 | only the scope changes |
| Search.SearchPanel.HandleSearch | src/components/Search.tsx:30-75 | a blank query changes nothing; otherwise the results become the matches of the scoped books and the box is marked searched |
| Search.SearchPanel.ClearSearch | src/components/Search.tsx:77-81 | empty query, no results, not searched; scope kept |
| Search.SearchPanel.GoTo | src/components/Search.tsx:83-91 | the reading position becomes `GoToPos`: unchanged for an unknown book, else the book at the clamped chapter and the result's verse |
| SearchProofs.VerseLocsSpec | src/components/Search.tsx:55-58 | the matching locations of a chapter prefix are exactly its matching verses, in order |
| SearchProofs.ChapterLocsSpec | src/components/Search.tsx:53-58 | the matching locations of a book prefix are exactly its matching verses, in order |
| SearchProofs.BookLocsSpec | src/components/Search.tsx:52-58 | the matching locations of a prefix of the books are exactly its matching verses, in order |
| SearchProofs.MatchLocsSpec | src/components/Search.tsx:52-71 | the search visits exactly the matching verses, each once, in traversal order |
| SearchProofs.RecordsIndex | src/components/Search.tsx:59-66 | the k-th record is the record of the k-th location |
| SearchProofs.ResultAt | src/components/Search.tsx:52-73 | the k-th result is the record of the k-th matching location, and that verse matches |
| SearchProofs.MatchFound | src/components/Search.tsx:52-73 | completeness: every matching verse has its record among the results |
| SearchProofs.HitSound | src/components/Search.tsx:52-73 | soundness: every result is the record of a matching verse |
| SearchProofs.NoBookNoResults | src/components/Search.tsx:39-50 | "book" or "chapter" scope with no book selected finds nothing |
| SearchProofs.BibleScopeResults | src/components/Search.tsx:37-38 | "bible" scope searches the whole corpus, whatever is selected |
| SearchProofs.BookScopeSound | src/components/Search.tsx:36-66 | a "book" result names the selected book and an existing chapter and verse, carries that verse's text, and matches |
| SearchProofs.BookScopeComplete | src/components/Search.tsx:36-66 | every matching verse of the selected book is among the "book" results, numbered from 1 |
| SearchProofs.ChapterScopeSound | src/components/Search.tsx:36-66 | a "chapter" result names the selected book, is labelled chapter 1, and carries a matching verse of the selected chapter |
| SearchProofs.ChapterScopeComplete | src/components/Search.tsx:36-66 | every matching verse of the selected chapter is among the "chapter" results, labelled chapter 1 |
| SearchProofs.ChapterScopeMissing | src/components/Search.tsx:46 | when the selected chapter does not exist, the "chapter" search finds nothing |
| SearchProofs.GoToExisting | src/components/Search.tsx:83-91 | jumping to a result naming a corpus book and an existing chapter and verse lands exactly there, on a displayable position |
| SearchProofs.GoToBibleResult | src/components/Search.tsx:83-91 | jumping to a "bible" result lands on the verse it came from, a displayable position whose text is the result's |
| SearchProofs.GoToBookResult | src/components/Search.tsx:83-91 | jumping to a "book" result lands on its chapter and verse of the selected book |
| SearchProofs.GoToChapterResult | src/components/Search.tsx:83-91 | jumping to a "chapter" result lands in chapter 1 of the book, whichever chapter was searched |
| SearchProofs.GoToUnknownBook | src/components/Search.tsx:84-85 | a result whose book is not in the corpus leaves the position unchanged |
| SearchProofs.SplitStrip | src/components/Search.tsx:185-195 | the parts built from non-overlapping increasing positions, markup removed, are the text from the start position on |
| SearchProofs.HighlightRoundTrip | src/components/Search.tsx:179-195 | the highlighted verse with markup removed is the verse text |
| SearchProofs.PositionsSpec | src/components/Search.tsx:183-192 | every visited position is an occurrence at or after the start, each beginning at or after the end of the previous one |
| SearchProofs.PositionsComplete | src/components/Search.tsx:183-192 | every occurrence at or after the start is visited or begins inside a visited one |
| SearchProofs.HighlightPositionsSpec | src/components/Search.tsx:183-192 | the highlighted positions are occurrences, non-overlapping and increasing, and every occurrence overlaps a highlighted one; none for an empty query |
| SearchProofs.EmptyQueryMatchesEveryVerse | src/components/Search.tsx:58 | with an empty normalized query every verse is a result |
| SearchProofs.AsWrittenTurn | src/components/Search.tsx:191-192 | the as-written model of one loop turn (`lastIndex = pos + q.length`, then `indexOf` from there); its contract says only that the next position is -1 or a position, and `AsWrittenLoopStuckOnEmptyQuery` states what it does for an empty query |
| SearchProofs.AsWrittenLoopStuckOnEmptyQuery | src/components/Search.tsx:183-192 | with an empty normalized query the first position is 0 and a loop turn leaves it at 0 |

## Left out

- `normalize`: NFD decomposition, removal of `\p{Diacritic}` and lower-casing are Unicode tables, so the function is a parameter; no property depends on what it does.
- The three translation datasets (JSON files) are constructor parameters, not data.
- Every book has at least one chapter, and the selected chapter is at least 1 (`Valid`, `HasChapters`). The code indexes `chapters[length - 1]` and `chapters[chapter - 1]` without a guard and would fail otherwise.
- React mechanics are not modelled. The context's setters become field assignments that take effect at once, so the state-updater forms `v => v + 1` and `c => c + 1` are plain increments. Re-rendering and `useContext` are not modelled.
- `Search.SearchPanel.GoTo`: the verse is set directly after the chapter. The `requestAnimationFrame` delay and the `setTimeout` scroll into view are display effects.
- The optional `abbrev` field of a book is never read by the core and is not modelled.
- `SearchProofs.HighlightRoundTrip` assumes nothing about `normalizedVerse` and `text`. The code slices `text` at positions found in `normalizedVerse`, so the highlighted pieces match the query only where normalization keeps lengths. The model does not relate the two strings.
- `Search.Render`: the HTML of a match is stated only through its definition; the model does not parse HTML or model `dangerouslySetInnerHTML`.
- The result list's counters ("N resultado(s)", "0 resultado") are display text computed from `results` and `hasSearched`, and are not modelled.
- The sidebar, page, layout, translation and theme selectors, theme context, dataset conversion script and style configuration are not part of this model.
- Strings are sequences of Unicode code points. JavaScript strings are sequences of UTF-16 code units, so outside the Basic Multilingual Plane positions and lengths differ, and a `slice` that splits a surrogate pair is not modelled.
- Numbers are unbounded integers. JavaScript numbers are doubles, but every chapter, verse and index here stays far below 2^53.

## Findings

| source | as written | input that shows it | evidently intended | confidence | as-written member | corrected member |
|---|---|---|---|---|---|---|
| src/components/Search.tsx:183-193 | the highlight loop resumes at `pos + q.length` and stops only when `indexOf` returns -1 | a query made only of a combining accent, such as U+0301: it is not blank, so the search runs; it normalizes to "", so every verse matches; `indexOf("", 0)` is 0 and stays 0, so rendering the first result never ends | no highlighting when the normalized query is empty: the text is shown as one plain part | not executed | SearchProofs.AsWrittenLoopStuckOnEmptyQuery | Search.Highlight |
