# Mac-Book-Reader navigation engine in Dafny

This project models the EPUB reader's navigation engine and proves properties of it. The engine is `ReaderViewModel`. It keeps a position in a book: a chapter, which is an index into the spine, and a sub-page inside that chapter. The web view reports how many sub-pages the chapter has.

The model covers:

- **Page turns.** `nextPage` and `previousPage` move the position.
- **Jumps.** `jumpToChapter`, together with the `didSet` on `currentChapterIndex`, moves to another chapter and resets pagination through `updateChapterURL`.
- **Deferred navigation.** A jump requested before the book has loaded is applied at the end of `loadBook`.
- **Table-of-contents resolution.** `spineIndex(for:)` maps a table-of-contents (TOC) entry to a spine position with a four-rule path matcher. `findTitle` maps a spine position back to a title by pre-order search, and `currentChapterTitle` supplies the "Chapter N" fallback.
- **The reading-time counter.**
- **The web view's callbacks** in `EPUBPageView`: page-count reports, load commits, the once-per-load CSS injection and the single effect `updateNSView` chooses.
- **Two value types.** The location line of a `Note`, and the 120-second unlock rule of `PageReadingRecord`.

The model is arranged in two layers:

- **Values.** `Navigation` describes the engine as a value, `ReaderState`, with one transition function per operation. The properties are proved about these functions.
- **Objects.** `ViewModel.ReaderViewModel` is a class with the same fields, and its methods update those fields in place. Each method's contract says that the new `State()` is the matching transition applied to the old state. So every property proved about the functions holds for the class.
- **Coordinator and callers.** `PageView.Coordinator` writes into that object, as the Swift coordinator writes into its parent's view model. The views that drive the engine appear in `Callers` as the calls they make.

Modules, one per file:

- `wrappers.dfy`: `Option`, standing for Swift optionals.
- `text.dfy`: the Foundation string operations the engine uses:
  - `components(separatedBy:)`
  - `hasSuffix`
  - `lastPathComponent`
  - `appendingPathComponent`
  - decimal rendering of an `Int`
- `epub.dfy`: the parsed document as a read-only value (spine idrefs, manifest, TOC tree).
- `toc_resolution.dfy`: `spineIndex`, `findTitle` and `currentChapterTitle` as functions.
- `navigation.dfy`: `ReaderState` and the transitions.
- `reader_view_model.dfy`: the class.
- `epub_page_view.dfy`: the page count, the effect dispatch and the coordinator class.
- `callers.dfy`: the key monitor, toolbar, note rows and chapter list.
- `note.dfy`, `reading_progress.dfy`: the model types.

Inputs stand in for the outside world:

- The outcome of `loadBook`'s file handling is a parameter, `LoadOutcome`.
- What the web view currently shows is a parameter of `UpdateView`.
- The existence of the web view is a flag.

### Going back across a chapter boundary

`previousPage` across a chapter boundary lands on sub-page 0 of the earlier chapter; the comment at ReaderViewModel.swift:226 says it should ideally go to the last page. The model follows the code. `Navigation.NextThenPreviousAcrossChapter` proves that next then previous across a boundary returns the reader to their position exactly when they were on sub-page 0.

### Which reset the pending page survives

`Navigation.PendingPageSurvivesChapterReset` is about the reset in the chapter's `didSet` only. The web view's commit reset (`PageView.CommitNavigation`) sets the sub-page to 0 whenever a load commits, and in the source the web view exists only once `loadBook` has set the chapter URL, so that commit comes after the pending step.

## Model

| member | source | states |
|---|---|---|
| Text.HasSuffix | BookReaderPackage/Sources/BookReaderFeature/ViewModels/ReaderViewModel.swift:260-261 | A suffix is never longer than the string, the empty string is a suffix of every string, and a suffix as long as the string is the string |
| Text.SuffixOfAppend | BookReaderPackage/Sources/BookReaderFeature/ViewModels/ReaderViewModel.swift:260-261 | Any string followed by `t` has suffix `t` |
| Text.SuffixSplits | BookReaderPackage/Sources/BookReaderFeature/ViewModels/ReaderViewModel.swift:260-261 | A string with suffix `t` is its first `|s| - |t|` characters followed by `t` |
| Text.Split | BookReaderPackage/Sources/BookReaderFeature/ViewModels/ReaderViewModel.swift:239 | There is at least one piece, none contains the separator, and there is more than one piece exactly when the separator occurs |
| Text.SplitJoin | BookReaderPackage/Sources/BookReaderFeature/ViewModels/ReaderViewModel.swift:239 | Joining the pieces with the separator gives back the input |
| Text.SplitFirst | BookReaderPackage/Sources/BookReaderFeature/ViewModels/ReaderViewModel.swift:240 | The first piece is the prefix of the input before the first separator (all of it when there is none) |
| Text.SplitLast | BookReaderPackage/Sources/BookReaderFeature/ViewModels/ReaderViewModel.swift:241 | The last piece is the suffix after the last separator, preceded by a separator whenever there are several pieces |
| Text.TrimTrailingSlashes | BookReaderPackage/Sources/BookReaderFeature/ViewModels/ReaderViewModel.swift:256-257 | The result is a prefix of the path, does not end in `/`, and only slashes were removed |
| Text.LastPathComponent | BookReaderPackage/Sources/BookReaderFeature/ViewModels/ReaderViewModel.swift:256-257 | The empty path gives the empty component, and a non-empty path of slashes only gives `/` |
| Text.LastPathComponentOfName | BookReaderPackage/Sources/BookReaderFeature/ViewModels/ReaderViewModel.swift:256-257 | A path without `/` is its own last component |
| Text.LastPathComponentIsSuffix | BookReaderPackage/Sources/BookReaderFeature/ViewModels/ReaderViewModel.swift:256-257 | Once trailing slashes are dropped, the last component is non-empty, contains no `/`, ends the path, and is either the whole trimmed path or preceded by `/` |
| Text.AppendPath | BookReaderPackage/Sources/BookReaderFeature/ViewModels/ReaderViewModel.swift:323-326 | The joined path starts with the base and ends with the component; the model inserts one `/` between them, or none when the base already ends with `/` (Foundation's leading-`/` and directory cases are listed under Left out) |
| Text.Decimal | BookReaderPackage/Sources/BookReaderFeature/ViewModels/ReaderViewModel.swift:38 | The numeral is non-empty, all digits, with no leading zero |
| Text.DecimalRoundTrip | BookReaderPackage/Sources/BookReaderFeature/ViewModels/ReaderViewModel.swift:38 | Reading the numeral back gives the number |
| TocResolution.TocPathParts | BookReaderPackage/Sources/BookReaderFeature/ViewModels/ReaderViewModel.swift:239-240 | The match path is the prefix of the target before its first `#`, and the whole target exactly when there is no `#` |
| TocResolution.TocFragmentParts | BookReaderPackage/Sources/BookReaderFeature/ViewModels/ReaderViewModel.swift:239-241 | A fragment exists exactly when `#` occurs in the target, and is then the text after the last `#` |
| TocResolution.PathsMatch | BookReaderPackage/Sources/BookReaderFeature/ViewModels/ReaderViewModel.swift:250-262 | Equal paths match, and an empty path on either side matches everything |
| TocResolution.PathsMatchSymmetric | BookReaderPackage/Sources/BookReaderFeature/ViewModels/ReaderViewModel.swift:259-262 | The four rules together give the same answer when the manifest and TOC paths swap places |
| TocResolution.FirstMatchFrom | BookReaderPackage/Sources/BookReaderFeature/ViewModels/ReaderViewModel.swift:246-267 | The result is the least spine position from `k` on whose item is in the manifest and passes a matching rule; none means no position does |
| TocResolution.ResolveToc | BookReaderPackage/Sources/BookReaderFeature/ViewModels/ReaderViewModel.swift:232-271 | A nil index always comes with a nil fragment; a found index is the first matching spine position and carries the target's fragment; no index with a document and a target means no spine position matches |
| TocResolution.FragmentOnlyTargetMatchesFirstListed | BookReaderPackage/Sources/BookReaderFeature/ViewModels/ReaderViewModel.swift:259-261 | A target `#f` has the empty path, which every manifest path ends with, so it resolves to the first spine item present in the manifest, with fragment `f` |
| TocResolution.SuffixMatchResolves | BookReaderPackage/Sources/BookReaderFeature/ViewModels/ReaderViewModel.swift:250-264 | A target `p#f` whose path ends the first spine item's manifest path resolves to position 0 with fragment `f` |
| TocResolution.SuffixMatchExample | BookReaderPackage/Sources/BookReaderFeature/ViewModels/ReaderViewModel.swift:252 | Manifest path `OEBPS/text/ch1.html` and target `text/ch1.html#sec2` give `(0, "sec2")` |
| TocResolution.FirstTitleIndex | BookReaderPackage/Sources/BookReaderFeature/ViewModels/ReaderViewModel.swift:279-291 | The least position in a node list whose path before `#` equals the spine path; none means no node matches |
| TocResolution.FindTitleIn | BookReaderPackage/Sources/BookReaderFeature/ViewModels/ReaderViewModel.swift:279-291 | When the search finds nothing, no node of the list names the path |
| TocResolution.FindTitle | BookReaderPackage/Sources/BookReaderFeature/ViewModels/ReaderViewModel.swift:273-292 | A title is found only with a TOC list, a document and the idref in the manifest; with all three the result is the pre-order first title for the idref's manifest path |
| TocResolution.FindTitleIsPreorderFirst | BookReaderPackage/Sources/BookReaderFeature/ViewModels/ReaderViewModel.swift:273-292 | The recursive search returns the label of the first node in pre-order (node, then children, then later siblings) whose path equals the spine path exactly |
| TocResolution.ChapterTitle | BookReaderPackage/Sources/BookReaderFeature/ViewModels/ReaderViewModel.swift:34-39 | The title is absent exactly when there is no document or the index is past the spine |
| TocResolution.ChapterTitleCases | BookReaderPackage/Sources/BookReaderFeature/ViewModels/ReaderViewModel.swift:34-39 | The title is absent exactly when there is no document or the index is past the spine; otherwise it is the pre-order title, or the fallback when there is none, the idref is not in the manifest, or the TOC has no sub-table |
| TocResolution.FallbackTitleNumber | BookReaderPackage/Sources/BookReaderFeature/ViewModels/ReaderViewModel.swift:38 | The fallback is `Chapter ` followed by the one-based chapter number |
| Navigation.Initial | BookReaderPackage/Sources/BookReaderFeature/ViewModels/ReaderViewModel.swift:7-48 | A new view model is at chapter 0, sub-page 0 of 1, with nothing loaded, pending or counted |
| Navigation.ChapterURL | BookReaderPackage/Sources/BookReaderFeature/ViewModels/ReaderViewModel.swift:320-328 | The chapter URL starts with the base and ends with the chapter's resource path |
| Navigation.ChapterURLNamesResource | BookReaderPackage/Sources/BookReaderFeature/ViewModels/ReaderViewModel.swift:322-327 | The chapter URL ends with the manifest path, or with the idref when the manifest lacks it |
| Navigation.UpdateChapterURL | BookReaderPackage/Sources/BookReaderFeature/ViewModels/ReaderViewModel.swift:312-333 | The reset touches only the URL and pagination, never the chapter or anything else |
| Navigation.AssignChapter | BookReaderPackage/Sources/BookReaderFeature/ViewModels/ReaderViewModel.swift:16-22 | After the assignment the chapter is the assigned value, and only the URL and pagination can change besides |
| Navigation.AssignChapterCases | BookReaderPackage/Sources/BookReaderFeature/ViewModels/ReaderViewModel.swift:312-333 | The same value changes nothing; a new value with document, base and an in-range index sets the URL and resets to sub-page 0 of 1; otherwise only the index changes |
| Navigation.NextPage | BookReaderPackage/Sources/BookReaderFeature/ViewModels/ReaderViewModel.swift:197-214 | Never moves backward in (chapter, sub-page) order, keeps an in-range chapter in range, and changes nothing but position, pagination and URL |
| Navigation.NextPageCases | BookReaderPackage/Sources/BookReaderFeature/ViewModels/ReaderViewModel.swift:200-212 | Before the last sub-page it increments only the sub-page; at or past it, it moves to (chapter+1, 0) if a next chapter exists; otherwise, including with no document, it changes nothing |
| Navigation.NextPageAtEndIsNoOp | BookReaderPackage/Sources/BookReaderFeature/ViewModels/ReaderViewModel.swift:206-212 | On the last sub-page of the last chapter nothing changes |
| Navigation.PreviousPage | BookReaderPackage/Sources/BookReaderFeature/ViewModels/ReaderViewModel.swift:216-230 | Never moves forward in (chapter, sub-page) order, keeps an in-range chapter in range, and changes nothing but position, pagination and URL |
| Navigation.PreviousPageCases | BookReaderPackage/Sources/BookReaderFeature/ViewModels/ReaderViewModel.swift:219-228 | Decrements a positive sub-page; otherwise moves to (chapter-1, 0), sub-page 0 and not the last page, even with no document; at chapter 0 it changes nothing |
| Navigation.NextThenPreviousWithinChapter | BookReaderPackage/Sources/BookReaderFeature/ViewModels/ReaderViewModel.swift:200-221 | Inside one chapter, next then previous restores the whole state |
| Navigation.NextThenPreviousAcrossChapter | BookReaderPackage/Sources/BookReaderFeature/ViewModels/ReaderViewModel.swift:206-226 | Across a chapter boundary, next then previous lands on sub-page 0 of the original chapter, which restores the position exactly when it was 0 |
| Navigation.JumpToChapter | BookReaderPackage/Sources/BookReaderFeature/ViewModels/ReaderViewModel.swift:294-304 | Ignored with no document or an index past the spine; otherwise at (index, 0) with the chapter in range, the pending fragment overwritten only by a non-nil fragment, and the rest as the chapter assignment leaves it |
| Navigation.IsCurrentChapter | BookReaderPackage/Sources/BookReaderFeature/ViewModels/ReaderViewModel.swift:306-308 | An entry can be current only when it has a target and the current chapter is in the spine |
| Navigation.IsCurrentChapterMeansFirstMatch | BookReaderPackage/Sources/BookReaderFeature/ViewModels/ReaderViewModel.swift:306-308 | An entry is current exactly when the current chapter is in range and is the first spine position the entry's path matches |
| Navigation.SetPendingNavigation | BookReaderPackage/Sources/BookReaderFeature/ViewModels/ReaderViewModel.swift:73-76 | Both pending fields take the given values, nil included, and nothing else changes |
| Navigation.ApplyPending | BookReaderPackage/Sources/BookReaderFeature/ViewModels/ReaderViewModel.swift:157-167 | Both pending fields end up nil; the chapter becomes the pending chapter, unchecked, if there is one; the URL and page total are what that chapter assignment leaves; a pending page becomes the sub-page although the assignment ran before it; the error message and every other field are unchanged |
| Navigation.Loaded | BookReaderPackage/Sources/BookReaderFeature/ViewModels/ReaderViewModel.swift:78-155 | Before the pending step: each outcome's message; a failed extraction changes nothing else; a parsed book stores document and base; with chapters it is at chapter 0 with that chapter's URL, pagination reset only when the chapter was not already 0; without chapters nothing else changes; pending fields, fragment and timer are kept |
| Navigation.LoadBook | BookReaderPackage/Sources/BookReaderFeature/ViewModels/ReaderViewModel.swift:78-167 | Each outcome leaves its error message; an early return changes only the message and keeps the pending fields; otherwise the state is the pending step applied to the loaded state, so the pending chapter, when there is one, is the final chapter, and chapter 0 of a parsed book with chapters otherwise; the timer and the pending fragment never change; a parsed book stores the document and base URL |
| Navigation.LoadBookOpensFirstChapter | BookReaderPackage/Sources/BookReaderFeature/ViewModels/ReaderViewModel.swift:133-143 | A book with chapters and no pending chapter opens at chapter 0 on its chapter URL, on the pending page if there is one |
| Navigation.PendingPageSurvivesChapterReset | BookReaderPackage/Sources/BookReaderFeature/ViewModels/ReaderViewModel.swift:158-167 | When the pending step runs, the final sub-page is the pending page and the chapter is the pending chapter |
| Navigation.Tick | BookReaderPackage/Sources/BookReaderFeature/ViewModels/ReaderViewModel.swift:341 | A tick adds one second and changes nothing else |
| Navigation.ResetTimeTracking | BookReaderPackage/Sources/BookReaderFeature/ViewModels/ReaderViewModel.swift:351-353 | The counter becomes 0 and nothing else changes |
| Navigation.TicksCount | BookReaderPackage/Sources/BookReaderFeature/ViewModels/ReaderViewModel.swift:337-353 | `n` ticks after a reset, the counter reads `n` |
| Navigation.SetSubPage | BookReaderPackage/Sources/BookReaderFeature/Views/Reader/NotesSidePanel.swift:28 | Only the sub-page changes, to the note's page |
| Navigation.JumpToNote | BookReaderPackage/Sources/BookReaderFeature/Views/Reader/BookNotesView.swift:62-65 | The state is the chapter assignment to the note's chapter (when it has one) followed by setting the note's page; so the URL follows a changed chapter and the page total resets, the sub-page is the note's page despite that reset, and nothing else changes |
| Navigation.SelectTocEntry | BookReaderPackage/Sources/BookReaderFeature/Views/Reader/ChapterListSidePanel.swift:56-59 | An entry that resolves to nothing changes nothing; one that resolves becomes the current chapter, at sub-page 0 |
| Navigation.SelectTocEntryCases | BookReaderPackage/Sources/BookReaderFeature/Views/Reader/ChapterListSidePanel.swift:56-59 | An entry with no match changes nothing; a matched one is the chapter assignment to its spine position, then sub-page 0, with the pending fragment set when the target has one and kept otherwise; the chapter is in range and nothing else changes |
| Navigation.ArrowKey | BookReaderPackage/Sources/BookReaderFeature/Views/Reader/ReaderView.swift:40-51 | An unmodified left arrow is the previous-page transition and an unmodified right arrow the next-page transition, so left never moves forward and right never backward; any other key or a held modifier leaves navigation unchanged |
| ViewModel.ReaderViewModel.constructor | BookReaderPackage/Sources/BookReaderFeature/ViewModels/ReaderViewModel.swift:67-70 | The new object's state is the initial state |
| ViewModel.ReaderViewModel.SetPendingNavigation | BookReaderPackage/Sources/BookReaderFeature/ViewModels/ReaderViewModel.swift:73-76 | The new state is the pending-navigation transition of the old one |
| ViewModel.ReaderViewModel.SetChapter | BookReaderPackage/Sources/BookReaderFeature/ViewModels/ReaderViewModel.swift:16-22 | The assignment and its `didSet` give the chapter-assignment transition |
| ViewModel.ReaderViewModel.UpdateChapterURL | BookReaderPackage/Sources/BookReaderFeature/ViewModels/ReaderViewModel.swift:312-333 | The in-place reset equals the reset transition |
| ViewModel.ReaderViewModel.LoadBook | BookReaderPackage/Sources/BookReaderFeature/ViewModels/ReaderViewModel.swift:78-167 | The in-place load equals the load transition for the same outcome |
| ViewModel.ReaderViewModel.ApplyPending | BookReaderPackage/Sources/BookReaderFeature/ViewModels/ReaderViewModel.swift:157-167 | The in-place pending step equals the pending transition |
| ViewModel.ReaderViewModel.NextPage | BookReaderPackage/Sources/BookReaderFeature/ViewModels/ReaderViewModel.swift:197-214 | The in-place step equals the next-page transition |
| ViewModel.ReaderViewModel.PreviousPage | BookReaderPackage/Sources/BookReaderFeature/ViewModels/ReaderViewModel.swift:216-230 | The in-place step equals the previous-page transition |
| ViewModel.ReaderViewModel.JumpToChapter | BookReaderPackage/Sources/BookReaderFeature/ViewModels/ReaderViewModel.swift:294-304 | The in-place jump equals the jump transition |
| ViewModel.ReaderViewModel.SpineIndex | BookReaderPackage/Sources/BookReaderFeature/ViewModels/ReaderViewModel.swift:232-271 | The early-returning loop over the spine returns exactly the resolution of the entry: the first matching position with the fragment, or `(nil, nil)` |
| ViewModel.ReaderViewModel.IsCurrentChapter | BookReaderPackage/Sources/BookReaderFeature/ViewModels/ReaderViewModel.swift:306-308 | True exactly when the entry resolves to the current chapter |
| ViewModel.ReaderViewModel.CurrentChapterTitle | BookReaderPackage/Sources/BookReaderFeature/ViewModels/ReaderViewModel.swift:34-39 | Absent exactly when no chapter is at the current index |
| ViewModel.ReaderViewModel.Tick | BookReaderPackage/Sources/BookReaderFeature/ViewModels/ReaderViewModel.swift:339-343 | The timer's increment equals the tick transition |
| ViewModel.ReaderViewModel.ResetTimeTracking | BookReaderPackage/Sources/BookReaderFeature/ViewModels/ReaderViewModel.swift:351-353 | The reset equals the reset transition |
| PageView.ReceivePagination | BookReaderPackage/Sources/BookReaderFeature/Views/Reader/EPUBPageView.swift:117-131 | A `pagination` message with an integer `totalPages` sets the page total to exactly that value; any other message changes nothing |
| PageView.ReceivePaginationIdempotent | BookReaderPackage/Sources/BookReaderFeature/Views/Reader/EPUBPageView.swift:125-128 | Receiving a message twice is receiving it once, and a report of the current total changes nothing |
| PageView.CommitNavigation | BookReaderPackage/Sources/BookReaderFeature/Views/Reader/EPUBPageView.swift:141-146 | A commit resets to sub-page 0 of 1 and changes nothing else |
| PageView.ClearPendingFragment | BookReaderPackage/Sources/BookReaderFeature/Views/Reader/EPUBPageView.swift:83-85 | The pending fragment becomes nil and nothing else changes |
| PageView.PageCount | BookReaderPackage/Sources/BookReaderFeature/Views/Reader/EPUBPageView.swift:216 | The count is at least 1, its pages cover the content width, and it is the least such count |
| PageView.ReportedCountIsPositive | BookReaderPackage/Sources/BookReaderFeature/Views/Reader/EPUBPageView.swift:250 | A reported script count leaves the page total at least 1 |
| PageView.Dispatch | BookReaderPackage/Sources/BookReaderFeature/Views/Reader/EPUBPageView.swift:71-91 | No effect happens exactly when there is no chapter URL or no web view |
| PageView.DispatchPrecedence | BookReaderPackage/Sources/BookReaderFeature/Views/Reader/EPUBPageView.swift:74-90 | A reload happens exactly when the shown URL differs, even with a fragment pending; a fragment scroll exactly when the URL is the same and a fragment is pending; a page scroll exactly otherwise, to the current sub-page |
| PageView.AfterEffect | BookReaderPackage/Sources/BookReaderFeature/Views/Reader/EPUBPageView.swift:78-85 | A fragment scroll clears the pending fragment; the other effects leave the state alone |
| PageView.Coordinator.constructor | BookReaderPackage/Sources/BookReaderFeature/Views/Reader/EPUBPageView.swift:104-109 | A new coordinator has no web view and has not injected |
| PageView.Coordinator.MakeView | BookReaderPackage/Sources/BookReaderFeature/Views/Reader/EPUBPageView.swift:62-66 | The web view is stored and loads the chapter URL; the injection state is unchanged |
| PageView.Coordinator.ReceiveMessage | BookReaderPackage/Sources/BookReaderFeature/Views/Reader/EPUBPageView.swift:117-131 | The view model's new state is the message transition of its old state |
| PageView.Coordinator.DidCommit | BookReaderPackage/Sources/BookReaderFeature/Views/Reader/EPUBPageView.swift:141-146 | The view model's new state is the commit transition of its old state |
| PageView.Coordinator.InjectPaginationCSS | BookReaderPackage/Sources/BookReaderFeature/Views/Reader/EPUBPageView.swift:151-153 | Injects exactly when there is a web view and no injection since the last `didFinish`; injections since then never exceed one |
| PageView.Coordinator.DidFinish | BookReaderPackage/Sources/BookReaderFeature/Views/Reader/EPUBPageView.swift:135-139 | Clears the flag and injects once exactly when there is a web view |
| PageView.Coordinator.UpdateView | BookReaderPackage/Sources/BookReaderFeature/Views/Reader/EPUBPageView.swift:71-91 | The effect is the dispatch of the view model's URL, pending fragment and sub-page, and the view model ends as that effect leaves it |
| Callers.ArrowKeyDown | BookReaderPackage/Sources/BookReaderFeature/Views/Reader/ReaderView.swift:40-51 | The view model follows the arrow-key transition, and a left or right arrow event is consumed exactly when no modifier is held |
| Callers.PreviousButtonTapped | BookReaderPackage/Sources/BookReaderFeature/Views/Reader/ReaderToolbar.swift:12 | The back button performs the previous-page transition |
| Callers.NextButtonTapped | BookReaderPackage/Sources/BookReaderFeature/Views/Reader/ReaderToolbar.swift:45 | The forward button performs the next-page transition |
| Callers.NoteRowTapped | BookReaderPackage/Sources/BookReaderFeature/Views/Reader/BookNotesView.swift:62-65 | A note row moves to the note's chapter, through the chapter assignment, and then to its page |
| Callers.JumpToNotePage | BookReaderPackage/Sources/BookReaderFeature/Views/Reader/NotesSidePanel.swift:28 | The side panel sets only the sub-page |
| Callers.TocEntryTapped | BookReaderPackage/Sources/BookReaderFeature/Views/Reader/ChapterListSidePanel.swift:56-59 | A chapter-list tap jumps to the entry's resolution, and does nothing when it has none |
| Notes.DisplayLocation | BookReaderPackage/Sources/BookReaderFeature/Models/Note.swift:27-32 | Without a page reference the line is "Unknown location"; with one, the line ends with it |
| Notes.DisplayLocationCases | BookReaderPackage/Sources/BookReaderFeature/Models/Note.swift:27-32 | Chapter, separator and page when both are known; the page reference alone when the chapter is not; "Unknown location" when the page reference is missing, whatever the chapter |
| Notes.NewNote | BookReaderPackage/Sources/BookReaderFeature/Models/Note.swift:34-56 | The initializer stores every argument unchanged |
| Notes.NewNoteDefaults | BookReaderPackage/Sources/BookReaderFeature/Models/Note.swift:34-45 | The defaults: page 0, no chapter index, no tags, no page reference, selection or chapter title, and therefore an unknown location |
| Progress.NewPageReadingRecord | BookReaderPackage/Sources/BookReaderFeature/Models/ReadingProgress.swift:32-35 | The record stores identifier and seconds unchanged |
| Progress.PageReadingRecord.HasUnlockedAI | BookReaderPackage/Sources/BookReaderFeature/Models/ReadingProgress.swift:30 | A record with no time spent is locked, and one with two minutes or more is unlocked |
| Progress.UnlockThreshold | BookReaderPackage/Sources/BookReaderFeature/Models/ReadingProgress.swift:30 | Unlocked exactly from 120 seconds: 119 is locked, 120 unlocked |
| Progress.UnlockMonotone | BookReaderPackage/Sources/BookReaderFeature/Models/ReadingProgress.swift:30 | A record with at least as many seconds as an unlocked one is unlocked |
| Progress.NewReadingProgress | BookReaderPackage/Sources/BookReaderFeature/Models/ReadingProgress.swift:17-24 | The initializer stores its arguments unchanged and starts with no page times |
| Progress.ReadingProgressDefaults | BookReaderPackage/Sources/BookReaderFeature/Models/ReadingProgress.swift:17 | The defaults: page 0, no chapter, location or page total, and no page times |

## Left out

- File handling in `loadBook` is not modelled: path resolution, the file checks, the cache directory, the `unzip` process and the search for the content directory. These are filesystem work and an external process; their outcome is the `LoadOutcome` parameter.
- EPUB parsing is not modelled. It is a library, so the spine, manifest and TOC are given values.
- `findContentBaseURL` is declared as throwing after the document has been stored. The enumeration it does cannot throw, so that path is not modelled.
- The `isLoading` flag and its guard against a second concurrent `loadBook` are not modelled. The guard only matters across the `await`, which is concurrency.
- `startTrackingTime` and `stopTrackingTime` are not modelled. The Timer and the main-actor task are scheduling, so only the tick they perform (`Tick`) and the reset are modelled.
- `Navigation.Tick`: the counter is a `nat` of whole seconds, where the source uses `TimeInterval`, a floating-point type.
- `Navigation.ReaderState`: the current chapter, the pending chapter and a note's chapter are non-negative.
  - The source stores `Int`, but it indexes the spine with that value once a document is loaded, which traps on a negative value.
  - So `JumpToChapter`, `SetPendingNavigation` and `Callers.NoteRowTapped` require a non-negative chapter.
- The `DispatchQueue.main.async` hops are not modelled. They appear in the arrow-key monitor (ReaderView.swift:42 and :47), the message handler, the commit reset and the clearing of the pending fragment, and the model applies each one at once. Their scheduling relative to other main-thread work is concurrency.
- `PageView.Coordinator.UpdateView` takes the URL the web view currently shows as a parameter. WebKit sets that URL, and the `.id(url)` rebuild of the view on a URL change is not modelled.
- Rendering is not modelled: view construction, layout constraints, the CSS and script text and the bodies of `scrollToPage` and `scrollToFragment`. `Effect` records only which scroll or reload is requested.
- Callers.ArrowKeyDown: does not model the monitor's other shortcuts (Cmd+N, Cmd+I, Cmd+Shift+F, Esc in focus mode), which also consume their events, because they toggle UI panels and do not navigate; its contract says nothing about whether a non-arrow event is consumed.
- Text.HasSuffix: strings are sequences of Unicode code points compared one by one. Swift's `==` and `hasSuffix` compare `Character`s under canonical equivalence, so for example `"e\u{301}".hasSuffix("\u{301}")` is false in Swift and true in the model, and an NFC manifest path matches an NFD TOC path in Swift but not in the model. The same holds for `TocResolution.PathsMatch` and `TocResolution.TitleMatches`.
- Navigation.ChapterURL: URLs are modelled as their path strings. `appendingPathComponent` percent-encodes characters, which `Text.AppendPath` does not model.
- Text.AppendPath: `URL.appendingPathComponent` inserts no `/` when the component already begins with one, and can add a trailing `/` when the file URL names an existing directory. The model does neither. It always inserts a `/` unless the base ends with one (so a manifest path beginning with `/` gives a doubled slash), and it never looks at the filesystem.
- `ReadingProgress.percentComplete` is not modelled, because it is a `Double`. The owning `book` of a note or a progress record is also not modelled.
- The UI fields of `ReaderViewModel` and `clearSelection` are not modelled: `showChapterList`, `showNotes`, `selectedText`, `selectedReaderTab` and `showNotesListSheet`. They do not take part in navigation.
- `currentPage`, the alias of `currentChapterIndex`, is not a separate member: its setter is `SetChapter`.
- The "Chapter N" text that the toolbar prints is not modelled, because it is view text.
