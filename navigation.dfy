/**
 * The reader's navigation engine as values: the state the view model
 * holds, and one transition function per operation that changes it. The
 * class in reader_view_model.dfy performs the same steps in place and is
 * proved to agree with these functions; the properties of the engine are
 * proved here, about the functions.
 */
module Navigation {
  import opened Wrappers
  import opened Text
  import opened Epub
  import opened TocResolution

  /**
   * The fields of `ReaderViewModel` that navigation reads or writes. The
   * current chapter is a `nat`: the view model indexes the spine with it,
   * which traps on a negative value.
   */
  datatype ReaderState = ReaderState(
    epubDocument: Option<Document>,
    contentBaseURL: Option<string>,
    currentChapterURL: Option<string>,
    currentChapterIndex: nat,
    currentSubPage: int,
    totalSubPages: int,
    pendingScrollToFragment: Option<string>,
    pendingChapterIndex: Option<nat>,
    pendingPageIndex: Option<int>,
    timeOnCurrentPage: nat,
    errorMessage: Option<string>)

  /** The state of a freshly made view model: first chapter, first of one page, nothing loaded. */
  function Initial(): (s: ReaderState)
    ensures s.epubDocument.None? && s.contentBaseURL.None? && s.currentChapterURL.None?
    ensures s.currentChapterIndex == 0 && s.currentSubPage == 0 && s.totalSubPages == 1
    ensures s.pendingScrollToFragment.None? && s.pendingChapterIndex.None? && s.pendingPageIndex.None?
    ensures s.timeOnCurrentPage == 0 && s.errorMessage.None?
  {
    ReaderState(None, None, None, 0, 0, 1, None, None, None, 0, None)
  }

  /** The spine has a chapter at the current index. */
  predicate ChapterInRange(s: ReaderState) {
    s.epubDocument.Some? && s.currentChapterIndex < |s.epubDocument.value.spine|
  }

  /** The guard of `updateChapterURL`: a document, a base URL and an index inside the spine. */
  predicate CanUpdateURL(s: ReaderState) {
    ChapterInRange(s) && s.contentBaseURL.Some?
  }

  /** The resource of spine item `i`: its manifest path, or the idref itself when the manifest lacks it. */
  function ResourcePath(doc: Document, i: nat): string
    requires i < |doc.spine|
  {
    var idref := doc.spine[i];
    if idref in doc.manifest then doc.manifest[idref] else idref
  }

  /** The URL of chapter `i`: the content base joined with the chapter's resource path. */
  function ChapterURL(doc: Document, base: string, i: nat): (url: string)
    requires i < |doc.spine|
    ensures HasSuffix(url, ResourcePath(doc, i)) && |base| <= |url| && url[..|base|] == base
  {
    AppendPath(base, ResourcePath(doc, i))
  }

  /** The same position, pagination and chapter URL aside, nothing differs. */
  predicate SameBesidesPosition(s: ReaderState, r: ReaderState) {
    r.(currentChapterIndex := s.currentChapterIndex, currentSubPage := s.currentSubPage,
       totalSubPages := s.totalSubPages, currentChapterURL := s.currentChapterURL) == s
  }

  /** `updateChapterURL`: point at the current chapter and reset pagination, when the guard holds. */
  function UpdateChapterURL(s: ReaderState): (r: ReaderState)
    ensures SameBesidesPosition(s, r) && r.currentChapterIndex == s.currentChapterIndex
  {
    if CanUpdateURL(s) then
      var doc := s.epubDocument.value;
      s.(currentChapterURL := Some(ChapterURL(doc, s.contentBaseURL.value, s.currentChapterIndex)),
         totalSubPages := 1, currentSubPage := 0)
    else s
  }

  /** An assignment to `currentChapterIndex`: its `didSet` updates the URL only when the value changes. */
  function AssignChapter(s: ReaderState, v: nat): (r: ReaderState)
    ensures r.currentChapterIndex == v && SameBesidesPosition(s, r)
  {
    if v != s.currentChapterIndex then UpdateChapterURL(s.(currentChapterIndex := v)) else s
  }

  /**
   * Assigning the same chapter changes nothing. Assigning a different one
   * points the URL at it and resets pagination to the first of one page
   * when a document and base URL are loaded and the index is inside the
   * spine; otherwise only the index changes.
   */
  lemma AssignChapterCases(s: ReaderState, v: nat)
    ensures v == s.currentChapterIndex ==> AssignChapter(s, v) == s
    ensures v != s.currentChapterIndex && CanUpdateURL(s.(currentChapterIndex := v)) ==>
      AssignChapter(s, v) == s.(currentChapterIndex := v, totalSubPages := 1, currentSubPage := 0,
        currentChapterURL := Some(ChapterURL(s.epubDocument.value, s.contentBaseURL.value, v)))
    ensures v != s.currentChapterIndex && !CanUpdateURL(s.(currentChapterIndex := v)) ==>
      AssignChapter(s, v) == s.(currentChapterIndex := v)
  {
  }

  /** The URL names the chapter's manifest path, or its idref when the manifest has no entry for it. */
  lemma ChapterURLNamesResource(doc: Document, base: string, i: nat)
    requires i < |doc.spine|
    ensures doc.spine[i] in doc.manifest ==> HasSuffix(ChapterURL(doc, base, i), doc.manifest[doc.spine[i]])
    ensures doc.spine[i] !in doc.manifest ==> HasSuffix(ChapterURL(doc, base, i), doc.spine[i])
  {
  }

  // ---- Positions ----

  /** `(chapter, sub-page)` of `a` is at or before that of `b`, in lexicographic order. */
  predicate PositionAtOrBefore(a: ReaderState, b: ReaderState) {
    a.currentChapterIndex < b.currentChapterIndex
    || (a.currentChapterIndex == b.currentChapterIndex && a.currentSubPage <= b.currentSubPage)
  }

  /** There is a chapter after the current one. */
  predicate HasNextChapter(s: ReaderState) {
    s.epubDocument.Some? && s.currentChapterIndex < |s.epubDocument.value.spine| - 1
  }

  /** `nextPage`. */
  function NextPage(s: ReaderState): (r: ReaderState)
    ensures PositionAtOrBefore(s, r)
    ensures ChapterInRange(s) ==> ChapterInRange(r)
    ensures SameBesidesPosition(s, r)
  {
    if s.currentSubPage < s.totalSubPages - 1 then s.(currentSubPage := s.currentSubPage + 1)
    else if HasNextChapter(s) then AssignChapter(s, s.currentChapterIndex + 1).(currentSubPage := 0)
    else s
  }

  /**
   * Before the chapter's last sub-page, `nextPage` moves one sub-page on
   * and changes nothing else; at or past it, it moves to the first
   * sub-page of the next chapter if there is one; otherwise, and always
   * when no document is loaded, it changes nothing.
   */
  lemma NextPageCases(s: ReaderState)
    ensures s.currentSubPage < s.totalSubPages - 1 ==>
      NextPage(s) == s.(currentSubPage := s.currentSubPage + 1)
    ensures s.currentSubPage >= s.totalSubPages - 1 && HasNextChapter(s) ==>
      var r := NextPage(s);
      && r.currentChapterIndex == s.currentChapterIndex + 1 && r.currentSubPage == 0
      && r == AssignChapter(s, s.currentChapterIndex + 1).(currentSubPage := 0)
    ensures s.currentSubPage >= s.totalSubPages - 1 && !HasNextChapter(s) ==> NextPage(s) == s
    ensures s.epubDocument.None? && s.currentSubPage >= s.totalSubPages - 1 ==> NextPage(s) == s
  {
  }

  /** `previousPage`; across a chapter boundary it lands on sub-page 0, not on the last page. */
  function PreviousPage(s: ReaderState): (r: ReaderState)
    ensures PositionAtOrBefore(r, s)
    ensures ChapterInRange(s) ==> ChapterInRange(r)
    ensures SameBesidesPosition(s, r)
  {
    if s.currentSubPage > 0 then s.(currentSubPage := s.currentSubPage - 1)
    else if s.currentChapterIndex > 0 then AssignChapter(s, s.currentChapterIndex - 1).(currentSubPage := 0)
    else s
  }

  /**
   * `previousPage` moves back one sub-page when it can; otherwise to
   * sub-page 0 of the previous chapter, whether or not a document is
   * loaded; and at chapter 0 with no earlier sub-page it changes nothing.
   */
  lemma PreviousPageCases(s: ReaderState)
    ensures s.currentSubPage > 0 ==> PreviousPage(s) == s.(currentSubPage := s.currentSubPage - 1)
    ensures s.currentSubPage <= 0 && s.currentChapterIndex > 0 ==>
      var r := PreviousPage(s);
      && r.currentChapterIndex == s.currentChapterIndex - 1 && r.currentSubPage == 0
      && r == AssignChapter(s, s.currentChapterIndex - 1).(currentSubPage := 0)
    ensures s.currentSubPage <= 0 && s.currentChapterIndex == 0 ==> PreviousPage(s) == s
  {
  }

  /** Moving on and back inside one chapter restores the whole state. */
  lemma NextThenPreviousWithinChapter(s: ReaderState)
    requires 0 <= s.currentSubPage < s.totalSubPages - 1
    ensures PreviousPage(NextPage(s)) == s
  {
  }

  /**
   * Across a chapter boundary the round trip lands on the first sub-page
   * of the original chapter, so it restores the position exactly when the
   * reader was on sub-page 0.
   */
  lemma {:induction false} NextThenPreviousAcrossChapter(s: ReaderState)
    requires s.currentSubPage >= s.totalSubPages - 1 && HasNextChapter(s)
    ensures var r := PreviousPage(NextPage(s));
      && r.currentChapterIndex == s.currentChapterIndex && r.currentSubPage == 0
      && (r.currentSubPage == s.currentSubPage <==> s.currentSubPage == 0)
  {
    var n := NextPage(s);
    assert n.currentChapterIndex == s.currentChapterIndex + 1 && n.currentSubPage == 0;
    var r := PreviousPage(n);
    assert r == AssignChapter(n, s.currentChapterIndex).(currentSubPage := 0);
  }

  /** The terminal position: the last sub-page of the last chapter. */
  lemma NextPageAtEndIsNoOp(s: ReaderState)
    requires s.epubDocument.Some? && |s.epubDocument.value.spine| > 0
    requires s.currentChapterIndex == |s.epubDocument.value.spine| - 1
    requires s.currentSubPage == s.totalSubPages - 1
    ensures NextPage(s) == s
  {
  }

  /** `jumpToChapter(index:fragment:)`; the index has no lower-bound check, so it must not be negative. */
  function JumpToChapter(s: ReaderState, index: int, fragment: Option<string>): (r: ReaderState)
    requires index >= 0
    ensures s.epubDocument.None? || index >= |s.epubDocument.value.spine| ==> r == s
    ensures s.epubDocument.Some? && index < |s.epubDocument.value.spine| ==>
      && r.currentChapterIndex == index && r.currentSubPage == 0 && ChapterInRange(r)
      && r.pendingScrollToFragment == (if fragment.Some? then fragment else s.pendingScrollToFragment)
      && r.(pendingScrollToFragment := s.pendingScrollToFragment) == AssignChapter(s, index).(currentSubPage := 0)
  {
    if s.epubDocument.None? || index >= |s.epubDocument.value.spine| then s
    else
      var moved := AssignChapter(s, index).(currentSubPage := 0);
      if fragment.Some? then moved.(pendingScrollToFragment := fragment) else moved
  }

  /** `isCurrentChapter`: the entry resolves to the current chapter (a `nil` index never does). */
  function IsCurrentChapter(s: ReaderState, entry: Toc): (b: bool)
    ensures b ==> ChapterInRange(s) && entry.item.Some?
  {
    ResolveToc(s.epubDocument, entry).index == Some(s.currentChapterIndex)
  }

  /** The entry is current exactly when the current chapter is the first spine position it matches. */
  lemma IsCurrentChapterMeansFirstMatch(s: ReaderState, entry: Toc)
    ensures IsCurrentChapter(s, entry) <==>
      && s.epubDocument.Some? && entry.item.Some? && ChapterInRange(s)
      && MatchesAt(s.epubDocument.value, TocPath(entry.item.value), s.currentChapterIndex)
      && forall j :: 0 <= j < s.currentChapterIndex ==> !MatchesAt(s.epubDocument.value, TocPath(entry.item.value), j)
  {
  }

  // ---- Loading ----

  /** `setPendingNavigation(chapterIndex:pageIndex:)`: both fields are overwritten, with `nil` too. */
  function SetPendingNavigation(s: ReaderState, chapterIndex: Option<nat>, pageIndex: Option<int>): (r: ReaderState)
    ensures r.pendingChapterIndex == chapterIndex && r.pendingPageIndex == pageIndex
    ensures r.(pendingChapterIndex := s.pendingChapterIndex, pendingPageIndex := s.pendingPageIndex) == s
  {
    s.(pendingChapterIndex := chapterIndex, pendingPageIndex := pageIndex)
  }

  /**
   * The last step of `loadBook`: a pending chapter is assigned, unchecked
   * and through the chapter's `didSet`, and then a pending page.
   */
  function ApplyPending(s: ReaderState): (r: ReaderState)
    ensures r.pendingChapterIndex.None? && r.pendingPageIndex.None?
    ensures r.currentChapterIndex == s.pendingChapterIndex.GetOr(s.currentChapterIndex)
    ensures r.currentSubPage == (match s.pendingPageIndex
      case Some(p) => p
      case None => AssignChapter(s, r.currentChapterIndex).currentSubPage)
    ensures r.epubDocument == s.epubDocument && r.contentBaseURL == s.contentBaseURL
    ensures r.pendingScrollToFragment == s.pendingScrollToFragment && r.timeOnCurrentPage == s.timeOnCurrentPage
    ensures r.errorMessage == s.errorMessage
    ensures var moved := AssignChapter(s, r.currentChapterIndex);
      r.totalSubPages == moved.totalSubPages && r.currentChapterURL == moved.currentChapterURL
    ensures SameBesidesPosition(s, r.(pendingChapterIndex := s.pendingChapterIndex, pendingPageIndex := s.pendingPageIndex))
  {
    var t := match s.pendingChapterIndex
      case Some(c) => AssignChapter(s, c).(pendingChapterIndex := None)
      case None => s;
    match t.pendingPageIndex
    case Some(p) => t.(currentSubPage := p, pendingPageIndex := None)
    case None => t
  }

  /**
   * What the file handling of `loadBook` ends with. The path resolution,
   * the file checks, the cache directory, the unzip process and the parser
   * are outside the model; their outcomes are inputs.
   */
  datatype LoadOutcome =
    | NoDocumentsDirectory
    | FileNotFound(path: string)
    | ExtractionFailed(description: string)
    | ParseFailed
    | Parsed(document: Document, contentBase: string)

  /** The outcomes after which `loadBook` returns early, before the pending step. */
  predicate ReturnsEarly(outcome: LoadOutcome) {
    outcome.NoDocumentsDirectory? || outcome.FileNotFound? || outcome.ParseFailed?
  }

  /** The error message each outcome leaves behind. */
  function LoadError(outcome: LoadOutcome): Option<string> {
    match outcome
    case NoDocumentsDirectory => Some("Could not find documents directory.")
    case FileNotFound(path) => Some("Book file not found at: " + path)
    case ExtractionFailed(description) => Some("Failed to load book: " + description)
    case ParseFailed => Some("Failed to parse EPUB.")
    case Parsed(doc, _) => if |doc.spine| == 0 then Some("No chapters found in this book.") else None
  }

  /**
   * The state the file handling of `loadBook` leaves when it does not
   * return early, just before the pending step. A parsed document and its
   * base URL are stored; with chapters, chapter 0 is assigned (its `didSet`
   * resets pagination only when the index was not already 0) and its URL
   * set; without, the error is recorded. A failed extraction only records
   * its message. The pending fields, the fragment and the timer are kept.
   */
  function Loaded(s: ReaderState, outcome: LoadOutcome): (t: ReaderState)
    requires !ReturnsEarly(outcome)
    ensures t.errorMessage == LoadError(outcome)
    ensures t.pendingChapterIndex == s.pendingChapterIndex && t.pendingPageIndex == s.pendingPageIndex
    ensures t.pendingScrollToFragment == s.pendingScrollToFragment && t.timeOnCurrentPage == s.timeOnCurrentPage
    ensures outcome.ExtractionFailed? ==> t == s.(errorMessage := LoadError(outcome))
    ensures outcome.Parsed? ==>
      t.epubDocument == Some(outcome.document) && t.contentBaseURL == Some(outcome.contentBase)
    ensures outcome.Parsed? && |outcome.document.spine| == 0 ==>
      t == s.(epubDocument := Some(outcome.document), contentBaseURL := Some(outcome.contentBase),
              errorMessage := LoadError(outcome))
    ensures outcome.Parsed? && |outcome.document.spine| > 0 ==>
      && t.currentChapterIndex == 0 && ChapterInRange(t)
      && t.currentChapterURL == Some(ChapterURL(outcome.document, outcome.contentBase, 0))
      && t.currentSubPage == (if s.currentChapterIndex == 0 then s.currentSubPage else 0)
      && t.totalSubPages == (if s.currentChapterIndex == 0 then s.totalSubPages else 1)
  {
    match outcome
    case Parsed(doc, base) =>
      var loaded := s.(epubDocument := Some(doc), contentBaseURL := Some(base), errorMessage := None);
      if |doc.spine| > 0
      then AssignChapter(loaded, 0).(currentChapterURL := Some(ChapterURL(doc, base, 0)))
      else loaded.(errorMessage := LoadError(outcome))
    case ExtractionFailed(_) => s.(errorMessage := LoadError(outcome))
  }

  /**
   * `loadBook` after its file handling: an early return records its
   * message and changes nothing else; otherwise the pending step runs on
   * the loaded state, so the reader ends on the pending chapter when there
   * is one and on the loaded chapter otherwise.
   */
  function LoadBook(s: ReaderState, outcome: LoadOutcome): (r: ReaderState)
    ensures r.errorMessage == LoadError(outcome)
    ensures ReturnsEarly(outcome) ==> r == s.(errorMessage := LoadError(outcome))
    ensures !ReturnsEarly(outcome) ==> r == ApplyPending(Loaded(s, outcome))
    ensures !ReturnsEarly(outcome) ==> r.pendingChapterIndex.None? && r.pendingPageIndex.None?
    ensures r.timeOnCurrentPage == s.timeOnCurrentPage && r.pendingScrollToFragment == s.pendingScrollToFragment
    ensures !ReturnsEarly(outcome) && s.pendingChapterIndex.Some? ==>
      r.currentChapterIndex == s.pendingChapterIndex.value
    ensures outcome.Parsed? && |outcome.document.spine| > 0 && s.pendingChapterIndex.None? ==>
      r.currentChapterIndex == 0
    ensures outcome.ExtractionFailed? && s.pendingChapterIndex.None? ==> r.currentChapterIndex == s.currentChapterIndex
    ensures outcome.Parsed? ==>
      r.epubDocument == Some(outcome.document) && r.contentBaseURL == Some(outcome.contentBase)
  {
    if ReturnsEarly(outcome) then s.(errorMessage := LoadError(outcome))
    else ApplyPending(Loaded(s, outcome))
  }

  /**
   * A book that loads with chapters and no pending chapter opens on its
   * first chapter's URL; the sub-page is the pending page if there is one.
   */
  lemma LoadBookOpensFirstChapter(s: ReaderState, doc: Document, base: string)
    requires |doc.spine| > 0 && s.pendingChapterIndex.None?
    ensures var r := LoadBook(s, Parsed(doc, base));
      && r.currentChapterIndex == 0 && ChapterInRange(r)
      && r.currentChapterURL == Some(ChapterURL(doc, base, 0))
      && (s.pendingPageIndex.Some? ==> r.currentSubPage == s.pendingPageIndex.value)
  {
  }

  /**
   * The chapter assignment, with its reset, runs before the page
   * assignment: after the pending step the sub-page is the pending page,
   * whichever chapter was pending and whether or not it is in range.
   */
  lemma PendingPageSurvivesChapterReset(s: ReaderState, outcome: LoadOutcome)
    requires !ReturnsEarly(outcome) && s.pendingPageIndex.Some?
    ensures LoadBook(s, outcome).currentSubPage == s.pendingPageIndex.value
    ensures s.pendingChapterIndex.Some? ==> LoadBook(s, outcome).currentChapterIndex == s.pendingChapterIndex.value
  {
  }

  // ---- Time on page ----

  /** One tick of the reading timer. */
  function Tick(s: ReaderState): (r: ReaderState)
    ensures r.timeOnCurrentPage == s.timeOnCurrentPage + 1
    ensures r.(timeOnCurrentPage := s.timeOnCurrentPage) == s
  {
    s.(timeOnCurrentPage := s.timeOnCurrentPage + 1)
  }

  /** `resetTimeTracking`. */
  function ResetTimeTracking(s: ReaderState): (r: ReaderState)
    ensures r.timeOnCurrentPage == 0
    ensures r.(timeOnCurrentPage := s.timeOnCurrentPage) == s
  {
    s.(timeOnCurrentPage := 0)
  }

  /** `n` ticks after a reset the counter reads `n`. */
  lemma {:induction false} TicksCount(s: ReaderState, n: nat)
    ensures Ticks(ResetTimeTracking(s), n).timeOnCurrentPage == n
    decreases n
  {
    if n > 0 {
      TicksCount(s, n - 1);
    }
  }

  /** `n` ticks in a row. */
  function Ticks(s: ReaderState, n: nat): ReaderState
    decreases n
  {
    if n == 0 then s else Tick(Ticks(s, n - 1))
  }

  // ---- Callers that drive the engine ----

  /** Setting `currentSubPage` directly, as the notes side panel does. */
  function SetSubPage(s: ReaderState, page: int): (r: ReaderState)
    ensures r.currentSubPage == page && r.(currentSubPage := s.currentSubPage) == s
  {
    s.(currentSubPage := page)
  }

  /** A tap on a note row: its chapter, if it has one, and then its page. */
  function JumpToNote(s: ReaderState, chapterIndex: Option<nat>, pageIndex: int): (r: ReaderState)
    ensures r.currentSubPage == pageIndex
    ensures r.currentChapterIndex == chapterIndex.GetOr(s.currentChapterIndex)
    ensures SameBesidesPosition(s, r)
    ensures r == AssignChapter(s, chapterIndex.GetOr(s.currentChapterIndex)).(currentSubPage := pageIndex)
    ensures chapterIndex.Some? && chapterIndex.value != s.currentChapterIndex
            && CanUpdateURL(s.(currentChapterIndex := chapterIndex.value)) ==>
      && r.currentChapterURL == Some(ChapterURL(s.epubDocument.value, s.contentBaseURL.value, chapterIndex.value))
      && r.totalSubPages == 1
    ensures chapterIndex.None? ==> r == s.(currentSubPage := pageIndex)
  {
    var t := match chapterIndex
      case Some(c) => AssignChapter(s, c)
      case None => s;
    SetSubPage(t, pageIndex)
  }

  /** A tap on a TOC entry: jump to the spine position it resolves to, with its fragment. */
  function SelectTocEntry(s: ReaderState, entry: Toc): (r: ReaderState)
    ensures ResolveToc(s.epubDocument, entry).index.None? ==> r == s
    ensures ResolveToc(s.epubDocument, entry).index.Some? ==> IsCurrentChapter(r, entry) && r.currentSubPage == 0
  {
    var resolution := ResolveToc(s.epubDocument, entry);
    match resolution.index
    case Some(i) => JumpToChapter(s, i, resolution.fragment)
    case None => s
  }

  /**
   * An entry that resolves moves the reader to the first sub-page of its
   * chapter and sets the pending fragment when the target has one; an
   * entry that resolves to nothing changes nothing.
   */
  lemma SelectTocEntryCases(s: ReaderState, entry: Toc)
    ensures ResolveToc(s.epubDocument, entry).index.None? ==> SelectTocEntry(s, entry) == s
    ensures ResolveToc(s.epubDocument, entry).index.Some? ==>
      var r := SelectTocEntry(s, entry);
      && r.currentChapterIndex == ResolveToc(s.epubDocument, entry).index.value
      && r.currentSubPage == 0 && ChapterInRange(r)
      && r.pendingScrollToFragment ==
           (match TocFragment(entry.item.value) case Some(f) => Some(f) case None => s.pendingScrollToFragment)
      && r == AssignChapter(s, r.currentChapterIndex).(currentSubPage := 0,
                pendingScrollToFragment := r.pendingScrollToFragment)
  {
  }

  /** The key codes of the left and right arrows. */
  const LeftArrow: int := 123
  const RightArrow: int := 124

  /** The arrow-key monitor: with no modifier held, left goes back a page and right goes on a page. */
  function ArrowKey(s: ReaderState, keyCode: int, noModifiers: bool): (r: ReaderState)
    ensures noModifiers && keyCode == LeftArrow ==> PositionAtOrBefore(r, s)
    ensures noModifiers && keyCode == RightArrow ==> PositionAtOrBefore(s, r)
    ensures noModifiers && keyCode == LeftArrow ==> r == PreviousPage(s)
    ensures noModifiers && keyCode == RightArrow ==> r == NextPage(s)
    ensures !noModifiers || (keyCode != LeftArrow && keyCode != RightArrow) ==> r == s
  {
    if noModifiers && keyCode == LeftArrow then PreviousPage(s)
    else if noModifiers && keyCode == RightArrow then NextPage(s)
    else s
  }
}
