/**
 * `ReaderViewModel`: the navigation fields and the methods that update
 * them in place. Every method is proved to leave the object in the state
 * that the matching transition of the Navigation module computes from the
 * state before the call, so the properties proved there hold of the class.
 */
module ViewModel {
  import opened Wrappers
  import opened Text
  import opened Epub
  import opened TocResolution
  import opened Navigation

  class ReaderViewModel {
    var epubDocument: Option<Document>
    var contentBaseURL: Option<string>
    var currentChapterURL: Option<string>
    var currentChapterIndex: nat
    var currentSubPage: int
    var totalSubPages: int
    var pendingScrollToFragment: Option<string>
    var pendingChapterIndex: Option<nat>
    var pendingPageIndex: Option<int>
    var timeOnCurrentPage: nat
    var errorMessage: Option<string>

    /** The navigation fields as one value. */
    function State(): ReaderState
      reads this
    {
      ReaderState(epubDocument, contentBaseURL, currentChapterURL, currentChapterIndex,
        currentSubPage, totalSubPages, pendingScrollToFragment, pendingChapterIndex,
        pendingPageIndex, timeOnCurrentPage, errorMessage)
    }

    /** `init(book:)`: the property defaults; loading is deferred. */
    constructor ()
      ensures State() == Initial()
    {
      epubDocument := None;
      contentBaseURL := None;
      currentChapterURL := None;
      currentChapterIndex := 0;
      currentSubPage := 0;
      totalSubPages := 1;
      pendingScrollToFragment := None;
      pendingChapterIndex := None;
      pendingPageIndex := None;
      timeOnCurrentPage := 0;
      errorMessage := None;
    }

    /** `setPendingNavigation(chapterIndex:pageIndex:)`. */
    method SetPendingNavigation(chapterIndex: Option<nat>, pageIndex: Option<int>)
      modifies this
      ensures State() == Navigation.SetPendingNavigation(old(State()), chapterIndex, pageIndex)
    {
      pendingChapterIndex := chapterIndex;
      pendingPageIndex := pageIndex;
    }

    /** An assignment to `currentChapterIndex` (or its alias `currentPage`) and the `didSet` that follows it. */
    method SetChapter(v: nat)
      modifies this
      ensures State() == AssignChapter(old(State()), v)
    {
      var oldValue := currentChapterIndex;
      currentChapterIndex := v;
      if oldValue != currentChapterIndex {
        UpdateChapterURL();
      }
    }

    /** `updateChapterURL`. */
    method UpdateChapterURL()
      modifies this
      ensures State() == Navigation.UpdateChapterURL(old(State()))
    {
      if epubDocument.None? || contentBaseURL.None? || currentChapterIndex >= |epubDocument.value.spine| {
        return;
      }
      var document, baseURL := epubDocument.value, contentBaseURL.value;
      var idref := document.spine[currentChapterIndex];
      if idref in document.manifest {
        currentChapterURL := Some(AppendPath(baseURL, document.manifest[idref]));
      } else {
        currentChapterURL := Some(AppendPath(baseURL, idref));
      }
      totalSubPages := 1;
      currentSubPage := 0;
    }

    /** `loadBook`, from the outcome of its file handling on (the `isLoading` flag aside). */
    method LoadBook(outcome: LoadOutcome)
      modifies this
      ensures State() == Navigation.LoadBook(old(State()), outcome)
    {
      ghost var before := State();
      errorMessage := None;
      match outcome {
        case NoDocumentsDirectory =>
          errorMessage := Some("Could not find documents directory.");
          return;
        case FileNotFound(path) =>
          errorMessage := Some("Book file not found at: " + path);
          return;
        case ParseFailed =>
          errorMessage := Some("Failed to parse EPUB.");
          return;
        case ExtractionFailed(description) =>
          errorMessage := Some("Failed to load book: " + description);
        case Parsed(document, base) =>
          epubDocument := Some(document);
          contentBaseURL := Some(base);
          if |document.spine| > 0 {
            var first := document.spine[0];
            SetChapter(0);
            if first in document.manifest {
              currentChapterURL := Some(AppendPath(base, document.manifest[first]));
            } else {
              currentChapterURL := Some(AppendPath(base, first));
            }
          } else {
            errorMessage := Some("No chapters found in this book.");
          }
      }
      assert State() == Loaded(before, outcome);
      ApplyPending();
    }

    /** The pending step at the end of `loadBook`. */
    method ApplyPending()
      modifies this
      ensures State() == Navigation.ApplyPending(old(State()))
    {
      if pendingChapterIndex.Some? {
        var chapterIndex := pendingChapterIndex.value;
        SetChapter(chapterIndex);
        pendingChapterIndex := None;
      }
      if pendingPageIndex.Some? {
        var pageIndex := pendingPageIndex.value;
        currentSubPage := pageIndex;
        pendingPageIndex := None;
      }
    }

    /** `nextPage`. */
    method NextPage()
      modifies this
      ensures State() == Navigation.NextPage(old(State()))
    {
      if currentSubPage < totalSubPages - 1 {
        currentSubPage := currentSubPage + 1;
      } else if epubDocument.Some? && currentChapterIndex < |epubDocument.value.spine| - 1 {
        SetChapter(currentChapterIndex + 1);
        currentSubPage := 0;
      }
    }

    /** `previousPage`. */
    method PreviousPage()
      modifies this
      ensures State() == Navigation.PreviousPage(old(State()))
    {
      if currentSubPage > 0 {
        currentSubPage := currentSubPage - 1;
      } else if currentChapterIndex > 0 {
        SetChapter(currentChapterIndex - 1);
        currentSubPage := 0;
      }
    }

    /** `jumpToChapter(index:fragment:)`. */
    method JumpToChapter(index: int, fragment: Option<string>)
      requires index >= 0
      modifies this
      ensures State() == Navigation.JumpToChapter(old(State()), index, fragment)
    {
      if epubDocument.None? || index >= |epubDocument.value.spine| {
        return;
      }
      SetChapter(index);
      currentSubPage := 0;
      if fragment.Some? {
        pendingScrollToFragment := fragment;
      }
    }

    /**
     * `spineIndex(for:)`: the loop over the spine, returning at the first
     * position whose manifest path passes one of the four rules.
     */
    method SpineIndex(entry: Toc) returns (r: Resolution)
      ensures r == ResolveToc(epubDocument, entry)
    {
      if epubDocument.None? || entry.item.None? {
        return Resolution(None, None);
      }
      var document, itemPath := epubDocument.value, entry.item.value;
      var components := Split(itemPath, '#');
      var tocPath := components[0];
      var fragment := if |components| > 1 then Some(components[|components| - 1]) else None;
      var index := 0;
      while index < |document.spine|
        invariant 0 <= index <= |document.spine|
        invariant FirstMatchFrom(document, tocPath, index) == FirstMatchFrom(document, tocPath, 0)
      {
        var idref := document.spine[index];
        if idref in document.manifest {
          var manifestPath := document.manifest[idref];
          var tocFilename := LastPathComponent(tocPath);
          var manifestFilename := LastPathComponent(manifestPath);
          if manifestPath == tocPath || HasSuffix(manifestPath, tocPath)
            || HasSuffix(tocPath, manifestPath) || manifestFilename == tocFilename
          {
            return Resolution(Some(index), fragment);
          }
        }
        index := index + 1;
      }
      return Resolution(None, None);
    }

    /** `isCurrentChapter`. */
    method IsCurrentChapter(entry: Toc) returns (b: bool)
      ensures b == Navigation.IsCurrentChapter(State(), entry)
    {
      var r := SpineIndex(entry);
      b := r.index == Some(currentChapterIndex);
    }

    /** `currentChapterTitle`: absent exactly when no chapter is at the current index. */
    function CurrentChapterTitle(): (t: Option<string>)
      reads this
      ensures t.None? <==> !ChapterInRange(State())
    {
      ChapterTitle(epubDocument, currentChapterIndex)
    }

    /** One firing of the reading timer. */
    method Tick()
      modifies this
      ensures State() == Navigation.Tick(old(State()))
    {
      timeOnCurrentPage := timeOnCurrentPage + 1;
    }

    /** `resetTimeTracking`. */
    method ResetTimeTracking()
      modifies this
      ensures State() == Navigation.ResetTimeTracking(old(State()))
    {
      timeOnCurrentPage := 0;
    }
  }
}
