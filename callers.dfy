/**
 * The views that drive the navigation engine, reduced to the calls they
 * make on the view model: the arrow-key monitor, the toolbar buttons, the
 * note rows and the chapter list.
 */
module Callers {
  import opened Wrappers
  import opened Epub
  import opened TocResolution
  import opened Navigation
  import opened ViewModel
  import opened Notes

  /**
   * The arrow-key part of the key monitor: an arrow key is consumed
   * exactly when no modifier is held. The monitor's other shortcuts are
   * not modelled, so nothing is promised about other keys' events.
   */
  method ArrowKeyDown(viewModel: ReaderViewModel, keyCode: int, noModifiers: bool) returns (consumed: bool)
    modifies viewModel
    ensures viewModel.State() == ArrowKey(old(viewModel.State()), keyCode, noModifiers)
    ensures keyCode == LeftArrow || keyCode == RightArrow ==> (consumed <==> noModifiers)
  {
    consumed := false;
    if noModifiers {
      if keyCode == LeftArrow {
        viewModel.PreviousPage();
        consumed := true;
      } else if keyCode == RightArrow {
        viewModel.NextPage();
        consumed := true;
      }
    }
  }

  /** The toolbar's back button. */
  method PreviousButtonTapped(viewModel: ReaderViewModel)
    modifies viewModel
    ensures viewModel.State() == PreviousPage(old(viewModel.State()))
  {
    viewModel.PreviousPage();
  }

  /** The toolbar's forward button. */
  method NextButtonTapped(viewModel: ReaderViewModel)
    modifies viewModel
    ensures viewModel.State() == NextPage(old(viewModel.State()))
  {
    viewModel.NextPage();
  }

  /** The chapter a note records, as a spine index. */
  function NoteChapter<Uuid, Date>(note: Note<Uuid, Date>): Option<nat>
    requires note.chapterIndex.None? || note.chapterIndex.value >= 0
  {
    match note.chapterIndex
    case Some(c) => Some(c as nat)
    case None => None
  }

  /** A tap on a row of the book's notes: its chapter, if recorded, then its page. */
  method NoteRowTapped<Uuid, Date>(viewModel: ReaderViewModel, note: Note<Uuid, Date>)
    requires note.chapterIndex.None? || note.chapterIndex.value >= 0
    modifies viewModel
    ensures viewModel.State() == JumpToNote(old(viewModel.State()), NoteChapter(note), note.pageIndex)
  {
    if note.chapterIndex.Some? {
      viewModel.SetChapter(note.chapterIndex.value);
    }
    viewModel.currentSubPage := note.pageIndex;
  }

  /** "Jump to Page" in the notes side panel: the page only, in whatever chapter is current. */
  method JumpToNotePage<Uuid, Date>(viewModel: ReaderViewModel, note: Note<Uuid, Date>)
    modifies viewModel
    ensures viewModel.State() == SetSubPage(old(viewModel.State()), note.pageIndex)
  {
    viewModel.currentSubPage := note.pageIndex;
  }

  /** A tap on a chapter-list entry. */
  method TocEntryTapped(viewModel: ReaderViewModel, entry: Toc)
    modifies viewModel
    ensures viewModel.State() == SelectTocEntry(old(viewModel.State()), entry)
  {
    var result := viewModel.SpineIndex(entry);
    if result.index.Some? {
      viewModel.JumpToChapter(result.index.value, result.fragment);
    }
  }
}
