/** A reader's note and the location line shown with it. */
module Notes {
  import opened Wrappers

  /**
   * A note. The identifier and the two timestamps are opaque values to the
   * model, given as type parameters; `book` and the persistence around the
   * note are not modelled.
   */
  datatype Note<Uuid, Date> = Note(
    id: Uuid,
    content: string,
    pageReference: Option<string>,
    selectedText: Option<string>,
    pageIndex: int,
    chapterTitle: Option<string>,
    chapterIndex: Option<int>,
    tags: seq<string>,
    createdAt: Date,
    updatedAt: Date)

  /**
   * The text between chapter and page. The source spells the bullet as
   * the UTF-8 bytes of U+2022 read back as Windows-1252, which gives these
   * three characters between two spaces.
   */
  const Separator: string := " \U{00E2}\U{20AC}\U{00A2} "

  /** `displayLocation`. */
  function DisplayLocation<Uuid, Date>(note: Note<Uuid, Date>): (shown: string)
    ensures note.pageReference.None? ==> shown == "Unknown location"
    ensures note.pageReference.Some? ==> var page := note.pageReference.value;
      |page| <= |shown| && shown[|shown| - |page|..] == page
  {
    if note.chapterTitle.Some? && note.pageReference.Some? then
      note.chapterTitle.value + Separator + note.pageReference.value
    else note.pageReference.GetOr("Unknown location")
  }

  /**
   * The three cases of the location line: chapter, separator and page when
   * both are known; the page reference alone when the chapter is not; and
   * "Unknown location" when the page reference is missing, whatever the
   * chapter.
   */
  lemma DisplayLocationCases<Uuid, Date>(note: Note<Uuid, Date>)
    ensures note.chapterTitle.Some? && note.pageReference.Some? ==>
      var shown := DisplayLocation(note);
      && shown == note.chapterTitle.value + " \U{00E2}\U{20AC}\U{00A2} " + note.pageReference.value
      && shown[..|note.chapterTitle.value|] == note.chapterTitle.value
      && shown[|shown| - |note.pageReference.value|..] == note.pageReference.value
    ensures note.chapterTitle.None? && note.pageReference.Some? ==>
      DisplayLocation(note) == note.pageReference.value
    ensures note.pageReference.None? ==> DisplayLocation(note) == "Unknown location"
  {
  }

  /**
   * The initializer: every argument stored unchanged; by default no page
   * reference, selected text, chapter title or chapter, page 0 and no tags.
   */
  function NewNote<Uuid, Date>(
    id: Uuid,
    content: string,
    createdAt: Date,
    updatedAt: Date,
    pageReference: Option<string> := None,
    selectedText: Option<string> := None,
    pageIndex: int := 0,
    chapterTitle: Option<string> := None,
    chapterIndex: Option<int> := None,
    tags: seq<string> := []): (note: Note<Uuid, Date>)
    ensures note.id == id && note.content == content
    ensures note.pageReference == pageReference && note.selectedText == selectedText
    ensures note.pageIndex == pageIndex && note.chapterTitle == chapterTitle
    ensures note.chapterIndex == chapterIndex && note.tags == tags
    ensures note.createdAt == createdAt && note.updatedAt == updatedAt
  {
    Note(id, content, pageReference, selectedText, pageIndex, chapterTitle, chapterIndex, tags, createdAt, updatedAt)
  }

  /** A note made from its content alone sits on page 0 of no chapter, untagged, with an unknown location. */
  lemma NewNoteDefaults<Uuid, Date>(id: Uuid, content: string, createdAt: Date, updatedAt: Date)
    ensures var note := NewNote(id, content, createdAt, updatedAt);
      && note.pageIndex == 0 && note.chapterIndex.None? && note.tags == []
      && note.pageReference.None? && note.selectedText.None? && note.chapterTitle.None?
      && DisplayLocation(note) == "Unknown location"
  {
  }
}
