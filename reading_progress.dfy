/** Reading progress and the per-page time record that gates the AI features. */
module Progress {
  import opened Wrappers

  /** Seconds on a page before the AI features unlock for it. */
  const UnlockSeconds: int := 120

  /** `PageReadingRecord`: both fields are constants of the record. */
  datatype PageReadingRecord = PageReadingRecord(pageIdentifier: string, totalSecondsSpent: int)
  {
    /** `hasUnlockedAI`: a record with no time spent is never unlocked, two minutes always are. */
    function HasUnlockedAI(): (b: bool)
      ensures b ==> totalSecondsSpent > 0
      ensures totalSecondsSpent >= 2 * 60 ==> b
    {
      totalSecondsSpent >= UnlockSeconds
    }
  }

  /** `PageReadingRecord.init`: both arguments stored unchanged. */
  function NewPageReadingRecord(pageIdentifier: string, totalSecondsSpent: int): (r: PageReadingRecord)
    ensures r.pageIdentifier == pageIdentifier && r.totalSecondsSpent == totalSecondsSpent
  {
    PageReadingRecord(pageIdentifier, totalSecondsSpent)
  }

  /** A record is unlocked exactly from 120 seconds on: 119 is locked and 120 is not. */
  lemma UnlockThreshold(pageIdentifier: string, seconds: int)
    ensures NewPageReadingRecord(pageIdentifier, seconds).HasUnlockedAI() <==> seconds >= 120
    ensures !NewPageReadingRecord(pageIdentifier, 119).HasUnlockedAI()
    ensures NewPageReadingRecord(pageIdentifier, 120).HasUnlockedAI()
  {
  }

  /** Unlocking is monotone in the time spent, whatever the page. */
  lemma UnlockMonotone(a: PageReadingRecord, b: PageReadingRecord)
    requires a.HasUnlockedAI() && a.totalSecondsSpent <= b.totalSecondsSpent
    ensures b.HasUnlockedAI()
  {
  }

  /**
   * `ReadingProgress`, without `percentComplete` (a floating-point value)
   * and the owning book. The last-read date is an opaque value.
   */
  datatype ReadingProgress<Date> = ReadingProgress(
    currentPage: int,
    currentChapter: Option<string>,
    currentCFI: Option<string>,
    totalPages: Option<int>,
    lastReadDate: Date,
    pageReadingTimes: seq<PageReadingRecord>)

  /** `ReadingProgress.init`: arguments stored unchanged, no page times yet. */
  function NewReadingProgress<Date>(
    lastReadDate: Date,
    currentPage: int := 0,
    currentChapter: Option<string> := None,
    currentCFI: Option<string> := None,
    totalPages: Option<int> := None): (p: ReadingProgress<Date>)
    ensures p.currentPage == currentPage && p.currentChapter == currentChapter
    ensures p.currentCFI == currentCFI && p.totalPages == totalPages
    ensures p.lastReadDate == lastReadDate && p.pageReadingTimes == []
  {
    ReadingProgress(currentPage, currentChapter, currentCFI, totalPages, lastReadDate, [])
  }

  /** The defaults: page 0, no chapter, location or page total, and no page times. */
  lemma ReadingProgressDefaults<Date>(lastReadDate: Date)
    ensures var p := NewReadingProgress(lastReadDate);
      && p.currentPage == 0 && p.currentChapter.None? && p.currentCFI.None?
      && p.totalPages.None? && p.pageReadingTimes == []
  {
  }
}
