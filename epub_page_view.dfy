/**
 * `EPUBPageView` and its web view's coordinator: how renderer events write
 * into the view model (page-count reports, load commits), the once-per-load
 * CSS injection, the page-count formula of the injected script, and the one
 * effect `updateNSView` chooses.
 */
module PageView {
  import opened Wrappers
  import opened Navigation
  import opened ViewModel

  /** A script message from the page: its handler name and, if its body holds an integer `totalPages`, that. */
  datatype ScriptMessage = ScriptMessage(name: string, totalPages: Option<int>)

  /** The coordinator's message handler: a pagination report overwrites the page count. */
  function ReceivePagination(s: ReaderState, message: ScriptMessage): (r: ReaderState)
    ensures message.name == "pagination" && message.totalPages.Some? ==>
      r == s.(totalSubPages := message.totalPages.value)
    ensures !(message.name == "pagination" && message.totalPages.Some?) ==> r == s
  {
    if message.name == "pagination" && message.totalPages.Some? && s.totalSubPages != message.totalPages.value
    then s.(totalSubPages := message.totalPages.value)
    else s
  }

  /** Reporting the same count twice is reporting it once, and reporting the current count changes nothing. */
  lemma ReceivePaginationIdempotent(s: ReaderState, message: ScriptMessage)
    ensures ReceivePagination(ReceivePagination(s, message), message) == ReceivePagination(s, message)
    ensures message.totalPages == Some(s.totalSubPages) ==> ReceivePagination(s, message) == s
  {
  }

  /** `webView(_:didCommit:)`: new content resets pagination to the first of one page. */
  function CommitNavigation(s: ReaderState): (r: ReaderState)
    ensures r.totalSubPages == 1 && r.currentSubPage == 0
    ensures r.(totalSubPages := s.totalSubPages, currentSubPage := s.currentSubPage) == s
  {
    s.(totalSubPages := 1, currentSubPage := 0)
  }

  /** The effect of a scroll to the pending fragment: the fragment is cleared. */
  function ClearPendingFragment(s: ReaderState): (r: ReaderState)
    ensures r.pendingScrollToFragment.None?
    ensures r.(pendingScrollToFragment := s.pendingScrollToFragment) == s
  {
    s.(pendingScrollToFragment := None)
  }

  /**
   * The page count the injected script reports,
   * `Math.max(1, Math.ceil(scrollWidth / viewWidth))` on whole pixels: the
   * fewest pages, and at least one, whose total width covers the content.
   */
  function PageCount(scrollWidth: nat, viewWidth: int): (n: int)
    requires viewWidth > 0
    ensures n >= 1
    ensures scrollWidth <= n * viewWidth
    ensures n == 1 || (n - 1) * viewWidth < scrollWidth
  {
    var pages := (scrollWidth + viewWidth - 1) / viewWidth;
    CeilingDivision(scrollWidth, viewWidth);
    if pages > 1 then pages else 1
  }

  lemma CeilingDivision(a: nat, b: int)
    requires b > 0
    ensures var q := (a + b - 1) / b; a <= q * b && (q == 0 || (q - 1) * b < a)
  {
    var q, m := (a + b - 1) / b, (a + b - 1) % b;
    assert a + b - 1 == q * b + m && 0 <= m < b;
  }

  /** A report of the script's count keeps the page total positive. */
  lemma ReportedCountIsPositive(s: ReaderState, scrollWidth: nat, viewWidth: int)
    requires viewWidth > 0
    ensures ReceivePagination(s, ScriptMessage("pagination", Some(PageCount(scrollWidth, viewWidth)))).totalSubPages >= 1
  {
  }

  /** What one `updateNSView` pass asks of the web view. */
  datatype Effect =
    | NoEffect
    | Reload(url: string)
    | ScrollToFragment(fragment: string)
    | ScrollToPage(page: int)

  /**
   * `updateNSView`: nothing without a chapter URL or a web view; a reload
   * when the web view shows another URL; else a scroll to the pending
   * fragment; else a scroll to the current sub-page.
   */
  function Dispatch(hasWebView: bool, loadedURL: Option<string>, url: Option<string>,
                    pendingFragment: Option<string>, subPage: int): (e: Effect)
    ensures e.NoEffect? <==> url.None? || !hasWebView
  {
    if url.None? || !hasWebView then NoEffect
    else if loadedURL != url then Reload(url.value)
    else if pendingFragment.Some? then ScrollToFragment(pendingFragment.value)
    else ScrollToPage(subPage)
  }

  /**
   * The precedence of the three effects, each an if-and-only-if: a
   * different URL is reloaded even with a fragment pending; a pending
   * fragment wins over the page; the page is scrolled to only when nothing
   * else applies.
   */
  lemma DispatchPrecedence(loadedURL: Option<string>, url: string, pendingFragment: Option<string>, subPage: int)
    ensures var e := Dispatch(true, loadedURL, Some(url), pendingFragment, subPage);
      && (e.Reload? <==> loadedURL != Some(url))
      && (e.Reload? ==> e.url == url)
      && (e.ScrollToFragment? <==> loadedURL == Some(url) && pendingFragment.Some?)
      && (e.ScrollToFragment? ==> e.fragment == pendingFragment.value)
      && (e.ScrollToPage? <==> loadedURL == Some(url) && pendingFragment.None?)
      && (e.ScrollToPage? ==> e.page == subPage)
  {
  }

  /** The view model after an effect: a fragment scroll clears the pending fragment; nothing else changes it. */
  function AfterEffect(s: ReaderState, e: Effect): (r: ReaderState)
    ensures e.ScrollToFragment? ==> r == ClearPendingFragment(s)
    ensures !e.ScrollToFragment? ==> r == s
  {
    if e.ScrollToFragment? then ClearPendingFragment(s) else s
  }

  /**
   * `EPUBWebView.Coordinator` together with the web view it holds. The
   * ghost counter records the CSS injections since the last `didFinish`.
   */
  class Coordinator {
    const viewModel: ReaderViewModel
    var hasWebView: bool
    var didInjectCSS: bool
    ghost var injectionsSinceFinish: nat

    /** The injection flag records whether an injection has run since the last `didFinish`. */
    ghost predicate Valid()
      reads this
    {
      injectionsSinceFinish == if didInjectCSS then 1 else 0
    }

    constructor (viewModel: ReaderViewModel)
      ensures this.viewModel == viewModel && !hasWebView && !didInjectCSS && Valid()
    {
      this.viewModel := viewModel;
      hasWebView := false;
      didInjectCSS := false;
      injectionsSinceFinish := 0;
    }

    /** `makeNSView`: the web view is created, stored and told to load the chapter URL. */
    method MakeView(url: string) returns (e: Effect)
      modifies this
      ensures hasWebView && e == Reload(url)
      ensures didInjectCSS == old(didInjectCSS) && injectionsSinceFinish == old(injectionsSinceFinish)
    {
      hasWebView := true;
      e := Reload(url);
    }

    /** The script-message handler. */
    method ReceiveMessage(message: ScriptMessage)
      modifies viewModel
      ensures viewModel.State() == ReceivePagination(old(viewModel.State()), message)
    {
      if message.name == "pagination" && message.totalPages.Some? {
        var totalPages := message.totalPages.value;
        if viewModel.totalSubPages != totalPages {
          viewModel.totalSubPages := totalPages;
        }
      }
    }

    /** `webView(_:didCommit:)`. */
    method DidCommit()
      modifies viewModel
      ensures viewModel.State() == CommitNavigation(old(viewModel.State()))
    {
      viewModel.totalSubPages := 1;
      viewModel.currentSubPage := 0;
    }

    /** `injectPaginationCSS`: runs only with a web view and only if it has not run since the last `didFinish`. */
    method InjectPaginationCSS() returns (injected: bool)
      requires Valid()
      modifies this
      ensures Valid() && injectionsSinceFinish <= 1
      ensures injected <==> hasWebView && !old(didInjectCSS)
      ensures didInjectCSS == (old(didInjectCSS) || hasWebView) && hasWebView == old(hasWebView)
      ensures injectionsSinceFinish == old(injectionsSinceFinish) + (if injected then 1 else 0)
    {
      if !hasWebView || didInjectCSS {
        return false;
      }
      didInjectCSS := true;
      injectionsSinceFinish := injectionsSinceFinish + 1;
      injected := true;
    }

    /** `webView(_:didFinish:)`: clears the flag and injects. */
    method DidFinish() returns (injected: bool)
      modifies this
      ensures Valid() && injected == hasWebView && hasWebView == old(hasWebView)
      ensures injectionsSinceFinish == (if hasWebView then 1 else 0)
    {
      didInjectCSS := false;
      injectionsSinceFinish := 0;
      injected := InjectPaginationCSS();
    }

    /**
     * `updateNSView` given what the web view currently shows: the chosen
     * effect, with a fragment scroll clearing the pending fragment.
     */
    method UpdateView(loadedURL: Option<string>) returns (e: Effect)
      modifies viewModel
      ensures e == Dispatch(hasWebView, loadedURL, old(viewModel.currentChapterURL),
                            old(viewModel.pendingScrollToFragment), old(viewModel.currentSubPage))
      ensures viewModel.State() == AfterEffect(old(viewModel.State()), e)
    {
      var url := viewModel.currentChapterURL;
      if url.None? || !hasWebView {
        return NoEffect;
      }
      if loadedURL != url {
        e := Reload(url.value);
      } else if viewModel.pendingScrollToFragment.Some? {
        e := ScrollToFragment(viewModel.pendingScrollToFragment.value);
        viewModel.pendingScrollToFragment := None;
      } else {
        e := ScrollToPage(viewModel.currentSubPage);
      }
    }
  }
}
