/**
 * Mapping table-of-contents entries to spine positions (`spineIndex(for:)`)
 * and spine positions back to titles (`findTitle`, `currentChapterTitle`).
 */
module TocResolution {
  import opened Wrappers
  import opened Text
  import opened Epub

  /** The part of a TOC target before the first `#`. */
  function TocPath(target: string): string {
    Split(target, '#')[0]
  }

  /** The part of a TOC target after the last `#`, present only when a `#` occurs. */
  function TocFragment(target: string): Option<string> {
    var parts := Split(target, '#');
    if |parts| > 1 then Some(parts[|parts| - 1]) else None
  }

  /** The match path is the prefix of the target before its first `#`, and all of it when there is none. */
  lemma TocPathParts(target: string)
    ensures var p := TocPath(target);
      && '#' !in p && |p| <= |target| && target[..|p|] == p
      && (|p| < |target| ==> target[|p|] == '#')
      && (|p| == |target| <==> '#' !in target)
  {
    SplitFirst(target, '#');
  }

  /** A fragment exists exactly when the target has a `#`, and is then the text after the last one. */
  lemma TocFragmentParts(target: string)
    ensures TocFragment(target).Some? <==> '#' in target
    ensures TocFragment(target).Some? ==> var f := TocFragment(target).value;
      && '#' !in f && |f| < |target| && target[|target| - |f|..] == f && target[|target| - |f| - 1] == '#'
  {
    SplitLast(target, '#');
  }

  /**
   * The four matching rules, any of which accepts: equal paths, the
   * manifest path ends with the TOC path, the TOC path ends with the
   * manifest path, or both have the same last path component.
   */
  function PathsMatch(manifestPath: string, tocPath: string): (b: bool)
    ensures manifestPath == tocPath ==> b
    ensures tocPath == [] || manifestPath == [] ==> b
  {
    || manifestPath == tocPath
    || HasSuffix(manifestPath, tocPath)
    || HasSuffix(tocPath, manifestPath)
    || LastPathComponent(manifestPath) == LastPathComponent(tocPath)
  }

  /** The four rules do not care which path is the manifest's and which the TOC's. */
  lemma PathsMatchSymmetric(a: string, b: string)
    ensures PathsMatch(a, b) == PathsMatch(b, a)
  {
  }

  /** Spine position `i` is listed in the manifest and its path matches `tocPath`. */
  predicate MatchesAt(doc: Document, tocPath: string, i: nat)
    requires i < |doc.spine|
  {
    doc.spine[i] in doc.manifest && PathsMatch(doc.manifest[doc.spine[i]], tocPath)
  }

  /** The least spine position at or after `k` that matches `tocPath`. */
  function FirstMatchFrom(doc: Document, tocPath: string, k: nat): (r: Option<nat>)
    requires k <= |doc.spine|
    ensures r.Some? ==> k <= r.value < |doc.spine| && MatchesAt(doc, tocPath, r.value)
    ensures r.Some? ==> forall j :: k <= j < r.value ==> !MatchesAt(doc, tocPath, j)
    ensures r.None? ==> forall j :: k <= j < |doc.spine| ==> !MatchesAt(doc, tocPath, j)
    decreases |doc.spine| - k
  {
    if k == |doc.spine| then None
    else if MatchesAt(doc, tocPath, k) then Some(k)
    else FirstMatchFrom(doc, tocPath, k + 1)
  }

  /** The `(index, fragment)` pair `spineIndex(for:)` returns. */
  datatype Resolution = Resolution(index: Option<nat>, fragment: Option<string>)

  /**
   * `spineIndex(for:)`: the first spine position, in spine order, whose
   * manifest path matches the entry's path, with the entry's fragment;
   * `(nil, nil)` when there is no document, the entry has no target, or
   * nothing matches.
   */
  function ResolveToc(document: Option<Document>, entry: Toc): (r: Resolution)
    ensures r.index.None? ==> r.fragment.None?
    ensures r.index.Some? ==>
      && document.Some? && entry.item.Some?
      && r.index.value < |document.value.spine|
      && MatchesAt(document.value, TocPath(entry.item.value), r.index.value)
      && (forall j :: 0 <= j < r.index.value ==> !MatchesAt(document.value, TocPath(entry.item.value), j))
      && r.fragment == TocFragment(entry.item.value)
    ensures r.index.None? && document.Some? && entry.item.Some? ==>
      forall j :: 0 <= j < |document.value.spine| ==> !MatchesAt(document.value, TocPath(entry.item.value), j)
  {
    if document.None? || entry.item.None? then Resolution(None, None)
    else
      match FirstMatchFrom(document.value, TocPath(entry.item.value), 0)
      case None => Resolution(None, None)
      case Some(i) => Resolution(Some(i), TocFragment(entry.item.value))
  }

  /** The empty path is a suffix of every path, so `#x` matches the first spine item in the manifest. */
  lemma {:induction false} FragmentOnlyTargetMatchesFirstListed(doc: Document, entry: Toc, fragment: string)
    requires entry.item == Some("#" + fragment) && '#' !in fragment
    requires exists i :: 0 <= i < |doc.spine| && doc.spine[i] in doc.manifest
    ensures var r := ResolveToc(Some(doc), entry);
      && r.index.Some? && r.fragment == Some(fragment)
      && (forall j :: 0 <= j < r.index.value ==> doc.spine[j] !in doc.manifest)
  {
    SplitAtFirst("", '#', fragment);
    SplitWithout(fragment, '#');
    assert "" + ['#'] + fragment == "#" + fragment;
    var i :| 0 <= i < |doc.spine| && doc.spine[i] in doc.manifest;
    assert HasSuffix(doc.manifest[doc.spine[i]], "");
    assert MatchesAt(doc, "", i);
    forall j | 0 <= j < ResolveToc(Some(doc), entry).index.value
      ensures doc.spine[j] !in doc.manifest
    {
      if doc.spine[j] in doc.manifest {
        assert HasSuffix(doc.manifest[doc.spine[j]], "");
        assert MatchesAt(doc, "", j);
      }
    }
  }

  /**
   * The suffix rule at work: a target `p#f` whose path is a tail of the
   * first spine item's manifest path (say `text/ch1.html#sec2` against
   * `OEBPS/text/ch1.html`) resolves to that item with fragment `f`.
   */
  lemma {:induction false} SuffixMatchResolves(doc: Document, entry: Toc, p: string, f: string)
    requires entry.item == Some(p + "#" + f) && '#' !in p && '#' !in f
    requires |doc.spine| > 0 && doc.spine[0] in doc.manifest && HasSuffix(doc.manifest[doc.spine[0]], p)
    ensures ResolveToc(Some(doc), entry) == Resolution(Some(0), Some(f))
  {
    SplitAtFirst(p, '#', f);
    SplitWithout(f, '#');
    assert p + ['#'] + f == p + "#" + f;
    assert MatchesAt(doc, p, 0);
  }

  /** The concrete case: manifest `OEBPS/text/ch1.html`, target `text/ch1.html#sec2`. */
  lemma SuffixMatchExample(doc: Document, entry: Toc)
    requires doc.spine == ["ch1"] && doc.manifest == map["ch1" := "OEBPS/text/ch1.html"]
    requires entry.item == Some("text/ch1.html#sec2")
    ensures ResolveToc(Some(doc), entry) == Resolution(Some(0), Some("sec2"))
  {
    var p, f := "text/ch1.html", "sec2";
    assert "text/ch1.html#sec2" == p + "#" + f;
    assert HasSuffix("OEBPS/text/ch1.html", p);
    SuffixMatchResolves(doc, entry, p, f);
  }

  // ---- Titles ----

  /** A TOC node names `spinePath` when its target, without the fragment, is exactly that path. */
  predicate TitleMatches(node: Toc, spinePath: string) {
    node.item.Some? && TocPath(node.item.value) == spinePath
  }

  /** The children of a node; a node without a sub-table has none. */
  function Children(node: Toc): seq<Toc> {
    match node.subTable
    case Present(children) => children
    case Absent => []
  }

  /** The loop of `findTitle`: each node is checked before its children, which come before its later siblings. */
  function FindTitleIn(items: seq<Toc>, spinePath: string): (r: Option<string>)
    ensures r.None? ==> forall j :: 0 <= j < |items| ==> !TitleMatches(items[j], spinePath)
    decreases items
  {
    if items == [] then None
    else if TitleMatches(items[0], spinePath) then Some(items[0].title)
    else
      match items[0].subTable
      case Absent => FindTitleIn(items[1..], spinePath)
      case Present(children) =>
        match FindTitleIn(children, spinePath)
        case Some(title) => Some(title)
        case None => FindTitleIn(items[1..], spinePath)
  }

  /**
   * `findTitle(in:for:)`: nothing when there are no items, no document or
   * the idref is missing from the manifest; otherwise the search above for
   * the idref's manifest path.
   */
  function FindTitle(document: Option<Document>, items: SubTable, idref: string): (r: Option<string>)
    ensures r.Some? ==> items.Present? && document.Some? && idref in document.value.manifest
    ensures items.Present? && document.Some? && idref in document.value.manifest ==>
      r == PreorderTitle(items.entries, document.value.manifest[idref])
  {
    if items.Absent? || document.None? then None
    else if idref !in document.value.manifest then None
    else
      FindTitleIsPreorderFirst(items.entries, document.value.manifest[idref]);
      FindTitleIn(items.entries, document.value.manifest[idref])
  }

  /** The nodes of a forest in pre-order: a reference definition of the search order. */
  function Preorder(items: seq<Toc>): (r: seq<Toc>)
    ensures |items| > 0 ==> |r| > 0 && r[0] == items[0]
    decreases items
  {
    if items == [] then []
    else
      match items[0].subTable
      case Absent => [items[0]] + Preorder(items[1..])
      case Present(children) => [items[0]] + Preorder(children) + Preorder(items[1..])
  }

  /** The position of the first node of `nodes` that names `spinePath`. */
  function FirstTitleIndex(nodes: seq<Toc>, spinePath: string): (r: Option<nat>)
    ensures r.Some? ==> r.value < |nodes| && TitleMatches(nodes[r.value], spinePath)
    ensures r.Some? ==> forall j :: 0 <= j < r.value ==> !TitleMatches(nodes[j], spinePath)
    ensures r.None? ==> forall j :: 0 <= j < |nodes| ==> !TitleMatches(nodes[j], spinePath)
    decreases |nodes|
  {
    if nodes == [] then None
    else if TitleMatches(nodes[0], spinePath) then Some(0)
    else match FirstTitleIndex(nodes[1..], spinePath)
      case None => None
      case Some(k) => Some(k + 1)
  }

  /** The label of the first node of `nodes` that names `spinePath`. */
  function FirstTitle(nodes: seq<Toc>, spinePath: string): Option<string> {
    match FirstTitleIndex(nodes, spinePath)
    case None => None
    case Some(k) => Some(nodes[k].title)
  }

  /** The label of the first node in pre-order that names `spinePath`. */
  function PreorderTitle(items: seq<Toc>, spinePath: string): Option<string> {
    FirstTitle(Preorder(items), spinePath)
  }

  lemma {:induction false} FirstTitleIndexAppend(a: seq<Toc>, b: seq<Toc>, p: string)
    ensures FirstTitleIndex(a + b, p) ==
      match FirstTitleIndex(a, p)
      case Some(k) => Some(k)
      case None => match FirstTitleIndex(b, p)
        case Some(k) => Some(|a| + k)
        case None => None
    decreases |a|
  {
    if a == [] {
      assert a + b == b;
    } else {
      assert (a + b)[0] == a[0];
      assert (a + b)[1..] == a[1..] + b;
      FirstTitleIndexAppend(a[1..], b, p);
    }
  }

  /** `findTitle`'s nested loop finds the first matching node in pre-order. */
  lemma {:induction false} FindTitleIsPreorderFirst(items: seq<Toc>, spinePath: string)
    ensures FindTitleIn(items, spinePath) == PreorderTitle(items, spinePath)
    decreases items
  {
    if items != [] {
      match items[0].subTable
      case Absent =>
        FindTitleIsPreorderFirst(items[1..], spinePath);
        ChildrenSearched(items, [], spinePath);
      case Present(children) =>
        FindTitleIsPreorderFirst(children, spinePath);
        FindTitleIsPreorderFirst(items[1..], spinePath);
        ChildrenSearched(items, children, spinePath);
    }
  }

  /** The first match in `a + b` is the first in `a`, or else the first in `b`. */
  lemma FirstTitleAppend(a: seq<Toc>, b: seq<Toc>, p: string)
    ensures FirstTitle(a + b, p) == if FirstTitle(a, p).Some? then FirstTitle(a, p) else FirstTitle(b, p)
  {
    FirstTitleIndexAppend(a, b, p);
    match FirstTitleIndex(a, p)
    case Some(k) =>
      assert (a + b)[k] == a[k];
    case None =>
      match FirstTitleIndex(b, p)
      case Some(k) =>
        assert (a + b)[|a| + k] == b[k];
      case None =>
  }

  /** Pre-order lists a node, then its children's nodes, then its later siblings' nodes. */
  lemma PreorderStep(items: seq<Toc>)
    requires items != []
    ensures Preorder(items) == [items[0]] + (Preorder(Children(items[0])) + Preorder(items[1..]))
  {
    match items[0].subTable
    case Absent =>
      assert Preorder(Children(items[0])) == [];
    case Present(children) =>
  }

  /** The search checks a node, then its children, then its later siblings. */
  lemma FindTitleInStep(items: seq<Toc>, spinePath: string)
    requires items != []
    ensures FindTitleIn(items, spinePath) ==
      if TitleMatches(items[0], spinePath) then Some(items[0].title)
      else if FindTitleIn(Children(items[0]), spinePath).Some? then FindTitleIn(Children(items[0]), spinePath)
      else FindTitleIn(items[1..], spinePath)
  {
    match items[0].subTable
    case Absent =>
      assert FindTitleIn(Children(items[0]), spinePath) == None;
    case Present(children) =>
  }

  lemma FirstTitleSingleton(node: Toc, spinePath: string)
    ensures FirstTitle([node], spinePath) == if TitleMatches(node, spinePath) then Some(node.title) else None
  {
    assert [node][1..] == [];
  }

  /** One step of the search: the head, then its children, then the rest, in pre-order. */
  lemma ChildrenSearched(items: seq<Toc>, children: seq<Toc>, spinePath: string)
    requires items != [] && children == Children(items[0])
    requires FindTitleIn(children, spinePath) == PreorderTitle(children, spinePath)
    requires FindTitleIn(items[1..], spinePath) == PreorderTitle(items[1..], spinePath)
    ensures FindTitleIn(items, spinePath) == PreorderTitle(items, spinePath)
  {
    var inner, later := Preorder(children), Preorder(items[1..]);
    PreorderStep(items);
    FindTitleInStep(items, spinePath);
    FirstTitleAppend([items[0]], inner + later, spinePath);
    FirstTitleAppend(inner, later, spinePath);
    FirstTitleSingleton(items[0], spinePath);
  }

  /** The fallback title `"Chapter N"`, N counting from one. */
  function FallbackTitle(chapter: nat): string {
    "Chapter " + Decimal(chapter + 1)
  }

  /**
   * `currentChapterTitle`: nothing without a document or past the end of
   * the spine; otherwise the title of the chapter from the top-level TOC
   * entries, or the fallback.
   */
  function ChapterTitle(document: Option<Document>, chapter: nat): (t: Option<string>)
    ensures t.None? <==> document.None? || chapter >= |document.value.spine|
  {
    if document.None? || chapter >= |document.value.spine| then None
    else
      var doc := document.value;
      Some(FindTitle(document, doc.tableOfContents.subTable, doc.spine[chapter]).GetOr(FallbackTitle(chapter)))
  }

  /**
   * The title is absent exactly when out of range; otherwise it is the
   * label of the first pre-order TOC node naming the chapter's manifest
   * path, and the fallback when there is none (or the chapter's resource is
   * not in the manifest, or the TOC has no entries).
   */
  lemma ChapterTitleCases(document: Option<Document>, chapter: nat)
    ensures ChapterTitle(document, chapter).None? <==> document.None? || chapter >= |document.value.spine|
    ensures document.Some? && chapter < |document.value.spine| ==>
      var doc := document.value; var idref := doc.spine[chapter];
      var found := if idref in doc.manifest && doc.tableOfContents.subTable.Present?
                   then PreorderTitle(doc.tableOfContents.subTable.entries, doc.manifest[idref])
                   else None;
      ChapterTitle(document, chapter) == Some(found.GetOr(FallbackTitle(chapter)))
  {
  }

  /** The fallback names the chapter's one-based number. */
  lemma FallbackTitleNumber(chapter: nat)
    ensures var t := FallbackTitle(chapter); |t| > 8 && t[..8] == "Chapter "
    ensures DecimalValue(FallbackTitle(chapter)[8..]) == chapter + 1
  {
    assert FallbackTitle(chapter)[8..] == Decimal(chapter + 1);
    DecimalRoundTrip(chapter + 1);
  }
}
