/**
 * The parsed book as the reader sees it: a spine of manifest ids in
 * reading order, a manifest from id to resource path, and a table of
 * contents tree. Parsing itself happens outside this model; a document is
 * a read-only value.
 */
module Epub {
  import opened Wrappers

  /** A table-of-contents node: its label (`title`; `label` is a Dafny keyword), its target `path#fragment`, and its children. */
  datatype Toc = Toc(title: string, item: Option<string>, subTable: SubTable)

  /** A node's optional list of children (`[EPUBTableOfContents]?`). */
  datatype SubTable = Absent | Present(entries: seq<Toc>)

  /** `spine` holds the idrefs of the spine items; `manifest` maps ids to resource paths. */
  datatype Document = Document(spine: seq<string>, manifest: map<string, string>, tableOfContents: Toc)
}
