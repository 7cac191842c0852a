/**
 * The directory being packed, as the walk in src/zip.ts sees it through
 * `fs.readdir`, `fs.stat` and `fs.readFile`: a directory lists its children
 * in the order the filesystem reports them, a file holds its bytes. The
 * walk's expected output is specified here as functions of the tree.
 */
module SourceTree {
  import opened Wrappers
  import opened JsZip

  datatype Node = Dir(name: string, children: seq<Node>) | File(name: string, bytes: seq<byte>)

  /** The `filter(fileName, filePath, isDirectory)` option. */
  type Filter = (string, string, bool) -> bool

  /** A name `fs.readdir` can report: non-empty, without a separator. */
  predicate ValidName(n: string) {
    n != "" && forall k :: 0 <= k < |n| ==> n[k] != '/'
  }

  /** What any real directory listing satisfies: valid names, unique among siblings. */
  predicate WellFormed(n: Node)
    decreases n
  {
    ValidName(n.name) && (n.Dir? ==> WellFormedList(n.children))
  }

  predicate WellFormedList(cs: seq<Node>)
    decreases cs
  {
    && (forall i :: 0 <= i < |cs| ==> WellFormed(cs[i]))
    && (forall i, j :: 0 <= i < j < |cs| ==> cs[i].name != cs[j].name)
  }

  /** `path.join(dir, name)`, with '/' as the separator and no normalisation. */
  function JoinPath(dir: string, name: string): (p: string)
    ensures StartsWith(p, dir) && |p| >= |dir| + |name|
    ensures p[|p| - |name|..] == name
  {
    if dir == "" then name
    else if EndsWithSlash(dir) then dir + name
    else dir + "/" + name
  }

  /** Line 99: an entry is skipped exactly when a filter is set and rejects it. */
  predicate Accepts(filter: Option<Filter>, name: string, path: string, isDir: bool) {
    filter.None? || filter.value(name, path, isDir)
  }

  predicate NodeAccepted(filter: Option<Filter>, dirPath: string, n: Node) {
    Accepts(filter, n.name, JoinPath(dirPath, n.name), n.Dir?)
  }

  /** The key a node is stored under in a view whose root is `root`. */
  function EntryName(root: string, n: Node): string {
    if n.Dir? then root + n.name + "/" else root + n.name
  }

  /**
   * The entries the walk adds for node `n`, listed in `dirPath`, into the view
   * rooted at `root`: nothing if the filter rejects it; a file entry with its
   * bytes; or a folder entry followed by everything below the folder, which
   * becomes the root for its children.
   */
  function WalkNode(root: string, dirPath: string, n: Node, filter: Option<Filter>): seq<Entry>
    decreases n
  {
    if !NodeAccepted(filter, dirPath, n) then []
    else match n
      case File(name, bytes) => [Entry(root + name, Data(bytes))]
      case Dir(name, children) =>
        [Entry(root + name + "/", Folder)] + Walk(root + name + "/", JoinPath(dirPath, name), children, filter)
  }

  /** The entries for a directory listing, depth first, in listing order. */
  function Walk(root: string, dirPath: string, cs: seq<Node>, filter: Option<Filter>): seq<Entry>
    decreases cs
  {
    if cs == [] then []
    else WalkNode(root, dirPath, cs[0], filter) + Walk(root, dirPath, cs[1..], filter)
  }

  /** Number of directories in a tree below a listing. */
  function DirCount(cs: seq<Node>): nat
    decreases cs
  {
    if cs == [] then 0
    else (match cs[0]
          case Dir(_, children) => 1 + DirCount(children)
          case File(_, _) => 0) + DirCount(cs[1..])
  }

  /** Number of files in a tree below a listing. */
  function FileCount(cs: seq<Node>): nat
    decreases cs
  {
    if cs == [] then 0
    else (match cs[0]
          case Dir(_, children) => FileCount(children)
          case File(_, _) => 1) + FileCount(cs[1..])
  }

  function FolderEntries(es: seq<Entry>): nat {
    if es == [] then 0 else (if es[0].content.Folder? then 1 else 0) + FolderEntries(es[1..])
  }

  function DataEntries(es: seq<Entry>): nat {
    if es == [] then 0 else (if es[0].content.Data? then 1 else 0) + DataEntries(es[1..])
  }
}
