/**
 * The `Zip` class of src/zip.ts: it owns a JSZip instance whose entries it
 * fills by walking a source directory and then writes out as one archive.
 * The JSZip instance is the pair of fields `files` (the shared, ordered entry
 * map) and `root` (the cursor of the view the class holds). The filesystem
 * is passed in: the directory found at `inDir` as an `Option<Node>` (None
 * when it is missing or not accessible), and the written archives as a map
 * from absolute path to entry list.
 */
module ZipPack {
  import opened Wrappers
  import opened JsZip
  import opened SourceTree
  import opened WalkProps

  /** The written archives, by absolute path. */
  type Disk = map<string, seq<Entry>>

  /** The constructor's options: the folder prefix inside the archive and an optional filter. */
  datatype ZipOptions = ZipOptions(pathPrefix: string, filter: Option<Filter>)

  datatype ZipError =
    | PrefixNotRelative(prefix: string)
    | FolderMissing(dir: string)
    | NotADirectory(dir: string)

  /** The text of the error thrown; the last one is the message of Node's failed `readdir`. */
  function Message(e: ZipError): string {
    match e
    case PrefixNotRelative(prefix) => "\"" + prefix + "\" pathPrefix must be a relative path"
    case FolderMissing(dir) => "\"" + dir + "\" folder does not exist!"
    case NotADirectory(dir) => "ENOTDIR: not a directory, scandir '" + dir + "'"
  }

  lemma Middle(a: string, b: string, c: string)
    ensures (a + b + c)[|a|..|a| + |b|] == b
  {
    assert forall k :: 0 <= k < |b| ==> (a + b + c)[|a|..|a| + |b|][k] == b[k];
  }

  /** The first and last characters of each message. */
  lemma MessageEnds(e: ZipError)
    ensures Message(e) != []
    ensures Message(e)[0] == if e.NotADirectory? then 'E' else '"'
    ensures Message(e)[|Message(e)| - 1] == match e
      case PrefixNotRelative(_) => 'h'
      case FolderMissing(_) => '!'
      case NotADirectory(_) => '\''
  {
    match e
    case PrefixNotRelative(p) =>
      var tail := "\" pathPrefix must be a relative path";
      assert Message(e)[|Message(e)| - 1] == tail[|tail| - 1];
    case FolderMissing(d) =>
      var tail := "\" folder does not exist!";
      assert Message(e)[|Message(e)| - 1] == tail[|tail| - 1];
    case NotADirectory(d) =>
      var head := "ENOTDIR: not a directory, scandir '";
      assert Message(e)[0] == head[0];
  }

  /**
   * The text tells the errors apart and names the offending path: two errors
   * give the same message exactly when they are the same error.
   */
  lemma MessageInjective(e1: ZipError, e2: ZipError)
    ensures Message(e1) == Message(e2) <==> e1 == e2
  {
    MessageEnds(e1);
    MessageEnds(e2);
    if Message(e1) == Message(e2) {
      match e1
      case PrefixNotRelative(p) =>
        var tail := "\" pathPrefix must be a relative path";
        Middle("\"", p, tail);
        Middle("\"", e2.prefix, tail);
      case FolderMissing(d) =>
        var tail := "\" folder does not exist!";
        Middle("\"", d, tail);
        Middle("\"", e2.dir, tail);
      case NotADirectory(d) =>
        var head := "ENOTDIR: not a directory, scandir '";
        Middle(head, d, "'");
        Middle(head, e2.dir, "'");
    }
  }

  /** `path.isAbsolute`, POSIX style. */
  predicate IsAbsolute(p: string) {
    |p| > 0 && p[0] == '/'
  }

  /** `path.resolve(path.join(outDir, outFileName))` against the working directory `cwd`. */
  function ResolvePath(cwd: string, outDir: string, outFileName: string): (r: string)
    ensures IsAbsolute(cwd) || IsAbsolute(outDir) ==> IsAbsolute(r)
    ensures |outFileName| <= |r| && r[|r| - |outFileName|..] == outFileName
  {
    var joined := JoinPath(outDir, outFileName);
    if IsAbsolute(joined) then joined else JoinPath(cwd, joined)
  }

  /** With an absolute `outDir` the working directory plays no part. */
  lemma ResolveAbsolute(cwd1: string, cwd2: string, outDir: string, outFileName: string)
    requires IsAbsolute(outDir)
    ensures ResolvePath(cwd1, outDir, outFileName) == ResolvePath(cwd2, outDir, outFileName) == JoinPath(outDir, outFileName)
  {
    assert JoinPath(outDir, outFileName)[0] == outDir[0];
  }

  /**
   * `createJSZip`: the entries and the cursor the class starts with. No
   * prefix: an empty archive at the top level. An absolute prefix is refused.
   * Otherwise the prefix folder is added (with its ancestors) and becomes the
   * cursor.
   */
  function Initial(prefix: string): (r: Result<(seq<Entry>, string), ZipError>)
    ensures r.Failure? <==> prefix != "" && IsAbsolute(prefix)
    ensures r.Failure? ==> r.error == PrefixNotRelative(prefix)
    ensures r.Success? ==> DistinctNames(r.value.0) && NonEmptyNames(r.value.0)
    ensures r.Success? && prefix != "" ==> r.value.1 == ForceTrailingSlash(prefix) && HasKey(r.value.0, r.value.1)
  {
    if prefix == "" then Success(([], ""))
    else if IsAbsolute(prefix) then Failure(PrefixNotRelative(prefix))
    else
      var added := FileAdd([], prefix, Folder);
      FileAddKeeps([], prefix, Folder);
      FileAddNonEmpty([], prefix, Folder);
      FolderAfterFile([], prefix);
      FolderAddFinds(added, prefix);
      Success(FolderAdd(added, prefix))
  }

  /**
   * The archive a fresh `Zip` writes after one `addDir(inDir)`: `save` puts
   * the cursor back at the top level, so every entry is written, in order.
   */
  function Archive(options: ZipOptions, inDir: string, source: Option<Node>): Result<seq<Entry>, ZipError> {
    var view :- Initial(options.pathPrefix);
    match source
    case None => Failure(FolderMissing(inDir))
    case Some(File(_, _)) => Failure(NotADirectory(inDir))
    case Some(Dir(_, children)) => Success(Generate(AddAll(view.0, Walk(view.1, inDir, children, options.filter)), ""))
  }

  /** A rejected child adds nothing. */
  lemma SkipStep(files: seq<Entry>, root: string, dirPath: string, n: Node, filter: Option<Filter>)
    requires !NodeAccepted(filter, dirPath, n)
    ensures AddAll(files, WalkNode(root, dirPath, n, filter)) == files
  {
  }

  /** An accepted file: one `file(name, bytes)` call below the view's cursor. */
  lemma FileStep(files: seq<Entry>, root: string, dirPath: string, n: Node, filter: Option<Filter>)
    requires n.File? && NodeAccepted(filter, dirPath, n)
    ensures AddAll(files, WalkNode(root, dirPath, n, filter)) == FileAdd(files, root + n.name, Data(n.bytes))
  {
    var e := Entry(root + n.name, Data(n.bytes));
    assert WalkNode(root, dirPath, n, filter) == [e];
    assert [e][1..] == [];
  }

  /**
   * An accepted directory: `file(name, null, {dir: true})`, then the walk of
   * its own listing into the folder's view.
   */
  lemma DirStep(files: seq<Entry>, after: seq<Entry>, root: string, dirPath: string, n: Node, filter: Option<Filter>)
    requires n.Dir? && ValidName(n.name) && NodeAccepted(filter, dirPath, n)
    requires after == AddAll(FileAdd(files, root + n.name, Folder), Walk(root + n.name + "/", JoinPath(dirPath, n.name), n.children, filter))
    ensures after == AddAll(files, WalkNode(root, dirPath, n, filter))
  {
    var key := root + n.name + "/";
    var below := Walk(key, JoinPath(dirPath, n.name), n.children, filter);
    assert WalkNode(root, dirPath, n, filter) == [Entry(key, Folder)] + below;
    assert ([Entry(key, Folder)] + below)[0] == Entry(key, Folder);
    assert ([Entry(key, Folder)] + below)[1..] == below;
    assert Target(root + n.name, Folder) == key == Target(key, Folder);
  }

  /** The walk of one more child of the listing. */
  lemma WalkStep(root: string, dirPath: string, cs: seq<Node>, i: int, filter: Option<Filter>)
    requires 0 <= i < |cs|
    ensures Walk(root, dirPath, cs[..i + 1], filter) == Walk(root, dirPath, cs[..i], filter) + WalkNode(root, dirPath, cs[i], filter)
  {
    assert cs[..i + 1] == cs[..i] + [cs[i]];
    WalkConcat(root, dirPath, cs[..i], [cs[i]], filter);
    assert [cs[i]][1..] == [];
  }

  /** One more child of the listing handled. */
  lemma LoopStep(start: seq<Entry>, before: seq<Entry>, after: seq<Entry>, root: string, dirPath: string, cs: seq<Node>, i: int, filter: Option<Filter>)
    requires 0 <= i < |cs|
    requires before == AddAll(start, Walk(root, dirPath, cs[..i], filter))
    requires after == AddAll(before, WalkNode(root, dirPath, cs[i], filter))
    ensures after == AddAll(start, Walk(root, dirPath, cs[..i + 1], filter))
  {
    var done := Walk(root, dirPath, cs[..i], filter);
    var next := WalkNode(root, dirPath, cs[i], filter);
    assert Walk(root, dirPath, cs[..i + 1], filter) == done + next by {
      WalkStep(root, dirPath, cs, i, filter);
    }
    assert AddAll(start, done + next) == AddAll(AddAll(start, done), next) by {
      AddAllConcat(start, done, next);
    }
  }

  /** Removing a file and writing it again is the same as overwriting it. */
  lemma ReplaceFile(disk: Disk, cleared: Disk, path: string, archive: seq<Entry>)
    requires cleared == disk || cleared == disk - {path}
    ensures cleared[path := archive] == disk[path := archive]
  {
  }

  /** `file()` with a non-empty name keeps the entry map's keys unique and non-empty. */
  lemma FileAddValid(files: seq<Entry>, name: string, content: Content)
    requires DistinctNames(files) && NonEmptyNames(files) && name != ""
    ensures DistinctNames(FileAdd(files, name, content)) && NonEmptyNames(FileAdd(files, name, content))
  {
    FileAddKeeps(files, name, content);
    FileAddNonEmpty(files, name, content);
  }

  class Zip {
    /** The entry map shared by the instance and every folder view of it. */
    var files: seq<Entry>
    /** The cursor of the view held in `this.zip`. */
    var root: string
    const options: ZipOptions

    ghost predicate Valid()
      reads this
    {
      DistinctNames(files) && NonEmptyNames(files)
    }

    /**
     * Stores the given state as is. It is internal to `Create`, which alone
     * calls it, with the entries and cursor of `Initial`.
     */
    constructor Init(options: ZipOptions, files: seq<Entry>, root: string)
      ensures this.options == options && this.files == files && this.root == root
    {
      this.options := options;
      this.files := files;
      this.root := root;
    }

    /** `new Zip(options)`, which throws when the prefix is absolute. */
    static method Create(options: ZipOptions) returns (r: Result<Zip, ZipError>)
      ensures r.Failure? <==> Initial(options.pathPrefix).Failure?
      ensures r.Failure? ==> r.error == PrefixNotRelative(options.pathPrefix)
      ensures r.Success? ==> fresh(r.value) && r.value.Valid() && r.value.options == options
      ensures r.Success? ==> (r.value.files, r.value.root) == Initial(options.pathPrefix).value
    {
      var prefix := options.pathPrefix;
      if prefix == "" {
        var z := new Zip.Init(options, [], "");
        return Success(z);
      }
      if IsAbsolute(prefix) {
        return Failure(PrefixNotRelative(prefix));
      }
      var files := FileAdd([], prefix, Folder);
      var (withFolder, folderRoot) := FolderAdd(files, prefix);
      var z := new Zip.Init(options, withFolder, folderRoot);
      return Success(z);
    }

    /**
     * `addDir(inDir)`: a directory that is missing or not accessible is
     * refused and the entries stay as they were; otherwise its listing is
     * walked into the view at the cursor.
     */
    method AddDir(inDir: string, source: Option<Node>) returns (r: Result<(), ZipError>)
      requires Valid()
      requires source.Some? && source.value.Dir? ==> WellFormedList(source.value.children)
      modifies this
      ensures Valid() && root == old(root)
      ensures source.None? ==> r == Failure(FolderMissing(inDir)) && files == old(files)
      ensures source.Some? && source.value.File? ==> r == Failure(NotADirectory(inDir)) && files == old(files)
      ensures source.Some? && source.value.Dir? ==>
                r.Success? && files == AddAll(old(files), Walk(root, inDir, source.value.children, options.filter))
      ensures source.Some? && source.value.Dir? && FreshView(old(files), root, source.value.children) ==>
                files == old(files) + Walk(root, inDir, source.value.children, options.filter)
    {
      match source
      case None =>
        return Failure(FolderMissing(inDir));
      case Some(File(_, _)) =>
        return Failure(NotADirectory(inDir));
      case Some(Dir(_, children)) =>
        AddFilesToZip(root, inDir, children);
        if FreshView(old(files), root, children) {
          AddListFresh(old(files), root, inDir, children, options.filter);
        }
        return Success(());
    }

    /**
     * `addFilesToZip(zip, inDir)` for the view whose cursor is `viewRoot`: each
     * child in listing order is skipped when the filter rejects it, stored
     * with its bytes when it is a file, and when it is a directory stored as a
     * folder whose view then receives the directory's own listing.
     */
    method AddFilesToZip(viewRoot: string, dirPath: string, children: seq<Node>)
      requires Valid() && WellFormedList(children)
      modifies this
      ensures Valid() && root == old(root)
      ensures files == AddAll(old(files), Walk(viewRoot, dirPath, children, options.filter))
      decreases children
    {
      var i := 0;
      assert children[..0] == [];
      while i < |children|
        invariant 0 <= i <= |children|
        invariant Valid() && root == old(root)
        invariant files == AddAll(old(files), Walk(viewRoot, dirPath, children[..i], options.filter))
      {
        ghost var before := files;
        assert WellFormed(children[i]);
        AddEntry(viewRoot, dirPath, children[i]);
        LoopStep(old(files), before, files, viewRoot, dirPath, children, i, options.filter);
        i := i + 1;
      }
      assert children[..i] == children;
    }

    /**
     * One turn of the loop in `addFilesToZip`, for the child `node` of the
     * directory at `dirPath`: skipped when the filter rejects it, stored with
     * its bytes when it is a file, and when it is a directory stored as a
     * folder whose view then receives the directory's own listing.
     */
    method AddEntry(viewRoot: string, dirPath: string, node: Node)
      requires Valid() && WellFormed(node)
      modifies this
      ensures Valid() && root == old(root)
      ensures files == AddAll(old(files), WalkNode(viewRoot, dirPath, node, options.filter))
      decreases node
    {
      var filePath := JoinPath(dirPath, node.name);
      var key := viewRoot + node.name;
      if options.filter.Some? && !options.filter.value(node.name, filePath, node.Dir?) {
        SkipStep(files, viewRoot, dirPath, node, options.filter);
      } else if node.Dir? {
        var added := FileAdd(files, key, Folder);
        FileAddValid(files, key, Folder);
        FolderAfterFile(files, key);
        var (withFolder, folderRoot) := FolderAdd(added, key);
        files := withFolder;
        AddFilesToZip(folderRoot, filePath, node.children);
        DirStep(old(files), files, viewRoot, dirPath, node, options.filter);
      } else {
        var added := FileAdd(files, key, Data(node.bytes));
        FileAddValid(files, key, Data(node.bytes));
        FileStep(files, viewRoot, dirPath, node, options.filter);
        files := added;
      }
    }

    /**
     * `save(outDir, outFileName)`: the cursor goes back to the top level, any
     * archive already at the resolved path is replaced, and the whole entry
     * map is written there, in the order `for…in` lists its keys. The entries
     * themselves do not change.
     */
    method Save(outDir: string, outFileName: string, cwd: string, disk: Disk)
      returns (filePath: string, written: Disk)
      requires Valid()
      modifies this
      ensures Valid() && root == "" && files == old(files)
      ensures filePath == ResolvePath(cwd, outDir, outFileName)
      ensures written == disk[filePath := PropertyOrder(files)]
    {
      root := "";
      filePath := ResolvePath(cwd, outDir, outFileName);
      written := disk;
      if filePath in written {
        written := written - {filePath};
      }
      var archive := Generate(files, root);
      GenerateFromTop(files);
      ReplaceFile(disk, written, filePath, archive);
      written := written[filePath := archive];
    }
  }
}
