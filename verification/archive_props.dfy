/**
 * What a fresh `Zip` writes after one `addDir` and a `save`: the prefix
 * folders, then the filtered depth-first walk of the directory, every entry
 * under a unique key.
 */
module ArchiveProps {
  import opened Wrappers
  import opened JsZip
  import opened SourceTree
  import opened WalkProps
  import opened ZipPack

  // ---------------------------------------------------------------------
  // The prefix folders

  /** A relative prefix of valid segments: no leading, trailing or doubled slash. */
  predicate CleanPath(q: string) {
    && q != "" && q[0] != '/' && q[|q| - 1] != '/'
    && forall k :: 0 <= k < |q| - 1 ==> !(q[k] == '/' && q[k + 1] == '/')
  }

  function SlashCount(s: string): nat
    decreases |s|
  {
    if s == [] then 0 else (if s[|s| - 1] == '/' then 1 else 0) + SlashCount(s[..|s| - 1])
  }

  /** One folder entry per segment of `q`, outermost first: `a/`, `a/b/`, `a/b/c/`. */
  function PrefixFolders(q: string): seq<Entry>
    decreases |q|
  {
    var i := LastSlash(q);
    (if i > 0 then PrefixFolders(q[..i]) else []) + [Entry(q + "/", Folder)]
  }

  lemma StartsWithTrans(a: string, b: string, c: string)
    requires StartsWith(a, b) && StartsWith(b, c)
    ensures StartsWith(a, c)
  {
    assert a[..|c|] == a[..|b|][..|c|];
  }

  /** The slashes of `s` are the one at its last slash plus those before it. */
  lemma {:induction false} SlashCountLast(s: string)
    ensures LastSlash(s) < 0 ==> SlashCount(s) == 0
    ensures LastSlash(s) >= 0 ==> SlashCount(s) == SlashCount(s[..LastSlash(s)]) + 1
    decreases |s|
  {
    if s != [] && s[|s| - 1] != '/' {
      var init := s[..|s| - 1];
      SlashCountLast(init);
      if LastSlash(init) >= 0 {
        assert init[..LastSlash(init)] == s[..LastSlash(s)];
      }
    }
  }

  lemma CleanParent(q: string)
    requires CleanPath(q) && LastSlash(q) > 0
    ensures CleanPath(q[..LastSlash(q)])
  {
    var i := LastSlash(q);
    assert q[i] == '/';
  }

  /**
   * The prefix folders are exactly the slash-terminated prefixes of `q + "/"`,
   * one per slash, strictly growing, ending with `q + "/"` itself.
   */
  lemma {:induction false} PrefixFoldersShape(q: string)
    requires CleanPath(q)
    ensures |PrefixFolders(q)| == SlashCount(q) + 1
    ensures PrefixFolders(q)[|PrefixFolders(q)| - 1] == Entry(q + "/", Folder)
    ensures forall j :: 0 <= j < |PrefixFolders(q)| ==>
              PrefixFolders(q)[j].content == Folder && EndsWithSlash(PrefixFolders(q)[j].name)
              && StartsWith(q + "/", PrefixFolders(q)[j].name)
    ensures forall j, k :: 0 <= j < k < |PrefixFolders(q)| ==> |PrefixFolders(q)[j].name| < |PrefixFolders(q)[k].name|
    decreases |q|
  {
    var i := LastSlash(q);
    var r := PrefixFolders(q);
    SlashCountLast(q);
    assert StartsWith(q + "/", q + "/");
    if i > 0 {
      var p := q[..i];
      CleanParent(q);
      PrefixFoldersShape(p);
      var before := PrefixFolders(p);
      assert r == before + [Entry(q + "/", Folder)];
      assert StartsWith(q + "/", p + "/") by {
        assert (q + "/")[..i + 1] == p + "/";
      }
      forall j | 0 <= j < |before|
        ensures StartsWith(q + "/", before[j].name) && |before[j].name| <= i + 1
      {
        StartsWithTrans(q + "/", p + "/", before[j].name);
      }
    } else {
      assert i < 0;
    }
  }

  /** No prefix folder of `p` has a key as long as a folder strictly below `p`. */
  lemma PrefixFoldersShorter(p: string, key: string)
    requires CleanPath(p) && |key| > |p| + 1
    ensures !HasKey(PrefixFolders(p), key)
  {
    var before := PrefixFolders(p);
    PrefixFoldersShape(p);
    HasKeyIndex(before, key);
    forall k | 0 <= k < |before| ensures before[k].name != key {
      assert |before[k].name| <= |p + "/"|;
    }
  }

  /** `file(q, null, {dir: true})` on an empty archive creates exactly the prefix folders. */
  lemma {:induction false} PrefixFoldersAdd(q: string)
    requires CleanPath(q)
    ensures FileAdd([], q, Folder) == PrefixFolders(q)
    decreases |q|
  {
    var i := LastSlash(q);
    var e := Entry(q + "/", Folder);
    assert ParentFolder(q + "/") == (if i > 0 then q[..i] else "") by {
      assert (q + "/")[..|q|] == q;
    }
    if i > 0 {
      var p := q[..i];
      CleanParent(q);
      var before := PrefixFolders(p);
      assert FileAdd([], p + "/", Folder) == before by {
        PrefixFoldersAdd(p);
        assert Target(p + "/", Folder) == Target(p, Folder);
      }
      assert FileAdd([], q, Folder) == Put(before, e);
      PrefixFoldersShorter(p, q + "/");
    } else {
      assert FileAdd([], q, Folder) == Put([], e);
    }
  }

  /** `createJSZip` with a clean prefix: the prefix folders, and the cursor on the innermost one. */
  lemma InitialClean(q: string, prefix: string)
    requires CleanPath(q) && (prefix == q || prefix == q + "/")
    ensures Initial(prefix) == Success((PrefixFolders(q), q + "/"))
  {
    assert FileAdd([], prefix, Folder) == FileAdd([], q, Folder) by {
      assert Target(prefix, Folder) == Target(q, Folder);
    }
    PrefixFoldersAdd(q);
    FolderAfterFile([], prefix);
  }

  /** Below the innermost prefix folder, the walk starts in a ready, empty view. */
  lemma PrefixViewFresh(q: string, cs: seq<Node>)
    requires CleanPath(q) && WellFormedList(cs)
    ensures FreshView(PrefixFolders(q), q + "/", cs)
  {
    var r := PrefixFolders(q);
    var root := q + "/";
    PrefixFoldersShape(q);
    assert root[..|root| - 1] == q;
    KeyAt(r, |r| - 1);
    forall i, k | 0 <= i < |cs| && 0 <= k < |r|
      ensures !Within(root, cs[i].name, r[k].name)
    {
      assert WellFormed(cs[i]);
      assert |r[k].name| <= |root| < |root + cs[i].name|;
    }
  }

  // ---------------------------------------------------------------------
  // The archive

  /** A sequence of `file()` calls with non-empty names keeps keys unique and non-empty. */
  lemma {:induction false} AddAllValid(files: seq<Entry>, es: seq<Entry>)
    requires DistinctNames(files) && NonEmptyNames(files) && NonEmptyNames(es)
    ensures DistinctNames(AddAll(files, es)) && NonEmptyNames(AddAll(files, es))
    decreases es
  {
    if es != [] {
      FileAddValid(files, es[0].name, es[0].content);
      AddAllValid(FileAdd(files, es[0].name, es[0].content), es[1..]);
    }
  }

  lemma WalkNonEmpty(root: string, dirPath: string, cs: seq<Node>, filter: Option<Filter>)
    requires WellFormedList(cs)
    ensures NonEmptyNames(Walk(root, dirPath, cs, filter))
  {
    var w := Walk(root, dirPath, cs, filter);
    WalkBelow(root, dirPath, cs, filter);
    forall k | 0 <= k < |w| ensures w[k].name != "" {
      assert w[k] in w;
    }
  }

  /**
   * Whatever the prefix, the archive holds every entry of the entry map once,
   * under a non-empty key.
   */
  lemma ArchiveDistinct(options: ZipOptions, inDir: string, source: Option<Node>)
    requires source.Some? && source.value.Dir? ==> WellFormedList(source.value.children)
    requires Archive(options, inDir, source).Success?
    ensures DistinctNames(Archive(options, inDir, source).value)
    ensures NonEmptyNames(Archive(options, inDir, source).value)
  {
    var view := Initial(options.pathPrefix).value;
    var w := Walk(view.1, inDir, source.value.children, options.filter);
    WalkNonEmpty(view.1, inDir, source.value.children, options.filter);
    AddAllValid(view.0, w);
    GenerateFromTop(AddAll(view.0, w));
    PermDistinct(AddAll(view.0, w), PropertyOrder(AddAll(view.0, w)));
    PermNonEmpty(AddAll(view.0, w), PropertyOrder(AddAll(view.0, w)));
  }

  /** The archive of a directory, once the prefix has been accepted. */
  lemma ArchiveOfDir(options: ZipOptions, inDir: string, dirName: string, cs: seq<Node>, files: seq<Entry>, root: string)
    requires Initial(options.pathPrefix) == Success((files, root))
    ensures Archive(options, inDir, Some(Dir(dirName, cs))) == Success(Generate(AddAll(files, Walk(root, inDir, cs, options.filter)), ""))
  {
  }

  /**
   * No prefix: the archive is the walk itself, at the top level, in the
   * order the `files` object lists its keys.
   */
  lemma ArchiveTopLevel(options: ZipOptions, inDir: string, dirName: string, cs: seq<Node>)
    requires options.pathPrefix == "" && WellFormedList(cs)
    ensures Archive(options, inDir, Some(Dir(dirName, cs))) == Success(PropertyOrder(Walk("", inDir, cs, options.filter)))
  {
    var w := Walk("", inDir, cs, options.filter);
    ArchiveOfDir(options, inDir, dirName, cs, [], "");
    TopLevelAdds(inDir, cs, options.filter);
    GenerateFromTop(w);
  }

  /** At the top level of an empty archive the walk's `file()` calls append it, with non-empty keys. */
  lemma TopLevelAdds(inDir: string, cs: seq<Node>, filter: Option<Filter>)
    requires WellFormedList(cs)
    ensures AddAll([], Walk("", inDir, cs, filter)) == Walk("", inDir, cs, filter)
    ensures NonEmptyNames(Walk("", inDir, cs, filter))
  {
    AddListFresh([], "", inDir, cs, filter);
    assert [] + Walk("", inDir, cs, filter) == Walk("", inDir, cs, filter);
    WalkNonEmpty("", inDir, cs, filter);
  }

  /**
   * The entry map after `new Zip(options)` and `addDir` of a directory is
   * what `save` writes: the archive, listed in property order.
   */
  lemma SavedArchive(options: ZipOptions, inDir: string, dirName: string, cs: seq<Node>, files: seq<Entry>)
    requires Initial(options.pathPrefix).Success? && NonEmptyNames(files)
    requires files == AddAll(Initial(options.pathPrefix).value.0, Walk(Initial(options.pathPrefix).value.1, inDir, cs, options.filter))
    ensures Archive(options, inDir, Some(Dir(dirName, cs))) == Success(PropertyOrder(files))
  {
    var view := Initial(options.pathPrefix).value;
    ArchiveOfDir(options, inDir, dirName, cs, view.0, view.1);
    GenerateFromTop(files);
  }

  /**
   * Every key the walk adds at the top level holds a separator, except the
   * names of the directory's own files: only those can be array indices.
   */
  lemma {:induction false} WalkIndexFree(dirPath: string, cs: seq<Node>, filter: Option<Filter>)
    requires WellFormedList(cs)
    requires forall i :: 0 <= i < |cs| && cs[i].File? ==> !ArrayIndex(cs[i].name)
    ensures NoIndexKeys(Walk("", dirPath, cs, filter))
    decreases cs
  {
    if cs != [] {
      var n := cs[0];
      WalkIndexFree(dirPath, cs[1..], filter);
      NodeIndexFree(dirPath, n, filter);
      NoIndexConcat(WalkNode("", dirPath, n, filter), Walk("", dirPath, cs[1..], filter));
    }
  }

  lemma NodeIndexFree(dirPath: string, n: Node, filter: Option<Filter>)
    requires WellFormed(n) && (n.File? ==> !ArrayIndex(n.name))
    ensures NoIndexKeys(WalkNode("", dirPath, n, filter))
  {
    if !NodeAccepted(filter, dirPath, n) {
      assert WalkNode("", dirPath, n, filter) == [];
    } else if n.Dir? {
      DirIndexFree(dirPath, n, filter);
    } else {
      FileIndexFree(dirPath, n, filter);
    }
  }

  lemma FileIndexFree(dirPath: string, n: Node, filter: Option<Filter>)
    requires n.File? && NodeAccepted(filter, dirPath, n) && !ArrayIndex(n.name)
    ensures NoIndexKeys(WalkNode("", dirPath, n, filter))
  {
    var e := Entry("" + n.name, Data(n.bytes));
    assert "" + n.name == n.name;
    assert WalkNode("", dirPath, n, filter) == [e];
  }

  /** An accepted directory's entries all lie below its folder key. */
  lemma DirIndexFree(dirPath: string, n: Node, filter: Option<Filter>)
    requires WellFormed(n) && n.Dir? && NodeAccepted(filter, dirPath, n)
    ensures NoIndexKeys(WalkNode("", dirPath, n, filter))
  {
    var wn := WalkNode("", dirPath, n, filter);
    var r := "" + n.name + "/";
    DirFirst("", dirPath, n, filter);
    assert r[..|r|] == r;
    AllBelowNotIndex(wn, r);
  }

  /** Keys that all begin with a folder key are no array indices. */
  lemma AllBelowNotIndex(es: seq<Entry>, r: string)
    requires EndsWithSlash(r) && forall k :: 0 <= k < |es| ==> StartsWith(es[k].name, r)
    ensures NoIndexKeys(es)
  {
    forall k | 0 <= k < |es| ensures !ArrayIndex(es[k].name) {
      BelowFolderNotIndex(es[k].name, r);
    }
  }

  /**
   * No prefix, and no file at the top level named by an array index: the
   * archive is the walk itself, in walk order.
   */
  lemma ArchiveTopLevelInOrder(options: ZipOptions, inDir: string, dirName: string, cs: seq<Node>)
    requires options.pathPrefix == "" && WellFormedList(cs)
    requires forall i :: 0 <= i < |cs| && cs[i].File? ==> !ArrayIndex(cs[i].name)
    ensures Archive(options, inDir, Some(Dir(dirName, cs))) == Success(Walk("", inDir, cs, options.filter))
  {
    ArchiveTopLevel(options, inDir, dirName, cs);
    WalkIndexFree(inDir, cs, options.filter);
    PlainOrder(Walk("", inDir, cs, options.filter));
  }

  /** The walk below the prefix folders only appends, and all of it is written. */
  lemma FoldersThenWalk(q: string, inDir: string, cs: seq<Node>, filter: Option<Filter>)
    requires CleanPath(q) && WellFormedList(cs)
    ensures Generate(AddAll(PrefixFolders(q), Walk(q + "/", inDir, cs, filter)), "") == PrefixFolders(q) + Walk(q + "/", inDir, cs, filter)
  {
    var pf := PrefixFolders(q);
    var w := Walk(q + "/", inDir, cs, filter);
    assert AddAll(pf, w) == pf + w by {
      PrefixViewFresh(q, cs);
      AddListFresh(pf, q + "/", inDir, cs, filter);
    }
    assert NonEmptyNames(pf + w) by {
      PrefixFoldersShape(q);
      WalkNonEmpty(q + "/", inDir, cs, filter);
      forall k | 0 <= k < |pf + w| ensures (pf + w)[k].name != "" {
        if k >= |pf| {
          assert (pf + w)[k] == w[k - |pf|];
        }
      }
    }
    GenerateFromTop(pf + w);
    PrefixFoldersIndexFree(q);
    WalkBelow(q + "/", inDir, cs, filter);
    BelowIndexFree(w, q + "/");
    NoIndexConcat(pf, w);
    PlainOrder(pf + w);
  }

  /** Every prefix folder key ends in a separator, so none is an array index. */
  lemma PrefixFoldersIndexFree(q: string)
    requires CleanPath(q)
    ensures NoIndexKeys(PrefixFolders(q))
  {
    var pf := PrefixFolders(q);
    PrefixFoldersShape(q);
    forall k | 0 <= k < |pf| ensures !ArrayIndex(pf[k].name) {
      BelowFolderNotIndex(pf[k].name, pf[k].name);
    }
  }

  /** Entries below a folder are never array indices. */
  lemma BelowIndexFree(w: seq<Entry>, root: string)
    requires EndsWithSlash(root)
    requires forall e :: e in w ==> StartsWith(e.name, root) && |e.name| > |root|
    ensures NoIndexKeys(w)
  {
    forall k | 0 <= k < |w| ensures !ArrayIndex(w[k].name) {
      assert w[k] in w;
      BelowFolderNotIndex(w[k].name, root);
    }
  }

  /**
   * A clean prefix `q` (with or without a trailing slash): the prefix folders,
   * outermost first, then the walk below `q/`.
   */
  lemma ArchiveWithPrefix(options: ZipOptions, inDir: string, dirName: string, cs: seq<Node>, q: string)
    requires CleanPath(q) && (options.pathPrefix == q || options.pathPrefix == q + "/") && WellFormedList(cs)
    ensures Archive(options, inDir, Some(Dir(dirName, cs))) ==
            Success(PrefixFolders(q) + Walk(q + "/", inDir, cs, options.filter))
  {
    InitialClean(q, options.pathPrefix);
    ArchiveOfDir(options, inDir, dirName, cs, PrefixFolders(q), q + "/");
    FoldersThenWalk(q, inDir, cs, options.filter);
  }

  /** Every entry from position `from` on lies strictly below `root`. */
  predicate BelowFrom(es: seq<Entry>, from: int, root: string) {
    forall k :: 0 <= from <= k < |es| ==> StartsWith(es[k].name, root) && |es[k].name| > |root|
  }

  lemma BelowAfter(pf: seq<Entry>, w: seq<Entry>, root: string)
    requires forall e :: e in w ==> StartsWith(e.name, root) && |e.name| > |root|
    ensures BelowFrom(pf + w, |pf|, root)
  {
    forall k | |pf| <= k < |pf + w| ensures StartsWith((pf + w)[k].name, root) && |(pf + w)[k].name| > |root| {
      assert (pf + w)[k] == w[k - |pf|];
      assert w[k - |pf|] in w;
    }
  }

  /** Everything after the prefix folders lies strictly below `q/`. */
  lemma ArchiveBelowPrefix(options: ZipOptions, inDir: string, dirName: string, cs: seq<Node>, q: string)
    requires CleanPath(q) && (options.pathPrefix == q || options.pathPrefix == q + "/") && WellFormedList(cs)
    ensures Archive(options, inDir, Some(Dir(dirName, cs))).Success?
    ensures BelowFrom(Archive(options, inDir, Some(Dir(dirName, cs))).value, |PrefixFolders(q)|, q + "/")
  {
    ArchiveWithPrefix(options, inDir, dirName, cs, q);
    WalkBelow(q + "/", inDir, cs, options.filter);
    BelowAfter(PrefixFolders(q), Walk(q + "/", inDir, cs, options.filter), q + "/");
  }

  /** The three ways the archive is refused. */
  lemma ArchiveErrors(options: ZipOptions, inDir: string, source: Option<Node>)
    ensures options.pathPrefix != "" && IsAbsolute(options.pathPrefix) ==>
              Archive(options, inDir, source) == Failure(PrefixNotRelative(options.pathPrefix))
    ensures !IsAbsolute(options.pathPrefix) && source.None? ==>
              Archive(options, inDir, source) == Failure(FolderMissing(inDir))
    ensures !IsAbsolute(options.pathPrefix) && source.Some? && source.value.File? ==>
              Archive(options, inDir, source) == Failure(NotADirectory(inDir))
    ensures Archive(options, inDir, source).Success? <==>
              (options.pathPrefix == "" || !IsAbsolute(options.pathPrefix)) && source.Some? && source.value.Dir?
  {
  }

  // ---------------------------------------------------------------------
  // The filter

  lemma {:induction false} WalkMember(root: string, dirPath: string, cs: seq<Node>, filter: Option<Filter>, e: Entry)
    requires e in Walk(root, dirPath, cs, filter)
    ensures exists j :: 0 <= j < |cs| && e in WalkNode(root, dirPath, cs[j], filter)
    decreases cs
  {
    if e !in WalkNode(root, dirPath, cs[0], filter) {
      WalkMember(root, dirPath, cs[1..], filter, e);
      var j :| 0 <= j < |cs[1..]| && e in WalkNode(root, dirPath, cs[1..][j], filter);
      assert cs[1..][j] == cs[j + 1];
    }
  }

  lemma WalkHasNode(root: string, dirPath: string, cs: seq<Node>, i: int, filter: Option<Filter>)
    requires 0 <= i < |cs|
    ensures forall e :: e in WalkNode(root, dirPath, cs[i], filter) ==> e in Walk(root, dirPath, cs, filter)
  {
    WalkConcat(root, dirPath, cs[..i], cs[i..], filter);
    assert cs[..i] + cs[i..] == cs;
    assert cs[i..][0] == cs[i];
  }

  /** An accepted child has its entry in the walk. */
  lemma AcceptedPresent(root: string, dirPath: string, cs: seq<Node>, i: int, filter: Option<Filter>)
    requires 0 <= i < |cs| && NodeAccepted(filter, dirPath, cs[i])
    ensures HasKey(Walk(root, dirPath, cs, filter), EntryName(root, cs[i]))
  {
    var w := Walk(root, dirPath, cs, filter);
    var node := WalkNode(root, dirPath, cs[i], filter);
    WalkHasNode(root, dirPath, cs, i, filter);
    assert node[0] in node;
    var k :| 0 <= k < |w| && w[k] == node[0];
    KeyAt(w, k);
  }

  /** A rejected child contributes nothing, and neither does anything below it. */
  lemma RejectedAbsent(root: string, dirPath: string, cs: seq<Node>, i: int, filter: Option<Filter>)
    requires WellFormedList(cs) && 0 <= i < |cs| && !NodeAccepted(filter, dirPath, cs[i])
    ensures forall e :: e in Walk(root, dirPath, cs, filter) ==> !Within(root, cs[i].name, e.name)
  {
    var w := Walk(root, dirPath, cs, filter);
    var n := cs[i];
    forall e | e in w ensures !Within(root, n.name, e.name) {
      WalkMember(root, dirPath, cs, filter, e);
      var j :| 0 <= j < |cs| && e in WalkNode(root, dirPath, cs[j], filter);
      assert WellFormed(cs[j]) && WellFormed(n);
      WalkNodeBelow(root, dirPath, cs[j], filter);
      WithinDisjoint(root, cs[j].name, n.name, e.name);
    }
  }

  lemma KeyWitness(w: seq<Entry>, key: string)
    ensures HasKey(w, key) ==> exists e :: e in w && e.name == key
  {
    HasKeyIndex(w, key);
    if HasKey(w, key) {
      var k :| 0 <= k < |w| && w[k].name == key;
      assert w[k] in w;
    }
  }

  /**
   * A child of a listing has its entry in the walk exactly when the filter
   * accepts it; a rejected child contributes nothing at all, so a rejected
   * directory's descendants are absent too.
   */
  lemma FilterDecides(root: string, dirPath: string, cs: seq<Node>, i: int, filter: Option<Filter>)
    requires WellFormedList(cs) && 0 <= i < |cs|
    ensures HasKey(Walk(root, dirPath, cs, filter), EntryName(root, cs[i])) <==> NodeAccepted(filter, dirPath, cs[i])
    ensures !NodeAccepted(filter, dirPath, cs[i]) ==>
              forall e :: e in Walk(root, dirPath, cs, filter) ==> !Within(root, cs[i].name, e.name)
  {
    if NodeAccepted(filter, dirPath, cs[i]) {
      AcceptedPresent(root, dirPath, cs, i, filter);
    } else {
      RejectedAbsent(root, dirPath, cs, i, filter);
      assert WellFormed(cs[i]);
      assert Within(root, cs[i].name, EntryName(root, cs[i]));
      KeyWitness(Walk(root, dirPath, cs, filter), EntryName(root, cs[i]));
    }
  }

  /** A filter that accepts everything gives the same walk as no filter. */
  lemma {:induction false} AcceptAllNode(root: string, dirPath: string, n: Node, f: Filter)
    requires forall name, path, isDir :: f(name, path, isDir)
    ensures WalkNode(root, dirPath, n, Some(f)) == WalkNode(root, dirPath, n, None)
    decreases n
  {
    if n.Dir? {
      AcceptAll(root + n.name + "/", JoinPath(dirPath, n.name), n.children, f);
    }
  }

  lemma {:induction false} AcceptAll(root: string, dirPath: string, cs: seq<Node>, f: Filter)
    requires forall name, path, isDir :: f(name, path, isDir)
    ensures Walk(root, dirPath, cs, Some(f)) == Walk(root, dirPath, cs, None)
    decreases cs
  {
    if cs != [] {
      AcceptAllNode(root, dirPath, cs[0], f);
      AcceptAll(root, dirPath, cs[1..], f);
    }
  }

  /** `f` accepts node `n`, listed in `dirPath`, and everything below it. */
  predicate AcceptedBelow(f: Filter, dirPath: string, n: Node)
    decreases n
  {
    && f(n.name, JoinPath(dirPath, n.name), n.Dir?)
    && (n.Dir? ==> AllAcceptedBelow(f, JoinPath(dirPath, n.name), n.children))
  }

  predicate AllAcceptedBelow(f: Filter, dirPath: string, cs: seq<Node>)
    decreases cs
  {
    forall i :: 0 <= i < |cs| ==> AcceptedBelow(f, dirPath, cs[i])
  }

  /** A filter that accepts a whole subtree leaves its walk as it is without a filter. */
  lemma {:induction false} AcceptedNode(root: string, dirPath: string, n: Node, f: Filter)
    requires AcceptedBelow(f, dirPath, n)
    ensures WalkNode(root, dirPath, n, Some(f)) == WalkNode(root, dirPath, n, None)
    decreases n
  {
    if n.Dir? {
      AcceptedWalk(root + n.name + "/", JoinPath(dirPath, n.name), n.children, f);
    }
  }

  lemma {:induction false} AcceptedWalk(root: string, dirPath: string, cs: seq<Node>, f: Filter)
    requires AllAcceptedBelow(f, dirPath, cs)
    ensures Walk(root, dirPath, cs, Some(f)) == Walk(root, dirPath, cs, None)
    decreases cs
  {
    if cs != [] {
      AcceptedNode(root, dirPath, cs[0], f);
      AcceptedWalk(root, dirPath, cs[1..], f);
    }
  }

  // ---------------------------------------------------------------------
  // Counts and order

  lemma {:induction false} EntriesConcat(a: seq<Entry>, b: seq<Entry>)
    ensures FolderEntries(a + b) == FolderEntries(a) + FolderEntries(b)
    ensures DataEntries(a + b) == DataEntries(a) + DataEntries(b)
    decreases a
  {
    if a == [] {
      assert a + b == b;
    } else {
      assert (a + b)[1..] == a[1..] + b;
      EntriesConcat(a[1..], b);
    }
  }

  /** Without a filter, one folder entry per directory and one data entry per file. */
  lemma {:induction false} WalkCounts(root: string, dirPath: string, cs: seq<Node>)
    ensures FolderEntries(Walk(root, dirPath, cs, None)) == DirCount(cs)
    ensures DataEntries(Walk(root, dirPath, cs, None)) == FileCount(cs)
    decreases cs
  {
    if cs != [] {
      var n := cs[0];
      var node := WalkNode(root, dirPath, n, None);
      EntriesConcat(node, Walk(root, dirPath, cs[1..], None));
      WalkCounts(root, dirPath, cs[1..]);
      match n
      case File(name, bytes) =>
        assert node == [Entry(root + name, Data(bytes))];
      case Dir(name, children) =>
        var below := Walk(root + name + "/", JoinPath(dirPath, name), children, None);
        assert node == [Entry(root + name + "/", Folder)] + below;
        EntriesConcat([Entry(root + name + "/", Folder)], below);
        WalkCounts(root + name + "/", JoinPath(dirPath, name), children);
    }
  }

  /** Reordering an entry list changes neither count. */
  lemma {:induction false} CountPerm(a: seq<Entry>, b: seq<Entry>)
    requires multiset(a) == multiset(b)
    ensures FolderEntries(a) == FolderEntries(b) && DataEntries(a) == DataEntries(b)
    decreases |a|
  {
    if a == [] {
      assert |b| == |multiset(b)| == 0;
    } else {
      var x := a[0];
      assert x in multiset(a);
      var i :| 0 <= i < |b| && b[i] == x;
      var rest := b[..i] + b[i + 1..];
      RemoveAt(b, i);
      assert multiset(a) == multiset{x} + multiset(a[1..]) by {
        assert a == [x] + a[1..];
      }
      assert multiset(a[1..]) == multiset(rest) by {
        assert multiset(a[1..]) == multiset(a) - multiset{x};
      }
      CountPerm(a[1..], rest);
      assert [x][1..] == [];
    }
  }

  /** Taking out the entry at `i` leaves the rest, counted apart from it. */
  lemma RemoveAt(b: seq<Entry>, i: int)
    requires 0 <= i < |b|
    ensures multiset(b) == multiset{b[i]} + multiset(b[..i] + b[i + 1..])
    ensures FolderEntries(b) == FolderEntries([b[i]]) + FolderEntries(b[..i] + b[i + 1..])
    ensures DataEntries(b) == DataEntries([b[i]]) + DataEntries(b[..i] + b[i + 1..])
  {
    SplitAt(b, i);
    SplitCounts(b[..i], [b[i]], b[i + 1..]);
    SplitMultiset(b[..i], [b[i]], b[i + 1..]);
  }

  lemma SplitAt(b: seq<Entry>, i: int)
    requires 0 <= i < |b|
    ensures b == b[..i] + ([b[i]] + b[i + 1..])
  {
  }

  lemma SplitMultiset(left: seq<Entry>, mid: seq<Entry>, right: seq<Entry>)
    ensures multiset(left + (mid + right)) == multiset(mid) + multiset(left + right)
  {
    assert multiset(left + (mid + right)) == multiset(left) + (multiset(mid) + multiset(right));
    assert multiset(left + right) == multiset(left) + multiset(right);
  }

  /** Counts of three runs, regrouped. */
  lemma SplitCounts(left: seq<Entry>, mid: seq<Entry>, right: seq<Entry>)
    ensures FolderEntries(left + (mid + right)) == FolderEntries(mid) + FolderEntries(left + right)
    ensures DataEntries(left + (mid + right)) == DataEntries(mid) + DataEntries(left + right)
  {
    EntriesConcat(left, mid + right);
    EntriesConcat(mid, right);
    EntriesConcat(left, right);
  }

  /** No filter, or one that accepts every name, path and kind. */
  ghost predicate AcceptsEverything(filter: Option<Filter>) {
    filter.Some? ==> forall name, path, isDir :: filter.value(name, path, isDir)
  }

  /**
   * What `save` writes with no prefix and no effective filter: one folder
   * entry per directory and one data entry per file of the tree, and an
   * entry is a folder exactly when its name ends in `/`.
   */
  lemma ArchiveCounts(options: ZipOptions, inDir: string, dirName: string, cs: seq<Node>)
    requires options.pathPrefix == "" && AcceptsEverything(options.filter) && WellFormedList(cs)
    ensures Archive(options, inDir, Some(Dir(dirName, cs))).Success?
    ensures FolderEntries(Archive(options, inDir, Some(Dir(dirName, cs))).value) == DirCount(cs)
    ensures DataEntries(Archive(options, inDir, Some(Dir(dirName, cs))).value) == FileCount(cs)
    ensures forall e :: e in Archive(options, inDir, Some(Dir(dirName, cs))).value ==>
              (e.content.Folder? <==> EndsWithSlash(e.name))
  {
    var w := Walk("", inDir, cs, options.filter);
    ArchiveTopLevel(options, inDir, dirName, cs);
    if options.filter.Some? {
      AcceptAll("", inDir, cs, options.filter.value);
    }
    WalkCounts("", inDir, cs);
    CountPerm(w, PropertyOrder(w));
    EntryKinds("", inDir, cs, options.filter);
    assert forall e :: e in PropertyOrder(w) ==> e in multiset(w);
  }

  /**
   * Pre-order: an accepted directory's own entry comes first, and everything
   * after it lies strictly below it.
   */
  lemma DirFirst(root: string, dirPath: string, n: Node, filter: Option<Filter>)
    requires WellFormed(n) && n.Dir? && NodeAccepted(filter, dirPath, n)
    ensures WalkNode(root, dirPath, n, filter)[0] == Entry(root + n.name + "/", Folder)
    ensures forall k :: 1 <= k < |WalkNode(root, dirPath, n, filter)| ==>
              StartsWith(WalkNode(root, dirPath, n, filter)[k].name, root + n.name + "/")
              && |WalkNode(root, dirPath, n, filter)[k].name| > |root + n.name + "/"|
  {
    var key := root + n.name + "/";
    var below := Walk(key, JoinPath(dirPath, n.name), n.children, filter);
    var w := WalkNode(root, dirPath, n, filter);
    assert w == [Entry(key, Folder)] + below;
    WalkBelow(key, JoinPath(dirPath, n.name), n.children, filter);
    forall k | 1 <= k < |w| ensures StartsWith(w[k].name, key) && |w[k].name| > |key| {
      assert w[k] == below[k - 1];
      assert below[k - 1] in below;
    }
  }

  /** The entries `es` moved below `root`. */
  function Under(root: string, es: seq<Entry>): (r: seq<Entry>)
    ensures |r| == |es|
    ensures forall k :: 0 <= k < |es| ==> r[k] == Entry(root + es[k].name, es[k].content)
  {
    seq(|es|, k requires 0 <= k < |es| => Entry(root + es[k].name, es[k].content))
  }

  lemma UnderConcat(root: string, a: seq<Entry>, b: seq<Entry>)
    ensures Under(root, a + b) == Under(root, a) + Under(root, b)
  {
  }

  lemma UnderUnder(a: string, b: string, es: seq<Entry>)
    ensures Under(a + b, es) == Under(a, Under(b, es))
  {
    forall k | 0 <= k < |es| ensures (a + b) + es[k].name == a + (b + es[k].name) {
    }
  }

  /** A folder entry and what lies below it, moved below `root`. */
  lemma FolderUnder(root: string, name: string, w: seq<Entry>)
    ensures [Entry(root + name + "/", Folder)] + Under(root + name + "/", w) ==
            Under(root, [Entry("" + name + "/", Folder)] + Under("" + name + "/", w))
  {
    assert "" + name + "/" == name + "/";
    assert root + name + "/" == root + (name + "/");
    UnderUnder(root, name + "/", w);
    assert Under(root, [Entry(name + "/", Folder)]) == [Entry(root + (name + "/"), Folder)];
    UnderConcat(root, [Entry(name + "/", Folder)], Under(name + "/", w));
  }

  lemma FileUnder(root: string, name: string, bytes: seq<byte>)
    ensures [Entry(root + name, Data(bytes))] == Under(root, [Entry("" + name, Data(bytes))])
  {
    assert "" + name == name;
  }

  /**
   * A walk into the view rooted at `root` is the top-level walk with `root`
   * put in front of every key: where the folder view sits does not change
   * what is added below it.
   */
  lemma {:induction false} WalkNodeUnder(root: string, dirPath: string, n: Node, filter: Option<Filter>)
    ensures WalkNode(root, dirPath, n, filter) == Under(root, WalkNode("", dirPath, n, filter))
    decreases n
  {
    if NodeAccepted(filter, dirPath, n) {
      match n
      case File(name, bytes) =>
        FileUnder(root, name, bytes);
      case Dir(name, children) =>
        var path := JoinPath(dirPath, name);
        WalkUnder(root + name + "/", path, children, filter);
        WalkUnder("" + name + "/", path, children, filter);
        FolderUnder(root, name, Walk("", path, children, filter));
    }
  }

  lemma {:induction false} WalkUnder(root: string, dirPath: string, cs: seq<Node>, filter: Option<Filter>)
    ensures Walk(root, dirPath, cs, filter) == Under(root, Walk("", dirPath, cs, filter))
    decreases cs
  {
    if cs != [] {
      WalkNodeUnder(root, dirPath, cs[0], filter);
      WalkUnder(root, dirPath, cs[1..], filter);
      UnderConcat(root, WalkNode("", dirPath, cs[0], filter), Walk("", dirPath, cs[1..], filter));
    }
  }
}
