/**
 * The scenarios of tests/zip.test.ts, over the directory tests/inDir the
 * tests pack: the key lists the tests expect, as lemmas about the archive
 * specification, and the call sequences they make, as client methods of
 * `Zip`. File contents play no part in the expected key lists and are empty.
 */
module Scenarios {
  import opened Wrappers
  import opened JsZip
  import opened SourceTree
  import opened WalkProps
  import opened ZipPack
  import opened ArchiveProps

  /** `Object.keys(zip.files)` of a loaded archive. */
  function Keys(es: seq<Entry>): (r: seq<string>)
    ensures |r| == |es| && forall k :: 0 <= k < |es| ==> r[k] == es[k].name
  {
    if es == [] then [] else [es[0].name] + Keys(es[1..])
  }

  lemma KeysConcat(a: seq<Entry>, b: seq<Entry>)
    ensures Keys(a + b) == Keys(a) + Keys(b)
  {
  }

  lemma WalkCons(root: string, dirPath: string, cs: seq<Node>, filter: Option<Filter>)
    requires cs != []
    ensures Keys(Walk(root, dirPath, cs, filter)) ==
            Keys(WalkNode(root, dirPath, cs[0], filter)) + Keys(Walk(root, dirPath, cs[1..], filter))
  {
    KeysConcat(WalkNode(root, dirPath, cs[0], filter), Walk(root, dirPath, cs[1..], filter));
  }

  lemma WalkDir(root: string, dirPath: string, n: Node, filter: Option<Filter>)
    requires n.Dir? && NodeAccepted(filter, dirPath, n)
    ensures Keys(WalkNode(root, dirPath, n, filter)) ==
            [root + n.name + "/"] + Keys(Walk(root + n.name + "/", JoinPath(dirPath, n.name), n.children, filter))
  {
    KeysConcat([Entry(root + n.name + "/", Folder)], Walk(root + n.name + "/", JoinPath(dirPath, n.name), n.children, filter));
  }

  lemma WalkOneFile(root: string, dirPath: string, a: string, x: seq<byte>)
    ensures Keys(Walk(root, dirPath, [File(a, x)], None)) == [root + a]
  {
    WalkCons(root, dirPath, [File(a, x)], None);
  }

  lemma WalkTwoFiles(root: string, dirPath: string, a: string, b: string, x: seq<byte>, y: seq<byte>)
    ensures Keys(Walk(root, dirPath, [File(a, x), File(b, y)], None)) == [root + a, root + b]
  {
    var cs := [File(a, x), File(b, y)];
    WalkCons(root, dirPath, cs, None);
    WalkCons(root, dirPath, cs[1..], None);
  }

  /** A listing of one file, then one more node. */
  lemma WalkFileThen(root: string, dirPath: string, a: string, x: seq<byte>, n: Node)
    ensures Keys(Walk(root, dirPath, [File(a, x), n], None)) == [root + a] + Keys(WalkNode(root, dirPath, n, None))
  {
    var cs := [File(a, x), n];
    WalkCons(root, dirPath, cs, None);
    assert cs[1..] == [n];
    WalkCons(root, dirPath, [n], None);
    assert WalkNode(root, dirPath, File(a, x), None) == [Entry(root + a, Data(x))];
  }

  // ---------------------------------------------------------------------
  // tests/inDir

  const Assets := Dir("assets", [File("a.css", []), File("a.js", [])])
  const Img := Dir("img", [File("people.png", []), File("peoples.png", [])])
  const IndexHtml := File("index.html", [])
  const Lv3 := Dir("lv3", [File("lv3.js", [])])
  const Lv2 := Dir("lv2", [File("lv2.js", []), Lv3])
  const Lv1 := Dir("lv1", [File("lv1.js", []), Lv2])
  const InDir := Dir("inDir", [Assets, Img, IndexHtml, Lv1])

  /** The one file at the top of tests/inDir is not named by an array index. */
  lemma InDirIndexFree()
    ensures forall i :: 0 <= i < |InDir.children| && InDir.children[i].File? ==> !ArrayIndex(InDir.children[i].name)
  {
    assert !IsDigit(IndexHtml.name[0]);
  }

  lemma AssetsKeys()
    ensures Keys(WalkNode("", "tests/inDir", Assets, None)) == ["assets/", "assets/a.css", "assets/a.js"]
  {
    AssetsStrings();
    WalkDir("", "tests/inDir", Assets, None);
    WalkTwoFiles("assets/", JoinPath("tests/inDir", "assets"), "a.css", "a.js", [], []);
  }

  lemma ImgKeys()
    ensures Keys(WalkNode("", "tests/inDir", Img, None)) == ["img/", "img/people.png", "img/peoples.png"]
  {
    ImgStrings();
    WalkDir("", "tests/inDir", Img, None);
    WalkTwoFiles("img/", JoinPath("tests/inDir", "img"), "people.png", "peoples.png", [], []);
  }

  lemma IndexKeys()
    ensures Keys(WalkNode("", "tests/inDir", IndexHtml, None)) == ["index.html"]
  {
    IndexStrings();
    assert WalkNode("", "tests/inDir", IndexHtml, None) == [Entry("" + "index.html", Data([]))];
  }

  lemma Lv3Keys()
    ensures Keys(WalkNode("lv1/lv2/", "tests/inDir/lv1/lv2", Lv3, None)) == ["lv1/lv2/lv3/", "lv1/lv2/lv3/lv3.js"]
  {
    Lv3Strings();
    WalkDir("lv1/lv2/", "tests/inDir/lv1/lv2", Lv3, None);
    WalkOneFile("lv1/lv2/lv3/", JoinPath("tests/inDir/lv1/lv2", "lv3"), "lv3.js", []);
  }

  lemma Lv2Keys()
    ensures Keys(WalkNode("lv1/", "tests/inDir/lv1", Lv2, None)) ==
            ["lv1/lv2/", "lv1/lv2/lv2.js", "lv1/lv2/lv3/", "lv1/lv2/lv3/lv3.js"]
  {
    Lv2Strings();
    WalkDir("lv1/", "tests/inDir/lv1", Lv2, None);
    WalkFileThen("lv1/lv2/", "tests/inDir/lv1/lv2", "lv2.js", [], Lv3);
    Lv3Keys();
  }

  lemma Lv1Keys()
    ensures Keys(WalkNode("", "tests/inDir", Lv1, None)) ==
            ["lv1/", "lv1/lv1.js", "lv1/lv2/", "lv1/lv2/lv2.js", "lv1/lv2/lv3/", "lv1/lv2/lv3/lv3.js"]
  {
    Lv1Strings();
    WalkDir("", "tests/inDir", Lv1, None);
    WalkFileThen("lv1/", "tests/inDir/lv1", "lv1.js", [], Lv2);
    Lv2Keys();
  }

  lemma KeysFour(a: seq<Entry>, b: seq<Entry>, c: seq<Entry>, d: seq<Entry>)
    ensures Keys(a + (b + (c + (d + [])))) == Keys(a) + (Keys(b) + (Keys(c) + Keys(d)))
  {
    assert d + [] == d;
    KeysConcat(a, b + (c + d));
    KeysConcat(b, c + d);
    KeysConcat(c, d);
  }

  lemma Lv1WellFormed()
    ensures WellFormed(Lv1)
  {
    assert WellFormed(Lv3);
    assert WellFormed(Lv2);
  }

  lemma AssetsWellFormed()
    ensures WellFormed(Assets)
  {
    assert ValidName("a.css") && ValidName("a.js");
  }

  lemma ImgWellFormed()
    ensures WellFormed(Img)
  {
    assert ValidName("people.png") && ValidName("peoples.png");
  }

  lemma LeavesWellFormed()
    ensures WellFormed(Assets) && WellFormed(Img) && WellFormed(IndexHtml)
  {
    AssetsWellFormed();
    ImgWellFormed();
  }

  /** tests/inDir is a directory listing the filesystem can report. */
  lemma InDirWellFormed()
    ensures WellFormedList(InDir.children)
  {
    Lv1WellFormed();
    LeavesWellFormed();
  }

  lemma InDirJoin()
    ensures ["assets/", "assets/a.css", "assets/a.js"]
            + (["img/", "img/people.png", "img/peoples.png"]
            + (["index.html"]
            + ["lv1/", "lv1/lv1.js", "lv1/lv2/", "lv1/lv2/lv2.js", "lv1/lv2/lv3/", "lv1/lv2/lv3/lv3.js"]))
         == InDirAll
  {
  }

  const InDirAll: seq<string> := [
    "assets/", "assets/a.css", "assets/a.js",
    "img/", "img/people.png", "img/peoples.png",
    "index.html",
    "lv1/", "lv1/lv1.js", "lv1/lv2/", "lv1/lv2/lv2.js", "lv1/lv2/lv3/", "lv1/lv2/lv3/lv3.js"]

  /** The keys of tests/inDir walked without a filter. */
  lemma InDirKeys()
    ensures Keys(Walk("", "tests/inDir", InDir.children, None)) == InDirAll
  {
    WalkFour("", "tests/inDir", Assets, Img, IndexHtml, Lv1, None);
    KeysFour(WalkNode("", "tests/inDir", Assets, None), WalkNode("", "tests/inDir", Img, None),
             WalkNode("", "tests/inDir", IndexHtml, None), WalkNode("", "tests/inDir", Lv1, None));
    AssetsKeys();
    ImgKeys();
    IndexKeys();
    Lv1Keys();
    InDirJoin();
  }

  // ---------------------------------------------------------------------
  // The filter of the "filter files" test: `!/img/.test(filePath)`

  /** `t` occurs in `s`, which is what `/img/.test` decides for a pattern of plain letters. */
  predicate Contains(s: string, t: string) {
    exists k :: 0 <= k <= |s| - |t| && MatchAt(s, t, k)
  }

  predicate MatchAt(s: string, t: string, k: int) {
    0 <= k && k + |t| <= |s| && s[k..k + |t|] == t
  }

  const ImgFilter: Filter := (fileName: string, filePath: string, isDir: bool) => !Contains(filePath, "img")

  /** A node whose name, and every name below it, lacks the character `c`. */
  predicate Lacks(c: char, n: Node)
    decreases n
  {
    c !in n.name && (n.Dir? ==> forall i :: 0 <= i < |n.children| ==> Lacks(c, n.children[i]))
  }

  lemma ImgHasG(s: string, k: int)
    requires MatchAt(s, "img", k)
    ensures 'g' in s
  {
    assert s[k + 2] == s[k..k + 3][2];
  }

  lemma NoImg(s: string)
    requires 'g' !in s
    ensures !Contains(s, "img")
  {
    forall k | 0 <= k <= |s| - 3 ensures !MatchAt(s, "img", k) {
      if MatchAt(s, "img", k) {
        ImgHasG(s, k);
      }
    }
  }

  lemma JoinLacks(c: char, dir: string, name: string)
    requires c != '/' && c !in dir && c !in name
    ensures c !in JoinPath(dir, name)
  {
  }

  /** No path below a directory whose path and names lack a 'g' matches /img/. */
  lemma {:induction false} ImgAcceptsNode(dirPath: string, n: Node)
    requires 'g' !in dirPath && Lacks('g', n)
    ensures AcceptedBelow(ImgFilter, dirPath, n)
    decreases n
  {
    var path := JoinPath(dirPath, n.name);
    JoinLacks('g', dirPath, n.name);
    NoImg(path);
    if n.Dir? {
      forall i | 0 <= i < |n.children| ensures AcceptedBelow(ImgFilter, path, n.children[i]) {
        ImgAcceptsNode(path, n.children[i]);
      }
    }
  }

  lemma ImgRejected()
    ensures WalkNode("", "tests/inDir", Img, Some(ImgFilter)) == []
  {
    var path := JoinPath("tests/inDir", "img");
    assert path == "tests/inDir/img";
    assert path[12..15] == "img";
    assert MatchAt(path, "img", 12);
  }

  lemma LacksG()
    ensures Lacks('g', Assets) && Lacks('g', IndexHtml) && Lacks('g', Lv1)
  {
    assert Lacks('g', Lv3);
    assert Lacks('g', Lv2);
  }

  lemma FilteredJoin()
    ensures ["assets/", "assets/a.css", "assets/a.js"]
            + ([] + (["index.html"]
            + ["lv1/", "lv1/lv1.js", "lv1/lv2/", "lv1/lv2/lv2.js", "lv1/lv2/lv3/", "lv1/lv2/lv3/lv3.js"]))
         == InDirNoImg
  {
  }

  const InDirNoImg: seq<string> := [
    "assets/", "assets/a.css", "assets/a.js",
    "index.html",
    "lv1/", "lv1/lv1.js", "lv1/lv2/", "lv1/lv2/lv2.js", "lv1/lv2/lv3/", "lv1/lv2/lv3/lv3.js"]

  /** The keys of tests/inDir walked with the /img/ filter: the img folder and its files are gone. */
  lemma InDirFilteredKeys()
    ensures Keys(Walk("", "tests/inDir", InDir.children, Some(ImgFilter))) == InDirNoImg
  {
    var f := Some(ImgFilter);
    WalkFour("", "tests/inDir", Assets, Img, IndexHtml, Lv1, f);
    KeysFour(WalkNode("", "tests/inDir", Assets, f), WalkNode("", "tests/inDir", Img, f),
             WalkNode("", "tests/inDir", IndexHtml, f), WalkNode("", "tests/inDir", Lv1, f));
    LacksG();
    ImgAcceptsNode("tests/inDir", Assets);
    ImgAcceptsNode("tests/inDir", IndexHtml);
    ImgAcceptsNode("tests/inDir", Lv1);
    AcceptedNode("", "tests/inDir", Assets, ImgFilter);
    AcceptedNode("", "tests/inDir", IndexHtml, ImgFilter);
    AcceptedNode("", "tests/inDir", Lv1, ImgFilter);
    ImgRejected();
    AssetsKeys();
    IndexKeys();
    Lv1Keys();
    FilteredJoin();
  }

  // ---------------------------------------------------------------------
  // Keys below a prefix

  /** Every key of `ks` with `p` in front. */
  function Prefixed(p: string, ks: seq<string>): (r: seq<string>)
    ensures |r| == |ks| && forall k :: 0 <= k < |ks| ==> r[k] == p + ks[k]
  {
    seq(|ks|, k requires 0 <= k < |ks| => p + ks[k])
  }

  lemma KeysUnder(root: string, es: seq<Entry>)
    ensures Keys(Under(root, es)) == Prefixed(root, Keys(es))
  {
  }

  /**
   * With a clean prefix `q`, the archive's keys are those of the prefix
   * folders, then those of the top-level walk with `q/` in front of each.
   */
  lemma PrefixKeys(options: ZipOptions, inDir: string, dirName: string, cs: seq<Node>, q: string)
    requires CleanPath(q) && (options.pathPrefix == q || options.pathPrefix == q + "/") && WellFormedList(cs)
    ensures Archive(options, inDir, Some(Dir(dirName, cs))).Success?
    ensures Keys(Archive(options, inDir, Some(Dir(dirName, cs))).value) ==
            Keys(PrefixFolders(q)) + Prefixed(q + "/", Keys(Walk("", inDir, cs, options.filter)))
  {
    var w := Walk("", inDir, cs, options.filter);
    ArchiveWithPrefix(options, inDir, dirName, cs, q);
    WalkUnder(q + "/", inDir, cs, options.filter);
    KeysConcat(PrefixFolders(q), Under(q + "/", w));
    KeysUnder(q + "/", w);
  }

  lemma FoldersStep(q: string)
    requires LastSlash(q) > 0
    ensures Keys(PrefixFolders(q)) == Keys(PrefixFolders(q[..LastSlash(q)])) + [q + "/"]
  {
    KeysConcat(PrefixFolders(q[..LastSlash(q)]), [Entry(q + "/", Folder)]);
  }

  lemma AppFolders()
    ensures CleanPath("app") && Keys(PrefixFolders("app")) == ["app/"]
  {
    assert LastSlash("app") == -1;
    assert PrefixFolders("app") == [Entry("app/", Folder)] by {
      assert "app" + "/" == "app/";
    }
  }

  lemma DeepSlashes()
    ensures LastSlash("app/bpp/cpp") == 7 && "app/bpp/cpp"[..7] == "app/bpp"
    ensures LastSlash("app/bpp") == 3 && "app/bpp"[..3] == "app"
    ensures "app/bpp" + "/" == "app/bpp/" && "app/bpp/cpp" + "/" == "app/bpp/cpp/"
  {
    assert "app/bpp/cpp"[7] == '/';
    assert "app/bpp"[3] == '/';
  }

  lemma DeepFolders()
    ensures CleanPath("app/bpp/cpp")
    ensures Keys(PrefixFolders("app/bpp/cpp")) == ["app/", "app/bpp/", "app/bpp/cpp/"]
  {
    DeepSlashes();
    FoldersStep("app/bpp/cpp");
    FoldersStep("app/bpp");
    AppFolders();
  }

  lemma PrefixedConcat(p: string, a: seq<string>, b: seq<string>)
    ensures Prefixed(p, a + b) == Prefixed(p, a) + Prefixed(p, b)
  {
  }

  lemma PrefixedPieces(p: string, a: seq<string>, b: seq<string>, c: seq<string>, d: seq<string>)
    ensures Prefixed(p, a + (b + (c + d))) == Prefixed(p, a) + (Prefixed(p, b) + (Prefixed(p, c) + Prefixed(p, d)))
  {
    PrefixedConcat(p, a, b + (c + d));
    PrefixedConcat(p, b, c + d);
    PrefixedConcat(p, c, d);
  }

  lemma PrefixedOne(p: string, a: string)
    ensures Prefixed(p, [a]) == [p + a]
  {
  }

  lemma PrefixedThree(p: string, a: string, b: string, c: string)
    ensures Prefixed(p, [a, b, c]) == [p + a, p + b, p + c]
  {
  }

  lemma PrefixedSix(p: string, a: string, b: string, c: string, d: string, e: string, f: string)
    ensures Prefixed(p, [a, b, c, d, e, f]) == [p + a, p + b, p + c, p + d, p + e, p + f]
  {
  }

  /** The keys of tests/inDir with `p` in front, piece by piece. */
  lemma PrefixedInDir(p: string)
    ensures Prefixed(p, InDirAll) ==
            [p + "assets/", p + "assets/a.css", p + "assets/a.js"]
            + ([p + "img/", p + "img/people.png", p + "img/peoples.png"]
            + ([p + "index.html"]
            + [p + "lv1/", p + "lv1/lv1.js", p + "lv1/lv2/", p + "lv1/lv2/lv2.js", p + "lv1/lv2/lv3/", p + "lv1/lv2/lv3/lv3.js"]))
  {
    InDirJoin();
    PrefixedPieces(p, ["assets/", "assets/a.css", "assets/a.js"], ["img/", "img/people.png", "img/peoples.png"],
                   ["index.html"], ["lv1/", "lv1/lv1.js", "lv1/lv2/", "lv1/lv2/lv2.js", "lv1/lv2/lv3/", "lv1/lv2/lv3/lv3.js"]);
    PrefixedThree(p, "assets/", "assets/a.css", "assets/a.js");
    PrefixedThree(p, "img/", "img/people.png", "img/peoples.png");
    PrefixedOne(p, "index.html");
    PrefixedSix(p, "lv1/", "lv1/lv1.js", "lv1/lv2/", "lv1/lv2/lv2.js", "lv1/lv2/lv3/", "lv1/lv2/lv3/lv3.js");
  }

  lemma AppKeys()
    ensures Prefixed("app/", InDirAll) == [
      "app/assets/", "app/assets/a.css", "app/assets/a.js",
      "app/img/", "app/img/people.png", "app/img/peoples.png",
      "app/index.html",
      "app/lv1/", "app/lv1/lv1.js", "app/lv1/lv2/", "app/lv1/lv2/lv2.js", "app/lv1/lv2/lv3/", "app/lv1/lv2/lv3/lv3.js"]
  {
    PrefixedInDir("app/");
    AppStrings();
  }

  lemma DeepKeys()
    ensures Prefixed("app/bpp/cpp/", InDirAll) == [
      "app/bpp/cpp/assets/", "app/bpp/cpp/assets/a.css", "app/bpp/cpp/assets/a.js",
      "app/bpp/cpp/img/", "app/bpp/cpp/img/people.png", "app/bpp/cpp/img/peoples.png",
      "app/bpp/cpp/index.html",
      "app/bpp/cpp/lv1/", "app/bpp/cpp/lv1/lv1.js", "app/bpp/cpp/lv1/lv2/", "app/bpp/cpp/lv1/lv2/lv2.js",
      "app/bpp/cpp/lv1/lv2/lv3/", "app/bpp/cpp/lv1/lv2/lv3/lv3.js"]
  {
    PrefixedInDir("app/bpp/cpp/");
    DeepStrings();
    DeepLv1Strings();
  }

  // ---------------------------------------------------------------------
  // The literal concatenations the expected key lists are built from,
  // spelled out once so that the key lemmas can use them

  lemma AssetsStrings()
    ensures "" + "assets" + "/" == "assets/"
    ensures "assets/" + "a.css" == "assets/a.css"
    ensures "assets/" + "a.js" == "assets/a.js"
  {
  }

  lemma ImgStrings()
    ensures "" + "img" + "/" == "img/"
    ensures "img/" + "people.png" == "img/people.png"
    ensures "img/" + "peoples.png" == "img/peoples.png"
  {
  }

  lemma IndexStrings()
    ensures "" + "index.html" == "index.html"
  {
  }

  lemma Lv3Strings()
    ensures "lv1/lv2/" + "lv3" + "/" == "lv1/lv2/lv3/"
    ensures "lv1/lv2/lv3/" + "lv3.js" == "lv1/lv2/lv3/lv3.js"
  {
  }

  lemma Lv2Strings()
    ensures "lv1/" + "lv2" + "/" == "lv1/lv2/"
    ensures "lv1/lv2/" + "lv2.js" == "lv1/lv2/lv2.js"
    ensures "tests/inDir/lv1" + "/" + "lv2" == "tests/inDir/lv1/lv2"
  {
  }

  lemma Lv1Strings()
    ensures "" + "lv1" + "/" == "lv1/"
    ensures "lv1/" + "lv1.js" == "lv1/lv1.js"
    ensures "tests/inDir" + "/" + "lv1" == "tests/inDir/lv1"
  {
  }

  lemma AppStrings()
    ensures "app/" + "assets/" == "app/assets/"
    ensures "app/" + "assets/a.css" == "app/assets/a.css"
    ensures "app/" + "assets/a.js" == "app/assets/a.js"
    ensures "app/" + "img/" == "app/img/"
    ensures "app/" + "img/people.png" == "app/img/people.png"
    ensures "app/" + "img/peoples.png" == "app/img/peoples.png"
    ensures "app/" + "index.html" == "app/index.html"
    ensures "app/" + "lv1/" == "app/lv1/"
    ensures "app/" + "lv1/lv1.js" == "app/lv1/lv1.js"
    ensures "app/" + "lv1/lv2/" == "app/lv1/lv2/"
    ensures "app/" + "lv1/lv2/lv2.js" == "app/lv1/lv2/lv2.js"
    ensures "app/" + "lv1/lv2/lv3/" == "app/lv1/lv2/lv3/"
    ensures "app/" + "lv1/lv2/lv3/lv3.js" == "app/lv1/lv2/lv3/lv3.js"
  {
  }

  lemma DeepStrings()
    ensures "app/bpp/cpp/" + "assets/" == "app/bpp/cpp/assets/"
    ensures "app/bpp/cpp/" + "assets/a.css" == "app/bpp/cpp/assets/a.css"
    ensures "app/bpp/cpp/" + "assets/a.js" == "app/bpp/cpp/assets/a.js"
    ensures "app/bpp/cpp/" + "img/" == "app/bpp/cpp/img/"
    ensures "app/bpp/cpp/" + "img/people.png" == "app/bpp/cpp/img/people.png"
    ensures "app/bpp/cpp/" + "img/peoples.png" == "app/bpp/cpp/img/peoples.png"
    ensures "app/bpp/cpp/" + "index.html" == "app/bpp/cpp/index.html"
  {
  }

  lemma DeepLv1Strings()
    ensures "app/bpp/cpp/" + "lv1/" == "app/bpp/cpp/lv1/"
    ensures "app/bpp/cpp/" + "lv1/lv1.js" == "app/bpp/cpp/lv1/lv1.js"
    ensures "app/bpp/cpp/" + "lv1/lv2/" == "app/bpp/cpp/lv1/lv2/"
    ensures "app/bpp/cpp/" + "lv1/lv2/lv2.js" == "app/bpp/cpp/lv1/lv2/lv2.js"
    ensures "app/bpp/cpp/" + "lv1/lv2/lv3/" == "app/bpp/cpp/lv1/lv2/lv3/"
    ensures "app/bpp/cpp/" + "lv1/lv2/lv3/lv3.js" == "app/bpp/cpp/lv1/lv2/lv3/lv3.js"
  {
  }

  // ---------------------------------------------------------------------
  // The tests, as statements about the archive

  /** `createOptions()`'s filter, `vi.fn(() => true)`. */
  const AcceptEverything: Filter := (fileName: string, filePath: string, isDir: bool) => true

  lemma TopLevelKeys(filter: Option<Filter>)
    requires Walk("", "tests/inDir", InDir.children, filter) == Walk("", "tests/inDir", InDir.children, None)
    ensures Archive(ZipOptions("", filter), "tests/inDir", Some(InDir)).Success?
    ensures Keys(Archive(ZipOptions("", filter), "tests/inDir", Some(InDir)).value) == InDirAll
  {
    InDirWellFormed();
    InDirIndexFree();
    ArchiveTopLevelInOrder(ZipOptions("", filter), "tests/inDir", "inDir", InDir.children);
    InDirKeys();
  }

  /** "build zip": the thirteen keys of tests/inDir, folders before their contents. */
  lemma BuildZip()
    ensures Archive(ZipOptions("", Some(AcceptEverything)), "tests/inDir", Some(InDir)).Success?
    ensures Keys(Archive(ZipOptions("", Some(AcceptEverything)), "tests/inDir", Some(InDir)).value) == InDirAll
  {
    AcceptAll("", "tests/inDir", InDir.children, AcceptEverything);
    TopLevelKeys(Some(AcceptEverything));
  }

  /** "filter not exist": without a filter, the same thirteen keys. */
  lemma FilterNotExist()
    ensures Archive(ZipOptions("", None), "tests/inDir", Some(InDir)).Success?
    ensures Keys(Archive(ZipOptions("", None), "tests/inDir", Some(InDir)).value) == InDirAll
  {
    TopLevelKeys(None);
  }

  /** "filter files": with `!/img/.test(filePath)`, the img folder and its two files are left out. */
  lemma FilterFiles()
    ensures Archive(ZipOptions("", Some(ImgFilter)), "tests/inDir", Some(InDir)).Success?
    ensures Keys(Archive(ZipOptions("", Some(ImgFilter)), "tests/inDir", Some(InDir)).value) == InDirNoImg
  {
    InDirWellFormed();
    InDirIndexFree();
    ArchiveTopLevelInOrder(ZipOptions("", Some(ImgFilter)), "tests/inDir", "inDir", InDir.children);
    InDirFilteredKeys();
  }

  lemma TwoFilesWalk(dirPath: string, a: string, b: string, x: seq<byte>, y: seq<byte>)
    ensures Walk("", dirPath, [File(a, x), File(b, y)], None) == [Entry(a, Data(x)), Entry(b, Data(y))]
  {
    WalkPrepend("", dirPath, File(a, x), [File(b, y)], None);
    WalkPrepend("", dirPath, File(b, y), [], None);
    assert "" + a == a && "" + b == b;
  }

  /** Of two keys, the array index is listed first. */
  lemma IndexKeyFirst(e1: Entry, e2: Entry)
    requires !ArrayIndex(e1.name) && ArrayIndex(e2.name)
    ensures PropertyOrder([e1, e2]) == [e2, e1]
  {
    assert [e1, e2][1..] == [e2] && [e2][1..] == [];
    assert Keyed([e2], true) == [e2] && Keyed([e2], false) == [];
    assert Keyed([e1, e2], true) == [e2] && Keyed([e1, e2], false) == [e1];
    assert SortByIndex([e2]) == [e2];
  }

  /**
   * With no prefix, a top-level file named by an array index is written
   * before a file created ahead of it.
   */
  lemma IndexNameFirst(dirPath: string, a: string, b: string, x: seq<byte>, y: seq<byte>)
    requires ValidName(a) && ValidName(b) && a != b && !ArrayIndex(a) && ArrayIndex(b)
    ensures Archive(ZipOptions("", None), dirPath, Some(Dir("d", [File(a, x), File(b, y)]))) ==
            Success([Entry(b, Data(y)), Entry(a, Data(x))])
  {
    var cs := [File(a, x), File(b, y)];
    assert WellFormedList(cs) by {
      assert WellFormed(cs[0]) && WellFormed(cs[1]);
    }
    TwoFilesWalk(dirPath, a, b, x, y);
    ArchiveTopLevel(ZipOptions("", None), dirPath, "d", cs);
    IndexKeyFirst(Entry(a, Data(x)), Entry(b, Data(y)));
  }

  /** `index.html` then `404` in the listing: `404` is written first. */
  lemma NumericNameFirst()
    ensures Archive(ZipOptions("", None), "dist", Some(Dir("d", [File("index.html", []), File("404", [])]))) ==
            Success([Entry("404", Data([])), Entry("index.html", Data([]))])
  {
    assert ArrayIndex("404") by {
      assert "404"[..2] == "40" && "40"[..1] == "4" && "4"[..0] == "";
    }
    assert !ArrayIndex("index.html") by {
      assert !IsDigit("index.html"[0]);
    }
    IndexNameFirst("dist", "index.html", "404", [], []);
  }

  lemma AppJoin()
    ensures ["app/"] + [
      "app/assets/", "app/assets/a.css", "app/assets/a.js",
      "app/img/", "app/img/people.png", "app/img/peoples.png",
      "app/index.html",
      "app/lv1/", "app/lv1/lv1.js", "app/lv1/lv2/", "app/lv1/lv2/lv2.js", "app/lv1/lv2/lv3/", "app/lv1/lv2/lv3/lv3.js"]
      == AppAll
  {
  }

  const AppAll: seq<string> := [
    "app/",
    "app/assets/", "app/assets/a.css", "app/assets/a.js",
    "app/img/", "app/img/people.png", "app/img/peoples.png",
    "app/index.html",
    "app/lv1/", "app/lv1/lv1.js", "app/lv1/lv2/", "app/lv1/lv2/lv2.js", "app/lv1/lv2/lv3/", "app/lv1/lv2/lv3/lv3.js"]

  /** "pathPrefix: app": one prefix folder, then everything below it. */
  lemma PathPrefixApp()
    ensures Archive(ZipOptions("app", Some(AcceptEverything)), "tests/inDir", Some(InDir)).Success?
    ensures Keys(Archive(ZipOptions("app", Some(AcceptEverything)), "tests/inDir", Some(InDir)).value) == AppAll
  {
    var options := ZipOptions("app", Some(AcceptEverything));
    InDirWellFormed();
    assert CleanPath("app") by {
      AppFolders();
    }
    PrefixKeys(options, "tests/inDir", "inDir", InDir.children, "app");
    assert Keys(Walk("", "tests/inDir", InDir.children, options.filter)) == InDirAll by {
      AcceptAll("", "tests/inDir", InDir.children, AcceptEverything);
      InDirKeys();
    }
    AppFolders();
    AppKeys();
    AppJoin();
  }

  lemma DeepJoin()
    ensures ["app/", "app/bpp/", "app/bpp/cpp/"] + [
      "app/bpp/cpp/assets/", "app/bpp/cpp/assets/a.css", "app/bpp/cpp/assets/a.js",
      "app/bpp/cpp/img/", "app/bpp/cpp/img/people.png", "app/bpp/cpp/img/peoples.png",
      "app/bpp/cpp/index.html",
      "app/bpp/cpp/lv1/", "app/bpp/cpp/lv1/lv1.js", "app/bpp/cpp/lv1/lv2/", "app/bpp/cpp/lv1/lv2/lv2.js",
      "app/bpp/cpp/lv1/lv2/lv3/", "app/bpp/cpp/lv1/lv2/lv3/lv3.js"]
      == DeepAll
  {
  }

  const DeepAll: seq<string> := [
    "app/", "app/bpp/", "app/bpp/cpp/",
    "app/bpp/cpp/assets/", "app/bpp/cpp/assets/a.css", "app/bpp/cpp/assets/a.js",
    "app/bpp/cpp/img/", "app/bpp/cpp/img/people.png", "app/bpp/cpp/img/peoples.png",
    "app/bpp/cpp/index.html",
    "app/bpp/cpp/lv1/", "app/bpp/cpp/lv1/lv1.js", "app/bpp/cpp/lv1/lv2/", "app/bpp/cpp/lv1/lv2/lv2.js",
    "app/bpp/cpp/lv1/lv2/lv3/", "app/bpp/cpp/lv1/lv2/lv3/lv3.js"]

  /** "pathPrefix: app/bpp/cpp": the three nested prefix folders, outermost first, then everything below. */
  lemma PathPrefixDeep()
    ensures Archive(ZipOptions("app/bpp/cpp", Some(AcceptEverything)), "tests/inDir", Some(InDir)).Success?
    ensures Keys(Archive(ZipOptions("app/bpp/cpp", Some(AcceptEverything)), "tests/inDir", Some(InDir)).value) == DeepAll
  {
    var options := ZipOptions("app/bpp/cpp", Some(AcceptEverything));
    InDirWellFormed();
    assert CleanPath("app/bpp/cpp") by {
      DeepFolders();
    }
    PrefixKeys(options, "tests/inDir", "inDir", InDir.children, "app/bpp/cpp");
    assert Keys(Walk("", "tests/inDir", InDir.children, options.filter)) == InDirAll by {
      AcceptAll("", "tests/inDir", InDir.children, AcceptEverything);
      InDirKeys();
    }
    assert "app/bpp/cpp" + "/" == "app/bpp/cpp/" by {
      DeepSlashes();
    }
    DeepFolders();
    DeepKeys();
    DeepJoin();
  }

  /** "pathPrefix not absolute": the constructor refuses "/a/" whatever is packed afterwards. */
  lemma PathPrefixNotAbsolute(inDir: string, source: Option<Node>)
    ensures Initial("/a/") == Failure(PrefixNotRelative("/a/"))
    ensures Archive(ZipOptions("/a/", Some(AcceptEverything)), inDir, source) == Failure(PrefixNotRelative("/a/"))
  {
  }

  /** "addDir not exist": a missing tests/a is refused. */
  lemma AddDirNotExist()
    ensures Archive(ZipOptions("", Some(AcceptEverything)), "tests/a", None) == Failure(FolderMissing("tests/a"))
  {
  }

  // ---------------------------------------------------------------------
  // The tests' call sequences, as clients of `Zip`

  /**
   * `new Zip(options)`, `addDir(inDir)`, `save(outDir, outFileName)`: the
   * sequence of every test that writes an archive. It fails exactly when
   * the archive specification refuses, with the same error, and otherwise
   * writes the specified archive at the resolved path.
   */
  method PackDirectory(options: ZipOptions, inDir: string, source: Option<Node>,
                       outDir: string, outFileName: string, cwd: string, disk: Disk)
    returns (r: Result<(string, Disk), ZipError>)
    requires source.Some? && source.value.Dir? ==> WellFormedList(source.value.children)
    ensures r.Success? <==> Archive(options, inDir, source).Success?
    ensures r.Failure? ==> r.error == Archive(options, inDir, source).error
    ensures r.Success? ==> r.value.0 == ResolvePath(cwd, outDir, outFileName)
    ensures r.Success? ==> r.value.1 == disk[r.value.0 := Archive(options, inDir, source).value]
  {
    var created := Zip.Create(options);
    if created.Failure? {
      return Failure(created.error);
    }
    var zip := created.value;
    var added := zip.AddDir(inDir, source);
    if added.Failure? {
      return Failure(added.error);
    }
    SavedArchive(options, inDir, source.value.name, source.value.children, zip.files);
    var filePath, written := zip.Save(outDir, outFileName, cwd, disk);
    return Success((filePath, written));
  }

  /**
   * "remove exist save file": saving the same instance twice to the same
   * place replaces the first archive by an identical one.
   */
  method SaveTwice(options: ZipOptions, inDir: string, source: Option<Node>,
                   outDir: string, outFileName: string, cwd: string, disk: Disk)
    returns (r: Result<(string, Disk, string, Disk), ZipError>)
    requires source.Some? && source.value.Dir? ==> WellFormedList(source.value.children)
    ensures r.Success? <==> Archive(options, inDir, source).Success?
    ensures r.Success? ==> r.value.0 == r.value.2 == ResolvePath(cwd, outDir, outFileName)
    ensures r.Success? ==> r.value.1 == r.value.3 == disk[r.value.0 := Archive(options, inDir, source).value]
  {
    var created := Zip.Create(options);
    if created.Failure? {
      return Failure(created.error);
    }
    var zip := created.value;
    var added := zip.AddDir(inDir, source);
    if added.Failure? {
      return Failure(added.error);
    }
    SavedArchive(options, inDir, source.value.name, source.value.children, zip.files);
    var first, once, second, twice := SaveSameTwice(zip, outDir, outFileName, cwd, disk);
    return Success((first, once, second, twice));
  }

  /** The two `save` calls of the test above, on one instance. */
  method SaveSameTwice(zip: Zip, outDir: string, outFileName: string, cwd: string, disk: Disk)
    returns (first: string, once: Disk, second: string, twice: Disk)
    requires zip.Valid()
    modifies zip
    ensures zip.files == old(zip.files)
    ensures first == second == ResolvePath(cwd, outDir, outFileName)
    ensures once == twice == disk[first := PropertyOrder(zip.files)]
  {
    first, once := zip.Save(outDir, outFileName, cwd, disk);
    second, twice := zip.Save(outDir, outFileName, cwd, once);
    assert twice == once;
  }
}
