/** Properties of the walk specification and of how JSZip stores what it yields. */
module WalkProps {
  import opened Wrappers
  import opened JsZip
  import opened SourceTree

  /** `name` is the entry of a child called `n` of root `root`, or lies below it. */
  predicate Within(root: string, n: string, name: string) {
    name == root + n || StartsWith(name, root + n + "/")
  }

  /**
   * A view root is ready for the walk when adding a child below it needs no
   * ancestor to be created: the root is the top level, or its folder exists.
   */
  predicate Ready(files: seq<Entry>, root: string) {
    root == "" || (EndsWithSlash(root) && (|root| == 1 || HasKey(files, ForceTrailingSlash(root[..|root| - 1]))))
  }

  /** No existing key collides with anything a child called `n` could add. */
  predicate ClearOf(files: seq<Entry>, root: string, n: string) {
    forall k :: 0 <= k < |files| ==> !Within(root, n, files[k].name)
  }

  /** A listing can be walked into a view that is ready and holds nothing in its part of the key space. */
  predicate FreshView(files: seq<Entry>, root: string, cs: seq<Node>) {
    && WellFormedList(cs)
    && Ready(files, root)
    && forall i :: 0 <= i < |cs| ==> ClearOf(files, root, cs[i].name)
  }

  lemma {:induction false} WalkConcat(root: string, dirPath: string, a: seq<Node>, b: seq<Node>, filter: Option<Filter>)
    ensures Walk(root, dirPath, a + b, filter) == Walk(root, dirPath, a, filter) + Walk(root, dirPath, b, filter)
    decreases a
  {
    if a == [] {
      assert a + b == b;
    } else {
      NodesCons(a, b);
      WalkConcat(root, dirPath, a[1..], b, filter);
      EntriesAssoc(WalkNode(root, dirPath, a[0], filter), Walk(root, dirPath, a[1..], filter), Walk(root, dirPath, b, filter));
    }
  }

  lemma NodesCons(a: seq<Node>, b: seq<Node>)
    requires a != []
    ensures (a + b)[0] == a[0] && (a + b)[1..] == a[1..] + b
  {
  }

  /** Every walked entry lies strictly below the view's root. */
  lemma {:induction false} WalkNodeBelow(root: string, dirPath: string, n: Node, filter: Option<Filter>)
    requires WellFormed(n)
    ensures forall e :: e in WalkNode(root, dirPath, n, filter) ==> Within(root, n.name, e.name)
    ensures forall e :: e in WalkNode(root, dirPath, n, filter) ==> StartsWith(e.name, root) && |e.name| > |root|
    decreases n
  {
    if NodeAccepted(filter, dirPath, n) && n.Dir? {
      var r' := root + n.name + "/";
      WalkBelow(r', JoinPath(dirPath, n.name), n.children, filter);
      forall e | e in WalkNode(root, dirPath, n, filter)
        ensures Within(root, n.name, e.name) && StartsWith(e.name, root) && |e.name| > |root|
      {
        if e != Entry(r', Folder) {
          assert StartsWith(e.name, r');
          assert e.name[..|root|] == r'[..|root|];
        }
      }
    }
  }

  lemma {:induction false} WalkBelow(root: string, dirPath: string, cs: seq<Node>, filter: Option<Filter>)
    requires WellFormedList(cs)
    ensures forall e :: e in Walk(root, dirPath, cs, filter) ==> StartsWith(e.name, root) && |e.name| > |root|
    decreases cs
  {
    if cs != [] {
      WalkNodeBelow(root, dirPath, cs[0], filter);
      WalkBelow(root, dirPath, cs[1..], filter);
    }
  }

  /** Folder entries, and only they, end in a slash. */
  lemma {:induction false} EntryKinds(root: string, dirPath: string, cs: seq<Node>, filter: Option<Filter>)
    requires WellFormedList(cs)
    ensures forall e :: e in Walk(root, dirPath, cs, filter) ==> (e.content.Folder? <==> EndsWithSlash(e.name))
    decreases cs
  {
    if cs != [] {
      var n := cs[0];
      if NodeAccepted(filter, dirPath, n) && n.Dir? {
        EntryKinds(root + n.name + "/", JoinPath(dirPath, n.name), n.children, filter);
      }
      if n.File? {
        assert (root + n.name)[|root + n.name| - 1] == n.name[|n.name| - 1];
      }
      EntryKinds(root, dirPath, cs[1..], filter);
    }
  }

  /** The leading path segment of `s`: everything before its first slash. */
  function FirstSegment(s: string): string {
    if s == [] || s[0] == '/' then [] else [s[0]] + FirstSegment(s[1..])
  }

  lemma {:induction false} FirstSegmentOf(a: string, rest: string)
    requires forall k :: 0 <= k < |a| ==> a[k] != '/'
    requires rest == [] || rest[0] == '/'
    ensures FirstSegment(a + rest) == a
    decreases a
  {
    if a != [] {
      assert (a + rest)[0] == a[0] && (a + rest)[1..] == a[1..] + rest;
      FirstSegmentOf(a[1..], rest);
    } else {
      assert a + rest == rest;
    }
  }

  /** A key that belongs to child `a` of `root` names `a` as its first segment below `root`. */
  lemma SegmentOfWithin(root: string, a: string, x: string)
    requires ValidName(a)
    ensures Within(root, a, x) ==> |root| <= |x| && FirstSegment(x[|root|..]) == a
  {
    if x == root + a {
      assert x[|root|..] == a;
      FirstSegmentOf(a, "");
      assert a + "" == a;
    } else if StartsWith(x, root + a + "/") {
      var rest := x[|root| + |a|..];
      assert x[..|root + a + "/"|] == root + a + "/";
      assert x[|root|..] == a + rest;
      assert rest[0] == x[|root| + |a|] == '/';
      FirstSegmentOf(a, rest);
    }
  }

  /** Two distinct sibling names own disjoint parts of the key space. */
  lemma WithinDisjoint(root: string, a: string, b: string, x: string)
    requires ValidName(a) && ValidName(b) && a != b
    requires Within(root, a, x)
    ensures !Within(root, b, x)
  {
    SegmentOfWithin(root, a, x);
    SegmentOfWithin(root, b, x);
  }

  /** Whatever belongs to a child of `r` lies below `r`. */
  lemma WithinBelow(r: string, c: string, x: string)
    ensures Within(r, c, x) ==> StartsWith(x, r)
  {
    if x == r + c {
      assert x[..|r|] == r;
    } else if StartsWith(x, r + c + "/") {
      assert x[..|r|] == (r + c + "/")[..|r|] == r;
    }
  }

  /** The parent `fileAdd` computes for a child of a view root. */
  lemma ParentOfChild(root: string, n: string)
    requires ValidName(n) && (root == "" || EndsWithSlash(root))
    ensures ParentFolder(root + n) == ParentFolder(root + n + "/")
    ensures ParentFolder(root + n) == if |root| > 1 then root[..|root| - 1] else ""
  {
    var s := root + n;
    assert (s + "/")[..|s|] == s;
    assert s[|s| - 1] == n[|n| - 1];
    LastSlashOfChild(root, n);
  }

  /** In `root + n` the last slash is the one closing the root. */
  lemma LastSlashOfChild(root: string, n: string)
    requires ValidName(n) && (root == "" || EndsWithSlash(root))
    ensures LastSlash(root + n) == |root| - 1
  {
    var s := root + n;
    assert forall k :: |root| <= k < |s| ==> s[k] == n[k - |root|];
    if root != "" {
      assert s[|root| - 1] == '/';
    }
  }

  /** A child's key below a ready root is new and its parent folder exists. */
  lemma ChildAddsFresh(files: seq<Entry>, root: string, n: string, content: Content)
    requires ValidName(n) && Ready(files, root)
    requires ClearOf(files, root, n)
    ensures AddsFresh(files, Entry(if content.Folder? then root + n + "/" else root + n, content))
  {
    var key := if content.Folder? then root + n + "/" else root + n;
    assert Within(root, n, key);
    HasKeyIndex(files, key);
    ParentOfChild(root, n);
  }

  lemma ReadyGrows(files: seq<Entry>, more: seq<Entry>, root: string)
    requires Ready(files, root)
    ensures Ready(files + more, root)
  {
    if root != "" && |root| > 1 {
      AppendKeeps(files, more);
      KeepsKey(files, files + more, ForceTrailingSlash(root[..|root| - 1]));
    }
  }

  /** Once a folder's own entry is in place, its children may be walked below it. */
  lemma ChildViewReady(files: seq<Entry>, root: string, n: Node)
    requires WellFormed(n) && n.Dir? && ClearOf(files, root, n.name)
    ensures FreshView(files + [Entry(root + n.name + "/", Folder)], root + n.name + "/", n.children)
  {
    var r' := root + n.name + "/";
    var files' := files + [Entry(r', Folder)];
    assert r'[..|r'| - 1] == root + n.name;
    assert (root + n.name)[|root + n.name| - 1] == n.name[|n.name| - 1];
    assert files'[|files|].name == r';
    forall i, k | 0 <= i < |n.children| && 0 <= k < |files'|
      ensures !Within(r', n.children[i].name, files'[k].name)
    {
      var c := n.children[i].name;
      var x := files'[k].name;
      WithinBelow(r', c, x);
      if k < |files| {
        assert !Within(root, n.name, x);
      } else {
        assert x == r';
        assert WellFormedList(n.children) && WellFormed(n.children[i]);
      }
    }
  }

  /** What a walked node adds stays out of the way of its later siblings. */
  lemma SiblingsStayClear(files: seq<Entry>, root: string, dirPath: string, cs: seq<Node>, filter: Option<Filter>)
    requires FreshView(files, root, cs) && cs != []
    ensures FreshView(files + WalkNode(root, dirPath, cs[0], filter), root, cs[1..])
  {
    var a := WalkNode(root, dirPath, cs[0], filter);
    WalkNodeBelow(root, dirPath, cs[0], filter);
    ReadyGrows(files, a, root);
    forall i, k | 1 <= i < |cs| && 0 <= k < |files + a|
      ensures !Within(root, cs[i].name, (files + a)[k].name)
    {
      if k >= |files| {
        assert a[k - |files|] in a;
        assert WellFormed(cs[0]) && WellFormed(cs[i]);
        WithinDisjoint(root, cs[0].name, cs[i].name, a[k - |files|].name);
      }
    }
  }

  /** A file entry, accepted or not, never disturbs the view. */
  lemma FileAppends(files: seq<Entry>, root: string, dirPath: string, n: Node, filter: Option<Filter>)
    requires WellFormed(n) && n.File? && Ready(files, root) && ClearOf(files, root, n.name)
    ensures AppendsOnly(files, WalkNode(root, dirPath, n, filter))
  {
    if NodeAccepted(filter, dirPath, n) {
      var e := Entry(root + n.name, Data(n.bytes));
      assert WalkNode(root, dirPath, n, filter) == [e];
      assert Within(root, n.name, root + n.name);
      ChildAddsFresh(files, root, n.name, Data(n.bytes));
      assert [e][1..] == [];
    }
  }

  /**
   * Walking a node into a ready view that holds nothing in its part of the key
   * space only appends: no entry is overwritten and no ancestor is created.
   */
  lemma {:induction false} NodeAppends(files: seq<Entry>, root: string, dirPath: string, n: Node, filter: Option<Filter>)
    requires WellFormed(n) && Ready(files, root) && ClearOf(files, root, n.name)
    ensures AppendsOnly(files, WalkNode(root, dirPath, n, filter))
    decreases n, 1
  {
    if n.File? {
      FileAppends(files, root, dirPath, n, filter);
    } else if NodeAccepted(filter, dirPath, n) {
      DirAppends(files, root, dirPath, n, filter);
    }
  }

  lemma {:induction false} DirAppends(files: seq<Entry>, root: string, dirPath: string, n: Node, filter: Option<Filter>)
    requires WellFormed(n) && n.Dir? && NodeAccepted(filter, dirPath, n)
    requires Ready(files, root) && ClearOf(files, root, n.name)
    ensures AppendsOnly(files, WalkNode(root, dirPath, n, filter))
    decreases n, 0
  {
    var r' := root + n.name + "/";
    var d := Entry(r', Folder);
    var w := Walk(r', JoinPath(dirPath, n.name), n.children, filter);
    assert WalkNode(root, dirPath, n, filter) == [d] + w;
    assert Within(root, n.name, r');
    ChildAddsFresh(files, root, n.name, Folder);
    ChildViewReady(files, root, n);
    ListAppends(files + [d], r', JoinPath(dirPath, n.name), n.children, filter);
    assert ([d] + w)[0] == d && ([d] + w)[1..] == w;
  }

  lemma {:induction false} ListAppends(files: seq<Entry>, root: string, dirPath: string, cs: seq<Node>, filter: Option<Filter>)
    requires FreshView(files, root, cs)
    ensures AppendsOnly(files, Walk(root, dirPath, cs, filter))
    decreases cs, 2
  {
    if cs != [] {
      var a := WalkNode(root, dirPath, cs[0], filter);
      NodeAppends(files, root, dirPath, cs[0], filter);
      SiblingsStayClear(files, root, dirPath, cs, filter);
      ListAppends(files + a, root, dirPath, cs[1..], filter);
      AppendsOnlyConcat(files, a, Walk(root, dirPath, cs[1..], filter));
    }
  }

  /** Hence the JSZip calls of a walk into a fresh view add exactly the walk's entries, in order. */
  lemma AddListFresh(files: seq<Entry>, root: string, dirPath: string, cs: seq<Node>, filter: Option<Filter>)
    requires FreshView(files, root, cs)
    ensures AddAll(files, Walk(root, dirPath, cs, filter)) == files + Walk(root, dirPath, cs, filter)
  {
    ListAppends(files, root, dirPath, cs, filter);
    AddAllAppendsOnly(files, Walk(root, dirPath, cs, filter));
  }

  /** Unfolding the walk of a listing one child at a time. */
  lemma WalkPrepend(root: string, dirPath: string, n: Node, rest: seq<Node>, filter: Option<Filter>)
    ensures Walk(root, dirPath, [n] + rest, filter) == WalkNode(root, dirPath, n, filter) + Walk(root, dirPath, rest, filter)
  {
    assert ([n] + rest)[1..] == rest;
  }

  lemma WalkFour(root: string, dirPath: string, a: Node, b: Node, c: Node, d: Node, filter: Option<Filter>)
    ensures Walk(root, dirPath, [a, b, c, d], filter) ==
            WalkNode(root, dirPath, a, filter) + (WalkNode(root, dirPath, b, filter)
            + (WalkNode(root, dirPath, c, filter) + (WalkNode(root, dirPath, d, filter) + [])))
  {
    assert [a, b, c, d] == [a] + ([b] + ([c] + ([d] + [])));
    WalkPrepend(root, dirPath, a, [b] + ([c] + ([d] + [])), filter);
    WalkPrepend(root, dirPath, b, [c] + ([d] + []), filter);
    WalkPrepend(root, dirPath, c, [d] + [], filter);
    WalkPrepend(root, dirPath, d, [], filter);
  }

}
