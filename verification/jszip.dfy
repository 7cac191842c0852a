/**
 * The part of the JSZip library the archive builder relies on:
 * - the `files` object, as the list of its entries in the order their keys
 *   were created;
 * - `file(name, data, {dir})`, which creates every missing ancestor folder
 *   first;
 * - `folder(name)`, which returns a view whose later entries are prefixed by
 *   the folder's path;
 * - the walk over `files` that `generateAsync` performs, which visits the
 *   keys in ECMAScript property order: array indices first, by value, then
 *   the other keys in creation order.
 * Compression and the binary ZIP format are not modelled; an archive is the
 * ordered list of its entries.
 */
module JsZip {

  type byte = b: int | 0 <= b < 256

  /** A folder entry carries no data; a file entry carries its bytes. */
  datatype Content = Folder | Data(bytes: seq<byte>)

  datatype Entry = Entry(name: string, content: Content)

  /** `name in files` on the `files` object. */
  predicate HasKey(files: seq<Entry>, name: string)
    decreases |files|
  {
    files != [] && (files[|files| - 1].name == name || HasKey(files[..|files| - 1], name))
  }

  /** A key is present exactly when some entry carries it. */
  lemma {:induction false} HasKeyIndex(files: seq<Entry>, name: string)
    ensures HasKey(files, name) <==> exists k :: 0 <= k < |files| && files[k].name == name
    decreases |files|
  {
    if files != [] {
      var init := files[..|files| - 1];
      HasKeyIndex(init, name);
      forall k | 0 <= k < |init| ensures files[k] == init[k] { }
    }
  }

  lemma KeyAt(files: seq<Entry>, k: int)
    requires 0 <= k < |files|
    ensures HasKey(files, files[k].name)
  {
    HasKeyIndex(files, files[k].name);
  }

  /** JavaScript objects have unique keys. */
  predicate DistinctNames(files: seq<Entry>) {
    forall i, j :: 0 <= i < j < |files| ==> files[i].name != files[j].name
  }

  predicate NonEmptyNames(files: seq<Entry>) {
    forall k :: 0 <= k < |files| ==> files[k].name != ""
  }

  predicate StartsWith(s: string, prefix: string) {
    |prefix| <= |s| && s[..|prefix|] == prefix
  }

  predicate EndsWithSlash(s: string) {
    |s| > 0 && s[|s| - 1] == '/'
  }

  /** Every key of `files` is still a key of `files'`. */
  predicate KeepsKeys(files: seq<Entry>, files': seq<Entry>) {
    forall k :: 0 <= k < |files| ==> HasKey(files', files[k].name)
  }

  /** The value stored under an existing key is replaced where it stands. */
  function Replace(files: seq<Entry>, e: Entry): (r: seq<Entry>)
    ensures |r| == |files|
    ensures forall k :: 0 <= k < |files| ==> r[k] == if files[k].name == e.name then e else files[k]
  {
    if files == [] then [] else [if files[0].name == e.name then e else files[0]] + Replace(files[1..], e)
  }

  /**
   * `files[name] = object` on the `files` object: a key already present keeps
   * its position and gets the new value, a new key goes last.
   */
  function Put(files: seq<Entry>, e: Entry): seq<Entry> {
    if HasKey(files, e.name) then Replace(files, e) else files + [e]
  }

  /** `forceTrailingSlash`. */
  function ForceTrailingSlash(s: string): (r: string)
    ensures EndsWithSlash(r)
    ensures StartsWith(r, s) && |r| <= |s| + 1
    ensures EndsWithSlash(s) <==> r == s
  {
    if EndsWithSlash(s) then s else s + "/"
  }

  /** `String.prototype.lastIndexOf('/')`: -1 when there is no slash. */
  function LastSlash(s: string): (i: int)
    ensures -1 <= i < |s|
    ensures 0 <= i ==> s[i] == '/'
    ensures forall k :: i < k < |s| ==> s[k] != '/'
  {
    if s == [] then -1
    else if s[|s| - 1] == '/' then |s| - 1
    else LastSlash(s[..|s| - 1])
  }

  /**
   * `parentFolder`: drop one trailing slash, then cut at the last slash; a
   * slash at index 0 (or none) means there is no parent.
   */
  function ParentFolder(path: string): (parent: string)
    ensures parent != "" ==> StartsWith(path, parent) && |ForceTrailingSlash(parent)| < |path|
  {
    var p := if EndsWithSlash(path) then path[..|path| - 1] else path;
    var i := LastSlash(p);
    if i > 0 then p[..i] else ""
  }

  /** The key `fileAdd` stores under: folders always end in a slash. */
  function Target(name: string, content: Content): string {
    if content.Folder? then ForceTrailingSlash(name) else name
  }

  /**
   * `fileAdd(name, data, {dir, createFolders: true})`: first the parent folder
   * is added if it is missing (and, recursively, its own parents), then the
   * entry itself is stored.
   */
  function FileAdd(files: seq<Entry>, name: string, content: Content): seq<Entry>
    decreases |Target(name, content)|
  {
    var target := Target(name, content);
    var parent := ParentFolder(target);
    var withParents :=
      if parent == "" || HasKey(files, ForceTrailingSlash(parent)) then files
      else FileAdd(files, ForceTrailingSlash(parent), Folder);
    Put(withParents, Entry(target, content))
  }

  /**
   * `folderAdd(name)`: the folder entry is created only when absent; its key
   * is returned, and `folder()` makes it the root of the view it hands back.
   */
  function FolderAdd(files: seq<Entry>, name: string): (seq<Entry>, string) {
    var key := ForceTrailingSlash(name);
    (if HasKey(files, key) then files else FileAdd(files, key, Folder), key)
  }

  /** A sequence of `file(...)` calls, in order. */
  function AddAll(files: seq<Entry>, es: seq<Entry>): seq<Entry>
    decreases es
  {
    if es == [] then files
    else AddAll(FileAdd(files, es[0].name, es[0].content), es[1..])
  }

  /** `file()` stores `e` under a new key whose parent folder already exists. */
  predicate AddsFresh(files: seq<Entry>, e: Entry) {
    && Target(e.name, e.content) == e.name
    && !HasKey(files, e.name)
    && (ParentFolder(e.name) == "" || HasKey(files, ForceTrailingSlash(ParentFolder(e.name))))
  }

  /** Each entry in turn is stored under a new key below an existing folder. */
  predicate AppendsOnly(files: seq<Entry>, es: seq<Entry>)
    decreases es
  {
    es == [] || (AddsFresh(files, es[0]) && AppendsOnly(files + [es[0]], es[1..]))
  }

  // ---------------------------------------------------------------------
  // The order in which `for (name in files)` visits the keys

  predicate IsDigit(c: char) {
    '0' <= c <= '9'
  }

  /** The number a string of decimal digits denotes. */
  function DecimalValue(s: string): nat
    decreases |s|
  {
    if s == [] then 0
    else 10 * DecimalValue(s[..|s| - 1]) + (if IsDigit(s[|s| - 1]) then s[|s| - 1] as int - '0' as int else 0)
  }

  /**
   * An array index of ECMAScript: the canonical decimal form (no leading
   * zero) of an integer from 0 to 2^32 - 2.
   */
  predicate ArrayIndex(s: string) {
    && s != []
    && (forall k :: 0 <= k < |s| ==> IsDigit(s[k]))
    && (s[0] == '0' ==> s == "0")
    && DecimalValue(s) < 0xFFFF_FFFF
  }

  /** A key below a folder holds a separator, so it is never an array index. */
  lemma BelowFolderNotIndex(s: string, root: string)
    ensures EndsWithSlash(root) && StartsWith(s, root) ==> !ArrayIndex(s)
  {
    if EndsWithSlash(root) && StartsWith(s, root) {
      assert s[|root| - 1] == '/';
    }
  }

  /** No key of `es` is an array index. */
  predicate NoIndexKeys(es: seq<Entry>) {
    forall k :: 0 <= k < |es| ==> !ArrayIndex(es[k].name)
  }

  lemma NoIndexConcat(a: seq<Entry>, b: seq<Entry>)
    requires NoIndexKeys(a) && NoIndexKeys(b)
    ensures NoIndexKeys(a + b)
  {
    forall k | 0 <= k < |a + b| ensures !ArrayIndex((a + b)[k].name) {
      if k >= |a| {
        assert (a + b)[k] == b[k - |a|];
      }
    }
  }

  /** The entries whose key is (`index`) or is not (`!index`) an array index, in creation order. */
  function Keyed(files: seq<Entry>, index: bool): (r: seq<Entry>)
    ensures |r| <= |files|
    ensures forall e :: e in r <==> e in files && ArrayIndex(e.name) == index
  {
    if files == [] then []
    else
      assert forall e :: e in files <==> e == files[0] || e in files[1..];
      (if ArrayIndex(files[0].name) == index then [files[0]] else []) + Keyed(files[1..], index)
  }

  /** The two selections together hold every entry once. */
  lemma {:induction false} KeyedSplit(files: seq<Entry>)
    ensures multiset(Keyed(files, true)) + multiset(Keyed(files, false)) == multiset(files)
  {
    if files != [] {
      var e := files[0];
      KeyedSplit(files[1..]);
      assert multiset(files) == multiset{e} + multiset(files[1..]) by {
        assert files == [e] + files[1..];
      }
      if ArrayIndex(e.name) {
        assert Keyed(files, true) == [e] + Keyed(files[1..], true);
        assert Keyed(files, false) == Keyed(files[1..], false);
      } else {
        assert Keyed(files, true) == Keyed(files[1..], true);
        assert Keyed(files, false) == [e] + Keyed(files[1..], false);
      }
    }
  }

  /** Without array-index keys there is nothing to move to the front. */
  lemma {:induction false} KeyedNone(files: seq<Entry>)
    requires NoIndexKeys(files)
    ensures Keyed(files, true) == [] && Keyed(files, false) == files
  {
    if files != [] {
      KeyedNone(files[1..]);
      assert files == [files[0]] + files[1..];
    }
  }

  predicate IndexSorted(es: seq<Entry>) {
    forall i, j :: 0 <= i < j < |es| ==> DecimalValue(es[i].name) <= DecimalValue(es[j].name)
  }

  /** Every key of `es` denotes at least `n`. */
  predicate AtLeast(n: nat, es: seq<Entry>) {
    forall x :: x in es ==> n <= DecimalValue(x.name)
  }

  lemma SortedCons(x: Entry, es: seq<Entry>)
    requires IndexSorted(es) && AtLeast(DecimalValue(x.name), es)
    ensures IndexSorted([x] + es)
  {
    forall i, j | 0 <= i < j < |[x] + es|
      ensures DecimalValue(([x] + es)[i].name) <= DecimalValue(([x] + es)[j].name)
    {
      assert ([x] + es)[j] == es[j - 1];
      if i > 0 {
        assert ([x] + es)[i] == es[i - 1];
      } else {
        assert es[j - 1] in es;
      }
    }
  }

  lemma SortedHead(n: nat, es: seq<Entry>)
    requires IndexSorted(es) && es != [] && n <= DecimalValue(es[0].name)
    ensures AtLeast(n, es)
  {
    forall x | x in es ensures n <= DecimalValue(x.name) {
      var k :| 0 <= k < |es| && es[k] == x;
      assert k == 0 || DecimalValue(es[0].name) <= DecimalValue(es[k].name);
    }
  }

  lemma InsertBound(e: Entry, es: seq<Entry>, rest: seq<Entry>)
    requires IndexSorted(es) && es != [] && DecimalValue(es[0].name) < DecimalValue(e.name)
    requires multiset(rest) == multiset(es[1..]) + multiset{e}
    ensures AtLeast(DecimalValue(es[0].name), rest)
  {
    forall x | x in rest ensures DecimalValue(es[0].name) <= DecimalValue(x.name) {
      assert x in multiset(rest);
      if x != e {
        assert x in multiset(es[1..]);
        var k :| 0 <= k < |es[1..]| && es[1..][k] == x;
        assert es[k + 1] == x;
      }
    }
  }

  function InsertByIndex(e: Entry, es: seq<Entry>): (r: seq<Entry>)
    requires IndexSorted(es)
    ensures IndexSorted(r) && multiset(r) == multiset(es) + multiset{e}
  {
    if es == [] then [e]
    else if DecimalValue(e.name) <= DecimalValue(es[0].name) then
      SortedHead(DecimalValue(e.name), es);
      SortedCons(e, es);
      [e] + es
    else
      var rest := InsertByIndex(e, es[1..]);
      assert es == [es[0]] + es[1..];
      InsertBound(e, es, rest);
      SortedCons(es[0], rest);
      [es[0]] + rest
  }

  /** The array-index entries in ascending numeric order. */
  function SortByIndex(es: seq<Entry>): (r: seq<Entry>)
    ensures IndexSorted(r) && multiset(r) == multiset(es)
  {
    if es == [] then []
    else
      assert es == [es[0]] + es[1..];
      InsertByIndex(es[0], SortByIndex(es[1..]))
  }

  /** Two lists that are permutations of each other hold the same entries. */
  lemma SameMembers(a: seq<Entry>, b: seq<Entry>)
    requires multiset(a) == multiset(b)
    ensures forall k :: 0 <= k < |a| ==> a[k] in b
    ensures forall k :: 0 <= k < |b| ==> b[k] in a
  {
    forall k | 0 <= k < |a| ensures a[k] in b {
      assert a[k] in multiset(a);
    }
    forall k | 0 <= k < |b| ensures b[k] in a {
      assert b[k] in multiset(b);
    }
  }

  /**
   * The order in which `for (name in files)` visits the keys of the `files`
   * object: ECMAScript lists the array-index keys first, in ascending
   * numeric order, and then every other key in creation order.
   */
  /** The array-index entries, sorted, are still exactly the array-index entries. */
  lemma SortedIndexKeys(files: seq<Entry>)
    ensures |SortByIndex(Keyed(files, true))| == |Keyed(files, true)|
    ensures forall x :: x in SortByIndex(Keyed(files, true)) ==> ArrayIndex(x.name)
  {
    var sorted := SortByIndex(Keyed(files, true));
    assert |sorted| == |multiset(sorted)| == |Keyed(files, true)|;
    forall x | x in sorted ensures ArrayIndex(x.name) {
      assert x in multiset(sorted);
    }
  }

  /** In `a + b`, with only array indices in `a` and none in `b`, the array indices are the first `|a|`. */
  lemma IndexFirst(a: seq<Entry>, b: seq<Entry>)
    requires forall x :: x in a ==> ArrayIndex(x.name)
    requires forall x :: x in b ==> !ArrayIndex(x.name)
    ensures forall i :: 0 <= i < |a + b| ==> (ArrayIndex((a + b)[i].name) <==> i < |a|)
  {
    forall i | 0 <= i < |a + b| ensures ArrayIndex((a + b)[i].name) <==> i < |a| {
      if i < |a| {
        assert (a + b)[i] == a[i] && a[i] in a;
      } else {
        assert (a + b)[i] == b[i - |a|] && b[i - |a|] in b;
      }
    }
  }

  lemma OrderFacts(files: seq<Entry>)
    ensures multiset(SortByIndex(Keyed(files, true)) + Keyed(files, false)) == multiset(files)
    ensures |SortByIndex(Keyed(files, true)) + Keyed(files, false)| == |files|
    ensures |SortByIndex(Keyed(files, true))| == |Keyed(files, true)|
    ensures forall i :: 0 <= i < |SortByIndex(Keyed(files, true)) + Keyed(files, false)| ==>
              (ArrayIndex((SortByIndex(Keyed(files, true)) + Keyed(files, false))[i].name) <==> i < |Keyed(files, true)|)
    ensures (SortByIndex(Keyed(files, true)) + Keyed(files, false))[..|Keyed(files, true)|] == SortByIndex(Keyed(files, true))
    ensures (SortByIndex(Keyed(files, true)) + Keyed(files, false))[|Keyed(files, true)|..] == Keyed(files, false)
  {
    var sorted := SortByIndex(Keyed(files, true));
    KeyedSplit(files);
    SortedIndexKeys(files);
    IndexFirst(sorted, Keyed(files, false));
    assert |sorted + Keyed(files, false)| == |multiset(sorted + Keyed(files, false))| == |multiset(files)|;
    assert (sorted + Keyed(files, false))[..|sorted|] == sorted;
    assert (sorted + Keyed(files, false))[|sorted|..] == Keyed(files, false);
  }

  function PropertyOrder(files: seq<Entry>): (r: seq<Entry>)
    ensures multiset(r) == multiset(files) && |r| == |files|
    ensures forall i :: 0 <= i < |r| ==> (ArrayIndex(r[i].name) <==> i < |Keyed(files, true)|)
    ensures IndexSorted(r[..|Keyed(files, true)|])
    ensures r[|Keyed(files, true)|..] == Keyed(files, false)
  {
    OrderFacts(files);
    SortByIndex(Keyed(files, true)) + Keyed(files, false)
  }

  /**
   * The entries of `es` whose key lies strictly below `root`, named relative
   * to it, in the order of `es`: what `forEach` hands to its callback.
   */
  function Emit(es: seq<Entry>, root: string): (r: seq<Entry>)
    ensures |r| <= |es|
  {
    if es == [] then []
    else
      var e := es[0];
      var rest := Emit(es[1..], root);
      if StartsWith(e.name, root) && |e.name| > |root| then
        [Entry(e.name[|root|..], e.content)] + rest
      else rest
  }

  /** Everything handed over comes from a key strictly below `root`. */
  lemma {:induction false} EmitSound(es: seq<Entry>, root: string)
    ensures forall e :: e in Emit(es, root) ==> e.name != "" && Entry(root + e.name, e.content) in es
  {
    if es != [] {
      EmitSound(es[1..], root);
      var e := es[0];
      if StartsWith(e.name, root) && |e.name| > |root| {
        assert e.name == root + e.name[|root|..];
      }
      assert forall x :: x in es[1..] ==> x in es;
    }
  }

  /** Every key strictly below `root` is handed over. */
  lemma {:induction false} EmitComplete(es: seq<Entry>, root: string)
    ensures forall k :: 0 <= k < |es| && StartsWith(es[k].name, root) && |es[k].name| > |root| ==>
              Entry(es[k].name[|root|..], es[k].content) in Emit(es, root)
  {
    if es != [] {
      EmitComplete(es[1..], root);
      assert forall k :: 1 <= k < |es| ==> es[k] == es[1..][k - 1];
    }
  }

  /**
   * The entries `generateAsync` writes for a view whose root is `root`: every
   * key strictly below `root`, named relative to it, visited in property
   * order, and nothing else.
   */
  function Generate(files: seq<Entry>, root: string): (r: seq<Entry>)
    ensures |r| <= |files|
    ensures forall e :: e in r ==> e.name != "" && Entry(root + e.name, e.content) in files
    ensures forall k :: 0 <= k < |files| && StartsWith(files[k].name, root) && |files[k].name| > |root| ==>
              Entry(files[k].name[|root|..], files[k].content) in r
  {
    var ordered := PropertyOrder(files);
    SameMembers(files, ordered);
    EmitSound(ordered, root);
    EmitComplete(ordered, root);
    Emit(ordered, root)
  }

  // ---------------------------------------------------------------------
  // What `file()` and `folder()` guarantee

  /** Overwriting a key leaves the list of keys exactly as it was. */
  lemma ReplaceNames(files: seq<Entry>, e: Entry)
    ensures forall k :: 0 <= k < |files| ==> Replace(files, e)[k].name == files[k].name
  {
    var r := Replace(files, e);
    forall k | 0 <= k < |files| ensures r[k].name == files[k].name {
      if files[k].name == e.name {
        assert r[k] == e;
      }
    }
  }

  /** Overwriting an existing key keeps every key where it was. */
  lemma ReplaceKeeps(files: seq<Entry>, e: Entry)
    requires HasKey(files, e.name)
    ensures KeepsKeys(files, Replace(files, e)) && e in Replace(files, e)
    ensures DistinctNames(files) ==> DistinctNames(Replace(files, e))
  {
    var r := Replace(files, e);
    ReplaceNames(files, e);
    assert e in r by {
      HasKeyIndex(files, e.name);
      var i :| 0 <= i < |files| && files[i].name == e.name;
      assert r[i] == e;
    }
    forall k | 0 <= k < |files| ensures HasKey(r, files[k].name) {
      KeyAt(r, k);
    }
  }

  /** Appending under a new key keeps every key and adds the new one. */
  lemma AppendFresh(files: seq<Entry>, e: Entry)
    requires !HasKey(files, e.name)
    ensures KeepsKeys(files, files + [e]) && e in files + [e]
    ensures DistinctNames(files) ==> DistinctNames(files + [e])
  {
    AppendKeeps(files, [e]);
    assert (files + [e])[|files|] == e;
    if DistinctNames(files) {
      FreshDistinct(files, e);
    }
  }

  /** Storing a value never loses a key; the stored entry is present afterwards. */
  lemma PutKeeps(files: seq<Entry>, e: Entry)
    ensures KeepsKeys(files, Put(files, e))
    ensures e in Put(files, e)
    ensures DistinctNames(files) ==> DistinctNames(Put(files, e))
    ensures |Put(files, e)| == if HasKey(files, e.name) then |files| else |files| + 1
  {
    if HasKey(files, e.name) {
      ReplaceKeeps(files, e);
    } else {
      AppendFresh(files, e);
    }
  }

  /** A key present in `files` is present in whatever keeps its keys. */
  lemma KeepsKey(files: seq<Entry>, files': seq<Entry>, name: string)
    requires KeepsKeys(files, files') && HasKey(files, name)
    ensures HasKey(files', name)
  {
    HasKeyIndex(files, name);
  }

  /** Appending entries never loses a key. */
  lemma AppendKeeps(files: seq<Entry>, more: seq<Entry>)
    ensures KeepsKeys(files, files + more)
  {
    forall k | 0 <= k < |files| ensures HasKey(files + more, files[k].name) {
      assert (files + more)[k] == files[k];
      KeyAt(files + more, k);
    }
  }

  /**
   * `file()` never loses a key, stores the entry under its (slash-completed)
   * key, has created the entry's parent folder, and keeps keys unique.
   */
  lemma {:induction false} FileAddKeeps(files: seq<Entry>, name: string, content: Content)
    ensures KeepsKeys(files, FileAdd(files, name, content))
    ensures Entry(Target(name, content), content) in FileAdd(files, name, content)
    ensures ParentFolder(Target(name, content)) != "" ==>
              HasKey(FileAdd(files, name, content), ForceTrailingSlash(ParentFolder(Target(name, content))))
    ensures DistinctNames(files) ==> DistinctNames(FileAdd(files, name, content))
    decreases |Target(name, content)|
  {
    var target := Target(name, content);
    var parent := ParentFolder(target);
    var key := ForceTrailingSlash(parent);
    var created := !(parent == "" || HasKey(files, key));
    var withParents := if created then FileAdd(files, key, Folder) else files;
    var r := FileAdd(files, name, content);
    assert r == Put(withParents, Entry(target, content));
    assert KeepsKeys(files, withParents) && (DistinctNames(files) ==> DistinctNames(withParents))
        && (parent != "" ==> HasKey(withParents, key)) by {
      if created {
        FileAddKeeps(files, key, Folder);
        assert Target(key, Folder) == key;
        var i :| 0 <= i < |withParents| && withParents[i] == Entry(key, Folder);
        KeyAt(withParents, i);
      } else {
        forall k | 0 <= k < |files| ensures HasKey(files, files[k].name) {
          KeyAt(files, k);
        }
      }
    }
    PutKeeps(withParents, Entry(target, content));
    forall k | 0 <= k < |files|
      ensures HasKey(r, files[k].name)
    {
      KeepsKey(withParents, r, files[k].name);
    }
    if parent != "" {
      KeepsKey(withParents, r, key);
    }
  }

  /** `folder()` always finds the folder it was asked for (the `!zipFolder` branches are dead). */
  lemma FolderAddFinds(files: seq<Entry>, name: string)
    ensures FolderAdd(files, name).1 == ForceTrailingSlash(name)
    ensures HasKey(FolderAdd(files, name).0, ForceTrailingSlash(name))
    ensures KeepsKeys(files, FolderAdd(files, name).0)
    ensures HasKey(files, ForceTrailingSlash(name)) ==> FolderAdd(files, name).0 == files
  {
    var key := ForceTrailingSlash(name);
    if !HasKey(files, key) {
      FileAddKeeps(files, key, Folder);
      var r := FileAdd(files, key, Folder);
      assert Target(key, Folder) == key;
      var i :| 0 <= i < |r| && r[i] == Entry(key, Folder);
      KeyAt(r, i);
    } else {
      forall k | 0 <= k < |files| ensures HasKey(files, files[k].name) {
        KeyAt(files, k);
      }
    }
  }

  lemma PutNonEmpty(files: seq<Entry>, e: Entry)
    requires NonEmptyNames(files) && e.name != ""
    ensures NonEmptyNames(Put(files, e))
  {
  }

  /** `file()` with a non-empty name only ever stores non-empty keys. */
  lemma {:induction false} FileAddNonEmpty(files: seq<Entry>, name: string, content: Content)
    requires NonEmptyNames(files) && name != ""
    ensures NonEmptyNames(FileAdd(files, name, content))
    decreases |Target(name, content)|
  {
    var target := Target(name, content);
    var parent := ParentFolder(target);
    var key := ForceTrailingSlash(parent);
    var withParents :=
      if parent == "" || HasKey(files, key) then files else FileAdd(files, key, Folder);
    if !(parent == "" || HasKey(files, key)) {
      FileAddNonEmpty(files, key, Folder);
    }
    PutNonEmpty(withParents, Entry(target, content));
  }

  /** At the top level every entry of `es` is handed over unchanged, in order. */
  lemma {:induction false} EmitTop(es: seq<Entry>)
    requires NonEmptyNames(es)
    ensures Emit(es, "") == es
  {
    if es != [] {
      EmitTop(es[1..]);
      assert es[0].name[0..] == es[0].name;
      assert es == [es[0]] + es[1..];
    }
  }

  lemma EntriesAssoc(x: seq<Entry>, y: seq<Entry>, z: seq<Entry>)
    ensures x + (y + z) == (x + y) + z
  {
  }

  /** A single entry is handed over exactly when it lies strictly below `root`. */
  lemma EmitOne(e: Entry, root: string)
    ensures Emit([e], root) ==
            if StartsWith(e.name, root) && |e.name| > |root| then [Entry(e.name[|root|..], e.content)] else []
  {
    assert [e][1..] == [];
  }

  /** One entry, then the rest. */
  lemma EmitStep(es: seq<Entry>, root: string)
    requires es != []
    ensures Emit(es, root) == Emit([es[0]], root) + Emit(es[1..], root)
  {
    assert [es[0]][1..] == [];
  }

  /** `forEach` keeps the order of the keys it visits. */
  lemma {:induction false} EmitConcat(a: seq<Entry>, b: seq<Entry>, root: string)
    ensures Emit(a + b, root) == Emit(a, root) + Emit(b, root)
  {
    if a != [] {
      ConsConcat(a, b);
      EmitStep(a + b, root);
      EmitStep(a, root);
      EmitConcat(a[1..], b, root);
      EntriesAssoc(Emit([a[0]], root), Emit(a[1..], root), Emit(b, root));
    } else {
      assert a + b == b;
    }
  }

  /** A permutation of an entry list with non-empty keys has non-empty keys. */
  lemma PermNonEmpty(a: seq<Entry>, b: seq<Entry>)
    requires multiset(a) == multiset(b) && NonEmptyNames(a)
    ensures NonEmptyNames(b)
  {
    SameMembers(a, b);
  }

  /** An entry that occurs twice in `a` does so at two positions. */
  lemma {:induction false} TwicePositions(a: seq<Entry>, x: Entry)
    requires multiset(a)[x] >= 2
    ensures exists i, j :: 0 <= i < j < |a| && a[i] == x && a[j] == x
  {
    assert a == [a[0]] + a[1..];
    if a[0] == x {
      assert x in multiset(a[1..]);
      var j :| 0 <= j < |a[1..]| && a[1..][j] == x;
      assert a[j + 1] == x;
    } else {
      TwicePositions(a[1..], x);
      var i, j :| 0 <= i < j < |a[1..]| && a[1..][i] == x && a[1..][j] == x;
      assert a[i + 1] == x && a[j + 1] == x;
    }
  }

  /** A permutation of an entry list with unique keys has unique keys. */
  lemma PermDistinct(a: seq<Entry>, b: seq<Entry>)
    requires multiset(a) == multiset(b) && DistinctNames(a)
    ensures DistinctNames(b)
  {
    forall i, j | 0 <= i < j < |b| ensures b[i].name != b[j].name {
      if b[i] == b[j] {
        assert b == b[..j] + b[j..];
        assert b[i] in multiset(b[..j]) && b[j] in multiset(b[j..]);
        assert multiset(b)[b[i]] == multiset(b[..j])[b[i]] + multiset(b[j..])[b[i]];
        TwicePositions(a, b[i]);
      } else {
        SameMembers(a, b);
      }
    }
  }

  /** Without array-index keys the property order is the creation order. */
  lemma PlainOrder(files: seq<Entry>)
    requires NoIndexKeys(files)
    ensures PropertyOrder(files) == files
  {
    KeyedNone(files);
  }

  /**
   * With the cursor at the top level, `generateAsync` writes every entry,
   * unchanged, in property order.
   */
  lemma GenerateFromTop(files: seq<Entry>)
    requires NonEmptyNames(files)
    ensures Generate(files, "") == PropertyOrder(files)
  {
    PermNonEmpty(files, PropertyOrder(files));
    EmitTop(PropertyOrder(files));
  }

  /** Entries none of which lies below `root` give nothing. */
  lemma {:induction false} EmitNoneBelow(es: seq<Entry>, root: string)
    requires forall k :: 0 <= k < |es| ==> !(StartsWith(es[k].name, root) && |es[k].name| > |root|)
    ensures Emit(es, root) == []
  {
    if es != [] {
      assert forall k :: 0 <= k < |es[1..]| ==> es[1..][k] == es[k + 1];
      EmitNoneBelow(es[1..], root);
    }
  }

  /** Below a folder, dropping the array-index keys changes nothing: none of them holds a separator. */
  lemma {:induction false} EmitSkipsIndex(files: seq<Entry>, root: string)
    requires EndsWithSlash(root)
    ensures Emit(Keyed(files, false), root) == Emit(files, root)
  {
    if files != [] {
      EmitSkipsIndex(files[1..], root);
      var e := files[0];
      EmitStep(files, root);
      if ArrayIndex(e.name) {
        BelowFolderNotIndex(e.name, root);
        EmitOne(e, root);
        assert Keyed(files, false) == Keyed(files[1..], false);
      } else {
        assert Keyed(files, false) == [e] + Keyed(files[1..], false);
        EmitConcat([e], Keyed(files[1..], false), root);
      }
    }
  }

  /**
   * In a folder view the keys all hold a separator, so `generateAsync`
   * writes them in creation order.
   */
  lemma GenerateInView(files: seq<Entry>, root: string)
    requires EndsWithSlash(root)
    ensures Generate(files, root) == Emit(files, root)
  {
    var sorted := PropertyOrder(files)[..|Keyed(files, true)|];
    assert PropertyOrder(files) == sorted + Keyed(files, false);
    EmitConcat(sorted, Keyed(files, false), root);
    forall k | 0 <= k < |sorted| ensures !(StartsWith(sorted[k].name, root) && |sorted[k].name| > |root|) {
      assert ArrayIndex(PropertyOrder(files)[k].name);
      BelowFolderNotIndex(sorted[k].name, root);
    }
    EmitNoneBelow(sorted, root);
    EmitSkipsIndex(files, root);
  }

  /** Emitting from a list holding the key `root` drops at least that entry. */
  lemma {:induction false} EmitDrops(es: seq<Entry>, root: string)
    requires HasKey(es, root)
    ensures |Emit(es, root)| < |es|
  {
    HasKeyIndex(es, root);
    var k :| 0 <= k < |es| && es[k].name == root;
    if k == 0 {
      assert |Emit(es[1..], root)| <= |es[1..]|;
    } else {
      assert es[1..][k - 1] == es[k];
      HasKeyIndex(es[1..], root);
      EmitDrops(es[1..], root);
    }
  }

  /** A permutation has the same keys. */
  lemma HasKeyPerm(a: seq<Entry>, b: seq<Entry>, key: string)
    requires multiset(a) == multiset(b) && HasKey(a, key)
    ensures HasKey(b, key)
  {
    HasKeyIndex(a, key);
    var k :| 0 <= k < |a| && a[k].name == key;
    SameMembers(a, b);
    var j :| 0 <= j < |b| && b[j] == a[k];
    KeyAt(b, j);
  }

  /**
   * With the cursor left on a folder that is itself an entry, that folder is
   * not written (its relative path is empty), so the archive loses entries:
   * why `save` puts the cursor back at the top level first.
   */
  lemma GenerateBelowDrops(files: seq<Entry>, root: string)
    requires HasKey(files, root)
    ensures |Generate(files, root)| < |files|
  {
    HasKeyPerm(files, PropertyOrder(files), root);
    EmitDrops(PropertyOrder(files), root);
  }

  /**
   * `file(name, null, {dir: true})` followed by `folder(name)`: the folder is
   * found, nothing more is added, and the view's cursor is the folder's key.
   */
  lemma FolderAfterFile(files: seq<Entry>, name: string)
    ensures FolderAdd(FileAdd(files, name, Folder), name) == (FileAdd(files, name, Folder), ForceTrailingSlash(name))
  {
    var added := FileAdd(files, name, Folder);
    FileAddKeeps(files, name, Folder);
    var i :| 0 <= i < |added| && added[i] == Entry(ForceTrailingSlash(name), Folder);
    KeyAt(added, i);
  }

  // ---------------------------------------------------------------------
  // When `file()` only appends

  /** A fresh key below an existing folder is appended at the end. */
  lemma FileAddFresh(files: seq<Entry>, e: Entry)
    requires AddsFresh(files, e)
    ensures FileAdd(files, e.name, e.content) == files + [e]
  {
  }

  lemma AddAllFirst(files: seq<Entry>, es: seq<Entry>)
    requires es != [] && AddsFresh(files, es[0])
    ensures AddAll(files, es) == AddAll(files + [es[0]], es[1..])
  {
    FileAddFresh(files, es[0]);
  }

  /** Splitting the first element off a concatenation. */
  lemma ConsConcat(a: seq<Entry>, b: seq<Entry>)
    requires a != []
    ensures (a + b)[0] == a[0] && (a + b)[1..] == a[1..] + b
  {
  }

  /** Moving the first element of `a` over to `files`. */
  lemma ShiftFirst(files: seq<Entry>, a: seq<Entry>)
    requires a != []
    ensures files + [a[0]] + a[1..] == files + a
  {
    assert a == [a[0]] + a[1..];
  }

  /** Calls that each append leave the entries in call order after the old ones. */
  lemma {:induction false} AddAllAppendsOnly(files: seq<Entry>, es: seq<Entry>)
    requires AppendsOnly(files, es)
    ensures AddAll(files, es) == files + es
    decreases es
  {
    if es == [] {
      assert files + es == files;
    } else {
      AddAllFirst(files, es);
      AddAllAppendsOnly(files + [es[0]], es[1..]);
      ShiftFirst(files, es);
    }
  }

  lemma {:induction false} AppendsOnlyConcat(files: seq<Entry>, a: seq<Entry>, b: seq<Entry>)
    requires AppendsOnly(files, a) && AppendsOnly(files + a, b)
    ensures AppendsOnly(files, a + b)
    decreases a
  {
    if a == [] {
      assert a + b == b && files + a == files;
    } else {
      ConsConcat(a, b);
      ShiftFirst(files, a);
      AppendsOnlyConcat(files + [a[0]], a[1..], b);
    }
  }

  /** Entries appended under fresh keys keep the keys unique. */
  lemma {:induction false} AppendsOnlyDistinct(files: seq<Entry>, es: seq<Entry>)
    requires AppendsOnly(files, es) && DistinctNames(files)
    ensures DistinctNames(files + es)
    decreases es
  {
    if es == [] {
      assert files + es == files;
    } else {
      FreshDistinct(files, es[0]);
      AppendsOnlyDistinct(files + [es[0]], es[1..]);
      ShiftFirst(files, es);
    }
  }

  /** One entry under a fresh key keeps the keys unique. */
  lemma FreshDistinct(files: seq<Entry>, e: Entry)
    requires !HasKey(files, e.name) && DistinctNames(files)
    ensures DistinctNames(files + [e])
  {
    HasKeyIndex(files, e.name);
  }

  lemma {:induction false} AddAllConcat(files: seq<Entry>, a: seq<Entry>, b: seq<Entry>)
    ensures AddAll(files, a + b) == AddAll(AddAll(files, a), b)
    decreases a
  {
    if a == [] {
      assert a + b == b;
    } else {
      assert (a + b)[0] == a[0] && (a + b)[1..] == a[1..] + b;
      AddAllConcat(FileAdd(files, a[0].name, a[0].content), a[1..], b);
    }
  }
}
