# vite-plugin-zip-pack: the `Zip` archive builder

This project models the `Zip` class of `src/zip.ts` in Dafny and proves what
it builds. The class packs a build output directory into one archive:

- its constructor (`createJSZip`) checks the optional `pathPrefix` and
  creates the prefix folders;
- `addDir` walks the directory depth first in listing order, applying the
  optional `filter`, and stores one entry per accepted directory or file;
- `save` puts the cursor back at the top level and writes the whole entry
  map to `outDir/outFileName`.

The model has seven modules.

- `JsZip` (`jszip.dfy`): the part of the JSZip library the class relies on,
  as pure functions over the entry list `seq<Entry>`. The list holds the keys
  of the `files` object in creation order.
  - `Put` is the assignment `files[name] = entry`: an existing key is
    overwritten where it stands, and a new key goes to the end.
  - `FileAdd` is `file(name, data, {dir})` with `createFolders`: a folder
    name gets a trailing `/`, and a missing parent folder is added first
    (recursively).
  - `FolderAdd` is `folder(name)`: it adds the folder if it is missing and
    returns the new view root `name/`.
  - `Generate` is the entry list `generateAsync` serialises: names relative to
    the root, empty ones skipped.
  - `generateAsync` visits the keys with `for (name in files)`. An ECMAScript
    object lists its array-index keys (`"0"` to `"4294967294"`) first, by
    value, and then its other keys in creation order. `PropertyOrder` is that
    order, and `Generate` emits in it. A key holding a `/` is never an array
    index. So only top-level files with array-index names, and no prefix, are
    written out of creation order.
- `Wrappers` (`wrappers.dfy`): the `Option` and `Result` datatypes. A
  `Result` failure stands for an exception thrown by the class.
- `SourceTree` (`tree.dfy`): the directory being packed.
  - It is a `Dir(name, children) | File(name, bytes)` tree; the order of
    `children` is the order `fs.readdir` reports.
  - `path.join` is joining with `/`.
  - `WalkNode`/`Walk` are the entries the walk adds, as a specification.
- `ZipPack` (`zip.dfy`): the class itself.
  - `Zip.files` is JSZip's shared entry map; `Zip.root` is the cursor of the
    view held in `this.zip`.
  - `Create`, `AddDir`, `AddFilesToZip` (the `for` loop), `AddEntry` (one turn
    of that loop) and `Save` update these fields in place. Each is proved
    against the specification functions `Initial`, `Walk` and `Archive`.
  - The filesystem is passed in. The directory found at `inDir` is an
    `Option<Node>`: `None` when `fileExists` says no. The written archives are
    a `Disk` map from absolute path to entry list.
- `WalkProps` (`walk_props.dfy`): properties of the walk: where its keys
  lie, which entries are folders, and the fact that a walk into a fresh view
  only appends.
- `ArchiveProps` (`archive_props.dfy`): properties of the finished archive.
  They cover prefix folders, filtering, counts, order and errors.
- `Scenarios` (`scenarios.dfy`):
  - the fixture directory `tests/inDir` of the test suite, with the exact
    entry lists the tests expect, proved from the model;
  - two client methods: one packs a directory end to end, the other saves
    twice.

An error is a `ZipError` value. `Message` gives the text each one is thrown
with, and `MessageInjective` shows the text identifies the error. Passing
`addDir` a path that exists but is a file makes `fs.readdir` fail with
`ENOTDIR`. The model has the separate error `NotADirectory` for this case.

## Model

| member | source | states |
|---|---|---|
| ZipPack.Message | src/zip.ts:28 | No contract of its own: the text thrown for each error (also line 70). Its properties are stated by `MessageInjective`. |
| ZipPack.IsAbsolute | src/zip.ts:69 | No contract of its own: POSIX `path.isAbsolute`, a leading `/`. `Initial`, `ResolvePath` and `ResolveAbsolute` state what it decides. |
| ZipPack.Archive | src/zip.ts:22-58 | No contract of its own: the entry list that `new Zip`, `addDir` and `save` write. `ArchiveErrors`, `ArchiveTopLevel`, `ArchiveWithPrefix`, `ArchiveDistinct`, `PackDirectory` and the `Scenarios` rows state its properties. |
| ZipPack.MessageInjective | src/zip.ts:27-29 | Two errors are thrown with the same text exactly when they are the same error (kind and offending path), covering both the `addDir` message and the `pathPrefix` message of line 70. |
| ZipPack.ResolvePath | src/zip.ts:43 | The resolved save path is absolute whenever the working directory or `outDir` is. It always ends with `outFileName`. |
| ZipPack.ResolveAbsolute | src/zip.ts:43 | With an absolute `outDir`, the working directory does not matter: the path is `outDir` joined with `outFileName`. |
| ZipPack.Initial | src/zip.ts:61-86 | Construction fails exactly when the prefix is non-empty and absolute, with `PrefixNotRelative(prefix)`. Otherwise the entry map has unique, non-empty keys. With a prefix, the cursor is the prefix with a trailing `/`, and that folder is in the map. |
| ZipPack.Zip.Create | src/zip.ts:22-24 | `new Zip(options)` fails exactly when `Initial` does, with the same error. Otherwise it gives a fresh valid object whose entries and cursor are those of `Initial`. |
| ZipPack.Zip.AddDir | src/zip.ts:26-31 | A missing directory gives `FolderMissing(inDir)` and a file gives `NotADirectory(inDir)`; both leave the entries unchanged. A directory is walked: the entries become the old ones with the walk's `file()` calls applied, and simply the old ones followed by the walk when the view is fresh. Keys stay unique and the cursor stays. |
| ZipPack.Zip.AddFilesToZip | src/zip.ts:88-121 | After the loop over a listing, the entry map is the old one with each child's `file()` calls applied in listing order (`AddAll` of `Walk`). Keys stay unique and non-empty. The loop invariant holds for every prefix of the listing. |
| ZipPack.Zip.AddEntry | src/zip.ts:93-119 | One child: a filtered-out child adds nothing. A file adds its bytes under `root + name`. A directory adds `root + name/` and then, through the recursive call, its own listing in the folder's view. |
| ZipPack.Zip.Save | src/zip.ts:33-58 | The cursor becomes the top level and the entries do not change. The returned path is `ResolvePath(cwd, outDir, outFileName)`. Afterwards the disk holds exactly the whole entry map, in property order, at that path, replacing any earlier file there, and nothing else changes. |
| ZipPack.LoopStep | src/zip.ts:92-120 | One more turn of the loop extends the invariant from the first `i` children to the first `i + 1`. |
| ZipPack.DirStep | src/zip.ts:103-114 | The folder entry followed by the folder view's own walk is exactly the walk of the directory node. |
| ZipPack.FileStep | src/zip.ts:115-119 | Storing a file's bytes under `root + name` is exactly the walk of that file node. |
| ZipPack.SkipStep | src/zip.ts:99-101 | A child the filter rejects contributes nothing to the entry map. |
| JsZip.Put | src/zip.ts:116 | No contract of its own: storing one entry under its key. Its properties are stated by `PutKeeps`. |
| JsZip.FileAdd | src/zip.ts:75-78 | No contract of its own: `file(name, data, {dir})` with its parent folders (also lines 104-107 and 116). Its properties are stated by `FileAddKeeps`, `FileAddNonEmpty` and `FolderAfterFile`. |
| JsZip.FolderAdd | src/zip.ts:79 | No contract of its own: `folder(name)` (also line 108). Its properties are stated by `FolderAddFinds` and `FolderAfterFile`. |
| JsZip.PutKeeps | src/zip.ts:116 | Storing an entry keeps every existing key and contains the new entry. Keys stay unique. The length grows by one exactly when the key was new. |
| JsZip.FileAddKeeps | src/zip.ts:75-78 | `file()` keeps every key and stores the entry under its target name (with a trailing `/` for a folder). The entry's parent folder then exists. Keys stay unique. |
| JsZip.FileAddNonEmpty | src/zip.ts:104-107 | `file()` with a non-empty name never creates an empty key. |
| JsZip.FolderAddFinds | src/zip.ts:79 | `folder(name)` returns the view root `name/`. That key is present afterwards, every earlier key is kept, and the map is untouched if the folder already existed. |
| JsZip.FolderAfterFile | src/zip.ts:108-112 | Right after `file(name, null, {dir: true})`, `folder(name)` adds nothing and always returns a view, so the `!zipFolder` branches (82-84, 110-112) cannot be taken. |
| JsZip.ForceTrailingSlash | src/zip.ts:75-79 | The folder key ends in `/`, extends the name by at most that one character, and equals the name exactly when the name already ends in `/`. |
| JsZip.ParentFolder | src/zip.ts:75 | A non-empty parent folder is a proper prefix of the path, shorter than it even with its trailing `/`. |
| JsZip.GenerateFromTop | src/zip.ts:36 | With the cursor reset to the top level, the emitted list is the whole entry map in property order. |
| JsZip.PropertyOrder | src/zip.ts:49-55 | The order `for (name in files)` visits the keys: a permutation of the entry map, the same length. Exactly the first positions hold the array-index keys, sorted by value. The rest are the other keys in creation order. |
| JsZip.SortByIndex | src/zip.ts:49-55 | The array-index keys put in ascending order of value, as a permutation of the keys given. |
| JsZip.KeyedSplit | src/zip.ts:49-55 | The array-index keys and the other keys together are exactly the entry map. |
| JsZip.PlainOrder | src/zip.ts:49-55 | Without array-index keys the property order is the creation order. |
| JsZip.BelowFolderNotIndex | src/zip.ts:104-116 | A key below a folder holds a `/`, so it is never an array index. |
| JsZip.EmitSkipsIndex | src/zip.ts:49-55 | Emitting from a folder view ignores the array-index keys, since none of them lies below a folder. |
| JsZip.GenerateInView | src/zip.ts:49-55 | In a folder view, the entries are emitted in creation order. |
| JsZip.EmitConcat | src/zip.ts:49-55 | Emission keeps the order of the keys it visits: emitting two runs of keys is emitting each in turn. |
| JsZip.PermDistinct | src/zip.ts:49-55 | Reordering an entry map with unique keys keeps the keys unique. |
| JsZip.GenerateBelowDrops | src/zip.ts:49-55 | Emitting from a folder view instead would drop at least that folder's own entry. This is why line 36 resets the cursor. |
| JsZip.Generate | src/zip.ts:49-55 | Sound: every emitted entry has a non-empty name and comes from the map under the root plus that name. Complete: every entry strictly below the root is emitted, under its name relative to the root. There are never more entries than the map holds. The order is stated by `GenerateFromTop`, `GenerateInView` and `EmitConcat`. |
| JsZip.AddAllAppendsOnly | src/zip.ts:92-120 | A run of `file()` calls that each add a new key below an existing folder simply appends those entries. |
| JsZip.AppendsOnlyDistinct | src/zip.ts:92-120 | Such a run keeps the keys unique. |
| JsZip.AddAllConcat | src/zip.ts:92-120 | Applying two runs of `file()` calls one after the other is applying their concatenation. |
| SourceTree.WalkNode | src/zip.ts:93-119 | No contract of its own: the entries one child of a listing adds. Its properties are stated by `DirStep`, `FileStep`, `SkipStep`, `WalkNodeBelow`, `EntryKinds` and `DirFirst`. |
| SourceTree.Walk | src/zip.ts:92-120 | No contract of its own: the entries the walk of a listing adds. Its properties are stated by `AddFilesToZip`, `WalkConcat`, `WalkBelow`, `FilterDecides`, `WalkCounts` and `WalkUnder`. |
| SourceTree.JoinPath | src/zip.ts:93 | The joined path starts with the directory and ends with the name. |
| WalkProps.WalkConcat | src/zip.ts:92 | The walk of a listing split in two is the walk of the first part followed by that of the second. |
| WalkProps.WalkNodeBelow | src/zip.ts:103-119 | Every entry a child adds is the child's own key or lies under `root + name/`. It always lies strictly below the view root. |
| WalkProps.WalkBelow | src/zip.ts:92-120 | Every entry a walk adds lies strictly below the view root. |
| WalkProps.EntryKinds | src/zip.ts:103-119 | A walked entry is a folder exactly when its name ends in `/`. |
| WalkProps.WithinDisjoint | src/zip.ts:93 | Two siblings with different names never add entries to each other's part of the key space. |
| WalkProps.ListAppends | src/zip.ts:88-121 | A walk into a fresh view only ever adds new keys below existing folders. |
| WalkProps.AddListFresh | src/zip.ts:88-121 | Walking into a fresh view (for instance the prefix view, or the top level of an empty archive) appends the walk unchanged: nothing is overwritten and no folder is added implicitly. |
| ArchiveProps.PrefixFoldersAdd | src/zip.ts:75-78 | For a clean prefix `q`, adding the folder `q` to an empty archive creates exactly the folders `PrefixFolders(q)`: one per path segment, outermost first. |
| ArchiveProps.PrefixFoldersShape | src/zip.ts:75-79 | For a clean prefix `q`, the prefix folders number one more than the slashes in `q`. They are folders ending in `/`, each a prefix of `q/`, in strictly increasing length, and the last is `q/`. |
| ArchiveProps.InitialClean | src/zip.ts:61-86 | A clean relative prefix, with or without a trailing `/`, starts the archive with the prefix folders and the cursor `q/`. |
| ArchiveProps.ArchiveTopLevel | src/zip.ts:65-67 | With no prefix, the archive is exactly the walk of the directory at the top level, in property order: no extra entries. |
| ArchiveProps.WalkIndexFree | src/zip.ts:92-120 | At the top level only the directory's own files can have array-index keys. Every other key the walk adds holds a `/`. |
| ArchiveProps.ArchiveTopLevelInOrder | src/zip.ts:65-67 | With no prefix and no top-level file named by an array index, the archive is the walk itself, in walk order. |
| ArchiveProps.SavedArchive | src/zip.ts:33-58 | The entry map after construction and `addDir` is what `save` writes, in property order. |
| ArchiveProps.ArchiveWithPrefix | src/zip.ts:75-85 | With a clean prefix `q`, the archive is the prefix folders followed by the walk rooted at `q/`. |
| ArchiveProps.ArchiveBelowPrefix | src/zip.ts:75-85 | With a clean prefix `q`, every entry after the prefix folders begins with `q/` and is longer than it. |
| ArchiveProps.ArchiveErrors | src/zip.ts:27-29 | An absolute prefix fails with `PrefixNotRelative`, ahead of any directory check. Otherwise a missing directory fails with `FolderMissing` and a file fails with `NotADirectory`. The archive exists exactly when the prefix is acceptable and the source is a directory. |
| ArchiveProps.ArchiveDistinct | src/zip.ts:33-58 | The written archive's entry names are unique and non-empty. |
| ArchiveProps.FilterDecides | src/zip.ts:99-101 | A child's entry is in the walk exactly when the filter accepts it. When the filter rejects it, no entry anywhere under its name appears either, because the walk does not descend. |
| ArchiveProps.AcceptAll | src/zip.ts:99 | A filter that accepts everything gives the same walk as no filter. |
| ArchiveProps.AcceptedWalk | src/zip.ts:99-101 | A filter that accepts every entry actually visited gives the same walk as no filter. |
| ArchiveProps.WalkCounts | src/zip.ts:103-119 | Without a filter, the walk has one folder entry per directory and one data entry per file of the tree. |
| ArchiveProps.CountPerm | src/zip.ts:49-55 | Reordering the entries, as the property order does, changes neither the number of folder entries nor the number of data entries. |
| ArchiveProps.ArchiveCounts | src/zip.ts:33-58 | With no prefix and no filter, or one accepting everything, the written archive exists and holds one folder entry per directory and one data entry per file of the tree. An entry is a folder exactly when its name ends in `/`. |
| ArchiveProps.DirFirst | src/zip.ts:103-114 | An accepted directory's own entry `root + name/` comes first. Every later entry of it lies strictly under that folder. |
| ArchiveProps.WalkUnder | src/zip.ts:108-114 | The walk into the view rooted at `root` is the top-level walk with `root` put in front of every name. |
| Scenarios.BuildZip | tests/zip.test.ts:42-63 | With a filter that accepts everything, the fixture's archive lists exactly the 13 expected names in the expected order. |
| Scenarios.FilterNotExist | tests/zip.test.ts:149-171 | With no filter, the fixture's archive lists the same 13 names. |
| Scenarios.FilterFiles | tests/zip.test.ts:65-89 | With a filter rejecting paths containing `img`, the `img/` folder and both pictures are absent, leaving the expected 10 names. |
| Scenarios.PathPrefixApp | tests/zip.test.ts:97-116 | With prefix `app`, the archive is `app/` followed by every fixture name under `app/`. |
| Scenarios.PathPrefixDeep | tests/zip.test.ts:117-147 | With prefix `app/bpp/cpp`, the archive begins `app/`, `app/bpp/`, `app/bpp/cpp/`, followed by every fixture name under `app/bpp/cpp/`. |
| Scenarios.PathPrefixNotAbsolute | tests/zip.test.ts:91-95 | The prefix `/a/` is refused with `PrefixNotRelative("/a/")`, so no archive is produced. |
| Scenarios.AddDirNotExist | tests/zip.test.ts:37-40 | Adding the missing `tests/a` fails with `FolderMissing("tests/a")`. |
| Scenarios.IndexNameFirst | src/zip.ts:49-55 | With no prefix, a top-level file whose name is an array index is written before a file created ahead of it. |
| Scenarios.NumericNameFirst | src/zip.ts:49-55 | A listing of `index.html` then `404` gives an archive that lists `404` first. |
| Scenarios.PackDirectory | src/zip.ts:22-58 | Constructing, adding a directory and saving fails exactly when `Archive` does, with the same error. On success the archive file holds `Archive`'s entries at the resolved path. |
| Scenarios.SaveTwice | tests/zip.test.ts:29-35 | Saving twice to the same destination succeeds both times, with the same path and the same disk. The second save replaces the first archive rather than adding to it. |

## Left out

- Filesystem I/O is replaced by parameters:
  - `fs.readdir`, `fs.stat` and `fs.readFile` become the `Node` tree;
  - `fileExists` in `src/utils.ts` becomes `Option<Node>`;
  - `fs.unlink` and `fs.writeFile` become updates of the `Disk` map.
- Creating `outDir` with `fs.mkdir` (lines 37-41) is not represented. `Disk` maps file paths to archives and has no directories.
- ZipPack.Zip.AddDir: does not model a failure of a nested `fs.readdir`, `fs.stat` or `fs.readFile` (lines 90, 94, 114, 116). Such a failure would throw in the middle of the walk, with the earlier siblings already stored. The model always completes the walk.
- ZipPack.Zip.AddFilesToZip: does not model those failures either, for the same reason.
- ZipPack.Zip.AddEntry: the `filter` callback (line 99) is modelled as a pure, total function of its three arguments. A filter that throws, which would end the walk with the earlier siblings already stored, is not represented. Neither is a filter whose answers depend on its earlier calls.
- ZipPack.Zip.Save: never fails. Failures of `fs.unlink`, `generateAsync` and `fs.writeFile` (lines 46, 49-57) are not modelled.
- DEFLATE compression and the ZIP binary format produced by `generateAsync` (lines 49-55) are left out. The model's archive is the emitted entry list.
- Entry dates and other JSZip entry options are not modelled.
- JSZip is not part of this model. `JsZip` restates the behaviour of `file`, `folder`, the view root and `generateAsync` as this class uses them.
- Path semantics are simplified:
  - `path.join` joins with `/` and does not normalise `.`, `..` or repeated separators;
  - `path.isAbsolute` is POSIX style (a leading `/`);
  - `path.resolve` is `JoinPath` with the working directory, which is passed in.
- Windows paths are out of scope.
- `async`/`await` is not modelled. The walk is sequential, so the model is ordinary sequential code.
- ArchiveProps.ArchiveWithPrefix, ArchiveProps.PrefixFoldersAdd, ArchiveProps.PrefixFoldersShape, ArchiveProps.ArchiveBelowPrefix: stated only for a clean prefix, meaning relative, non-empty, no `//`, and at most one trailing `/`. A prefix with repeated separators goes through the same `Initial` function, but its folder list is not characterised.
- Scenarios.PathPrefixNotAbsolute: states the error value, not its literal text. The text is `Message` of that value, and its properties are proved in general by `MessageInjective`.
- Scenarios.AddDirNotExist: states the error value, not its literal text, for the same reason.
- Scenarios.FilterFiles: does not model that the filter was called (`toHaveBeenCalled`), only its effect on the archive.
- After `save` the cursor stays at the top level, so a later `addDir` on the same object would write there and not under the prefix. `Save` states the new cursor, but no lemma follows such a sequence further.
- `src/pack.ts`, `src/index.ts`, `src/file.ts` and `src/utils.ts` are not part of this model. Their job is orchestration, logging, the plugin hook, file hashing and size formatting.
