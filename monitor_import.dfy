/** The import-history ledger.

    While Unity imports a package, the monitor collects the paths of the
    assets that the import creates (those that did not exist when it
    started). When the import completes it appends a (path, hash) entry for
    each collected file that exists to the history file. Deletions and moves
    reported by the asset postprocessor remove or rename history entries by
    path.

    The history file is a `HistoryFile` value: missing, unparsable, or parsed
    with a possibly-null `files` list. Every operation reads it afresh, so
    entries are values, and the in-place rename of `UpdateAssetPathInJson` is
    an update of one position of the list. The file system's existence test
    and the MD5 digest are parameters. */
module MonitorImport {
  import opened Wrappers
  import Seqs

  datatype FileHashInfo = FileHashInfo(filePath: string, fileHash: string)

  /** The history file on disk. `Stored(None)` is a file that parses to an
      object whose `files` is null. */
  datatype HistoryFile = Missing | Unparsable | Stored(files: Option<seq<FileHashInfo>>)

  /** What `CalculateFileHash` returns when the file cannot be read. */
  const HashError: string := "error_calculating_hash"

  /** `CalculateFileHash`: the digest, or the sentinel when reading fails
      (`digest` returns `None`). */
  function CalculateFileHash(digest: string -> Option<string>, path: string): (h: string)
    ensures digest(path) == None ==> h == HashError
    ensures digest(path).Some? ==> h == digest(path).value
  {
    match digest(path)
    case None => HashError
    case Some(d) => d
  }

  /** `LoadOrCreateImportHistory`: the stored entries, or an empty list when
      the file is missing, unparsable or has no `files`. */
  function LoadOrCreateImportHistory(f: HistoryFile): (r: seq<FileHashInfo>)
    ensures f.Stored? && f.files.Some? ==> r == f.files.value
    ensures !(f.Stored? && f.files.Some?) ==> r == []
  {
    if f.Stored? && f.files.Some? then f.files.value else []
  }

  function PathsOf(files: seq<FileHashInfo>): (r: seq<string>)
    ensures |r| == |files| && forall i :: 0 <= i < |files| ==> r[i] == files[i].filePath
  {
    seq(|files|, i requires 0 <= i < |files| => files[i].filePath)
  }

  /** The query of `SaveFileHashesToJson`: one entry per collected path that
      exists, in collection order. */
  function HashEntries(paths: seq<string>, fileExists: string -> bool,
                       digest: string -> Option<string>): seq<FileHashInfo>
  {
    if paths == [] then []
    else
      (if fileExists(paths[0]) then [FileHashInfo(paths[0], CalculateFileHash(digest, paths[0]))] else [])
      + HashEntries(paths[1..], fileExists, digest)
  }

  /** The entries name exactly the existing paths, in order, each with its digest. */
  lemma HashEntriesSpec(paths: seq<string>, fileExists: string -> bool,
                        digest: string -> Option<string>)
    ensures PathsOf(HashEntries(paths, fileExists, digest)) == Seqs.Filter(paths, fileExists)
    ensures forall e :: e in HashEntries(paths, fileExists, digest) ==>
              e.fileHash == CalculateFileHash(digest, e.filePath)
  {
    HashEntriesPaths(paths, fileExists, digest);
    HashEntriesDigests(paths, fileExists, digest);
  }

  lemma {:induction false} HashEntriesPaths(paths: seq<string>, fileExists: string -> bool,
                                            digest: string -> Option<string>)
    ensures PathsOf(HashEntries(paths, fileExists, digest)) == Seqs.Filter(paths, fileExists)
  {
    if paths != [] {
      HashEntriesPaths(paths[1..], fileExists, digest);
      var rest := HashEntries(paths[1..], fileExists, digest);
      if fileExists(paths[0]) {
        var e := FileHashInfo(paths[0], CalculateFileHash(digest, paths[0]));
        assert HashEntries(paths, fileExists, digest) == [e] + rest;
        PathsOfCons(e, rest);
        assert Seqs.Filter(paths, fileExists) == [paths[0]] + Seqs.Filter(paths[1..], fileExists);
      } else {
        assert HashEntries(paths, fileExists, digest) == rest;
        assert Seqs.Filter(paths, fileExists) == Seqs.Filter(paths[1..], fileExists);
      }
    }
  }

  lemma PathsOfCons(e: FileHashInfo, rest: seq<FileHashInfo>)
    ensures PathsOf([e] + rest) == [e.filePath] + PathsOf(rest)
  {
    var l, r := PathsOf([e] + rest), [e.filePath] + PathsOf(rest);
    assert |l| == |r|;
    forall i | 0 <= i < |l| ensures l[i] == r[i] {
      if i > 0 {
        assert ([e] + rest)[i] == rest[i - 1];
      }
    }
  }

  lemma {:induction false} HashEntriesDigests(paths: seq<string>, fileExists: string -> bool,
                                              digest: string -> Option<string>)
    ensures forall e :: e in HashEntries(paths, fileExists, digest) ==>
              e.fileHash == CalculateFileHash(digest, e.filePath)
  {
    if paths != [] {
      HashEntriesDigests(paths[1..], fileExists, digest);
      var head := if fileExists(paths[0]) then [FileHashInfo(paths[0], CalculateFileHash(digest, paths[0]))] else [];
      var rest := HashEntries(paths[1..], fileExists, digest);
      assert HashEntries(paths, fileExists, digest) == head + rest;
    }
  }

  /** The `RemoveAll` predicate, negated: the entry is not at `p`. */
  function NotAtPath(p: string): FileHashInfo -> bool {
    (e: FileHashInfo) => e.filePath != p
  }

  predicate HasEntry(files: seq<FileHashInfo>, p: string) {
    exists i :: 0 <= i < |files| && files[i].filePath == p
  }

  /** The history file after `RemoveDeletedAssetFromJson(p)`: rewritten
      without the entries at `p` when there was one, otherwise untouched. */
  function AfterRemove(f: HistoryFile, p: string): HistoryFile {
    var files := LoadOrCreateImportHistory(f);
    if p == [] || !HasEntry(files, p) then f
    else Stored(Some(Seqs.Filter(files, NotAtPath(p))))
  }

  /** Each entry at `oldPath` renamed to `newPath`; hashes are kept. */
  function Renamed(files: seq<FileHashInfo>, oldPath: string, newPath: string): (r: seq<FileHashInfo>)
    ensures |r| == |files|
  {
    seq(|files|, i requires 0 <= i < |files| =>
      if files[i].filePath == oldPath then files[i].(filePath := newPath) else files[i])
  }

  /** The history file after `UpdateAssetPathInJson(oldPath, newPath)`. */
  function AfterRename(f: HistoryFile, oldPath: string, newPath: string): HistoryFile {
    var files := LoadOrCreateImportHistory(f);
    if oldPath == [] || newPath == [] || !HasEntry(files, oldPath) then f
    else Stored(Some(Renamed(files, oldPath, newPath)))
  }

  /** A removal leaves no entry at the path and keeps every other entry, in
      order; an empty path or a path with no entry leaves the file as it was. */
  lemma AfterRemoveSpec(f: HistoryFile, p: string)
    ensures p == [] || !HasEntry(LoadOrCreateImportHistory(f), p) ==> AfterRemove(f, p) == f
    ensures p != [] && HasEntry(LoadOrCreateImportHistory(f), p) ==>
              var r := LoadOrCreateImportHistory(AfterRemove(f, p));
              !HasEntry(r, p) &&
              (forall e :: e in r <==> e in LoadOrCreateImportHistory(f) && e.filePath != p) &&
              Seqs.IsSubsequence(r, LoadOrCreateImportHistory(f))
  {
    var files := LoadOrCreateImportHistory(f);
    if p != [] && HasEntry(files, p) {
      var r := Seqs.Filter(files, NotAtPath(p));
      forall e ensures e in r <==> e in files && e.filePath != p {
        Seqs.FilterMembership(files, NotAtPath(p), e);
      }
      forall i | 0 <= i < |r| ensures r[i].filePath != p {
        assert r[i] in r;
      }
      Seqs.FilterIsSubsequence(files, NotAtPath(p));
    }
  }

  /** A rename changes only paths: every entry at `oldPath` moves to
      `newPath`, every other entry and every hash stays, and (for distinct
      paths) no entry is left at `oldPath`. */
  lemma RenamedSpec(files: seq<FileHashInfo>, oldPath: string, newPath: string)
    ensures forall i :: 0 <= i < |files| ==>
              Renamed(files, oldPath, newPath)[i].fileHash == files[i].fileHash
    ensures forall i :: 0 <= i < |files| ==>
              Renamed(files, oldPath, newPath)[i].filePath ==
              (if files[i].filePath == oldPath then newPath else files[i].filePath)
    ensures oldPath != newPath ==> !HasEntry(Renamed(files, oldPath, newPath), oldPath)
  {
  }

  /** Renaming back undoes a rename when no entry was at the new path. */
  lemma RenameRoundTrip(files: seq<FileHashInfo>, oldPath: string, newPath: string)
    requires !HasEntry(files, newPath)
    ensures Renamed(Renamed(files, oldPath, newPath), newPath, oldPath) == files
  {
    var r := Renamed(Renamed(files, oldPath, newPath), newPath, oldPath);
    forall i | 0 <= i < |files| ensures r[i] == files[i] {
      assert files[i].filePath != newPath;
    }
  }

  /** The collection step of `AddImportedAsset`. */
  function AddStep(imported: seq<string>, preExisting: set<string>, importing: bool, p: string): (r: seq<string>)
  {
    if importing && p !in preExisting && p !in imported then imported + [p] else imported
  }

  /** `AddImportedAsset` for each path in turn. */
  function AddAll(imported: seq<string>, preExisting: set<string>, importing: bool, paths: seq<string>): seq<string>
  {
    if paths == [] then imported
    else AddStep(AddAll(imported, preExisting, importing, paths[..|paths| - 1]), preExisting, importing, paths[|paths| - 1])
  }

  /** `RemoveDeletedAssetFromJson` for each path in turn. */
  function RemoveEach(f: HistoryFile, paths: seq<string>): HistoryFile
  {
    if paths == [] then f else AfterRemove(RemoveEach(f, paths[..|paths| - 1]), paths[|paths| - 1])
  }

  /** `UpdateAssetPathInJson(from[i], to[i])` for each index in turn. */
  function MoveEach(f: HistoryFile, from: seq<string>, to: seq<string>): HistoryFile
    requires |from| == |to|
  {
    if from == [] then f
    else AfterRename(MoveEach(f, from[..|from| - 1], to[..|to| - 1]), from[|from| - 1], to[|to| - 1])
  }

  /** The collected paths have no duplicates and none was there before the import. */
  ghost predicate Collected(imported: seq<string>, preExisting: set<string>) {
    Seqs.NoDup(imported) && forall i :: 0 <= i < |imported| ==> imported[i] !in preExisting
  }

  /** A collection step keeps the collected list duplicate-free and disjoint
      from the snapshot; it adds `p` exactly when the import is running and
      `p` is neither pre-existing nor collected already. */
  lemma AddStepSpec(imported: seq<string>, preExisting: set<string>, importing: bool, p: string)
    requires Collected(imported, preExisting)
    ensures Collected(AddStep(imported, preExisting, importing, p), preExisting)
    ensures p in AddStep(imported, preExisting, importing, p) <==>
            p in imported || (importing && p !in preExisting)
    ensures imported <= AddStep(imported, preExisting, importing, p)
  {
    var r := AddStep(imported, preExisting, importing, p);
    if r != imported {
      forall i, j | 0 <= i < j < |r| ensures r[i] != r[j] {
        if j == |imported| {
          assert r[i] == imported[i];
        } else {
          assert r[i] == imported[i] && r[j] == imported[j];
        }
      }
    }
  }

  /** Collecting a batch keeps the invariant. */
  lemma {:induction false} AddAllCollected(imported: seq<string>, preExisting: set<string>, importing: bool, paths: seq<string>)
    requires Collected(imported, preExisting)
    ensures Collected(AddAll(imported, preExisting, importing, paths), preExisting)
  {
    if paths != [] {
      AddAllCollected(imported, preExisting, importing, paths[..|paths| - 1]);
      AddStepSpec(AddAll(imported, preExisting, importing, paths[..|paths| - 1]), preExisting, importing, paths[|paths| - 1]);
    }
  }

  /** Nothing is collected while no import is running. */
  lemma {:induction false} AddAllIdle(imported: seq<string>, preExisting: set<string>, paths: seq<string>)
    ensures AddAll(imported, preExisting, false, paths) == imported
  {
    if paths != [] {
      AddAllIdle(imported, preExisting, paths[..|paths| - 1]);
    }
  }

  /** The monitor's static state and the history file it maintains. */
  class Monitor {
    var importedAssetPaths: seq<string>
    var preExistingAssetPaths: set<string>
    var isImportingPackage: bool
    var historyFile: HistoryFile

    /** Collected paths are new and distinct, and nothing is held between imports. */
    ghost predicate Valid()
      reads this
    {
      Collected(importedAssetPaths, preExistingAssetPaths)
      && (!isImportingPackage ==> importedAssetPaths == [] && preExistingAssetPaths == {})
    }

    /** The static initial state, over whatever history file is on disk. */
    constructor (historyFile: HistoryFile)
      ensures Valid()
      ensures importedAssetPaths == [] && preExistingAssetPaths == {} && !isImportingPackage
      ensures this.historyFile == historyFile
    {
      importedAssetPaths := [];
      preExistingAssetPaths := {};
      isImportingPackage := false;
      this.historyFile := historyFile;
    }

    predicate IsImportingPackage()
      reads this
    {
      isImportingPackage
    }

    /** `OnImportPackageStarted`: the flag is set, the collection is emptied
        and every asset path that exists now is snapshotted. */
    method OnImportPackageStarted(allAssets: seq<string>)
      modifies this
      ensures Valid()
      ensures isImportingPackage && importedAssetPaths == []
      ensures forall p :: p in preExistingAssetPaths <==> p in allAssets
      ensures historyFile == old(historyFile)
    {
      isImportingPackage := true;
      importedAssetPaths := [];
      preExistingAssetPaths := {};
      for i := 0 to |allAssets|
        invariant forall p :: p in preExistingAssetPaths <==> p in allAssets[..i]
        invariant isImportingPackage && importedAssetPaths == []
        invariant historyFile == old(historyFile)
      {
        preExistingAssetPaths := preExistingAssetPaths + {allAssets[i]};
        assert allAssets[..i + 1] == allAssets[..i] + [allAssets[i]];
      }
      assert allAssets[..|allAssets|] == allAssets;
    }

    /** The shared ending of the three terminal events. */
    method EndImport()
      modifies this
      ensures Valid()
      ensures !isImportingPackage && importedAssetPaths == [] && preExistingAssetPaths == {}
      ensures historyFile == old(historyFile)
    {
      isImportingPackage := false;
      importedAssetPaths := [];
      preExistingAssetPaths := {};
    }

    /** `OnImportPackageCompleted`: the hashes are saved, then the import ends. */
    method OnImportPackageCompleted(packageName: string, fileExists: string -> bool,
                                    digest: string -> Option<string>)
      modifies this
      ensures Valid()
      ensures !isImportingPackage && importedAssetPaths == [] && preExistingAssetPaths == {}
      ensures historyFile == Stored(Some(LoadOrCreateImportHistory(old(historyFile))
                                         + HashEntries(old(importedAssetPaths), fileExists, digest)))
    {
      SaveFileHashesToJson(packageName, fileExists, digest);
      EndImport();
    }

    method OnImportPackageCancelled(packageName: string)
      modifies this
      ensures Valid()
      ensures !isImportingPackage && importedAssetPaths == [] && preExistingAssetPaths == {}
      ensures historyFile == old(historyFile)
    {
      EndImport();
    }

    method OnImportPackageFailed(packageName: string, errorMessage: string)
      modifies this
      ensures Valid()
      ensures !isImportingPackage && importedAssetPaths == [] && preExistingAssetPaths == {}
      ensures historyFile == old(historyFile)
    {
      EndImport();
    }

    /** `AddImportedAsset`: collects a path only during an import, only if it
        is new and not collected yet. */
    method AddImportedAsset(assetPath: string)
      requires Valid()
      modifies this
      ensures Valid()
      ensures importedAssetPaths == AddStep(old(importedAssetPaths), preExistingAssetPaths, isImportingPackage, assetPath)
      ensures preExistingAssetPaths == old(preExistingAssetPaths)
      ensures isImportingPackage == old(isImportingPackage) && historyFile == old(historyFile)
    {
      AddStepSpec(importedAssetPaths, preExistingAssetPaths, isImportingPackage, assetPath);
      if isImportingPackage && assetPath !in preExistingAssetPaths && assetPath !in importedAssetPaths {
        importedAssetPaths := importedAssetPaths + [assetPath];
      }
    }

    /** `SaveFileHashesToJson`: the prior entries followed by the new ones. */
    method SaveFileHashesToJson(packageName: string, fileExists: string -> bool,
                                digest: string -> Option<string>)
      modifies this
      ensures historyFile == Stored(Some(LoadOrCreateImportHistory(old(historyFile))
                                         + HashEntries(importedAssetPaths, fileExists, digest)))
      ensures importedAssetPaths == old(importedAssetPaths)
      ensures preExistingAssetPaths == old(preExistingAssetPaths)
      ensures isImportingPackage == old(isImportingPackage)
    {
      var fileHashInfos := HashEntries(importedAssetPaths, fileExists, digest);
      var history := LoadOrCreateImportHistory(historyFile);
      history := history + fileHashInfos;
      historyFile := Stored(Some(history));
    }

    /** `RemoveDeletedAssetFromJson`: drops every entry at the path and
        rewrites the file, unless the path is empty or has no entry. */
    method RemoveDeletedAssetFromJson(assetPath: string)
      modifies this
      ensures historyFile == AfterRemove(old(historyFile), assetPath)
      ensures importedAssetPaths == old(importedAssetPaths)
      ensures preExistingAssetPaths == old(preExistingAssetPaths)
      ensures isImportingPackage == old(isImportingPackage)
    {
      if assetPath == [] {
        return;
      }
      var history := LoadOrCreateImportHistory(historyFile);
      var kept := Seqs.Filter(history, NotAtPath(assetPath));
      var wasRemoved := |kept| < |history|;
      RemovedIffMatched(history, assetPath);
      if !wasRemoved {
        return;
      }
      historyFile := Stored(Some(kept));
    }

    /** `UpdateAssetPathInJson`: renames in place every entry at `oldPath`
        and rewrites the file, unless an argument is empty or nothing matched. */
    method UpdateAssetPathInJson(oldPath: string, newPath: string)
      modifies this
      ensures historyFile == AfterRename(old(historyFile), oldPath, newPath)
      ensures importedAssetPaths == old(importedAssetPaths)
      ensures preExistingAssetPaths == old(preExistingAssetPaths)
      ensures isImportingPackage == old(isImportingPackage)
    {
      if oldPath == [] || newPath == [] {
        return;
      }
      var files := LoadOrCreateImportHistory(historyFile);
      ghost var original := files;
      var wasUpdated := false;
      var i := 0;
      while i < |files|
        invariant 0 <= i <= |files| == |original|
        invariant forall k :: 0 <= k < i ==> files[k] == Renamed(original, oldPath, newPath)[k]
        invariant forall k :: i <= k < |files| ==> files[k] == original[k]
        invariant wasUpdated <==> exists k :: 0 <= k < i && original[k].filePath == oldPath
      {
        if files[i].filePath == oldPath {
          files := files[i := files[i].(filePath := newPath)];
          wasUpdated := true;
        }
        i := i + 1;
      }
      assert files == Renamed(original, oldPath, newPath);
      if !wasUpdated {
        return;
      }
      historyFile := Stored(Some(files));
    }
  }

  /** `RemoveAll` shortens the list exactly when some entry matched. */
  lemma RemovedIffMatched(files: seq<FileHashInfo>, p: string)
    ensures |Seqs.Filter(files, NotAtPath(p))| < |files| <==> HasEntry(files, p)
  {
    if HasEntry(files, p) {
      var i :| 0 <= i < |files| && files[i].filePath == p;
      FilterDropsAt(files, NotAtPath(p), i);
    } else {
      Seqs.FilterAllPass(files, NotAtPath(p));
    }
  }

  /** A filter that rejects one element returns a shorter list. */
  lemma {:induction false} FilterDropsAt<T>(s: seq<T>, keep: T -> bool, i: int)
    requires 0 <= i < |s| && !keep(s[i])
    ensures |Seqs.Filter(s, keep)| < |s|
  {
    if i > 0 {
      FilterDropsAt(s[1..], keep, i - 1);
    }
  }

  /** `PackageAssetPostprocessor.OnPostprocessAllAssets`: while an import
      runs, each imported path is offered for collection; each deleted path
      is removed from the history; and the moves are applied pairwise only
      when both arrays are present, non-empty and of equal length. A `None`
      array is a null one. */
  method OnPostprocessAllAssets(m: Monitor, importedAssets: seq<string>, deletedAssets: Option<seq<string>>,
                                movedAssets: Option<seq<string>>, movedFromAssetPaths: Option<seq<string>>)
    requires m.Valid()
    modifies m
    ensures m.Valid()
    ensures m.importedAssetPaths ==
            AddAll(old(m.importedAssetPaths), m.preExistingAssetPaths, m.isImportingPackage, importedAssets)
    ensures m.preExistingAssetPaths == old(m.preExistingAssetPaths) && m.isImportingPackage == old(m.isImportingPackage)
    ensures var afterDeletes := if deletedAssets.Some? then RemoveEach(old(m.historyFile), deletedAssets.value)
                                else old(m.historyFile);
            m.historyFile ==
              if movedAssets.Some? && movedFromAssetPaths.Some? && |movedAssets.value| > 0
                 && |movedAssets.value| == |movedFromAssetPaths.value|
              then MoveEach(afterDeletes, movedFromAssetPaths.value, movedAssets.value)
              else afterDeletes
  {
    if m.IsImportingPackage() {
      CollectImported(m, importedAssets);
    } else {
      AddAllIdle(m.importedAssetPaths, m.preExistingAssetPaths, importedAssets);
    }
    if deletedAssets.Some? && |deletedAssets.value| > 0 {
      RemoveDeleted(m, deletedAssets.value);
    }
    if movedAssets == None || movedFromAssetPaths == None
       || |movedAssets.value| <= 0 || |movedAssets.value| != |movedFromAssetPaths.value| {
      return;
    }
    ApplyMoves(m, movedFromAssetPaths.value, movedAssets.value);
  }

  /** The first loop of `OnPostprocessAllAssets`, run while an import is in progress. */
  method CollectImported(m: Monitor, importedAssets: seq<string>)
    requires m.Valid() && m.isImportingPackage
    modifies m
    ensures m.Valid()
    ensures m.importedAssetPaths == AddAll(old(m.importedAssetPaths), m.preExistingAssetPaths, true, importedAssets)
    ensures m.preExistingAssetPaths == old(m.preExistingAssetPaths) && m.isImportingPackage
    ensures m.historyFile == old(m.historyFile)
  {
    for i := 0 to |importedAssets|
      invariant m.Valid()
      invariant m.importedAssetPaths == AddAll(old(m.importedAssetPaths), m.preExistingAssetPaths, true, importedAssets[..i])
      invariant m.preExistingAssetPaths == old(m.preExistingAssetPaths) && m.isImportingPackage
      invariant m.historyFile == old(m.historyFile)
    {
      m.AddImportedAsset(importedAssets[i]);
      assert importedAssets[..i + 1][..i] == importedAssets[..i];
    }
    assert importedAssets[..|importedAssets|] == importedAssets;
  }

  /** The second loop of `OnPostprocessAllAssets`. */
  method RemoveDeleted(m: Monitor, deleted: seq<string>)
    modifies m
    ensures m.historyFile == RemoveEach(old(m.historyFile), deleted)
    ensures unchanged(m`importedAssetPaths, m`preExistingAssetPaths, m`isImportingPackage)
  {
    for i := 0 to |deleted|
      invariant m.historyFile == RemoveEach(old(m.historyFile), deleted[..i])
      invariant unchanged(m`importedAssetPaths, m`preExistingAssetPaths, m`isImportingPackage)
    {
      m.RemoveDeletedAssetFromJson(deleted[i]);
      assert deleted[..i + 1][..i] == deleted[..i];
    }
    assert deleted[..|deleted|] == deleted;
  }

  /** The moves loop of `OnPostprocessAllAssets`: `(movedFrom[i], moved[i])` in turn. */
  method ApplyMoves(m: Monitor, movedFrom: seq<string>, moved: seq<string>)
    requires |movedFrom| == |moved|
    modifies m
    ensures m.historyFile == MoveEach(old(m.historyFile), movedFrom, moved)
    ensures unchanged(m`importedAssetPaths, m`preExistingAssetPaths, m`isImportingPackage)
  {
    for i := 0 to |moved|
      invariant m.historyFile == MoveEach(old(m.historyFile), movedFrom[..i], moved[..i])
      invariant unchanged(m`importedAssetPaths, m`preExistingAssetPaths, m`isImportingPackage)
    {
      m.UpdateAssetPathInJson(movedFrom[i], moved[i]);
      assert movedFrom[..i + 1][..i] == movedFrom[..i];
      assert moved[..i + 1][..i] == moved[..i];
    }
    assert movedFrom[..|movedFrom|] == movedFrom && moved[..|moved|] == moved;
  }

  /** Deleting a batch of paths leaves none of them in the history. */
  lemma {:induction false} RemoveEachClears(f: HistoryFile, paths: seq<string>, k: int)
    requires 0 <= k < |paths| && paths[k] != []
    ensures !HasEntry(LoadOrCreateImportHistory(RemoveEach(f, paths)), paths[k])
  {
    var init := paths[..|paths| - 1];
    var last := paths[|paths| - 1];
    if k == |paths| - 1 {
      var before := RemoveEach(f, init);
      AfterRemoveSpec(before, last);
    } else {
      assert paths[k] == init[k];
      RemoveEachClears(f, init, k);
      AfterRemoveKeepsAbsent(RemoveEach(f, init), last, paths[k]);
    }
  }

  /** A removal never brings back an entry that was not there. */
  lemma AfterRemoveKeepsAbsent(f: HistoryFile, p: string, q: string)
    requires !HasEntry(LoadOrCreateImportHistory(f), q)
    ensures !HasEntry(LoadOrCreateImportHistory(AfterRemove(f, p)), q)
  {
    AfterRemoveSpec(f, p);
    var files := LoadOrCreateImportHistory(f);
    if p != [] && HasEntry(files, p) {
      var r := LoadOrCreateImportHistory(AfterRemove(f, p));
      forall i | 0 <= i < |r| ensures r[i].filePath != q {
        assert r[i] in r;
      }
    }
  }
}
