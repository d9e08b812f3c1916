/** The asset registry: lookup, add and update by uid, the automatic
    registration of package and zip files found in the assets folder, and
    the naming rule of zip extraction.

    The registry file is the field `dataFile` of a `Registry` object; every
    operation reads it whole and, when it saves, replaces it whole. The
    filesystem is given as a predicate on absolute paths (`fileExists`) and
    as the directory listings; a GUID, the package picker's answer and the
    outcome of extraction are oracle values carried by each listed file. */
module AssetDataController {
  import opened Wrappers
  import opened JsonSchema
  import Seqs
  import Strings

  /** The registry file: either it cannot be read or parsed, or it holds a document. */
  datatype DataFile = Unreadable | Parsed(data: AssetDataList)

  /** `GetAllAssetData`: the stored list, or the empty list when reading fails. */
  function AllAssets(f: DataFile): seq<AssetRecord> {
    match f
    case Unreadable => []
    case Parsed(d) => d.assetList
  }

  // ---------------------------------------------------------------- lookup

  /** `FindIndex(asset => asset.uid == uid)`. */
  function FindIndex(assets: seq<AssetRecord>, uid: string): (r: int)
    ensures -1 <= r < |assets|
    ensures r == -1 <==> forall i :: 0 <= i < |assets| ==> assets[i].uid != uid
    ensures r >= 0 ==> assets[r].uid == uid && forall j :: 0 <= j < r ==> assets[j].uid != uid
  {
    if assets == [] then -1
    else if assets[0].uid == uid then 0
    else
      var k := FindIndex(assets[1..], uid);
      if k == -1 then -1 else k + 1
  }

  /** `FindAll(asset => asset.uid == uid).Count`. */
  function CountUid(assets: seq<AssetRecord>, uid: string): nat {
    if assets == [] then 0
    else (if assets[0].uid == uid then 1 else 0) + CountUid(assets[1..], uid)
  }

  /** `i` is the only index holding `uid`. */
  predicate OnlyMatchAt(assets: seq<AssetRecord>, uid: string, i: int) {
    0 <= i < |assets| && assets[i].uid == uid
    && forall j :: 0 <= j < |assets| && j != i ==> assets[j].uid != uid
  }

  lemma {:induction false} CountZeroIffAbsent(assets: seq<AssetRecord>, uid: string)
    ensures CountUid(assets, uid) == 0 <==> forall i :: 0 <= i < |assets| ==> assets[i].uid != uid
  {
    if assets != [] {
      CountZeroIffAbsent(assets[1..], uid);
      assert forall i :: 1 <= i < |assets| ==> assets[i] == assets[1..][i - 1];
    }
  }

  lemma {:induction false} CountOneIffOnlyMatch(assets: seq<AssetRecord>, uid: string)
    ensures CountUid(assets, uid) == 1 <==> exists i :: OnlyMatchAt(assets, uid, i)
  {
    if assets != [] {
      var tail := assets[1..];
      assert forall i :: 1 <= i < |assets| ==> assets[i] == tail[i - 1];
      CountOneIffOnlyMatch(tail, uid);
      if assets[0].uid == uid {
        CountZeroIffAbsent(tail, uid);
        if CountUid(assets, uid) == 1 {
          assert OnlyMatchAt(assets, uid, 0);
        }
        if exists i :: OnlyMatchAt(assets, uid, i) {
          var i :| OnlyMatchAt(assets, uid, i);
          assert i == 0;
        }
      } else {
        if CountUid(assets, uid) == 1 {
          var i :| OnlyMatchAt(tail, uid, i);
          assert OnlyMatchAt(assets, uid, i + 1);
        }
        if exists i :: OnlyMatchAt(assets, uid, i) {
          var i :| OnlyMatchAt(assets, uid, i);
          assert OnlyMatchAt(tail, uid, i - 1);
        }
      }
    }
  }

  /** `GetAssetData`: the record with this uid, which fails closed. It is none
      when no record or more than one record has the uid, and otherwise the one
      record that does. */
  function GetAssetData(assets: seq<AssetRecord>, uid: string): (r: Option<AssetRecord>)
    ensures r.Some? <==> CountUid(assets, uid) == 1
    ensures r.Some? ==> r.value.uid == uid && r.value in assets
    ensures r.Some? ==> forall i :: 0 <= i < |assets| && assets[i].uid == uid ==> assets[i] == r.value
  {
    CountZeroIffAbsent(assets, uid);
    CountOneIffOnlyMatch(assets, uid);
    var k := FindIndex(assets, uid);
    if k == -1 then None
    else if CountUid(assets, uid) <= 1 then Some(assets[k])
    else None
  }

  /** No two records share a uid. */
  predicate UniqueUids(assets: seq<AssetRecord>) {
    forall i, j :: 0 <= i < j < |assets| ==> assets[i].uid != assets[j].uid
  }

  /** In a registry with unique uids, every stored uid resolves to its record. */
  lemma UniqueUidsResolve(assets: seq<AssetRecord>, i: int)
    requires UniqueUids(assets)
    requires 0 <= i < |assets|
    ensures GetAssetData(assets, assets[i].uid) == Some(assets[i])
  {
    CountOneIffOnlyMatch(assets, assets[i].uid);
    assert OnlyMatchAt(assets, assets[i].uid, i);
  }

  // ------------------------------------------------------- add and update

  /** The list `AddAssetData` saves, or the unchanged list when it declines. */
  function AddAsset(assets: seq<AssetRecord>, rec: AssetRecord): seq<AssetRecord> {
    if FindIndex(assets, rec.uid) != -1 then assets else assets + [rec]
  }

  /** A uid already present is rejected; a new one is appended at the end and
      then resolves to the added record, while every other uid resolves as
      before. */
  lemma AddAssetSpec(assets: seq<AssetRecord>, rec: AssetRecord)
    ensures (exists i :: 0 <= i < |assets| && assets[i].uid == rec.uid) ==> AddAsset(assets, rec) == assets
    ensures (forall i :: 0 <= i < |assets| ==> assets[i].uid != rec.uid) ==>
              AddAsset(assets, rec) == assets + [rec] && GetAssetData(AddAsset(assets, rec), rec.uid) == Some(rec)
    ensures forall u :: u != rec.uid ==> GetAssetData(AddAsset(assets, rec), u) == GetAssetData(assets, u)
  {
    var r := AddAsset(assets, rec);
    if FindIndex(assets, rec.uid) == -1 {
      assert r[|assets|] == rec;
      CountOneIffOnlyMatch(r, rec.uid);
      assert OnlyMatchAt(r, rec.uid, |assets|);
      forall u | u != rec.uid
        ensures GetAssetData(r, u) == GetAssetData(assets, u)
      {
        CountAppendOther(assets, rec, u);
        FindIndexAppendOther(assets, rec, u);
      }
    }
  }

  lemma {:induction false} CountAppendOther(assets: seq<AssetRecord>, rec: AssetRecord, u: string)
    requires u != rec.uid
    ensures CountUid(assets + [rec], u) == CountUid(assets, u)
  {
    if assets == [] {
      assert [rec][1..] == [];
    } else {
      assert (assets + [rec])[1..] == assets[1..] + [rec];
      CountAppendOther(assets[1..], rec, u);
    }
  }

  lemma FindIndexAppendOther(assets: seq<AssetRecord>, rec: AssetRecord, u: string)
    requires u != rec.uid
    ensures FindIndex(assets + [rec], u) == FindIndex(assets, u)
  {
    var r := assets + [rec];
    var k := FindIndex(r, u);
    var k0 := FindIndex(assets, u);
    assert forall i :: 0 <= i < |assets| ==> r[i] == assets[i];
    if k0 == -1 {
      assert k == -1;
    } else {
      assert k == k0;
    }
  }

  /** A uid-unique registry stays unique under `AddAssetData`. */
  lemma AddAssetPreservesUnique(assets: seq<AssetRecord>, rec: AssetRecord)
    requires UniqueUids(assets)
    ensures UniqueUids(AddAsset(assets, rec))
  {
  }

  /** The list `UpdateAssetData` saves, or the unchanged list when the uid is missing. */
  function UpdateAsset(assets: seq<AssetRecord>, uid: string, rec: AssetRecord): (r: seq<AssetRecord>)
    ensures |r| == |assets|
  {
    var k := FindIndex(assets, uid);
    if k == -1 then assets else assets[k := rec]
  }

  /** Index `i` is the first one holding `uid`. */
  predicate FirstMatchAt(assets: seq<AssetRecord>, uid: string, i: int) {
    0 <= i < |assets| && assets[i].uid == uid && forall j :: 0 <= j < i ==> assets[j].uid != uid
  }

  /** `UpdateAssetData` replaces exactly the first record holding the uid and
      keeps every other entry; a missing uid changes nothing. */
  lemma UpdateAssetSpec(assets: seq<AssetRecord>, uid: string, rec: AssetRecord)
    ensures forall i :: 0 <= i < |assets| ==>
              UpdateAsset(assets, uid, rec)[i] == (if FirstMatchAt(assets, uid, i) then rec else assets[i])
    ensures (forall i :: 0 <= i < |assets| ==> assets[i].uid != uid) ==> UpdateAsset(assets, uid, rec) == assets
  {
  }

  /** Replacing a record of a uid-unique registry by one with the same uid keeps
      the registry unique, and the uid then resolves to the new record. */
  lemma UpdateAssetResolves(assets: seq<AssetRecord>, uid: string, rec: AssetRecord)
    requires UniqueUids(assets)
    requires rec.uid == uid
    requires exists i :: 0 <= i < |assets| && assets[i].uid == uid
    ensures UniqueUids(UpdateAsset(assets, uid, rec))
    ensures GetAssetData(UpdateAsset(assets, uid, rec), uid) == Some(rec)
  {
    var k := FindIndex(assets, uid);
    var r := UpdateAsset(assets, uid, rec);
    assert r == assets[k := rec];
    assert UniqueUids(r);
    UniqueUidsResolve(r, k);
  }

  // ------------------------------------------------------------------ unzip

  /** A zip archive as `ZipFile.OpenRead` sees it: not openable, or the names
      of its entries. */
  datatype Archive = Unopenable | Entries(names: seq<string>)

  const PackageExtension: string := ".unitypackage"

  /** The entries kept by `UnzipFile`: those whose name ends in `.unitypackage`. */
  function PackageEntries(names: seq<string>): seq<string> {
    Seqs.Filter(names, n => Strings.EndsWith(n, PackageExtension))
  }

  /** The stored path of an extracted entry: the file goes to the unzip folder,
      with every `.unitypackage` in its name replaced by `_<guid>.unitypackage`,
      and the path is stored relative to the root as `Unzip/...`. */
  function ExtractedPath(entryName: string, guid: string): string {
    "Unzip/" + Strings.ReplaceAll(entryName, PackageExtension, "_" + guid + PackageExtension)
  }

  /** `UnzipFile`. The package picker is consulted when there is more than one
      package or the caller forces it, and `choice` is its answer. `freshGuid`
      is used when no uid is given, and `extracted` is the outcome of writing
      the file. Every failure (unopenable archive, no package, an index out of
      range, an extraction error) is a null result. */
  function UnzipFile(archive: Archive, uid: Option<string>, forceDialog: bool, choice: int,
                     freshGuid: string, extracted: bool): (r: Option<string>)
    ensures archive.Entries? && PackageEntries(archive.names) == [] ==> r == None
    ensures r.Some? ==> archive.Entries? && exists e :: e in archive.names && Strings.EndsWith(e, PackageExtension)
                                                && r.value == ExtractedPath(e, uid.GetOr(freshGuid))
    ensures archive.Entries? && |PackageEntries(archive.names)| == 1 && !forceDialog && extracted ==>
              r == Some(ExtractedPath(PackageEntries(archive.names)[0], uid.GetOr(freshGuid)))
  {
    match archive
    case Unopenable => None
    case Entries(names) =>
      var packages := PackageEntries(names);
      Seqs.FilterAllSatisfy(names, n => Strings.EndsWith(n, PackageExtension));
      if |packages| == 0 then None
      else
        var target := if |packages| > 1 || forceDialog then choice else 0;
        if !(0 <= target < |packages|) then None
        else if !extracted then None
        else
          Seqs.FilterMembership(names, n => Strings.EndsWith(n, PackageExtension), packages[target]);
          Some(ExtractedPath(packages[target], uid.GetOr(freshGuid)))
  }

  /** The naming rule: an entry `<base>.unitypackage`, with no other occurrence of
      the extension, is extracted as `Unzip/<base>_<guid>.unitypackage`. */
  lemma ExtractedPathInsertsGuid(base: string, guid: string)
    requires forall i :: 0 <= i < |base| ==> !(PackageExtension <= (base + PackageExtension)[i..])
    ensures ExtractedPath(base + PackageExtension, guid) == "Unzip/" + base + "_" + guid + PackageExtension
  {
    Strings.ReplaceOnlySuffix(base, PackageExtension, "_" + guid + PackageExtension);
  }

  // ------------------------------------------------------- auto-registration

  /** A `.unitypackage` file of the assets folder, with the GUID that would be
      generated for it. */
  datatype PackageFile = PackageFile(path: string, newGuid: string)

  /** A `.zip` file of the assets folder, with the GUID generated for it, its
      archive, the picker's answer and the outcome of extraction. */
  datatype ZipFile = ZipFile(path: string, newGuid: string, archive: Archive, choice: int, extracts: bool)

  /** The path relative to the root: `path.Replace(RootDirPath, "")` for a path
      under the root. */
  function RelativePath(root: string, path: string): (r: string)
    ensures root <= path ==> root + r == path
  {
    if root <= path then path[|root|..] else path
  }

  /** `Find(asset => asset.sourceFilePath == rel) != null`. */
  predicate HasSource(assets: seq<AssetRecord>, rel: string) {
    exists i :: 0 <= i < |assets| && assets[i].sourceFilePath == rel
  }

  /** The record auto-registration creates. */
  function NewRecord(uid: string, name: string, filePath: string, sourceFilePath: string): AssetRecord {
    AssetRecord(uid, name, filePath, sourceFilePath, "", "", "", true, [], [], [], Unregistered)
  }

  /** The record of an unreferenced package file. */
  function PackageRecord(root: string, f: PackageFile): (r: AssetRecord)
    ensures r.uid == f.newGuid && r.isLatest && r.assetType == Unregistered
    ensures r.supportAvatar == [] && r.dependencies == [] && r.oldVersions == []
    ensures r.filePath == r.sourceFilePath == RelativePath(root, f.path)
  {
    var rel := RelativePath(root, f.path);
    NewRecord(f.newGuid, Strings.FileNameWithoutExtension(f.path), rel, rel)
  }

  /** The record of an unreferenced zip file, when its extraction succeeds. */
  function ZipRecord(root: string, z: ZipFile): (r: Option<AssetRecord>)
    ensures r.Some? <==> UnzipFile(z.archive, Some(z.newGuid), false, z.choice, z.newGuid, z.extracts).Some?
    ensures r.Some? ==> r.value.filePath == UnzipFile(z.archive, Some(z.newGuid), false, z.choice, z.newGuid, z.extracts).value
    ensures r.Some? ==> r.value.sourceFilePath == RelativePath(root, z.path) && r.value.uid == z.newGuid
    ensures r.Some? ==> r.value.isLatest && r.value.assetType == Unregistered
    ensures r.Some? ==> r.value.supportAvatar == [] && r.value.dependencies == [] && r.value.oldVersions == []
  {
    match UnzipFile(z.archive, Some(z.newGuid), false, z.choice, z.newGuid, z.extracts)
    case None => None
    case Some(p) => Some(NewRecord(z.newGuid, Strings.FileNameWithoutExtension(z.path), p, RelativePath(root, z.path)))
  }

  /** The sweep's test: `File.Exists(RootDirPath + "/" + sourceFilePath)`. */
  function SourceExists(root: string, fileExists: string -> bool): AssetRecord -> bool {
    (a: AssetRecord) => fileExists(root + "/" + a.sourceFilePath)
  }

  /** The sweep keeps the records whose source file exists. The source tests
      the same path twice, which is one test. */
  function Sweep(assets: seq<AssetRecord>, root: string, fileExists: string -> bool): seq<AssetRecord> {
    Seqs.Filter(assets, SourceExists(root, fileExists))
  }

  /** One step of the package loop: register the file unless its relative path
      is referenced. */
  function PackageStep(prev: seq<AssetRecord>, root: string, f: PackageFile): seq<AssetRecord> {
    if HasSource(prev, RelativePath(root, f.path)) then prev else prev + [PackageRecord(root, f)]
  }

  /** One step of the zip loop: register the zip unless its relative path is
      referenced or its extraction fails. */
  function ZipStep(prev: seq<AssetRecord>, root: string, z: ZipFile): seq<AssetRecord> {
    if HasSource(prev, RelativePath(root, z.path)) then prev
    else match ZipRecord(root, z)
      case None => prev
      case Some(rec) => prev + [rec]
  }

  /** The first loop over package files, as the list after its first `|files|` steps. */
  function RegisterPackages(assets: seq<AssetRecord>, root: string, files: seq<PackageFile>): seq<AssetRecord>
    decreases |files|
  {
    if files == [] then assets
    else PackageStep(RegisterPackages(assets, root, files[..|files| - 1]), root, files[|files| - 1])
  }

  /** The second loop over zip files. */
  function RegisterZips(assets: seq<AssetRecord>, root: string, zips: seq<ZipFile>): seq<AssetRecord>
    decreases |zips|
  {
    if zips == [] then assets
    else ZipStep(RegisterZips(assets, root, zips[..|zips| - 1]), root, zips[|zips| - 1])
  }

  /** The list `AutoRegisterAssetData` saves. */
  function AutoRegistered(assets: seq<AssetRecord>, root: string, fileExists: string -> bool,
                          packages: seq<PackageFile>, zips: seq<ZipFile>): seq<AssetRecord> {
    RegisterZips(RegisterPackages(Sweep(assets, root, fileExists), root, packages), root, zips)
  }

  /** The sweep removes exactly the records whose file is missing and keeps the
      survivors in their order. */
  lemma SweepSpec(assets: seq<AssetRecord>, root: string, fileExists: string -> bool)
    ensures forall a :: a in Sweep(assets, root, fileExists) <==> a in assets && fileExists(root + "/" + a.sourceFilePath)
    ensures Seqs.IsSubsequence(Sweep(assets, root, fileExists), assets)
  {
    forall a ensures a in Sweep(assets, root, fileExists) <==> a in assets && fileExists(root + "/" + a.sourceFilePath) {
      Seqs.FilterMembership(assets, SourceExists(root, fileExists), a);
    }
    Seqs.FilterIsSubsequence(assets, SourceExists(root, fileExists));
  }

  /** `rec` is the record of one of the package files. */
  predicate FromPackage(root: string, files: seq<PackageFile>, rec: AssetRecord) {
    exists f :: f in files && PackageRecord(root, f) == rec
  }

  /** `rec` is the record of one of the zips, which extracted. */
  predicate FromZip(root: string, zips: seq<ZipFile>, rec: AssetRecord) {
    exists z :: z in zips && ZipRecord(root, z) == Some(rec)
  }

  /** No record from index `start` on repeats the source path of an earlier one. */
  predicate FreshSourcesFrom(r: seq<AssetRecord>, start: int) {
    forall i, j :: 0 <= j < i < |r| && start <= i ==> r[j].sourceFilePath != r[i].sourceFilePath
  }

  /** `r` is `assets` followed by package records with new source paths. */
  predicate PackagesAppended(assets: seq<AssetRecord>, r: seq<AssetRecord>, root: string, files: seq<PackageFile>) {
    |assets| <= |r| && r[..|assets|] == assets && FreshSourcesFrom(r, |assets|)
    && forall i :: |assets| <= i < |r| ==> FromPackage(root, files, r[i])
  }

  /** `r` is `assets` followed by zip records with new source paths. */
  predicate ZipsAppended(assets: seq<AssetRecord>, r: seq<AssetRecord>, root: string, zips: seq<ZipFile>) {
    |assets| <= |r| && r[..|assets|] == assets && FreshSourcesFrom(r, |assets|)
    && forall i :: |assets| <= i < |r| ==> FromZip(root, zips, r[i])
  }

  lemma HasSourceExtends(prev: seq<AssetRecord>, r: seq<AssetRecord>, rel: string)
    requires |prev| <= |r| && r[..|prev|] == prev
    requires HasSource(prev, rel)
    ensures HasSource(r, rel)
  {
    var j :| 0 <= j < |prev| && prev[j].sourceFilePath == rel;
    assert r[j] == prev[j];
  }

  /** Appending a record whose source path is new keeps the sources fresh. */
  lemma AppendFreshSource(assets: seq<AssetRecord>, prev: seq<AssetRecord>, rec: AssetRecord)
    requires |assets| <= |prev| && prev[..|assets|] == assets && FreshSourcesFrom(prev, |assets|)
    requires !HasSource(prev, rec.sourceFilePath)
    ensures (prev + [rec])[..|assets|] == assets && FreshSourcesFrom(prev + [rec], |assets|)
  {
    var r := prev + [rec];
    assert r[..|prev|] == prev;
    assert r[..|assets|] == prev[..|assets|];
    forall i, j | 0 <= j < i < |r| && |assets| <= i
      ensures r[j].sourceFilePath != r[i].sourceFilePath
    {
      if i == |prev| {
        assert r[j] == prev[j];
      } else {
        assert r[i] == prev[i] && r[j] == prev[j];
      }
    }
  }

  lemma WidenFromPackage(assets: seq<AssetRecord>, r: seq<AssetRecord>, root: string,
                         init: seq<PackageFile>, files: seq<PackageFile>)
    requires forall g :: g in init ==> g in files
    requires forall i :: |assets| <= i < |r| ==> FromPackage(root, init, r[i])
    ensures forall i :: |assets| <= i < |r| ==> FromPackage(root, files, r[i])
  {
    forall i | |assets| <= i < |r| ensures FromPackage(root, files, r[i]) {
      assert FromPackage(root, init, r[i]);
      var g :| g in init && PackageRecord(root, g) == r[i];
      assert g in files;
    }
  }

  lemma PackageStepAppends(assets: seq<AssetRecord>, prev: seq<AssetRecord>, root: string,
                           init: seq<PackageFile>, f: PackageFile)
    requires PackagesAppended(assets, prev, root, init)
    ensures PackagesAppended(assets, PackageStep(prev, root, f), root, init + [f])
  {
    var files := init + [f];
    var r := PackageStep(prev, root, f);
    assert forall g :: g in init ==> g in files;
    if HasSource(prev, RelativePath(root, f.path)) {
      assert r == prev;
      WidenFromPackage(assets, prev, root, init, files);
    } else {
      var rec := PackageRecord(root, f);
      assert r == prev + [rec];
      assert r[..|assets|] == assets && FreshSourcesFrom(r, |assets|) by {
        AppendFreshSource(assets, prev, rec);
      }
      assert forall i :: |assets| <= i < |r| ==> FromPackage(root, files, r[i]) by {
        WidenFromPackage(assets, prev, root, init, files);
        assert forall i :: |assets| <= i < |prev| ==> r[i] == prev[i];
        assert FromPackage(root, files, r[|prev|]) by {
          assert f in files;
        }
      }
    }
  }

  /** The package loop only appends. Each appended record is the record of a
      listed file whose relative path no earlier record references. */
  lemma {:induction false} RegisterPackagesAppends(assets: seq<AssetRecord>, root: string, files: seq<PackageFile>)
    ensures PackagesAppended(assets, RegisterPackages(assets, root, files), root, files)
    decreases |files|
  {
    if files == [] {
      assert assets[..|assets|] == assets;
    } else {
      var init, f := files[..|files| - 1], files[|files| - 1];
      assert init + [f] == files;
      var prev := RegisterPackages(assets, root, init);
      assert RegisterPackages(assets, root, files) == PackageStep(prev, root, f);
      RegisterPackagesAppends(assets, root, init);
      PackageStepAppends(assets, prev, root, init, f);
    }
  }

  /** A package step keeps the list as a prefix and references the file. */
  lemma PackageStepCovers(prev: seq<AssetRecord>, root: string, f: PackageFile)
    ensures |prev| <= |PackageStep(prev, root, f)| && PackageStep(prev, root, f)[..|prev|] == prev
    ensures HasSource(PackageStep(prev, root, f), RelativePath(root, f.path))
  {
    var r := PackageStep(prev, root, f);
    if !HasSource(prev, RelativePath(root, f.path)) {
      assert r == prev + [PackageRecord(root, f)];
      assert r[|prev|].sourceFilePath == RelativePath(root, f.path);
    }
    assert r[..|prev|] == prev;
  }

  /** After the package loop every listed file is referenced. */
  lemma {:induction false} RegisterPackagesCovers(assets: seq<AssetRecord>, root: string, files: seq<PackageFile>)
    ensures forall f :: f in files ==> HasSource(RegisterPackages(assets, root, files), RelativePath(root, f.path))
    decreases |files|
  {
    if files != [] {
      var init := files[..|files| - 1];
      var prev := RegisterPackages(assets, root, init);
      var f := files[|files| - 1];
      RegisterPackagesCovers(assets, root, init);
      var r := RegisterPackages(assets, root, files);
      PackageStepCovers(prev, root, f);
      assert files == init + [f];
      forall g | g in files ensures HasSource(r, RelativePath(root, g.path)) {
        if g in init {
          HasSourceExtends(prev, r, RelativePath(root, g.path));
        }
      }
    }
  }

  lemma WidenFromZip(assets: seq<AssetRecord>, r: seq<AssetRecord>, root: string,
                     init: seq<ZipFile>, zips: seq<ZipFile>)
    requires forall g :: g in init ==> g in zips
    requires forall i :: |assets| <= i < |r| ==> FromZip(root, init, r[i])
    ensures forall i :: |assets| <= i < |r| ==> FromZip(root, zips, r[i])
  {
    forall i | |assets| <= i < |r| ensures FromZip(root, zips, r[i]) {
      assert FromZip(root, init, r[i]);
      var g :| g in init && ZipRecord(root, g) == Some(r[i]);
      assert g in zips;
    }
  }

  lemma ZipStepAppends(assets: seq<AssetRecord>, prev: seq<AssetRecord>, root: string,
                       init: seq<ZipFile>, z: ZipFile)
    requires ZipsAppended(assets, prev, root, init)
    ensures ZipsAppended(assets, ZipStep(prev, root, z), root, init + [z])
  {
    var zips := init + [z];
    var r := ZipStep(prev, root, z);
    assert forall g :: g in init ==> g in zips;
    if HasSource(prev, RelativePath(root, z.path)) || ZipRecord(root, z).None? {
      assert r == prev;
      WidenFromZip(assets, prev, root, init, zips);
    } else {
      ZipAppendsRecord(assets, prev, root, init, z);
    }
  }

  lemma ZipAppendsRecord(assets: seq<AssetRecord>, prev: seq<AssetRecord>, root: string,
                         init: seq<ZipFile>, z: ZipFile)
    requires ZipsAppended(assets, prev, root, init)
    requires !HasSource(prev, RelativePath(root, z.path)) && ZipRecord(root, z).Some?
    ensures ZipsAppended(assets, prev + [ZipRecord(root, z).value], root, init + [z])
  {
    var zips := init + [z];
    var rec := ZipRecord(root, z).value;
    var r := prev + [rec];
    assert r[..|assets|] == assets && FreshSourcesFrom(r, |assets|) by {
      AppendFreshSource(assets, prev, rec);
    }
    assert forall g :: g in init ==> g in zips;
    WidenFromZip(assets, prev, root, init, zips);
    assert forall i :: |assets| <= i < |prev| ==> r[i] == prev[i];
    assert FromZip(root, zips, r[|prev|]) by {
      assert z in zips;
    }
  }

  /** The zip loop only appends. Each appended record is the record of a listed
      zip whose extraction succeeded and whose relative path no earlier record
      references. */
  lemma {:induction false} RegisterZipsAppends(assets: seq<AssetRecord>, root: string, zips: seq<ZipFile>)
    ensures ZipsAppended(assets, RegisterZips(assets, root, zips), root, zips)
    decreases |zips|
  {
    if zips == [] {
      assert assets[..|assets|] == assets;
    } else {
      var init, z := zips[..|zips| - 1], zips[|zips| - 1];
      assert init + [z] == zips;
      var prev := RegisterZips(assets, root, init);
      assert RegisterZips(assets, root, zips) == ZipStep(prev, root, z);
      RegisterZipsAppends(assets, root, init);
      ZipStepAppends(assets, prev, root, init, z);
    }
  }

  /** A zip step keeps the list as a prefix and references the zip when it extracts. */
  lemma ZipStepCovers(prev: seq<AssetRecord>, root: string, z: ZipFile)
    ensures |prev| <= |ZipStep(prev, root, z)| && ZipStep(prev, root, z)[..|prev|] == prev
    ensures ZipRecord(root, z).Some? ==> HasSource(ZipStep(prev, root, z), RelativePath(root, z.path))
  {
    var r := ZipStep(prev, root, z);
    if !HasSource(prev, RelativePath(root, z.path)) && ZipRecord(root, z).Some? {
      assert r == prev + [ZipRecord(root, z).value];
      assert r[|prev|].sourceFilePath == RelativePath(root, z.path);
    }
    assert r[..|prev|] == prev;
  }

  /** After the zip loop every listed zip that extracts is referenced. */
  lemma {:induction false} RegisterZipsCovers(assets: seq<AssetRecord>, root: string, zips: seq<ZipFile>)
    ensures forall z :: z in zips && ZipRecord(root, z).Some? ==>
              HasSource(RegisterZips(assets, root, zips), RelativePath(root, z.path))
    decreases |zips|
  {
    if zips != [] {
      var init := zips[..|zips| - 1];
      var prev := RegisterZips(assets, root, init);
      var z := zips[|zips| - 1];
      RegisterZipsCovers(assets, root, init);
      var r := RegisterZips(assets, root, zips);
      ZipStepCovers(prev, root, z);
      assert zips == init + [z];
      forall g | g in zips && ZipRecord(root, g).Some? ensures HasSource(r, RelativePath(root, g.path)) {
        if g in init {
          HasSourceExtends(prev, r, RelativePath(root, g.path));
        }
      }
    }
  }

  /** A package loop over files that are all referenced already changes nothing. */
  lemma {:induction false} RegisterPackagesNoop(assets: seq<AssetRecord>, root: string, files: seq<PackageFile>)
    requires forall f :: f in files ==> HasSource(assets, RelativePath(root, f.path))
    ensures RegisterPackages(assets, root, files) == assets
    decreases |files|
  {
    if files != [] {
      assert forall g :: g in files[..|files| - 1] ==> g in files;
      RegisterPackagesNoop(assets, root, files[..|files| - 1]);
    }
  }

  /** A zip loop in which every zip is referenced or fails to extract changes nothing. */
  lemma {:induction false} RegisterZipsNoop(assets: seq<AssetRecord>, root: string, zips: seq<ZipFile>)
    requires forall z :: z in zips ==> HasSource(assets, RelativePath(root, z.path)) || ZipRecord(root, z).None?
    ensures RegisterZips(assets, root, zips) == assets
    decreases |zips|
  {
    if zips != [] {
      assert forall g :: g in zips[..|zips| - 1] ==> g in zips;
      RegisterZipsNoop(assets, root, zips[..|zips| - 1]);
    }
  }

  /** Every record of a registration run has a source file that exists, when
      the listed files do. */
  lemma AutoRegisteredBacked(assets: seq<AssetRecord>, root: string, fileExists: string -> bool,
                             packages: seq<PackageFile>, zips: seq<ZipFile>)
    requires forall f :: f in packages ==> fileExists(root + "/" + RelativePath(root, f.path))
    requires forall z :: z in zips ==> fileExists(root + "/" + RelativePath(root, z.path))
    ensures var once := AutoRegistered(assets, root, fileExists, packages, zips);
            forall i :: 0 <= i < |once| ==> SourceExists(root, fileExists)(once[i])
  {
    var swept := Sweep(assets, root, fileExists);
    var afterPackages := RegisterPackages(swept, root, packages);
    var once := RegisterZips(afterPackages, root, zips);
    Seqs.FilterAllSatisfy(assets, SourceExists(root, fileExists));
    RegisterPackagesAppends(swept, root, packages);
    RegisterZipsAppends(afterPackages, root, zips);
    forall i | 0 <= i < |once| ensures SourceExists(root, fileExists)(once[i]) {
      if i < |afterPackages| {
        assert once[i] == afterPackages[i];
        if i < |swept| {
          assert afterPackages[i] == swept[i];
        } else {
          assert FromPackage(root, packages, afterPackages[i]);
          var f :| f in packages && PackageRecord(root, f) == afterPackages[i];
        }
      } else {
        assert FromZip(root, zips, once[i]);
        var z :| z in zips && ZipRecord(root, z) == Some(once[i]);
      }
    }
  }

  /** Running auto-registration a second time, on a filesystem where the files
      listed by the first run still exist, removes nothing and adds nothing. The
      second run may list fewer package files and may draw other GUIDs for
      them. Each of its zips lies at the path of a zip of the first run and
      may draw another GUID; a zip that the first run did not register must
      fail to extract again. */
  lemma AutoRegisterIdempotent(assets: seq<AssetRecord>, root: string, fileExists: string -> bool,
                               packages: seq<PackageFile>, zips: seq<ZipFile>,
                               packages2: seq<PackageFile>, zips2: seq<ZipFile>)
    requires forall f :: f in packages ==> fileExists(root + "/" + RelativePath(root, f.path))
    requires forall z :: z in zips ==> fileExists(root + "/" + RelativePath(root, z.path))
    requires forall f :: f in packages2 ==> exists g :: g in packages && g.path == f.path
    requires forall z :: z in zips2 ==>
               exists y :: y in zips && y.path == z.path && (ZipRecord(root, y).Some? || ZipRecord(root, z).None?)
    ensures var once := AutoRegistered(assets, root, fileExists, packages, zips);
            AutoRegistered(once, root, fileExists, packages2, zips2) == once
  {
    var swept := Sweep(assets, root, fileExists);
    var afterPackages := RegisterPackages(swept, root, packages);
    var once := RegisterZips(afterPackages, root, zips);
    AutoRegisteredBacked(assets, root, fileExists, packages, zips);
    assert once == AutoRegistered(assets, root, fileExists, packages, zips);
    Seqs.FilterAllPass(once, SourceExists(root, fileExists));
    assert Sweep(once, root, fileExists) == once;
    RegisterPackagesCovers(swept, root, packages);
    RegisterZipsAppends(afterPackages, root, zips);
    RegisterZipsCovers(afterPackages, root, zips);
    forall f | f in packages2 ensures HasSource(once, RelativePath(root, f.path)) {
      var g :| g in packages && g.path == f.path;
      HasSourceExtends(afterPackages, once, RelativePath(root, g.path));
    }
    RegisterPackagesNoop(once, root, packages2);
    forall z | z in zips2 ensures HasSource(once, RelativePath(root, z.path)) || ZipRecord(root, z).None? {
      var y :| y in zips && y.path == z.path && (ZipRecord(root, y).Some? || ZipRecord(root, z).None?);
    }
    RegisterZipsNoop(once, root, zips2);
  }

  // --------------------------------------------------------------- registry

  /** The package loop of `AutoRegisterAssetData`: each package file whose
      relative path no record has as its source is registered. */
  method RegisterPackageFiles(assets: seq<AssetRecord>, root: string, packages: seq<PackageFile>)
      returns (assetList: seq<AssetRecord>)
    ensures assetList == RegisterPackages(assets, root, packages)
  {
    assetList := assets;
    for i := 0 to |packages|
      invariant assetList == RegisterPackages(assets, root, packages[..i])
    {
      var f := packages[i];
      var rel := RelativePath(root, f.path);
      if !HasSource(assetList, rel) {
        var assetData := NewRecord(f.newGuid, Strings.FileNameWithoutExtension(f.path), rel, rel);
        assetList := assetList + [assetData];
      }
      assert packages[..i + 1][..i] == packages[..i];
    }
    assert packages[..|packages|] == packages;
  }

  /** The zip loop of `AutoRegisterAssetData`: each zip file whose relative
      path no record has as its source is extracted under a new uid and, when
      that yields a package, registered. */
  method RegisterZipFiles(assets: seq<AssetRecord>, root: string, zips: seq<ZipFile>)
      returns (assetList: seq<AssetRecord>)
    ensures assetList == RegisterZips(assets, root, zips)
  {
    assetList := assets;
    for i := 0 to |zips|
      invariant assetList == RegisterZips(assets, root, zips[..i])
    {
      var z := zips[i];
      var rel := RelativePath(root, z.path);
      if !HasSource(assetList, rel) {
        var newUid := z.newGuid;
        var unzipFilePath := UnzipFile(z.archive, Some(newUid), false, z.choice, newUid, z.extracts);
        if unzipFilePath.Some? {
          var assetData := NewRecord(newUid, Strings.FileNameWithoutExtension(z.path), unzipFilePath.value, rel);
          assetList := assetList + [assetData];
        }
      }
      assert zips[..i + 1][..i] == zips[..i];
    }
    assert zips[..|zips|] == zips;
  }

  /** The registry file and the operations that read and write it. */
  class Registry {
    var dataFile: DataFile

    constructor (f: DataFile)
      ensures dataFile == f
    {
      dataFile := f;
    }

    /** `GetAllAssetData`. */
    function Assets(): seq<AssetRecord>
      reads this
    {
      AllAssets(dataFile)
    }

    /** `SaveAssetDataList`: the file now holds exactly this list. */
    method SaveAssetDataList(list: seq<AssetRecord>)
      modifies this
      ensures dataFile == Parsed(AssetDataList(list))
    {
      dataFile := Parsed(AssetDataList(list));
    }

    /** `AddAssetData`: a duplicate uid is refused without saving; otherwise the
        record is appended and the list saved. */
    method AddAssetData(rec: AssetRecord)
      modifies this
      ensures FindIndex(old(Assets()), rec.uid) != -1 ==> dataFile == old(dataFile)
      ensures FindIndex(old(Assets()), rec.uid) == -1 ==> dataFile == Parsed(AssetDataList(old(Assets()) + [rec]))
      ensures Assets() == AddAsset(old(Assets()), rec)
    {
      var assetList := Assets();
      if FindIndex(assetList, rec.uid) != -1 {
        return;
      }
      assetList := assetList + [rec];
      SaveAssetDataList(assetList);
    }

    /** `UpdateAssetData`: the first record with the uid is replaced and the list
        saved; a missing uid leaves the file untouched. */
    method UpdateAssetData(uid: string, rec: AssetRecord)
      modifies this
      ensures FindIndex(old(Assets()), uid) == -1 ==> dataFile == old(dataFile)
      ensures FindIndex(old(Assets()), uid) != -1 ==>
                dataFile == Parsed(AssetDataList(old(Assets())[FindIndex(old(Assets()), uid) := rec]))
      ensures Assets() == UpdateAsset(old(Assets()), uid, rec)
    {
      var assetList := Assets();
      var index := FindIndex(assetList, uid);
      if index != -1 {
        assetList := assetList[index := rec];
      } else {
        return;
      }
      SaveAssetDataList(assetList);
    }

    /** `UpdateUnityPackage`: the record's source zip is extracted again, with
        the picker forced and the record's own uid in the file name, and the
        stored record's `filePath` becomes the result (empty when extraction
        fails). When the uid does not resolve the source dereferences null; here
        nothing changes. */
    method UpdateUnityPackage(rec: AssetRecord, archive: Archive, choice: int, extracted: bool)
      modifies this
      ensures var unzipped := UnzipFile(archive, Some(rec.uid), true, choice, rec.uid, extracted);
              match GetAssetData(old(Assets()), rec.uid)
              case None => dataFile == old(dataFile)
              case Some(cur) => Assets() == UpdateAsset(old(Assets()), rec.uid, cur.(filePath := unzipped.GetOr("")))
    {
      var unzipFilePath := UnzipFile(archive, Some(rec.uid), true, choice, rec.uid, extracted);
      var newAssetData := GetAssetData(Assets(), rec.uid);
      if newAssetData.None? {
        return;
      }
      var updated := newAssetData.value.(filePath := unzipFilePath.GetOr(""));
      UpdateAssetData(rec.uid, updated);
    }

    /** `AutoRegisterAssetData`: sweep, then the package loop, then the zip loop,
        then one save. */
    method AutoRegisterAssetData(root: string, fileExists: string -> bool,
                                 packages: seq<PackageFile>, zips: seq<ZipFile>)
      modifies this
      ensures dataFile == Parsed(AssetDataList(AutoRegistered(old(Assets()), root, fileExists, packages, zips)))
    {
      var assetList := Sweep(Assets(), root, fileExists);
      assetList := RegisterPackageFiles(assetList, root, packages);
      assetList := RegisterZipFiles(assetList, root, zips);
      SaveAssetDataList(assetList);
    }
  }

  /** After `UpdateUnityPackage` on a resolving record of a uid-unique registry,
      the uid resolves to the stored record with the new `filePath`. */
  lemma UpdateUnityPackageResolves(assets: seq<AssetRecord>, cur: AssetRecord, newPath: string)
    requires UniqueUids(assets)
    requires GetAssetData(assets, cur.uid) == Some(cur)
    ensures GetAssetData(UpdateAsset(assets, cur.uid, cur.(filePath := newPath)), cur.uid) == Some(cur.(filePath := newPath))
  {
    UpdateAssetResolves(assets, cur.uid, cur.(filePath := newPath));
  }
}
