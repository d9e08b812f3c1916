/** The save-as-modified-avatar window.

    - The preview moves every object of the selected hierarchy to layer 30
      and remembers each object's previous layer; closing the window puts
      them back.
    - The edited record is filled in and registered on `Save`.
    - Before export, the dependencies whose file changed since import (the
      hash differs from the first import-history entry for that path) are
      selected for copying; the exported files are the dependencies under
      `Assets/<name>`; afterwards references into `Assets/_Modify/` are
      pointed back at the imported file of the same name.

    Scene objects are `GameObject`s; a destroyed object, which Unity compares
    equal to null, has `destroyed` set. An object reference held by a
    component is its asset path (`None` for a null reference). */
module SaveAsModifiedAvatar {
  import opened Wrappers
  import opened JsonSchema
  import opened AssetDataController
  import opened EditCallbacks
  import MonitorImport
  import Seqs
  import Strings

  type FileHashInfo = MonitorImport.FileHashInfo

  /** The layer the preview camera renders. */
  const PreviewLayer: int := 30

  class GameObject {
    var layer: int
    const destroyed: bool

    constructor (layer: int, destroyed: bool)
      ensures this.layer == layer && this.destroyed == destroyed
    {
      this.layer := layer;
      this.destroyed := destroyed;
    }
  }

  /** A scene object that is there and not destroyed. */
  predicate Live(g: GameObject?) {
    g != null && !g.destroyed
  }

  /** The layer `RestoreOriginalLayers` leaves on `g`. */
  function RestoredLayer(saved: map<GameObject, int>, g: GameObject, current: int): int {
    if g in saved && !g.destroyed then saved[g] else current
  }

  // ------------------------------------------------------------- queries

  /** `List.Find`: the first element satisfying `p`. */
  function FindFirst<T>(s: seq<T>, p: T -> bool): (r: Option<T>)
    ensures r.None? <==> forall i :: 0 <= i < |s| ==> !p(s[i])
    ensures r.Some? ==> exists i :: 0 <= i < |s| && s[i] == r.value && p(s[i])
                                    && forall j :: 0 <= j < i ==> !p(s[j])
  {
    if s == [] then None
    else if p(s[0]) then Some(s[0])
    else
      var r := FindFirst(s[1..], p);
      assert forall i :: 1 <= i < |s| ==> s[i] == s[1..][i - 1];
      r
  }

  function AtPath(path: string): FileHashInfo -> bool {
    (f: FileHashInfo) => f.filePath == path
  }

  /** `HashCheck`'s test for one dependency: it has a history entry (the first
      with its path) and its current hash differs from that entry's. */
  predicate Changed(files: seq<FileHashInfo>, digest: string -> Option<string>, dependency: string) {
    match FindFirst(files, AtPath(dependency))
    case None => false
    case Some(entry) => entry.fileHash != MonitorImport.CalculateFileHash(digest, dependency)
  }

  function ChangedIn(files: seq<FileHashInfo>, digest: string -> Option<string>): string -> bool {
    d => Changed(files, digest, d)
  }

  /** `HashCheck` reads import_history.json for each dependency without first
      testing that it exists, then reads its `files` list. With at least one
      dependency, a missing file, unparsable JSON or a history without a list
      throws before anything is moved or exported. */
  predicate HashCheckThrows(history: MonitorImport.HistoryFile, dependencies: seq<string>) {
    dependencies != [] && !(history.Stored? && history.files.Some?)
  }

  /** A project where no package import has completed yet has no history
      file, so no avatar with dependencies can be saved; a stored history with
      a list never blocks the save. */
  lemma HashCheckThrowsSpec(dependencies: seq<string>, files: seq<FileHashInfo>)
    ensures HashCheckThrows(MonitorImport.Missing, dependencies) <==> dependencies != []
    ensures HashCheckThrows(MonitorImport.Unparsable, dependencies) <==> dependencies != []
    ensures !HashCheckThrows(MonitorImport.Stored(Some(files)), dependencies)
  {
  }

  /** The dependencies `HashCheck` copies into `Assets/_Modify/System`, in order. */
  function HashCheckSelection(dependencies: seq<string>, files: seq<FileHashInfo>,
                              digest: string -> Option<string>): seq<string>
  {
    Seqs.Filter(dependencies, ChangedIn(files, digest))
  }

  /** A dependency is selected iff it is listed and the first history entry
      with its path records a different hash. One without an entry never is. */
  lemma HashCheckSelectionSpec(dependencies: seq<string>, files: seq<FileHashInfo>,
                               digest: string -> Option<string>, d: string)
    ensures d in HashCheckSelection(dependencies, files, digest) <==>
              d in dependencies
              && exists i :: 0 <= i < |files| && files[i].filePath == d
                             && (forall j :: 0 <= j < i ==> files[j].filePath != d)
                             && files[i].fileHash != MonitorImport.CalculateFileHash(digest, d)
    ensures (forall i :: 0 <= i < |files| ==> files[i].filePath != d) ==>
              d !in HashCheckSelection(dependencies, files, digest)
  {
    Seqs.FilterMembership(dependencies, ChangedIn(files, digest), d);
    var found := FindFirst(files, AtPath(d));
    if found.Some? {
      var i :| 0 <= i < |files| && files[i] == found.value && AtPath(d)(files[i])
               && forall j :: 0 <= j < i ==> !AtPath(d)(files[j]);
      assert files[i].filePath == d;
      assert forall j :: 0 <= j < i ==> files[j].filePath != d by {
        forall j | 0 <= j < i ensures files[j].filePath != d {
          assert !AtPath(d)(files[j]);
        }
      }
    } else {
      assert forall i :: 0 <= i < |files| ==> files[i].filePath != d by {
        forall i | 0 <= i < |files| ensures files[i].filePath != d {
          assert !AtPath(d)(files[i]);
        }
      }
    }
  }

  function UnderFolder(prefix: string): string -> bool {
    d => Strings.StartsWith(d, prefix)
  }

  /** The files `ExportUnityPackage` exports: the dependencies whose path
      starts with `Assets/<packageName>`. */
  function ExportSet(dependencies: seq<string>, packageName: string): seq<string> {
    Seqs.Filter(dependencies, UnderFolder("Assets/" + packageName))
  }

  /** A file is exported iff it is a dependency under `Assets/<packageName>`,
      and the exported files keep the dependencies' order. */
  lemma ExportSetSpec(dependencies: seq<string>, packageName: string, d: string)
    ensures d in ExportSet(dependencies, packageName) <==>
              d in dependencies && Strings.StartsWith(d, "Assets/" + packageName)
    ensures Seqs.IsSubsequence(ExportSet(dependencies, packageName), dependencies)
  {
    Seqs.FilterMembership(dependencies, UnderFolder("Assets/" + packageName), d);
    Seqs.FilterIsSubsequence(dependencies, UnderFolder("Assets/" + packageName));
  }

  /** The prefix has no trailing separator, so a sibling folder whose name
      extends the package name is exported as well. */
  lemma ExportSetTakesSiblingFolder()
    ensures ExportSet(["Assets/Hat2/a.mat"], "Hat") == ["Assets/Hat2/a.mat"]
  {
    assert Strings.StartsWith("Assets/Hat2/a.mat", "Assets/" + "Hat");
  }

  const ModifyFolder: string := "Assets/_Modify/"

  function SameFileName(name: string): FileHashInfo -> bool {
    (f: FileHashInfo) => Strings.FileName(f.filePath) == name
  }

  /** Where `RestoreOriginalReferences` points a reference with asset path
      `path`: a path under `Assets/_Modify/` goes to the first history entry
      with the same file name, when that file loads; any other stays. */
  function RestoredReference(files: seq<FileHashInfo>, loads: string -> bool, path: string): string {
    if !Strings.StartsWith(path, ModifyFolder) then path
    else match FindFirst(files, SameFileName(Strings.FileName(path)))
      case None => path
      case Some(original) => if loads(original.filePath) then original.filePath else path
  }

  /** Only references under `Assets/_Modify/` move, each to a loadable history
      entry with the same file name, and to the first such entry. */
  lemma RestoredReferenceSpec(files: seq<FileHashInfo>, loads: string -> bool, path: string)
    ensures !Strings.StartsWith(path, ModifyFolder) ==> RestoredReference(files, loads, path) == path
    ensures RestoredReference(files, loads, path) != path ==>
              Strings.StartsWith(path, ModifyFolder)
              && loads(RestoredReference(files, loads, path))
              && exists i :: 0 <= i < |files| && files[i].filePath == RestoredReference(files, loads, path)
                             && Strings.FileName(files[i].filePath) == Strings.FileName(path)
                             && forall j :: 0 <= j < i ==> Strings.FileName(files[j].filePath) != Strings.FileName(path)
  {
    var found := FindFirst(files, SameFileName(Strings.FileName(path)));
    if Strings.StartsWith(path, ModifyFolder) && found.Some? {
      var i :| 0 <= i < |files| && files[i] == found.value && SameFileName(Strings.FileName(path))(files[i])
               && forall j :: 0 <= j < i ==> !SameFileName(Strings.FileName(path))(files[j]);
      assert forall j :: 0 <= j < i ==> Strings.FileName(files[j].filePath) != Strings.FileName(path) by {
        forall j | 0 <= j < i ensures Strings.FileName(files[j].filePath) != Strings.FileName(path) {
          assert !SameFileName(Strings.FileName(path))(files[j]);
        }
      }
    }
  }

  function RestoredSlot(files: seq<FileHashInfo>, loads: string -> bool, slot: Option<string>): Option<string> {
    match slot
    case None => None
    case Some(p) => Some(RestoredReference(files, loads, p))
  }

  /** Some reference slot holds an asset under `Assets/_Modify/`. */
  predicate RefersIntoModify(references: seq<Option<string>>) {
    exists i :: 0 <= i < |references| && references[i].Some? && Strings.StartsWith(references[i].value, ModifyFolder)
  }

  /** `RestoreOriginalReferences` returns early when there is no history
      file, but parses an existing one without a guard, and reads its `files`
      list at the first reference into `Assets/_Modify/`. So unparsable JSON
      throws, and a history without a list throws once such a reference is
      met. */
  predicate RestoreThrows(history: MonitorImport.HistoryFile, references: seq<Option<string>>) {
    history.Unparsable? || (history == MonitorImport.Stored(None) && RefersIntoModify(references))
  }

  /** `RestoreOriginalReferences` over the object references of the avatar's
      components. Without a history file nothing changes; when it throws,
      no reference has been rewritten yet. */
  method RestoreOriginalReferences(references: array<Option<string>>, history: MonitorImport.HistoryFile,
                                   loads: string -> bool) returns (thrown: bool)
    modifies references
    ensures thrown <==> RestoreThrows(history, old(references[..]))
    ensures !(history.Stored? && history.files.Some?) ==> references[..] == old(references[..])
    ensures history.Stored? && history.files.Some? ==>
              forall i :: 0 <= i < references.Length ==>
                references[i] == RestoredSlot(history.files.value, loads, old(references[i]))
  {
    if history.Missing? {
      return false;
    }
    if history.Unparsable? {
      return true;
    }
    var files := MonitorImport.LoadOrCreateImportHistory(history);
    ghost var before := references[..];
    for i := 0 to references.Length
      invariant forall k :: 0 <= k < i ==> references[k] == RestoredSlot(files, loads, before[k])
      invariant references[i..] == before[i..]
      invariant history.files.None? ==>
                  forall k :: 0 <= k < i ==> !(before[k].Some? && Strings.StartsWith(before[k].value, ModifyFolder))
    {
      assert references[i] == before[i];
      if references[i].None? {
        continue;
      }
      if history.files.None? && Strings.StartsWith(references[i].value, ModifyFolder) {
        assert forall k :: 0 <= k < i ==> references[k] == before[k];
        assert references[..] == before;
        return true;
      }
      var restored := RestoreReference(files, loads, references[i].value);
      references[i] := Some(restored);
    }
    thrown := false;
    if history.files.None? {
      assert forall k :: 0 <= k < references.Length ==> references[k] == before[k];
      assert references[..] == before;
    }
  }

  /** The body of the loop over one reference with asset path `assetPath`. */
  method RestoreReference(files: seq<FileHashInfo>, loads: string -> bool, assetPath: string)
      returns (restored: string)
    ensures restored == RestoredReference(files, loads, assetPath)
  {
    restored := assetPath;
    if !Strings.StartsWith(assetPath, ModifyFolder) {
      return;
    }
    var fileName := Strings.FileName(assetPath);
    var originalFile := FindFirst(files, SameFileName(fileName));
    if originalFile.None? {
      return;
    }
    if !loads(originalFile.value.filePath) {
      return;
    }
    restored := originalFile.value.filePath;
  }

  /** `ExportUnityPackage` runs `HashCheck` first and `RestoreOriginalReferences`
      last; `references` are the target's object references when the latter
      runs. Either throw ends the save before anything is registered. */
  predicate ExportThrows(history: MonitorImport.HistoryFile, dependencies: seq<string>,
                         references: seq<Option<string>>) {
    HashCheckThrows(history, dependencies) || RestoreThrows(history, references)
  }

  /** Unparsable JSON always blocks the export, even without dependencies; a
      missing file blocks it exactly when there are dependencies; a history
      without a list blocks it when there are dependencies or a reference
      into `Assets/_Modify/`; a stored history with a list never does. */
  lemma ExportThrowsSpec(dependencies: seq<string>, references: seq<Option<string>>, files: seq<FileHashInfo>)
    ensures ExportThrows(MonitorImport.Unparsable, dependencies, references)
    ensures ExportThrows(MonitorImport.Missing, dependencies, references) <==> dependencies != []
    ensures ExportThrows(MonitorImport.Stored(None), dependencies, references) <==>
              dependencies != [] || RefersIntoModify(references)
    ensures !ExportThrows(MonitorImport.Stored(Some(files)), dependencies, references)
  {
  }

  /** The record `Save` registers: the edited fields, with a new uid, the
      thumbnail and package paths, marked latest and of type `Modified`. */
  function SavedRecord(draft: AssetRecord, uid: string, thumbnailPath: string, packagePath: string): (r: AssetRecord)
    ensures r.uid == uid && r.isLatest && r.assetType == Modified
    ensures r.filePath == packagePath && r.sourceFilePath == packagePath
    ensures r.thumbnailFilePath == thumbnailPath
    ensures r.name == draft.name && r.description == draft.description && r.url == draft.url
    ensures r.supportAvatar == draft.supportAvatar && r.dependencies == draft.dependencies
            && r.oldVersions == draft.oldVersions
  {
    draft.(uid := uid, thumbnailFilePath := thumbnailPath, filePath := packagePath,
           sourceFilePath := packagePath, isLatest := true, assetType := Modified)
  }

  /** With a uid not yet in the registry, the saved record is appended and is
      what the uid resolves to. */
  lemma SavedRecordRegistered(assets: seq<AssetRecord>, draft: AssetRecord, uid: string,
                              thumbnailPath: string, packagePath: string)
    requires forall i :: 0 <= i < |assets| ==> assets[i].uid != uid
    ensures var r := SavedRecord(draft, uid, thumbnailPath, packagePath);
            AddAsset(assets, r) == assets + [r] && GetAssetData(AddAsset(assets, r), uid) == Some(r)
  {
    AddAssetSpec(assets, SavedRecord(draft, uid, thumbnailPath, packagePath));
  }

  class Window {
    var originalLayers: map<GameObject, int>
    var newAssetData: AssetData
    var registry: Registry

    /** The window's field initialisers: no saved layers and a new record. */
    constructor (registry: Registry)
      ensures originalLayers == map[] && this.registry == registry
      ensures fresh(newAssetData) && newAssetData.ToRecord() == AssetRecord("", "", "", "", "", "", "", false, [], [], [], Unregistered)
      ensures newAssetData.dependencies == null && newAssetData.oldVersions == null
    {
      originalLayers := map[];
      newAssetData := new AssetData();
      this.registry := registry;
    }

    /** The record's dependency and old-version lists are separate objects. */
    ghost predicate Valid()
      reads this, newAssetData
    {
      newAssetData.dependencies == null || newAssetData.dependencies != newAssetData.oldVersions
    }

    /** `RestoreOriginalLayers`: every saved object that is not destroyed gets
        its saved layer back, and the map is emptied. */
    method RestoreOriginalLayers()
      modifies this, originalLayers.Keys
      ensures originalLayers == map[]
      ensures newAssetData == old(newAssetData) && registry == old(registry)
      ensures forall g :: g in old(originalLayers) ==> g.layer == RestoredLayer(old(originalLayers), g, old(g.layer))
    {
      var pending := originalLayers.Keys;
      while pending != {}
        invariant originalLayers == old(originalLayers) && newAssetData == old(newAssetData) && registry == old(registry)
        invariant pending <= originalLayers.Keys
        invariant forall g :: g in pending ==> g.layer == old(g.layer)
        invariant forall g :: g in originalLayers && g !in pending ==>
                    g.layer == RestoredLayer(originalLayers, g, old(g.layer))
        decreases |pending|
      {
        var g :| g in pending;
        if !g.destroyed {
          g.layer := originalLayers[g];
        }
        pending := pending - {g};
      }
      originalLayers := map[];
    }

    /** Records the current layer of every live object of the hierarchy. */
    method SaveLayers(hierarchy: seq<GameObject?>)
      requires originalLayers == map[]
      modifies this
      ensures newAssetData == old(newAssetData) && registry == old(registry)
      ensures forall g :: g in originalLayers <==> g in hierarchy && !g.destroyed
      ensures forall g :: g in originalLayers ==> originalLayers[g] == g.layer
    {
      for i := 0 to |hierarchy|
        invariant newAssetData == old(newAssetData) && registry == old(registry)
        invariant forall g :: g in originalLayers <==> g in hierarchy[..i] && !g.destroyed
        invariant forall g :: g in originalLayers ==> originalLayers[g] == g.layer
      {
        assert hierarchy[..i + 1] == hierarchy[..i] + [hierarchy[i]];
        var g := hierarchy[i];
        if Live(g) {
          originalLayers := originalLayers[g := g.layer];
        }
      }
      assert hierarchy[..|hierarchy|] == hierarchy;
    }

    /** Moves every live object of the hierarchy to the preview layer. */
    method MoveToPreviewLayer(hierarchy: seq<GameObject?>)
      modifies hierarchy
      ensures forall g :: g in hierarchy && Live(g) ==> g.layer == PreviewLayer
      ensures forall g :: g in hierarchy && g != null && g.destroyed ==> g.layer == old(g.layer)
    {
      for i := 0 to |hierarchy|
        invariant forall k :: 0 <= k < i && Live(hierarchy[k]) ==> hierarchy[k].layer == PreviewLayer
        invariant forall g :: g in hierarchy && g != null && g.destroyed ==> g.layer == old(g.layer)
      {
        var g := hierarchy[i];
        if Live(g) {
          g.layer := PreviewLayer;
        }
      }
      forall g | g in hierarchy && Live(g)
        ensures g.layer == PreviewLayer
      {
        var k :| 0 <= k < |hierarchy| && hierarchy[k] == g;
      }
    }

    /** `StoreAndChangeLayer`: a null or destroyed target (Unity's
        overloaded null test) is refused. Otherwise the layers saved before
        are restored, the hierarchy's current layers are saved,
        and the whole hierarchy goes to the preview layer. */
    method StoreAndChangeLayer(obj: GameObject?, hierarchy: seq<GameObject?>)
      modifies this, originalLayers.Keys, hierarchy
      ensures newAssetData == old(newAssetData) && registry == old(registry)
      ensures !Live(obj) ==> originalLayers == old(originalLayers)
      ensures !Live(obj) ==> forall g :: g in hierarchy && g != null ==> g.layer == old(g.layer)
      ensures Live(obj) ==> forall g :: g in hierarchy && Live(g) ==> g.layer == PreviewLayer
      ensures Live(obj) ==> forall g :: g in originalLayers <==> g in hierarchy && !g.destroyed
      ensures Live(obj) ==> forall g :: g in originalLayers ==>
                originalLayers[g] == RestoredLayer(old(originalLayers), g, old(g.layer))
      ensures Live(obj) ==> forall g :: g in old(originalLayers) && g !in hierarchy ==>
                g.layer == RestoredLayer(old(originalLayers), g, old(g.layer))
      ensures forall g :: g in hierarchy && g != null && g.destroyed ==> g.layer == old(g.layer)
    {
      if !Live(obj) {
        return;
      }
      RestoreOriginalLayers();
      SaveLayers(hierarchy);
      MoveToPreviewLayer(hierarchy);
    }

    /** `Save`: an empty name is refused (a dialog), and nothing is stored.
        Otherwise the thumbnail path is set first; then the export's
        `HashCheck` reads the import history once per dependency of the
        target, and its final `RestoreOriginalReferences` parses it again
        and reads its list at the first reference into `Assets/_Modify/`.
        When either throws (`ExportThrows`) the exception ends the click:
        only the thumbnail path has changed and nothing is registered. Otherwise the record gets the new uid, the package path,
        `isLatest` and type `Modified`, and is passed to `AddAssetData`. */
    method Save(uid: string, thumbnailPath: string, packagePath: string,
                history: MonitorImport.HistoryFile, dependencies: seq<string>,
                references: seq<Option<string>>) returns (saved: bool)
      modifies newAssetData, registry
      ensures saved <==> old(newAssetData.name) != "" && !ExportThrows(history, dependencies, references)
      ensures old(newAssetData.name) == "" ==> newAssetData.ToRecord() == old(newAssetData.ToRecord())
      ensures old(newAssetData.name) != "" && ExportThrows(history, dependencies, references) ==>
                newAssetData.ToRecord() == old(newAssetData.ToRecord()).(thumbnailFilePath := thumbnailPath)
      ensures !saved ==> registry.dataFile == old(registry.dataFile)
      ensures saved ==> newAssetData.ToRecord() == SavedRecord(old(newAssetData.ToRecord()), uid, thumbnailPath, packagePath)
      ensures saved ==> registry.Assets() == AddAsset(old(registry.Assets()), newAssetData.ToRecord())
      ensures newAssetData.supportAvatar == old(newAssetData.supportAvatar)
      ensures newAssetData.dependencies == old(newAssetData.dependencies)
      ensures newAssetData.oldVersions == old(newAssetData.oldVersions)
    {
      if newAssetData.name == "" {
        return false;
      }
      ghost var draft := newAssetData.ToRecord();
      newAssetData.thumbnailFilePath := thumbnailPath;
      if ExportThrows(history, dependencies, references) {
        return false;
      }
      newAssetData.filePath := packagePath;
      newAssetData.sourceFilePath := packagePath;
      newAssetData.uid := uid;
      newAssetData.isLatest := true;
      newAssetData.assetType := Modified;
      assert newAssetData.ToRecord() == SavedRecord(draft, uid, thumbnailPath, packagePath);
      registry.AddAssetData(newAssetData.ToRecord());
      saved := true;
    }

    /** The add-dependency callback. */
    method AddDependency(uid: Option<string>)
      requires Valid()
      modifies newAssetData, newAssetData.dependencies
      ensures Valid() && newAssetData.Scalars() == old(newAssetData.Scalars())
      ensures ItemsOf(newAssetData.dependencies) ==
                old(ItemsOf(newAssetData.dependencies)) + (if uid.Some? then [uid.value] else [])
      ensures newAssetData.oldVersions == old(newAssetData.oldVersions)
      ensures ItemsOf(newAssetData.oldVersions) == old(ItemsOf(newAssetData.oldVersions))
    {
      if uid.None? {
        return;
      }
      var l := AddOrCreate(newAssetData.dependencies, uid.value);
      newAssetData.dependencies := l;
    }

    /** One frame of the dependency remove buttons. */
    method RemoveDependency(clicked: set<int>) returns (removed: Option<string>)
      requires Valid()
      modifies newAssetData.dependencies
      ensures Valid()
      ensures removed == (if newAssetData.dependencies == null then None
                          else Chosen(registry.Assets(), old(newAssetData.dependencies.items), clicked))
      ensures ItemsOf(newAssetData.dependencies) == AfterRemoval(old(ItemsOf(newAssetData.dependencies)), removed)
      ensures ItemsOf(newAssetData.oldVersions) == old(ItemsOf(newAssetData.oldVersions))
    {
      removed := RemoveClicked(newAssetData.dependencies, registry.Assets(), clicked);
    }

    /** The add-old-version callback: the uid is listed and its record is
        marked as no longer latest at once. */
    method AddOldVersion(uid: Option<string>)
      requires Valid()
      modifies newAssetData, newAssetData.oldVersions, registry
      ensures Valid() && newAssetData.Scalars() == old(newAssetData.Scalars())
      ensures ItemsOf(newAssetData.oldVersions) ==
                old(ItemsOf(newAssetData.oldVersions)) + (if uid.Some? then [uid.value] else [])
      ensures registry.Assets() == (if uid.Some? then MarkLatest(old(registry.Assets()), uid.value, false)
                                    else old(registry.Assets()))
      ensures ItemsOf(newAssetData.dependencies) == old(ItemsOf(newAssetData.dependencies))
    {
      EditCallbacks.AddOldVersion(newAssetData, registry, uid);
    }

    /** One frame of the old-version remove buttons: the removed uid's record
        is marked latest again. */
    method RemoveOldVersion(clicked: set<int>) returns (removed: Option<string>)
      requires Valid()
      modifies newAssetData.oldVersions, registry
      ensures Valid()
      ensures removed == (if newAssetData.oldVersions == null then None
                          else Chosen(old(registry.Assets()), old(newAssetData.oldVersions.items), clicked))
      ensures ItemsOf(newAssetData.oldVersions) == AfterRemoval(old(ItemsOf(newAssetData.oldVersions)), removed)
      ensures registry.Assets() == (match removed
                                    case None => old(registry.Assets())
                                    case Some(u) => MarkLatest(old(registry.Assets()), u, true))
      ensures ItemsOf(newAssetData.dependencies) == old(ItemsOf(newAssetData.dependencies))
    {
      removed := EditCallbacks.RemoveOldVersion(newAssetData, registry, clicked);
    }
  }

  /** Opening the preview on a hierarchy and closing the window gives every
      live object of the hierarchy the layer it would have had without the
      preview, and empties the map. */
  method PreviewRoundTrip(w: Window, obj: GameObject, hierarchy: seq<GameObject?>)
    modifies w, w.originalLayers.Keys, hierarchy
    ensures w.originalLayers == map[]
    ensures forall g :: g in hierarchy && g != null ==>
              g.layer == RestoredLayer(old(w.originalLayers), g, old(g.layer))
  {
    w.StoreAndChangeLayer(obj, hierarchy);
    w.RestoreOriginalLayers();
  }
}
