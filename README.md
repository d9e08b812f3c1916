# VAMF editor core in Dafny

VAMF (VRChat Avatar Modify Framework) is a Unity editor extension. It keeps a
registry of avatar assets in a JSON file (`AssetDataList`). Each entry records
a uid, a name, the package it lives in, its support avatars, its dependencies
and its older versions. The extension also keeps an import history of file
hashes (`import_history.json`). Several editor windows read and edit both files.

This project models the logic of those parts:

- **the registry** (`AssetDataController`): lookup by uid with its uniqueness
  rule, add, update, the re-extraction of a zip package, and the automatic
  registration that sweeps missing files and then adds new `.unitypackage`
  and `.zip` files;
- **the dependency import** (`UnityPackageManager`): the depth-first search
  over dependency uids. The model shows its result is duplicate-free, is
  exactly the set of uids reachable from the roots, and lists children before
  their parents when the graph is acyclic. It also shows which packages are
  named and imported;
- **the import monitor** (`MonitorImport`): the state machine of one package
  import, the recording of hashes, and the history's maintenance when assets
  are deleted or moved;
- **the callbacks shared by the editing windows** (`EditCallbacks`): which
  list item a click removes, creating a null list when an item is added, and
  the flip of an old version's `isLatest` flag in the registry;
- **the asset detail popup** (`DetailWindow`): back/forward history, edit,
  save, cancel, and the list edits. This includes the support-avatar list
  that `Clone` shares between the edit copy and the shown asset;
- **the "save as modified avatar" window** (`SaveAsModifiedAvatar`): preview
  layers saved and restored, the hash check that picks changed dependencies,
  the export filter, the restoring of references into `Assets/_Modify/`, and
  the registry record the window saves;
- **the two browser windows** (`VrchatAssetManager`,
  `VrchatUnityPackageManager`): the avatar list, the search filter, and
  reset, sync and refresh;
- **the item selector popup** (`ItemSelector`): its filter, its cached
  list, and the ignore list it shares with its caller.

The registry and the history are values. The registry is
`AssetDataController.DataFile`, the history is `MonitorImport.HistoryFile`.
Each is held by a class whose methods replace it, as the source rewrites the
file. Records read from the registry are values (`JsonSchema.AssetRecord`),
because every `GetAllAssetData` call parses fresh objects. Objects that the
windows keep and mutate are instances of the class `JsonSchema.AssetData`.
Its three lists are `StringList` references, so the sharing done by `Clone`
can be seen. A null list is a null reference, and its JSON view is `[]`.
A null string is `""`, which is also how `JsonUtility` writes it.

Effects that come from outside the code become parameters. These are file
existence (`fileExists`), MD5 digests (`digest`), asset loading (`loads`),
fresh GUIDs, the archive's entries, and the package picker's choice. The
user's dialog answer (`userChoice`), the entry a click hit (`clicked`) and
the uid the item selector hands back also become parameters.

## Model

| member | source | states |
|---|---|---|
| JsonSchema.FromOrdinal | VAMF/Editor/Schemas/JsonSchema.cs:5-16 | an integer names an asset type exactly when it is one of the ten ordinals 0..9, and the type found has that ordinal |
| JsonSchema.OrdinalRoundTrip | VAMF/Editor/Schemas/JsonSchema.cs:5-16 | every asset type decodes back from its own ordinal |
| JsonSchema.OrdinalZeroIsUnregistered | VAMF/Editor/Utility/AssetDataController.cs:40 | the `assetType = 0` given to new entries is `Unregistered` and no other type has ordinal 0 |
| JsonSchema.StringList.Remove | VAMF/Editor/Components/CustomPopup/DetailWindow.cs:269-271 | `List.Remove` drops only the first occurrence and reports whether the item was present |
| JsonSchema.AssetData.constructor | VAMF/Editor/Schemas/JsonSchema.cs:19-31 | a new object has empty strings, `isLatest` false, type Unregistered and three null lists |
| JsonSchema.AssetData.FromRecord | VAMF/Editor/Schemas/JsonSchema.cs:19-31 | a deserialised object shows exactly the stored record and owns three distinct fresh lists |
| JsonSchema.AssetData.Clone | VAMF/Editor/Schemas/JsonSchema.cs:33-47 | the clone has the same JSON view; it shares the support-avatar list but gets fresh copies of dependencies and old versions (a null list becomes an empty one) |
| JsonSchema.AssetData.CloneSharesSupportAvatar | VAMF/Editor/Schemas/JsonSchema.cs:43-45 | a support avatar added through the clone shows up in the original's list, because both hold the same list object, while the dependency lists remain separate objects |
| AssetDataController.FindIndex | VAMF/Editor/Utility/AssetDataController.cs:110 | `FindIndex` returns -1 exactly when no entry has the uid, and otherwise the first entry that has it |
| AssetDataController.CountZeroIffAbsent | VAMF/Editor/Utility/AssetDataController.cs:72-77 | the `FindAll` count is zero exactly when no entry has the uid |
| AssetDataController.CountOneIffOnlyMatch | VAMF/Editor/Utility/AssetDataController.cs:77-78 | the `FindAll` count is one exactly when a single entry holds the uid |
| AssetDataController.GetAssetData | VAMF/Editor/Utility/AssetDataController.cs:70-82 | a uid resolves exactly when one entry carries it; the record found is that entry; absent and duplicated uids give null |
| AssetDataController.UniqueUidsResolve | VAMF/Editor/Utility/AssetDataController.cs:70-82 | in a registry without duplicate uids every entry is found by its own uid |
| AssetDataController.AddAssetSpec | VAMF/Editor/Utility/AssetDataController.cs:98-106 | adding a record whose uid is already present changes nothing; otherwise the record is appended and found by its uid while every other uid resolves as before |
| AssetDataController.AddAssetPreservesUnique | VAMF/Editor/Utility/AssetDataController.cs:98-106 | adding keeps a duplicate-free registry duplicate-free |
| AssetDataController.UpdateAssetSpec | VAMF/Editor/Utility/AssetDataController.cs:108-118 | only the first entry with the uid is replaced, every other entry is kept, and a missing uid leaves the list unchanged |
| AssetDataController.UpdateAssetResolves | VAMF/Editor/Utility/AssetDataController.cs:108-118 | in a duplicate-free registry holding the uid, updating with a record of that uid keeps it duplicate-free and the uid then resolves to the new record |
| AssetDataController.UnzipFile | VAMF/Editor/Utility/AssetDataController.cs:141-168 | an archive without `.unitypackage` entries gives null; any result is a package entry's name with `_<guid>` inserted, under `Unzip/`, where the guid is the given uid if any; a single entry with no forced dialog is taken without asking |
| AssetDataController.ExtractedPathInsertsGuid | VAMF/Editor/Utility/AssetDataController.cs:155-157 | the extracted name puts `_<guid>` before the `.unitypackage` extension |
| AssetDataController.RelativePath | VAMF/Editor/Utility/AssetDataController.cs:26 | removing the root prefix leaves the rest of the path, so root plus result rebuilds the full path |
| AssetDataController.PackageRecord | VAMF/Editor/Utility/AssetDataController.cs:28-41 | a registered package gets the fresh guid, the relative path as file and source path, `isLatest`, type 0 and empty lists |
| AssetDataController.ZipRecord | VAMF/Editor/Utility/AssetDataController.cs:48-64 | a zip is registered exactly when extraction succeeds; the record's file is the extracted package and its source is the zip |
| AssetDataController.SweepSpec | VAMF/Editor/Utility/AssetDataController.cs:16-23 | the sweep keeps exactly the entries whose source file exists under the root, in their order |
| AssetDataController.RegisterPackagesAppends | VAMF/Editor/Utility/AssetDataController.cs:25-43 | the package loop only appends; each appended record comes from a found package and has a source path not seen before |
| AssetDataController.RegisterPackagesCovers | VAMF/Editor/Utility/AssetDataController.cs:25-43 | after the loop every found package is recorded by its relative path |
| AssetDataController.RegisterPackagesNoop | VAMF/Editor/Utility/AssetDataController.cs:27 | packages that are all already recorded change nothing |
| AssetDataController.RegisterZipsAppends | VAMF/Editor/Utility/AssetDataController.cs:45-66 | the zip loop only appends; each appended record comes from an extracted zip and has a fresh source path |
| AssetDataController.RegisterZipsCovers | VAMF/Editor/Utility/AssetDataController.cs:45-66 | after the loop every zip that extracts is recorded by its relative path |
| AssetDataController.RegisterZipsNoop | VAMF/Editor/Utility/AssetDataController.cs:47 | zips that are all already recorded change nothing |
| AssetDataController.AutoRegisteredBacked | VAMF/Editor/Utility/AssetDataController.cs:12-68 | when every found file exists, each entry after auto-registration has an existing source file |
| AssetDataController.AutoRegisterIdempotent | VAMF/Editor/Utility/AssetDataController.cs:12-68 | running auto-registration again over files at the same paths changes nothing, whatever fresh guids the second run draws; a zip the first run did not register must fail to extract again |
| AssetDataController.RegisterPackageFiles | VAMF/Editor/Utility/AssetDataController.cs:25-43 | the imperative package loop computes the registration described above |
| AssetDataController.RegisterZipFiles | VAMF/Editor/Utility/AssetDataController.cs:45-66 | the imperative zip loop computes the registration described above |
| AssetDataController.Registry.SaveAssetDataList | VAMF/Editor/Utility/AssetDataController.cs:132-139 | the file then holds exactly the given list |
| AssetDataController.Registry.AddAssetData | VAMF/Editor/Utility/AssetDataController.cs:98-106 | a duplicate uid leaves the file untouched; otherwise the file is rewritten with the record appended |
| AssetDataController.Registry.UpdateAssetData | VAMF/Editor/Utility/AssetDataController.cs:108-118 | a missing uid leaves the file untouched; otherwise the first matching entry is replaced and the file rewritten |
| AssetDataController.Registry.UpdateUnityPackage | VAMF/Editor/Utility/AssetDataController.cs:120-130 | the package is re-extracted with the dialog forced and the asset's own uid as guid; the stored entry's file path becomes the extracted path (null stored as empty) |
| AssetDataController.UpdateUnityPackageResolves | VAMF/Editor/Utility/AssetDataController.cs:126-129 | after the path update the uid resolves to the entry with the new file path |
| AssetDataController.Registry.AutoRegisterAssetData | VAMF/Editor/Utility/AssetDataController.cs:12-68 | the file then holds sweep, then package loop, then zip loop applied to the previous list |
| UnityPackageManager.GraphBounded | VAMF/Editor/Utility/UnityPackageManager.cs:65-69 | every child the search can visit is a dependency named somewhere in the registry, so the search is finite |
| UnityPackageManager.AcyclicNoBackEdge | VAMF/Editor/Utility/UnityPackageManager.cs:60-73 | in an acyclic graph a child never reaches back to its parent |
| UnityPackageManager.RankedAcyclic | VAMF/Editor/Utility/UnityPackageManager.cs:60-73 | a dependency graph whose edges all lower some rank is acyclic |
| UnityPackageManager.Dfs | VAMF/Editor/Utility/UnityPackageManager.cs:60-73 | an unvisited uid and everything it reaches get visited; the result only grows, stays duplicate-free, gains only reachable uids, and stays in post-order for acyclic graphs |
| UnityPackageManager.VisitChildren | VAMF/Editor/Utility/UnityPackageManager.cs:66-70 | every child of the uid ends up visited, with the same guarantees as the search |
| UnityPackageManager.SearchDependencies | VAMF/Editor/Utility/UnityPackageManager.cs:45-58 | no roots give an empty list; the result has no duplicates, holds exactly the uids reachable from the roots, and lists every child before its parent when the graph is acyclic |
| UnityPackageManager.ResolvedMembers | VAMF/Editor/Utility/UnityPackageManager.cs:13-18 | an asset is collected exactly when some uid of the order resolves to it |
| UnityPackageManager.ResolvedAll | VAMF/Editor/Utility/UnityPackageManager.cs:13-18 | when every uid resolves, one asset is collected per uid in the same order |
| UnityPackageManager.ImportPathRooted | VAMF/Editor/Utility/UnityPackageManager.cs:33-37 | a rooted stored path (the auto-registered ones start with `/`) replaces the documents folder entirely; a relative path is joined below `<documents>/VAMF/` |
| UnityPackageManager.ImportAsset | VAMF/Editor/Utility/UnityPackageManager.cs:8-43 | the import order is the dependency search followed by the asset's own uid; the dialog lists the names of the uids that resolve; packages are imported, in order, only when that list is non-empty and the user agrees |
| UnityPackageManager.CollectNames | VAMF/Editor/Utility/UnityPackageManager.cs:13-18 | the loop collects the names of the uids that resolve, in order |
| UnityPackageManager.CollectImportPaths | VAMF/Editor/Utility/UnityPackageManager.cs:30-40 | the loop collects the import path of each uid that resolves, in order |
| UnityPackageManager.DependencyChainOrder | VAMF/Editor/Utility/UnityPackageManager.cs:45-73 | for a chain B -> C the search returns C before B |
| UnityPackageManager.ChainReachable | VAMF/Editor/Utility/UnityPackageManager.cs:45-73 | on that chain the search's guarantees leave [C, B] as the only possible result |
| MonitorImport.CalculateFileHash | VAMF/Editor/Utility/MonitorImport.cs:157-173 | an unreadable file hashes to `error_calculating_hash`; otherwise the digest is returned |
| MonitorImport.LoadOrCreateImportHistory | VAMF/Editor/Utility/MonitorImport.cs:135-155 | a stored history with a file list is returned as is; a missing, unparsable or list-less file gives an empty history |
| MonitorImport.HashEntriesSpec | VAMF/Editor/Utility/MonitorImport.cs:115 | one entry is recorded for each imported path that exists, in order, and each holds that file's hash |
| MonitorImport.AfterRemoveSpec | VAMF/Editor/Utility/MonitorImport.cs:175-203 | an empty path or one not in the history leaves the file untouched; otherwise exactly the entries at that path are gone and the rest keep their order |
| MonitorImport.RenamedSpec | VAMF/Editor/Utility/MonitorImport.cs:205-231 | each entry at the old path gets the new path and keeps its hash; others are unchanged |
| MonitorImport.RenameRoundTrip | VAMF/Editor/Utility/MonitorImport.cs:205-231 | moving to a path that is not yet recorded is undone by moving back |
| MonitorImport.RemovedIffMatched | VAMF/Editor/Utility/MonitorImport.cs:182-190 | `RemoveAll` removes something exactly when some entry has the path, which decides whether the file is rewritten |
| MonitorImport.AddStepSpec | VAMF/Editor/Utility/MonitorImport.cs:108-112 | a path is collected once, only during an import, and only if it existed neither before the import nor in the list |
| MonitorImport.AddAllCollected | VAMF/Editor/Utility/MonitorImport.cs:241-245 | collecting a batch keeps the list duplicate-free and free of pre-existing paths |
| MonitorImport.AddAllIdle | VAMF/Editor/Utility/MonitorImport.cs:241-245 | outside an import nothing is collected |
| MonitorImport.RemoveEachClears | VAMF/Editor/Utility/MonitorImport.cs:247-251 | after a batch of deletions no non-empty deleted path remains in the history |
| MonitorImport.AfterRemoveKeepsAbsent | VAMF/Editor/Utility/MonitorImport.cs:175-203 | removing one path never brings back another absent path |
| MonitorImport.Monitor.constructor | VAMF/Editor/Utility/MonitorImport.cs:24-27 | the monitor starts idle with nothing collected |
| MonitorImport.Monitor.OnImportPackageStarted | VAMF/Editor/Utility/MonitorImport.cs:67-76 | an import starts with an empty list and remembers exactly the assets that existed |
| MonitorImport.Monitor.OnImportPackageCompleted | VAMF/Editor/Utility/MonitorImport.cs:48-53 | the collected files' hashes are appended to the history and the monitor returns to idle |
| MonitorImport.Monitor.OnImportPackageCancelled | VAMF/Editor/Utility/MonitorImport.cs:55-59 | the monitor returns to idle and the history is untouched |
| MonitorImport.Monitor.OnImportPackageFailed | VAMF/Editor/Utility/MonitorImport.cs:61-65 | the monitor returns to idle and the history is untouched |
| MonitorImport.Monitor.AddImportedAsset | VAMF/Editor/Utility/MonitorImport.cs:108-112 | the collected list grows as described by `AddStepSpec` and nothing else changes |
| MonitorImport.Monitor.SaveFileHashesToJson | VAMF/Editor/Utility/MonitorImport.cs:114-133 | the history is rewritten as the loaded history followed by the new hash entries |
| MonitorImport.Monitor.RemoveDeletedAssetFromJson | VAMF/Editor/Utility/MonitorImport.cs:175-203 | the history changes as `AfterRemoveSpec` describes and the import state is untouched |
| MonitorImport.Monitor.UpdateAssetPathInJson | VAMF/Editor/Utility/MonitorImport.cs:205-231 | the history changes by renaming (nothing when either path is empty or none matches) and the import state is untouched |
| MonitorImport.OnPostprocessAllAssets | VAMF/Editor/Utility/MonitorImport.cs:235-258 | imported assets are collected while an import runs, deletions come next, and moves are applied pairwise only when both arrays exist, are non-empty and have equal length |
| MonitorImport.CollectImported | VAMF/Editor/Utility/MonitorImport.cs:241-245 | the loop collects the batch as `AddAll` describes |
| MonitorImport.RemoveDeleted | VAMF/Editor/Utility/MonitorImport.cs:247-251 | the loop removes each deleted path in turn |
| MonitorImport.ApplyMoves | VAMF/Editor/Utility/MonitorImport.cs:255-257 | the loop renames each moved path in turn |
| EditCallbacks.MarkLatestSpec | VAMF/Editor/Components/CustomPopup/DetailWindow.cs:344-348 | flipping `isLatest` through `GetAssetData` and `UpdateAssetData` changes only that asset's flag and leaves every other uid's entry as it was; an unresolvable uid changes nothing |
| EditCallbacks.MarkLatestRoundTrip | VAMF/Editor/Components/CustomPopup/DetailWindow.cs:328-348 | adding a latest asset as an old version and then removing it restores the registry |
| EditCallbacks.MarkLatestIdempotent | VAMF/Editor/Components/CustomPopup/DetailWindow.cs:344-348 | setting the same flag twice is the same as once |
| EditCallbacks.SetLatest | VAMF/Editor/Components/CustomPopup/DetailWindow.cs:330-334 | the registry holds the flipped flag, and it is untouched when the uid does not resolve |
| EditCallbacks.ChosenSpec | VAMF/Editor/Components/CustomPopup/DetailWindow.cs:256-271 | nothing is removed exactly when no shown (resolvable) item was clicked; otherwise the item removed is the last shown item clicked in the frame |
| EditCallbacks.PickToRemove | VAMF/Editor/Components/CustomPopup/DetailWindow.cs:258-268 | the loop over the list picks the item `ChosenSpec` describes |
| EditCallbacks.AfterRemovalDropsOne | VAMF/Editor/Components/CustomPopup/DetailWindow.cs:269-271 | removing the chosen uid deletes exactly its first occurrence and keeps the rest in order |
| EditCallbacks.RemoveClicked | VAMF/Editor/Components/CustomPopup/DetailWindow.cs:256-271 | a null list is not drawn and nothing happens; otherwise the chosen item is removed from the list |
| EditCallbacks.AddOrCreate | VAMF/Editor/Components/CustomPopup/DetailWindow.cs:278-279 | `??=` keeps an existing list (the same object) or creates a fresh one, and the uid is appended |
| EditCallbacks.OldVersionAddThenRemove | VAMF/Editor/Components/CustomPopup/DetailWindow.cs:328-348 | adding a latest asset as an old version and removing it again restores both the list and the registry |
| EditCallbacks.AddOldVersion | VAMF/Editor/Components/CustomPopup/DetailWindow.cs:338-351 | a null pick changes nothing; otherwise the uid is appended to the old-version list (created if null) and that asset stops being latest; the other lists are untouched unless they are the same object |
| EditCallbacks.RemoveOldVersion | VAMF/Editor/Components/CustomPopup/DetailWindow.cs:315-337 | the chosen old version is removed from the list and becomes latest again in the registry |
| DetailWindow.Forwarded | VAMF/Editor/Components/CustomPopup/DetailWindow.cs:169-171 | following a link copies the history stack (reversing its order) and pushes the current asset on top |
| DetailWindow.ForwardedShortHistory | VAMF/Editor/Components/CustomPopup/DetailWindow.cs:169-171 | with at most one earlier entry the reversal is invisible |
| DetailWindow.BackAfterForward | VAMF/Editor/Components/CustomPopup/DetailWindow.cs:44-49 | Back after a link returns to the page that was shown, but the remaining history is reversed |
| DetailWindow.SecondBackSkipsAnEntry | VAMF/Editor/Components/CustomPopup/DetailWindow.cs:44-49 | after visiting a, b, c and then a fourth page, the history reads b, a, c, so the second Back goes to a instead of b |
| DetailWindow.Window.constructor | VAMF/Editor/Components/CustomPopup/DetailWindow.cs:20-37 | a window starts with no asset, no history and not editing |
| DetailWindow.Window.ShowWindow | VAMF/Editor/Components/CustomPopup/DetailWindow.cs:20-37 | a null asset is refused; otherwise the asset is shown with the given history (or an empty one) and editing is off |
| DetailWindow.Window.Back | VAMF/Editor/Components/CustomPopup/DetailWindow.cs:44-49 | the top of the history is shown and popped; the rest keeps its order |
| DetailWindow.Window.FollowLink | VAMF/Editor/Components/CustomPopup/DetailWindow.cs:166-205 | an unresolvable uid has no button and nothing changes; otherwise that asset is shown freshly parsed and the history is the copied stack plus the current asset |
| DetailWindow.Window.Edit | VAMF/Editor/Components/CustomPopup/DetailWindow.cs:67-71 | editing works on a clone, which shares the shown asset's support-avatar list |
| DetailWindow.Window.Save | VAMF/Editor/Components/CustomPopup/DetailWindow.cs:74-85 | the shown asset becomes a clone of the draft, the registry entry is replaced by the draft, and editing stops |
| DetailWindow.Window.Cancel | VAMF/Editor/Components/CustomPopup/DetailWindow.cs:87-90 | the draft is dropped and the registry is untouched |
| DetailWindow.Window.AddSupportAvatar | VAMF/Editor/Components/CustomPopup/DetailWindow.cs:274-283 | a picked uid is appended to the draft's support avatars (created if null); the other lists are unchanged |
| DetailWindow.Window.AddDependency | VAMF/Editor/Components/CustomPopup/DetailWindow.cs:304-312 | a picked uid is appended to the draft's dependencies |
| DetailWindow.Window.AddOldVersion | VAMF/Editor/Components/CustomPopup/DetailWindow.cs:338-351 | a picked uid is appended to the draft's old versions and marked not latest in the registry at once |
| DetailWindow.Window.RemoveSupportAvatar | VAMF/Editor/Components/CustomPopup/DetailWindow.cs:256-271 | the chosen support avatar is removed from the draft's list |
| DetailWindow.Window.RemoveDependency | VAMF/Editor/Components/CustomPopup/DetailWindow.cs:286-301 | the chosen dependency is removed from the draft's list |
| DetailWindow.Window.RemoveOldVersion | VAMF/Editor/Components/CustomPopup/DetailWindow.cs:315-335 | the chosen old version is removed and marked latest again in the registry at once |
| DetailWindow.SupportAvatarEditLeaks | VAMF/Editor/Components/CustomPopup/DetailWindow.cs:67-90 | a support avatar added while editing stays on the shown asset after Cancel, because the list is shared |
| DetailWindow.OldVersionFlagSurvivesCancel | VAMF/Editor/Components/CustomPopup/DetailWindow.cs:338-351 | adding an old version and then cancelling still leaves that asset not latest in the registry |
| SaveAsModifiedAvatar.FindFirst | VAMF/Editor/Window/SaveAsModifiedAvatar.cs:359 | `List.Find` gives null exactly when nothing matches, and otherwise the first match |
| SaveAsModifiedAvatar.HashCheckSelectionSpec | VAMF/Editor/Window/SaveAsModifiedAvatar.cs:353-362 | a dependency is moved exactly when its first history entry has a hash other than its current one; unrecorded files are never moved |
| SaveAsModifiedAvatar.ExportSetSpec | VAMF/Editor/Window/SaveAsModifiedAvatar.cs:334 | exactly the dependencies whose path starts with `Assets/<name>` are exported, in order |
| SaveAsModifiedAvatar.ExportSetTakesSiblingFolder | VAMF/Editor/Window/SaveAsModifiedAvatar.cs:334 | the prefix test also takes a sibling folder such as `Assets/Hat2` for the name `Hat` |
| SaveAsModifiedAvatar.RestoredReferenceSpec | VAMF/Editor/Window/SaveAsModifiedAvatar.cs:499-510 | references outside `Assets/_Modify/` are kept; a reference that changes points to a loadable file whose history entry is the first with the same file name |
| SaveAsModifiedAvatar.RestoreOriginalReferences | VAMF/Editor/Window/SaveAsModifiedAvatar.cs:480-524 | it throws exactly on unparsable JSON or on a list-less history with a reference into `Assets/_Modify/`, and then nothing is rewritten; no history file means no change; a history with a list rewrites every reference slot as `RestoredReferenceSpec` describes and empty slots stay empty |
| SaveAsModifiedAvatar.RestoreReference | VAMF/Editor/Window/SaveAsModifiedAvatar.cs:502-509 | one property is handled, with each early `continue` of the source |
| SaveAsModifiedAvatar.SavedRecord | VAMF/Editor/Window/SaveAsModifiedAvatar.cs:282-289 | the saved record has the new uid, the exported package as file and source, the thumbnail, `isLatest`, type Modified, and the user's name, description, url and lists |
| SaveAsModifiedAvatar.SavedRecordRegistered | VAMF/Editor/Window/SaveAsModifiedAvatar.cs:290 | with a fresh uid the saved record is appended and resolves by that uid |
| SaveAsModifiedAvatar.GameObject.constructor | VAMF/Editor/Window/SaveAsModifiedAvatar.cs:126-144 | a scene object with a layer and a destroyed flag |
| SaveAsModifiedAvatar.Window.constructor | VAMF/Editor/Window/SaveAsModifiedAvatar.cs:17-24 | no layers are saved and the draft asset is blank |
| SaveAsModifiedAvatar.Window.RestoreOriginalLayers | VAMF/Editor/Window/SaveAsModifiedAvatar.cs:146-152 | every saved live object gets its saved layer back and the map is cleared |
| SaveAsModifiedAvatar.Window.SaveLayers | VAMF/Editor/Window/SaveAsModifiedAvatar.cs:133-137 | exactly the live objects of the hierarchy are saved, each with its current layer |
| SaveAsModifiedAvatar.Window.MoveToPreviewLayer | VAMF/Editor/Window/SaveAsModifiedAvatar.cs:139-143 | every live object of the hierarchy is put on layer 30 and destroyed ones are untouched |
| SaveAsModifiedAvatar.Window.StoreAndChangeLayer | VAMF/Editor/Window/SaveAsModifiedAvatar.cs:126-144 | a null or destroyed target (Unity's null test) changes nothing; otherwise old layers are restored, the hierarchy's layers (after restoring) are saved, and the hierarchy is moved to the preview layer |
| SaveAsModifiedAvatar.PreviewRoundTrip | VAMF/Editor/Window/SaveAsModifiedAvatar.cs:126-152 | previewing an object and then restoring gives every object its layer back |
| SaveAsModifiedAvatar.Window.Save | VAMF/Editor/Window/SaveAsModifiedAvatar.cs:277-292 | an empty name saves nothing; when the export throws (`HashCheck` with a dependency and no readable history with a file list, or `RestoreOriginalReferences` on unparsable JSON or on a list-less history with a reference into `Assets/_Modify/`) only the thumbnail path is set and nothing is registered; otherwise the draft becomes the saved record and is added to the registry |
| SaveAsModifiedAvatar.HashCheckThrowsSpec | VAMF/Editor/Window/SaveAsModifiedAvatar.cs:353-362 | with at least one dependency a missing or unparsable history blocks the save, and a stored history with a list never does |
| SaveAsModifiedAvatar.ExportThrowsSpec | VAMF/Editor/Window/SaveAsModifiedAvatar.cs:343 | unparsable JSON blocks the export even with no dependencies; a missing file blocks it exactly when there are dependencies; a list-less history blocks it when there are dependencies or a reference into `Assets/_Modify/`; a stored history with a list never does |
| SaveAsModifiedAvatar.Window.AddDependency | VAMF/Editor/Window/SaveAsModifiedAvatar.cs:218-228 | a picked uid is appended to the draft's dependencies (created if null) |
| SaveAsModifiedAvatar.Window.RemoveDependency | VAMF/Editor/Window/SaveAsModifiedAvatar.cs:199-217 | the chosen dependency is removed; a null list is neither drawn nor changed |
| SaveAsModifiedAvatar.Window.AddOldVersion | VAMF/Editor/Window/SaveAsModifiedAvatar.cs:254-269 | a picked uid is appended to the draft's old versions and marked not latest in the registry |
| SaveAsModifiedAvatar.Window.RemoveOldVersion | VAMF/Editor/Window/SaveAsModifiedAvatar.cs:230-253 | the chosen old version is removed and marked latest again in the registry |
| VrchatAssetManager.AvatarNames | VAMF/Editor/Window/VrchatAssetManager.cs:212-224 | the popup lists `None` first, then every latest avatar's name in order |
| VrchatAssetManager.NameToUidSpec | VAMF/Editor/Window/VrchatAssetManager.cs:212-224 | a name is a key exactly when some avatar has it, and it maps to the uid of the last avatar with that name |
| VrchatAssetManager.BuildAvatarList | VAMF/Editor/Window/VrchatAssetManager.cs:212-224 | the loop builds the name list and the name map of the latest avatars |
| VrchatAssetManager.CollectAvatars | VAMF/Editor/Window/VrchatAssetManager.cs:217-220 | the loop over the avatars builds the name list and the name map described above |
| VrchatAssetManager.FilterSpec | VAMF/Editor/Window/VrchatAssetManager.cs:226-237 | an asset is kept exactly when the name and description searches (empty means any, case-insensitive) and the selected avatar (itself or a supported one) all match; order is kept |
| VrchatAssetManager.FilterOffKeepsAll | VAMF/Editor/Window/VrchatAssetManager.cs:226-237 | empty searches with `None` selected keep every asset |
| VrchatAssetManager.GridSpec | VAMF/Editor/Window/VrchatAssetManager.cs:119 | the grid shows exactly the filtered assets of the selected type that are latest |
| VrchatAssetManager.GridMembers | VAMF/Editor/Window/VrchatAssetManager.cs:119 | the same statement for every asset at once |
| VrchatAssetManager.Window.constructor | VAMF/Editor/Window/VrchatAssetManager.cs:30-40 | the window opens on the whole registry with empty searches and the avatar list built |
| VrchatAssetManager.Window.Grid | VAMF/Editor/Window/VrchatAssetManager.cs:119 | the grid holds exactly the filtered assets of the selected type that are latest |
| VrchatAssetManager.Window.UpdateAvatarList | VAMF/Editor/Window/VrchatAssetManager.cs:212-224 | the avatar list is rebuilt and the selection reset to `None` |
| VrchatAssetManager.Window.FilterAssets | VAMF/Editor/Window/VrchatAssetManager.cs:226-237 | the filtered list is the registry filtered by the current search |
| VrchatAssetManager.Window.Reset | VAMF/Editor/Window/VrchatAssetManager.cs:189-194 | the searches are cleared and every asset is shown |
| VrchatAssetManager.Window.Sync | VAMF/Editor/Window/VrchatAssetManager.cs:60-70 | the window reloads the registry, rebuilds the avatar list and clears the search |
| VrchatAssetManager.Window.RefreshAssetList | VAMF/Editor/Window/VrchatAssetManager.cs:239-245 | the registry is reloaded, the avatar list and name map are rebuilt from its latest avatars, and the selection resets, so only the text searches still filter; the asset type is kept |
| VrchatUnityPackageManager.SameTestAsAssetManager | VAMF/Editor/Window/VrchatUnityPackageManager.cs:227-239 | this window's search test equals the asset manager's |
| VrchatUnityPackageManager.SameFilterAsAssetManager | VAMF/Editor/Window/VrchatUnityPackageManager.cs:227-239 | the two windows filter any registry alike |
| VrchatUnityPackageManager.FilterSpec | VAMF/Editor/Window/VrchatUnityPackageManager.cs:227-239 | an asset is kept exactly when the text searches and the selected avatar match; order is kept |
| VrchatUnityPackageManager.Window.constructor | VAMF/Editor/Window/VrchatUnityPackageManager.cs:26-35 | the window opens on the whole registry with empty searches and the avatar list built |
| VrchatUnityPackageManager.Window.Grid | VAMF/Editor/Window/VrchatUnityPackageManager.cs:115 | the grid holds exactly the filtered latest assets of the selected type, in order |
| VrchatUnityPackageManager.Window.UpdateAvatarList | VAMF/Editor/Window/VrchatUnityPackageManager.cs:213-225 | the avatar list is rebuilt and the selection reset |
| VrchatUnityPackageManager.Window.FilterAssets | VAMF/Editor/Window/VrchatUnityPackageManager.cs:227-239 | the filtered list is the registry filtered by the current search, the same list the asset manager would show |
| VrchatUnityPackageManager.Window.Reset | VAMF/Editor/Window/VrchatUnityPackageManager.cs:190-195 | the searches are cleared and every asset is shown |
| VrchatUnityPackageManager.Window.Sync | VAMF/Editor/Window/VrchatUnityPackageManager.cs:55-65 | the window reloads the registry, rebuilds the avatar list and clears the search |
| VrchatUnityPackageManager.Window.RefreshAssetList | VAMF/Editor/Window/VrchatUnityPackageManager.cs:241-247 | the registry is reloaded, the avatar list and name map are rebuilt from its latest avatars, and it is re-filtered with the selection reset; the asset type is kept |
| ItemSelector.ListedSpec | VAMF/Editor/Components/CustomPopup/ItemSelector.cs:79-86 | an asset is listed exactly when its name matches the search (empty means any, case-insensitive) and it is not the caller's own asset; order is kept |
| ItemSelector.SelfNeverListed | VAMF/Editor/Components/CustomPopup/ItemSelector.cs:83 | the asset being edited never appears in its own selector |
| ItemSelector.EmptySearchListsAll | VAMF/Editor/Components/CustomPopup/ItemSelector.cs:79-86 | with no search and no own uid every asset is listed |
| ItemSelector.Window.ShowWindow | VAMF/Editor/Components/CustomPopup/ItemSelector.cs:18-31 | the popup copies the asset list, shares a given ignore list (or uses a fresh empty one), and has no filtered list yet |
| ItemSelector.Window.FilterAssets | VAMF/Editor/Components/CustomPopup/ItemSelector.cs:79-86 | the filtered list is the asset list filtered by the search and the own uid |
| ItemSelector.Window.OnGUI | VAMF/Editor/Components/CustomPopup/ItemSelector.cs:33-46 | the list is recomputed exactly when none exists yet or the search text changed, and otherwise kept; it always matches the current search |
| ItemSelector.Window.Select | VAMF/Editor/Components/CustomPopup/ItemSelector.cs:52-61 | a button hands back its uid exactly when the uid is not in the ignore list |
| ItemSelector.Window.OnLostFocus | VAMF/Editor/Components/CustomPopup/ItemSelector.cs:74-77 | the search is cleared and the popup closes |
| ItemSelector.RepickDisabled | VAMF/Editor/Components/CustomPopup/ItemSelector.cs:54-59 | once the caller appends the picked uid to the shared ignore list, the same button is disabled |
| ItemSelector.RepickAfterNullList | VAMF/Editor/Components/CustomPopup/ItemSelector.cs:24 | when the caller's list was null, the new list the callback creates is not the selector's ignore list, so the same uid can be picked again |
| Strings.ContainsIffOccurs | VAMF/Editor/Window/VrchatAssetManager.cs:229-230 | `Contains` holds exactly when the needle occurs at some position |
| Strings.EmptyNeedleAlwaysContained | VAMF/Editor/Window/VrchatAssetManager.cs:229 | every name contains the empty search |
| Strings.FileNameSpec | VAMF/Editor/Window/SaveAsModifiedAvatar.cs:504-505 | `GetFileName` is the separator-free tail of the path, cut right after the last separator |
| Strings.LastDotSpec | VAMF/Editor/Utility/AssetDataController.cs:30 | the extension starts at the last dot, if any |
| Strings.Combine | VAMF/Editor/Utility/UnityPackageManager.cs:33-37 | `Path.Combine` returns a rooted second part alone and otherwise joins with one separator |
| Strings.ReplaceOnlySuffix | VAMF/Editor/Utility/AssetDataController.cs:156-157 | replacing a pattern that occurs only as the suffix rewrites just that suffix |
| Seqs.FilterMembership | VAMF/Editor/Utility/AssetDataController.cs:16-23 | an element survives the `Where` / `RemoveAll` filter exactly when it was in the list and passes the test |
| Seqs.FilterIsSubsequence | VAMF/Editor/Utility/AssetDataController.cs:16-23 | the filter keeps the original order |

## Left out

- File I/O and its exceptions are modelled only as far as they decide behaviour: the registry is `Unreadable` or parsed, the history is missing, unparsable or stored. JSON text, directory creation and `AssetDatabase.ImportAsset` of the history are left out.
- GUI layout, styles, thumbnails (`Thumbnail`, `SetThumbnailFromBooth`, `SaveThumbnail`) and scene-view settings are not modelled. They only draw.
- `SaveMaterialFiles` (both copies), `MoveAsset`, the folder moves around the export, `AssetDatabase.ExportPackage` and `ImportPackage` are external editor effects. They are not modelled; the export and import are stated as the lists handed to them.
- MD5 is an oracle (`digest`); hex formatting of the bytes is not modelled.
- `Guid.NewGuid`, the zip archive's entries, `UnityPackageSelector`'s choice and the success of `ExtractToFile` are oracle values carried by `ZipFile` / `PackageFile` and the parameters of `UnzipFile`.
- `ContentsPath` (the root, assets, unzip and modified folders) and the documents folder are parameters or a constant `Unzip/` prefix. `ContentsPath.cs` is not part of this model.
- `EditorPrefs` and `LoadSettings` (the history's output path) are left out. There is one history file.
- `OnDestroy` and `CleanUp` of the windows, and scene-view callbacks, are not modelled.
- Unity's "destroyed object equals null" test is modelled by the constant `destroyed` flag of `GameObject`. The hierarchy of transforms is given as a sequence.
- Walking a prefab's components and `SerializedProperty` iteration is replaced by an array of reference slots. `ApplyModifiedProperties`, `SetDirty` and `ApplyPrefabInstance` are left out.
- The history file is a `HistoryFile` value. The throws of `HashCheck` (missing, unparsable or list-less history) and of `RestoreOriginalReferences` (unparsable history, or a list-less one at the first reference into `Assets/_Modify/`) are modelled in `SaveAsModifiedAvatar.Window.Save` through `ExportThrows`. The thumbnail image already written by `SaveThumbnail`, and the export's file moves and package written before a late throw, are not modelled.
- Dictionary enumeration order in `RestoreOriginalLayers` is not observable in the model. Each object has one saved layer.
- `ToLower` is modelled on ASCII letters only, with no culture rules.
- `Path.GetFullPath` in `UpdateUnityPackage` is left out. The source path is used as given.
- AssetDataController.Registry.UpdateUnityPackage: when the uid no longer resolves, the source throws a null reference exception before writing. The model leaves the file untouched, which has the same effect on the stored file.
- DetailWindow.Window.Back, FollowLink, Edit: the `requires` on a non-empty history or a shown asset stand for the GUI, which only draws those buttons in that state.
- ItemSelector.Window.Select: the `requires` on the index stands for the button being drawn for an entry of the list. The callback is modelled as the returned uid, which the caller then applies.
- DetailWindow.Forwarded models the history reversal exactly as written; no corrected variant is used instead.
- VrchatAssetManager.Window, VrchatUnityPackageManager.Window: the browser's records are values, so the model does not capture that the grid hands its own `AssetData` object to `DetailWindow.ShowWindow` (VrchatAssetManager.cs:123, VrchatUnityPackageManager.cs:119). Through the support-avatar list that `Clone` shares with the popup's draft, an avatar added or removed and then cancelled still changes the browser's in-memory record, so its avatar filter matches that unsaved edit until the next sync or refresh. `DetailWindow.SupportAvatarEditLeaks` states the leak on the popup's own asset.
- `OnEnable` of the browser windows triggers auto-registration; the window constructors take the registry list already loaded.
- AssetDataController.RelativePath: removes the root only as a prefix of the path; `Replace` would also remove a later repetition of the root text. The paths enumerated from the assets folder are taken as already using `/`.
