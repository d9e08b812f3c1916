/** The asset detail window: the edit session (`Edit` takes a clone of the
    shown asset, `Save` stores a clone of the edited copy, `Cancel` drops
    it), the navigation history, and the edit-mode callbacks of the three uid
    lists, where old-version edits flip the `isLatest` flag of the other
    record in the registry at once.

    The history is a stack; here it is a sequence whose last element is the
    top. Following a link copies the stack with `new Stack(stack)`, which
    enumerates it top first and so reverses the entries below the pushed
    one; `Back` copies it through `ToArray().Reverse()`, which keeps the
    order. */
module DetailWindow {
  import opened Wrappers
  import opened JsonSchema
  import opened AssetDataController
  import opened EditCallbacks
  import Seqs

  /** The history after following a link from `current`. */
  function Forwarded<T>(history: seq<T>, current: T): (r: seq<T>)
    ensures |r| == |history| + 1 && r[|history|] == current
    ensures forall i :: 0 <= i < |history| ==> r[i] == history[|history| - 1 - i]
  {
    Seqs.Reverse(history) + [current]
  }

  /** With at most one entry below, following a link keeps the history in
      order, so the first two links and `Back` agree. */
  lemma ForwardedShortHistory<T>(history: seq<T>, current: T)
    requires |history| <= 1
    ensures Forwarded(history, current) == history + [current]
  {
  }

  /** `Back` right after a link returns to the asset the link started from,
      but leaves the older entries reversed. */
  lemma BackAfterForward<T>(history: seq<T>, current: T)
    ensures var h := Forwarded(history, current);
            h[|h| - 1] == current && h[..|h| - 1] == Seqs.Reverse(history)
  {
    var h := Forwarded(history, current);
    assert h[..|h| - 1] == Seqs.Reverse(history);
  }

  /** Opening `a`, following links to `b`, `c` and `d`, and pressing `Back`
      twice shows `a`, not `b`: the third link reversed the entries `a, b`. */
  lemma SecondBackSkipsAnEntry<T>(a: T, b: T, c: T)
    ensures Forwarded(Forwarded(Forwarded([], a), b), c) == [b, a, c]
  {
    assert Forwarded([], a) == [a];
    assert Forwarded([a], b) == [a, b];
  }

  class Window {
    var editMode: bool
    var assetData: AssetData?
    var tmp: AssetData?
    var history: seq<AssetData>
    var registry: Registry

    /** A window as `GetWindow` first creates it. */
    constructor (registry: Registry)
      ensures !editMode && assetData == null && tmp == null && history == []
      ensures this.registry == registry
    {
      editMode := false;
      assetData := null;
      tmp := null;
      history := [];
      this.registry := registry;
    }

    /** In edit mode there is an edited copy, distinct from the shown asset,
        whose dependency and old-version lists exist and are separate
        objects (its support-avatar list may be the shown asset's). */
    ghost predicate Valid()
      reads this, tmp
    {
      editMode ==>
        tmp != null && tmp != assetData
        && tmp.dependencies != null && tmp.oldVersions != null
        && tmp.dependencies != tmp.oldVersions
        && tmp.supportAvatar != tmp.dependencies && tmp.supportAvatar != tmp.oldVersions
    }

    /** `ShowWindow`: a null asset is refused; otherwise it is shown with the
        given history (null means empty) and the view leaves edit mode. The
        edited copy is not cleared. */
    method ShowWindow(asset: AssetData?, previousHistory: Option<seq<AssetData>>)
      modifies this
      ensures asset == null ==> assetData == old(assetData) && history == old(history) && editMode == old(editMode)
      ensures asset != null ==> assetData == asset && history == previousHistory.GetOr([]) && !editMode
      ensures tmp == old(tmp) && registry == old(registry)
      ensures asset != null ==> Valid()
    {
      if asset == null {
        return;
      }
      assetData := asset;
      history := previousHistory.GetOr([]);
      editMode := false;
    }

    /** `Back`: the top entry is shown and the rest of the stack is kept in
        its order. */
    method Back()
      requires |history| > 0
      modifies this
      ensures assetData == old(history[|history| - 1])
      ensures history == old(history[..|history| - 1])
      ensures !editMode && tmp == old(tmp) && registry == old(registry)
    {
      var previousAsset := history[|history| - 1];
      var newHistory := history[..|history| - 1];
      ShowWindow(previousAsset, Some(newHistory));
    }

    /** A link button (support avatar, dependency or old version): when the
        uid resolves, a new object for that record is shown and the current
        asset is pushed on a copy of the history made by `new Stack(stack)`. */
    method FollowLink(uid: string)
      requires assetData != null
      modifies this
      ensures registry == old(registry) && tmp == old(tmp)
      ensures GetAssetData(registry.Assets(), uid).None? ==>
                assetData == old(assetData) && history == old(history) && editMode == old(editMode)
      ensures GetAssetData(registry.Assets(), uid).Some? ==>
                fresh(assetData) && assetData.ToRecord() == GetAssetData(registry.Assets(), uid).value
                && history == Forwarded(old(history), old(assetData)) && !editMode
    {
      var found := GetAssetData(registry.Assets(), uid);
      if found.None? {
        return;
      }
      var target := new AssetData.FromRecord(found.value);
      var newHistory := Seqs.Reverse(history) + [assetData];
      ShowWindow(target, Some(newHistory));
    }

    /** `Edit`: edit mode with a clone of the shown asset as the edited copy;
        the clone shares the support-avatar list. */
    method Edit()
      requires assetData != null
      modifies this
      ensures assetData == old(assetData) && history == old(history) && registry == old(registry)
      ensures editMode && Valid()
      ensures fresh(tmp) && tmp.ToRecord() == assetData.ToRecord()
      ensures tmp.supportAvatar == assetData.supportAvatar
      ensures fresh(tmp.dependencies) && fresh(tmp.oldVersions)
    {
      editMode := true;
      tmp := assetData.Clone();
    }

    /** `Save`: the shown asset becomes a clone of the edited copy and is
        stored under its uid; the edited copy is dropped. */
    method Save()
      requires editMode && Valid()
      modifies this, registry
      ensures !editMode && tmp == null
      ensures fresh(assetData) && assetData.ToRecord() == old(tmp.ToRecord())
      ensures assetData.supportAvatar == old(tmp.supportAvatar)
      ensures registry == old(registry) && history == old(history)
      ensures registry.Assets() == UpdateAsset(old(registry.Assets()), old(tmp.uid), old(tmp.ToRecord()))
    {
      var saved := tmp.Clone();
      assetData := saved;
      registry.UpdateAssetData(saved.uid, saved.ToRecord());
      tmp := null;
      editMode := false;
    }

    /** `Cancel`: leave edit mode and drop the edited copy; nothing is stored. */
    method Cancel()
      modifies this
      ensures !editMode && tmp == null
      ensures assetData == old(assetData) && history == old(history) && registry == old(registry)
      ensures unchanged(registry)
    {
      tmp := null;
      editMode := false;
    }

    /** The add-support-avatar callback. The list object is kept when it
        exists, so an add through a clone shows in the original too. */
    method AddSupportAvatar(uid: Option<string>)
      requires editMode && Valid()
      modifies tmp, tmp.supportAvatar
      ensures Valid() && tmp.Scalars() == old(tmp.Scalars())
      ensures uid.None? ==> tmp.supportAvatar == old(tmp.supportAvatar)
      ensures uid.Some? ==> ItemsOf(tmp.supportAvatar) == old(ItemsOf(tmp.supportAvatar)) + [uid.value]
      ensures old(tmp.supportAvatar) != null ==> tmp.supportAvatar == old(tmp.supportAvatar)
      ensures tmp.dependencies == old(tmp.dependencies) && tmp.oldVersions == old(tmp.oldVersions)
      ensures ItemsOf(tmp.dependencies) == old(ItemsOf(tmp.dependencies))
      ensures ItemsOf(tmp.oldVersions) == old(ItemsOf(tmp.oldVersions))
    {
      if uid.None? {
        return;
      }
      var l := AddOrCreate(tmp.supportAvatar, uid.value);
      tmp.supportAvatar := l;
    }

    /** The add-dependency callback. */
    method AddDependency(uid: Option<string>)
      requires editMode && Valid()
      modifies tmp.dependencies
      ensures Valid()
      ensures ItemsOf(tmp.dependencies) == old(ItemsOf(tmp.dependencies)) + (if uid.Some? then [uid.value] else [])
      ensures ItemsOf(tmp.oldVersions) == old(ItemsOf(tmp.oldVersions))
      ensures ItemsOf(tmp.supportAvatar) == old(ItemsOf(tmp.supportAvatar))
    {
      if uid.None? {
        return;
      }
      var _ := AddOrCreate(tmp.dependencies, uid.value);
    }

    /** The add-old-version callback: the uid is listed and its record is
        marked as no longer latest in the registry at once. */
    method AddOldVersion(uid: Option<string>)
      requires editMode && Valid()
      modifies tmp, tmp.oldVersions, registry
      ensures Valid() && tmp.Scalars() == old(tmp.Scalars())
      ensures ItemsOf(tmp.oldVersions) == old(ItemsOf(tmp.oldVersions)) + (if uid.Some? then [uid.value] else [])
      ensures registry.Assets() == (if uid.Some? then MarkLatest(old(registry.Assets()), uid.value, false)
                                    else old(registry.Assets()))
      ensures ItemsOf(tmp.dependencies) == old(ItemsOf(tmp.dependencies))
      ensures ItemsOf(tmp.supportAvatar) == old(ItemsOf(tmp.supportAvatar))
    {
      EditCallbacks.AddOldVersion(tmp, registry, uid);
    }

    /** One frame of the support-avatar remove buttons. The list may be the
        shown asset's own. */
    method RemoveSupportAvatar(clicked: set<int>) returns (removed: Option<string>)
      requires editMode && Valid()
      modifies tmp.supportAvatar
      ensures Valid()
      ensures removed == (if tmp.supportAvatar == null then None
                          else Chosen(registry.Assets(), old(tmp.supportAvatar.items), clicked))
      ensures ItemsOf(tmp.supportAvatar) == AfterRemoval(old(ItemsOf(tmp.supportAvatar)), removed)
      ensures ItemsOf(tmp.dependencies) == old(ItemsOf(tmp.dependencies))
      ensures ItemsOf(tmp.oldVersions) == old(ItemsOf(tmp.oldVersions))
    {
      removed := RemoveClicked(tmp.supportAvatar, registry.Assets(), clicked);
    }

    /** One frame of the dependency remove buttons. */
    method RemoveDependency(clicked: set<int>) returns (removed: Option<string>)
      requires editMode && Valid()
      modifies tmp.dependencies
      ensures Valid()
      ensures removed == Chosen(registry.Assets(), old(tmp.dependencies.items), clicked)
      ensures tmp.dependencies.items == AfterRemoval(old(tmp.dependencies.items), removed)
      ensures ItemsOf(tmp.supportAvatar) == old(ItemsOf(tmp.supportAvatar))
      ensures ItemsOf(tmp.oldVersions) == old(ItemsOf(tmp.oldVersions))
    {
      removed := RemoveClicked(tmp.dependencies, registry.Assets(), clicked);
    }

    /** One frame of the old-version remove buttons: the removed uid's record
        is marked latest again. */
    method RemoveOldVersion(clicked: set<int>) returns (removed: Option<string>)
      requires editMode && Valid()
      modifies tmp.oldVersions, registry
      ensures Valid()
      ensures removed == Chosen(old(registry.Assets()), old(tmp.oldVersions.items), clicked)
      ensures tmp.oldVersions.items == AfterRemoval(old(tmp.oldVersions.items), removed)
      ensures registry.Assets() == (match removed
                                    case None => old(registry.Assets())
                                    case Some(u) => MarkLatest(old(registry.Assets()), u, true))
      ensures ItemsOf(tmp.supportAvatar) == old(ItemsOf(tmp.supportAvatar))
      ensures ItemsOf(tmp.dependencies) == old(ItemsOf(tmp.dependencies))
    {
      removed := EditCallbacks.RemoveOldVersion(tmp, registry, clicked);
    }
  }

  /** Editing a shown asset, adding a support avatar and cancelling still
      changes the shown asset's support avatars: the edited copy shares the
      list. */
  method SupportAvatarEditLeaks(w: Window, uid: string)
    requires w.assetData != null && w.assetData.supportAvatar != null
    requires w.assetData.dependencies != w.assetData.supportAvatar
    requires w.assetData.oldVersions != w.assetData.supportAvatar
    modifies w, w.assetData.supportAvatar
    ensures w.assetData == old(w.assetData) && !w.editMode && w.tmp == null
    ensures w.assetData.supportAvatar == old(w.assetData.supportAvatar)
    ensures w.assetData.supportAvatar.items == old(w.assetData.supportAvatar.items) + [uid]
  {
    w.Edit();
    w.AddSupportAvatar(Some(uid));
    w.Cancel();
  }

  /** Adding an old version and then cancelling the edit keeps the registry
      change: the old version stays marked as not latest. */
  method OldVersionFlagSurvivesCancel(w: Window, uid: string)
    requires w.assetData != null
    modifies w, w.registry
    ensures !w.editMode && w.tmp == null && w.registry == old(w.registry)
    ensures w.registry.Assets() == MarkLatest(old(w.registry.Assets()), uid, false)
  {
    w.Edit();
    w.AddOldVersion(Some(uid));
    w.Cancel();
  }
}
