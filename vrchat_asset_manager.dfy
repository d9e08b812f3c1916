/** The package-manager window: the search filter over the registry list,
    the support-avatar popup built from the latest avatars, the grid of the
    selected asset type and the reset button.

    The window holds the list `GetAllAssetData` returned. The window itself
    does not change those records, so they are values here; the detail popup
    it opens on one of them can, through the support-avatar list its edit
    copy shares, and that sharing is not captured. */
module VrchatAssetManager {
  import opened JsonSchema
  import Seqs
  import Strings

  /** The popup entry that switches the avatar filter off. */
  const NoAvatar: string := "None"

  /** The records offered in the avatar popup. */
  predicate LatestAvatar(a: AssetRecord) {
    a.assetType == Avatar && a.isLatest
  }

  /** The popup's entries: "None", then the avatars' names in list order. */
  function AvatarNames(avatars: seq<AssetRecord>): (r: seq<string>)
    ensures |r| == |avatars| + 1 && r[0] == NoAvatar
    ensures forall i :: 0 <= i < |avatars| ==> r[i + 1] == avatars[i].name
  {
    [NoAvatar] + seq(|avatars|, i requires 0 <= i < |avatars| => avatars[i].name)
  }

  /** The name-to-uid dictionary, filled in list order, so a later avatar
      with the same name overwrites an earlier one. */
  function NameToUid(avatars: seq<AssetRecord>): map<string, string>
    decreases |avatars|
  {
    if avatars == [] then map[]
    else
      var last := avatars[|avatars| - 1];
      NameToUid(avatars[..|avatars| - 1])[last.name := last.uid]
  }

  /** `i` is the last avatar named `name`. */
  predicate LastWithName(avatars: seq<AssetRecord>, name: string, i: int) {
    0 <= i < |avatars| && avatars[i].name == name
    && forall j :: i < j < |avatars| ==> avatars[j].name != name
  }

  /** Every avatar name is a key, and only those; a key maps to the uid of the
      last avatar carrying that name. */
  lemma {:induction false} NameToUidSpec(avatars: seq<AssetRecord>, name: string)
    ensures name in NameToUid(avatars) <==> exists i :: 0 <= i < |avatars| && avatars[i].name == name
    ensures name in NameToUid(avatars) ==>
              exists i :: LastWithName(avatars, name, i) && NameToUid(avatars)[name] == avatars[i].uid
  {
    if avatars != [] {
      var n := |avatars| - 1;
      var init := avatars[..n];
      var m := NameToUid(init);
      NameToUidSpec(init, name);
      assert NameToUid(avatars) == m[avatars[n].name := avatars[n].uid];
      if avatars[n].name == name {
        assert LastWithName(avatars, name, n);
      } else {
        assert (name in NameToUid(avatars)) == (name in m);
        if name in m {
          var i :| LastWithName(init, name, i) && m[name] == init[i].uid;
          LastInPrefix(avatars, name, i);
          assert NameToUid(avatars)[name] == avatars[i].uid;
        }
        if exists i :: 0 <= i < |avatars| && avatars[i].name == name {
          var i :| 0 <= i < |avatars| && avatars[i].name == name;
          assert init[i].name == name;
        }
      }
    }
  }

  /** The last avatar of a prefix named `name` stays last when the final
      avatar is named otherwise. */
  lemma LastInPrefix(avatars: seq<AssetRecord>, name: string, i: int)
    requires avatars != [] && avatars[|avatars| - 1].name != name
    requires LastWithName(avatars[..|avatars| - 1], name, i)
    ensures LastWithName(avatars, name, i)
  {
    assert forall j :: 0 <= j < |avatars| - 1 ==> avatars[..|avatars| - 1][j] == avatars[j];
  }

  /** `UpdateAvatarList`: the latest avatars, then the loop over them. */
  method BuildAvatarList(assets: seq<AssetRecord>) returns (names: seq<string>, nameToUid: map<string, string>)
    ensures names == AvatarNames(Seqs.Filter(assets, LatestAvatar))
    ensures nameToUid == NameToUid(Seqs.Filter(assets, LatestAvatar))
  {
    var avatars := Seqs.Filter(assets, LatestAvatar);
    names, nameToUid := CollectAvatars(avatars);
  }

  /** The loop filling the popup's names and the dictionary. */
  method CollectAvatars(avatars: seq<AssetRecord>) returns (names: seq<string>, nameToUid: map<string, string>)
    ensures names == AvatarNames(avatars)
    ensures nameToUid == NameToUid(avatars)
  {
    nameToUid := map[];
    names := [NoAvatar];
    for i := 0 to |avatars|
      invariant |names| == i + 1 && names[0] == NoAvatar
      invariant forall k :: 0 <= k < i ==> names[k + 1] == avatars[k].name
      invariant nameToUid == NameToUid(avatars[..i])
    {
      assert avatars[..i + 1][..i] == avatars[..i];
      names := names + [avatars[i].name];
      nameToUid := nameToUid[avatars[i].name := avatars[i].uid];
    }
    assert avatars[..|avatars|] == avatars;
  }

  /** `FilterAssets`' test of one record. */
  predicate Matches(searchName: string, searchDescription: string, selected: string,
                    nameToUid: map<string, string>, a: AssetRecord)
  {
    (searchName == "" || Strings.ContainsIgnoringCase(a.name, searchName))
    && (searchDescription == "" || Strings.ContainsIgnoringCase(a.description, searchDescription))
    && (selected == NoAvatar
        || (selected in nameToUid
            && (a.uid == nameToUid[selected]
                || (|a.supportAvatar| > 0 && nameToUid[selected] in a.supportAvatar))))
  }

  function FilterOf(searchName: string, searchDescription: string, selected: string,
                    nameToUid: map<string, string>): AssetRecord -> bool
  {
    a => Matches(searchName, searchDescription, selected, nameToUid, a)
  }

  /** A record passes iff its name and its description contain the search
      strings (ignoring case; an empty string always passes) and the avatar
      filter is off, or the record is the selected avatar, or it lists that
      avatar among its support avatars. The result keeps the list order. */
  lemma FilterSpec(assets: seq<AssetRecord>, searchName: string, searchDescription: string,
                   selected: string, nameToUid: map<string, string>, a: AssetRecord)
    ensures var r := Seqs.Filter(assets, FilterOf(searchName, searchDescription, selected, nameToUid));
            (a in r <==>
               a in assets
               && (searchName == "" || Strings.ContainsIgnoringCase(a.name, searchName))
               && (searchDescription == "" || Strings.ContainsIgnoringCase(a.description, searchDescription))
               && (selected == NoAvatar
                   || (selected in nameToUid
                       && (a.uid == nameToUid[selected] || nameToUid[selected] in a.supportAvatar))))
            && Seqs.IsSubsequence(r, assets)
  {
    Seqs.FilterMembership(assets, FilterOf(searchName, searchDescription, selected, nameToUid), a);
    Seqs.FilterIsSubsequence(assets, FilterOf(searchName, searchDescription, selected, nameToUid));
  }

  /** With empty search strings and the avatar filter off, every record passes. */
  lemma FilterOffKeepsAll(assets: seq<AssetRecord>, nameToUid: map<string, string>)
    ensures Seqs.Filter(assets, FilterOf("", "", NoAvatar, nameToUid)) == assets
  {
    Seqs.FilterAllPass(assets, FilterOf("", "", NoAvatar, nameToUid));
  }

  function OfTypeLatest(t: AssetType): AssetRecord -> bool {
    (a: AssetRecord) => a.assetType == t && a.isLatest
  }

  /** The grid shows exactly the filtered records of the selected type that are
      latest, in order. */
  lemma GridSpec(filtered: seq<AssetRecord>, t: AssetType, a: AssetRecord)
    ensures a in Seqs.Filter(filtered, OfTypeLatest(t)) <==> a in filtered && a.assetType == t && a.isLatest
  {
    Seqs.FilterMembership(filtered, OfTypeLatest(t), a);
  }

  class Window {
    var selectedAssetType: AssetType
    var searchName: string
    var searchDescription: string
    var selectedSupportAvatar: string
    var assetDataList: seq<AssetRecord>
    var filteredAssetList: seq<AssetRecord>
    var avatarNames: seq<string>
    var avatarNameToUid: map<string, string>

    /** `OnEnable`, given the list read after auto-registration: everything
        is shown, the search is cleared and the popup is built. */
    constructor (assets: seq<AssetRecord>)
      ensures selectedAssetType == Unregistered
      ensures assetDataList == assets && filteredAssetList == assets
      ensures searchName == "" && searchDescription == "" && selectedSupportAvatar == NoAvatar
      ensures avatarNames == AvatarNames(Seqs.Filter(assets, LatestAvatar))
      ensures avatarNameToUid == NameToUid(Seqs.Filter(assets, LatestAvatar))
    {
      selectedAssetType := Unregistered;
      assetDataList := assets;
      filteredAssetList := assets;
      searchName := "";
      searchDescription := "";
      selectedSupportAvatar := NoAvatar;
      var names, nameToUid := BuildAvatarList(assets);
      avatarNames, avatarNameToUid := names, nameToUid;
    }

    /** What the grid shows. */
    function Grid(): (r: seq<AssetRecord>)
      reads this
      ensures forall a :: a in r <==> a in filteredAssetList && a.assetType == selectedAssetType && a.isLatest
    {
      GridMembers(filteredAssetList, selectedAssetType);
      Seqs.Filter(filteredAssetList, OfTypeLatest(selectedAssetType))
    }

    /** `UpdateAvatarList`: the popup is rebuilt from the latest avatars and
        the avatar filter is switched off. */
    method UpdateAvatarList()
      modifies this
      ensures avatarNames == AvatarNames(Seqs.Filter(assetDataList, LatestAvatar))
      ensures avatarNameToUid == NameToUid(Seqs.Filter(assetDataList, LatestAvatar))
      ensures selectedSupportAvatar == NoAvatar
      ensures assetDataList == old(assetDataList) && filteredAssetList == old(filteredAssetList)
      ensures searchName == old(searchName) && searchDescription == old(searchDescription)
      ensures selectedAssetType == old(selectedAssetType)
    {
      avatarNames, avatarNameToUid := BuildAvatarList(assetDataList);
      selectedSupportAvatar := NoAvatar;
    }

    /** `FilterAssets`: the shown list becomes the records passing the current
        search. */
    method FilterAssets()
      modifies this
      ensures filteredAssetList == Seqs.Filter(assetDataList,
                FilterOf(searchName, searchDescription, selectedSupportAvatar, avatarNameToUid))
      ensures assetDataList == old(assetDataList) && avatarNames == old(avatarNames)
      ensures avatarNameToUid == old(avatarNameToUid) && selectedSupportAvatar == old(selectedSupportAvatar)
      ensures searchName == old(searchName) && searchDescription == old(searchDescription)
      ensures selectedAssetType == old(selectedAssetType)
    {
      filteredAssetList := Seqs.Filter(assetDataList,
        FilterOf(searchName, searchDescription, selectedSupportAvatar, avatarNameToUid));
    }

    /** The Reset button: the search is cleared, the avatar filter is
        switched off and the whole list is shown again. */
    method Reset()
      modifies this
      ensures searchName == "" && searchDescription == "" && selectedSupportAvatar == NoAvatar
      ensures filteredAssetList == assetDataList
      ensures assetDataList == old(assetDataList) && avatarNames == old(avatarNames)
      ensures avatarNameToUid == old(avatarNameToUid) && selectedAssetType == old(selectedAssetType)
    {
      searchName := "";
      searchDescription := "";
      selectedSupportAvatar := NoAvatar;
      filteredAssetList := assetDataList;
    }

    /** The Sync button, given the list read after auto-registration. */
    method Sync(assets: seq<AssetRecord>)
      modifies this
      ensures assetDataList == assets && filteredAssetList == assets
      ensures searchName == "" && searchDescription == "" && selectedSupportAvatar == NoAvatar
      ensures avatarNames == AvatarNames(Seqs.Filter(assets, LatestAvatar))
      ensures avatarNameToUid == NameToUid(Seqs.Filter(assets, LatestAvatar))
      ensures selectedAssetType == old(selectedAssetType)
    {
      assetDataList := assets;
      UpdateAvatarList();
      filteredAssetList := assetDataList;
      searchName := "";
      searchDescription := "";
      selectedSupportAvatar := NoAvatar;
    }

    /** `RefreshAssetList`, given the list read again. Rebuilding the popup
        switches the avatar filter off before the filter runs, so only the two
        search strings still apply. */
    method RefreshAssetList(assets: seq<AssetRecord>)
      modifies this
      ensures assetDataList == assets && selectedSupportAvatar == NoAvatar
      ensures filteredAssetList == Seqs.Filter(assets, FilterOf(searchName, searchDescription, NoAvatar, avatarNameToUid))
      ensures forall a :: a in filteredAssetList <==>
                a in assets
                && (searchName == "" || Strings.ContainsIgnoringCase(a.name, searchName))
                && (searchDescription == "" || Strings.ContainsIgnoringCase(a.description, searchDescription))
      ensures searchName == old(searchName) && searchDescription == old(searchDescription)
      ensures avatarNames == AvatarNames(Seqs.Filter(assets, LatestAvatar))
      ensures avatarNameToUid == NameToUid(Seqs.Filter(assets, LatestAvatar))
      ensures selectedAssetType == old(selectedAssetType)
    {
      assetDataList := assets;
      UpdateAvatarList();
      FilterAssets();
      forall a | true
        ensures a in filteredAssetList <==>
                a in assets
                && (searchName == "" || Strings.ContainsIgnoringCase(a.name, searchName))
                && (searchDescription == "" || Strings.ContainsIgnoringCase(a.description, searchDescription))
      {
        FilterSpec(assets, searchName, searchDescription, NoAvatar, avatarNameToUid, a);
      }
    }
  }

  lemma GridMembers(filtered: seq<AssetRecord>, t: AssetType)
    ensures forall a :: a in Seqs.Filter(filtered, OfTypeLatest(t)) <==> a in filtered && a.assetType == t && a.isLatest
  {
    forall a | true
      ensures a in Seqs.Filter(filtered, OfTypeLatest(t)) <==> a in filtered && a.assetType == t && a.isLatest
    {
      GridSpec(filtered, t, a);
    }
  }
}
