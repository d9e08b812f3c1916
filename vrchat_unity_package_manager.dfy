/** The older package-manager window. It keeps the same state and does the
    same things as the asset manager; its filter additionally guards the
    support-avatar list against null before testing membership. */
module VrchatUnityPackageManager {
  import opened JsonSchema
  import Seqs
  import Strings
  import Am = VrchatAssetManager

  /** `FilterAssets`' test of one record. The source guards the support-avatar
      test with a null and `Count > 0` check; a record read from the registry
      file never has a null list (a missing list is read as an empty one), so
      the guard is the `Count > 0` test alone here. */
  predicate Matches(searchName: string, searchDescription: string, selected: string,
                    nameToUid: map<string, string>, a: AssetRecord)
  {
    var nameOk := searchName == "" || Strings.ContainsIgnoringCase(a.name, searchName);
    var descriptionOk := searchDescription == "" || Strings.ContainsIgnoringCase(a.description, searchDescription);
    var avatarOk :=
      if selected == Am.NoAvatar then true
      else if selected !in nameToUid then false
      else a.uid == nameToUid[selected]
           || (|a.supportAvatar| > 0 && nameToUid[selected] in a.supportAvatar);
    nameOk && descriptionOk && avatarOk
  }

  function FilterOf(searchName: string, searchDescription: string, selected: string,
                    nameToUid: map<string, string>): AssetRecord -> bool
  {
    a => Matches(searchName, searchDescription, selected, nameToUid, a)
  }

  /** The extra null guard changes nothing: both windows pass the same
      records. */
  lemma SameTestAsAssetManager(searchName: string, searchDescription: string, selected: string,
                               nameToUid: map<string, string>, a: AssetRecord)
    ensures Matches(searchName, searchDescription, selected, nameToUid, a)
            == Am.Matches(searchName, searchDescription, selected, nameToUid, a)
  {
  }

  /** Hence the two windows' filtered lists are equal, and everything proved
      about the asset manager's filter (the three-way test, the order, the
      whole list when the filter is off) holds here. */
  lemma SameFilterAsAssetManager(assets: seq<AssetRecord>, searchName: string, searchDescription: string,
                                 selected: string, nameToUid: map<string, string>)
    ensures Seqs.Filter(assets, FilterOf(searchName, searchDescription, selected, nameToUid))
            == Seqs.Filter(assets, Am.FilterOf(searchName, searchDescription, selected, nameToUid))
  {
    forall a: AssetRecord
      ensures FilterOf(searchName, searchDescription, selected, nameToUid)(a)
              == Am.FilterOf(searchName, searchDescription, selected, nameToUid)(a)
    {
      SameTestAsAssetManager(searchName, searchDescription, selected, nameToUid, a);
    }
    Seqs.FilterSamePredicate(assets, FilterOf(searchName, searchDescription, selected, nameToUid),
                             Am.FilterOf(searchName, searchDescription, selected, nameToUid));
  }

  /** A record passes iff its name and description contain the search strings
      (ignoring case, an empty string always passing) and the avatar filter is
      off, or the record is the selected avatar, or it supports that avatar. */
  lemma FilterSpec(assets: seq<AssetRecord>, searchName: string, searchDescription: string,
                   selected: string, nameToUid: map<string, string>, a: AssetRecord)
    ensures var r := Seqs.Filter(assets, FilterOf(searchName, searchDescription, selected, nameToUid));
            (a in r <==>
               a in assets
               && (searchName == "" || Strings.ContainsIgnoringCase(a.name, searchName))
               && (searchDescription == "" || Strings.ContainsIgnoringCase(a.description, searchDescription))
               && (selected == Am.NoAvatar
                   || (selected in nameToUid
                       && (a.uid == nameToUid[selected] || nameToUid[selected] in a.supportAvatar))))
            && Seqs.IsSubsequence(r, assets)
  {
    SameFilterAsAssetManager(assets, searchName, searchDescription, selected, nameToUid);
    Am.FilterSpec(assets, searchName, searchDescription, selected, nameToUid, a);
  }

  class Window {
    var selectedAssetType: AssetType
    var searchName: string
    var searchDescription: string
    var selectedSupportAvatar: string
    var assetDataList: seq<AssetRecord>
    var filteredAssetList: seq<AssetRecord>
    var avatarNames: seq<string>
    var avatarNameToUid: map<string, string>

    /** `OnEnable`, given the list read after auto-registration. */
    constructor (assets: seq<AssetRecord>)
      ensures selectedAssetType == Unregistered
      ensures assetDataList == assets && filteredAssetList == assets
      ensures searchName == "" && searchDescription == "" && selectedSupportAvatar == Am.NoAvatar
      ensures avatarNames == Am.AvatarNames(Seqs.Filter(assets, Am.LatestAvatar))
      ensures avatarNameToUid == Am.NameToUid(Seqs.Filter(assets, Am.LatestAvatar))
    {
      selectedAssetType := Unregistered;
      assetDataList := assets;
      filteredAssetList := assets;
      searchName := "";
      searchDescription := "";
      selectedSupportAvatar := Am.NoAvatar;
      var names, nameToUid := Am.BuildAvatarList(assets);
      avatarNames, avatarNameToUid := names, nameToUid;
    }

    /** What the grid shows: the filtered records of the selected type that
        are latest, in the filtered list's order. */
    function Grid(): (r: seq<AssetRecord>)
      reads this
      ensures forall a :: a in r <==> a in filteredAssetList && a.assetType == selectedAssetType && a.isLatest
      ensures Seqs.IsSubsequence(r, filteredAssetList)
    {
      Am.GridMembers(filteredAssetList, selectedAssetType);
      Seqs.FilterIsSubsequence(filteredAssetList, Am.OfTypeLatest(selectedAssetType));
      Seqs.Filter(filteredAssetList, Am.OfTypeLatest(selectedAssetType))
    }

    /** `UpdateAvatarList`: the popup is rebuilt and the avatar filter is
        switched off. */
    method UpdateAvatarList()
      modifies this
      ensures avatarNames == Am.AvatarNames(Seqs.Filter(assetDataList, Am.LatestAvatar))
      ensures avatarNameToUid == Am.NameToUid(Seqs.Filter(assetDataList, Am.LatestAvatar))
      ensures selectedSupportAvatar == Am.NoAvatar
      ensures assetDataList == old(assetDataList) && filteredAssetList == old(filteredAssetList)
      ensures searchName == old(searchName) && searchDescription == old(searchDescription)
      ensures selectedAssetType == old(selectedAssetType)
    {
      avatarNames, avatarNameToUid := Am.BuildAvatarList(assetDataList);
      selectedSupportAvatar := Am.NoAvatar;
    }

    /** `FilterAssets`: the shown list becomes the records passing the current
        search, the same list the asset manager would show. */
    method FilterAssets()
      modifies this
      ensures filteredAssetList == Seqs.Filter(assetDataList,
                FilterOf(searchName, searchDescription, selectedSupportAvatar, avatarNameToUid))
      ensures filteredAssetList == Seqs.Filter(assetDataList,
                Am.FilterOf(searchName, searchDescription, selectedSupportAvatar, avatarNameToUid))
      ensures assetDataList == old(assetDataList) && avatarNames == old(avatarNames)
      ensures avatarNameToUid == old(avatarNameToUid) && selectedSupportAvatar == old(selectedSupportAvatar)
      ensures searchName == old(searchName) && searchDescription == old(searchDescription)
      ensures selectedAssetType == old(selectedAssetType)
    {
      filteredAssetList := Seqs.Filter(assetDataList,
        FilterOf(searchName, searchDescription, selectedSupportAvatar, avatarNameToUid));
      SameFilterAsAssetManager(assetDataList, searchName, searchDescription, selectedSupportAvatar, avatarNameToUid);
    }

    /** The Reset button. */
    method Reset()
      modifies this
      ensures searchName == "" && searchDescription == "" && selectedSupportAvatar == Am.NoAvatar
      ensures filteredAssetList == assetDataList
      ensures assetDataList == old(assetDataList) && avatarNames == old(avatarNames)
      ensures avatarNameToUid == old(avatarNameToUid) && selectedAssetType == old(selectedAssetType)
    {
      searchName := "";
      searchDescription := "";
      selectedSupportAvatar := Am.NoAvatar;
      filteredAssetList := assetDataList;
    }

    /** The Sync button, given the list read after auto-registration. */
    method Sync(assets: seq<AssetRecord>)
      modifies this
      ensures assetDataList == assets && filteredAssetList == assets
      ensures searchName == "" && searchDescription == "" && selectedSupportAvatar == Am.NoAvatar
      ensures avatarNames == Am.AvatarNames(Seqs.Filter(assets, Am.LatestAvatar))
      ensures avatarNameToUid == Am.NameToUid(Seqs.Filter(assets, Am.LatestAvatar))
      ensures selectedAssetType == old(selectedAssetType)
    {
      assetDataList := assets;
      UpdateAvatarList();
      filteredAssetList := assetDataList;
      searchName := "";
      searchDescription := "";
      selectedSupportAvatar := Am.NoAvatar;
    }

    /** `RefreshAssetList`, given the list read again: the avatar filter is
        off by the time the filter runs. */
    method RefreshAssetList(assets: seq<AssetRecord>)
      modifies this
      ensures assetDataList == assets && selectedSupportAvatar == Am.NoAvatar
      ensures filteredAssetList == Seqs.Filter(assets, FilterOf(searchName, searchDescription, Am.NoAvatar, avatarNameToUid))
      ensures searchName == old(searchName) && searchDescription == old(searchDescription)
      ensures avatarNames == Am.AvatarNames(Seqs.Filter(assets, Am.LatestAvatar))
      ensures avatarNameToUid == Am.NameToUid(Seqs.Filter(assets, Am.LatestAvatar))
      ensures selectedAssetType == old(selectedAssetType)
    {
      assetDataList := assets;
      UpdateAvatarList();
      FilterAssets();
    }
  }
}
