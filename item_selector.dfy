/** The item-selector popup: a searchable list of records, each with a "+"
    button that hands the record's uid to the caller. Entries whose uid is in
    the ignore list are disabled, and the caller's own record is not
    offered at all.

    The caller's callback is modelled by `Select` returning the uid it would
    be invoked with (or `None` when the button is disabled); what a caller
    does with it is modelled in its own module. The ignore list is the
    caller's list object, not a copy, so what the callback adds to it
    disables that entry from then on. */
module ItemSelector {
  import opened Wrappers
  import opened JsonSchema
  import Seqs
  import Strings

  /** `FilterAssets`' test of one record. */
  predicate Listed(search: string, selfUid: Option<string>, a: AssetRecord) {
    (search == "" || Strings.ContainsIgnoringCase(a.name, search))
    && (selfUid.None? || a.uid != selfUid.value)
  }

  function ListedBy(search: string, selfUid: Option<string>): AssetRecord -> bool {
    a => Listed(search, selfUid, a)
  }

  /** A record is listed iff the search is empty or its name contains the
      search ignoring case, and it is not the caller's own record; the list
      keeps the original order. */
  lemma ListedSpec(assets: seq<AssetRecord>, search: string, selfUid: Option<string>, a: AssetRecord)
    ensures var r := Seqs.Filter(assets, ListedBy(search, selfUid));
            (a in r <==>
               a in assets
               && (search == "" || Strings.ContainsIgnoringCase(a.name, search))
               && (selfUid.Some? ==> a.uid != selfUid.value))
            && Seqs.IsSubsequence(r, assets)
  {
    Seqs.FilterMembership(assets, ListedBy(search, selfUid), a);
    Seqs.FilterIsSubsequence(assets, ListedBy(search, selfUid));
  }

  /** The caller's own record is never offered, whatever the search. */
  lemma SelfNeverListed(assets: seq<AssetRecord>, search: string, self: string)
    ensures forall a :: a in Seqs.Filter(assets, ListedBy(search, Some(self))) ==> a.uid != self
  {
    Seqs.FilterAllSatisfy(assets, ListedBy(search, Some(self)));
  }

  /** With an empty search and no caller record, every record is listed, in
      order. */
  lemma EmptySearchListsAll(assets: seq<AssetRecord>)
    ensures Seqs.Filter(assets, ListedBy("", None)) == assets
  {
    Seqs.FilterAllPass(assets, ListedBy("", None));
  }

  class Window {
    var searchItem: string
    /** `None` until the list is first filtered. */
    var filteredAssetList: Option<seq<AssetRecord>>
    var assetDataList: seq<AssetRecord>
    var ignoreList: StringList
    var selfUid: Option<string>
    var closed: bool

    /** Whenever a filtered list has been computed, it is the list the current
        search gives (until the window closes). */
    ghost predicate Valid()
      reads this
    {
      !closed && filteredAssetList.Some? ==>
        filteredAssetList.value == Seqs.Filter(assetDataList, ListedBy(searchItem, selfUid))
    }

    /** `ShowWindow`: the record list is copied (records are values, so the
        copy is the list itself), a missing ignore list becomes a new empty
        one, and the caller's uid is kept. */
    constructor ShowWindow(assets: seq<AssetRecord>, ignore: StringList?, self: Option<string>)
      ensures Valid()
      ensures assetDataList == assets && selfUid == self
      ensures ignore != null ==> ignoreList == ignore
      ensures ignore == null ==> fresh(ignoreList) && ignoreList.items == []
      ensures searchItem == "" && filteredAssetList == None && !closed
    {
      searchItem := "";
      filteredAssetList := None;
      assetDataList := assets;
      if ignore != null {
        ignoreList := ignore;
      } else {
        ignoreList := new StringList([]);
      }
      selfUid := self;
      closed := false;
    }

    /** `FilterAssets`. */
    method FilterAssets()
      modifies this
      ensures filteredAssetList == Some(Seqs.Filter(assetDataList, ListedBy(searchItem, selfUid)))
      ensures searchItem == old(searchItem) && assetDataList == old(assetDataList)
      ensures ignoreList == old(ignoreList) && selfUid == old(selfUid) && closed == old(closed)
    {
      filteredAssetList := Some(Seqs.Filter(assetDataList, ListedBy(searchItem, selfUid)));
    }

    /** One `OnGUI` pass in which the text field returns `typed`: the list is
        filtered again only when it never was or the search changed, and it
        then matches the search. */
    method OnGUI(typed: string)
      requires Valid()
      modifies this
      ensures Valid()
      ensures searchItem == typed
      ensures old(filteredAssetList).None? || old(searchItem) != typed ==>
                filteredAssetList == Some(Seqs.Filter(assetDataList, ListedBy(typed, selfUid)))
      ensures old(filteredAssetList).Some? && old(searchItem) == typed ==>
                filteredAssetList == old(filteredAssetList)
      ensures filteredAssetList.Some?
      ensures assetDataList == old(assetDataList) && ignoreList == old(ignoreList)
      ensures selfUid == old(selfUid) && closed == old(closed)
    {
      var previousSearch := searchItem;
      searchItem := typed;
      if filteredAssetList == None {
        FilterAssets();
      }
      if previousSearch != searchItem {
        FilterAssets();
      }
    }

    /** The "+" button of the `i`-th listed record: the uid the callback
        receives, or `None` when the entry is disabled because its uid is in
        the ignore list. */
    method Select(i: nat) returns (picked: Option<string>)
      requires filteredAssetList.Some? && i < |filteredAssetList.value|
      ensures picked.Some? <==> filteredAssetList.value[i].uid !in ignoreList.items
      ensures picked.Some? ==> picked.value == filteredAssetList.value[i].uid
    {
      var uid := filteredAssetList.value[i].uid;
      if uid in ignoreList.items {
        picked := None;
      } else {
        picked := Some(uid);
      }
    }

    /** `OnLostFocus`: the search is cleared and the window closes. */
    method OnLostFocus()
      modifies this
      ensures Valid()
      ensures searchItem == "" && closed
      ensures filteredAssetList == old(filteredAssetList) && assetDataList == old(assetDataList)
      ensures ignoreList == old(ignoreList) && selfUid == old(selfUid)
    {
      searchItem := "";
      closed := true;
    }
  }

  /** The caller's list is the ignore list: once the callback has added the
      picked uid, the same entry is disabled, so it cannot be added twice. */
  method RepickDisabled(w: Window, i: nat) returns (first: Option<string>, second: Option<string>)
    requires w.filteredAssetList.Some? && i < |w.filteredAssetList.value|
    modifies w.ignoreList
    ensures first.Some? ==> second.None?
    ensures first.Some? ==> w.ignoreList.items == old(w.ignoreList.items) + [first.value]
  {
    first := w.Select(i);
    if first.Some? {
      w.ignoreList.Add(first.value);
    }
    second := w.Select(i);
  }

  /** A caller whose list was null: the selector's ignore list is a new empty
      list and the callback creates another one, so the entry stays enabled
      and the same uid can be picked again. */
  method RepickAfterNullList(assets: seq<AssetRecord>, self: Option<string>, target: AssetData, i: nat)
      returns (w: Window, first: Option<string>, second: Option<string>)
    requires target.supportAvatar == null
    requires i < |Seqs.Filter(assets, ListedBy("", self))|
    modifies target
    ensures first.Some? && second == first
    ensures target.supportAvatar != null && target.supportAvatar.items == [first.value]
  {
    w := new Window.ShowWindow(assets, target.supportAvatar, self);
    w.OnGUI("");
    first := w.Select(i);
    target.supportAvatar := new StringList([]);
    target.supportAvatar.Add(first.value);
    second := w.Select(i);
  }
}
