/** The list-editing callbacks that the detail window and the
    save-as-modified window share.

    - The version-chain flip: look a uid up in the registry and, when it
      resolves, store the record again with `isLatest` set to a given value.
    - The per-frame removal: every listed entry whose record resolves shows a
      remove button, and the last one clicked in the frame is removed by
      `List.Remove`.
    - The add callback: a null uid is ignored, a null list is replaced by a new
      empty one, and the uid is appended. */
module EditCallbacks {
  import opened Wrappers
  import opened JsonSchema
  import opened AssetDataController
  import Seqs

  // ------------------------------------------------------ version-chain flip

  /** The registry after "look `uid` up; if found, set its `isLatest` to
      `flag` and `UpdateAssetData` it by its uid". */
  function MarkLatest(assets: seq<AssetRecord>, uid: string, flag: bool): seq<AssetRecord> {
    match GetAssetData(assets, uid)
    case None => assets
    case Some(v) => UpdateAsset(assets, v.uid, v.(isLatest := flag))
  }

  /** Two registries in which the same indices hold `u`, with the same records
      at those indices, resolve `u` alike. */
  lemma {:induction false} SameMatchesResolveAlike(a: seq<AssetRecord>, b: seq<AssetRecord>, u: string)
    requires |a| == |b|
    requires forall j :: 0 <= j < |a| ==> (a[j].uid == u <==> b[j].uid == u)
    requires forall j :: 0 <= j < |a| && a[j].uid == u ==> a[j] == b[j]
    ensures CountUid(a, u) == CountUid(b, u)
    ensures FindIndex(a, u) == FindIndex(b, u)
    ensures GetAssetData(a, u) == GetAssetData(b, u)
  {
    if a != [] {
      assert forall j :: 1 <= j < |a| ==> a[1..][j - 1] == a[j] && b[1..][j - 1] == b[j];
      SameMatchesResolveAlike(a[1..], b[1..], u);
    }
  }

  /** Replacing the one record of a uid by a record with the same uid: the uid
      now resolves to the new record, and every other uid resolves as before. */
  lemma ReplaceOnlyMatch(assets: seq<AssetRecord>, i: int, rec: AssetRecord)
    requires OnlyMatchAt(assets, rec.uid, i)
    ensures FindIndex(assets, rec.uid) == i
    ensures GetAssetData(assets[i := rec], rec.uid) == Some(rec)
    ensures forall u :: u != rec.uid ==> GetAssetData(assets[i := rec], u) == GetAssetData(assets, u)
  {
    var r := assets[i := rec];
    assert OnlyMatchAt(r, rec.uid, i);
    CountOneIffOnlyMatch(r, rec.uid);
    forall u | u != rec.uid
      ensures GetAssetData(r, u) == GetAssetData(assets, u)
    {
      SameMatchesResolveAlike(assets, r, u);
    }
  }

  /** The flip changes nothing when the uid does not resolve. Otherwise it
      replaces only the uid's record, the uid then resolves to the record with
      the new flag, and every other uid resolves as before. */
  lemma MarkLatestSpec(assets: seq<AssetRecord>, uid: string, flag: bool)
    ensures GetAssetData(assets, uid).None? ==> MarkLatest(assets, uid, flag) == assets
    ensures GetAssetData(assets, uid).Some? ==>
              var v := GetAssetData(assets, uid).value;
              var r := MarkLatest(assets, uid, flag);
              |r| == |assets|
              && GetAssetData(r, uid) == Some(v.(isLatest := flag))
              && (forall j :: 0 <= j < |assets| && assets[j].uid != uid ==> r[j] == assets[j])
              && (forall u :: u != uid ==> GetAssetData(r, u) == GetAssetData(assets, u))
  {
    if GetAssetData(assets, uid).Some? {
      var v := GetAssetData(assets, uid).value;
      CountOneIffOnlyMatch(assets, uid);
      var i :| OnlyMatchAt(assets, uid, i);
      ReplaceOnlyMatch(assets, i, v.(isLatest := flag));
    }
  }

  /** Marking a latest record as old and then as latest again restores the
      registry exactly. */
  lemma MarkLatestRoundTrip(assets: seq<AssetRecord>, uid: string)
    requires GetAssetData(assets, uid).Some? && GetAssetData(assets, uid).value.isLatest
    ensures MarkLatest(MarkLatest(assets, uid, false), uid, true) == assets
  {
    var v := GetAssetData(assets, uid).value;
    CountOneIffOnlyMatch(assets, uid);
    var i :| OnlyMatchAt(assets, uid, i);
    var r1 := assets[i := v.(isLatest := false)];
    ReplaceOnlyMatch(assets, i, v.(isLatest := false));
    assert MarkLatest(assets, uid, false) == r1;
    assert OnlyMatchAt(r1, uid, i);
    ReplaceOnlyMatch(r1, i, v);
    assert MarkLatest(r1, uid, true) == r1[i := v];
    assert r1[i := v] == assets;
  }

  /** Setting the same flag twice is the same as setting it once. */
  lemma MarkLatestIdempotent(assets: seq<AssetRecord>, uid: string, flag: bool)
    ensures MarkLatest(MarkLatest(assets, uid, flag), uid, flag) == MarkLatest(assets, uid, flag)
  {
    if GetAssetData(assets, uid).Some? {
      var v := GetAssetData(assets, uid).value;
      CountOneIffOnlyMatch(assets, uid);
      var i :| OnlyMatchAt(assets, uid, i);
      var r1 := assets[i := v.(isLatest := flag)];
      ReplaceOnlyMatch(assets, i, v.(isLatest := flag));
      assert OnlyMatchAt(r1, uid, i);
      ReplaceOnlyMatch(r1, i, v.(isLatest := flag));
      assert r1[i := v.(isLatest := flag)] == r1;
    }
  }

  /** The flip performed on the registry file; a uid that does not resolve
      leaves the file untouched. */
  method SetLatest(registry: Registry, uid: string, flag: bool)
    modifies registry
    ensures registry.Assets() == MarkLatest(old(registry.Assets()), uid, flag)
    ensures GetAssetData(old(registry.Assets()), uid).None? ==> registry.dataFile == old(registry.dataFile)
  {
    var found := GetAssetData(registry.Assets(), uid);
    if found.Some? {
      var v := found.value;
      registry.UpdateAssetData(v.uid, v.(isLatest := flag));
    }
  }

  // ---------------------------------------------------- per-frame removal

  /** The uids that show a remove button: those that resolve in the registry. */
  function ShownIn(assets: seq<AssetRecord>): string -> bool {
    (u: string) => GetAssetData(assets, u).Some?
  }

  /** The entry a frame's remove buttons settle on: the last index in
      `clicked` whose uid resolves in the registry (only those entries show a
      button). */
  function Chosen(assets: seq<AssetRecord>, items: seq<string>, clicked: set<int>): Option<string> {
    ChosenAmong(ShownIn(assets), items, clicked)
  }

  /** The last clicked index among those that show a button. */
  function ChosenAmong(shown: string -> bool, items: seq<string>, clicked: set<int>): Option<string>
    decreases |items|
  {
    if items == [] then None
    else if |items| - 1 in clicked && shown(items[|items| - 1]) then Some(items[|items| - 1])
    else ChosenAmong(shown, items[..|items| - 1], clicked)
  }

  /** Index `i` shows a remove button and was clicked. */
  predicate ClickedButton(shown: string -> bool, items: seq<string>, clicked: set<int>, i: int) {
    0 <= i < |items| && i in clicked && shown(items[i])
  }

  /** `i` is the last button clicked. */
  predicate LastClicked(shown: string -> bool, items: seq<string>, clicked: set<int>, i: int) {
    ClickedButton(shown, items, clicked, i)
    && forall j :: i < j < |items| ==> !ClickedButton(shown, items, clicked, j)
  }

  /** Nothing is chosen exactly when no button was clicked; otherwise the
      chosen uid is the one at the last clicked button. */
  lemma ChosenSpec(shown: string -> bool, items: seq<string>, clicked: set<int>)
    ensures ChosenAmong(shown, items, clicked).None? <==>
              forall i :: 0 <= i < |items| ==> !ClickedButton(shown, items, clicked, i)
    ensures ChosenAmong(shown, items, clicked).Some? ==>
              exists i :: LastClicked(shown, items, clicked, i) && items[i] == ChosenAmong(shown, items, clicked).value
  {
    ChosenNoneSpec(shown, items, clicked);
    ChosenSomeSpec(shown, items, clicked);
  }

  lemma {:induction false} ChosenNoneSpec(shown: string -> bool, items: seq<string>, clicked: set<int>)
    ensures ChosenAmong(shown, items, clicked).None? <==>
              forall i :: 0 <= i < |items| ==> !ClickedButton(shown, items, clicked, i)
  {
    if items != [] {
      var n := |items| - 1;
      var init := items[..n];
      if !ClickedButton(shown, items, clicked, n) {
        assert ChosenAmong(shown, items, clicked) == ChosenAmong(shown, init, clicked);
        ChosenNoneSpec(shown, init, clicked);
        ClickedOnPrefix(shown, items, clicked);
        if forall i :: 0 <= i < n ==> !ClickedButton(shown, init, clicked, i) {
          forall i | 0 <= i < |items| ensures !ClickedButton(shown, items, clicked, i) {
            if i < n {
              assert !ClickedButton(shown, init, clicked, i);
            }
          }
        } else {
          var i :| 0 <= i < n && ClickedButton(shown, init, clicked, i);
          assert ClickedButton(shown, items, clicked, i);
        }
      } else {
        assert ClickedButton(shown, items, clicked, n);
      }
    }
  }

  lemma {:induction false} ChosenSomeSpec(shown: string -> bool, items: seq<string>, clicked: set<int>)
    ensures ChosenAmong(shown, items, clicked).Some? ==>
              exists i :: LastClicked(shown, items, clicked, i) && items[i] == ChosenAmong(shown, items, clicked).value
  {
    if items != [] {
      var n := |items| - 1;
      var init := items[..n];
      if ClickedButton(shown, items, clicked, n) {
        assert LastClicked(shown, items, clicked, n);
      } else {
        assert ChosenAmong(shown, items, clicked) == ChosenAmong(shown, init, clicked);
        ChosenSomeSpec(shown, init, clicked);
        if ChosenAmong(shown, init, clicked).Some? {
          var i :| LastClicked(shown, init, clicked, i) && init[i] == ChosenAmong(shown, init, clicked).value;
          ClickedOnPrefix(shown, items, clicked);
          assert LastClicked(shown, items, clicked, i);
        }
      }
    }
  }

  /** Dropping the last entry leaves the other buttons as they were. */
  lemma ClickedOnPrefix(shown: string -> bool, items: seq<string>, clicked: set<int>)
    requires items != []
    ensures forall i :: 0 <= i < |items| - 1 ==>
              (ClickedButton(shown, items[..|items| - 1], clicked, i) <==> ClickedButton(shown, items, clicked, i))
  {
    assert forall i :: 0 <= i < |items| - 1 ==> items[..|items| - 1][i] == items[i];
  }

  /** The removal loop: every entry is visited and the last clicked button
      whose uid resolves wins. */
  method PickToRemove(assets: seq<AssetRecord>, items: seq<string>, clicked: set<int>)
      returns (toRemove: Option<string>)
    ensures toRemove == Chosen(assets, items, clicked)
  {
    toRemove := None;
    for i := 0 to |items|
      invariant toRemove == ChosenAmong(ShownIn(assets), items[..i], clicked)
    {
      assert items[..i + 1][..i] == items[..i];
      if GetAssetData(assets, items[i]).None? {
        continue;
      }
      if i in clicked {
        toRemove := Some(items[i]);
      }
    }
    assert items[..|items|] == items;
  }

  /** The list after the frame's removal. */
  function AfterRemoval(items: seq<string>, chosen: Option<string>): seq<string> {
    match chosen
    case None => items
    case Some(u) => Seqs.RemoveFirst(items, u)
  }

  /** A frame removes at most one entry: the first occurrence of the chosen
      uid, keeping the others in order. */
  lemma AfterRemovalDropsOne(items: seq<string>, u: string)
    requires u in items
    ensures exists k :: 0 <= k < |items| && items[k] == u && u !in items[..k]
                        && AfterRemoval(items, Some(u)) == items[..k] + items[k + 1..]
  {
    RemoveFirstSplits(items, u);
  }

  lemma {:induction false} RemoveFirstSplits(s: seq<string>, x: string)
    requires x in s
    ensures exists k :: 0 <= k < |s| && s[k] == x && x !in s[..k] && Seqs.RemoveFirst(s, x) == s[..k] + s[k + 1..]
  {
    if s[0] == x {
      assert s[..0] == [] && s[1..] == s[0 + 1..];
      assert Seqs.RemoveFirst(s, x) == s[..0] + s[0 + 1..];
    } else {
      var t := s[1..];
      RemoveFirstSplits(t, x);
      var k :| 0 <= k < |t| && t[k] == x && x !in t[..k] && Seqs.RemoveFirst(t, x) == t[..k] + t[k + 1..];
      ConsSplit(s, x, k);
    }
  }

  /** The split of `s[1..]` at `k` gives the split of `s` at `k + 1`. */
  lemma ConsSplit(s: seq<string>, x: string, k: int)
    requires s != [] && s[0] != x
    requires 0 <= k < |s| - 1 && s[1..][k] == x && x !in s[1..][..k]
    requires Seqs.RemoveFirst(s[1..], x) == s[1..][..k] + s[1..][k + 1..]
    ensures s[k + 1] == x && x !in s[..k + 1]
    ensures Seqs.RemoveFirst(s, x) == s[..k + 1] + s[k + 2..]
  {
    assert s[..k + 1] == [s[0]] + s[1..][..k];
    assert s[k + 2..] == s[1..][k + 1..];
  }

  /** One frame of a list's remove buttons. A null list shows nothing. */
  method RemoveClicked(l: StringList?, assets: seq<AssetRecord>, clicked: set<int>)
      returns (removed: Option<string>)
    modifies l
    ensures removed == (if l == null then None else Chosen(assets, old(l.items), clicked))
    ensures l != null ==> l.items == AfterRemoval(old(l.items), removed)
  {
    removed := None;
    if l != null && |l.items| > 0 {
      removed := PickToRemove(assets, l.items, clicked);
      if removed.Some? {
        var _ := l.Remove(removed.value);
      }
    }
  }

  // ----------------------------------------------------------- add callback

  /** `list ??= new List<string>(); list.Add(x)`: the answer is the list that
      was added to. */
  method AddOrCreate(l: StringList?, x: string) returns (r: StringList)
    modifies l
    ensures l != null ==> r == l
    ensures l == null ==> fresh(r)
    ensures r.items == old(ItemsOf(l)) + [x]
  {
    if l == null {
      r := new StringList([]);
    } else {
      r := l;
    }
    r.Add(x);
  }

  /** Adding an old version that is not yet listed and then removing it again
      restores both the list and the registry, when the old version was
      marked latest before. */
  lemma OldVersionAddThenRemove(items: seq<string>, assets: seq<AssetRecord>, uid: string)
    requires uid !in items
    requires GetAssetData(assets, uid).Some? && GetAssetData(assets, uid).value.isLatest
    ensures AfterRemoval(items + [uid], Some(uid)) == items
    ensures MarkLatest(MarkLatest(assets, uid, false), uid, true) == assets
  {
    Seqs.RemoveFirstOfAppended(items, uid);
    MarkLatestRoundTrip(assets, uid);
  }

  // ------------------------------------------------- old-version callbacks

  /** The add-old-version callback on `target`: the uid is appended to its
      `oldVersions` and the registry marks that record as no longer latest at
      once. */
  method AddOldVersion(target: AssetData, registry: Registry, uid: Option<string>)
    modifies target, target.oldVersions, registry
    ensures uid.None? ==> target.oldVersions == old(target.oldVersions) && registry.dataFile == old(registry.dataFile)
    ensures uid.None? ==> ItemsOf(target.oldVersions) == old(ItemsOf(target.oldVersions))
    ensures uid.Some? ==> ItemsOf(target.oldVersions) == old(ItemsOf(target.oldVersions)) + [uid.value]
    ensures uid.Some? ==> registry.Assets() == MarkLatest(old(registry.Assets()), uid.value, false)
    ensures old(target.oldVersions) != null ==> target.oldVersions == old(target.oldVersions)
    ensures uid.Some? && old(target.oldVersions) == null ==> fresh(target.oldVersions)
    ensures target.Scalars() == old(target.Scalars())
    ensures target.supportAvatar == old(target.supportAvatar) && target.dependencies == old(target.dependencies)
    ensures (target.dependencies == null || target.dependencies != old(target.oldVersions)) ==>
              ItemsOf(target.dependencies) == old(ItemsOf(target.dependencies))
    ensures (target.supportAvatar == null || target.supportAvatar != old(target.oldVersions)) ==>
              ItemsOf(target.supportAvatar) == old(ItemsOf(target.supportAvatar))
  {
    if uid.None? {
      return;
    }
    var l := AddOrCreate(target.oldVersions, uid.value);
    target.oldVersions := l;
    SetLatest(registry, uid.value, false);
  }

  /** The remove-old-version frame on `target`: the chosen uid leaves its
      `oldVersions` and the registry marks that record as latest again. */
  method RemoveOldVersion(target: AssetData, registry: Registry, clicked: set<int>)
      returns (removed: Option<string>)
    modifies target.oldVersions, registry
    ensures removed == (if old(target.oldVersions) == null then None
                        else Chosen(old(registry.Assets()), old(target.oldVersions.items), clicked))
    ensures ItemsOf(target.oldVersions) == AfterRemoval(old(ItemsOf(target.oldVersions)), removed)
    ensures registry.Assets() == (match removed
                                  case None => old(registry.Assets())
                                  case Some(u) => MarkLatest(old(registry.Assets()), u, true))
  {
    removed := RemoveClicked(target.oldVersions, registry.Assets(), clicked);
    if removed.Some? {
      SetLatest(registry, removed.value, true);
    }
  }
}
