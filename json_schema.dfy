/** The persisted schema: the asset-type enumeration, the asset record and the
    registry document.

    A record has two faces in the model. `AssetRecord` is its value, which is
    what the registry file holds: every read of the file deserialises fresh
    objects, so two reads never share anything. `AssetData` is an in-memory
    object as the editor windows hold it. Its three list fields are
    references (`StringList?`, possibly null), because `Clone` shares the
    `supportAvatar` list with the original, and that sharing is visible. */
module JsonSchema {
  import opened Wrappers
  import Seqs

  /** Declared in this order, so `Unregistered` has ordinal 0. */
  datatype AssetType =
    Unregistered | Avatar | Hair | Cloth | Accessory | Gimmick | Texture | World | Other | Modified

  /** The enum's ordinal, as `(int)assetType`. */
  function Ordinal(t: AssetType): nat {
    match t
    case Unregistered => 0
    case Avatar => 1
    case Hair => 2
    case Cloth => 3
    case Accessory => 4
    case Gimmick => 5
    case Texture => 6
    case World => 7
    case Other => 8
    case Modified => 9
  }

  /** The enum constant with ordinal `n`, as the cast `(AssetType)n`, when there
      is one. */
  function FromOrdinal(n: int): (t: Option<AssetType>)
    ensures t.Some? <==> 0 <= n < 10
    ensures t.Some? ==> Ordinal(t.value) == n
  {
    if n == 0 then Some(Unregistered)
    else if n == 1 then Some(Avatar)
    else if n == 2 then Some(Hair)
    else if n == 3 then Some(Cloth)
    else if n == 4 then Some(Accessory)
    else if n == 5 then Some(Gimmick)
    else if n == 6 then Some(Texture)
    else if n == 7 then Some(World)
    else if n == 8 then Some(Other)
    else if n == 9 then Some(Modified)
    else None
  }

  /** Ordinals name the constants one to one. */
  lemma OrdinalRoundTrip(t: AssetType)
    ensures FromOrdinal(Ordinal(t)) == Some(t)
  {
  }

  /** The `assetType = 0` written by auto-registration is `Unregistered`. */
  lemma OrdinalZeroIsUnregistered()
    ensures FromOrdinal(0) == Some(Unregistered)
    ensures forall t :: Ordinal(t) == 0 ==> t == Unregistered
  {
  }

  /** One registry entry as stored in the JSON file. A null string or list
      is stored as empty, so it is "" or [] here. */
  datatype AssetRecord = AssetRecord(
    uid: string,
    name: string,
    filePath: string,
    sourceFilePath: string,
    url: string,
    thumbnailFilePath: string,
    description: string,
    isLatest: bool,
    supportAvatar: seq<string>,
    dependencies: seq<string>,
    oldVersions: seq<string>,
    assetType: AssetType)

  /** The registry document. */
  datatype AssetDataList = AssetDataList(assetList: seq<AssetRecord>)

  /** `new AssetDataList()`: the field initialiser gives an empty list. */
  const NewAssetDataList: AssetDataList := AssetDataList([])

  /** A `List<string>` object. */
  class StringList {
    var items: seq<string>

    constructor (items: seq<string>)
      ensures this.items == items
    {
      this.items := items;
    }

    /** `List.Add`. */
    method Add(x: string)
      modifies this
      ensures items == old(items) + [x]
    {
      items := items + [x];
    }

    /** `List.Remove`: removes the first occurrence and says whether there was one. */
    method Remove(x: string) returns (removed: bool)
      modifies this
      ensures items == Seqs.RemoveFirst(old(items), x)
      ensures removed <==> x in old(items)
    {
      removed := x in items;
      RemoveFirstAbsent(items, x);
      items := Seqs.RemoveFirst(items, x);
    }
  }

  /** What a null list is serialised as. */
  function ItemsOf(l: StringList?): seq<string>
    reads l
  {
    if l == null then [] else l.items
  }

  lemma {:induction false} RemoveFirstAbsent(s: seq<string>, x: string)
    ensures x !in s ==> Seqs.RemoveFirst(s, x) == s
  {
    if s != [] && x !in s {
      RemoveFirstAbsent(s[1..], x);
      assert s == [s[0]] + s[1..];
    }
  }

  /** An `AssetData` object. */
  class AssetData {
    var uid: string
    var name: string
    var filePath: string
    var sourceFilePath: string
    var url: string
    var thumbnailFilePath: string
    var description: string
    var isLatest: bool
    var supportAvatar: StringList?
    var dependencies: StringList?
    var oldVersions: StringList?
    var assetType: AssetType

    /** `new AssetData()`: every field at its default. */
    constructor ()
      ensures ToRecord() == AssetRecord("", "", "", "", "", "", "", false, [], [], [], Unregistered)
      ensures supportAvatar == null && dependencies == null && oldVersions == null
    {
      uid, name, filePath, sourceFilePath := "", "", "", "";
      url, thumbnailFilePath, description := "", "", "";
      isLatest := false;
      supportAvatar, dependencies, oldVersions := null, null, null;
      assetType := Unregistered;
    }

    /** A record as deserialised from the registry file: three new lists. */
    constructor FromRecord(r: AssetRecord)
      ensures ToRecord() == r
      ensures supportAvatar != null && dependencies != null && oldVersions != null
      ensures fresh(supportAvatar) && fresh(dependencies) && fresh(oldVersions)
      ensures supportAvatar != dependencies && supportAvatar != oldVersions && dependencies != oldVersions
    {
      uid, name, filePath, sourceFilePath := r.uid, r.name, r.filePath, r.sourceFilePath;
      url, thumbnailFilePath, description := r.url, r.thumbnailFilePath, r.description;
      isLatest := r.isLatest;
      supportAvatar := new StringList(r.supportAvatar);
      dependencies := new StringList(r.dependencies);
      oldVersions := new StringList(r.oldVersions);
      assetType := r.assetType;
    }

    /** The scalar fields of `r`, with the given list objects. */
    constructor WithLists(r: AssetRecord, sa: StringList?, deps: StringList?, olds: StringList?)
      ensures uid == r.uid && name == r.name && filePath == r.filePath
      ensures sourceFilePath == r.sourceFilePath && url == r.url
      ensures thumbnailFilePath == r.thumbnailFilePath && description == r.description
      ensures isLatest == r.isLatest && assetType == r.assetType
      ensures supportAvatar == sa && dependencies == deps && oldVersions == olds
    {
      uid, name, filePath, sourceFilePath := r.uid, r.name, r.filePath, r.sourceFilePath;
      url, thumbnailFilePath, description := r.url, r.thumbnailFilePath, r.description;
      isLatest := r.isLatest;
      supportAvatar, dependencies, oldVersions := sa, deps, olds;
      assetType := r.assetType;
    }

    /** The value this object is serialised as. */
    function ToRecord(): AssetRecord
      reads this, supportAvatar, dependencies, oldVersions
    {
      AssetRecord(uid, name, filePath, sourceFilePath, url, thumbnailFilePath, description,
                  isLatest, ItemsOf(supportAvatar), ItemsOf(dependencies), ItemsOf(oldVersions),
                  assetType)
    }

    /** The fields other than the three lists. */
    function Scalars(): (r: AssetRecord)
      reads this
      ensures r == ToRecord().(supportAvatar := [], dependencies := [], oldVersions := [])
    {
      AssetRecord(uid, name, filePath, sourceFilePath, url, thumbnailFilePath, description,
                  isLatest, [], [], [], assetType)
    }

    /** `Clone`: every scalar field is copied, `dependencies` and `oldVersions`
        become new lists with the same contents (a null list becomes an empty
        one), and `supportAvatar` is the very same list object. */
    method Clone() returns (c: AssetData)
      ensures fresh(c)
      ensures c.ToRecord() == ToRecord()
      ensures c.supportAvatar == supportAvatar
      ensures c.dependencies != null && c.oldVersions != null
      ensures fresh(c.dependencies) && fresh(c.oldVersions) && c.dependencies != c.oldVersions
    {
      var deps := new StringList(ItemsOf(dependencies));
      var olds := new StringList(ItemsOf(oldVersions));
      c := new AssetData.WithLists(ToRecord(), supportAvatar, deps, olds);
    }
  }

  /** Because `Clone` shares `supportAvatar`, adding to the clone's list also
      adds to the original's. The two dependency lists stay apart. */
  method CloneSharesSupportAvatar(original: AssetData, avatarUid: string)
      returns (clone: AssetData)
    requires original.supportAvatar != null
    requires original.dependencies != original.supportAvatar
    modifies original.supportAvatar
    ensures clone.supportAvatar == original.supportAvatar
    ensures original.supportAvatar.items == old(original.supportAvatar.items) + [avatarUid]
    ensures ItemsOf(original.dependencies) == old(ItemsOf(original.dependencies))
    ensures clone.dependencies != original.dependencies
  {
    clone := original.Clone();
    clone.supportAvatar.Add(avatarUid);
  }
}
