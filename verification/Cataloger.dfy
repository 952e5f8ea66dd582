/** `AssetCataloger`: files sorted into categories by extension, grouped,
    counted for the organised output folders, and summed up in statistics.
    Copying files, creating folders and progress callbacks are I/O and are
    not modelled; the file system is reduced to the size it reports for a
    path (`None` when the path is not a file). Dictionaries are ordered
    sequences of (key, value) pairs, as in `OrderedMaps`. */
module Cataloger {
  import opened Wrappers
  import opened Strings
  import opened OrderedMaps
  import Comparator

  const DEFAULT_CATEGORIES: seq<(string, seq<string>)> := [
    ("Textures", [".bmp", ".tga", ".dds", ".png", ".jpg", ".jpeg", ".gif", ".tif", ".tiff"]),
    ("Models", [".rsm", ".zms", ".zmd", ".smd", ".obj", ".fbx", ".3ds", ".max", ".blend"]),
    ("Sprites", [".spr", ".act", ".pal", ".imf"]),
    ("Audio", [".wav", ".mp3", ".ogg", ".bgm", ".mid", ".midi", ".flac", ".wma"]),
    ("Maps", [".rsw", ".gnd", ".gat", ".him", ".zon", ".ifo", ".til", ".zsc"]),
    ("Data", [".txt", ".xml", ".lua", ".yml", ".yaml", ".json", ".ini", ".conf", ".cfg", ".stb", ".stl", ".aip", ".qsd"]),
    ("Effects", [".str", ".edf", ".eff", ".ptl", ".ddf"]),
    ("UI", [".grf", ".lub"]),
    ("Binaries", [".exe", ".dll", ".so", ".dylib"])
  ]

  /** The inner loop of the extension map: each extension, lower-cased,
      mapped to the category, later entries overwriting earlier ones. */
  function AddExtensions(m: map<string, string>, exts: seq<string>, category: string): (r: map<string, string>)
    ensures forall k :: k in r ==> (k in m && r[k] == m[k]) || (IsLower(k) && r[k] == category)
    ensures m.Keys <= r.Keys
  {
    if exts == [] then m
    else
      LowerIsLower(exts[|exts| - 1]);
      AddExtensions(m, exts[..|exts| - 1], category)[Lower(exts[|exts| - 1]) := category]
  }

  /** The inner loop of `__init__` over one category's extensions. */
  method AddEach(m: map<string, string>, exts: seq<string>, category: string) returns (r: map<string, string>)
    ensures r == AddExtensions(m, exts, category)
  {
    r := m;
    for j := 0 to |exts|
      invariant r == AddExtensions(m, exts[..j], category)
    {
      assert exts[..j + 1][..j] == exts[..j];
      r := r[Lower(exts[j]) := category];
    }
    assert exts[..|exts|] == exts;
  }

  /** The default category names are all different. */
  lemma DefaultCategoriesDistinct()
    ensures Distinct(DEFAULT_CATEGORIES)
  {
  }

  /** The reverse mapping built by `__init__`: lower-cased extension to the
      category listing it. Every key is lower case and every value is one of
      the category names. */
  function ExtensionMap(categories: seq<(string, seq<string>)>): (r: map<string, string>)
    ensures forall k :: k in r ==> IsLower(k) && r[k] in Keys(categories)
  {
    if categories == [] then map[]
    else
      var init := categories[..|categories| - 1];
      var last := categories[|categories| - 1];
      assert forall c :: c in Keys(init) ==> c in Keys(categories) by {
        assert forall i :: 0 <= i < |init| ==> Keys(init)[i] == Keys(categories)[i];
      }
      assert last.0 == Keys(categories)[|categories| - 1];
      AddExtensions(ExtensionMap(init), last.1, last.0)
  }

  /** An extension listed by the category, lower-cased, maps to it unless it
      is listed again later in the same category's list. */
  lemma {:induction false} AddExtensionsListed(m: map<string, string>, exts: seq<string>, category: string, j: nat)
    requires j < |exts|
    ensures Lower(exts[j]) in AddExtensions(m, exts, category)
    ensures AddExtensions(m, exts, category)[Lower(exts[j])] == category
  {
    var n := |exts| - 1;
    if j < n && Lower(exts[n]) != Lower(exts[j]) {
      AddExtensionsListed(m, exts[..n], category, j);
      assert exts[..n][j] == exts[j];
    }
  }

  /** Extensions the category does not list keep their old mapping. */
  lemma {:induction false} AddExtensionsUnlisted(m: map<string, string>, exts: seq<string>, category: string, k: string)
    requires forall j :: 0 <= j < |exts| ==> Lower(exts[j]) != k
    ensures k in AddExtensions(m, exts, category) <==> k in m
    ensures k in m ==> AddExtensions(m, exts, category)[k] == m[k]
  {
    if exts != [] {
      AddExtensionsUnlisted(m, exts[..|exts| - 1], category, k);
    }
  }

  /** Later categories win: an extension maps to the last category whose list
      holds it (compared lower-cased). */
  lemma {:induction false} ExtensionMapLaterWins(categories: seq<(string, seq<string>)>, i: nat, j: nat)
    requires i < |categories| && j < |categories[i].1|
    requires forall i', j' :: i < i' < |categories| && 0 <= j' < |categories[i'].1| ==>
               Lower(categories[i'].1[j']) != Lower(categories[i].1[j])
    ensures Lower(categories[i].1[j]) in ExtensionMap(categories)
    ensures ExtensionMap(categories)[Lower(categories[i].1[j])] == categories[i].0
  {
    var n := |categories| - 1;
    var init := categories[..n];
    var k := Lower(categories[i].1[j]);
    if i == n {
      AddExtensionsListed(ExtensionMap(init), categories[n].1, categories[n].0, j);
    } else {
      assert init[i] == categories[i];
      ExtensionMapLaterWins(init, i, j);
      AddExtensionsUnlisted(ExtensionMap(init), categories[n].1, categories[n].0, k);
    }
  }

  /** An extension no category lists is not in the map. */
  lemma {:induction false} ExtensionMapUnlisted(categories: seq<(string, seq<string>)>, k: string)
    requires forall i, j :: 0 <= i < |categories| && 0 <= j < |categories[i].1| ==> Lower(categories[i].1[j]) != k
    ensures k !in ExtensionMap(categories)
  {
    if categories != [] {
      var n := |categories| - 1;
      assert forall i :: 0 <= i < n ==> categories[..n][i] == categories[i];
      ExtensionMapUnlisted(categories[..n], k);
      AddExtensionsUnlisted(ExtensionMap(categories[..n]), categories[n].1, categories[n].0, k);
    }
  }

  /** `CategorizedAsset` */
  datatype Asset = Asset(path: string, fullPath: string, category: string, extension: string, size: nat,
                         hashMd5: Option<string>, status: string)

  /** One entry of the list `categorize_files` takes: each key present or
      absent (`None`); a hash entry may itself hold `None`. */
  datatype FileInfo = FileInfo(path: Option<string>, relPath: Option<string>, fullPath: Option<string>,
                               status: Option<string>, hashMd5: Option<Option<string>>, hash: Option<Option<string>>)

  /** The file system's answer to `os.path.isfile` and `os.path.getsize`. */
  type FileSizes = string -> Option<nat>

  /** The keys of the dict `categorize_files` starts from: the categories in
      order, then 'Other' unless it already is one. */
  function InitKeys(categories: seq<(string, seq<string>)>): (r: seq<string>)
    ensures forall c :: c in Keys(categories) ==> c in r
    ensures "Other" in r
  {
    Keys(categories) + (if "Other" in Keys(categories) then [] else ["Other"])
  }

  lemma InitKeysNoRepeats(categories: seq<(string, seq<string>)>)
    requires Distinct(categories)
    ensures NoRepeats(InitKeys(categories))
  {
    var ks := Keys(categories);
    assert forall i, j :: 0 <= i < j < |ks| ==> ks[i] != ks[j] by {
      assert forall i :: 0 <= i < |ks| ==> ks[i] == categories[i].0;
    }
  }

  /** The assets of `assets` filed under `category`, in order. */
  function InCategory(assets: seq<Asset>, category: string): (r: seq<Asset>)
    ensures |r| <= |assets|
  {
    if assets == [] then []
    else
      var last := assets[|assets| - 1];
      InCategory(assets[..|assets| - 1], category) + (if last.category == category then [last] else [])
  }

  lemma {:induction false} InCategoryMembers(assets: seq<Asset>, category: string)
    ensures forall x :: x in InCategory(assets, category) <==> x in assets && x.category == category
  {
    if assets != [] {
      var n := |assets| - 1;
      InCategoryMembers(assets[..n], category);
      assert assets == assets[..n] + [assets[n]];
    }
  }

  /** Each key paired with the assets filed under it. */
  function Grouped(keys: seq<string>, assets: seq<Asset>): (r: seq<(string, seq<Asset>)>)
    ensures |r| == |keys| && forall i :: 0 <= i < |keys| ==> r[i] == (keys[i], InCategory(assets, keys[i]))
  {
    seq(|keys|, i requires 0 <= i < |keys| => (keys[i], InCategory(assets, keys[i])))
  }

  /** `{k: v for k, v in result.items() if v}` */
  function NonEmpty(groups: seq<(string, seq<Asset>)>): (r: seq<(string, seq<Asset>)>)
    ensures |r| <= |groups|
  {
    if groups == [] then []
    else
      var last := groups[|groups| - 1];
      NonEmpty(groups[..|groups| - 1]) + (if last.1 != [] then [last] else [])
  }

  /** The kept pairs are exactly the pairs with a non-empty list. */
  lemma {:induction false} NonEmptyMembers(groups: seq<(string, seq<Asset>)>)
    ensures forall p :: p in NonEmpty(groups) <==> p in groups && p.1 != []
  {
    if groups != [] {
      var n := |groups| - 1;
      NonEmptyMembers(groups[..n]);
      assert groups == groups[..n] + [groups[n]];
    }
  }

  function Length(xs: seq<Asset>): nat {
    |xs|
  }

  /** Filing one more asset appends it to its own category's list. */
  lemma {:induction false} GroupedSnoc(keys: seq<string>, assets: seq<Asset>, a: Asset)
    requires NoRepeats(keys) && a.category in keys
    ensures Grouped(keys, assets + [a]) == Put(Grouped(keys, assets), a.category, InCategory(assets, a.category) + [a])
  {
    hide PutSpec;
    var d := Grouped(keys, assets);
    var j :| 0 <= j < |keys| && keys[j] == a.category;
    assert Distinct(d);
    assert (assets + [a])[..|assets|] == assets;
    PutAt(d, j, InCategory(assets, a.category) + [a]);
    forall i | 0 <= i < |keys|
      ensures Grouped(keys, assets + [a])[i] == d[j := (keys[j], InCategory(assets, a.category) + [a])][i]
    {
      assert InCategory(assets + [a], keys[i]) == InCategory(assets, keys[i]) + (if a.category == keys[i] then [a] else []);
      if i < j {
        assert keys[i] != keys[j];
        assert InCategory(assets, keys[i]) + [] == InCategory(assets, keys[i]);
      } else if j < i {
        assert keys[j] != keys[i];
        assert InCategory(assets, keys[i]) + [] == InCategory(assets, keys[i]);
      }
    }
  }

  lemma {:induction false} SumByEmpty(keys: seq<string>)
    ensures SumBy(Grouped(keys, []), Length) == 0
  {
    if keys != [] {
      SumByEmpty(keys[1..]);
      assert Grouped(keys, [])[1..] == Grouped(keys[1..], []);
    }
  }

  lemma {:induction false} SumByNonEmpty(groups: seq<(string, seq<Asset>)>)
    ensures SumBy(NonEmpty(groups), Length) == SumBy(groups, Length)
  {
    if groups != [] {
      var n := |groups| - 1;
      var init := groups[..n];
      var last := groups[n];
      assert groups == init + [last];
      assert NonEmpty(groups) == NonEmpty(init) + (if last.1 != [] then [last] else []);
      hide NonEmpty;
      SumByNonEmpty(init);
      SumBySnoc(init, last, Length);
      if last.1 != [] {
        SumBySnoc(NonEmpty(init), last, Length);
      } else {
        assert NonEmpty(groups) == NonEmpty(init);
      }
    }
  }

  lemma {:induction false} SumBySnoc<V>(d: seq<(string, V)>, p: (string, V), f: V -> nat)
    ensures SumBy(d + [p], f) == SumBy(d, f) + f(p.1)
  {
    if d != [] {
      SumBySnoc(d[1..], p, f);
      assert (d + [p])[1..] == d[1..] + [p];
    }
  }

  /** `categorize_files` files each asset exactly once: the lists hold every
      asset, each under its own category, and their lengths add up to the
      number of assets. */
  lemma {:induction false} GroupedPartition(keys: seq<string>, assets: seq<Asset>)
    requires NoRepeats(keys) && forall a :: a in assets ==> a.category in keys
    ensures SumBy(NonEmpty(Grouped(keys, assets)), Length) == |assets|
    ensures forall a :: a in assets ==> (a.category, InCategory(assets, a.category)) in NonEmpty(Grouped(keys, assets))
  {
    SumByNonEmpty(Grouped(keys, assets));
    GroupedCount(keys, assets);
    NonEmptyMembers(Grouped(keys, assets));
    forall a | a in assets
      ensures (a.category, InCategory(assets, a.category)) in NonEmpty(Grouped(keys, assets))
    {
      var j :| 0 <= j < |keys| && keys[j] == a.category;
      InCategoryMembers(assets, a.category);
      assert a in InCategory(assets, a.category);
      assert Grouped(keys, assets)[j] == (a.category, InCategory(assets, a.category));
      assert Grouped(keys, assets)[j] in Grouped(keys, assets);
    }
  }

  lemma {:induction false} GroupedCount(keys: seq<string>, assets: seq<Asset>)
    requires NoRepeats(keys) && forall a :: a in assets ==> a.category in keys
    ensures SumBy(Grouped(keys, assets), Length) == |assets|
  {
    if assets == [] {
      SumByEmpty(keys);
    } else {
      hide PutSpec;
      var n := |assets| - 1;
      var a := assets[n];
      assert assets == assets[..n] + [a];
      GroupedCount(keys, assets[..n]);
      GroupedSnoc(keys, assets[..n], a);
      var d := Grouped(keys, assets[..n]);
      var j :| 0 <= j < |keys| && keys[j] == a.category;
      assert Distinct(d);
      GetAt(d, j);
      PutSumBy(d, a.category, InCategory(assets[..n], a.category) + [a], Length);
    }
  }

  /** `counts[key] = counts.get(key, 0) + 1` for each key in turn, starting
      from the counts `acc`. */
  function TallyFrom(acc: seq<(string, nat)>, keys: seq<string>): seq<(string, nat)>
    decreases |keys|
  {
    if keys == [] then acc
    else TallyFrom(Put(acc, keys[0], Get(acc, keys[0]).GetOr(0) + 1), keys[1..])
  }

  /** The counts of the keys, from none. */
  function Tally(keys: seq<string>): seq<(string, nat)> {
    TallyFrom([], keys)
  }

  function Count(n: nat): nat {
    n
  }

  lemma {:induction false} TallyFromCount(acc: seq<(string, nat)>, keys: seq<string>, k: string)
    ensures Get(TallyFrom(acc, keys), k).GetOr(0) == Get(acc, k).GetOr(0) + multiset(keys)[k]
    decreases |keys|
  {
    hide PutSpec, Put, Get;
    if keys != [] {
      var v := Get(acc, keys[0]).GetOr(0) + 1;
      var acc' := Put(acc, keys[0], v);
      assert TallyFrom(acc, keys) == TallyFrom(acc', keys[1..]);
      assert keys == [keys[0]] + keys[1..];
      assert multiset(keys)[k] == (if keys[0] == k then 1 else 0) + multiset(keys[1..])[k];
      PutGet(acc, keys[0], v, k);
      hide TallyFrom;
      TallyFromCount(acc', keys[1..], k);
    }
  }

  lemma {:induction false} TallyFromPresent(acc: seq<(string, nat)>, keys: seq<string>, k: string)
    ensures Get(TallyFrom(acc, keys), k).Some? <==> Get(acc, k).Some? || k in keys
    decreases |keys|
  {
    hide PutSpec, Put, Get;
    if keys != [] {
      var v := Get(acc, keys[0]).GetOr(0) + 1;
      var acc' := Put(acc, keys[0], v);
      assert TallyFrom(acc, keys) == TallyFrom(acc', keys[1..]);
      assert k in keys <==> k == keys[0] || k in keys[1..] by {
        assert keys == [keys[0]] + keys[1..];
      }
      PutGet(acc, keys[0], v, k);
      hide TallyFrom;
      TallyFromPresent(acc', keys[1..], k);
    }
  }

  /** Each key's count is its number of occurrences, and a key is present
      exactly when it occurs. */
  lemma TallyCount(keys: seq<string>, k: string)
    ensures Get(Tally(keys), k).GetOr(0) == multiset(keys)[k]
    ensures Get(Tally(keys), k).Some? <==> k in keys
  {
    TallyFromCount([], keys, k);
    TallyFromPresent([], keys, k);
  }

  lemma {:induction false} TallyFromSum(acc: seq<(string, nat)>, keys: seq<string>)
    ensures SumBy(TallyFrom(acc, keys), Count) == SumBy(acc, Count) + |keys|
    decreases |keys|
  {
    if keys != [] {
      var next := Put(acc, keys[0], Get(acc, keys[0]).GetOr(0) + 1);
      assert TallyFrom(acc, keys) == TallyFrom(next, keys[1..]);
      hide TallyFrom, SumBy, Put, PutSpec, Get;
      TallyStepSum(acc, keys[0]);
      TallyFromSum(next, keys[1..]);
      assert SumBy(TallyFrom(acc, keys), Count) == SumBy(acc, Count) + 1 + |keys[1..]|;
    } else {
      assert TallyFrom(acc, keys) == acc;
    }
  }

  /** Counting one more key adds one to the sum of the counts. */
  lemma TallyStepSum(acc: seq<(string, nat)>, key: string)
    ensures SumBy(Put(acc, key, Get(acc, key).GetOr(0) + 1), Count) == SumBy(acc, Count) + 1
  {
    var g := Get(acc, key);
    var v := g.GetOr(0) + 1;
    assert g.Some? ==> v == g.value + 1;
    assert g.None? ==> v == 1;
    hide *;
    PutSumBy(acc, key, v, Count);
  }

  /** The counts add up to the number of keys tallied. */
  lemma TallySum(keys: seq<string>)
    ensures SumBy(Tally(keys), Count) == |keys|
  {
    TallyFromSum([], keys);
  }

  /** `lstrip('.')` */
  function StripDots(s: string): (r: string)
    ensures r == [] || r[0] != '.'
    ensures |r| <= |s| && r == s[|s| - |r|..]
  {
    if s != [] && s[0] == '.' then StripDots(s[1..]) else s
  }

  /** The key `organize_assets` counts an asset under, by structure: its
      category, its status, its extension without the leading dots (or
      'no_extension' when nothing remains), or 'preserved'. */
  function OrganizeKey(a: Asset, structure: string): (r: string)
    ensures structure == "by_category" ==> r == a.category
    ensures structure == "by_status" ==> r == a.status
    ensures structure == "by_extension" ==> r != [] && r[0] != '.'
    ensures structure == "by_extension" && StripDots(a.extension) != [] ==> r == StripDots(a.extension)
    ensures structure !in {"by_category", "by_status", "by_extension"} ==> r == "preserved"
  {
    if structure == "by_category" then a.category
    else if structure == "by_status" then a.status
    else if structure == "by_extension" then
      var name := StripDots(a.extension);
      if name != [] then name else "no_extension"
    else "preserved"
  }

  function OrganizeKeys(assets: seq<Asset>, structure: string): (r: seq<string>)
    ensures |r| == |assets| && forall i :: 0 <= i < |assets| ==> r[i] == OrganizeKey(assets[i], structure)
  {
    seq(|assets|, i requires 0 <= i < |assets| => OrganizeKey(assets[i], structure))
  }

  /** `organize_assets`: the count per key; the counts add up to the number
      of assets. */
  method OrganizeAssets(assets: seq<Asset>, structure: string) returns (counts: seq<(string, nat)>)
    ensures counts == Tally(OrganizeKeys(assets, structure))
    ensures SumBy(counts, Count) == |assets|
  {
    counts := [];
    ghost var keys := OrganizeKeys(assets, structure);
    for i := 0 to |assets|
      invariant TallyFrom(counts, keys[i..]) == Tally(keys)
    {
      var key := OrganizeKey(assets[i], structure);
      assert keys[i..][1..] == keys[i + 1..];
      counts := Put(counts, key, Get(counts, key).GetOr(0) + 1);
    }
    TallySum(keys);
  }

  function Entry(status: string, x: Comparator.ComparisonResult): FileInfo {
    FileInfo(Some(x.path), None, Some(x.path), Some(status), Some(Some(x.hashMd5)), None)
  }

  /** One list of results, each entry carrying the list's status. */
  function Entries(status: string, list: seq<Comparator.ComparisonResult>): (r: seq<FileInfo>)
    ensures |r| == |list| && forall i :: 0 <= i < |list| ==> r[i] == Entry(status, list[i])
  {
    seq(|list|, i requires 0 <= i < |list| => Entry(status, list[i]))
  }

  /** The list `organize_comparison_results` gathers: the `new`, `modified`,
      `identical` and `unknown` results in that order; with `onlyCustom` just
      the first two lists. */
  function Gathered(results: Comparator.Buckets, onlyCustom: bool): (r: seq<FileInfo>)
    ensures |r| == |results.newFiles| + |results.modified| + (if onlyCustom then 0 else |results.identical| + |results.unknown|)
    ensures onlyCustom ==> forall e :: e in r ==> e.status in {Some("new"), Some("modified")}
  {
    Entries("new", results.newFiles) + Entries("modified", results.modified)
      + (if onlyCustom then [] else Entries("identical", results.identical) + Entries("unknown", results.unknown))
  }

  /** The inner loop of the gathering: one list's entries appended. */
  method AppendEntries(r: seq<FileInfo>, status: string, list: seq<Comparator.ComparisonResult>) returns (r': seq<FileInfo>)
    ensures r' == r + Entries(status, list)
  {
    r' := r;
    for i := 0 to |list|
      invariant r' == r + Entries(status, list[..i])
    {
      assert Entries(status, list[..i + 1]) == Entries(status, list[..i]) + [Entry(status, list[i])];
      r' := r' + [Entry(status, list[i])];
    }
    assert list[..|list|] == list;
  }

  /** `get_statistics`' per-category entry. */
  datatype CategoryStat = CategoryStat(count: nat, size: nat)

  function StatCount(s: CategoryStat): nat {
    s.count
  }

  function StatSize(s: CategoryStat): nat {
    s.size
  }

  /** The `by_category` updates of `get_statistics` for each asset in turn,
      starting from `acc`. */
  function StatsFrom(acc: seq<(string, CategoryStat)>, assets: seq<Asset>): seq<(string, CategoryStat)>
    decreases |assets|
  {
    if assets == [] then acc
    else
      var a := assets[0];
      var s := Get(acc, a.category).GetOr(CategoryStat(0, 0));
      StatsFrom(Put(acc, a.category, CategoryStat(s.count + 1, s.size + a.size)), assets[1..])
  }

  /** A category's entry, zero when it has none. */
  function StatOf(stats: seq<(string, CategoryStat)>, c: string): CategoryStat {
    Get(stats, c).GetOr(CategoryStat(0, 0))
  }

  function CategoryStats(assets: seq<Asset>): seq<(string, CategoryStat)> {
    StatsFrom([], assets)
  }

  function TotalSize(assets: seq<Asset>): nat {
    if assets == [] then 0 else assets[0].size + TotalSize(assets[1..])
  }

  lemma {:induction false} StatsFromSums(acc: seq<(string, CategoryStat)>, assets: seq<Asset>)
    ensures SumBy(StatsFrom(acc, assets), StatCount) == SumBy(acc, StatCount) + |assets|
    ensures SumBy(StatsFrom(acc, assets), StatSize) == SumBy(acc, StatSize) + TotalSize(assets)
    decreases |assets|
  {
    hide PutSpec, Put, Get;
    if assets != [] {
      var a := assets[0];
      var s := Get(acc, a.category).GetOr(CategoryStat(0, 0));
      var v := CategoryStat(s.count + 1, s.size + a.size);
      var acc' := Put(acc, a.category, v);
      assert StatsFrom(acc, assets) == StatsFrom(acc', assets[1..]);
      assert TotalSize(assets) == a.size + TotalSize(assets[1..]);
      PutSumBy(acc, a.category, v, StatCount);
      PutSumBy(acc, a.category, v, StatSize);
      hide StatsFrom, TotalSize, SumBy;
      StatsFromSums(acc', assets[1..]);
    }
  }

  /** The per-category counts add up to the number of assets and the sizes
      to the total size. */
  lemma CategoryStatsSums(assets: seq<Asset>)
    ensures SumBy(CategoryStats(assets), StatCount) == |assets|
    ensures SumBy(CategoryStats(assets), StatSize) == TotalSize(assets)
  {
    StatsFromSums([], assets);
  }

  /** A category's entry counts and sums exactly the assets filed under it. */
  lemma {:induction false} StatsFromLookup(acc: seq<(string, CategoryStat)>, assets: seq<Asset>, c: string)
    ensures StatOf(StatsFrom(acc, assets), c) ==
              CategoryStat(StatOf(acc, c).count + |InCategory(assets, c)|, StatOf(acc, c).size + TotalSize(InCategory(assets, c)))
    decreases |assets|
  {
    hide PutSpec, Put, Get;
    if assets != [] {
      var a, rest := assets[0], assets[1..];
      var s := StatOf(acc, a.category);
      var v := CategoryStat(s.count + 1, s.size + a.size);
      var acc' := Put(acc, a.category, v);
      assert StatsFrom(acc, assets) == StatsFrom(acc', rest);
      assert StatOf(acc', c) == if a.category == c then v else StatOf(acc, c) by {
        PutGet(acc, a.category, v, c);
      }
      var pre := if a.category == c then [a] else [];
      assert InCategory(assets, c) == pre + InCategory(rest, c) by {
        assert assets == [a] + rest;
        InCategoryCons(a, rest, c);
      }
      assert TotalSize(InCategory(assets, c)) == (if a.category == c then a.size else 0) + TotalSize(InCategory(rest, c)) by {
        TotalSizeConcat(pre, InCategory(rest, c));
        assert TotalSize(pre) == if a.category == c then a.size else 0;
      }
      hide StatsFrom, InCategory, TotalSize, StatOf;
      StatsFromLookup(acc', rest, c);
    }
  }

  /** Each category's statistics count and total exactly its own assets. */
  lemma CategoryStatsLookup(assets: seq<Asset>, c: string)
    ensures StatOf(CategoryStats(assets), c) == CategoryStat(|InCategory(assets, c)|, TotalSize(InCategory(assets, c)))
  {
    StatsFromLookup([], assets, c);
  }

  lemma {:induction false} InCategoryCons(a: Asset, rest: seq<Asset>, c: string)
    ensures InCategory([a] + rest, c) == (if a.category == c then [a] else []) + InCategory(rest, c)
  {
    if rest == [] {
      assert [a] + rest == [a];
      assert [a][..0] == [];
    } else {
      var n := |rest| - 1;
      InCategoryCons(a, rest[..n], c);
      assert ([a] + rest)[..|rest|] == [a] + rest[..n];
      assert rest == rest[..n] + [rest[n]];
      var pre := if a.category == c then [a] else [];
      var tail := if rest[n].category == c then [rest[n]] else [];
      assert pre + InCategory(rest[..n], c) + tail == pre + (InCategory(rest[..n], c) + tail);
    }
  }

  lemma {:induction false} TotalSizeConcat(xs: seq<Asset>, ys: seq<Asset>)
    ensures TotalSize(xs + ys) == TotalSize(xs) + TotalSize(ys)
  {
    if xs != [] {
      TotalSizeConcat(xs[1..], ys);
      assert (xs + ys)[1..] == xs[1..] + ys;
    } else {
      assert xs + ys == ys;
    }
  }

  function Statuses(assets: seq<Asset>): (r: seq<string>)
    ensures |r| == |assets| && forall i :: 0 <= i < |assets| ==> r[i] == assets[i].status
  {
    seq(|assets|, i requires 0 <= i < |assets| => assets[i].status)
  }

  function Extensions(assets: seq<Asset>): (r: seq<string>)
    ensures |r| == |assets| && forall i :: 0 <= i < |assets| ==> r[i] == assets[i].extension
  {
    seq(|assets|, i requires 0 <= i < |assets| => assets[i].extension)
  }

  /** What `get_statistics` returns (the rounded size in megabytes, a float,
      is left out). */
  datatype Statistics = Statistics(totalCount: nat, totalSize: nat, byCategory: seq<(string, CategoryStat)>,
                                   byStatus: seq<(string, nat)>, byExtension: seq<(string, nat)>)

  /** The lists of a grouping, one after another. */
  function FlatValues(groups: seq<(string, seq<Asset>)>): seq<Asset> {
    if groups == [] then [] else groups[0].1 + FlatValues(groups[1..])
  }

  lemma {:induction false} FlatValuesLength(groups: seq<(string, seq<Asset>)>)
    ensures |FlatValues(groups)| == SumBy(groups, Length)
  {
    if groups != [] {
      FlatValuesLength(groups[1..]);
    }
  }

  lemma {:induction false} FlatValuesSnoc(groups: seq<(string, seq<Asset>)>, p: (string, seq<Asset>))
    ensures FlatValues(groups + [p]) == FlatValues(groups) + p.1
  {
    if groups != [] {
      FlatValuesSnoc(groups[1..], p);
      assert (groups + [p])[1..] == groups[1..] + [p];
    }
  }

  /** Every flattened asset comes from one of the lists. */
  lemma {:induction false} FlatValuesMembers(groups: seq<(string, seq<Asset>)>, a: Asset)
    requires a in FlatValues(groups)
    ensures exists p :: p in groups && a in p.1
  {
    if a !in groups[0].1 {
      FlatValuesMembers(groups[1..], a);
      var p :| p in groups[1..] && a in p.1;
      assert p in groups;
    }
  }

  /** A grouping of `assets` holds only assets of `assets`. */
  lemma GroupedFrom(keys: seq<string>, assets: seq<Asset>, a: Asset)
    requires a in FlatValues(NonEmpty(Grouped(keys, assets)))
    ensures a in assets
  {
    FlatValuesMembers(NonEmpty(Grouped(keys, assets)), a);
    var p :| p in NonEmpty(Grouped(keys, assets)) && a in p.1;
    NonEmptyMembers(Grouped(keys, assets));
    var i :| 0 <= i < |keys| && Grouped(keys, assets)[i] == p;
    InCategoryMembers(assets, keys[i]);
  }

  /** Counting by status names only statuses the assets have. */
  lemma ByStatusKeys(assets: seq<Asset>, statuses: set<string>)
    requires forall a :: a in assets ==> a.status in statuses
    ensures forall k :: k in Keys(Tally(OrganizeKeys(assets, "by_status"))) ==> k in statuses
  {
    var keys := OrganizeKeys(assets, "by_status");
    forall k | k in Keys(Tally(keys))
      ensures k in statuses
    {
      TallyCount(keys, k);
      var i :| 0 <= i < |keys| && keys[i] == k;
      assert assets[i] in assets;
    }
  }

  /** The flattening loop: `all_assets.extend(...)` for each list. */
  method FlattenGroups(groups: seq<(string, seq<Asset>)>) returns (all: seq<Asset>)
    ensures all == FlatValues(groups)
    ensures |all| == SumBy(groups, Length)
  {
    all := [];
    for i := 0 to |groups|
      invariant all == FlatValues(groups[..i])
    {
      FlatValuesSnoc(groups[..i], groups[i]);
      assert groups[..i + 1] == groups[..i] + [groups[i]];
      all := all + groups[i].1;
    }
    assert groups[..|groups|] == groups;
    FlatValuesLength(groups);
  }

  class AssetCataloger {
    var categories: seq<(string, seq<string>)>
    var extensionMap: map<string, string>

    /** The categories form a dict and the extension map is built from them. */
    predicate Valid()
      reads this
    {
      Distinct(categories) && extensionMap == ExtensionMap(categories)
    }

    /** `__init__`: the custom categories when some are given, else the
        defaults; then the reverse extension map, built by the nested loop. */
    constructor (custom: Option<seq<(string, seq<string>)>>)
      requires custom.Some? ==> Distinct(custom.value)
      ensures categories == (if custom.Some? && custom.value != [] then custom.value else DEFAULT_CATEGORIES)
      ensures extensionMap == ExtensionMap(categories)
      ensures Valid()
    {
      DefaultCategoriesDistinct();
      var cats := if custom.Some? && custom.value != [] then custom.value else DEFAULT_CATEGORIES;
      var m := map[];
      for i := 0 to |cats|
        invariant m == ExtensionMap(cats[..i])
      {
        assert cats[..i + 1][..i] == cats[..i];
        m := AddEach(m, cats[i].1, cats[i].0);
      }
      assert cats[..|cats|] == cats;
      categories := cats;
      extensionMap := m;
    }

    /** `get_category`: the category of the lower-cased extension, 'Other'
        when the map does not know it. */
    function GetCategory(filePath: string): (r: string)
      reads this
      ensures Valid() ==> r == "Other" || r in Keys(categories)
      ensures Lower(Ext(filePath)) !in extensionMap ==> r == "Other"
    {
      var ext := Lower(Ext(filePath));
      if ext in extensionMap then extensionMap[ext] else "Other"
    }

    /** `categorize_file`: the full path falls back to the file path; the size
        is 0 when the full path is not a file. */
    function CategorizeFile(filePath: string, fullPath: Option<string>, status: string, hashMd5: Option<string>,
                            sizes: FileSizes): (r: Asset)
      reads this
      ensures Valid() ==> r.category in InitKeys(categories)
      ensures IsLower(r.extension) && (r.extension == [] || r.extension[0] == '.')
      ensures r.path == filePath && r.status == status && r.hashMd5 == hashMd5
      ensures r.fullPath == [] ==> filePath == []
    {
      var full := if fullPath.Some? && fullPath.value != [] then fullPath.value else filePath;
      LowerIsLower(Ext(filePath));
      Asset(filePath, full, GetCategory(filePath), Lower(Ext(filePath)), sizes(full).GetOr(0), hashMd5, status)
    }

    /** The asset `categorize_files` makes of one entry, each key falling
        back as the source's `get` chains do. */
    function AssetOf(info: FileInfo, sizes: FileSizes): (r: Asset)
      reads this
      ensures Valid() ==> r.category in InitKeys(categories)
      ensures r.status == info.status.GetOr("unknown")
    {
      CategorizeFile(info.path.GetOr(info.relPath.GetOr("")), Some(info.fullPath.GetOr(info.path.GetOr(""))),
                     info.status.GetOr("unknown"), info.hashMd5.GetOr(info.hash.GetOr(None)), sizes)
    }

    function AssetsOf(files: seq<FileInfo>, sizes: FileSizes): (r: seq<Asset>)
      reads this
      ensures |r| == |files|
      decreases |files|
    {
      if files == [] then [] else AssetsOf(files[..|files| - 1], sizes) + [AssetOf(files[|files| - 1], sizes)]
    }

    /** One asset per entry, in order, each filed under a known category. */
    lemma {:induction false} AssetsOfEach(files: seq<FileInfo>, sizes: FileSizes)
      requires Valid()
      ensures forall i :: 0 <= i < |files| ==> AssetsOf(files, sizes)[i] == AssetOf(files[i], sizes)
      ensures forall a :: a in AssetsOf(files, sizes) ==> a.category in InitKeys(categories)
    {
      hide AssetOf, CategorizeFile, GetCategory, ExtensionMap;
      if files != [] {
        var n := |files| - 1;
        AssetsOfEach(files[..n], sizes);
        assert forall i :: 0 <= i < n ==> files[..n][i] == files[i];
        var a := AssetOf(files[n], sizes);
        assert a.category in InitKeys(categories);
      }
    }

    /** `categorize_files`: a list per category (then 'Other'), each holding
        its assets in input order, empty lists dropped. */
    method CategorizeFiles(files: seq<FileInfo>, sizes: FileSizes) returns (r: seq<(string, seq<Asset>)>)
      requires Valid()
      ensures r == NonEmpty(Grouped(InitKeys(categories), AssetsOf(files, sizes)))
      ensures SumBy(r, Length) == |files|
    {
      hide AssetOf, CategorizeFile, GetCategory, ExtensionMap, PutSpec;
      var keys := InitKeys(categories);
      InitKeysNoRepeats(categories);
      var result := Grouped(keys, []);
      for i := 0 to |files|
        invariant result == Grouped(keys, AssetsOf(files[..i], sizes))
      {
        var asset := AssetOf(files[i], sizes);
        assert files[..i + 1][..i] == files[..i];
        assert AssetsOf(files[..i + 1], sizes) == AssetsOf(files[..i], sizes) + [asset];
        GroupedSnoc(keys, AssetsOf(files[..i], sizes), asset);
        ghost var j :| 0 <= j < |keys| && keys[j] == asset.category;
        assert Distinct(result);
        GetAt(result, j);
        result := Put(result, asset.category, Get(result, asset.category).value + [asset]);
      }
      assert files[..|files|] == files;
      r := NonEmpty(result);
      AssetsOfEach(files, sizes);
      GroupedPartition(keys, AssetsOf(files, sizes));
    }

    /** `organize_comparison_results`: the gathered results categorised,
        flattened category by category, then counted; every gathered result
        is counted once. */
    method OrganizeComparisonResults(results: Comparator.Buckets, onlyCustom: bool, structure: string,
                                     sizes: FileSizes) returns (counts: seq<(string, nat)>)
      requires Valid()
      ensures counts == Tally(OrganizeKeys(ComparisonAssets(results, onlyCustom, sizes), structure))
      ensures SumBy(counts, Count) == |Gathered(results, onlyCustom)|
      ensures onlyCustom ==> SumBy(counts, Count) == |results.newFiles| + |results.modified|
      ensures onlyCustom && structure == "by_status" ==>
                forall k :: k in Keys(counts) ==> k in {"new", "modified"}
    {
      hide AssetOf, CategorizeFile, GetCategory, ExtensionMap, PutSpec, Put, Get, TallyFrom;
      var gathered := GatherResults(results, onlyCustom);
      var categorized := CategorizeFiles(gathered, sizes);
      var all := FlattenGroups(categorized);
      FlatValuesLength(categorized);
      counts := OrganizeAssets(all, structure);
      assert all == ComparisonAssets(results, onlyCustom, sizes);
      if onlyCustom {
        ByStatusKeys(all, {"new", "modified"});
      }
    }

    /** The assets `organize_comparison_results` organises: the gathered
        results categorised, then flattened category by category. Each
        gathered result gives one asset carrying its status. */
    function ComparisonAssets(results: Comparator.Buckets, onlyCustom: bool, sizes: FileSizes): (r: seq<Asset>)
      reads this
      requires Valid()
      ensures |r| == |Gathered(results, onlyCustom)|
      ensures onlyCustom ==> forall a :: a in r ==> a.status in {"new", "modified"}
    {
      var gathered := Gathered(results, onlyCustom);
      var groups := NonEmpty(Grouped(InitKeys(categories), AssetsOf(gathered, sizes)));
      ComparisonAssetsFacts(gathered, sizes, onlyCustom);
      FlatValues(groups)
    }

    lemma ComparisonAssetsFacts(gathered: seq<FileInfo>, sizes: FileSizes, onlyCustom: bool)
      requires Valid()
      requires onlyCustom ==> forall e :: e in gathered ==> e.status in {Some("new"), Some("modified")}
      ensures var all := FlatValues(NonEmpty(Grouped(InitKeys(categories), AssetsOf(gathered, sizes))));
              |all| == |gathered| && (onlyCustom ==> forall a :: a in all ==> a.status in {"new", "modified"})
    {
      hide AssetOf, CategorizeFile, GetCategory, ExtensionMap, PutSpec, Put, Get;
      ComparisonCount(gathered, sizes);
      if onlyCustom {
        ComparisonStatuses(gathered, sizes);
      }
    }

    lemma ComparisonCount(gathered: seq<FileInfo>, sizes: FileSizes)
      requires Valid()
      ensures |FlatValues(NonEmpty(Grouped(InitKeys(categories), AssetsOf(gathered, sizes))))| == |gathered|
    {
      hide AssetOf, CategorizeFile, GetCategory, ExtensionMap, PutSpec, Put, Get;
      var assets := AssetsOf(gathered, sizes);
      AssetsOfEach(gathered, sizes);
      InitKeysNoRepeats(categories);
      GroupedPartition(InitKeys(categories), assets);
      FlatValuesLength(NonEmpty(Grouped(InitKeys(categories), assets)));
    }

    lemma ComparisonStatuses(gathered: seq<FileInfo>, sizes: FileSizes)
      requires Valid()
      requires forall e :: e in gathered ==> e.status in {Some("new"), Some("modified")}
      ensures forall a :: a in FlatValues(NonEmpty(Grouped(InitKeys(categories), AssetsOf(gathered, sizes)))) ==>
                a.status in {"new", "modified"}
    {
      hide CategorizeFile, GetCategory, ExtensionMap, PutSpec, Put, Get;
      var assets := AssetsOf(gathered, sizes);
      AssetsOfEach(gathered, sizes);
      forall a | a in FlatValues(NonEmpty(Grouped(InitKeys(categories), assets)))
        ensures a.status in {"new", "modified"}
      {
        GroupedFrom(InitKeys(categories), assets, a);
        var i :| 0 <= i < |assets| && assets[i] == a;
        assert gathered[i] in gathered;
      }
    }

    /** The gathering loop of `organize_comparison_results`, over the four
        statuses in their fixed order. */
    method GatherResults(results: Comparator.Buckets, onlyCustom: bool) returns (r: seq<FileInfo>)
      ensures r == Gathered(results, onlyCustom)
    {
      r := AppendEntries([], "new", results.newFiles);
      r := AppendEntries(r, "modified", results.modified);
      if !onlyCustom {
        r := AppendEntries(r, "identical", results.identical);
        r := AppendEntries(r, "unknown", results.unknown);
      }
    }

    /** `get_statistics`: one pass over the assets updating the three dicts
        and the total size. */
    method GetStatistics(assets: seq<Asset>) returns (r: Statistics)
      ensures r.totalCount == |assets| && r.totalSize == TotalSize(assets)
      ensures r.byCategory == CategoryStats(assets)
      ensures r.byStatus == Tally(Statuses(assets)) && r.byExtension == Tally(Extensions(assets))
      ensures SumBy(r.byCategory, StatCount) == r.totalCount && SumBy(r.byCategory, StatSize) == r.totalSize
      ensures SumBy(r.byStatus, Count) == r.totalCount && SumBy(r.byExtension, Count) == r.totalCount
    {
      hide PutSpec, Put, Get;
      var byCategory: seq<(string, CategoryStat)> := [];
      var byStatus: seq<(string, nat)> := [];
      var byExtension: seq<(string, nat)> := [];
      var totalSize := 0;
      ghost var statuses := Statuses(assets);
      ghost var exts := Extensions(assets);
      for i := 0 to |assets|
        invariant StatsFrom(byCategory, assets[i..]) == CategoryStats(assets)
        invariant totalSize + TotalSize(assets[i..]) == TotalSize(assets)
        invariant TallyFrom(byStatus, statuses[i..]) == Tally(statuses)
        invariant TallyFrom(byExtension, exts[i..]) == Tally(exts)
      {
        var a := assets[i];
        assert assets[i..][1..] == assets[i + 1..] && statuses[i..][1..] == statuses[i + 1..];
        assert exts[i..][1..] == exts[i + 1..];
        var stat := Get(byCategory, a.category).GetOr(CategoryStat(0, 0));
        var category' := Put(byCategory, a.category, CategoryStat(stat.count + 1, stat.size + a.size));
        var status' := Put(byStatus, a.status, Get(byStatus, a.status).GetOr(0) + 1);
        var extension' := Put(byExtension, a.extension, Get(byExtension, a.extension).GetOr(0) + 1);
        assert StatsFrom(byCategory, assets[i..]) == StatsFrom(category', assets[i + 1..]);
        assert TallyFrom(byStatus, statuses[i..]) == TallyFrom(status', statuses[i + 1..]);
        assert TallyFrom(byExtension, exts[i..]) == TallyFrom(extension', exts[i + 1..]);
        assert TotalSize(assets[i..]) == a.size + TotalSize(assets[i + 1..]);
        hide StatsFrom, TallyFrom, TotalSize;
        byCategory, byStatus, byExtension := category', status', extension';
        totalSize := totalSize + a.size;
      }
      CategoryStatsSums(assets);
      TallySum(statuses);
      TallySum(exts);
      r := Statistics(|assets|, totalSize, byCategory, byStatus, byExtension);
    }
  }
}
