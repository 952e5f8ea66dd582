/** The non-drawing parts of the character designer: the sprite paths the
    compositor builds from its state, and the detector that classifies a
    sprite path as vanilla or custom against a baseline of vanilla files. */
module CharacterDesigner {
  import opened Wrappers
  import opened Strings

  // ---------------------------------------------------------------------------
  // Sprite paths
  // ---------------------------------------------------------------------------

  /** The Korean folder word for the sex: "남" for "male", "여" for anything else. */
  function GenderWord(gender: string): (r: string)
    ensures |r| == 1
    ensures r == "남" <==> gender == "male"
    ensures r == "여" <==> gender != "male"
  {
    if gender == "male" then "남" else "여"
  }

  const BODY_DIR := "data/sprite/인간족/몸통/"
  const HEAD_DIR := "data/sprite/인간족/머리통/"
  const HEADGEAR_DIR := "data/sprite/악세사리/"

  /** What the renderer sees of the compositor: the character's job, sex,
      head and the three headgear slots. */
  datatype Look = Look(job: string, gender: string, headId: int,
                       headgearTop: int, headgearMid: int, headgearLow: int)

  /** The compositor's character state (its caches, palettes and resource
      folder belong to rendering, which is not part of this model). */
  class SpriteCompositor {
    var job: string
    var gender: string
    var headId: int
    var headgearTop: int
    var headgearMid: int
    var headgearLow: int

    /** `__init__`: a male Novice with head 1 and no headgear. */
    constructor ()
      ensures job == "Novice" && gender == "male" && headId == 1
      ensures headgearTop == 0 && headgearMid == 0 && headgearLow == 0
    {
      job, gender, headId := "Novice", "male", 1;
      headgearTop, headgearMid, headgearLow := 0, 0, 0;
    }

    /** The slots the compositor currently wears. */
    function CurrentLook(): Look
      reads this
    {
      Look(job, gender, headId, headgearTop, headgearMid, headgearLow)
    }

    /** `get_body_path`: "" for a job missing from the job table (given as
        job name to sprite folder), else the body sprite of that folder and
        sex under the body directory. */
    function BodyPath(jobFolders: map<string, string>): (r: string)
      reads this
      ensures job !in jobFolders <==> r == ""
      ensures job in jobFolders ==>
        r == BODY_DIR + GenderWord(gender) + "/" + jobFolders[job] + "_" + GenderWord(gender)
    {
      if job !in jobFolders then ""
      else
        var g := GenderWord(gender);
        BODY_DIR + g + "/" + jobFolders[job] + "_" + g
    }

    /** `get_head_path`: the head sprite numbered `headId` for the sex. */
    function HeadPath(): (r: string)
      reads this
      ensures r == HEAD_DIR + GenderWord(gender) + "/" + IntToString(headId) + "_" + GenderWord(gender)
    {
      var g := GenderWord(gender);
      HEAD_DIR + g + "/" + IntToString(headId) + "_" + g
    }

    /** `get_headgear_path`: the accessory sprite numbered `id` for the sex. */
    function HeadgearPath(id: int): (r: string)
      reads this
      ensures r == HEADGEAR_DIR + GenderWord(gender) + "/" + GenderWord(gender) + "_" + IntToString(id)
    {
      var g := GenderWord(gender);
      HEADGEAR_DIR + g + "/" + g + "_" + IntToString(id)
    }
  }

  /** Different numbers have different decimal spellings. */
  lemma IntToStringInjective(a: int, b: int)
    requires IntToString(a) == IntToString(b)
    ensures a == b
  {
    var s, t := IntToString(a), IntToString(b);
    if a < 0 && b < 0 {
      assert s[1..] == NatToString(-a) && t[1..] == NatToString(-b);
      ParseNatToString(-a);
      ParseNatToString(-b);
    } else if a >= 0 && b >= 0 {
      ParseNatToString(a);
      ParseNatToString(b);
    } else {
      assert false;
    }
  }

  /** Equal strings with equal prefixes have equal rests. */
  lemma CancelPrefix(p: string, x: string, y: string)
    requires p + x == p + y
    ensures x == y
  {
    assert x == (p + x)[|p|..];
    assert y == (p + y)[|p|..];
  }

  /** Distinct headgear numbers give distinct sprite paths, for either sex. */
  lemma HeadgearPathsDistinct(c: SpriteCompositor, a: int, b: int)
    requires a != b
    ensures c.HeadgearPath(a) != c.HeadgearPath(b)
  {
    var g := GenderWord(c.gender);
    var p := HEADGEAR_DIR + g + "/" + g + "_";
    assert c.HeadgearPath(a) == p + IntToString(a);
    assert c.HeadgearPath(b) == p + IntToString(b);
    if c.HeadgearPath(a) == c.HeadgearPath(b) {
      CancelPrefix(p, IntToString(a), IntToString(b));
      IntToStringInjective(a, b);
    }
  }

  /** The two sexes never share a head sprite: the paths differ right after
      the head directory. */
  lemma HeadPathsBySex(c: SpriteCompositor, d: SpriteCompositor)
    requires (c.gender == "male") != (d.gender == "male")
    ensures c.HeadPath() != d.HeadPath()
  {
    var n := |HEAD_DIR|;
    assert c.HeadPath()[n] == GenderWord(c.gender)[0];
    assert d.HeadPath()[n] == GenderWord(d.gender)[0];
  }

  // ---------------------------------------------------------------------------
  // Custom sprite detection
  // ---------------------------------------------------------------------------

  /** The statuses a sprite can have; `Modified` is declared by the program
      but no path is ever given it. */
  datatype Status = Vanilla | Modified | New | Unknown

  const DATA_DIR := "data/"

  /** The baseline key of a lower-cased path: its suffix from the first
      "data/" on, or the whole path when "data/" does not occur. */
  function RelPath(pathLower: string): (r: string)
    ensures |r| <= |pathLower| && r == pathLower[|pathLower| - |r|..]
    ensures Occurs(DATA_DIR, pathLower) ==>
      DATA_DIR <= r && forall j :: OccursAt(DATA_DIR, pathLower, j) ==> |pathLower| - |r| <= j
    ensures !Occurs(DATA_DIR, pathLower) ==> r == pathLower
  {
    FindOccurs(pathLower, DATA_DIR);
    var i := Find(pathLower, DATA_DIR);
    if i >= 0 then pathLower[i..] else pathLower
  }

  /** A key already starting with "data/" is its own key. */
  lemma RelPathOfKey(p: string)
    requires DATA_DIR <= p
    ensures RelPath(p) == p
  {
    assert OccursAt(DATA_DIR, p, 0);
    FindOccurs(p, DATA_DIR);
  }

  /** A lower-cased path under "data/" keeps that prefix. */
  lemma LowerKeepsDataDir(p: string)
    requires DATA_DIR <= p
    ensures DATA_DIR <= Lower(p)
  {
    assert forall i :: 0 <= i < |DATA_DIR| ==> Lower(p)[i] == LowerChar(p[i]) == DATA_DIR[i];
  }

  /** The detector looks a built headgear sprite up under its own
      lower-cased path: every path the compositor builds is already relative
      to "data/". */
  lemma HeadgearPathIsKey(c: SpriteCompositor, id: int)
    ensures RelPath(Lower(c.HeadgearPath(id))) == Lower(c.HeadgearPath(id))
  {
    HeadgearUnderData(c, id);
    var p := c.HeadgearPath(id);
    hide *;
    LowerKeepsDataDir(p);
    RelPathOfKey(Lower(p));
  }

  /** Headgear sprites live under `data/`. */
  lemma HeadgearUnderData(c: SpriteCompositor, id: int)
    ensures DATA_DIR <= c.HeadgearPath(id)
  {
    var g := GenderWord(c.gender);
    var rest := g + "/" + g + "_" + IntToString(id);
    assert c.HeadgearPath(id) == HEADGEAR_DIR + rest;
    assert (HEADGEAR_DIR + rest)[..5] == HEADGEAR_DIR[..5] == DATA_DIR;
  }

  /** Taking the key twice changes nothing. */
  lemma RelPathIdempotent(p: string)
    ensures RelPath(RelPath(p)) == RelPath(p)
  {
    FindOccurs(p, DATA_DIR);
    if Occurs(DATA_DIR, p) {
      RelPathOfKey(RelPath(p));
    }
  }

  /** The status a lower-cased path gets from a baseline: unknown without a
      baseline, vanilla when its key is listed, new when it is not. */
  function Classify(baseline: map<string, string>, pathLower: string): (s: Status)
    ensures s != Modified
    ensures s == Unknown <==> |baseline| == 0
    ensures s == Vanilla <==> |baseline| > 0 && RelPath(pathLower) in baseline
    ensures s == New <==> |baseline| > 0 && RelPath(pathLower) !in baseline
  {
    if |baseline| == 0 then Unknown
    else if RelPath(pathLower) in baseline then Vanilla
    else New
  }

  /** What `check_sprite` answers for `path` given the cache and the
      baseline: unknown for "", the cached status of the lower-cased path,
      or its classification. */
  function StatusOf(cache: map<string, Status>, baseline: map<string, string>, path: string): Status {
    if path == [] then Unknown
    else if Lower(path) in cache then cache[Lower(path)]
    else Classify(baseline, Lower(path))
  }

  /** Every cached status is the one the baseline gives its key. */
  predicate Agrees(cache: map<string, Status>, baseline: map<string, string>) {
    forall k :: k in cache ==> cache[k] == Classify(baseline, k)
  }

  /** A cache that agrees with the baseline never changes an answer. */
  lemma AgreeingCacheTransparent(cache: map<string, Status>, baseline: map<string, string>, path: string)
    requires Agrees(cache, baseline)
    ensures StatusOf(cache, baseline, path) == StatusOf(map[], baseline, path)
  {
  }

  /** Loading a baseline from the database keeps the old cache, so a path
      cached as new while "data/a.spr" was not yet listed stays new after a
      baseline that lists it, although the fresh answer is vanilla. */
  lemma StaleCacheAfterLoad()
    ensures var cache := map["data/a.spr" := New];
            var loaded := map["data/a.spr" := "hash"];
            StatusOf(cache, loaded, "data/a.spr") == New &&
            StatusOf(map[], loaded, "data/a.spr") == Vanilla
  {
    var p := "data/a.spr";
    assert Lower(p) == p;
    RelPathOfKey(p);
  }

  /** The baseline `load_baseline_from_db` builds from the vanilla files
      (path, MD5): the lower-cased path of each file to its hash, a later
      file winning over an earlier one with the same lower-cased path. */
  function BaselineOf(files: seq<(string, string)>): (b: map<string, string>)
    ensures forall k :: k in b <==> exists i :: 0 <= i < |files| && Lower(files[i].0) == k
  {
    if files == [] then map[]
    else
      var last := files[|files| - 1];
      var b := BaselineOf(files[..|files| - 1])[Lower(last.0) := last.1];
      assert forall i :: 0 <= i < |files| - 1 ==> files[..|files| - 1][i] == files[i];
      b
  }

  /** Each key maps to the hash of the last file with that lower-cased path. */
  lemma {:induction false} BaselineLast(files: seq<(string, string)>, i: nat)
    requires i < |files|
    requires forall j :: i < j < |files| ==> Lower(files[j].0) != Lower(files[i].0)
    ensures Lower(files[i].0) in BaselineOf(files)
    ensures BaselineOf(files)[Lower(files[i].0)] == files[i].1
  {
    if i < |files| - 1 {
      var init := files[..|files| - 1];
      assert init[i] == files[i];
      forall j | i < j < |init| ensures Lower(init[j].0) != Lower(init[i].0) {
        assert init[j] == files[j];
      }
      BaselineLast(init, i);
    }
  }

  /** `CustomSpriteDetector`: a baseline of vanilla files keyed by
      lower-cased relative path, and a cache of the statuses answered so far
      keyed by lower-cased path. */
  class CustomSpriteDetector {
    var hasDatabase: bool
    var baseline: map<string, string>
    var customCache: map<string, Status>

    /** Only vanilla and new are ever cached. */
    predicate Valid()
      reads this
    {
      forall k :: k in customCache ==> customCache[k] == Vanilla || customCache[k] == New
    }

    /** The answer `check_sprite(path)` gives in the current state. */
    function StatusFor(path: string): Status
      reads this
    {
      StatusOf(customCache, baseline, path)
    }

    /** `__init__`: the given baseline, or an empty one for `None`; nothing
        cached. */
    constructor (hasDatabase: bool, baseline: Option<map<string, string>>)
      ensures this.hasDatabase == hasDatabase
      ensures this.baseline == (if baseline.Some? then baseline.value else map[])
      ensures customCache == map[]
      ensures Valid() && Agrees(customCache, this.baseline)
    {
      this.hasDatabase := hasDatabase;
      this.baseline := if baseline.Some? then baseline.value else map[];
      customCache := map[];
    }

    /** `set_baseline`: the new baseline, and an empty cache. */
    method SetBaseline(b: map<string, string>)
      modifies this
      ensures baseline == b && customCache == map[] && hasDatabase == old(hasDatabase)
      ensures Valid() && Agrees(customCache, baseline)
      ensures forall p :: StatusFor(p) == StatusOf(map[], b, p)
    {
      baseline := b;
      customCache := map[];
    }

    /** `load_baseline_from_db`: with a database, the baseline built from its
        vanilla files (`None` when the query raises, which changes nothing);
        the cache is kept as it was. */
    method LoadBaselineFromDb(files: Option<seq<(string, string)>>)
      modifies this
      ensures hasDatabase == old(hasDatabase) && customCache == old(customCache)
      ensures hasDatabase && files.Some? ==> baseline == BaselineOf(files.value)
      ensures !(hasDatabase && files.Some?) ==> baseline == old(baseline)
      ensures old(Valid()) ==> Valid()
    {
      if hasDatabase && files.Some? {
        baseline := BaselineOf(files.value);
      }
    }

    /** `check_sprite`: answer `StatusFor(path)`, and cache a classified
        answer under the lower-cased path unless the baseline is empty. */
    method CheckSprite(path: string) returns (status: Status)
      requires Valid()
      modifies this
      ensures status == old(StatusFor(path))
      ensures status != Modified
      ensures path == [] || (|baseline| == 0 && Lower(path) !in old(customCache)) ==> status == Unknown
      ensures baseline == old(baseline) && hasDatabase == old(hasDatabase)
      ensures customCache ==
        if path != [] && Lower(path) !in old(customCache) && |baseline| > 0
        then old(customCache)[Lower(path) := status] else old(customCache)
      ensures Valid() && StatusFor(path) == status
      ensures old(Agrees(customCache, baseline)) ==> Agrees(customCache, baseline)
    {
      if path == [] {
        return Unknown;
      }
      var pathLower := Lower(path);
      if pathLower in customCache {
        return customCache[pathLower];
      }
      var relPath := RelPath(pathLower);
      if |baseline| == 0 {
        return Unknown;
      }
      if relPath !in baseline {
        status := New;
      } else {
        status := Vanilla;
      }
      customCache := customCache[pathLower := status];
    }

    /** `get_custom_sprites`: each path mapped to its `check_sprite`
        answer. Checking one path never changes the answer for another, so
        every answer is the one the path had before the call. */
    method GetCustomSprites(paths: seq<string>) returns (r: map<string, Status>)
      requires Valid()
      modifies this
      ensures forall p :: p in r <==> p in paths
      ensures forall p :: p in r ==> r[p] == old(StatusFor(p)) && r[p] != Modified
      ensures baseline == old(baseline) && hasDatabase == old(hasDatabase) && Valid()
      ensures forall p :: StatusFor(p) == old(StatusFor(p))
    {
      hide Lower, RelPath, Classify, StatusOf;
      ghost var cache0 := customCache;
      r := map[];
      for i := 0 to |paths|
        invariant Valid() && baseline == old(baseline) && hasDatabase == old(hasDatabase)
        invariant forall p :: p in r <==> p in paths[..i]
        invariant forall p :: StatusOf(customCache, baseline, p) == StatusOf(cache0, baseline, p)
        invariant forall p :: p in r ==> r[p] == StatusOf(cache0, baseline, p) && r[p] != Modified
      {
        ghost var before := customCache;
        var s := CheckSprite(paths[i]);
        CheckStep(before, customCache, baseline, paths[i], s, cache0);
        r := r[paths[i] := s];
      }
      assert paths[..|paths|] == paths;
    }
  }

  /** One `check_sprite` call inside `get_custom_sprites` keeps every answer. */
  lemma CheckStep(before: map<string, Status>, after: map<string, Status>, baseline: map<string, string>,
                  q: string, s: Status, cache0: map<string, Status>)
    requires s == StatusOf(before, baseline, q)
    requires after == if q != [] && Lower(q) !in before && |baseline| > 0
                      then before[Lower(q) := s] else before
    requires forall p :: StatusOf(before, baseline, p) == StatusOf(cache0, baseline, p)
    ensures forall p :: StatusOf(after, baseline, p) == StatusOf(cache0, baseline, p)
  {
    forall p ensures StatusOf(after, baseline, p) == StatusOf(before, baseline, p) {
      CacheGrowthKeepsAnswers(before, after, baseline, q, p);
    }
  }

  /** Caching the classified answer for one path leaves every answer as it was. */
  lemma CacheGrowthKeepsAnswers(cache: map<string, Status>, cache': map<string, Status>,
                                baseline: map<string, string>, q: string, p: string)
    requires cache' == cache || (q != [] && Lower(q) !in cache && cache' == cache[Lower(q) := Classify(baseline, Lower(q))])
    ensures StatusOf(cache', baseline, p) == StatusOf(cache, baseline, p)
  {
  }
}
