/** `AssetComparator`: classifies files of a client against the hashes of a
    vanilla client. The vanilla hashes live in a cache keyed by lower-cased
    relative path; the database behind it and the file hashing are inputs. */
module Comparator {
  import opened Wrappers
  import opened Strings
  import opened Hasher

  datatype Status = Identical | Modified | New | Unknown

  /** The status as the result dictionaries spell it. */
  function StatusName(s: Status): (r: string)
    ensures r in ["identical", "modified", "new", "unknown"]
  {
    match s
    case Identical => "identical"
    case Modified => "modified"
    case New => "new"
    case Unknown => "unknown"
  }

  /** Distinct statuses have distinct names. */
  lemma StatusNamesDistinct(s: Status, t: Status)
    requires StatusName(s) == StatusName(t)
    ensures s == t
  {
  }

  datatype ComparisonResult = ComparisonResult(path: string, status: Status, hashMd5: string, size: nat,
                                               vanillaHash: Option<string>)

  /** `if not md5_hash`: no hash, or the empty string. */
  predicate Hashed(h: Option<string>) {
    h.Some? && h.value != []
  }

  /** The vanilla hash for a relative path: looked up by its lower-cased form. */
  function VanillaHash(baseline: map<string, string>, relPath: string): (r: Option<string>)
    ensures r.Some? <==> Lower(relPath) in baseline
  {
    if Lower(relPath) in baseline then Some(baseline[Lower(relPath)]) else None
  }

  /** The decision of `compare_file` and of the loop of `compare_files`. */
  function Classify(baseline: map<string, string>, relPath: string, hash: Option<string>, size: nat)
    : (r: ComparisonResult)
    ensures r.path == relPath && r.size == size
    ensures r.status == Unknown <==> !Hashed(hash)
    ensures r.status == Unknown ==> r.hashMd5 == [] && r.vanillaHash.None?
    ensures r.status != Unknown ==> r.hashMd5 == hash.value && r.vanillaHash == VanillaHash(baseline, relPath)
    ensures r.status == New <==> Hashed(hash) && Lower(relPath) !in baseline
    ensures r.status == Identical <==> Hashed(hash) && CompareHashes(VanillaHash(baseline, relPath), hash)
    ensures r.status == Modified <==>
              Hashed(hash) && Lower(relPath) in baseline && !CompareHashes(VanillaHash(baseline, relPath), hash)
    ensures r.vanillaHash.None? <==> r.status == New || r.status == Unknown
  {
    if !Hashed(hash) then ComparisonResult(relPath, Unknown, [], size, None)
    else
      var vanilla := VanillaHash(baseline, relPath);
      var status :=
        if vanilla.None? then New
        else if Lower(vanilla.value) == Lower(hash.value) then Identical
        else Modified;
      ComparisonResult(relPath, status, hash.value, size, vanilla)
  }

  /** The lookup ignores the case of the path: two spellings of one path get
      the same status and vanilla hash. */
  lemma ClassifyIgnoresPathCase(baseline: map<string, string>, p: string, q: string, hash: Option<string>, size: nat)
    requires Lower(p) == Lower(q)
    ensures Classify(baseline, p, hash, size).status == Classify(baseline, q, hash, size).status
    ensures Classify(baseline, p, hash, size).vanillaHash == Classify(baseline, q, hash, size).vanillaHash
  {
  }

  /** A file of the client: its full path, the relative path used for the
      lookup, and its size. */
  datatype ClientFile = ClientFile(path: string, relPath: string, size: nat)

  /** `hashes.get(full_path)` on the result of the parallel hasher. */
  function HashOf(hashes: map<string, Option<string>>, path: string): (r: Option<string>)
    ensures path !in hashes ==> r.None?
  {
    if path in hashes then hashes[path] else None
  }

  /** The results `compare_files` computes, in input order. */
  function Results(baseline: map<string, string>, files: seq<ClientFile>, hashes: map<string, Option<string>>)
    : (r: seq<ComparisonResult>)
    ensures |r| == |files|
    ensures forall i :: 0 <= i < |files| ==>
              r[i] == Classify(baseline, files[i].relPath, HashOf(hashes, files[i].path), files[i].size)
  {
    seq(|files|, i requires 0 <= i < |files| =>
      Classify(baseline, files[i].relPath, HashOf(hashes, files[i].path), files[i].size))
  }

  /** The results with status `s`, in order. */
  function WithStatus(rs: seq<ComparisonResult>, s: Status): (r: seq<ComparisonResult>)
    ensures |r| <= |rs|
    ensures forall x :: x in r ==> x in rs && x.status == s
  {
    if rs == [] then []
    else WithStatus(rs[..|rs| - 1], s) + (if rs[|rs| - 1].status == s then [rs[|rs| - 1]] else [])
  }

  /** The four lists `compare_files` returns; `newFiles` is the `new` list. */
  datatype Buckets = Buckets(identical: seq<ComparisonResult>, modified: seq<ComparisonResult>,
                             newFiles: seq<ComparisonResult>, unknown: seq<ComparisonResult>)
  {
    function Get(s: Status): seq<ComparisonResult> {
      match s
      case Identical => identical
      case Modified => modified
      case New => newFiles
      case Unknown => unknown
    }

    /** `results[status].append(result)` */
    function Append(x: ComparisonResult): Buckets {
      match x.status
      case Identical => this.(identical := identical + [x])
      case Modified => this.(modified := modified + [x])
      case New => this.(newFiles := newFiles + [x])
      case Unknown => this.(unknown := unknown + [x])
    }

    function Total(): nat {
      |identical| + |modified| + |newFiles| + |unknown|
    }
  }

  function Bucketed(rs: seq<ComparisonResult>): (b: Buckets)
    ensures forall s :: b.Get(s) == WithStatus(rs, s)
  {
    Buckets(WithStatus(rs, Identical), WithStatus(rs, Modified), WithStatus(rs, New), WithStatus(rs, Unknown))
  }

  /** Appending a result appends it to the bucket of its status only. */
  lemma BucketedSnoc(rs: seq<ComparisonResult>, x: ComparisonResult)
    ensures Bucketed(rs + [x]) == Bucketed(rs).Append(x)
  {
    assert (rs + [x])[..|rs|] == rs;
  }

  /** Every result lands in exactly one bucket: the four sizes add up to the
      number of results, and each result appears in the bucket of its status. */
  lemma {:induction false} BucketsPartition(rs: seq<ComparisonResult>)
    ensures Bucketed(rs).Total() == |rs|
    ensures forall i :: 0 <= i < |rs| ==> rs[i] in Bucketed(rs).Get(rs[i].status)
  {
    if rs != [] {
      var init := rs[..|rs| - 1];
      BucketsPartition(init);
      forall i | 0 <= i < |rs|
        ensures rs[i] in Bucketed(rs).Get(rs[i].status)
      {
        if i < |rs| - 1 {
          assert rs[i] == init[i];
        }
      }
    }
  }

  /** The loop of `compare_files`: each file classified and appended to the
      bucket of its status. */
  method BucketEach(baseline: map<string, string>, files: seq<ClientFile>, hashes: map<string, Option<string>>)
    returns (r: Buckets)
    ensures r == Bucketed(Results(baseline, files, hashes))
  {
    r := Buckets([], [], [], []);
    ghost var all := Results(baseline, files, hashes);
    assert r == Bucketed(all[..0]);
    hide Bucketed, Classify, WithStatus, Results;
    for i := 0 to |files|
      invariant r == Bucketed(all[..i])
    {
      var f := files[i];
      var result := Classify(baseline, f.relPath, HashOf(hashes, f.path), f.size);
      assert all[..i + 1] == all[..i] + [result] by {
        assert all[i] == result;
      }
      BucketedSnoc(all[..i], result);
      r := r.Append(result);
    }
    assert all[..|files|] == all;
  }

  /** The loop of `build_baseline` over the kept files: each one with a hash
      stored under its lower-cased relative path, and counted. */
  method CacheEach(start: map<string, string>, kept: seq<WalkedFile>, hashes: map<string, Option<string>>)
    returns (m: map<string, string>, count: nat)
    ensures m == AddHashes(start, Added(kept, hashes))
    ensures count == |Added(kept, hashes)|
  {
    m, count := start, 0;
    assert Added(kept[..0], hashes) == [] && AddHashes(start, []) == start;
    hide Added, AddHashes;
    for i := 0 to |kept|
      invariant count == |Added(kept[..i], hashes)|
      invariant m == AddHashes(start, Added(kept[..i], hashes))
    {
      assert kept[..i + 1] == kept[..i] + [kept[i]];
      AddedSnoc(kept[..i], kept[i], hashes);
      var md5 := HashOf(hashes, kept[i].fullPath);
      if Hashed(md5) {
        AddHashesSnoc(start, Added(kept[..i], hashes), (Lower(kept[i].relPath), md5.value));
        m := m[Lower(kept[i].relPath) := md5.value];
        count := count + 1;
      } else {
        assert Added(kept[..i + 1], hashes) == Added(kept[..i], hashes);
      }
    }
    assert kept[..|kept|] == kept;
  }

  class AssetComparator {
    /** `baseline_cache`: lower-cased relative path to vanilla MD5. */
    var baseline: map<string, string>

    /** `__init__` with `_load_baseline_cache`: the stored vanilla files of
        the game, each keyed by its lower-cased path. */
    constructor (stored: seq<(string, string)>)
      ensures baseline == CacheOf(stored)
    {
      baseline := CacheOf(stored);
    }

    /** `compare_files`: each file classified with the hash the parallel
        hasher produced for its full path, appended to its bucket. */
    method CompareFiles(files: seq<ClientFile>, hashes: map<string, Option<string>>) returns (r: Buckets)
      ensures r == Bucketed(Results(baseline, files, hashes))
      ensures r.Total() == |files|
    {
      if |files| == 0 {
        r := Buckets([], [], [], []);
        BucketsPartition([]);
        return;
      }
      r := BucketEach(baseline, files, hashes);
      BucketsPartition(Results(baseline, files, hashes));
    }

    /** `build_baseline` after the directory walk: every file that passes the
        extension filter and got a hash is cached under its lower-cased
        relative path; the count is of those files. */
    method BuildBaseline(walked: seq<WalkedFile>, extensions: seq<string>, hashes: map<string, Option<string>>)
      returns (count: nat)
      modifies this
      ensures baseline == AddHashes(old(baseline), Added(Kept(walked, extensions), hashes))
      ensures count == |Added(Kept(walked, extensions), hashes)|
    {
      var m, c := CacheEach(baseline, Kept(walked, extensions), hashes);
      baseline, count := m, c;
    }

    /** `clear_baseline`: the cache is emptied. */
    method ClearBaseline()
      modifies this
      ensures baseline == map[]
    {
      baseline := map[];
    }
  }

  /** The cache `_load_baseline_cache` builds from the stored (path, hash)
      rows: later rows win for paths equal up to case. */
  function CacheOf(stored: seq<(string, string)>): (r: map<string, string>)
    ensures forall k :: k in r ==> IsLower(k)
    ensures forall i :: 0 <= i < |stored| ==> Lower(stored[i].0) in r
  {
    if stored == [] then map[]
    else
      var last := stored[|stored| - 1];
      LowerIsLower(last.0);
      CacheOf(stored[..|stored| - 1])[Lower(last.0) := last.1]
  }

  /** A file found by the walk: its name, full path and path relative to the
      vanilla root. */
  datatype WalkedFile = WalkedFile(name: string, fullPath: string, relPath: string)

  /** The extension filter: with extensions given, a file's lower-cased
      extension must be one of them, lower-cased. */
  predicate PassesFilter(f: WalkedFile, extensions: seq<string>) {
    extensions == [] || exists e :: e in extensions && Lower(e) == Lower(Ext(f.name))
  }

  /** The files of the walk that pass the filter, in walk order. */
  function Kept(walked: seq<WalkedFile>, extensions: seq<string>): (r: seq<WalkedFile>)
    ensures |r| <= |walked|
  {
    if walked == [] then []
    else Kept(walked[..|walked| - 1], extensions)
         + (if PassesFilter(walked[|walked| - 1], extensions) then [walked[|walked| - 1]] else [])
  }

  lemma {:induction false} KeptMembers(walked: seq<WalkedFile>, extensions: seq<string>)
    ensures forall f :: f in Kept(walked, extensions) <==> f in walked && PassesFilter(f, extensions)
  {
    if walked != [] {
      var init := walked[..|walked| - 1];
      KeptMembers(init, extensions);
      assert forall f :: f in walked <==> f in init || f == walked[|walked| - 1];
    }
  }

  /** The (key, hash) pairs the kept files add, in walk order. */
  function Added(kept: seq<WalkedFile>, hashes: map<string, Option<string>>): (r: seq<(string, string)>)
    ensures |r| <= |kept|
  {
    if kept == [] then []
    else
      var f := kept[|kept| - 1];
      var md5 := HashOf(hashes, f.fullPath);
      Added(kept[..|kept| - 1], hashes) + (if Hashed(md5) then [(Lower(f.relPath), md5.value)] else [])
  }

  lemma AddedSnoc(kept: seq<WalkedFile>, f: WalkedFile, hashes: map<string, Option<string>>)
    ensures Added(kept + [f], hashes) == Added(kept, hashes) +
              (if Hashed(HashOf(hashes, f.fullPath)) then [(Lower(f.relPath), HashOf(hashes, f.fullPath).value)] else [])
  {
    assert (kept + [f])[..|kept|] == kept;
  }

  /** `d[k] = v` for each pair in turn. */
  function AddHashes(m: map<string, string>, pairs: seq<(string, string)>): (r: map<string, string>)
    ensures m.Keys <= r.Keys
  {
    if pairs == [] then m
    else
      var last := pairs[|pairs| - 1];
      AddHashes(m, pairs[..|pairs| - 1])[last.0 := last.1]
  }

  /** After the pairs are stored, a key holds the value of the last pair with
      that key, or its old value when no pair has it. */
  lemma {:induction false} AddHashesLookup(m: map<string, string>, pairs: seq<(string, string)>, k: string)
    ensures (exists i :: 0 <= i < |pairs| && pairs[i].0 == k) ==> k in AddHashes(m, pairs)
    ensures forall i :: 0 <= i < |pairs| && pairs[i].0 == k && (forall j :: i < j < |pairs| ==> pairs[j].0 != k) ==>
              AddHashes(m, pairs)[k] == pairs[i].1
    ensures (forall i :: 0 <= i < |pairs| ==> pairs[i].0 != k) ==>
              (k in AddHashes(m, pairs) <==> k in m) && (k in m ==> AddHashes(m, pairs)[k] == m[k])
  {
    if pairs != [] {
      var init := pairs[..|pairs| - 1];
      AddHashesLookup(m, init, k);
      assert forall i :: 0 <= i < |init| ==> init[i] == pairs[i];
    }
  }

  lemma AddHashesSnoc(m: map<string, string>, pairs: seq<(string, string)>, p: (string, string))
    ensures AddHashes(m, pairs + [p]) == AddHashes(m, pairs)[p.0 := p.1]
  {
    assert (pairs + [p])[..|pairs|] == pairs;
  }

  /** Every hashed file's lower-cased path is in the cache afterwards, with
      the hash of the last such file for that key; every key added is
      lower-case; old keys stay. */
  lemma {:induction false} AddedKeys(kept: seq<WalkedFile>, hashes: map<string, Option<string>>)
    ensures forall p :: p in Added(kept, hashes) ==> IsLower(p.0) && p.1 != []
    ensures forall f :: f in kept && Hashed(HashOf(hashes, f.fullPath)) ==> (Lower(f.relPath), HashOf(hashes, f.fullPath).value) in Added(kept, hashes)
  {
    if kept != [] {
      var init := kept[..|kept| - 1];
      AddedKeys(init, hashes);
      var f := kept[|kept| - 1];
      LowerIsLower(f.relPath);
      assert forall g :: g in kept ==> g in init || g == f;
    }
  }

  /** A file compared against a baseline that was built with the same hash
      for its path is identical to vanilla. */
  lemma {:induction false} RebuiltFileIsIdentical(m: map<string, string>, kept: seq<WalkedFile>,
                                                  hashes: map<string, Option<string>>, i: nat, relPath: string, size: nat)
    requires i < |Added(kept, hashes)| && Lower(relPath) == Added(kept, hashes)[i].0
    requires forall j :: i < j < |Added(kept, hashes)| ==> Added(kept, hashes)[j].0 != Lower(relPath)
    ensures Classify(AddHashes(m, Added(kept, hashes)), relPath, Some(Added(kept, hashes)[i].1), size).status == Identical
  {
    var pairs := Added(kept, hashes);
    AddedKeys(kept, hashes);
    assert pairs[i] in pairs;
    AddHashesLookup(m, pairs, Lower(relPath));
  }
}
