/** `FileHasher`: MD5 and SHA-256 digests of files, fed to the digest in
    chunks. A digest object of `hashlib` depends only on the concatenation of
    what it was fed (`update(a); update(b)` is `update(a + b)`), so a digest is
    modelled as a function from the bytes fed to the hex string, passed in as
    a parameter. A file is its content together with what successive reads of
    it return. */
module Hasher {
  import opened Wrappers
  import opened Bytes
  import opened Strings

  const DEFAULT_CHUNK_SIZE: nat := 262144
  /** Files larger than this are hashed through a memory map. */
  const MMAP_THRESHOLD: nat := 10 * 1024 * 1024

  /** A hash function: the hex digest of the bytes fed. */
  type Digest = seq<byte> -> string

  /** A file that exists: its content, and what successive
      `read`/`readinto` calls on it return, which may be short. */
  datatype File = File(content: seq<byte>, results: seq<seq<byte>>)

  /** The number of read results before the first empty one. */
  function FirstEmpty(results: seq<seq<byte>>): (k: nat)
    ensures k <= |results| && (k < |results| ==> results[k] == [])
    ensures forall i :: 0 <= i < k ==> results[i] != []
  {
    if |results| == 0 || results[0] == [] then 0 else 1 + FirstEmpty(results[1..])
  }

  /** The reads deliver the content: those before the first empty read
      concatenate to it, and none is longer than the buffer. */
  predicate Delivers(f: File, chunkSize: nat) {
    var k := FirstEmpty(f.results);
    Flatten(f.results[..k]) == f.content && forall i :: 0 <= i < k ==> |f.results[i]| <= chunkSize
  }

  /** The chunk loop of `_hash_file_mmap`: slices of at most four chunk sizes,
      taken from the start of the file. */
  method MmapChunks(content: seq<byte>, chunkSize: nat) returns (fed: seq<seq<byte>>)
    requires chunkSize > 0
    ensures Flatten(fed) == content
    ensures forall i :: 0 <= i < |fed| ==> 0 < |fed[i]| <= 4 * chunkSize
    ensures forall i :: 0 <= i < |fed| - 1 ==> |fed[i]| == 4 * chunkSize
  {
    fed := [];
    var offset := 0;
    while offset < |content|
      invariant 0 <= offset <= |content|
      invariant Flatten(fed) == content[..offset]
      invariant forall i :: 0 <= i < |fed| ==> 0 < |fed[i]| <= 4 * chunkSize
      invariant forall i :: 0 <= i < |fed| - 1 ==> |fed[i]| == 4 * chunkSize
      invariant |fed| > 0 && offset < |content| ==> |fed[|fed| - 1]| == 4 * chunkSize
    {
      var chunkEnd := if offset + chunkSize * 4 < |content| then offset + chunkSize * 4 else |content|;
      FlattenLast(fed + [content[offset..chunkEnd]]);
      assert (fed + [content[offset..chunkEnd]])[..|fed|] == fed;
      assert content[..offset] + content[offset..chunkEnd] == content[..chunkEnd];
      fed := fed + [content[offset..chunkEnd]];
      offset := chunkEnd;
    }
    assert content[..offset] == content;
  }

  /** `_hash_file_mmap`: the digest of the whole content. */
  method HashMmap(content: seq<byte>, chunkSize: nat, h: Digest) returns (r: string)
    requires chunkSize > 0
    ensures r == h(content)
  {
    var fed := MmapChunks(content, chunkSize);
    r := h(Flatten(fed));
  }

  /** The `readinto` loop of `hash_file_md5`/`hash_file_sha256`, and the
      `iter(read, b'')` loop of `hash_file_both`: every read is fed as it
      came, in order, until the first empty read. */
  method FeedResults(results: seq<seq<byte>>) returns (fed: seq<seq<byte>>)
    ensures fed == results[..FirstEmpty(results)]
  {
    fed := [];
    var i := 0;
    while i < |results| && results[i] != []
      invariant 0 <= i <= FirstEmpty(results)
      invariant fed == results[..i]
    {
      fed := fed + [results[i]];
      i := i + 1;
      assert results[..i] == results[..i - 1] + [results[i - 1]];
    }
  }

  /** `hash_file_md5` (with `h` the MD5 digest) and `hash_file_sha256` (with
      SHA-256): `None` for a missing file; a file over the threshold goes
      through the memory map, any other through `readinto`. Either way the
      digest is that of the content the reads deliver. */
  method HashFile(file: Option<File>, chunkSize: nat, h: Digest) returns (r: Option<string>)
    requires chunkSize > 0
    ensures r.Some? <==> file.Some?
    ensures file.Some? && |file.value.content| > MMAP_THRESHOLD ==> r == Some(h(file.value.content))
    ensures file.Some? && |file.value.content| <= MMAP_THRESHOLD ==>
              r == Some(h(Flatten(file.value.results[..FirstEmpty(file.value.results)])))
    ensures file.Some? && Delivers(file.value, chunkSize) ==> r == Some(h(file.value.content))
  {
    if file.None? {
      return None;
    }
    if |file.value.content| > MMAP_THRESHOLD {
      var d := HashMmap(file.value.content, chunkSize, h);
      return Some(d);
    }
    var fed := FeedResults(file.value.results);
    return Some(h(Flatten(fed)));
  }

  /** `hash_file_both`: one pass of reads feeds both digests the same bytes;
      a missing file gives `(None, None)`. */
  method HashFileBoth(file: Option<File>, md5: Digest, sha256: Digest) returns (r: (Option<string>, Option<string>))
    ensures file.None? ==> r == (None, None)
    ensures file.Some? ==>
              var bytes := Flatten(file.value.results[..FirstEmpty(file.value.results)]);
              r == (Some(md5(bytes)), Some(sha256(bytes)))
  {
    if file.None? {
      return (None, None);
    }
    var fed := FeedResults(file.value.results);
    var bytes := Flatten(fed);
    return (Some(md5(bytes)), Some(sha256(bytes)));
  }

  /** `compare_hashes`: `None` on either side never matches; otherwise the
      strings are compared case-insensitively. */
  function CompareHashes(a: Option<string>, b: Option<string>): (r: bool)
    ensures a.None? || b.None? ==> !r
    ensures a.Some? && a == b ==> r
    ensures r ==> |a.value| == |b.value|
  {
    a.Some? && b.Some? && Lower(a.value) == Lower(b.value)
  }

  lemma CompareHashesSymmetric(a: Option<string>, b: Option<string>)
    ensures CompareHashes(a, b) == CompareHashes(b, a)
  {
  }

  lemma CompareHashesTransitive(a: Option<string>, b: Option<string>, c: Option<string>)
    requires CompareHashes(a, b) && CompareHashes(b, c)
    ensures CompareHashes(a, c)
  {
  }

  /** Hashes that differ only in letter case match. */
  lemma CompareHashesIgnoresCase(a: string, b: string)
    requires |a| == |b| && forall i :: 0 <= i < |a| ==> LowerChar(a[i]) == LowerChar(b[i])
    ensures CompareHashes(Some(a), Some(b))
  {
  }
}
