/** The ROSE Online VFS extractor: the `.idx` index (a 16-byte header and
    count-prefixed entries), the repeating-key XOR cipher, the chunked zlib
    format and the lookups over the parsed index. */
module VfsExtractor {
  import opened Wrappers
  import opened Bytes
  import opened Strings
  import opened OrderedMaps
  import opened BaseExtractor
  import GrfVfs

  const HEADER_SIZE: nat := 16
  const META_SIZE: nat := 20
  const MAX_VERSION: nat := 1000
  const MAX_FILE_COUNT: nat := 1000000

  /** `DEFAULT_XOR_KEY` */
  const DEFAULT_XOR_KEY: seq<byte> := [0x12, 0x34, 0x56, 0x78, 0x9A, 0xBC, 0xDE, 0xF0]

  /** `zlib.decompress(data)`: the inflated bytes, or None for `zlib.error`. */
  type Inflate = seq<byte> -> Option<seq<byte>>

  /** `VFSFileEntry` */
  datatype VfsEntry = VfsEntry(path: string, offset: u32, compressedSize: u32, uncompressedSize: u32,
                               blockSize: u32, isDeleted: bool, isCompressed: bool, isEncrypted: bool)

  /** One index entry as it is read: the name bytes as stored and the
      metadata fields, before the name becomes a path. */
  datatype IdxRecord = IdxRecord(name: seq<byte>, offset: u32, compressedSize: u32, uncompressedSize: u32,
                                 blockSize: u32, isDeleted: bool, isCompressed: bool, isEncrypted: bool)

  // ---------------------------------------------------------------------------
  // detect
  // ---------------------------------------------------------------------------

  /** `detect` once the paths are worked out: the lower-cased extension must
      be `.vfs` or `.idx`, both companion files must exist, and the first 16
      bytes of the index must hold a version of at most 1000 and a file
      count of at most one million. */
  function Detect(ext: string, idxExists: bool, vfsExists: bool, idx: seq<byte>): (ok: bool)
    ensures ok ==> Lower(ext) in [".vfs", ".idx"] && idxExists && vfsExists && |idx| >= HEADER_SIZE
    ensures ok ==> U32At(idx, 4) <= MAX_FILE_COUNT && U32At(idx, 0) <= MAX_VERSION
    ensures !idxExists || !vfsExists || |idx| < HEADER_SIZE ==> !ok
  {
    Lower(ext) in [".vfs", ".idx"] && idxExists && vfsExists && |idx| >= HEADER_SIZE
    && U32At(idx, 0) <= MAX_VERSION && U32At(idx, 4) <= MAX_FILE_COUNT
  }

  // ---------------------------------------------------------------------------
  // The index file
  // ---------------------------------------------------------------------------

  /** `rstrip(b'\x00')` */
  function StripNuls(name: seq<byte>): (r: seq<byte>)
    ensures r <= name && (r == [] || r[|r| - 1] != 0)
    ensures forall i :: |r| <= i < |name| ==> name[i] == 0
  {
    if name == [] || name[|name| - 1] != 0 then name else StripNuls(name[..|name| - 1])
  }

  /** The path of a stored name: trailing NULs stripped, decoded, and every
      backslash turned into a forward slash. */
  function EntryPath(name: seq<byte>): (p: string)
    ensures |p| == |StripNuls(name)| && '\\' !in p
  {
    ReplaceChar(Bytes.Decode(StripNuls(name)), '\\', '/')
  }

  /** The record whose name of `n` bytes starts at `at`, its 20 metadata
      bytes right after: offset, compressed size, uncompressed size, block
      size, then the deleted, compressed and encrypted flag bytes and a
      reserved one. */
  function RecordAt(data: seq<byte>, at: nat, n: nat): (e: IdxRecord)
    requires at + n + META_SIZE <= |data|
    ensures e.name == data[at..at + n]
    ensures e.offset == U32At(data, at + n) && e.compressedSize == U32At(data, at + n + 4)
    ensures e.uncompressedSize == U32At(data, at + n + 8) && e.blockSize == U32At(data, at + n + 12)
    ensures e.isDeleted <==> data[at + n + 16] != 0
    ensures e.isCompressed <==> data[at + n + 17] != 0
    ensures e.isEncrypted <==> data[at + n + 18] != 0
  {
    var m := at + n;
    IdxRecord(data[at..m], U32At(data, m), U32At(data, m + 4), U32At(data, m + 8), U32At(data, m + 12),
              data[m + 16] != 0, data[m + 17] != 0, data[m + 18] != 0)
  }

  /** The `VFSFileEntry` built from a record: its path is the decoded name. */
  function ToEntry(r: IdxRecord): (e: VfsEntry)
    ensures e.path == EntryPath(r.name) && e.isDeleted == r.isDeleted
    ensures e.offset == r.offset && e.compressedSize == r.compressedSize && e.uncompressedSize == r.uncompressedSize
    ensures e.blockSize == r.blockSize && e.isCompressed == r.isCompressed && e.isEncrypted == r.isEncrypted
  {
    VfsEntry(EntryPath(r.name), r.offset, r.compressedSize, r.uncompressedSize, r.blockSize,
             r.isDeleted, r.isCompressed, r.isEncrypted)
  }

  /** Whether the name length and the 20 bytes after the name fit in the
      data; when they do not, the loop breaks (a short name read leaves
      nothing for the metadata). */
  predicate Fits(data: seq<byte>, pos: nat) {
    pos + 2 <= |data| && pos + 2 + U16At(data, pos) + META_SIZE <= |data|
  }

  /** The entry loop `for i in range(file_count)` from byte `pos` with
      `left` passes to go, after reading the records in `acc`: every record
      read, deleted ones included, in file order. */
  function RecordsFrom(data: seq<byte>, pos: nat, left: nat, acc: seq<IdxRecord>): (r: seq<IdxRecord>)
    ensures acc <= r && |r| <= |acc| + left
    decreases left
  {
    if left == 0 || !Fits(data, pos) then acc
    else
      var n := U16At(data, pos);
      RecordsFrom(data, pos + 2 + n + META_SIZE, left - 1, acc + [RecordAt(data, pos + 2, n)])
  }

  /** The records of an index: at most the header's count, from byte 16. */
  function Records(data: seq<byte>, count: nat): (r: seq<IdxRecord>)
    ensures |r| <= count
  {
    RecordsFrom(data, HEADER_SIZE, count, [])
  }

  /** `if not entry.is_deleted: file_entries[entry.path] = entry` */
  function Store(entries: seq<(string, VfsEntry)>, r: IdxRecord): seq<(string, VfsEntry)>
  {
    if r.isDeleted then entries else Put(entries, EntryPath(r.name), ToEntry(r))
  }

  /** The entry dict after storing the records one after another. */
  function StoreAll(entries: seq<(string, VfsEntry)>, records: seq<IdxRecord>): seq<(string, VfsEntry)>
    decreases |records|
  {
    if records == [] then entries else StoreAll(Store(entries, records[0]), records[1..])
  }

  lemma {:induction false} StoreAllSnoc(entries: seq<(string, VfsEntry)>, records: seq<IdxRecord>, i: nat)
    requires i < |records|
    ensures StoreAll(entries, records[..i + 1]) == Store(StoreAll(entries, records[..i]), records[i])
    decreases i
  {
    if i > 0 {
      assert records[..i + 1][1..] == records[1..][..i];
      assert records[..i][1..] == records[1..][..i - 1];
      StoreAllSnoc(Store(entries, records[0]), records[1..], i - 1);
    } else {
      assert records[..1] == [records[0]];
    }
  }

  /** `_parse_idx_file` over the index bytes: None when the header is short
      (the exception that makes `open` fail); the entries start at byte 16
      and the count is the u32 at bytes 4..8. */
  function ParseIdx(data: seq<byte>): (r: Option<seq<(string, VfsEntry)>>)
    ensures r.None? <==> |data| < HEADER_SIZE
  {
    if |data| < HEADER_SIZE then None
    else Some(StoreAll([], Records(data, U32At(data, 4))))
  }

  /** What every parsed index satisfies: no path twice, each entry stored
      under its own path, no deleted entry and no backslash in a path. */
  predicate WellFormed(entries: seq<(string, VfsEntry)>) {
    && Distinct(entries)
    && forall p :: p in entries ==> p.0 == p.1.path && !p.1.isDeleted && '\\' !in p.0
  }

  /** The entry built from the last record, in file order, that is not
      deleted and whose path is `k`: the one a dict assignment per record
      leaves in place. */
  function LastStored(records: seq<IdxRecord>, k: string): (r: Option<VfsEntry>)
    ensures r.Some? ==> r.value.path == k && !r.value.isDeleted
                        && exists i :: 0 <= i < |records| && r.value == ToEntry(records[i])
    ensures r.None? <==> forall i :: 0 <= i < |records| ==> records[i].isDeleted || EntryPath(records[i].name) != k
  {
    if records == [] then None
    else
      var later := LastStored(records[1..], k);
      assert forall i :: 1 <= i < |records| ==> records[i] == records[1..][i - 1];
      if later.Some? then later
      else if !records[0].isDeleted && EntryPath(records[0].name) == k then Some(ToEntry(records[0]))
      else None
  }

  /** The dict maps each path to the last live record with that path, and
      keeps what it held for paths no record mentions. */
  lemma {:induction false} StoreAllGet(entries: seq<(string, VfsEntry)>, records: seq<IdxRecord>, k: string)
    ensures Get(StoreAll(entries, records), k) == if LastStored(records, k).Some? then LastStored(records, k) else Get(entries, k)
    decreases |records|
  {
    if records != [] {
      var r := records[0];
      StoreAllGet(Store(entries, r), records[1..], k);
      if !r.isDeleted {
        PutGet(entries, EntryPath(r.name), ToEntry(r), k);
      }
    }
  }

  lemma StoreWellFormed(entries: seq<(string, VfsEntry)>, r: IdxRecord)
    requires WellFormed(entries)
    ensures WellFormed(Store(entries, r))
  {
    if !r.isDeleted {
      PutDistinct(entries, EntryPath(r.name), ToEntry(r));
      PutMembers(entries, EntryPath(r.name), ToEntry(r));
    }
  }

  lemma {:induction false} StoreAllWellFormed(entries: seq<(string, VfsEntry)>, records: seq<IdxRecord>)
    requires WellFormed(entries)
    ensures WellFormed(StoreAll(entries, records))
    decreases |records|
  {
    if records != [] {
      StoreWellFormed(entries, records[0]);
      StoreAllWellFormed(Store(entries, records[0]), records[1..]);
    }
  }

  /** Deleted entries are never stored, paths never hold a backslash, no
      path is stored twice, and each path holds the last live entry read
      for it (a short read keeps what was read before it). */
  lemma ParseIdxWellFormed(data: seq<byte>, k: string)
    requires ParseIdx(data).Some?
    ensures WellFormed(ParseIdx(data).value)
    ensures Get(ParseIdx(data).value, k) == LastStored(Records(data, U32At(data, 4)), k)
  {
    var records := Records(data, U32At(data, 4));
    StoreAllWellFormed([], records);
    StoreAllGet([], records, k);
  }

  /** The bytes of one index entry: name length, name, the four sizes and
      the four flag bytes. */
  function EntryBytes(name: seq<byte>, offset: u32, csize: u32, usize: u32, block: u32,
                      deleted: byte, compressed: byte, encrypted: byte): (b: seq<byte>)
    requires |name| < 0x1_0000
    ensures |b| == 2 + |name| + META_SIZE
  {
    U16Bytes(|name|) + name + U32Bytes(offset) + U32Bytes(csize) + U32Bytes(usize) + U32Bytes(block)
    + [deleted, compressed, encrypted, 0]
  }

  /** Such an entry sitting at `pos` is read as written and the loop goes on
      right after it. */
  lemma EntryRead(data: seq<byte>, pos: nat, name: seq<byte>, offset: u32, csize: u32, usize: u32, block: u32,
                  deleted: byte, compressed: byte, encrypted: byte)
    requires |name| < 0x1_0000
    requires pos + 2 + |name| + META_SIZE <= |data|
    requires data[pos..pos + 2 + |name| + META_SIZE] == EntryBytes(name, offset, csize, usize, block, deleted, compressed, encrypted)
    ensures Fits(data, pos) && U16At(data, pos) == |name|
    ensures RecordAt(data, pos + 2, |name|) == IdxRecord(name, offset, csize, usize, block, deleted != 0, compressed != 0, encrypted != 0)
  {
    FieldsOfEntry(name, offset, csize, usize, block, deleted, compressed, encrypted);
    FieldsRead(data, pos, EntryBytes(name, offset, csize, usize, block, deleted, compressed, encrypted),
               name, offset, csize, usize, block, deleted, compressed, encrypted);
  }

  /** A well-formed entry at `pos` adds its record and the loop resumes
      right after it. */
  lemma EntryReadStep(data: seq<byte>, pos: nat, left: nat, acc: seq<IdxRecord>, name: seq<byte>, offset: u32,
                      csize: u32, usize: u32, block: u32, deleted: byte, compressed: byte, encrypted: byte)
    requires left > 0 && |name| < 0x1_0000
    requires pos + 2 + |name| + META_SIZE <= |data|
    requires data[pos..pos + 2 + |name| + META_SIZE] == EntryBytes(name, offset, csize, usize, block, deleted, compressed, encrypted)
    ensures RecordsFrom(data, pos, left, acc)
            == RecordsFrom(data, pos + 2 + |name| + META_SIZE, left - 1,
                           acc + [IdxRecord(name, offset, csize, usize, block, deleted != 0, compressed != 0, encrypted != 0)])
  {
    EntryRead(data, pos, name, offset, csize, usize, block, deleted, compressed, encrypted);
  }

  /** `EntryRead` for any bytes `b` holding those fields where `EntryBytes`
      puts them. */
  lemma FieldsRead(data: seq<byte>, pos: nat, b: seq<byte>, name: seq<byte>, offset: u32, csize: u32, usize: u32,
                   block: u32, deleted: byte, compressed: byte, encrypted: byte)
    requires |b| == 2 + |name| + META_SIZE && pos + |b| <= |data| && data[pos..pos + |b|] == b
    requires U16At(b, 0) == |name| && b[2..2 + |name|] == name
    requires U32At(b, 2 + |name|) == offset && U32At(b, 6 + |name|) == csize
    requires U32At(b, 10 + |name|) == usize && U32At(b, 14 + |name|) == block
    requires b[18 + |name|] == deleted && b[19 + |name|] == compressed && b[20 + |name|] == encrypted
    ensures Fits(data, pos) && U16At(data, pos) == |name|
    ensures RecordAt(data, pos + 2, |name|) == IdxRecord(name, offset, csize, usize, block, deleted != 0, compressed != 0, encrypted != 0)
  {
    var n := |name|;
    U16Field(data, pos, b, 0);
    SubSlice(data, pos, b, 2, 2 + n);
    U32Field(data, pos, b, 2 + n);
    U32Field(data, pos, b, 6 + n);
    U32Field(data, pos, b, 10 + n);
    U32Field(data, pos, b, 14 + n);
    ByteField(data, pos, b, 18 + n);
    ByteField(data, pos, b, 19 + n);
    ByteField(data, pos, b, 20 + n);
  }

  /** Where each field sits inside `EntryBytes`. */
  lemma FieldsOfEntry(name: seq<byte>, offset: u32, csize: u32, usize: u32, block: u32,
                      deleted: byte, compressed: byte, encrypted: byte)
    requires |name| < 0x1_0000
    ensures var b := EntryBytes(name, offset, csize, usize, block, deleted, compressed, encrypted);
            var n := |name|;
            && U16At(b, 0) == n && b[2..2 + n] == name
            && U32At(b, 2 + n) == offset && U32At(b, 6 + n) == csize
            && U32At(b, 10 + n) == usize && U32At(b, 14 + n) == block
            && b[18 + n] == deleted && b[19 + n] == compressed && b[20 + n] == encrypted
  {
    var n := |name|;
    var tail := U32Bytes(csize) + U32Bytes(usize) + U32Bytes(block) + [deleted, compressed, encrypted, 0];
    var b := EntryBytes(name, offset, csize, usize, block, deleted, compressed, encrypted);
    assert b == U16Bytes(n) + name + U32Bytes(offset) + tail;
    U16Within([], n, name + U32Bytes(offset) + tail);
    assert [] + U16Bytes(n) + (name + U32Bytes(offset) + tail) == b;
    U32Within(U16Bytes(n) + name, offset, tail);
    var t2 := U32Bytes(usize) + U32Bytes(block) + [deleted, compressed, encrypted, 0];
    assert b == U16Bytes(n) + name + U32Bytes(offset) + U32Bytes(csize) + t2;
    U32Within(U16Bytes(n) + name + U32Bytes(offset), csize, t2);
    var t3 := U32Bytes(block) + [deleted, compressed, encrypted, 0];
    assert b == U16Bytes(n) + name + U32Bytes(offset) + U32Bytes(csize) + U32Bytes(usize) + t3;
    U32Within(U16Bytes(n) + name + U32Bytes(offset) + U32Bytes(csize), usize, t3);
    var t4: seq<byte> := [deleted, compressed, encrypted, 0];
    assert b == U16Bytes(n) + name + U32Bytes(offset) + U32Bytes(csize) + U32Bytes(usize) + U32Bytes(block) + t4;
    U32Within(U16Bytes(n) + name + U32Bytes(offset) + U32Bytes(csize) + U32Bytes(usize), block, t4);
  }

  /** `_parse_idx_file`: the header's count, then the entry loop. The loop
      reads each entry and stores it as it goes; here the reading and the
      storing are two passes over the same records, which gives the same
      dict. */
  method ParseIdxFile(data: seq<byte>) returns (r: Option<seq<(string, VfsEntry)>>)
    ensures r == ParseIdx(data)
  {
    if |data| < HEADER_SIZE {
      return None;
    }
    var records := ReadRecords(data, U32At(data, 4));
    var entries := StoreRecords(records);
    return Some(entries);
  }

  /** The reading half of the entry loop: at most `count` records from
      byte 16, stopping at the first one that does not fit. */
  method ReadRecords(data: seq<byte>, count: nat) returns (records: seq<IdxRecord>)
    ensures records == Records(data, count)
  {
    records := [];
    var pos: nat := HEADER_SIZE;
    var i := 0;
    while i < count
      invariant 0 <= i <= count
      invariant RecordsFrom(data, pos, count - i, records) == Records(data, count)
    {
      if pos + 2 > |data| {
        break;
      }
      var n := U16At(data, pos);
      if pos + 2 + n + META_SIZE > |data| {
        break;
      }
      records := records + [RecordAt(data, pos + 2, n)];
      pos := pos + 2 + n + META_SIZE;
      i := i + 1;
    }
  }

  /** The storing half: `file_entries[entry.path] = entry` for each live
      entry, in file order. */
  method StoreRecords(records: seq<IdxRecord>) returns (entries: seq<(string, VfsEntry)>)
    ensures entries == StoreAll([], records)
  {
    entries := [];
    for i := 0 to |records|
      invariant entries == StoreAll([], records[..i])
    {
      StoreAllSnoc([], records, i);
      if !records[i].isDeleted {
        var e := ToEntry(records[i]);
        entries := Put(entries, e.path, e);
      }
    }
    assert records[..|records|] == records;
  }

  // ---------------------------------------------------------------------------
  // The XOR cipher
  // ---------------------------------------------------------------------------

  function Pow2(k: nat): (r: nat)
    ensures r >= 1
  {
    if k == 0 then 1 else 2 * Pow2(k - 1)
  }

  /** Exclusive or of the low `k` bits, bit by bit from the lowest. */
  function XorBits(a: nat, b: nat, k: nat): (r: nat)
    ensures r < Pow2(k)
    ensures k > 0 ==> r % 2 == (if a % 2 == b % 2 then 0 else 1)
  {
    if k == 0 then 0 else 2 * XorBits(a / 2, b / 2, k - 1) + (if a % 2 == b % 2 then 0 else 1)
  }

  /** Xor-ing twice with the same value gives the low `k` bits back. */
  lemma {:induction false} XorBitsTwice(a: nat, b: nat, k: nat)
    requires a < Pow2(k)
    ensures XorBits(XorBits(a, b, k), b, k) == a
  {
    if k > 0 {
      var y := XorBits(a / 2, b / 2, k - 1);
      var x := XorBits(a, b, k);
      assert x / 2 == y;
      XorBitsTwice(a / 2, b / 2, k - 1);
    }
  }

  /** `a ^ b` on bytes. */
  function Xor(a: byte, b: byte): (r: byte)
  {
    assert Pow2(8) == 0x100;
    XorBits(a, b, 8)
  }

  lemma XorTwice(a: byte, b: byte)
    ensures Xor(Xor(a, b), b) == a
  {
    assert Pow2(8) == 0x100;
    XorBitsTwice(a, b, 8);
  }

  /** Byte i xor key byte i mod |key|. */
  function Xored(data: seq<byte>, key: seq<byte>): (r: seq<byte>)
    requires |key| > 0
    ensures |r| == |data|
  {
    seq(|data|, i requires 0 <= i < |data| => Xor(data[i], key[i % |key|]))
  }

  /** The cipher is its own inverse. */
  lemma XoredTwice(data: seq<byte>, key: seq<byte>)
    requires |key| > 0
    ensures Xored(Xored(data, key), key) == data
  {
    var once := Xored(data, key);
    forall i | 0 <= i < |data|
      ensures Xored(once, key)[i] == data[i]
    {
      XorTwice(data[i], key[i % |key|]);
    }
  }

  /** `_decrypt_data`: a fresh buffer of the same length filled by index.
      With an empty key the index modulo 0 raises as soon as there is a byte. */
  method DecryptData(data: seq<byte>, key: seq<byte>) returns (r: seq<byte>)
    requires |key| > 0 || |data| == 0
    ensures |r| == |data|
    ensures |key| > 0 ==> r == Xored(data, key)
    ensures forall i :: 0 <= i < |data| ==> r[i] == Xor(data[i], key[i % |key|])
  {
    var result := new byte[|data|];
    for i := 0 to |data|
      invariant forall j :: 0 <= j < i ==> result[j] == Xor(data[j], key[j % |key|])
    {
      result[i] := Xor(data[i], key[i % |key|]);
    }
    r := result[..];
  }

  // ---------------------------------------------------------------------------
  // Chunked compression
  // ---------------------------------------------------------------------------

  /** A chunk as it joins the output: inflated, or as it is when zlib fails. */
  function Unpacked(chunk: seq<byte>, inflate: Inflate): seq<byte>
  {
    match inflate(chunk) case Some(d) => d case None => chunk
  }

  /** `_decompress_blocks`' loop over the bytes not read yet: while bytes
      remain and fewer than `expected` have been produced, a u32 chunk size
      and that many bytes; a truncated size or chunk ends the loop. */
  function BlocksFrom(rest: seq<byte>, acc: seq<byte>, expected: nat, inflate: Inflate): (r: seq<byte>)
    ensures acc <= r
    decreases |rest|
  {
    if |rest| == 0 || |acc| >= expected || 4 > |rest| then acc
    else
      var size := U32At(rest, 0);
      if 4 + size > |rest| then acc
      else BlocksFrom(rest[4 + size..], acc + Unpacked(rest[4..4 + size], inflate), expected, inflate)
  }

  /** The first `n` bytes, or all of them (`s[:n]`). */
  function Take(s: seq<byte>, n: nat): (r: seq<byte>)
    ensures |r| <= n && r <= s
    ensures |s| <= n ==> r == s
  {
    if |s| <= n then s else s[..n]
  }

  /** `_decompress_blocks(data, block_size, expected_size)`; the block size
      plays no part. */
  function Blocks(data: seq<byte>, expected: nat, inflate: Inflate): (r: seq<byte>)
    ensures |r| <= expected
  {
    Take(BlocksFrom(data, [], expected, inflate), expected)
  }

  /** Chunks framed as the reader expects them: each one after its u32 size. */
  function Framed(chunks: seq<seq<byte>>): seq<byte>
    requires forall i :: 0 <= i < |chunks| ==> |chunks[i]| < 0x1_0000_0000
  {
    if chunks == [] then [] else U32Bytes(|chunks[0]|) + chunks[0] + Framed(chunks[1..])
  }

  /** What the chunks add up to once unpacked. */
  function Joined(chunks: seq<seq<byte>>, inflate: Inflate): seq<byte>
  {
    if chunks == [] then [] else Unpacked(chunks[0], inflate) + Joined(chunks[1..], inflate)
  }

  /** A u32, `c` and `t` in a row: the u32 reads back and the rest splits. */
  lemma FrameParts(v: u32, c: seq<byte>, t: seq<byte>)
    ensures var s := U32Bytes(v) + c + t;
            && U32At(s, 0) == v && s[4..4 + |c|] == c && s[4 + |c|..] == t
  {
    U32Within([], v, c + t);
    assert [] + U32Bytes(v) + (c + t) == U32Bytes(v) + c + t;
  }

  /** The first framed chunk is read whole and the loop goes on after it. */
  lemma FirstChunk(chunks: seq<seq<byte>>, rest: seq<byte>)
    requires chunks != [] && forall i :: 0 <= i < |chunks| ==> |chunks[i]| < 0x1_0000_0000
    ensures var s := Framed(chunks) + rest;
            var c := chunks[0];
            && 4 + |c| <= |s| && U32At(s, 0) == |c| && s[4..4 + |c|] == c
            && s[4 + |c|..] == Framed(chunks[1..]) + rest
  {
    var c := chunks[0];
    var t := Framed(chunks[1..]) + rest;
    assert Framed(chunks) + rest == U32Bytes(|c|) + c + t;
    FrameParts(|c|, c, t);
  }

  /** One pass of the loop: a whole chunk after its size is unpacked onto
      the output. */
  lemma BlocksFromStep(s: seq<byte>, acc: seq<byte>, expected: nat, inflate: Inflate, c: seq<byte>, t: seq<byte>)
    requires |acc| < expected && 4 + |c| <= |s| && U32At(s, 0) == |c| && s[4..4 + |c|] == c && s[4 + |c|..] == t
    ensures BlocksFrom(s, acc, expected, inflate) == BlocksFrom(t, acc + Unpacked(c, inflate), expected, inflate)
  {
  }

  /** Framed chunks followed by any bytes: as far as the first `expected`
      bytes go, the chunks contribute their unpacked contents in order and
      the loop then carries on with what follows. */
  lemma {:induction false} FramedChunksRead(chunks: seq<seq<byte>>, rest: seq<byte>, acc: seq<byte>,
                                            expected: nat, inflate: Inflate)
    requires forall i :: 0 <= i < |chunks| ==> |chunks[i]| < 0x1_0000_0000
    ensures Take(BlocksFrom(Framed(chunks) + rest, acc, expected, inflate), expected)
            == Take(BlocksFrom(rest, acc + Joined(chunks, inflate), expected, inflate), expected)
    decreases |chunks|
  {
    if chunks == [] {
      assert Framed(chunks) + rest == rest;
      assert acc + Joined(chunks, inflate) == acc;
    } else if |acc| >= expected {
      BlocksFromFull(Framed(chunks) + rest, acc, expected, inflate);
      BlocksFromFull(rest, acc + Joined(chunks, inflate), expected, inflate);
      TakeLong(acc, acc + Joined(chunks, inflate), expected);
    } else {
      var acc' := acc + Unpacked(chunks[0], inflate);
      FirstChunkRead(chunks, rest, acc, expected, inflate);
      JoinedFirst(acc, chunks, inflate);
      FramedChunksRead(chunks[1..], rest, acc', expected, inflate);
    }
  }

  /** The first chunk's share of `FramedChunksRead`. */
  lemma FirstChunkRead(chunks: seq<seq<byte>>, rest: seq<byte>, acc: seq<byte>, expected: nat, inflate: Inflate)
    requires chunks != [] && forall i :: 0 <= i < |chunks| ==> |chunks[i]| < 0x1_0000_0000
    requires |acc| < expected
    ensures BlocksFrom(Framed(chunks) + rest, acc, expected, inflate)
            == BlocksFrom(Framed(chunks[1..]) + rest, acc + Unpacked(chunks[0], inflate), expected, inflate)
  {
    FirstChunk(chunks, rest);
    BlocksFromStep(Framed(chunks) + rest, acc, expected, inflate, chunks[0], Framed(chunks[1..]) + rest);
  }

  lemma JoinedFirst(acc: seq<byte>, chunks: seq<seq<byte>>, inflate: Inflate)
    requires chunks != []
    ensures acc + Unpacked(chunks[0], inflate) + Joined(chunks[1..], inflate) == acc + Joined(chunks, inflate)
  {
    assert Joined(chunks, inflate) == Unpacked(chunks[0], inflate) + Joined(chunks[1..], inflate);
  }

  lemma BlocksFromFull(rest: seq<byte>, acc: seq<byte>, expected: nat, inflate: Inflate)
    requires |acc| >= expected
    ensures BlocksFrom(rest, acc, expected, inflate) == acc
  {
  }

  /** Cutting at `n` only sees the first `n` bytes. */
  lemma TakeLong(a: seq<byte>, b: seq<byte>, n: nat)
    requires a <= b && |a| >= n
    ensures Take(a, n) == Take(b, n)
  {
    assert a[..n] == b[..n];
  }

  /** A stream of well-formed chunks decodes to the chunks' unpacked
      contents, cut at the expected size. */
  lemma FramedChunksDecode(chunks: seq<seq<byte>>, expected: nat, inflate: Inflate)
    requires forall i :: 0 <= i < |chunks| ==> |chunks[i]| < 0x1_0000_0000
    ensures Blocks(Framed(chunks), expected, inflate) == Take(Joined(chunks, inflate), expected)
  {
    FramedChunksRead(chunks, [], [], expected, inflate);
    assert Framed(chunks) + [] == Framed(chunks);
    assert [] + Joined(chunks, inflate) == Joined(chunks, inflate);
  }

  /** Well-formed chunks followed by a truncated size or a truncated chunk:
      the loop stops there and keeps what the chunks gave. */
  lemma TruncatedTailIgnored(chunks: seq<seq<byte>>, tail: seq<byte>, expected: nat, inflate: Inflate)
    requires forall i :: 0 <= i < |chunks| ==> |chunks[i]| < 0x1_0000_0000
    requires |tail| < 4 || 4 + U32At(tail, 0) > |tail|
    ensures Blocks(Framed(chunks) + tail, expected, inflate) == Take(Joined(chunks, inflate), expected)
  {
    FramedChunksRead(chunks, tail, [], expected, inflate);
    assert [] + Joined(chunks, inflate) == Joined(chunks, inflate);
  }

  /** The slice from `offset` seen from the front: its size field, its
      chunk and what follows. */
  lemma ChunkAt(data: seq<byte>, offset: nat, size: nat, chunk: seq<byte>)
    requires offset + 4 + size <= |data| && chunk == data[offset + 4..offset + 4 + size]
    ensures var rest := data[offset..];
            && U32At(rest, 0) == U32At(data, offset) && rest[4..4 + size] == chunk
            && rest[4 + size..] == data[offset + 4 + size..]
  {
    var rest := data[offset..];
    assert rest[0..4] == data[offset..offset + 4];
    U32Frame(rest, data, 0, offset);
  }

  /** `_decompress_blocks`' loop. */
  method DecompressBlocks(data: seq<byte>, blockSize: u32, expected: u32, inflate: Inflate) returns (r: seq<byte>)
    ensures r == Blocks(data, expected, inflate)
  {
    var result: seq<byte> := [];
    var offset: nat := 0;
    while offset < |data| && |result| < expected
      invariant offset <= |data|
      invariant BlocksFrom(data[offset..], result, expected, inflate) == BlocksFrom(data, [], expected, inflate)
      decreases |data| - offset
    {
      if offset + 4 > |data| {
        break;
      }
      ghost var rest := data[offset..];
      var size := U32At(data, offset);
      if offset + 4 + size > |data| {
        assert U32At(rest, 0) == size by { assert rest[..4] == data[offset..offset + 4]; U32Frame(rest, data, 0, offset); }
        break;
      }
      var chunk := data[offset + 4..offset + 4 + size];
      ChunkAt(data, offset, size, chunk);
      var next := offset + 4 + size;
      BlocksFromStep(rest, result, expected, inflate, chunk, data[next..]);
      offset := next;
      result := result + Unpacked(chunk, inflate);
    }
    r := Take(result, expected);
  }

  // ---------------------------------------------------------------------------
  // Lookups and the extractor
  // ---------------------------------------------------------------------------

  /** The first entry, in index order, whose path equals `path` once both
      are lower-cased. */
  function FindInsensitive(entries: seq<(string, VfsEntry)>, path: string): (r: Option<VfsEntry>)
    ensures r.None? <==> forall i :: 0 <= i < |entries| ==> Lower(entries[i].0) != Lower(path)
    ensures r.Some? ==> exists i :: 0 <= i < |entries| && entries[i].1 == r.value && Lower(entries[i].0) == Lower(path)
                                    && forall j :: 0 <= j < i ==> Lower(entries[j].0) != Lower(path)
  {
    if entries == [] then None
    else if Lower(entries[0].0) == Lower(path) then Some(entries[0].1)
    else
      var r := FindInsensitive(entries[1..], path);
      assert forall i :: 1 <= i < |entries| ==> entries[i] == entries[1..][i - 1];
      if r.Some? then
        var i :| 0 <= i < |entries[1..]| && entries[1..][i].1 == r.value && Lower(entries[1..][i].0) == Lower(path)
                 && forall j :: 0 <= j < i ==> Lower(entries[1..][j].0) != Lower(path);
        assert entries[i + 1].1 == r.value;
        r
      else r
  }

  /** The entry `get_file_data` picks: backslashes become slashes, then an
      exact match, then the first case-insensitive one. */
  function Lookup(entries: seq<(string, VfsEntry)>, path: string): (r: Option<VfsEntry>)
    ensures Get(entries, ReplaceChar(path, '\\', '/')).Some? ==> r == Get(entries, ReplaceChar(path, '\\', '/'))
    ensures r.None? <==> forall i :: 0 <= i < |entries| ==> Lower(entries[i].0) != Lower(ReplaceChar(path, '\\', '/'))
  {
    var key := ReplaceChar(path, '\\', '/');
    match Get(entries, key)
    case Some(e) => Some(e)
    case None => FindInsensitive(entries, key)
  }

  /** What `get_file_data` returns for a found entry, given the data file's
      bytes: the stored bytes are decrypted when flagged (an empty key with
      bytes to decrypt raises, and the error is caught), then decompressed
      when flagged, in chunks when a block size is set. A failed single
      zlib stream gives None. */
  function EntryData(vfs: seq<byte>, e: VfsEntry, key: seq<byte>, inflate: Inflate): (r: Option<seq<byte>>)
    ensures !e.isEncrypted && !e.isCompressed ==> r == Some(Window(vfs, e.offset, e.compressedSize))
    ensures e.isCompressed && e.blockSize > 0 && r.Some? ==> |r.value| <= e.uncompressedSize
  {
    var raw := Window(vfs, e.offset, e.compressedSize);
    if e.isEncrypted && |key| == 0 && |raw| > 0 then None
    else
      var plain := if e.isEncrypted && |key| > 0 then Xored(raw, key) else raw;
      if !e.isCompressed then Some(plain)
      else if e.blockSize > 0 then Some(Blocks(plain, e.uncompressedSize, inflate))
      else inflate(plain)
  }

  /** The read in `get_file_data` once the entry is found and live:
      seek and read, decrypt when flagged, decompress when flagged. */
  method FetchData(vfs: seq<byte>, e: VfsEntry, key: seq<byte>, inflate: Inflate) returns (r: Option<seq<byte>>)
    ensures r == EntryData(vfs, e, key, inflate)
  {
    var raw := Window(vfs, e.offset, e.compressedSize);
    if e.isEncrypted {
      if |key| == 0 && |raw| > 0 {
        return None;
      }
      raw := DecryptData(raw, key);
    }
    if !e.isCompressed {
      return Some(raw);
    }
    if e.blockSize > 0 {
      var data := DecompressBlocks(raw, e.blockSize, e.uncompressedSize, inflate);
      return Some(data);
    }
    return inflate(raw);
  }

  /** An encrypted entry stored raw comes back as the plaintext that was
      encrypted, when the same key is used. */
  lemma EncryptedRoundTrip(vfs: seq<byte>, e: VfsEntry, key: seq<byte>, plain: seq<byte>, inflate: Inflate)
    requires |key| > 0 && e.isEncrypted && !e.isCompressed
    requires e.offset + e.compressedSize <= |vfs| && vfs[e.offset..e.offset + e.compressedSize] == Xored(plain, key)
    ensures EntryData(vfs, e, key, inflate) == Some(plain)
  {
    XoredTwice(plain, key);
  }

  /** The `FileEntry` that `list_files` reports for an entry. */
  function Listed(path: string, e: VfsEntry): (f: FileEntry)
    ensures f.path == path && f.size == e.uncompressedSize && f.offset == e.offset && f.isEncrypted == e.isEncrypted
    ensures e.compressedSize != 0 ==> f.compressedSize == e.compressedSize
    ensures e.compressedSize == 0 ==> f.compressedSize == e.uncompressedSize
  {
    MakeFileEntry(path, e.uncompressedSize, e.compressedSize, e.offset, e.isEncrypted)
  }

  /** `list_files`: the entries in index order, deleted ones skipped. */
  function ListedAll(entries: seq<(string, VfsEntry)>): (r: seq<FileEntry>)
    ensures |r| <= |entries|
    ensures forall f :: f in r <==> exists i :: 0 <= i < |entries| && !entries[i].1.isDeleted && f == Listed(entries[i].0, entries[i].1)
  {
    if entries == [] then []
    else
      var rest := ListedAll(entries[1..]);
      assert forall i :: 1 <= i < |entries| ==> entries[i] == entries[1..][i - 1];
      assert forall i :: 0 <= i < |entries[1..]| ==> entries[1..][i] == entries[i + 1];
      (if entries[0].1.isDeleted then [] else [Listed(entries[0].0, entries[0].1)]) + rest
  }

  lemma ListedAllSnoc(entries: seq<(string, VfsEntry)>, p: (string, VfsEntry))
    ensures ListedAll(entries + [p]) == ListedAll(entries) + if p.1.isDeleted then [] else [Listed(p.0, p.1)]
  {
    if entries == [] {
      assert ListedAll([p]) == (if p.1.isDeleted then [] else [Listed(p.0, p.1)]) + ListedAll([]);
    } else {
      assert (entries + [p])[1..] == entries[1..] + [p];
      ListedAllSnoc(entries[1..], p);
    }
  }

  /** For a parsed index every entry is listed, in index order. */
  lemma ListedAllOfWellFormed(entries: seq<(string, VfsEntry)>)
    requires WellFormed(entries)
    ensures |ListedAll(entries)| == |entries|
    ensures forall i :: 0 <= i < |entries| ==> ListedAll(entries)[i] == Listed(entries[i].0, entries[i].1)
  {
    if entries != [] {
      assert WellFormed(entries[1..]) by {
        assert forall i :: 0 <= i < |entries[1..]| ==> entries[1..][i] == entries[i + 1];
      }
      ListedAllOfWellFormed(entries[1..]);
    }
  }

  /** `VFSExtractor`: both paths, the entry dict, the open data file (as its
      bytes), the XOR key and the base class's open flag. `inflate` is zlib. */
  class VfsArchive {
    var idxPath: string
    var vfsPath: string
    var entries: seq<(string, VfsEntry)>
    var handle: Option<seq<byte>>
    var xorKey: seq<byte>
    var isOpen: bool
    const inflate: Inflate

    ghost predicate Valid()
      reads this
    {
      WellFormed(entries)
    }

    /** `VFSExtractor()` */
    constructor(inflate: Inflate)
      ensures Valid() && entries == [] && handle.None? && !isOpen && xorKey == DEFAULT_XOR_KEY
      ensures idxPath == "" && vfsPath == "" && this.inflate == inflate
    {
      idxPath := "";
      vfsPath := "";
      entries := [];
      handle := None;
      xorKey := DEFAULT_XOR_KEY;
      isOpen := false;
      this.inflate := inflate;
    }

    /** `close`: the handle, both paths and the entries are dropped; the
        open flag is not touched. */
    method Close()
      modifies this
      ensures Valid() && handle.None? && idxPath == "" && vfsPath == "" && entries == []
      ensures xorKey == old(xorKey) && isOpen == old(isOpen)
    {
      handle := None;
      idxPath := "";
      vfsPath := "";
      entries := [];
    }

    /** `open` as written, given the archive path without its extension and
        the contents of `<base>.idx` and `<base>.vfs` (None: no such file).
        It never sets the open flag, so it stays false from construction. */
    method OpenAsWritten(base: string, idx: Option<seq<byte>>, vfs: Option<seq<byte>>) returns (ok: bool)
      requires Valid()
      modifies this
      ensures Valid() && idxPath == base + ".idx" && vfsPath == base + ".vfs" && xorKey == old(xorKey)
      ensures isOpen == old(isOpen)
      ensures ok <==> idx.Some? && vfs.Some? && ParseIdx(idx.value).Some?
      ensures ok ==> entries == ParseIdx(idx.value).value && handle == vfs
      ensures !ok ==> entries == [] && handle.None?
    {
      Close();
      idxPath := base + ".idx";
      vfsPath := base + ".vfs";
      if idx.None? || vfs.None? {
        return false;
      }
      var parsed := ParseIdxFile(idx.value);
      if parsed.None? {
        return false;
      }
      ParseIdxWellFormed(idx.value, "");
      entries := parsed.value;
      handle := vfs;
      return true;
    }

    /** `open` as evidently intended: the same, and a successful open marks
        the archive open (a failed one leaves it closed). */
    method Open(base: string, idx: Option<seq<byte>>, vfs: Option<seq<byte>>) returns (ok: bool)
      requires Valid()
      modifies this
      ensures Valid() && idxPath == base + ".idx" && vfsPath == base + ".vfs" && xorKey == old(xorKey)
      ensures isOpen == ok
      ensures ok <==> idx.Some? && vfs.Some? && ParseIdx(idx.value).Some?
      ensures ok ==> entries == ParseIdx(idx.value).value && handle == vfs
      ensures !ok ==> entries == [] && handle.None?
    {
      ok := OpenAsWritten(base, idx, vfs);
      isOpen := ok;
    }

    /** `set_xor_key` */
    method SetXorKey(key: seq<byte>)
      modifies this
      ensures xorKey == key && entries == old(entries) && handle == old(handle) && isOpen == old(isOpen)
    {
      xorKey := key;
    }

    /** What `get_file_data` returns. */
    function FileData(path: string): (r: Option<seq<byte>>)
      reads this
      ensures Lookup(entries, path).None? || handle.None? ==> r.None?
    {
      match Lookup(entries, path)
      case None => None
      case Some(e) =>
        if e.isDeleted || handle.None? then None
        else EntryData(handle.value, e, xorKey, inflate)
    }

    /** `get_file_data`: exact match first, else the first case-insensitive
        one; None when missing, deleted or not open. */
    method GetFileData(path: string) returns (r: Option<seq<byte>>)
      ensures r == FileData(path)
      ensures handle.None? ==> r.None?
    {
      var found := FindEntry(path);
      if found.None? || found.value.isDeleted || handle.None? {
        return None;
      }
      r := FetchData(handle.value, found.value, xorKey, inflate);
    }

    /** The lookup in `get_file_data`: the dict first, then a scan in index
        order for a case-insensitive match. */
    method FindEntry(path: string) returns (found: Option<VfsEntry>)
      ensures found == Lookup(entries, path)
    {
      var key := ReplaceChar(path, '\\', '/');
      found := Get(entries, key);
      if found.None? {
        var i := 0;
        while i < |entries|
          invariant 0 <= i <= |entries|
          invariant FindInsensitive(entries[i..], key) == FindInsensitive(entries, key)
        {
          if Lower(entries[i].0) == Lower(key) {
            found := Some(entries[i].1);
            return;
          }
          assert entries[i..][1..] == entries[i + 1..];
          i := i + 1;
        }
      }
    }

    /** `list_files` */
    method ListFiles() returns (r: seq<FileEntry>)
      ensures r == ListedAll(entries)
    {
      r := [];
      var i := 0;
      while i < |entries|
        invariant 0 <= i <= |entries|
        invariant r == ListedAll(entries[..i])
      {
        ListedAllSnoc(entries[..i], entries[i]);
        assert entries[..i + 1] == entries[..i] + [entries[i]];
        if !entries[i].1.isDeleted {
          r := r + [Listed(entries[i].0, entries[i].1)];
        }
        i := i + 1;
      }
      assert entries[..i] == entries;
    }
  }

  /** As written, an archive that opened cleanly still refuses `extract_all`. */
  method OpenedArchiveRefusesExtractAll(inflate: Inflate, idx: seq<byte>, vfs: seq<byte>, extract: string -> bool)
    returns (r: ExtractOutcome)
    requires ParseIdx(idx).Some?
    ensures r == NotOpen
  {
    var archive := new VfsArchive(inflate);
    var ok := archive.OpenAsWritten("data", Some(idx), Some(vfs));
    assert ok;
    var files := archive.ListFiles();
    r := ExtractAll(archive.isOpen, files, None, extract);
  }

  /** With the open flag set on success, `extract_all` counts the files
      written out of all listed ones. */
  method OpenedArchiveExtractsAll(inflate: Inflate, idx: seq<byte>, vfs: seq<byte>, extract: string -> bool)
    returns (r: ExtractOutcome)
    requires ParseIdx(idx).Some?
    ensures r.Extracted? && r.count <= |ParseIdx(idx).value|
  {
    var archive := new VfsArchive(inflate);
    var ok := archive.Open("data", Some(idx), Some(vfs));
    var files := archive.ListFiles();
    r := ExtractAll(archive.isOpen, files, None, extract);
  }
}
