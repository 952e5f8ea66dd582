/** The read side of a GRF archive (Ragnarok Online's container format) and
    the virtual file system that overlays several archives by priority:
    file entries, the file-table parse, the unified index, the LRU byte cache
    and the decompression dispatch. */
module GrfVfs {
  import opened Wrappers
  import opened Bytes
  import opened Strings
  import opened OrderedMaps
  import opened GrfDecompression

  const HEADER_SIZE := 46
  const FLAG_MIXCRYPT: bv8 := 0x02
  const FLAG_DES: bv8 := 0x04
  const MAX_ENTRIES := 1000000
  /** Windows' MAX_PATH, the longest name the parser accepts. */
  const MAX_NAME := 260
  const MIB := 1024 * 1024
  const MAX_ALIGNED := 100 * MIB
  const MAX_UNCOMPRESSED := 500 * MIB
  const MAX_OFFSET := 2 * 1024 * MIB
  /** Bytes of metadata after each name: sizes, flag byte and offset. */
  const RECORD_SIZE := 17

  // ---------------------------------------------------------------------------
  // File entries
  // ---------------------------------------------------------------------------

  /** One file of an archive. `path` is the lookup key, `offset` counts from
      the end of the 46-byte header. */
  datatype Entry = Entry(path: string, originalPath: string, compressedSize: nat,
                         uncompressedSize: nat, offset: nat, flags: byte,
                         compressionType: nat, grfPath: string, priority: int)
  {
    /** `flags & (MIXCRYPT | DES)` */
    predicate IsEncrypted() {
      (flags as bv8) & (FLAG_MIXCRYPT | FLAG_DES) != 0
    }

    /** Types 1 (zlib), 2 (DES + zlib) and 4 (LZMA) are compressed. */
    predicate IsCompressed() {
      compressionType == 1 || compressionType == 2 || compressionType == 4
    }
  }

  /** The compression type the table parse derives from the flag byte and the
      two sizes: 3 for MIXCRYPT; for DES 2 when the sizes differ and 3 when
      they agree; otherwise 1 when they differ and 0 when they agree. */
  function CompressionType(flags: byte, aligned: nat, uncompressed: nat): (t: nat)
    ensures t <= 3
    ensures t == 0 <==> (flags as bv8) & (FLAG_MIXCRYPT | FLAG_DES) == 0 && aligned == uncompressed
    ensures t == 1 <==> (flags as bv8) & (FLAG_MIXCRYPT | FLAG_DES) == 0 && aligned != uncompressed
    ensures t == 2 <==> (flags as bv8) & FLAG_MIXCRYPT == 0 && (flags as bv8) & FLAG_DES != 0 && aligned != uncompressed
  {
    var f := flags as bv8;
    assert f & (FLAG_MIXCRYPT | FLAG_DES) == 0 <==> f & FLAG_MIXCRYPT == 0 && f & FLAG_DES == 0;
    if f & FLAG_MIXCRYPT != 0 then 3
    else if f & FLAG_DES != 0 then (if aligned != uncompressed then 2 else 3)
    else if aligned != uncompressed then 1
    else 0
  }

  /** For an entry whose type was derived from its flags, "encrypted" means a
      DES type (2 or 3) and "compressed" means the sizes differ without
      MIXCRYPT (types 1 and 2; the parse never yields LZMA). */
  lemma DerivedTypeAgrees(e: Entry)
    requires e.compressionType == CompressionType(e.flags, e.compressedSize, e.uncompressedSize)
    ensures e.IsEncrypted() <==> e.compressionType == 2 || e.compressionType == 3
    ensures e.IsCompressed() <==> e.compressedSize != e.uncompressedSize && (e.flags as bv8) & FLAG_MIXCRYPT == 0
  {
  }

  /** The lookup key: lower-cased, backslashes turned into forward slashes. */
  function Normalize(s: string): (r: string)
    ensures |r| == |s|
    ensures forall i :: 0 <= i < |r| ==> r[i] != '\\' && !('A' <= r[i] <= 'Z')
    ensures forall i :: 0 <= i < |r| ==> (r[i] == '/' <==> s[i] == '/' || s[i] == '\\')
  {
    ReplaceChar(Lower(s), '\\', '/')
  }

  /** Lookups normalise their argument as the index normalised its keys, so a
      key looks itself up, and case and separator style do not matter. */
  lemma NormalizeIdempotent(s: string)
    ensures Normalize(Normalize(s)) == Normalize(s)
    ensures Normalize(Lower(s)) == Normalize(s)
  {
  }

  // ---------------------------------------------------------------------------
  // The file table
  // ---------------------------------------------------------------------------

  /** Where the table parse stands: the read position, the entries so far (a
      dict keyed by path, in insertion order) and how many were inserted. */
  datatype TableState = TableState(offset: nat, entries: seq<(string, Entry)>, count: nat)

  /** `data.find(b'\x00', from)` */
  function FindNul(data: seq<byte>, from: nat): (r: int)
    ensures r == -1 || (from <= r < |data| && data[r] == 0)
    ensures r == -1 ==> forall k :: from <= k < |data| ==> data[k] != 0
    ensures r != -1 ==> forall k :: from <= k < r ==> data[k] != 0
    decreases |data| - from
  {
    if from >= |data| then -1
    else if data[from] == 0 then from
    else FindNul(data, from + 1)
  }

  /** One pass of the table loop: None is a `break`. An over-long name resumes
      right after its NUL; a record failing the sanity limits, a directory
      (flags 0) or an empty path is skipped after its 17 bytes; an entry for a
      path already present replaces it only with a strictly higher priority. */
  function TableStep(data: seq<byte>, grf: string, priority: int, s: TableState): (r: Option<TableState>)
    requires s.offset < |data|
    ensures r.Some? ==> r.value.offset > s.offset
  {
    var e := FindNul(data, s.offset);
    if e == -1 then None
    else
      var name := data[s.offset..e];
      var p := e + 1;
      if |name| > MAX_NAME then Some(s.(offset := p))
      else if p + RECORD_SIZE > |data| then None
      else
        Some(Admit(s, name, U32At(data, p + 4), U32At(data, p + 8), data[p + 12], U32At(data, p + 13),
                   p + RECORD_SIZE, grf, priority))
  }

  /** What a complete record does, parsing resuming at `next`: a record
      failing the sanity limits, a directory (flags 0) or an empty path is
      skipped; a new path is inserted; an entry for a path already present
      replaces it only with a strictly higher priority. */
  function Admit(s: TableState, name: seq<byte>, aligned: u32, uncompressed: u32, flags: byte, fileOffset: u32,
                 next: nat, grf: string, priority: int): (t: TableState)
    ensures t.offset == next
  {
    var skip := s.(offset := next);
    if aligned > MAX_ALIGNED || uncompressed > MAX_UNCOMPRESSED || fileOffset > MAX_OFFSET then skip
    else if flags == 0 then skip
    else
      var path := Normalize(Decode(name));
      if |path| == 0 || |path| > MAX_NAME then skip
      else
        var entry := Entry(path, Decode(name), aligned, uncompressed, fileOffset, flags,
                           CompressionType(flags, aligned, uncompressed), grf, priority);
        match Get(s.entries, path)
        case None => TableState(next, s.entries + [(path, entry)], s.count + 1)
        case Some(prev) =>
          if priority > prev.priority then skip.(entries := Put(s.entries, path, entry))
          else skip
  }

  /** The table loop from state `s`: it runs while bytes remain and fewer than
      a million entries were inserted. */
  function ParseFrom(data: seq<byte>, grf: string, priority: int, s: TableState): seq<(string, Entry)>
    decreases |data| - s.offset
  {
    if s.offset >= |data| || s.count >= MAX_ENTRIES then s.entries
    else
      match TableStep(data, grf, priority, s)
      case None => s.entries
      case Some(t) => ParseFrom(data, grf, priority, t)
  }

  /** A step that succeeds, below the entry limit, leaves the rest of the loop
      to the new state. */
  lemma ParseFromStep(data: seq<byte>, grf: string, priority: int, s: TableState, t: TableState)
    requires s.offset < |data| && s.count < MAX_ENTRIES && TableStep(data, grf, priority, s) == Some(t)
    ensures ParseFrom(data, grf, priority, s) == ParseFrom(data, grf, priority, t)
  {
  }

  /** `GRFArchive._read_file_table` over the decompressed table bytes. */
  function ParseTable(data: seq<byte>, grf: string, priority: int): seq<(string, Entry)>
  {
    ParseFrom(data, grf, priority, TableState(0, [], 0))
  }

  /** An entry of archive `grf` as the table parse builds it. */
  predicate Parsed(p: (string, Entry), grf: string, priority: int) {
    var e := p.1;
    && p.0 == e.path && e.path == Normalize(e.originalPath)
    && 1 <= |e.path| <= MAX_NAME && e.flags != 0
    && e.compressedSize <= MAX_ALIGNED && e.uncompressedSize <= MAX_UNCOMPRESSED && e.offset <= MAX_OFFSET
    && e.compressionType == CompressionType(e.flags, e.compressedSize, e.uncompressedSize)
    && e.grfPath == grf && e.priority == priority
  }

  predicate AllParsed(entries: seq<(string, Entry)>, grf: string, priority: int) {
    forall i :: 0 <= i < |entries| ==> Parsed(entries[i], grf, priority)
  }

  /** What one step keeps: entries are only ever appended, their keys stay
      distinct, every one is well formed, and the insert count is their number. */
  lemma TableStepKeeps(data: seq<byte>, grf: string, priority: int, s: TableState)
    requires s.offset < |data|
    requires Distinct(s.entries) && AllParsed(s.entries, grf, priority) && s.count == |s.entries|
    ensures var r := TableStep(data, grf, priority, s);
            r.Some? ==> && s.entries <= r.value.entries && Distinct(r.value.entries)
                        && AllParsed(r.value.entries, grf, priority) && r.value.count == |r.value.entries|
  {
    var r := TableStep(data, grf, priority, s);
    if r.Some? && r.value.entries != s.entries {
      var e := FindNul(data, s.offset);
      var p := e + 1;
      var path := Normalize(Decode(data[s.offset..e]));
      if Get(s.entries, path).Some? {
        var i := GetSome(s.entries, path);
      }
      assert path !in Keys(s.entries);
      assert forall i :: 0 <= i < |s.entries| ==> s.entries[i].0 == Keys(s.entries)[i];
    }
  }

  /** The parse only appends: whatever was parsed before a stop is kept, and
      the result is a dict of well-formed entries of this archive. */
  lemma {:induction false} ParseFromKeeps(data: seq<byte>, grf: string, priority: int, s: TableState)
    requires Distinct(s.entries) && AllParsed(s.entries, grf, priority) && s.count == |s.entries|
    ensures var r := ParseFrom(data, grf, priority, s);
            s.entries <= r && Distinct(r) && AllParsed(r, grf, priority)
            && |r| <= if s.count < MAX_ENTRIES then MAX_ENTRIES else s.count
    decreases |data| - s.offset
  {
    if s.offset < |data| && s.count < MAX_ENTRIES {
      var t := TableStep(data, grf, priority, s);
      if t.Some? {
        TableStepKeeps(data, grf, priority, s);
        ParseFromKeeps(data, grf, priority, t.value);
      }
    }
  }

  /** Every entry of a parsed table is well formed and belongs to this archive;
      no path occurs twice; at most a million entries are kept. */
  lemma ParseTableWellFormed(data: seq<byte>, grf: string, priority: int)
    ensures var r := ParseTable(data, grf, priority);
            Distinct(r) && AllParsed(r, grf, priority) && |r| <= MAX_ENTRIES
  {
    ParseFromKeeps(data, grf, priority, TableState(0, [], 0));
  }

  /** The 17 metadata bytes of a record: stored size, aligned size,
      uncompressed size, flag byte and offset. */
  function RecordBytes(csize: u32, aligned: u32, uncompressed: u32, flags: byte, offset: u32): (b: seq<byte>)
    ensures |b| == RECORD_SIZE
    ensures U32At(b, 0) == csize && U32At(b, 4) == aligned && U32At(b, 8) == uncompressed
    ensures b[12] == flags && U32At(b, 13) == offset
  {
    U32Bytes(csize) + U32Bytes(aligned) + U32Bytes(uncompressed) + [flags] + U32Bytes(offset)
  }

  /** The index entry, under its normalised path, for a record with the
      given name and fields. */
  function NewEntry(name: seq<byte>, aligned: u32, uncompressed: u32, flags: byte, offset: u32,
                    grf: string, priority: int): (p: (string, Entry))
    ensures p.0 == p.1.path == Normalize(Decode(name)) && p.1.originalPath == Decode(name)
    ensures p.1.compressedSize == aligned && p.1.uncompressedSize == uncompressed
    ensures p.1.offset == offset && p.1.flags == flags && p.1.grfPath == grf && p.1.priority == priority
  {
    var path := Normalize(Decode(name));
    (path, Entry(path, Decode(name), aligned, uncompressed, offset, flags,
                 CompressionType(flags, aligned, uncompressed), grf, priority))
  }

  /** A record that is readable where the table loop stands: its entry is
      appended and parsing continues right after it. */
  lemma RecordParsed(data: seq<byte>, at: nat, name: seq<byte>, aligned: u32, uncompressed: u32,
                     flags: byte, offset: u32, grf: string, priority: int, entries: seq<(string, Entry)>,
                     count: nat, next: nat)
    requires RecordReadable(data, at, name, aligned, uncompressed, flags, offset, entries)
    requires count == |entries| < MAX_ENTRIES && next == at + |name| + 1 + RECORD_SIZE
    ensures ParseFrom(data, grf, priority, TableState(at, entries, count))
            == ParseFrom(data, grf, priority, TableState(next,
                                                         entries + [NewEntry(name, aligned, uncompressed, flags, offset, grf, priority)],
                                                         count + 1))
  {
    var p := NewEntry(name, aligned, uncompressed, flags, offset, grf, priority);
    RecordStep(data, at, name, aligned, uncompressed, flags, offset, grf, priority, entries, count, next);
    ParseFromStep(data, grf, priority, TableState(at, entries, count), TableState(next, entries + [p], count + 1));
  }

  /** At `at` the table holds a record named `name` (up to the first NUL)
      with the given fields, which passes every check of the table loop and
      names a path not among `entries`. */
  predicate RecordReadable(data: seq<byte>, at: nat, name: seq<byte>, aligned: u32, uncompressed: u32,
                           flags: byte, offset: u32, entries: seq<(string, Entry)>)
  {
    && FindNul(data, at) == at + |name| && data[at..at + |name|] == name
    && RecordFieldsAt(data, at + |name|, aligned, uncompressed, flags, offset)
    && 1 <= |name| <= MAX_NAME && flags != 0
    && aligned <= MAX_ALIGNED && uncompressed <= MAX_UNCOMPRESSED && offset <= MAX_OFFSET
    && Normalize(Decode(name)) !in Keys(entries)
  }

  /** A whole record laid out at `at` that passes the checks is readable there. */
  lemma RecordReadableAt(data: seq<byte>, at: nat, name: seq<byte>, csize: u32, aligned: u32, uncompressed: u32,
                         flags: byte, offset: u32, entries: seq<(string, Entry)>)
    requires forall i :: 0 <= i < |name| ==> name[i] != 0
    requires var rec := name + [0] + RecordBytes(csize, aligned, uncompressed, flags, offset);
             at + |rec| <= |data| && data[at..at + |rec|] == rec
    requires 1 <= |name| <= MAX_NAME && flags != 0
    requires aligned <= MAX_ALIGNED && uncompressed <= MAX_UNCOMPRESSED && offset <= MAX_OFFSET
    requires Normalize(Decode(name)) !in Keys(entries)
    ensures RecordReadable(data, at, name, aligned, uncompressed, flags, offset, entries)
  {
    RecordLaidOut(data, at, name, csize, aligned, uncompressed, flags, offset);
  }

  /** The step over such a record, wherever it sits in the data. */
  lemma RecordStep(data: seq<byte>, at: nat, name: seq<byte>, aligned: u32, uncompressed: u32,
                   flags: byte, offset: u32, grf: string, priority: int, entries: seq<(string, Entry)>,
                   count: nat, next: nat)
    requires RecordReadable(data, at, name, aligned, uncompressed, flags, offset, entries)
    requires count == |entries| && next == at + |name| + 1 + RECORD_SIZE
    ensures at < |data|
    ensures TableStep(data, grf, priority, TableState(at, entries, count))
            == Some(TableState(next, entries + [NewEntry(name, aligned, uncompressed, flags, offset, grf, priority)], count + 1))
  {
    RecordIsNew(data, at, name, aligned, uncompressed, flags, offset, entries, count, next);
    TableStepNew(data, grf, priority, TableState(at, entries, count), at + |name|, next, name, aligned, uncompressed, flags, offset);
  }

  /** The metadata fields of the record whose name ends at `e`. */
  predicate RecordFieldsAt(data: seq<byte>, e: nat, aligned: u32, uncompressed: u32, flags: byte, offset: u32) {
    && e + 1 + RECORD_SIZE <= |data|
    && U32At(data, e + 1 + 4) == aligned && U32At(data, e + 1 + 8) == uncompressed
    && data[e + 1 + 12] == flags && U32At(data, e + 1 + 13) == offset
  }

  /** The record at `s.offset`, named `name` up to `e`, passes every check
      of the table loop and names a path not yet indexed. */
  predicate NewRecordAt(data: seq<byte>, s: TableState, e: nat, next: nat,
                        name: seq<byte>, aligned: u32, uncompressed: u32, flags: byte, offset: u32)
  {
    && s.offset < |data| && e == FindNul(data, s.offset)
    && next == e + 1 + RECORD_SIZE <= |data| && name == data[s.offset..e]
    && RecordFieldsAt(data, e, aligned, uncompressed, flags, offset)
    && |name| <= MAX_NAME && aligned <= MAX_ALIGNED && uncompressed <= MAX_UNCOMPRESSED
    && offset <= MAX_OFFSET && flags != 0
    && 0 < |Normalize(Decode(name))| && Normalize(Decode(name)) !in Keys(s.entries)
  }

  lemma RecordIsNew(data: seq<byte>, at: nat, name: seq<byte>, aligned: u32, uncompressed: u32,
                    flags: byte, offset: u32, entries: seq<(string, Entry)>, count: nat, next: nat)
    requires RecordReadable(data, at, name, aligned, uncompressed, flags, offset, entries)
    requires count == |entries| && next == at + |name| + 1 + RECORD_SIZE
    ensures NewRecordAt(data, TableState(at, entries, count), at + |name|, next, name, aligned, uncompressed, flags, offset)
  {
    assert |Normalize(Decode(name))| == |name|;
  }

  /** A record that passes every check and names a new path is appended. */
  lemma TableStepNew(data: seq<byte>, grf: string, priority: int, s: TableState, e: nat, next: nat,
                     name: seq<byte>, aligned: u32, uncompressed: u32, flags: byte, offset: u32)
    requires NewRecordAt(data, s, e, next, name, aligned, uncompressed, flags, offset)
    ensures TableStep(data, grf, priority, s)
            == Some(TableState(next, s.entries + [NewEntry(name, aligned, uncompressed, flags, offset, grf, priority)], s.count + 1))
  {
    TableStepAdmits(data, grf, priority, s, e, next, name, aligned, uncompressed, flags, offset);
    AdmitNew(s, name, aligned, uncompressed, flags, offset, next, grf, priority);
  }

  /** A complete record with a name of at most 260 bytes goes to `Admit`. */
  lemma TableStepAdmits(data: seq<byte>, grf: string, priority: int, s: TableState, e: nat, next: nat,
                        name: seq<byte>, aligned: u32, uncompressed: u32, flags: byte, offset: u32)
    requires s.offset < |data| && e == FindNul(data, s.offset)
    requires next == e + 1 + RECORD_SIZE <= |data| && name == data[s.offset..e] && |name| <= MAX_NAME
    requires RecordFieldsAt(data, e, aligned, uncompressed, flags, offset)
    ensures TableStep(data, grf, priority, s)
            == Some(Admit(s, name, aligned, uncompressed, flags, offset, next, grf, priority))
  {
    assert FindNul(data, s.offset) != -1 && |data[s.offset..e]| <= MAX_NAME && e + 1 + RECORD_SIZE <= |data|;
    assert U32At(data, e + 1 + 4) == aligned && U32At(data, e + 1 + 8) == uncompressed;
    assert data[e + 1 + 12] == flags && U32At(data, e + 1 + 13) == offset;
  }

  /** `Admit` on a record that passes every check and names a new path. */
  lemma AdmitNew(s: TableState, name: seq<byte>, aligned: u32, uncompressed: u32, flags: byte, offset: u32,
                 next: nat, grf: string, priority: int)
    requires aligned <= MAX_ALIGNED && uncompressed <= MAX_UNCOMPRESSED && offset <= MAX_OFFSET && flags != 0
    requires |name| <= MAX_NAME
    requires 0 < |Normalize(Decode(name))| && Normalize(Decode(name)) !in Keys(s.entries)
    ensures Admit(s, name, aligned, uncompressed, flags, offset, next, grf, priority)
            == TableState(next, s.entries + [NewEntry(name, aligned, uncompressed, flags, offset, grf, priority)], s.count + 1)
  {
  }

  /** Where the fields of a record found at `at` are read. */
  lemma RecordLaidOut(data: seq<byte>, at: nat, name: seq<byte>, csize: u32, aligned: u32, uncompressed: u32,
                      flags: byte, offset: u32)
    requires forall i :: 0 <= i < |name| ==> name[i] != 0
    requires var rec := name + [0] + RecordBytes(csize, aligned, uncompressed, flags, offset);
             at + |rec| <= |data| && data[at..at + |rec|] == rec
    ensures at + |name| + 1 + RECORD_SIZE <= |data| && FindNul(data, at) == at + |name|
    ensures data[at..at + |name|] == name
    ensures RecordFieldsAt(data, at + |name|, aligned, uncompressed, flags, offset)
  {
    var meta := RecordBytes(csize, aligned, uncompressed, flags, offset);
    NameLaidOut(data, at, name, meta);
    MetaLaidOut(data, at, name, meta);
    var p := at + |name| + 1;
    U32InSlice(data, p, meta, 4);
    U32InSlice(data, p, meta, 8);
    U32InSlice(data, p, meta, 13);
    assert data[p + 12] == meta[12];
  }

  /** The name of a record at `at` ends at the first NUL after `at`. */
  lemma NameLaidOut(data: seq<byte>, at: nat, name: seq<byte>, meta: seq<byte>)
    requires forall i :: 0 <= i < |name| ==> name[i] != 0
    requires at + |name + [0] + meta| <= |data| && data[at..at + |name + [0] + meta|] == name + [0] + meta
    ensures FindNul(data, at) == at + |name| && data[at..at + |name|] == name
  {
    var rec := name + [0] + meta;
    var e := at + |name|;
    assert forall k :: at <= k < e ==> data[k] == rec[k - at] == name[k - at];
    assert data[at..e] == name;
    assert data[e] == rec[|name|] == 0;
    FindNulAt(data, at, e);
  }

  /** The metadata of a record at `at` follows the name's NUL. */
  lemma MetaLaidOut(data: seq<byte>, at: nat, name: seq<byte>, meta: seq<byte>)
    requires at + |name + [0] + meta| <= |data| && data[at..at + |name + [0] + meta|] == name + [0] + meta
    ensures var p := at + |name| + 1;
            p + |meta| <= |data| && data[p..p + |meta|] == meta
  {
    var rec := name + [0] + meta;
    var p := at + |name| + 1;
    assert forall k :: 0 <= k < |meta| ==> data[p + k] == rec[|name| + 1 + k] == meta[k];
  }

  /** A field read inside a slice reads the same in the whole. */
  lemma U32InSlice(data: seq<byte>, p: nat, meta: seq<byte>, i: nat)
    requires p + |meta| <= |data| && data[p..p + |meta|] == meta && i + 4 <= |meta|
    ensures U32At(data, p + i) == U32At(meta, i)
  {
    assert data[p + i] == meta[i] && data[p + i + 1] == meta[i + 1];
    assert data[p + i + 2] == meta[i + 2] && data[p + i + 3] == meta[i + 3];
  }

  lemma FindNulAt(data: seq<byte>, from: nat, at: nat)
    requires from <= at < |data| && data[at] == 0
    requires forall k :: from <= k < at ==> data[k] != 0
    ensures FindNul(data, from) == at
    decreases at - from
  {
    if from < at {
      FindNulAt(data, from + 1, at);
    }
  }

  /** A name longer than 260 bytes resumes right after its NUL, so the 17
      bytes meant as its metadata are read as the next name. */
  lemma LongNameResumes(data: seq<byte>, grf: string, priority: int, s: TableState)
    requires s.offset < |data| && s.count < MAX_ENTRIES
    requires FindNul(data, s.offset) > s.offset + MAX_NAME
    ensures ParseFrom(data, grf, priority, s)
            == ParseFrom(data, grf, priority, s.(offset := FindNul(data, s.offset) + 1))
  {
  }

  /** No NUL left, or fewer than 17 bytes after the name: parsing stops and
      keeps what it has. */
  lemma TruncationStops(data: seq<byte>, grf: string, priority: int, s: TableState)
    requires s.offset < |data|
    requires var e := FindNul(data, s.offset);
             e == -1 || (e - s.offset <= MAX_NAME && e + 1 + RECORD_SIZE > |data|)
    ensures ParseFrom(data, grf, priority, s) == s.entries
  {
  }

  /** A directory record (flags 0) or one beyond the size and offset limits
      adds nothing; parsing continues after its 17 bytes. */
  lemma SkippedRecord(data: seq<byte>, grf: string, priority: int, s: TableState)
    requires s.offset < |data| && s.count < MAX_ENTRIES
    requires var e := FindNul(data, s.offset);
             e != -1 && e - s.offset <= MAX_NAME && e + 1 + RECORD_SIZE <= |data|
    requires var p := FindNul(data, s.offset) + 1;
             data[p + 12] == 0 || U32At(data, p + 4) > MAX_ALIGNED
             || U32At(data, p + 8) > MAX_UNCOMPRESSED || U32At(data, p + 13) > MAX_OFFSET
    ensures ParseFrom(data, grf, priority, s)
            == ParseFrom(data, grf, priority, s.(offset := FindNul(data, s.offset) + 1 + RECORD_SIZE))
  {
    hide PutSpec, Put, Get, Normalize, Decode;
    var p := FindNul(data, s.offset) + 1;
    assert TableStep(data, grf, priority, s) == Some(s.(offset := p + RECORD_SIZE));
  }

  /** The table loop itself: a NUL-terminated name, then the 17-byte record. */
  method ReadFileTable(data: seq<byte>, grf: string, priority: int) returns (entries: seq<(string, Entry)>)
    ensures entries == ParseTable(data, grf, priority)
  {
    entries := [];
    var offset: nat := 0;
    var count: nat := 0;
    while offset < |data| && count < MAX_ENTRIES
      invariant ParseFrom(data, grf, priority, TableState(offset, entries, count)) == ParseTable(data, grf, priority)
      decreases |data| - offset
    {
      var stop, offset', entries', count' := ReadRecord(data, grf, priority, offset, entries, count);
      if stop {
        break;
      }
      offset, entries, count := offset', entries', count';
    }
  }

  /** One pass of the table loop's body; `stop` is a `break`, every other
      outcome (including a `continue`) yields the next position and entries. */
  method ReadRecord(data: seq<byte>, grf: string, priority: int, offset: nat,
                    entries: seq<(string, Entry)>, count: nat)
    returns (stop: bool, offset': nat, entries': seq<(string, Entry)>, count': nat)
    requires offset < |data|
    ensures var t := TableStep(data, grf, priority, TableState(offset, entries, count));
            if stop then t.None? else t == Some(TableState(offset', entries', count'))
  {
    stop, offset', entries', count' := false, offset, entries, count;
    var nameEnd := FindNul(data, offset);
    if nameEnd == -1 {
      stop := true;
      return;
    }
    var name := data[offset..nameEnd];
    offset' := nameEnd + 1;
    if |name| > MAX_NAME {
      return;
    }
    var originalPath := Decode(name);
    if offset' + RECORD_SIZE > |data| {
      stop := true;
      return;
    }
    var aligned := U32At(data, offset' + 4);
    var uncompressed := U32At(data, offset' + 8);
    var flags := data[offset' + 12];
    var fileOffset := U32At(data, offset' + 13);
    offset' := offset' + RECORD_SIZE;
    if aligned > MAX_ALIGNED || uncompressed > MAX_UNCOMPRESSED || fileOffset > MAX_OFFSET {
      return;
    }
    if flags == 0 {
      return;
    }
    var compressionType := CompressionType(flags, aligned, uncompressed);
    var path := Normalize(originalPath);
    if |path| == 0 || |path| > MAX_NAME {
      return;
    }
    var entry := Entry(path, originalPath, aligned, uncompressed, fileOffset, flags,
                       compressionType, grf, priority);
    var prev := Get(entries, path);
    if prev.None? {
      entries' := entries + [(path, entry)];
      count' := count + 1;
    } else if priority > prev.value.priority {
      entries' := Put(entries, path, entry);
    }
  }

  // ---------------------------------------------------------------------------
  // Merging indexes by priority
  // ---------------------------------------------------------------------------

  /** One merge step: a new path is added; an existing one is replaced only by
      a strictly higher priority, so on a tie the entry seen first stays. */
  function MergeEntry(index: seq<(string, Entry)>, path: string, e: Entry): seq<(string, Entry)>
  {
    match Get(index, path)
    case None => index + [(path, e)]
    case Some(prev) => if e.priority > prev.priority then Put(index, path, e) else index
  }

  lemma MergeEntryGet(index: seq<(string, Entry)>, path: string, e: Entry, k: string)
    ensures Get(MergeEntry(index, path, e), k)
            == if k != path then Get(index, k)
               else if Get(index, path).None? || e.priority > Get(index, path).value.priority then Some(e)
               else Get(index, path)
  {
    PutGet(index, path, e, k);
    PutGet(index, path, e, path);
  }

  /** Merging `pairs` into `index` in order (`merge_file_index`). */
  function MergeAll(index: seq<(string, Entry)>, pairs: seq<(string, Entry)>): seq<(string, Entry)>
    decreases |pairs|
  {
    if pairs == [] then index
    else
      var last := pairs[|pairs| - 1];
      MergeEntry(MergeAll(index, pairs[..|pairs| - 1]), last.0, last.1)
  }

  lemma MergeAllSnoc(index: seq<(string, Entry)>, pairs: seq<(string, Entry)>, j: nat)
    requires j < |pairs|
    ensures MergeAll(index, pairs[..j + 1]) == MergeEntry(MergeAll(index, pairs[..j]), pairs[j].0, pairs[j].1)
  {
    assert pairs[..j + 1][..j] == pairs[..j];
  }

  lemma {:induction false} MergeAllDistinct(index: seq<(string, Entry)>, pairs: seq<(string, Entry)>)
    requires Distinct(index)
    ensures Distinct(MergeAll(index, pairs))
    decreases |pairs|
  {
    if pairs != [] {
      var last := pairs[|pairs| - 1];
      var m := MergeAll(index, pairs[..|pairs| - 1]);
      MergeAllDistinct(index, pairs[..|pairs| - 1]);
      if Get(m, last.0).None? {
        PutDistinct(m, last.0, last.1);
        assert Put(m, last.0, last.1) == m + [(last.0, last.1)];
      } else {
        PutDistinct(m, last.0, last.1);
      }
    }
  }

  /** A merge step never loses a path nor lowers its priority, and the
      merged path ends at least at the merged priority. */
  lemma MergeEntryKeeps(m: seq<(string, Entry)>, path: string, e: Entry, k: string)
    ensures Get(m, k).Some? ==>
              Get(MergeEntry(m, path, e), k).Some? && Get(MergeEntry(m, path, e), k).value.priority >= Get(m, k).value.priority
    ensures Get(MergeEntry(m, path, e), path).Some? && Get(MergeEntry(m, path, e), path).value.priority >= e.priority
  {
    MergeEntryGet(m, path, e, k);
    MergeEntryGet(m, path, e, path);
  }

  lemma {:induction false} MergeCoversPairs(index: seq<(string, Entry)>, pairs: seq<(string, Entry)>)
    ensures forall i :: 0 <= i < |pairs| ==>
              Get(MergeAll(index, pairs), pairs[i].0).Some?
              && Get(MergeAll(index, pairs), pairs[i].0).value.priority >= pairs[i].1.priority
    decreases |pairs|
  {
    if pairs != [] {
      var init, last := pairs[..|pairs| - 1], pairs[|pairs| - 1];
      var m := MergeAll(index, init);
      assert MergeAll(index, pairs) == MergeEntry(m, last.0, last.1);
      hide MergeAll;
      MergeCoversPairs(index, init);
      forall i | 0 <= i < |pairs|
        ensures Get(MergeEntry(m, last.0, last.1), pairs[i].0).Some?
                && Get(MergeEntry(m, last.0, last.1), pairs[i].0).value.priority >= pairs[i].1.priority
      {
        MergeEntryKeeps(m, last.0, last.1, pairs[i].0);
        if i < |pairs| - 1 {
          assert pairs[i] == init[i];
        }
      }
    }
  }

  lemma {:induction false} MergeKeepsIndex(index: seq<(string, Entry)>, pairs: seq<(string, Entry)>, k: string)
    ensures Get(index, k).Some? ==>
              Get(MergeAll(index, pairs), k).Some? && Get(MergeAll(index, pairs), k).value.priority >= Get(index, k).value.priority
    decreases |pairs|
  {
    if pairs != [] {
      var init, last := pairs[..|pairs| - 1], pairs[|pairs| - 1];
      var m := MergeAll(index, init);
      assert MergeAll(index, pairs) == MergeEntry(m, last.0, last.1);
      hide MergeAll;
      MergeKeepsIndex(index, init, k);
      MergeEntryKeeps(m, last.0, last.1, k);
    }
  }

  lemma {:induction false} MergeFromCandidates(index: seq<(string, Entry)>, pairs: seq<(string, Entry)>, k: string)
    ensures var r := MergeAll(index, pairs);
            Get(r, k).Some? ==> Get(r, k) == Get(index, k) || (k, Get(r, k).value) in pairs
    decreases |pairs|
  {
    if pairs != [] {
      var init, last := pairs[..|pairs| - 1], pairs[|pairs| - 1];
      var m := MergeAll(index, init);
      var r := MergeAll(index, pairs);
      assert r == MergeEntry(m, last.0, last.1);
      hide MergeAll, MergeEntry;
      MergeFromCandidates(index, init, k);
      MergeEntryGet(m, last.0, last.1, k);
      if Get(r, k).Some? && Get(r, k) != Get(m, k) {
        assert pairs[|pairs| - 1] == (k, Get(r, k).value);
      } else if Get(r, k).Some? && Get(m, k) != Get(index, k) {
        assert (k, Get(m, k).value) in init;
        assert forall p :: p in init ==> p in pairs;
      }
    }
  }

  /** The higher priority wins: after a merge every path that was in the index
      or among the merged pairs is present, with a priority at least that of
      each of its candidates, and every stored entry is one of the candidates. */
  lemma MergeDominates(index: seq<(string, Entry)>, pairs: seq<(string, Entry)>)
    ensures var r := MergeAll(index, pairs);
            && (forall i :: 0 <= i < |pairs| ==>
                  Get(r, pairs[i].0).Some? && Get(r, pairs[i].0).value.priority >= pairs[i].1.priority)
            && (forall k :: Get(index, k).Some? ==>
                  Get(r, k).Some? && Get(r, k).value.priority >= Get(index, k).value.priority)
            && (forall k :: Get(r, k).Some? ==> Get(r, k) == Get(index, k) || (k, Get(r, k).value) in pairs)
  {
    MergeCoversPairs(index, pairs);
    forall k | true
      ensures Get(index, k).Some? ==>
                Get(MergeAll(index, pairs), k).Some?
                && Get(MergeAll(index, pairs), k).value.priority >= Get(index, k).value.priority
      ensures Get(MergeAll(index, pairs), k).Some? ==>
                Get(MergeAll(index, pairs), k) == Get(index, k) || (k, Get(MergeAll(index, pairs), k).value) in pairs
    {
      MergeKeepsIndex(index, pairs, k);
      MergeFromCandidates(index, pairs, k);
    }
  }


  /** Ties keep the first entry: a path new to the index whose first candidate
      is never strictly outranked by a later one keeps that first candidate. */
  lemma {:induction false} MergeFirstKept(index: seq<(string, Entry)>, pairs: seq<(string, Entry)>, i: nat)
    requires i < |pairs| && Get(index, pairs[i].0).None?
    requires forall j :: 0 <= j < i ==> pairs[j].0 != pairs[i].0
    requires forall j :: i < j < |pairs| && pairs[j].0 == pairs[i].0 ==> pairs[j].1.priority <= pairs[i].1.priority
    ensures Get(MergeAll(index, pairs), pairs[i].0) == Some(pairs[i].1)
    decreases |pairs|
  {
    var k := pairs[i].0;
    var init := pairs[..|pairs| - 1];
    var last := pairs[|pairs| - 1];
    var m := MergeAll(index, init);
    MergeEntryGet(m, last.0, last.1, k);
    if i == |pairs| - 1 {
      MergeDominates(index, init);
    } else {
      forall j | 0 <= j < i ensures init[j].0 != init[i].0 {
        assert init[j] == pairs[j];
      }
      forall j | i < j < |init| && init[j].0 == init[i].0 ensures init[j].1.priority <= init[i].1.priority {
        assert init[j] == pairs[j];
      }
      MergeFirstKept(index, init, i);
    }
  }

  // ---------------------------------------------------------------------------
  // Archives
  // ---------------------------------------------------------------------------

  /** A loaded archive: its path, priority, parsed entries and, when its file
      handle is open, the bytes of the whole file. */
  datatype Archive = Archive(grfPath: string, priority: int, entries: seq<(string, Entry)>,
                             file: Option<seq<byte>>)

  predicate ByPriority(s: seq<Archive>) {
    forall i :: 0 < i < |s| ==> s[i - 1].priority <= s[i].priority
  }

  function InsertArchive(a: Archive, s: seq<Archive>): (r: seq<Archive>)
    requires ByPriority(s)
    ensures ByPriority(r) && multiset(r) == multiset(s) + multiset{a}
    ensures |r| == |s| + 1 && (r[0] == a || (|s| > 0 && r[0] == s[0]))
  {
    if s == [] then [a]
    else if a.priority <= s[0].priority then [a] + s
    else
      assert s == [s[0]] + s[1..];
      [s[0]] + InsertArchive(a, s[1..])
  }

  /** `sorted(archives, key=priority)`, stable: an archive goes before the
      later ones of equal priority. */
  function SortByPriority(s: seq<Archive>): (r: seq<Archive>)
    ensures ByPriority(r) && multiset(r) == multiset(s)
  {
    if s == [] then []
    else
      assert s == [s[0]] + s[1..];
      InsertArchive(s[0], SortByPriority(s[1..]))
  }

  /** An archive's entries keyed by each entry's own path, as the rebuild reads them. */
  function Reindexed(entries: seq<(string, Entry)>): (r: seq<(string, Entry)>)
    ensures |r| == |entries| && forall i :: 0 <= i < |r| ==> r[i] == (entries[i].1.path, entries[i].1)
  {
    seq(|entries|, i requires 0 <= i < |entries| => (entries[i].1.path, entries[i].1))
  }

  /** The unified index built from the archives in the given order. */
  function Rebuilt(archives: seq<Archive>): seq<(string, Entry)>
  {
    if archives == [] then []
    else MergeAll(Rebuilt(archives[..|archives| - 1]), Reindexed(archives[|archives| - 1].entries))
  }

  /** One more archive merges its entries into the index built so far. */
  lemma RebuiltSnoc(archives: seq<Archive>, i: nat)
    requires i < |archives|
    ensures Rebuilt(archives[..i + 1]) == MergeAll(Rebuilt(archives[..i]), Reindexed(archives[i].entries))
  {
    assert archives[..i + 1][..i] == archives[..i];
  }

  lemma {:induction false} RebuiltDistinct(archives: seq<Archive>)
    ensures Distinct(Rebuilt(archives))
  {
    if archives != [] {
      RebuiltDistinct(archives[..|archives| - 1]);
      MergeAllDistinct(Rebuilt(archives[..|archives| - 1]), Reindexed(archives[|archives| - 1].entries));
    }
  }

  /** Every entry of every archive is indexed under its path at no lower priority. */
  lemma {:induction false} RebuiltCovers(archives: seq<Archive>)
    ensures var r := Rebuilt(archives);
            forall i, j :: 0 <= i < |archives| && 0 <= j < |archives[i].entries| ==>
              var e := archives[i].entries[j].1;
              Get(r, e.path).Some? && Get(r, e.path).value.priority >= e.priority
  {
    var r := Rebuilt(archives);
    if archives != [] {
      var n := |archives| - 1;
      var init := archives[..n];
      var m := Rebuilt(init);
      var pairs := Reindexed(archives[n].entries);
      RebuiltCovers(init);
      MergeDominates(m, pairs);
      forall i, j | 0 <= i < |archives| && 0 <= j < |archives[i].entries|
        ensures var e := archives[i].entries[j].1;
                Get(r, e.path).Some? && Get(r, e.path).value.priority >= e.priority
      {
        if i < n {
          assert archives[i] == init[i];
        } else {
          assert pairs[j] == (archives[i].entries[j].1.path, archives[i].entries[j].1);
        }
      }
    }
  }

  /** Every indexed entry comes from one of the archives. */
  lemma {:induction false} RebuiltSources(archives: seq<Archive>)
    ensures forall k :: Get(Rebuilt(archives), k).Some? ==>
              exists i :: 0 <= i < |archives| && (k, Get(Rebuilt(archives), k).value) in Reindexed(archives[i].entries)
  {
    var r := Rebuilt(archives);
    if archives != [] {
      var n := |archives| - 1;
      var init := archives[..n];
      var m := Rebuilt(init);
      var pairs := Reindexed(archives[n].entries);
      RebuiltSources(init);
      MergeDominates(m, pairs);
      assert r == MergeAll(m, pairs);
      forall k | Get(r, k).Some?
        ensures exists i :: 0 <= i < |archives| && (k, Get(r, k).value) in Reindexed(archives[i].entries)
      {
        if Get(r, k) == Get(m, k) {
          assert Get(m, k).Some?;
          var i :| 0 <= i < |init| && (k, Get(m, k).value) in Reindexed(init[i].entries);
          assert init[i] == archives[i];
        } else {
          assert (k, Get(r, k).value) in pairs;
        }
      }
    }
  }

  /** Every entry of every archive is indexed under its path at no lower
      priority, and every indexed entry comes from one of the archives. */
  lemma RebuiltDominates(archives: seq<Archive>)
    ensures var r := Rebuilt(archives);
            && Distinct(r)
            && (forall i, j :: 0 <= i < |archives| && 0 <= j < |archives[i].entries| ==>
                  var e := archives[i].entries[j].1;
                  Get(r, e.path).Some? && Get(r, e.path).value.priority >= e.priority)
            && (forall k :: Get(r, k).Some? ==>
                  exists i :: 0 <= i < |archives| && (k, Get(r, k).value) in Reindexed(archives[i].entries))
  {
    RebuiltDistinct(archives);
    RebuiltCovers(archives);
    RebuiltSources(archives);
  }

  /** `GRFArchive.read_file_data`: `compressed_size` bytes at 46 + offset; a
      short read or a closed handle gives None. */
  function ReadFileData(a: Archive, e: Entry): (r: Option<seq<byte>>)
    ensures r.Some? <==> a.file.Some? && (e.compressedSize == 0 || HEADER_SIZE + e.offset + e.compressedSize <= |a.file.value|)
    ensures r.Some? ==> |r.value| == e.compressedSize
    ensures r.Some? && e.compressedSize > 0 ==>
              r.value == a.file.value[HEADER_SIZE + e.offset..HEADER_SIZE + e.offset + e.compressedSize]
  {
    if a.file.None? then None
    else
      var f := a.file.value;
      var start := HEADER_SIZE + e.offset;
      var got := if start >= |f| then [] else f[start..Min(|f|, start + e.compressedSize)];
      if |got| != e.compressedSize then None else Some(got)
  }

  /** The first archive with the given path (the search in `read_file`). */
  function FindArchive(archives: seq<Archive>, grf: string): (r: Option<Archive>)
    ensures r.None? <==> forall i :: 0 <= i < |archives| ==> archives[i].grfPath != grf
    ensures r.Some? ==> exists i :: 0 <= i < |archives| && archives[i] == r.value && r.value.grfPath == grf
                                    && forall j :: 0 <= j < i ==> archives[j].grfPath != grf
  {
    if archives == [] then None
    else if archives[0].grfPath == grf then Some(archives[0])
    else
      var r := FindArchive(archives[1..], grf);
      assert forall i :: 1 <= i < |archives| ==> archives[i] == archives[1..][i - 1];
      if r.Some? then
        var i :| 0 <= i < |archives[1..]| && archives[1..][i] == r.value && r.value.grfPath == grf
                 && forall j :: 0 <= j < i ==> archives[1..][j].grfPath != grf;
        assert archives[i + 1] == r.value;
        r
      else r
  }

  // ---------------------------------------------------------------------------
  // Decompression dispatch
  // ---------------------------------------------------------------------------

  /** `grf_des_decrypt(data, 0)`, not modelled; None stands for an exception. */
  type DesDecryptor = seq<byte> -> Option<seq<byte>>

  /** A decompression outcome and how much it adds to the failure and
      fallback counters. */
  datatype Decoded = Decoded(data: Option<seq<byte>>, failures: nat, fallbacks: nat)

  /** `_decompress_zlib_primary`: standard zlib accepted within 10% or 1 KiB
      (or 20%) of the expected size, then the remaining zlib attempts with the
      20% check, then raw bytes within 0.8 to 1.2 times the expected size. */
  function ZlibPrimary(inflate: Inflater, raw: seq<byte>, size: nat): (d: Decoded)
    ensures d.data.None? <==> d.failures == 1
    ensures d.fallbacks == 1 ==> d.data == Some(raw) && PlausiblyRaw(raw, size)
    ensures d.fallbacks <= 1 && d.failures <= 1
    ensures inflate(raw, 15).Some? && (size == 0 || Abs(|inflate(raw, 15).value| - size) <= 1024
                                       || 5 * Abs(|inflate(raw, 15).value| - size) <= size)
            ==> d == Decoded(inflate(raw, 15), 0, 0)
  {
    var first := inflate(raw, 15);
    if first.Some? && (size == 0 || Abs(|first.value| - size) <= 1024 || 5 * Abs(|first.value| - size) <= size) then
      Decoded(first, 0, 0)
    else
      var attempts := ZlibAttempts(|raw|)[1..];
      var rest := FirstAccepted(inflate, raw, size, attempts);
      if rest.Some? then Decoded(rest, 0, 0)
      else if PlausiblyRaw(raw, size) then Decoded(Some(raw), 0, 1)
      else Decoded(None, 1, 0)
  }

  /** `_decompress_zlib_multiple_strategies`: the primary strategies, then the
      LZSS-aware fallback chain; an empty result counts as none. */
  function ZlibStrategies(inflate: Inflater, lzma: LzmaDecoder, raw: seq<byte>, size: nat, ctype: nat): (d: Decoded)
    ensures d.data.Some? ==> |d.data.value| > 0
    ensures d.data.None? ==> d.failures >= 1
    ensures d.data.Some? && d.fallbacks == 0 ==> d == ZlibPrimary(inflate, raw, size)
  {
    var p := ZlibPrimary(inflate, raw, size);
    if p.data.Some? && |p.data.value| > 0 then p
    else
      var f := FallbackDecompress(raw, size, ctype, inflate, lzma);
      if f.Some? && |f.value| > 0 then Decoded(f, p.failures, p.fallbacks + 1)
      else Decoded(None, p.failures + 1, p.fallbacks)
  }

  /** `_decompress_file`: dispatch on the compression type. A missing result
      is always counted as a failure, except when DES is unavailable. */
  function Decompress(e: Entry, raw: seq<byte>, inflate: Inflater, lzma: LzmaDecoder,
                      des: DesDecryptor, desAvailable: bool): (d: Decoded)
    ensures e.compressionType == 0 ==> d == Decoded(Some(raw), 0, 0)
    ensures d.data.None? ==> d.failures >= 1 || ((e.compressionType == 2 || e.compressionType == 3) && !desAvailable)
    ensures (e.compressionType == 2 || e.compressionType == 3) && d.data.Some? ==> desAvailable && des(raw).Some?
    ensures e.compressionType == 3 && desAvailable ==> d.data == des(raw)
    ensures e.compressionType == 4 && d.data == Some(raw) && d.fallbacks > 0 ==> lzma(raw).None? && |raw| == e.uncompressedSize
  {
    var size := e.uncompressedSize;
    match e.compressionType
    case 0 => Decoded(Some(raw), 0, 0)
    case 1 => ZlibStrategies(inflate, lzma, raw, size, 1)
    case 2 =>
      if !desAvailable then Decoded(None, 0, 0)
      else
        var plain := des(raw);
        if plain.None? then Decoded(None, 1, 0)
        else
          var z := inflate(plain.value, 15);
          if z.None? then Decoded(None, 1, 0) else Decoded(z, 0, 0)
    case 3 =>
      if !desAvailable then Decoded(None, 0, 0)
      else
        var plain := des(raw);
        if plain.None? then Decoded(None, 1, 0) else Decoded(plain, 0, 0)
    case 4 =>
      var x := lzma(raw);
      if x.Some? then Decoded(x, 0, 0)
      else if |raw| == size then Decoded(Some(raw), 1, 1)
      else Decoded(None, 1, 0)
    case _ =>
      var z := inflate(raw, 15);
      if z.Some? then Decoded(z, 0, 0)
      else if |raw| == size then Decoded(Some(raw), 0, 1)
      else Decoded(None, 1, 0)
  }

  // ---------------------------------------------------------------------------
  // The LRU byte cache
  // ---------------------------------------------------------------------------

  /** Total bytes held by the cache (oldest entry first). */
  function CacheBytes(c: seq<(string, seq<byte>)>): nat
  {
    if c == [] then 0 else |c[0].1| + CacheBytes(c[1..])
  }

  lemma {:induction false} CacheBytesAppend(c: seq<(string, seq<byte>)>, p: (string, seq<byte>))
    ensures CacheBytes(c + [p]) == CacheBytes(c) + |p.1|
  {
    if c != [] {
      assert (c + [p])[1..] == c[1..] + [p];
      CacheBytesAppend(c[1..], p);
    }
  }

  /** Taking an entry out of the cache gives back exactly its bytes. */
  lemma {:induction false} CacheBytesRemove(c: seq<(string, seq<byte>)>, k: string)
    requires Distinct(c) && Get(c, k).Some?
    ensures CacheBytes(Remove(c, k)) + |Get(c, k).value| == CacheBytes(c)
  {
    if c[0].0 != k {
      RemoveDistinct(c, k);
      CacheBytesRemove(c[1..], k);
    } else {
      assert forall i :: 0 <= i < |c[1..]| ==> c[1..][i].0 == c[i + 1].0;
      assert k !in Keys(c[1..]);
      RemoveAbsent(c[1..], k);
    }
  }

  lemma {:induction false} RemoveAbsent<V>(c: seq<(string, V)>, k: string)
    requires k !in Keys(c)
    ensures Remove(c, k) == c
  {
    if c != [] {
      assert Keys(c) == [c[0].0] + Keys(c[1..]);
      RemoveAbsent(c[1..], k);
    }
  }

  /** How many of the oldest entries `_cache_file` evicts to make room for
      `n` bytes: the fewest that bring the total within the limit, or all. */
  function EvictCount(c: seq<(string, seq<byte>)>, n: nat, limit: int): (k: nat)
    ensures k <= |c|
    ensures k == |c| || CacheBytes(c[k..]) + n <= limit
    ensures forall j :: 0 <= j < k ==> CacheBytes(c[j..]) + n > limit
  {
    if c == [] || CacheBytes(c) + n <= limit then 0
    else
      var k := EvictCount(c[1..], n, limit);
      assert c[1..][k..] == c[k + 1..];
      assert forall j :: 1 <= j <= k ==> c[1..][j - 1..] == c[j..];
      k + 1
  }

  /** The cache after `_cache_file(key, data)`: data larger than the whole
      cache is not kept; otherwise the oldest entries are evicted until it
      fits and it becomes the most recent entry. */
  function CacheInsert(c: seq<(string, seq<byte>)>, key: string, data: seq<byte>, limit: int): seq<(string, seq<byte>)>
  {
    if |data| > limit then c else c[EvictCount(c, |data|, limit)..] + [(key, data)]
  }

  /** The eviction loop of `_cache_file`: the oldest entries dropped while
      the new data would not fit. */
  method EvictOldest(c: seq<(string, seq<byte>)>, size: nat, n: nat, limit: int)
    returns (c': seq<(string, seq<byte>)>, size': nat)
    requires size == CacheBytes(c)
    ensures c' == c[EvictCount(c, n, limit)..] && size' == CacheBytes(c')
  {
    c', size' := c, size;
    ghost var evicted := 0;
    while size' + n > limit && c' != []
      invariant 0 <= evicted <= |c| && c' == c[evicted..]
      invariant size' == CacheBytes(c')
      invariant EvictCount(c', n, limit) + evicted == EvictCount(c, n, limit)
      decreases |c'|
    {
      assert EvictCount(c', n, limit) == 1 + EvictCount(c'[1..], n, limit);
      assert c[evicted..][1..] == c[evicted + 1..];
      size' := size' - |c'[0].1|;
      c' := c'[1..];
      evicted := evicted + 1;
    }
  }

  /** Caching keeps the size accounting: the cache stays a dict within the
      limit, and an insert evicts only from the oldest end. */
  lemma CacheInsertKeeps(c: seq<(string, seq<byte>)>, key: string, data: seq<byte>, limit: int)
    requires Distinct(c) && key !in Keys(c) && CacheBytes(c) <= limit
    ensures var r := CacheInsert(c, key, data, limit);
            && Distinct(r) && CacheBytes(r) <= limit
            && (|data| > limit ==> r == c)
            && (|data| <= limit ==> exists k :: 0 <= k <= |c| && r == c[k..] + [(key, data)])
  {
    if |data| <= limit {
      var k := EvictCount(c, |data|, limit);
      var t := c[k..];
      CacheBytesAppend(t, (key, data));
      SuffixKeys(c, k);
      PutDistinct(t, key, data);
      assert CacheInsert(c, key, data, limit) == t + [(key, data)];
    }
  }

  // ---------------------------------------------------------------------------
  // Reading through the index
  // ---------------------------------------------------------------------------

  /** The size check of `read_file`: the result is dropped when it differs
      from a known size by more than 1 KiB and by more than 10%. */
  predicate SizeSuspect(data: seq<byte>, size: nat) {
    size > 0 && Abs(|data| - size) > 1024 && 10 * Abs(|data| - size) > size
  }

  /** The uncached part of `read_file`: index lookup, the first archive with
      the entry's path, the raw read, decompression and the size check. */
  function Fetch(archives: seq<Archive>, index: seq<(string, Entry)>, key: string, inflate: Inflater,
                 lzma: LzmaDecoder, des: DesDecryptor, desAvailable: bool): (d: Decoded)
    ensures d.data.Some? ==> var e := Get(index, key);
            && e.Some? && FindArchive(archives, e.value.grfPath).Some?
            && |d.data.value| > 0 && !SizeSuspect(d.data.value, e.value.uncompressedSize)
    ensures Get(index, key).None? ==> d == Decoded(None, 0, 0)
  {
    match Get(index, key)
    case None => Decoded(None, 0, 0)
    case Some(e) =>
      match FindArchive(archives, e.grfPath)
      case None => Decoded(None, 0, 0)
      case Some(a) =>
        var raw := ReadFileData(a, e);
        if raw.None? || |raw.value| == 0 then Decoded(None, 0, 0)
        else
          var d := Decompress(e, raw.value, inflate, lzma, des, desAvailable);
          if d.data.None? || |d.data.value| == 0 || SizeSuspect(d.data.value, e.uncompressedSize) then d.(data := None)
          else d
  }

  /** The uncached part of `read_file` as it runs: the archive search is a
      loop over the archives in priority order. */
  method FetchFile(archives: seq<Archive>, index: seq<(string, Entry)>, key: string, inflate: Inflater,
                   lzma: LzmaDecoder, des: DesDecryptor, desAvailable: bool) returns (d: Decoded)
    ensures d == Fetch(archives, index, key, inflate, lzma, des, desAvailable)
  {
    var found := Get(index, key);
    if found.None? {
      return Decoded(None, 0, 0);
    }
    var entry := found.value;
    var archive: Option<Archive> := None;
    var i := 0;
    while i < |archives|
      invariant 0 <= i <= |archives|
      invariant FindArchive(archives, entry.grfPath) == FindArchive(archives[i..], entry.grfPath)
    {
      if archives[i].grfPath == entry.grfPath {
        archive := Some(archives[i]);
        break;
      }
      assert archives[i..][1..] == archives[i + 1..];
      i := i + 1;
    }
    if archive.None? {
      return Decoded(None, 0, 0);
    }
    var raw := ReadFileData(archive.value, entry);
    if raw.None? || |raw.value| == 0 {
      return Decoded(None, 0, 0);
    }
    d := Decompress(entry, raw.value, inflate, lzma, des, desAvailable);
    if d.data.None? || |d.data.value| == 0 {
      return d.(data := None);
    }
    var data := d.data.value;
    if entry.uncompressedSize > 0 {
      var diff := Abs(|data| - entry.uncompressedSize);
      if diff > 1024 && 10 * diff > entry.uncompressedSize {
        return d.(data := None);
      }
    }
  }

  /** The directory key of `list_directory`: normalised, with a trailing slash. */
  function DirKey(path: string): (d: string)
    ensures |d| > 0 && d[|d| - 1] == '/'
  {
    var n := Normalize(path);
    if |n| > 0 && n[|n| - 1] == '/' then n else n + "/"
  }

  /** `rel.split('/')[0]` */
  function FirstComponent(s: string): (r: string)
    ensures r <= s && '/' !in r && (|r| < |s| ==> s[|r|] == '/')
  {
    if s == [] || s[0] == '/' then ""
    else
      var t := FirstComponent(s[1..]);
      assert [s[0]] + t <= s;
      [s[0]] + t
  }

  /** `c` is a non-empty first component below directory `dir` of `path`. */
  predicate ChildOf(c: string, path: string, dir: string) {
    dir <= path && c == FirstComponent(path[|dir|..]) && c != ""
  }

  /** The children named by the paths, in path order and possibly repeated. */
  function Children(paths: seq<string>, dir: string): (r: seq<string>)
    ensures forall c :: c in r <==> exists i :: 0 <= i < |paths| && ChildOf(c, paths[i], dir)
  {
    if paths == [] then []
    else
      var rest := Children(paths[1..], dir);
      assert forall i :: 1 <= i < |paths| ==> paths[i] == paths[1..][i - 1];
      if dir <= paths[0] && FirstComponent(paths[0][|dir|..]) != "" then
        [FirstComponent(paths[0][|dir|..])] + rest
      else rest
  }

  /** `p.lower()`-substring filter of `search_files`, in index order. */
  function Matching(paths: seq<string>, q: string): (r: seq<string>)
    ensures forall x :: x in r <==> x in paths && Occurs(q, x)
    ensures |r| <= |paths|
  {
    if paths == [] then []
    else
      assert paths == [paths[0]] + paths[1..];
      (if Occurs(q, paths[0]) then [paths[0]] else []) + Matching(paths[1..], q)
  }

  // ---------------------------------------------------------------------------
  // The virtual file system
  // ---------------------------------------------------------------------------

  /** Counters reported by `get_statistics`. */
  datatype Stats = Stats(filesRead: nat, cacheHits: nat, cacheMisses: nat, failures: nat, fallbacks: nat)

  /** `GRFVirtualFileSystem`: archives sorted by priority, the unified index,
      the LRU cache with its byte count, and counters. zlib, LZMA and DES
      are supplied as functions. */
  class Vfs {
    var archives: seq<Archive>
    var index: seq<(string, Entry)>
    var cache: seq<(string, seq<byte>)>
    var cacheSize: nat
    const limit: nat
    var stats: Stats
    const inflate: Inflater
    const lzma: LzmaDecoder
    const des: DesDecryptor
    const desAvailable: bool

    /** The cache byte count is the sum of the cached lengths and within the
        limit; the index and the cache are dicts. */
    ghost predicate Valid()
      reads this
    {
      Distinct(index) && Distinct(cache) && cacheSize == CacheBytes(cache) && cacheSize <= limit
    }

    constructor(cacheSizeMb: nat, inflate: Inflater, lzma: LzmaDecoder, des: DesDecryptor, desAvailable: bool)
      ensures Valid()
      ensures archives == [] && index == [] && cache == [] && limit == cacheSizeMb * MIB
      ensures stats == Stats(0, 0, 0, 0, 0)
      ensures this.inflate == inflate && this.lzma == lzma && this.des == des && this.desAvailable == desAvailable
    {
      archives := [];
      index := [];
      cache := [];
      cacheSize := 0;
      limit := cacheSizeMb * MIB;
      stats := Stats(0, 0, 0, 0, 0);
      this.inflate := inflate;
      this.lzma := lzma;
      this.des := des;
      this.desAvailable := desAvailable;
    }

    /** `load_grf` once the archive is open: keep the archives sorted by
        priority and, when asked, rebuild the index. */
    method AddArchive(a: Archive, rebuild: bool)
      requires Valid()
      modifies this
      ensures Valid()
      ensures archives == SortByPriority(old(archives) + [a])
      ensures index == if rebuild then Rebuilt(SortByPriority(archives)) else old(index)
      ensures cache == old(cache) && stats == old(stats)
    {
      archives := SortByPriority(archives + [a]);
      if rebuild {
        RebuildIndex();
      }
    }

    /** `merge_file_index` */
    method MergeFileIndex(newIndex: seq<(string, Entry)>)
      requires Valid()
      modifies this
      ensures Valid()
      ensures index == MergeAll(old(index), newIndex)
      ensures archives == old(archives) && cache == old(cache) && stats == old(stats)
    {
      var j := 0;
      while j < |newIndex|
        invariant 0 <= j <= |newIndex|
        invariant index == MergeAll(old(index), newIndex[..j])
        invariant archives == old(archives) && cache == old(cache) && cacheSize == old(cacheSize) && stats == old(stats)
      {
        assert newIndex[..j + 1][..j] == newIndex[..j];
        index := MergeEntry(index, newIndex[j].0, newIndex[j].1);
        j := j + 1;
      }
      assert newIndex[..j] == newIndex;
      MergeAllDistinct(old(index), newIndex);
    }

    /** The inner loop of `_rebuild_index`: merge one archive's entries,
        each under its own path. */
    method MergeArchive(entries: seq<(string, Entry)>)
      modifies this
      ensures index == MergeAll(old(index), Reindexed(entries))
      ensures archives == old(archives) && cache == old(cache) && cacheSize == old(cacheSize) && stats == old(stats)
    {
      ghost var start, pairs := index, Reindexed(entries);
      var j := 0;
      while j < |entries|
        invariant 0 <= j <= |entries|
        invariant index == MergeAll(start, pairs[..j])
        invariant archives == old(archives) && cache == old(cache) && cacheSize == old(cacheSize) && stats == old(stats)
      {
        MergeAllSnoc(start, pairs, j);
        index := MergeEntry(index, entries[j].1.path, entries[j].1);
        j := j + 1;
      }
      assert pairs[..j] == pairs;
    }

    /** `_rebuild_index`: start empty and merge every archive's entries,
        lowest priority first. */
    method RebuildIndex()
      requires Valid()
      modifies this
      ensures Valid()
      ensures index == Rebuilt(SortByPriority(archives))
      ensures archives == old(archives) && cache == old(cache) && stats == old(stats)
    {
      var sorted := SortByPriority(archives);
      index := [];
      var i := 0;
      while i < |sorted|
        invariant 0 <= i <= |sorted|
        invariant index == Rebuilt(sorted[..i])
        invariant archives == old(archives) && cache == old(cache) && cacheSize == old(cacheSize) && stats == old(stats)
      {
        MergeArchive(sorted[i].entries);
        RebuiltSnoc(sorted, i);
        i := i + 1;
      }
      assert sorted[..i] == sorted;
      RebuiltDominates(sorted);
    }

    /** `file_exists` */
    function FileExists(path: string): (r: bool)
      reads this
      ensures r <==> Get(index, Normalize(path)).Some?
    {
      Normalize(path) in Keys(index)
    }

    /** `get_file_info` */
    function GetFileInfo(path: string): (r: Option<Entry>)
      reads this
      ensures r.Some? <==> FileExists(path)
    {
      Get(index, Normalize(path))
    }

    /** `list_directory`: the distinct first components of the indexed paths
        below the directory, sorted. */
    function ListDirectory(path: string): (r: seq<string>)
      reads this
      ensures StrictlySorted(r)
      ensures forall c :: c in r <==> exists i :: 0 <= i < |index| && ChildOf(c, index[i].0, DirKey(path))
    {
      var r := SortedSet(Children(Keys(index), DirKey(path)));
      assert forall i :: 0 <= i < |index| ==> Keys(index)[i] == index[i].0;
      r
    }

    /** `search_files`: the indexed paths containing the lower-cased query, sorted. */
    function SearchFiles(query: string): (r: seq<string>)
      reads this
      ensures Sorted(r) && |r| <= |index|
      ensures forall x :: x in r <==> x in Keys(index) && Occurs(Lower(query), x)
    {
      var m := Matching(Keys(index), Lower(query));
      var r := Sort(m);
      assert |r| == |multiset(r)| == |multiset(m)| == |m|;
      assert forall x :: x in r <==> x in multiset(r);
      r
    }

    /** `clear_cache` */
    method ClearCache()
      requires Valid()
      modifies this
      ensures Valid() && cache == [] && cacheSize == 0
      ensures archives == old(archives) && index == old(index) && stats == old(stats)
    {
      cache := [];
      cacheSize := 0;
    }

    /** `_cache_file`, called only after a cache miss on `path`. */
    method CacheFile(path: string, data: seq<byte>)
      requires Valid() && path !in Keys(cache)
      modifies this
      ensures Valid()
      ensures cache == CacheInsert(old(cache), path, data, limit)
      ensures archives == old(archives) && index == old(index) && stats == old(stats)
    {
      if |data| > limit {
        return;
      }
      cache, cacheSize := EvictOldest(cache, cacheSize, |data|, limit);
      CacheInsertKeeps(old(cache), path, data, limit);
      CacheBytesAppend(cache, (path, data));
      cache := cache + [(path, data)];
      cacheSize := cacheSize + |data|;
    }

    /** The cache-hit branch of `read_file`: move the path to the most
        recent end of the cache. */
    method Touch(key: string, value: seq<byte>)
      requires Valid() && Get(cache, key) == Some(value)
      modifies this
      ensures Valid()
      ensures cache == Remove(old(cache), key) + [(key, value)]
      ensures archives == old(archives) && index == old(index) && stats == old(stats)
    {
      CacheBytesRemove(cache, key);
      RemoveDistinct(cache, key);
      var rest := Remove(cache, key);
      CacheBytesAppend(rest, (key, value));
      PutDistinct(rest, key, value);
      cache := rest + [(key, value)];
    }

    /** `read_file`: a cache hit moves the path to the most recent end and
        counts a hit; a miss counts a miss, reads through the index and caches
        a successful result. */
    method ReadFile(path: string) returns (r: Option<seq<byte>>)
      requires Valid()
      modifies this
      ensures Valid()
      ensures archives == old(archives) && index == old(index)
      ensures var key := Normalize(path);
              Get(old(cache), key).Some? ==>
                && r == Get(old(cache), key)
                && cache == Remove(old(cache), key) + [(key, r.value)]
                && stats == old(stats).(cacheHits := old(stats).cacheHits + 1)
      ensures var key := Normalize(path);
              var d := Fetch(old(archives), old(index), key, inflate, lzma, des, desAvailable);
              Get(old(cache), key).None? ==>
                && r == d.data
                && cache == (if r.Some? then CacheInsert(old(cache), key, r.value, limit) else old(cache))
                && stats == old(stats).(cacheMisses := old(stats).cacheMisses + 1,
                                        failures := old(stats).failures + d.failures,
                                        fallbacks := old(stats).fallbacks + d.fallbacks,
                                        filesRead := old(stats).filesRead + if r.Some? then 1 else 0)
    {
      var key := Normalize(path);
      var hit := Get(cache, key);
      if hit.Some? {
        Touch(key, hit.value);
        stats := stats.(cacheHits := stats.cacheHits + 1);
        return hit;
      }
      var d := FetchFile(archives, index, key, inflate, lzma, des, desAvailable);
      stats := stats.(cacheMisses := stats.cacheMisses + 1, failures := stats.failures + d.failures,
                      fallbacks := stats.fallbacks + d.fallbacks);
      r := d.data;
      if r.Some? {
        assert key !in Keys(cache);
        CacheFile(key, r.value);
        stats := stats.(filesRead := stats.filesRead + 1);
      }
    }
  }
}
