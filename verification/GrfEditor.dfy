/** The GRF writer: an in-memory table of files that is edited, then written
    out as a 46-byte header, the file bodies one after another, and a
    zlib-packed file table. Its header and table are read back by the
    extractor and by the VFS. */
module GrfEditor {
  import opened Wrappers
  import opened Bytes
  import opened Strings
  import opened OrderedMaps
  import GrfVfs
  import GrfExtractor
  import BaseExtractor
  import GrfDecompression

  const HEADER_SIZE: nat := 46
  const VERSION_200: u32 := 0x200
  const FLAG_FILE: byte := 1
  /** The seed field of the header; the editor always writes 1. */
  const SEED: u32 := 1
  /** Values `struct.pack('<I', ...)` accepts lie below this. */
  const U32_LIMIT: nat := 0x1_0000_0000

  /** `GRFFileEntry`: a file waiting to be written. */
  datatype FileRecord = FileRecord(path: string, data: seq<byte>, compressed: bool, flags: byte)

  /** `zlib.compress(data, level)` */
  type Compressor = (seq<byte>, int) -> seq<byte>

  /** `str.encode('euc-kr')`, None where the codec raises. */
  type NameEncoder = string -> Option<seq<byte>>

  /** The path as stored: forward slashes turned into backslashes. */
  function EditorPath(path: string): (p: string)
    ensures |p| == |path| && '/' !in p
  {
    ReplaceChar(path, '/', '\\')
  }

  /** The dict key `add_file` uses: the stored path, lower-cased. */
  function EditorKey(path: string): (k: string)
    ensures |k| == |path| && '/' !in k && IsLower(k)
  {
    Lower(EditorPath(path))
  }

  /** `add_file` and `remove_file` compute their keys in opposite orders
      (replace then lower, lower then replace); they agree, and agree with
      the extractor's lookup key. */
  lemma EditorKeyIsLookupKey(path: string)
    ensures EditorKey(path) == GrfExtractor.LookupKey(path)
  {
  }

  /** The editor's dict: no key twice, every file under the lower-cased form
      of its own path, and no forward slash in a stored path. */
  predicate WellKeyed(files: seq<(string, FileRecord)>) {
    && Distinct(files)
    && forall i :: 0 <= i < |files| ==> files[i].0 == Lower(files[i].1.path) && '/' !in files[i].1.path
                                        && files[i].1.flags == FLAG_FILE
  }

  // ---------------------------------------------------------------------------
  // What gets written for one file
  // ---------------------------------------------------------------------------

  /** The bytes `_write_grf` writes for a file: the level-6 zlib output when
      compression is asked for, the data is not empty and the output is
      strictly smaller; the data itself otherwise. */
  function Stored(rec: FileRecord, compress: Compressor): (s: seq<byte>)
    ensures |s| <= |rec.data|
    ensures s == rec.data || (rec.compressed && |rec.data| > 0 && s == compress(rec.data, 6) && |s| < |rec.data|)
    ensures rec.compressed && |rec.data| > 0 && |compress(rec.data, 6)| < |rec.data| ==> s == compress(rec.data, 6)
  {
    if rec.compressed && |rec.data| > 0 && |compress(rec.data, 6)| < |rec.data| then compress(rec.data, 6)
    else rec.data
  }

  /** The name bytes `_build_file_table` writes: the EUC-KR encoding, and
      the latin-1 one when EUC-KR raises; None when latin-1 raises too,
      which makes `_write_grf` raise and `save` fail. */
  function NameBytes(path: string, euckr: NameEncoder): (r: Option<seq<byte>>)
    ensures euckr(path).Some? ==> r == euckr(path)
    ensures euckr(path).None? ==> (r.Some? <==> Latin1(path))
    ensures r.Some? && euckr(path).None? ==> |r.value| == |path|
  {
    if euckr(path).Some? then euckr(path)
    else if Latin1(path) then Some(Encode(path))
    else None
  }

  /** The name bytes of a path that encodes, and no bytes otherwise (the
      archive is then not written at all). */
  function NameOf(path: string, euckr: NameEncoder): seq<byte> {
    match NameBytes(path, euckr)
    case Some(b) => b
    case None => []
  }

  /** EUC-KR is a superset of ASCII: ASCII text encodes as its own bytes. */
  ghost predicate AsciiCompatible(euckr: NameEncoder) {
    forall s: string :: Ascii(s) ==> euckr(s) == Some(Encode(s))
  }

  /** A path of non-zero ASCII characters. */
  predicate AsciiChars(path: string) {
    forall i :: 0 <= i < |path| ==> 0 < path[i] as int < 128
  }

  /** An ASCII path is written as its own bytes, holds no NUL, and the
      extractor's decoding gives it back. */
  lemma PathBytes(path: string, euckr: NameEncoder)
    requires AsciiChars(path) && AsciiCompatible(euckr)
    ensures NameBytes(path, euckr) == Some(Encode(path)) && NameOf(path, euckr) == Encode(path)
    ensures Bytes.Decode(Encode(path)) == path
    ensures forall i :: 0 <= i < |path| ==> Encode(path)[i] != 0
  {
    assert Ascii(path);
    var s := Bytes.Decode(Encode(path));
    assert forall i :: 0 <= i < |path| ==> s[i] as int == path[i] as int;
  }

  // ---------------------------------------------------------------------------
  // The file table
  // ---------------------------------------------------------------------------

  /** One table record: name bytes, stored size (written twice: as the
      compressed and the aligned size), original size, flags, and the offset
      of the body counted from the end of the header. */
  datatype Row = Row(name: seq<byte>, csize: nat, usize: nat, flags: byte, offset: nat)

  /** Every number of the row fits `struct.pack('<I', ...)`. */
  predicate Fits(r: Row) {
    r.csize < U32_LIMIT && r.usize < U32_LIMIT && r.offset < U32_LIMIT
  }

  predicate AllFit(rows: seq<Row>) {
    forall i :: 0 <= i < |rows| ==> Fits(rows[i])
  }

  function RowBytes(r: Row): (b: seq<byte>)
    requires Fits(r)
    ensures |b| == |r.name| + 1 + GrfVfs.RECORD_SIZE
  {
    r.name + [0] + GrfVfs.RecordBytes(r.csize, r.csize, r.usize, r.flags, r.offset)
  }

  /** The table bytes: the records one after another. */
  function TableBytes(rows: seq<Row>): seq<byte>
    requires AllFit(rows)
  {
    if rows == [] then [] else RowBytes(rows[0]) + TableBytes(rows[1..])
  }

  lemma {:induction false} TableBytesSnoc(rows: seq<Row>, r: Row)
    requires AllFit(rows) && Fits(r)
    ensures AllFit(rows + [r]) && TableBytes(rows + [r]) == TableBytes(rows) + RowBytes(r)
  {
    if rows != [] {
      assert (rows + [r])[1..] == rows[1..] + [r];
      TableBytesSnoc(rows[1..], r);
      assert (rows + [r])[0] == rows[0];
    } else {
      assert [r][1..] == [];
    }
  }

  /** `_build_file_table`, given the rows in table order. */
  method BuildFileTable(rows: seq<Row>) returns (table: seq<byte>)
    requires AllFit(rows)
    ensures table == TableBytes(rows)
  {
    table := [];
    var i := 0;
    while i < |rows|
      invariant 0 <= i <= |rows|
      invariant table == TableBytes(rows[..i])
    {
      TableBytesSnoc(rows[..i], rows[i]);
      assert rows[..i + 1] == rows[..i] + [rows[i]];
      table := table + rows[i].name + [0];
      table := table + U32Bytes(rows[i].csize) + U32Bytes(rows[i].csize) + U32Bytes(rows[i].usize);
      table := table + [rows[i].flags] + U32Bytes(rows[i].offset);
      i := i + 1;
    }
    assert rows[..i] == rows;
  }

  /** The path key the VFS gives a row. */
  function VfsKey(r: Row): string {
    GrfVfs.Normalize(Bytes.Decode(r.name))
  }

  /** A row the VFS table parse accepts: a name of 1 to 260 bytes without
      NUL, a file flag, and sizes and offset within the VFS sanity limits. */
  predicate VfsReadable(r: Row) {
    && 1 <= |r.name| <= GrfVfs.MAX_NAME && (forall i :: 0 <= i < |r.name| ==> r.name[i] != 0)
    && r.flags != 0 && r.csize <= GrfVfs.MAX_ALIGNED && r.usize <= GrfVfs.MAX_UNCOMPRESSED
    && r.offset <= GrfVfs.MAX_OFFSET
  }

  /** The VFS index entry a row stands for. */
  function VfsEntry(r: Row, grf: string, priority: int): (p: (string, GrfVfs.Entry))
    requires VfsReadable(r)
    ensures p.0 == VfsKey(r) == p.1.path
  {
    GrfVfs.NewEntry(r.name, r.csize, r.usize, r.flags, r.offset, grf, priority)
  }

  function VfsEntries(rows: seq<Row>, grf: string, priority: int): (r: seq<(string, GrfVfs.Entry)>)
    requires forall i :: 0 <= i < |rows| ==> VfsReadable(rows[i])
    ensures |r| == |rows|
  {
    if rows == [] then [] else [VfsEntry(rows[0], grf, priority)] + VfsEntries(rows[1..], grf, priority)
  }

  /** The loop state before the `k`-th row: past the first `k` rows, with
      their entries appended. */
  function StateAt(at: nat, rows: seq<Row>, entries: seq<(string, GrfVfs.Entry)>, count: nat, grf: string,
                   priority: int, k: nat): (s: GrfVfs.TableState)
    requires AllFit(rows) && (forall i :: 0 <= i < |rows| ==> VfsReadable(rows[i])) && k <= |rows|
    ensures s.count == count + k && |s.entries| == |entries| + k
  {
    GrfVfs.TableState(at + |TableBytes(rows[..k])|, entries + VfsEntries(rows[..k], grf, priority), count + k)
  }

  /** Pass `k` of the VFS table loop goes from the state before row `k` to
      the state before row `k + 1`. */
  predicate PassOk(data: seq<byte>, at: nat, rows: seq<Row>, entries: seq<(string, GrfVfs.Entry)>, count: nat,
                   grf: string, priority: int, k: nat)
    requires AllFit(rows) && (forall i :: 0 <= i < |rows| ==> VfsReadable(rows[i])) && k < |rows|
  {
    && StateAt(at, rows, entries, count, grf, priority, k).offset < |data|
    && GrfVfs.TableStep(data, grf, priority, StateAt(at, rows, entries, count, grf, priority, k))
       == Some(StateAt(at, rows, entries, count, grf, priority, k + 1))
  }

  lemma StateAtNext(at: nat, rows: seq<Row>, entries: seq<(string, GrfVfs.Entry)>, count: nat, grf: string,
                    priority: int, k: nat)
    requires AllFit(rows) && (forall i :: 0 <= i < |rows| ==> VfsReadable(rows[i])) && k < |rows|
    ensures var s := StateAt(at, rows, entries, count, grf, priority, k);
            StateAt(at, rows, entries, count, grf, priority, k + 1)
            == GrfVfs.TableState(s.offset + |RowBytes(rows[k])|, s.entries + [VfsEntry(rows[k], grf, priority)], s.count + 1)
  {
    assert rows[..k + 1] == rows[..k] + [rows[k]];
    TableBytesSnoc(rows[..k], rows[k]);
    VfsEntriesSnoc(rows[..k], rows[k], grf, priority);
  }

  lemma {:induction false} VfsEntriesSnoc(rows: seq<Row>, r: Row, grf: string, priority: int)
    requires (forall i :: 0 <= i < |rows| ==> VfsReadable(rows[i])) && VfsReadable(r)
    ensures VfsEntries(rows + [r], grf, priority) == VfsEntries(rows, grf, priority) + [VfsEntry(r, grf, priority)]
  {
    if rows != [] {
      assert (rows + [r])[1..] == rows[1..] + [r];
      VfsEntriesSnoc(rows[1..], r, grf, priority);
    }
  }

  lemma {:induction false} VfsEntriesKeys(rows: seq<Row>, grf: string, priority: int)
    requires forall i :: 0 <= i < |rows| ==> VfsReadable(rows[i])
    ensures forall j :: 0 <= j < |rows| ==> Keys(VfsEntries(rows, grf, priority))[j] == VfsKey(rows[j])
  {
    if rows != [] {
      VfsEntriesKeys(rows[1..], grf, priority);
      var t := VfsEntries(rows, grf, priority);
      assert forall j :: 1 <= j < |rows| ==> t[j] == VfsEntries(rows[1..], grf, priority)[j - 1];
    }
  }

  lemma MiddleAt(data: seq<byte>, at: nat, a: seq<byte>, b: seq<byte>, c: seq<byte>, p: nat)
    requires at <= |data| && data[at..] == a + b + c && p == at + |a|
    ensures p + |b| <= |data| && data[p..p + |b|] == b
  {
    assert data[p..p + |b|] == (a + b + c)[|a|..|a| + |b|];
  }

  /** Row `k` sits at the offset of the state before it, readable there,
      and its key is not yet among that state's entries. */
  predicate RowPlaced(data: seq<byte>, at: nat, rows: seq<Row>, entries: seq<(string, GrfVfs.Entry)>, count: nat,
                      grf: string, priority: int, k: nat)
    requires AllFit(rows) && (forall i :: 0 <= i < |rows| ==> VfsReadable(rows[i])) && k < |rows|
  {
    var s := StateAt(at, rows, entries, count, grf, priority, k);
    GrfVfs.RecordReadable(data, s.offset, rows[k].name, rows[k].csize, rows[k].usize, rows[k].flags, rows[k].offset,
                          s.entries)
  }

  /** Row `k`, laid out where the state before it stands and with a key new
      to that state, is placed. */
  lemma RowPlacedAt(data: seq<byte>, at: nat, rows: seq<Row>, grf: string, priority: int,
                    entries: seq<(string, GrfVfs.Entry)>, count: nat, k: nat, p: nat, e: seq<(string, GrfVfs.Entry)>)
    requires AllFit(rows) && (forall i :: 0 <= i < |rows| ==> VfsReadable(rows[i])) && k < |rows|
    requires StateAt(at, rows, entries, count, grf, priority, k) == GrfVfs.TableState(p, e, count + k)
    requires p + |RowBytes(rows[k])| <= |data| && data[p..p + |RowBytes(rows[k])|] == RowBytes(rows[k])
    requires VfsKey(rows[k]) !in Keys(e)
    ensures RowPlaced(data, at, rows, entries, count, grf, priority, k)
  {
    RowLaidOut(data, p, rows[k], e);
  }

  /** Pass `k` of the VFS table loop reads row `k`. */
  lemma RowStepAt(data: seq<byte>, at: nat, rows: seq<Row>, grf: string, priority: int,
                  entries: seq<(string, GrfVfs.Entry)>, count: nat, k: nat)
    requires AllFit(rows) && forall i :: 0 <= i < |rows| ==> VfsReadable(rows[i])
    requires count == |entries| && k < |rows|
    requires RowPlaced(data, at, rows, entries, count, grf, priority, k)
    ensures PassOk(data, at, rows, entries, count, grf, priority, k)
  {
    var s := StateAt(at, rows, entries, count, grf, priority, k);
    StateAtNext(at, rows, entries, count, grf, priority, k);
    RowParsedByVfs(data, s.offset, rows[k], grf, priority, s.entries, s.count);
  }

  lemma AllPasses(data: seq<byte>, at: nat, rows: seq<Row>, grf: string, priority: int,
                  entries: seq<(string, GrfVfs.Entry)>, count: nat)
    requires AllFit(rows) && forall i :: 0 <= i < |rows| ==> VfsReadable(rows[i])
    requires count == |entries|
    requires forall i :: 0 <= i < |rows| ==> RowPlaced(data, at, rows, entries, count, grf, priority, i)
    ensures forall i :: 0 <= i < |rows| ==> PassOk(data, at, rows, entries, count, grf, priority, i)
  {
    forall i | 0 <= i < |rows|
      ensures PassOk(data, at, rows, entries, count, grf, priority, i)
    {
      RowStepAt(data, at, rows, grf, priority, entries, count, i);
    }
  }

  /** Row `k` of a table written at `at` sits past the first `k` rows. */
  lemma RowBytesAt(data: seq<byte>, at: nat, rows: seq<Row>, k: nat, p: nat)
    requires AllFit(rows) && at <= |data| && data[at..] == TableBytes(rows) && k < |rows|
    requires AllFit(rows[..k]) && p == at + |TableBytes(rows[..k])|
    ensures Fits(rows[k])
    ensures p + |RowBytes(rows[k])| <= |data| && data[p..p + |RowBytes(rows[k])|] == RowBytes(rows[k])
  {
    TableBytesAround(rows, k);
    MiddleAt(data, at, TableBytes(rows[..k]), RowBytes(rows[k]), TableBytes(rows[k + 1..]), p);
  }

  /** The table is the rows before `k`, row `k` and the rows after it. */
  lemma TableBytesAround(rows: seq<Row>, k: nat)
    requires AllFit(rows) && k < |rows|
    ensures AllFit(rows[..k]) && Fits(rows[k]) && AllFit(rows[k + 1..])
    ensures TableBytes(rows) == TableBytes(rows[..k]) + RowBytes(rows[k]) + TableBytes(rows[k + 1..])
  {
    TableBytesCut(rows, k);
    TableBytesUncons(rows, k);
    AppendAssoc(TableBytes(rows[..k]), RowBytes(rows[k]), TableBytes(rows[k + 1..]));
  }

  /** The table is the bytes of its first `n` rows followed by the rest. */
  lemma {:induction false} TableBytesCut(rows: seq<Row>, n: nat)
    requires AllFit(rows) && n <= |rows|
    ensures AllFit(rows[..n]) && AllFit(rows[n..])
    ensures TableBytes(rows) == TableBytes(rows[..n]) + TableBytes(rows[n..])
  {
    if n == 0 {
      assert rows[..0] == [] && rows[0..] == rows;
    } else {
      TableBytesCut(rows, n - 1);
      TableBytesUncons(rows, n - 1);
      TableBytesPrefixSnoc(rows, n - 1);
      AppendAssoc(TableBytes(rows[..n - 1]), RowBytes(rows[n - 1]), TableBytes(rows[n..]));
    }
  }

  lemma TableBytesUncons(rows: seq<Row>, n: nat)
    requires AllFit(rows) && n < |rows|
    ensures AllFit(rows[n..]) && AllFit(rows[n + 1..])
    ensures TableBytes(rows[n..]) == RowBytes(rows[n]) + TableBytes(rows[n + 1..])
  {
    assert rows[n..][1..] == rows[n + 1..];
  }

  lemma TableBytesPrefixSnoc(rows: seq<Row>, n: nat)
    requires AllFit(rows) && n < |rows|
    ensures AllFit(rows[..n]) && AllFit(rows[..n + 1])
    ensures TableBytes(rows[..n + 1]) == TableBytes(rows[..n]) + RowBytes(rows[n])
  {
    assert rows[..n + 1] == rows[..n] + [rows[n]];
    TableBytesSnoc(rows[..n], rows[n]);
  }

  /** Row `k`'s key is not among the entries before it. */
  lemma KeyFreshAt(rows: seq<Row>, entries: seq<(string, GrfVfs.Entry)>, grf: string, priority: int, k: nat)
    requires AllFit(rows) && (forall i :: 0 <= i < |rows| ==> VfsReadable(rows[i])) && k < |rows|
    requires forall i :: 0 <= i < |rows| ==> VfsKey(rows[i]) !in Keys(entries)
    requires forall i, j :: 0 <= i < j < |rows| ==> VfsKey(rows[i]) != VfsKey(rows[j])
    ensures VfsKey(rows[k]) !in Keys(entries + VfsEntries(rows[..k], grf, priority))
  {
    var front := VfsEntries(rows[..k], grf, priority);
    VfsEntriesKeys(rows[..k], grf, priority);
    KeysConcat(entries, front);
    assert forall j :: 0 <= j < k ==> Keys(front)[j] == VfsKey(rows[j]);
  }

  /** One step of the VFS table loop over a written row. */
  lemma RowParsedByVfs(data: seq<byte>, at: nat, r: Row, grf: string, priority: int,
                       entries: seq<(string, GrfVfs.Entry)>, count: nat)
    requires Fits(r) && VfsReadable(r) && count == |entries|
    requires GrfVfs.RecordReadable(data, at, r.name, r.csize, r.usize, r.flags, r.offset, entries)
    ensures at < |data|
    ensures GrfVfs.TableStep(data, grf, priority, GrfVfs.TableState(at, entries, count))
            == Some(GrfVfs.TableState(at + |RowBytes(r)|, entries + [VfsEntry(r, grf, priority)], count + 1))
  {
    GrfVfs.RecordStep(data, at, r.name, r.csize, r.usize, r.flags, r.offset, grf, priority, entries,
                      count, at + |RowBytes(r)|);
  }

  /** Where the VFS finds the name and the fields of a written row. */
  lemma RowLaidOut(data: seq<byte>, at: nat, r: Row, entries: seq<(string, GrfVfs.Entry)>)
    requires Fits(r) && VfsReadable(r) && VfsKey(r) !in Keys(entries)
    requires at + |RowBytes(r)| <= |data| && data[at..at + |RowBytes(r)|] == RowBytes(r)
    ensures GrfVfs.RecordReadable(data, at, r.name, r.csize, r.usize, r.flags, r.offset, entries)
  {
    GrfVfs.RecordReadableAt(data, at, r.name, r.csize, r.csize, r.usize, r.flags, r.offset, entries);
  }

  /** A whole table the editor writes parses, in the VFS, into exactly the
      entries it was written from: same names, sizes, flags and offsets. */
  lemma TableReadByVfs(rows: seq<Row>, grf: string, priority: int)
    requires AllFit(rows) && forall i :: 0 <= i < |rows| ==> VfsReadable(rows[i])
    requires forall i, j :: 0 <= i < j < |rows| ==> VfsKey(rows[i]) != VfsKey(rows[j])
    requires |rows| <= GrfVfs.MAX_ENTRIES
    ensures GrfVfs.ParseTable(TableBytes(rows), grf, priority) == VfsEntries(rows, grf, priority)
  {
    var data := TableBytes(rows);
    forall i | 0 <= i < |rows|
      ensures RowPlaced(data, 0, rows, [], 0, grf, priority, i)
    {
      KeyFreshAt(rows, [], grf, priority, i);
      RowInTable(rows, grf, priority, i);
    }
    AllPasses(data, 0, rows, grf, priority, [], 0);
    ParsedFrom(data, 0, rows, grf, priority, [], 0, 0);
    assert rows[..0] == [];
    assert StateAt(0, rows, [], 0, grf, priority, 0) == GrfVfs.TableState(0, [], 0);
  }

  /** Each row of a written table with distinct keys is placed. */
  lemma RowInTable(rows: seq<Row>, grf: string, priority: int, i: nat)
    requires AllFit(rows) && (forall i :: 0 <= i < |rows| ==> VfsReadable(rows[i])) && i < |rows|
    requires VfsKey(rows[i]) !in Keys([] + VfsEntries(rows[..i], grf, priority))
    ensures RowPlaced(TableBytes(rows), 0, rows, [], 0, grf, priority, i)
  {
    var data := TableBytes(rows);
    var p := 0 + |TableBytes(rows[..i])|;
    assert AllFit(rows[..i]);
    RowBytesAt(data, 0, rows, i, p);
    RowPlacedAt(data, 0, rows, grf, priority, [], 0, i, p, [] + VfsEntries(rows[..i], grf, priority));
  }

  /** From the state before row `k`, the VFS loop ends with the entries of
      all rows. */
  lemma {:induction false} ParsedFrom(data: seq<byte>, at: nat, rows: seq<Row>, grf: string, priority: int,
                                      entries: seq<(string, GrfVfs.Entry)>, count: nat, k: nat)
    requires AllFit(rows) && (forall i :: 0 <= i < |rows| ==> VfsReadable(rows[i])) && k <= |rows|
    requires at + |TableBytes(rows)| == |data| && count + |rows| <= GrfVfs.MAX_ENTRIES
    requires forall i :: k <= i < |rows| ==> PassOk(data, at, rows, entries, count, grf, priority, i)
    ensures GrfVfs.ParseFrom(data, grf, priority, StateAt(at, rows, entries, count, grf, priority, k))
            == entries + VfsEntries(rows, grf, priority)
    decreases |rows| - k
  {
    if k == |rows| {
      assert rows[..k] == rows;
    } else {
      assert PassOk(data, at, rows, entries, count, grf, priority, k);
      GrfVfs.ParseFromStep(data, grf, priority, StateAt(at, rows, entries, count, grf, priority, k),
                           StateAt(at, rows, entries, count, grf, priority, k + 1));
      ParsedFrom(data, at, rows, grf, priority, entries, count, k + 1);
    }
  }


  /** The extractor's entry for a row. */
  function ListedEntry(r: Row): BaseExtractor.FileEntry
    requires Fits(r)
  {
    GrfExtractor.RecordEntry(r.name, r.csize, r.usize, r.flags, r.offset)
  }

  function ListedEntries(rows: seq<Row>): (r: seq<BaseExtractor.FileEntry>)
    requires AllFit(rows)
    ensures |r| == |rows|
  {
    if rows == [] then [] else [ListedEntry(rows[0])] + ListedEntries(rows[1..])
  }

  /** A name with no NUL byte and a non-zero flag byte. */
  predicate Listable(r: Row) {
    r.flags != 0 && forall i :: 0 <= i < |r.name| ==> r.name[i] != 0
  }

  lemma {:induction false} RowsListed(data: seq<byte>, at: nat, rows: seq<Row>, files: seq<BaseExtractor.FileEntry>)
    requires AllFit(rows) && forall i :: 0 <= i < |rows| ==> Listable(rows[i])
    requires at <= |data| && data[at..] == TableBytes(rows)
    ensures GrfExtractor.ListFrom(data, GrfExtractor.ListState(at, files)) == files + ListedEntries(rows)
    decreases |rows|
  {
    hide GrfExtractor.ListFrom, GrfExtractor.ListStep;
    if rows == [] {
      RowsListedEnd(data, at, files);
      assert ListedEntries(rows) == [];
    } else {
      var rest, e := rows[1..], ListedEntry(rows[0]);
      var next := at + |RowBytes(rows[0])|;
      RowsListedStep(data, at, rows, files);
      hide GrfExtractor.ListFrom, GrfExtractor.ListStep, ListedEntries, ListedEntry, TableBytes, RowBytes, Listable;
      RowsListed(data, next, rest, files + [e]);
      AppendFront(files, e, ListedEntries(rest));
    }
  }

  /** At the end of the data the listing stops. */
  lemma RowsListedEnd(data: seq<byte>, at: nat, files: seq<BaseExtractor.FileEntry>)
    requires at <= |data| && data[at..] == []
    ensures GrfExtractor.ListFrom(data, GrfExtractor.ListState(at, files)) == files
  {
    assert |data[at..]| == 0;
  }

  /** One row of the table read: the listing continues after it with its
      entry appended, and the rest of the table follows it. */
  lemma RowsListedStep(data: seq<byte>, at: nat, rows: seq<Row>, files: seq<BaseExtractor.FileEntry>)
    requires AllFit(rows) && rows != [] && forall i :: 0 <= i < |rows| ==> Listable(rows[i])
    requires at <= |data| && data[at..] == TableBytes(rows)
    ensures AllFit(rows[1..]) && forall i :: 0 <= i < |rows[1..]| ==> Listable(rows[1..][i])
    ensures at + |RowBytes(rows[0])| <= |data| && data[at + |RowBytes(rows[0])|..] == TableBytes(rows[1..])
    ensures ListedEntries(rows) == [ListedEntry(rows[0])] + ListedEntries(rows[1..])
    ensures GrfExtractor.ListFrom(data, GrfExtractor.ListState(at, files))
            == GrfExtractor.ListFrom(data, GrfExtractor.ListState(at + |RowBytes(rows[0])|, files + [ListedEntry(rows[0])]))
  {
    hide GrfExtractor.ListStep, GrfExtractor.ListFrom;
    var r := rows[0];
    var s, t := GrfExtractor.ListState(at, files), GrfExtractor.ListState(at + |RowBytes(r)|, files + [ListedEntry(r)]);
    TableSplit(data, at, rows);
    assert at < |data| && GrfExtractor.ListStep(data, s) == Some(t) by {
      hide TableBytes;
      RowListed(data, at, r, files);
    }
    assert GrfExtractor.ListFrom(data, s) == GrfExtractor.ListFrom(data, t) by {
      hide TableBytes, RowBytes, ListedEntry;
      GrfExtractor.ListFromStep(data, s, t);
    }
  }

  lemma AppendFront<T>(a: seq<T>, x: T, b: seq<T>)
    ensures a + [x] + b == a + ([x] + b)
  {
  }

  /** A table laid out at `at` starts with its first row, followed by the rest. */
  lemma TableSplit(data: seq<byte>, at: nat, rows: seq<Row>)
    requires AllFit(rows) && rows != [] && at <= |data| && data[at..] == TableBytes(rows)
    ensures AllFit(rows[1..])
    ensures at + |RowBytes(rows[0])| <= |data| && data[at..at + |RowBytes(rows[0])|] == RowBytes(rows[0])
    ensures data[at + |RowBytes(rows[0])|..] == TableBytes(rows[1..])
  {
    var rec := RowBytes(rows[0]);
    assert data[at..] == rec + TableBytes(rows[1..]);
    assert data[at..at + |rec|] == data[at..][..|rec|];
    assert data[at + |rec|..] == data[at..][|rec|..];
  }

  /** One step of the extractor's table loop over a written row. */
  lemma RowListed(data: seq<byte>, at: nat, r: Row, files: seq<BaseExtractor.FileEntry>)
    requires Fits(r) && Listable(r)
    requires at + |RowBytes(r)| <= |data| && data[at..at + |RowBytes(r)|] == RowBytes(r)
    ensures at < |data|
    ensures GrfExtractor.ListStep(data, GrfExtractor.ListState(at, files))
            == Some(GrfExtractor.ListState(at + |RowBytes(r)|, files + [ListedEntry(r)]))
  {
    GrfExtractor.RecordStep(data, at, r.name, r.csize, r.csize, r.usize, r.flags, r.offset, files);
  }

  /** The extractor lists exactly the files the table was written from, in
      table order. */
  lemma TableReadByExtractor(rows: seq<Row>)
    requires AllFit(rows) && forall i :: 0 <= i < |rows| ==> Listable(rows[i])
    ensures GrfExtractor.ParseFileList(TableBytes(rows)) == ListedEntries(rows)
  {
    RowsListed(TableBytes(rows), 0, rows, []);
  }

  // ---------------------------------------------------------------------------
  // The header
  // ---------------------------------------------------------------------------

  /** `_build_header`: signature, 15 zero key bytes, table offset, seed 1,
      file count + 7, version. */
  function BuildHeader(fileCount: nat, tableOffset: nat, version: u32): (h: seq<byte>)
    requires fileCount + 7 < U32_LIMIT && tableOffset < U32_LIMIT
    ensures |h| == HEADER_SIZE && h[..15] == GrfExtractor.SIGNATURE
  {
    GrfExtractor.SIGNATURE + Fill(15, 0) + U32Bytes(tableOffset) + U32Bytes(SEED) + U32Bytes(fileCount + 7)
    + U32Bytes(version)
  }

  /** The extractor reads back the count and the table offset the header was
      built with, and its version. */
  lemma HeaderRoundTrip(fileCount: nat, tableOffset: nat, version: u32, rest: seq<byte>)
    requires fileCount + 7 < U32_LIMIT && tableOffset < U32_LIMIT
    ensures GrfExtractor.ParseHeader(BuildHeader(fileCount, tableOffset, version) + rest)
            == Some(GrfExtractor.Header(tableOffset, fileCount, version))
  {
    var p := GrfExtractor.SIGNATURE + Fill(15, 0);
    var h := BuildHeader(fileCount, tableOffset, version);
    var b := h + rest;
    assert b[..15] == h[..15];
    U32Within(p, tableOffset, U32Bytes(SEED) + U32Bytes(fileCount + 7) + U32Bytes(version) + rest);
    assert b == p + U32Bytes(tableOffset) + (U32Bytes(SEED) + U32Bytes(fileCount + 7) + U32Bytes(version) + rest);
    var p2 := p + U32Bytes(tableOffset) + U32Bytes(SEED);
    U32Within(p2, fileCount + 7, U32Bytes(version) + rest);
    assert b == p2 + U32Bytes(fileCount + 7) + (U32Bytes(version) + rest);
    var p3 := p2 + U32Bytes(fileCount + 7);
    U32Within(p3, version, rest);
    assert b == p3 + U32Bytes(version) + rest;
  }

  // ---------------------------------------------------------------------------
  // Laying out the archive
  // ---------------------------------------------------------------------------

  /** The items of `files` under the given keys, in the keys' order. */
  function ItemsFor(files: seq<(string, FileRecord)>, keys: seq<string>): (items: seq<(string, FileRecord)>)
    requires forall i :: 0 <= i < |keys| ==> keys[i] in Keys(files)
    ensures Keys(items) == keys
    ensures forall i :: 0 <= i < |items| ==> Get(files, items[i].0) == Some(items[i].1)
  {
    var items := seq(|keys|, i requires 0 <= i < |keys| => (keys[i], Get(files, keys[i]).value));
    assert Keys(items) == keys;
    items
  }

  /** `sorted(self.files.items())`: the files in ascending key order. */
  function SortedItems(files: seq<(string, FileRecord)>): (items: seq<(string, FileRecord)>)
    ensures Keys(items) == Sort(Keys(files))
    ensures forall i :: 0 <= i < |items| ==> Get(files, items[i].0) == Some(items[i].1)
  {
    SortKeepsMembers(Keys(files));
    ItemsFor(files, Sort(Keys(files)))
  }

  lemma SortKeepsMembers(xs: seq<string>)
    ensures forall i :: 0 <= i < |Sort(xs)| ==> Sort(xs)[i] in xs
  {
    var r := Sort(xs);
    forall i | 0 <= i < |r| ensures r[i] in xs {
      assert r[i] in multiset(r);
    }
  }

  /** Sorting a dict's items keeps every item, drops none and repeats none,
      and puts the keys in strictly ascending order. */
  lemma SortedItemsAreFiles(files: seq<(string, FileRecord)>)
    requires Distinct(files)
    ensures |SortedItems(files)| == |files|
    ensures StrictlySorted(Keys(SortedItems(files))) && Distinct(SortedItems(files))
    ensures forall p :: p in SortedItems(files) <==> p in files
  {
    var items := SortedItems(files);
    var keys := Keys(files);
    assert NoRepeats(keys);
    SortNoRepeats(keys);
    assert |items| == |Keys(items)|;
    forall i, j | 0 <= i < j < |items| ensures items[i].0 != items[j].0 {
      StrictlySortedDistinct(Keys(items), i, j);
    }
    forall p | p in items ensures p in files {
      var i :| 0 <= i < |items| && items[i] == p;
      var k := GetSome(files, p.0);
    }
    forall p | p in files ensures p in items {
      var k :| 0 <= k < |files| && files[k] == p;
      GetAt(files, k);
      assert p.0 == keys[k] && p.0 in multiset(keys);
      assert p.0 in multiset(Keys(items));
      var i :| 0 <= i < |items| && Keys(items)[i] == p.0;
      assert items[i] == p;
    }
  }

  /** Where a row's body ends. */
  function End(r: Row): nat {
    r.offset + r.csize
  }

  /** The numbers `_build_file_table` writes for a file: the size of what
      was written (as both compressed and aligned size), the original size
      and the flags. */
  predicate RowOf(r: Row, rec: FileRecord, compress: Compressor) {
    r.csize == |Stored(rec, compress)| && r.usize == |rec.data| && r.flags == rec.flags
  }

  /** Every path of the items encodes, so `_build_file_table` does not raise. */
  predicate Named(items: seq<(string, FileRecord)>, euckr: NameEncoder) {
    forall i :: 0 <= i < |items| ==> NameBytes(items[i].1.path, euckr).Some?
  }

  /** The bodies `_write_grf` writes after the header, in item order, with the
      row of each; offsets count from the end of the header. */
  function Layout(items: seq<(string, FileRecord)>, compress: Compressor, euckr: NameEncoder): (r: (seq<byte>, seq<Row>))
    ensures |r.1| == |items|
    ensures forall i :: 0 <= i < |items| ==> RowOf(r.1[i], items[i].1, compress)
    ensures forall i :: 0 <= i < |items| ==> r.1[i].name == NameOf(items[i].1.path, euckr)
    ensures |items| == 0 ==> r.0 == []
    ensures |items| > 0 ==> r.1[0].offset == 0 && End(r.1[|items| - 1]) == |r.0|
    ensures forall i :: 0 < i < |items| ==> r.1[i].offset == End(r.1[i - 1])
    decreases |items|
  {
    if items == [] then ([], [])
    else
      var n := |items| - 1;
      var prev := Layout(items[..n], compress, euckr);
      var body := Stored(items[n].1, compress);
      assert forall i :: 0 <= i < n ==> items[..n][i] == items[i];
      (prev.0 + body, prev.1 + [Row(NameOf(items[n].1.path, euckr), |body|, |items[n].1.data|, items[n].1.flags, |prev.0|)])
  }

  /** Each row points at exactly the bytes written for its file. */
  lemma LayoutSlices(items: seq<(string, FileRecord)>, compress: Compressor, euckr: NameEncoder)
    ensures var r := Layout(items, compress, euckr);
            forall i :: 0 <= i < |items| ==> End(r.1[i]) <= |r.0| && r.0[r.1[i].offset..End(r.1[i])] == Stored(items[i].1, compress)
  {
    forall i | 0 <= i < |items|
      ensures var r := Layout(items, compress, euckr);
              End(r.1[i]) <= |r.0| && r.0[r.1[i].offset..End(r.1[i])] == Stored(items[i].1, compress)
    {
      LayoutSliceAt(items, compress, euckr, i);
    }
  }

  lemma {:induction false} LayoutSliceAt(items: seq<(string, FileRecord)>, compress: Compressor, euckr: NameEncoder, i: nat)
    requires i < |items|
    ensures var r := Layout(items, compress, euckr);
            End(r.1[i]) <= |r.0| && r.0[r.1[i].offset..End(r.1[i])] == Stored(items[i].1, compress)
    decreases |items|
  {
    var n := |items| - 1;
    var p := Layout(items[..n], compress, euckr);
    var body := Stored(items[n].1, compress);
    LayoutSnoc(items, n, compress, euckr);
    assert items[..n + 1] == items;
    var r := Layout(items, compress, euckr);
    assert r.0 == p.0 + body && r.1[..n] == p.1 && r.1[n].offset == |p.0| && End(r.1[n]) == |p.0| + |body|;
    hide Layout, Stored;
    if i < n {
      LayoutSliceAt(items[..n], compress, euckr, i);
      assert items[..n][i] == items[i];
      assert r.1[i] == p.1[i];
      KeptSlice(p.0, body, p.1[i].offset, End(p.1[i]), Stored(items[i].1, compress));
    } else {
      AppendedSlice(p.0, body);
    }
  }

  lemma KeptSlice<T>(a: seq<T>, b: seq<T>, lo: nat, hi: nat, s: seq<T>)
    requires lo <= hi <= |a| && a[lo..hi] == s
    ensures hi <= |a + b| && (a + b)[lo..hi] == s
  {
    PrefixSlice(a, b, lo, hi);
  }

  lemma AppendedSlice<T>(a: seq<T>, b: seq<T>)
    ensures (a + b)[|a|..|a| + |b|] == b
  {
  }

  lemma PrefixSlice<T>(a: seq<T>, b: seq<T>, lo: nat, hi: nat)
    requires lo <= hi <= |a|
    ensures (a + b)[lo..hi] == a[lo..hi]
  {
  }

  /** `_write_grf`'s output for the editor's files, or None where it raises:
      a name that neither EUC-KR nor latin-1 encodes, or a number one of its
      `struct.pack('<I', ...)` calls rejects. */
  function GrfImage(files: seq<(string, FileRecord)>, version: u32, compress: Compressor, euckr: NameEncoder)
    : Option<seq<byte>>
  {
    var items := SortedItems(files);
    if !Named(items, euckr) then None
    else
      var r := Layout(items, compress, euckr);
      Assemble(|files|, r.0, r.1, version, compress)
  }

  /** One file whose name neither EUC-KR nor latin-1 encodes fails the
      whole write, whatever the other files are. */
  lemma UnencodableNameFails(files: seq<(string, FileRecord)>, version: u32, compress: Compressor,
                             euckr: NameEncoder, k: nat)
    requires Distinct(files) && k < |files| && NameBytes(files[k].1.path, euckr).None?
    ensures GrfImage(files, version, compress, euckr) == None
  {
    SortedItemsAreFiles(files);
    var items := SortedItems(files);
    assert files[k] in items;
    var j :| 0 <= j < |items| && items[j] == files[k];
  }

  /** The archive made of the bodies `data` and the table of `rows`: the
      header with the file count and the table offset, the bodies, the
      packed and unpacked table sizes and the level-9 zlib table; None when a
      number does not fit four bytes. */
  function Assemble(count: nat, data: seq<byte>, rows: seq<Row>, version: u32, compress: Compressor)
    : (r: Option<seq<byte>>)
    ensures r.Some? <==> count + 7 < U32_LIMIT && AllFit(rows) && |data| < U32_LIMIT
                         && |TableBytes(rows)| < U32_LIMIT && |compress(TableBytes(rows), 9)| < U32_LIMIT
    ensures r.Some? ==> |r.value| == HEADER_SIZE + |data| + 8 + |compress(TableBytes(rows), 9)|
                        && r.value[..15] == GrfExtractor.SIGNATURE
  {
    if count + 7 >= U32_LIMIT || !AllFit(rows) || |data| >= U32_LIMIT then None
    else
      var table := TableBytes(rows);
      var packed := compress(table, 9);
      if |table| >= U32_LIMIT || |packed| >= U32_LIMIT then None
      else
        var header := BuildHeader(count, |data|, version);
        var image := header + data + U32Bytes(|packed|) + U32Bytes(|table|) + packed;
        assert image[..15] == header[..15];
        Some(image)
  }

  // ---------------------------------------------------------------------------
  // Reading a written archive back
  // ---------------------------------------------------------------------------

  /** zlib's decompression undoes its compression at every level, and a
      compressed stream is never empty. */
  ghost predicate Inverts(zlib: GrfExtractor.Zlib, compress: Compressor) {
    forall t: seq<byte>, level: int ::
      |compress(t, level)| > 0 && zlib(compress(t, level), 15) == GrfExtractor.Inflated(t)
  }

  /** Every path is made of non-zero ASCII characters. */
  predicate AsciiPaths(files: seq<(string, FileRecord)>) {
    forall i :: 0 <= i < |files| ==> AsciiChars(files[i].1.path)
  }

  /** The sorted items are items of the editor's dict. */
  lemma ItemsOfFiles(files: seq<(string, FileRecord)>, i: nat)
    requires WellKeyed(files) && i < |SortedItems(files)|
    ensures SortedItems(files)[i] in files
    ensures var p := SortedItems(files)[i];
            p.0 == Lower(p.1.path) && '/' !in p.1.path && p.1.flags == FLAG_FILE
  {
    SortedItemsAreFiles(files);
    var p := SortedItems(files)[i];
    assert p in files;
    var k :| 0 <= k < |files| && files[k] == p;
  }

  /** The rows of a well-keyed dict can be read back by the extractor. */
  lemma RowsListable(files: seq<(string, FileRecord)>, compress: Compressor, euckr: NameEncoder, rows: seq<Row>)
    requires WellKeyed(files) && AsciiPaths(files) && AsciiCompatible(euckr)
    requires rows == Layout(SortedItems(files), compress, euckr).1
    ensures forall i :: 0 <= i < |rows| ==> Listable(rows[i])
  {
    var items := SortedItems(files);
    forall i | 0 <= i < |rows| ensures Listable(rows[i]) {
      ItemsOfFiles(files, i);
      var k :| 0 <= k < |files| && files[k] == items[i];
      PathBytes(items[i].1.path, euckr);
    }
  }

  /** The extractor opens what the editor writes: it reads back the file
      count, the table offset and the version from the header, and lists one
      entry per file, in key order, with the name, sizes and offset written. */
  lemma ImageOpens(files: seq<(string, FileRecord)>, version: u32, compress: Compressor, euckr: NameEncoder,
                   zlib: GrfExtractor.Zlib)
    requires WellKeyed(files) && AsciiPaths(files) && AsciiCompatible(euckr) && Inverts(zlib, compress)
    requires GrfImage(files, version, compress, euckr).Some?
    ensures var r := Layout(SortedItems(files), compress, euckr);
            AllFit(r.1) &&
            GrfExtractor.OpenImage(GrfImage(files, version, compress, euckr), zlib)
            == Some(GrfExtractor.Opened(GrfExtractor.Header(|r.0|, |files|, version), ListedEntries(r.1)))
  {
    var r := Layout(SortedItems(files), compress, euckr);
    assert GrfImage(files, version, compress, euckr) == Assemble(|files|, r.0, r.1, version, compress);
    RowsListable(files, compress, euckr, r.1);
    AssembledOpens(|files|, r.0, r.1, version, compress, zlib);
  }

  /** The archive assembled from bodies and rows opens with the header
      fields it was built with and lists the rows' entries. */
  lemma AssembledOpens(count: nat, data: seq<byte>, rows: seq<Row>, version: u32, compress: Compressor,
                       zlib: GrfExtractor.Zlib)
    requires Assemble(count, data, rows, version, compress).Some? && Inverts(zlib, compress)
    requires forall i :: 0 <= i < |rows| ==> Listable(rows[i])
    ensures AllFit(rows)
    ensures GrfExtractor.OpenImage(Assemble(count, data, rows, version, compress), zlib)
            == Some(GrfExtractor.Opened(GrfExtractor.Header(|data|, count, version), ListedEntries(rows)))
  {
    var table := TableBytes(rows);
    var packed := compress(table, 9);
    var header := BuildHeader(count, |data|, version);
    assert Assemble(count, data, rows, version, compress)
           == Some(header + data + U32Bytes(|packed|) + U32Bytes(|table|) + packed);
    assert zlib(packed, 15) == GrfExtractor.Inflated(table);
    PartsOpen(count, data, version, packed, table, zlib);
    TableReadByExtractor(rows);
  }

  /** An image made of a header, the bodies, the two table sizes and the
      packed table opens with that header and the table's entries. */
  lemma PartsOpen(count: nat, data: seq<byte>, version: u32, packed: seq<byte>, table: seq<byte>,
                  zlib: GrfExtractor.Zlib)
    requires count + 7 < U32_LIMIT && |data| < U32_LIMIT && |packed| < U32_LIMIT && |table| < U32_LIMIT
    requires zlib(packed, 15) == GrfExtractor.Inflated(table)
    ensures GrfExtractor.OpenImage(Some(BuildHeader(count, |data|, version) + data + U32Bytes(|packed|)
                                        + U32Bytes(|table|) + packed), zlib)
            == Some(GrfExtractor.Opened(GrfExtractor.Header(|data|, count, version), GrfExtractor.ParseFileList(table)))
  {
    var header := BuildHeader(count, |data|, version);
    var img := header + data + U32Bytes(|packed|) + U32Bytes(|table|) + packed;
    var rest := data + U32Bytes(|packed|) + U32Bytes(|table|) + packed;
    RegroupFront(header, data, U32Bytes(|packed|), U32Bytes(|table|), packed);
    HeaderRoundTrip(count, |data|, version, rest);
    TablePartOpens(header + data, |packed|, |table|, packed);
    OpenImageSteps(img, zlib, GrfExtractor.Header(|data|, count, version), packed, table);
  }

  /** `open` on an image whose header, table sizes and table stream are known. */
  lemma OpenImageSteps(img: seq<byte>, zlib: GrfExtractor.Zlib, h: GrfExtractor.Header, packed: seq<byte>, table: seq<byte>)
    requires GrfExtractor.ParseHeader(img) == Some(h)
    requires GrfExtractor.HEADER_SIZE + h.tableOffset + 8 <= |img|
    requires var t := GrfExtractor.HEADER_SIZE + h.tableOffset;
             img[t + 8..GrfDecompression.Min(|img|, t + 8 + U32At(img, t))] == packed
    requires zlib(packed, 15) == GrfExtractor.Inflated(table)
    ensures GrfExtractor.OpenImage(Some(img), zlib) == Some(GrfExtractor.Opened(h, GrfExtractor.ParseFileList(table)))
  {
  }

  lemma RegroupFront<T>(h: seq<T>, d: seq<T>, a: seq<T>, b: seq<T>, p: seq<T>)
    ensures h + d + a + b + p == h + (d + a + b + p)
  {
  }

  /** After the bodies come the packed size, the unpacked size and the packed
      table, which is what the extractor slices out. */
  lemma TablePartOpens(front: seq<byte>, stored: u32, size: u32, packed: seq<byte>)
    requires |packed| == stored
    ensures var img := front + U32Bytes(stored) + U32Bytes(size) + packed;
            |front| + 8 <= |img| && U32At(img, |front|) == stored
            && img[|front| + 8..GrfDecompression.Min(|img|, |front| + 8 + stored)] == packed
  {
    U32Within(front, stored, U32Bytes(size) + packed);
    var img := front + U32Bytes(stored) + U32Bytes(size) + packed;
    assert img == front + U32Bytes(stored) + (U32Bytes(size) + packed);
    assert img[|front| + 8..] == packed;
  }

  // ---------------------------------------------------------------------------
  // Reading one file back
  // ---------------------------------------------------------------------------

  /** A file written with content reads back as that content: its flag is
      not an encryption flag, and it is either stored with equal sizes or
      inflates from its level-6 zlib form. */
  lemma StoredReadsBack(row: Row, rec: FileRecord, compress: Compressor, zlib: GrfExtractor.Zlib,
                        des: Option<GrfVfs.DesDecryptor>)
    requires Fits(row) && RowOf(row, rec, compress) && rec.flags == FLAG_FILE && |rec.data| > 0
    requires Inverts(zlib, compress)
    ensures |Stored(rec, compress)| > 0
    ensures GrfExtractor.DecompressFileData(ListedEntry(row), Stored(rec, compress), zlib, des) == Some(rec.data)
  {
    var e := ListedEntry(row);
    assert !e.isEncrypted by { assert (FLAG_FILE as bv8) & 6 == 0; }
    var stored := Stored(rec, compress);
    assert |compress(rec.data, 6)| > 0;
    if stored != rec.data {
      assert stored == compress(rec.data, 6) && |stored| < |rec.data|;
      assert zlib(stored, 15) == GrfExtractor.Inflated(rec.data);
      assert e.compressedSize == row.csize != e.size;
    }
  }

  /** The bodies sit right after the 46-byte header. */
  lemma BodiesFollowHeader<T>(h: seq<T>, d: seq<T>, a: seq<T>, b: seq<T>, p: seq<T>, lo: nat, hi: nat)
    requires lo <= hi <= |d|
    ensures (h + d + a + b + p)[|h| + lo..|h| + hi] == d[lo..hi]
  {
    var img := h + d + a + b + p;
    assert forall i :: |h| <= i < |h| + |d| ==> img[i] == d[i - |h|];
  }

  /** Any slice of the bodies is found in the image, shifted by the header. */
  lemma ImageHoldsBodies(count: nat, data: seq<byte>, rows: seq<Row>, version: u32, compress: Compressor,
                         lo: nat, hi: nat)
    requires Assemble(count, data, rows, version, compress).Some? && lo <= hi <= |data|
    ensures Assemble(count, data, rows, version, compress).value[HEADER_SIZE + lo..HEADER_SIZE + hi] == data[lo..hi]
  {
    var table := TableBytes(rows);
    var packed := compress(table, 9);
    var header := BuildHeader(count, |data|, version);
    assert Assemble(count, data, rows, version, compress)
           == Some(header + data + U32Bytes(|packed|) + U32Bytes(|table|) + packed);
    BodiesFollowHeader(header, data, U32Bytes(|packed|), U32Bytes(|table|), packed, lo, hi);
  }

  lemma {:induction false} ListedEntriesAt(rows: seq<Row>, i: nat)
    requires AllFit(rows) && i < |rows|
    ensures ListedEntries(rows)[i] == ListedEntry(rows[i])
    decreases i
  {
    if i > 0 {
      ListedEntriesAt(rows[1..], i - 1);
    }
  }

  /** On a path without forward slashes the extractor's key is the lower-cased path. */
  lemma LookupKeyOfStored(path: string)
    requires '/' !in path
    ensures GrfExtractor.LookupKey(path) == Lower(path)
  {
    assert GrfExtractor.LookupKey(path) == ReplaceChar(Lower(path), '/', '\\');
    assert forall i :: 0 <= i < |path| ==> Lower(path)[i] != '/';
  }

  /** The extractor finds the only entry under a key. */
  lemma FindOnly(entries: seq<BaseExtractor.FileEntry>, key: string, i: nat)
    requires i < |entries| && GrfExtractor.LookupKey(entries[i].path) == key
    requires forall j :: 0 <= j < |entries| && j != i ==> GrfExtractor.LookupKey(entries[j].path) != key
    ensures GrfExtractor.FindEntry(entries, key) == Some(entries[i])
  {
  }

  /** The entry listed for the j-th sorted item is found under that item's key. */
  lemma ListedKey(files: seq<(string, FileRecord)>, compress: Compressor, euckr: NameEncoder, items: seq<(string, FileRecord)>,
                  rows: seq<Row>, j: nat)
    requires WellKeyed(files) && AsciiPaths(files) && AsciiCompatible(euckr) && AllFit(rows)
    requires items == SortedItems(files) && rows == Layout(items, compress, euckr).1 && j < |rows|
    ensures GrfExtractor.LookupKey(ListedEntries(rows)[j].path) == items[j].0
  {
    ItemsOfFiles(files, j);
    var m :| 0 <= m < |files| && files[m] == items[j];
    ListedEntriesAt(rows, j);
    PathBytes(items[j].1.path, euckr);
    assert ListedEntries(rows)[j].path == items[j].1.path;
    LookupKeyOfStored(items[j].1.path);
  }

  /** The extractor reads every non-empty file back from the archive the
      editor writes, by the path it was added under. */
  lemma FileReadsBack(files: seq<(string, FileRecord)>, version: u32, compress: Compressor, euckr: NameEncoder,
                      zlib: GrfExtractor.Zlib, des: Option<GrfVfs.DesDecryptor>, k: nat)
    requires WellKeyed(files) && AsciiPaths(files) && AsciiCompatible(euckr) && Inverts(zlib, compress)
    requires GrfImage(files, version, compress, euckr).Some?
    requires k < |files| && |files[k].1.data| > 0
    ensures var r := Layout(SortedItems(files), compress, euckr);
            AllFit(r.1) &&
            GrfExtractor.ReadFile(GrfImage(files, version, compress, euckr).value, ListedEntries(r.1), files[k].1.path, zlib, des)
            == Some(files[k].1.data)
  {
    var items := SortedItems(files);
    var r := Layout(items, compress, euckr);
    var rows := r.1;
    assert GrfImage(files, version, compress, euckr) == Assemble(|files|, r.0, rows, version, compress);
    var img := GrfImage(files, version, compress, euckr).value;
    var entries := ListedEntries(rows);
    assert AllFit(rows);
    SortedItemsAreFiles(files);
    assert files[k] in items;
    var i :| 0 <= i < |items| && items[i] == files[k];
    var row := rows[i];
    hide GrfImage, Assemble, Layout, SortedItems;
    ListedFound(files, compress, euckr, i);
    ItemsOfFiles(files, i);
    assert End(row) <= |r.0| && r.0[row.offset..End(row)] == Stored(items[i].1, compress) by {
      LayoutSlices(items, compress, euckr);
    }
    BodyReadAt(img, |files|, r.0, rows, version, compress, row);
    EntryReadsBack(img, r.0, entries, files[k].1.path, row, items[i].1, compress, zlib, des);
  }

  /** The lookup of the i-th sorted item's path finds its listed entry. */
  lemma ListedFound(files: seq<(string, FileRecord)>, compress: Compressor, euckr: NameEncoder, i: nat)
    requires WellKeyed(files) && AsciiPaths(files) && AsciiCompatible(euckr) && i < |SortedItems(files)|
    requires AllFit(Layout(SortedItems(files), compress, euckr).1)
    ensures var rows := Layout(SortedItems(files), compress, euckr).1;
            GrfExtractor.FindEntry(ListedEntries(rows), GrfExtractor.LookupKey(SortedItems(files)[i].1.path))
            == Some(ListedEntry(rows[i]))
  {
    var items := SortedItems(files);
    var rows := Layout(items, compress, euckr).1;
    var entries := ListedEntries(rows);
    SortedItemsAreFiles(files);
    ItemsOfFiles(files, i);
    LookupKeyOfStored(items[i].1.path);
    hide Layout, SortedItems;
    forall j | 0 <= j < |entries|
      ensures GrfExtractor.LookupKey(entries[j].path) == items[j].0
    {
      ListedKey(files, compress, euckr, items, rows, j);
    }
    FindOnly(entries, items[i].0, i);
    ListedEntriesAt(rows, i);
  }

  /** Reading `n` bytes at a body offset of the image reads those bodies. */
  lemma BodyReadAt(img: seq<byte>, count: nat, data: seq<byte>, rows: seq<Row>, version: u32, compress: Compressor,
                   row: Row)
    requires Assemble(count, data, rows, version, compress) == Some(img) && End(row) <= |data|
    ensures GrfExtractor.ReadAt(img, HEADER_SIZE + row.offset, row.csize) == data[row.offset..End(row)]
  {
    ImageHoldsBodies(count, data, rows, version, compress, row.offset, End(row));
  }

  /** `get_file_data` on the path of a file whose entry the lookup finds and
      whose stored bytes sit at the entry's offset. */
  lemma EntryReadsBack(img: seq<byte>, bodies: seq<byte>, entries: seq<BaseExtractor.FileEntry>, path: string, row: Row, rec: FileRecord,
                       compress: Compressor, zlib: GrfExtractor.Zlib, des: Option<GrfVfs.DesDecryptor>)
    requires Fits(row) && RowOf(row, rec, compress) && rec.flags == FLAG_FILE && |rec.data| > 0
    requires Inverts(zlib, compress)
    requires GrfExtractor.FindEntry(entries, GrfExtractor.LookupKey(path)) == Some(ListedEntry(row))
    requires End(row) <= |bodies| && GrfExtractor.ReadAt(img, HEADER_SIZE + row.offset, row.csize) == bodies[row.offset..End(row)]
    requires bodies[row.offset..End(row)] == Stored(rec, compress)
    ensures GrfExtractor.ReadFile(img, entries, path, zlib, des) == Some(rec.data)
  {
    StoredReadsBack(row, rec, compress, zlib, des);
  }

  // ---------------------------------------------------------------------------
  // `_write_grf` and the editor object
  // ---------------------------------------------------------------------------

  /** `_write_grf` on an in-memory file: a placeholder header, then each body
      in key order with its row, then the table sizes and the level-9 table,
      then the header rewritten with the table offset. None where it raises:
      a name that neither EUC-KR nor latin-1 encodes, or a number
      `struct.pack('<I', ...)` rejects. */
  method WriteGrf(files: seq<(string, FileRecord)>, version: u32, compress: Compressor, euckr: NameEncoder)
    returns (image: Option<seq<byte>>)
    ensures image == GrfImage(files, version, compress, euckr)
  {
    var items := SortedItems(files);
    ghost var layout := Layout(items, compress, euckr);
    if |files| + 7 >= U32_LIMIT {
      return None;
    }
    var header := BuildHeader(|files|, 0, version);
    var named, out, rows := WriteBodies(header, items, compress, euckr);
    if !named {
      return None;
    }
    assert GrfImage(files, version, compress, euckr) == Assemble(|files|, layout.0, layout.1, version, compress);
    image := WriteTable(|files|, out, rows, version, compress, layout.0);
  }

  /** The rest of `_write_grf` once the bodies are written: the table, its
      sizes and the packed table after the bodies, and the header rewritten
      with the table offset. */
  method WriteTable(count: nat, out: seq<byte>, rows: seq<Row>, version: u32, compress: Compressor,
                    ghost bodies: seq<byte>)
    returns (image: Option<seq<byte>>)
    requires count + 7 < U32_LIMIT && out == BuildHeader(count, 0, version) + bodies
    ensures image == Assemble(count, bodies, rows, version, compress)
  {
    var tableOffset := |out| - HEADER_SIZE;
    if !AllFit(rows) {
      return None;
    }
    var table := BuildFileTable(rows);
    var packedTable := compress(table, 9);
    if |packedTable| >= U32_LIMIT || |table| >= U32_LIMIT || tableOffset >= U32_LIMIT {
      return None;
    }
    var written := out + U32Bytes(|packedTable|) + U32Bytes(|table|) + packedTable;
    ImageOfParts(BuildHeader(count, 0, version), bodies, U32Bytes(|packedTable|), U32Bytes(|table|), packedTable, written);
    var final := BuildHeader(count, tableOffset, version);
    image := Some(final + written[HEADER_SIZE..]);
    RegroupFront(final, bodies, U32Bytes(|packedTable|), U32Bytes(|table|), packedTable);
    assert Assemble(count, bodies, rows, version, compress)
           == Some(final + bodies + U32Bytes(|packedTable|) + U32Bytes(|table|) + packedTable);
  }

  lemma ImageOfParts(header: seq<byte>, bodies: seq<byte>, a: seq<byte>, b: seq<byte>, p: seq<byte>, out: seq<byte>)
    requires |header| == HEADER_SIZE && out == header + bodies + a + b + p
    ensures out[HEADER_SIZE..] == bodies + a + b + p
  {
    RegroupFront(header, bodies, a, b, p);
  }

  lemma AppendAssoc<T>(a: seq<T>, b: seq<T>, c: seq<T>)
    ensures a + b + c == a + (b + c)
  {
  }

  /** The body loop of `_write_grf`: after the header, each item's stored
      bytes, and its row with the offset counted from the end of the header.
      Each row's name is encoded as the row is made, where
      `_build_file_table` encodes it once the bodies are written; a name
      that does not encode raises either way, and `named` is then false. */
  method WriteBodies(header: seq<byte>, items: seq<(string, FileRecord)>, compress: Compressor, euckr: NameEncoder)
    returns (named: bool, out: seq<byte>, rows: seq<Row>)
    requires |header| == HEADER_SIZE
    ensures named <==> Named(items, euckr)
    ensures named ==> out == header + Layout(items, compress, euckr).0 && rows == Layout(items, compress, euckr).1
  {
    out := header;
    rows := [];
    var i := 0;
    while i < |items|
      invariant 0 <= i <= |items|
      invariant Named(items[..i], euckr)
      invariant out == header + Layout(items[..i], compress, euckr).0
      invariant rows == Layout(items[..i], compress, euckr).1
    {
      var offset := |out| - HEADER_SIZE;
      var entry := items[i].1;
      var name := NameBytes(entry.path, euckr);
      if name.None? {
        assert NameBytes(items[i].1.path, euckr).None?;
        return false, out, rows;
      }
      var body := entry.data;
      if entry.compressed && |entry.data| > 0 {
        var packed := compress(entry.data, 6);
        if |packed| < |entry.data| {
          body := packed;
        }
      }
      assert body == Stored(entry, compress);
      assert name.value == NameOf(entry.path, euckr);
      ghost var prev, next := Layout(items[..i], compress, euckr), Layout(items[..i + 1], compress, euckr);
      LayoutSnoc(items, i, compress, euckr);
      NamedSnoc(items, i, euckr);
      assert next.0 == prev.0 + body;
      assert next.1 == prev.1 + [Row(name.value, |body|, |entry.data|, entry.flags, offset)];
      AppendAssoc(header, prev.0, body);
      out := out + body;
      rows := rows + [Row(name.value, |body|, |entry.data|, entry.flags, offset)];
      assert out == header + next.0;
      i := i + 1;
    }
    assert items[..i] == items;
    named := true;
  }

  /** The names of one more item encode when the earlier ones and its own do. */
  lemma NamedSnoc(items: seq<(string, FileRecord)>, i: nat, euckr: NameEncoder)
    requires i < |items| && Named(items[..i], euckr) && NameBytes(items[i].1.path, euckr).Some?
    ensures Named(items[..i + 1], euckr)
  {
    var next := items[..i + 1];
    forall j | 0 <= j < |next|
      ensures NameBytes(next[j].1.path, euckr).Some?
    {
      if j < i {
        assert next[j] == items[..i][j];
      }
    }
  }

  lemma LayoutSnoc(items: seq<(string, FileRecord)>, i: nat, compress: Compressor, euckr: NameEncoder)
    requires i < |items|
    ensures var prev := Layout(items[..i], compress, euckr);
            var body := Stored(items[i].1, compress);
            Layout(items[..i + 1], compress, euckr)
            == (prev.0 + body, prev.1 + [Row(NameOf(items[i].1.path, euckr), |body|, |items[i].1.data|, items[i].1.flags, |prev.0|)])
  {
    assert items[..i + 1][..i] == items[..i];
  }

  /** `GRFEditor`: the path being edited, the dict of files, the unsaved
      flag and the version written into the header. */
  class Editor {
    var grfPath: Option<string>
    var files: seq<(string, FileRecord)>
    var modified: bool
    var version: u32

    ghost predicate Valid()
      reads this
    {
      WellKeyed(files)
    }

    constructor()
      ensures Valid() && grfPath == None && files == [] && !modified && version == VERSION_200
    {
      grfPath := None;
      files := [];
      modified := false;
      version := VERSION_200;
    }

    /** `create`: start an empty archive at `path`, with unsaved changes. */
    method Create(path: string) returns (ok: bool)
      modifies this
      ensures Valid() && ok
      ensures grfPath == Some(path) && files == [] && modified && version == VERSION_200
    {
      grfPath := Some(path);
      files := [];
      modified := true;
      version := VERSION_200;
      ok := true;
    }

    /** `add_file`: `data` is the file read from disk, None when reading
        failed. The file goes under the lower-cased backslash path,
        replacing one already there. */
    method AddFile(data: Option<seq<byte>>, path: string, compressed: bool) returns (ok: bool)
      requires Valid()
      modifies this
      ensures Valid()
      ensures ok <==> data.Some?
      ensures !ok ==> files == old(files) && modified == old(modified)
      ensures ok ==> files == Put(old(files), EditorKey(path), FileRecord(EditorPath(path), data.value, compressed, FLAG_FILE))
                     && modified
      ensures grfPath == old(grfPath) && version == old(version)
    {
      if data.None? {
        return false;
      }
      var rec := FileRecord(EditorPath(path), data.value, compressed, FLAG_FILE);
      PutKeepsWellKeyed(files, rec);
      files := Put(files, EditorKey(path), rec);
      modified := true;
      ok := true;
    }

    /** `remove_file`: true exactly when the path's key was in the dict. */
    method RemoveFile(path: string) returns (ok: bool)
      requires Valid()
      modifies this
      ensures Valid()
      ensures ok <==> GrfExtractor.LookupKey(path) in Keys(old(files))
      ensures ok ==> files == Remove(old(files), GrfExtractor.LookupKey(path)) && modified
      ensures !ok ==> files == old(files) && modified == old(modified)
      ensures grfPath == old(grfPath) && version == old(version)
    {
      var key := GrfExtractor.LookupKey(path);
      if key in Keys(files) {
        RemoveKeepsWellKeyed(files, key);
        files := Remove(files, key);
        modified := true;
        return true;
      }
      return false;
    }

    /** `list_files`: the stored paths in dict order; each lower-cases to its key. */
    function ListFiles(): (r: seq<string>)
      reads this
      ensures |r| == |files|
      ensures Valid() ==> forall i :: 0 <= i < |r| ==> Lower(r[i]) == Keys(files)[i] && '/' !in r[i]
    {
      Paths(files)
    }

    /** `save`: a non-empty `outputPath` becomes the archive path; no path
        fails, nothing to save succeeds without writing, and otherwise the
        archive is written (None when a name does not encode or a number
        does not fit) and the unsaved flag is cleared. `image` is what was written. */
    method Save(outputPath: Option<string>, compress: Compressor, euckr: NameEncoder) returns (ok: bool, image: Option<seq<byte>>)
      requires Valid()
      modifies this
      ensures Valid() && files == old(files) && version == old(version)
      ensures grfPath == if outputPath.Some? && outputPath.value != "" then outputPath else old(grfPath)
      ensures grfPath.None? || grfPath.value == "" ==> !ok && image.None? && modified == old(modified)
      ensures grfPath.Some? && grfPath.value != "" && !old(modified) ==> ok && image.None? && !modified
      ensures grfPath.Some? && grfPath.value != "" && old(modified) ==>
                image == GrfImage(files, version, compress, euckr) && ok == image.Some? && modified == !ok
    {
      if outputPath.Some? && outputPath.value != "" {
        grfPath := outputPath;
      }
      if grfPath.None? || grfPath.value == "" {
        return false, None;
      }
      if !modified {
        return true, None;
      }
      image := WriteGrf(files, version, compress, euckr);
      if image.None? {
        return false, None;
      }
      modified := false;
      ok := true;
    }

    /** `close`: forget the path and the files. */
    method Close()
      modifies this
      ensures Valid() && grfPath == None && files == [] && !modified && version == old(version)
    {
      grfPath := None;
      files := [];
      modified := false;
    }
  }

  function Paths(files: seq<(string, FileRecord)>): (r: seq<string>)
    ensures |r| == |files| && forall i :: 0 <= i < |files| ==> r[i] == files[i].1.path
  {
    seq(|files|, i requires 0 <= i < |files| => files[i].1.path)
  }

  /** `remove_file` keeps the dict well keyed. */
  lemma RemoveKeepsWellKeyed(files: seq<(string, FileRecord)>, key: string)
    requires WellKeyed(files)
    ensures WellKeyed(Remove(files, key))
  {
    var r := Remove(files, key);
    RemoveDistinct(files, key);
    forall i | 0 <= i < |r|
      ensures r[i].0 == Lower(r[i].1.path) && '/' !in r[i].1.path && r[i].1.flags == FLAG_FILE
    {
      assert r[i] in r;
      var k :| 0 <= k < |files| && files[k] == r[i];
    }
  }

  /** `add_file` keeps the dict well keyed. */
  lemma PutKeepsWellKeyed(files: seq<(string, FileRecord)>, rec: FileRecord)
    requires WellKeyed(files) && '/' !in rec.path && rec.flags == FLAG_FILE
    ensures WellKeyed(Put(files, Lower(rec.path), rec))
  {
    var r := Put(files, Lower(rec.path), rec);
    PutDistinct(files, Lower(rec.path), rec);
    PutMembers(files, Lower(rec.path), rec);
    forall i | 0 <= i < |r|
      ensures r[i].0 == Lower(r[i].1.path) && '/' !in r[i].1.path && r[i].1.flags == FLAG_FILE
    {
      assert r[i] in r;
      if r[i] != (Lower(rec.path), rec) {
        var k :| 0 <= k < |files| && files[k] == r[i];
      }
    }
  }
}
