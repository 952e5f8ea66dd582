/** The stand-alone GRF extractor: header check, the decompressed file table
    read into `FileEntry` records, case-insensitive lookup and the rules that
    decide how a stored file is turned back into its bytes. */
module GrfExtractor {
  import opened Wrappers
  import opened Bytes
  import opened Strings
  import opened BaseExtractor
  import GrfDecompression
  import GrfVfs

  const HEADER_SIZE: nat := 46
  const VERSION_200: u32 := 0x200
  const RECORD_SIZE: nat := 17

  /** "Master of Magic" */
  const SIGNATURE: seq<byte> := [77, 97, 115, 116, 101, 114, 32, 111, 102, 32, 77, 97, 103, 105, 99]

  /** What `zlib.decompress` does: inflate, or fail with one of the errors
      the decision rules tell apart. */
  datatype ZlibOutcome = Inflated(data: seq<byte>) | IncorrectHeader | UnknownMethod | OtherError

  /** `zlib.decompress(data, wbits)` */
  type Zlib = (seq<byte>, int) -> ZlibOutcome

  /** The header fields `_read_header` keeps; the stored count is the file
      count plus 7, so `fileCount` may come out negative. */
  datatype Header = Header(tableOffset: u32, fileCount: int, version: u32)

  /** `_read_header` over the file's bytes: the signature must match and the
      46 header bytes must be there (a short read fails the unpack); any
      version is accepted. */
  function ParseHeader(file: seq<byte>): (r: Option<Header>)
    ensures r.Some? <==> |file| >= HEADER_SIZE && file[..15] == SIGNATURE
    ensures r.Some? ==> r.value.tableOffset == U32At(file, 30) && r.value.fileCount + 7 == U32At(file, 38)
                        && r.value.version == U32At(file, 42)
  {
    if |file| < 15 || file[..15] != SIGNATURE then None
    else if |file| < HEADER_SIZE then None
    else Some(Header(U32At(file, 30), U32At(file, 38) - 7, U32At(file, 42)))
  }

  // ---------------------------------------------------------------------------
  // The file table
  // ---------------------------------------------------------------------------

  datatype ListState = ListState(offset: nat, files: seq<FileEntry>)

  /** The entry a record stands for: the name as decoded, the aligned size as
      the compressed size, the offset counted from the start of the file. */
  function RecordEntry(name: seq<byte>, aligned: u32, uncompressed: u32, flags: byte, fileOffset: u32): (e: FileEntry)
    ensures e.path == Bytes.Decode(name) && e.size == uncompressed && e.offset == HEADER_SIZE + fileOffset
    ensures e.isEncrypted <==> (flags as bv8) & 6 != 0
    ensures aligned != 0 ==> e.compressedSize == aligned
    ensures aligned == 0 ==> e.compressedSize == uncompressed
  {
    MakeFileEntry(Bytes.Decode(name), uncompressed, aligned, HEADER_SIZE + fileOffset,
                  (flags as bv8) & (GrfVfs.FLAG_MIXCRYPT | GrfVfs.FLAG_DES) != 0)
  }

  /** One pass of the table loop; None is a `break` (no NUL left, or fewer
      than 17 bytes after the name). Directory records (flags 0) are skipped. */
  function ListStep(table: seq<byte>, s: ListState): (r: Option<ListState>)
    requires s.offset < |table|
    ensures r.Some? ==> r.value.offset >= s.offset + RECORD_SIZE + 1 && |r.value.files| <= |s.files| + 1
  {
    var e := GrfVfs.FindNul(table, s.offset);
    if e == -1 then None
    else
      var p := e + 1;
      if p + RECORD_SIZE > |table| then None
      else
        var flags := table[p + 12];
        if flags == 0 then Some(s.(offset := p + RECORD_SIZE))
        else
          var entry := RecordEntry(table[s.offset..e], U32At(table, p + 4), U32At(table, p + 8), flags, U32At(table, p + 13));
          Some(ListState(p + RECORD_SIZE, s.files + [entry]))
  }

  /** The table loop from state `s`, running while bytes remain. */
  function ListFrom(table: seq<byte>, s: ListState): seq<FileEntry>
    decreases |table| - s.offset
  {
    if s.offset >= |table| then s.files
    else
      match ListStep(table, s)
      case None => s.files
      case Some(t) => ListFrom(table, t)
  }

  /** A step that succeeds leaves the rest of the loop to the new state. */
  lemma ListFromStep(table: seq<byte>, s: ListState, t: ListState)
    requires s.offset < |table| && ListStep(table, s) == Some(t)
    ensures ListFrom(table, s) == ListFrom(table, t)
  {
  }

  /** `_read_file_table` after decompression. */
  function ParseFileList(table: seq<byte>): seq<FileEntry>
  {
    ListFrom(table, ListState(0, []))
  }

  /** The loop only appends, and every record takes at least 18 bytes, so a
      table of n bytes lists at most n / 18 files. */
  lemma {:induction false} ListFromGrows(table: seq<byte>, s: ListState)
    ensures var r := ListFrom(table, s);
            s.files <= r && 18 * (|r| - |s.files|) <= if s.offset < |table| then |table| - s.offset else 0
    decreases |table| - s.offset
  {
    if s.offset < |table| {
      var t := ListStep(table, s);
      if t.Some? {
        ListFromGrows(table, t.value);
      }
    }
  }

  lemma ParseFileListBound(table: seq<byte>)
    ensures 18 * |ParseFileList(table)| <= |table|
  {
    ListFromGrows(table, ListState(0, []));
  }

  /** A whole record (name without NUL bytes, its NUL, 17 metadata bytes) in
      the middle of a table: its entry is appended, unless it is a directory,
      and parsing continues right after it. */
  lemma RecordListed(table: seq<byte>, at: nat, name: seq<byte>, csize: u32, aligned: u32, uncompressed: u32,
                     flags: byte, fileOffset: u32, files: seq<FileEntry>)
    requires forall i :: 0 <= i < |name| ==> name[i] != 0
    requires var rec := name + [0] + GrfVfs.RecordBytes(csize, aligned, uncompressed, flags, fileOffset);
             at + |rec| <= |table| && table[at..at + |rec|] == rec
    ensures var more := if flags == 0 then [] else [RecordEntry(name, aligned, uncompressed, flags, fileOffset)];
            ListFrom(table, ListState(at, files)) == ListFrom(table, ListState(at + |name| + 1 + RECORD_SIZE, files + more))
  {
    var more := if flags == 0 then [] else [RecordEntry(name, aligned, uncompressed, flags, fileOffset)];
    RecordStep(table, at, name, csize, aligned, uncompressed, flags, fileOffset, files);
    ListFromStep(table, ListState(at, files), ListState(at + |name| + 1 + RECORD_SIZE, files + more));
  }

  /** The step over such a record, wherever it sits in the table. */
  lemma RecordStep(table: seq<byte>, at: nat, name: seq<byte>, csize: u32, aligned: u32, uncompressed: u32,
                   flags: byte, fileOffset: u32, files: seq<FileEntry>)
    requires forall i :: 0 <= i < |name| ==> name[i] != 0
    requires var rec := name + [0] + GrfVfs.RecordBytes(csize, aligned, uncompressed, flags, fileOffset);
             at + |rec| <= |table| && table[at..at + |rec|] == rec
    ensures var more := if flags == 0 then [] else [RecordEntry(name, aligned, uncompressed, flags, fileOffset)];
            at < |table| && ListStep(table, ListState(at, files)) == Some(ListState(at + |name| + 1 + RECORD_SIZE, files + more))
  {
    GrfVfs.RecordLaidOut(table, at, name, csize, aligned, uncompressed, flags, fileOffset);
    ListStepKept(table, ListState(at, files), at + |name|, name, aligned, uncompressed, flags, fileOffset);
  }

  /** `_read_file_table`'s parsing loop. */
  method ReadFileTable(table: seq<byte>) returns (files: seq<FileEntry>)
    ensures files == ParseFileList(table)
  {
    files := [];
    var offset: nat := 0;
    while offset < |table|
      invariant ListFrom(table, ListState(offset, files)) == ParseFileList(table)
      decreases |table| - offset
    {
      var stop, offset', files' := ReadListRecord(table, offset, files);
      if stop {
        ListFromStops(table, ListState(offset, files));
        break;
      }
      ListFromStep(table, ListState(offset, files), ListState(offset', files'));
      offset, files := offset', files';
    }
  }

  /** One pass of the loop's body: `stop` is a `break`; otherwise the next
      position and the list, with the record's entry unless it is a directory. */
  method ReadListRecord(table: seq<byte>, offset: nat, files: seq<FileEntry>)
    returns (stop: bool, offset': nat, files': seq<FileEntry>)
    requires offset < |table|
    ensures var t := ListStep(table, ListState(offset, files));
            if stop then t.None? else t == Some(ListState(offset', files'))
  {
    ghost var s := ListState(offset, files);
    stop, offset', files' := false, offset, files;
    var nameEnd := GrfVfs.FindNul(table, offset);
    if nameEnd == -1 {
      return true, offset, files;
    }
    var name := Bytes.Decode(table[offset..nameEnd]);
    var p := nameEnd + 1;
    if p + RECORD_SIZE > |table| {
      return true, offset, files;
    }
    var aligned := U32At(table, p + 4);
    var uncompressed := U32At(table, p + 8);
    var flags := table[p + 12];
    var fileOffset := U32At(table, p + 13);
    offset' := p + RECORD_SIZE;
    assert GrfVfs.RecordFieldsAt(table, nameEnd, aligned, uncompressed, flags, fileOffset);
    ListStepKept(table, s, nameEnd, table[offset..nameEnd], aligned, uncompressed, flags, fileOffset);
    if flags == 0 {
      return;
    }
    var isEncrypted := (flags as bv8) & (GrfVfs.FLAG_MIXCRYPT | GrfVfs.FLAG_DES) != 0;
    var entry := MakeFileEntry(name, uncompressed, aligned, HEADER_SIZE + fileOffset, isEncrypted);
    assert entry == RecordEntry(table[offset..nameEnd], aligned, uncompressed, flags, fileOffset);
    files' := files + [entry];
  }

  /** A whole record after the name's NUL: the step moves past it, adding its
      entry unless it is a directory. */
  lemma ListStepKept(table: seq<byte>, s: ListState, e: nat, name: seq<byte>,
                     aligned: u32, uncompressed: u32, flags: byte, fileOffset: u32)
    requires s.offset < |table| && e == GrfVfs.FindNul(table, s.offset) && name == table[s.offset..e]
    requires GrfVfs.RecordFieldsAt(table, e, aligned, uncompressed, flags, fileOffset)
    ensures var more := if flags == 0 then [] else [RecordEntry(name, aligned, uncompressed, flags, fileOffset)];
            ListStep(table, s) == Some(ListState(e + 1 + RECORD_SIZE, s.files + more))
  {
    if flags == 0 {
      assert s.files + [] == s.files;
    }
  }

  /** A `break` ends the loop with the files gathered so far. */
  lemma ListFromStops(table: seq<byte>, s: ListState)
    requires s.offset < |table| && ListStep(table, s) == None
    ensures ListFrom(table, s) == s.files
  {
  }

  /** A successfully opened archive: its header and its file list. */
  datatype Opened = Opened(header: Header, files: seq<FileEntry>)

  /** What `open` reads from the file's bytes (None: the file could not be
      opened): the header, then the table at 46 + table offset, made of a
      stored size, an unpacked size and the zlib stream. */
  function OpenImage(file: Option<seq<byte>>, zlib: Zlib): (r: Option<Opened>)
    ensures r.Some? ==> file.Some? && ParseHeader(file.value) == Some(r.value.header)
    ensures r.Some? ==> exists packed :: zlib(packed, 15).Inflated?
                                         && r.value.files == ParseFileList(zlib(packed, 15).data)
  {
    if file.None? then None
    else
      match ParseHeader(file.value)
      case None => None
      case Some(h) =>
        var t := HEADER_SIZE + h.tableOffset;
        if t + 8 > |file.value| then None
        else
          var stored := U32At(file.value, t);
          var packed := file.value[t + 8..GrfDecompression.Min(|file.value|, t + 8 + stored)];
          match zlib(packed, 15)
          case Inflated(table) => Some(Opened(h, ParseFileList(table)))
          case _ => None
  }

  // ---------------------------------------------------------------------------
  // Turning stored bytes back into a file
  // ---------------------------------------------------------------------------

  /** `file_path.lower().replace('/', '\\')`: the lookup key. */
  function LookupKey(path: string): (k: string)
    ensures |k| == |path| && '/' !in k
  {
    ReplaceChar(Lower(path), '/', '\\')
  }

  /** Paths that differ only in letter case or slash direction find the same file. */
  lemma LookupKeyIgnoresCase(path: string)
    ensures LookupKey(Lower(path)) == LookupKey(path)
    ensures LookupKey(ReplaceChar(path, '\\', '/')) == LookupKey(path)
  {
    LowerIsLower(path);
  }

  /** The first entry whose key matches. */
  function FindEntry(files: seq<FileEntry>, key: string): (r: Option<FileEntry>)
    ensures r.None? <==> forall i :: 0 <= i < |files| ==> LookupKey(files[i].path) != key
    ensures r.Some? ==> exists i :: 0 <= i < |files| && files[i] == r.value && LookupKey(r.value.path) == key
                                    && forall j :: 0 <= j < i ==> LookupKey(files[j].path) != key
  {
    if files == [] then None
    else if LookupKey(files[0].path) == key then Some(files[0])
    else
      var r := FindEntry(files[1..], key);
      assert forall i :: 1 <= i < |files| ==> files[i] == files[1..][i - 1];
      if r.Some? then
        var i :| 0 <= i < |files[1..]| && files[1..][i] == r.value && LookupKey(r.value.path) == key
                 && forall j :: 0 <= j < i ==> LookupKey(files[1..][j].path) != key;
        assert files[i + 1] == r.value;
        r
      else r
  }

  /** `seek(offset)` then `read(n)`: what is there, possibly short. */
  function ReadAt(file: seq<byte>, offset: int, n: nat): (r: seq<byte>)
    ensures |r| <= n
    ensures 0 <= offset && offset + n <= |file| ==> r == file[offset..offset + n]
  {
    if offset < 0 || offset >= |file| then []
    else file[offset..GrfDecompression.Min(|file|, offset + n)]
  }

  /** The bytes after decryption: DES is tried on an encrypted entry, and a
      failed decryption goes on with the stored bytes. */
  function Decrypted(e: FileEntry, raw: seq<byte>, des: GrfVfs.DesDecryptor): seq<byte>
  {
    if e.isEncrypted && des(raw).Some? then des(raw).value else raw
  }

  /** The 10-byte slack `_decompress_file_data` allows around the expected size. */
  predicate NearSize(data: seq<byte>, size: int) {
    GrfDecompression.Abs(|data| - size) < 10
  }

  /** `_decompress_file_data`. `des` is None when the DES module is missing.
      Sizes that differ (and a non-zero compressed size) mean zlib; its
      output is used only within 10 bytes of the expected size. On a zlib
      error a header error retries as raw deflate, and otherwise the bytes
      are used as they are exactly when their length is the expected size. */
  function DecompressFileData(e: FileEntry, raw: seq<byte>, zlib: Zlib, des: Option<GrfVfs.DesDecryptor>)
    : (r: Option<seq<byte>>)
    ensures e.isEncrypted && des.None? ==> r.None?
    ensures !e.isEncrypted && (e.compressedSize == e.size || e.compressedSize <= 0) ==> r == Some(raw)
    ensures !e.isEncrypted && e.compressedSize != e.size && e.compressedSize > 0 && zlib(raw, 15).Inflated? ==>
              r == (if NearSize(zlib(raw, 15).data, e.size) then Some(zlib(raw, 15).data) else None)
    ensures !e.isEncrypted && e.compressedSize != e.size && e.compressedSize > 0
            && !zlib(raw, 15).Inflated? && zlib(raw, 15) != IncorrectHeader ==>
              r == (if |raw| == e.size then Some(raw) else None)
    ensures !e.isEncrypted && !zlib(raw, 15).Inflated? && |raw| == e.size ==> r.Some?
    ensures r.Some? && des.Some? ==> r.value == Decrypted(e, raw, des.value) || NearSize(r.value, e.size)
  {
    if e.isEncrypted && des.None? then None
    else
      var data := if des.Some? then Decrypted(e, raw, des.value) else raw;
      if e.compressedSize != e.size && e.compressedSize > 0 then
        match zlib(data, 15)
        case Inflated(d) => if NearSize(d, e.size) then Some(d) else None
        case err =>
          var rawDeflate :=
            if err == IncorrectHeader then
              match zlib(data, -15)
              case Inflated(d) => if NearSize(d, e.size) then Some(d) else None
              case _ => None
            else None;
          if rawDeflate.Some? then rawDeflate
          else if |data| == e.size then Some(data)
          else None
      else Some(data)
  }

  /** `get_file_data` on an open archive, given the file's bytes and the
      listed entries: the first entry whose key matches, its stored bytes
      read at its offset and decompressed; empty output counts as failure. */
  function ReadFile(file: seq<byte>, files: seq<FileEntry>, path: string, zlib: Zlib, des: Option<GrfVfs.DesDecryptor>)
    : (r: Option<seq<byte>>)
    ensures r.Some? ==> |r.value| > 0
    ensures FindEntry(files, LookupKey(path)).None? ==> r.None?
  {
    match FindEntry(files, LookupKey(path))
    case None => None
    case Some(e) =>
      var stored := ReadAt(file, e.offset, if e.compressedSize < 0 then 0 else e.compressedSize);
      match DecompressFileData(e, stored, zlib, des)
      case None => None
      case Some(d) => if |d| == 0 then None else Some(d)
  }

  /** A file stored with matching sizes is never run through zlib. */
  lemma EqualSizesStoredRaw(e: FileEntry, raw: seq<byte>, zlib: Zlib, des: GrfVfs.DesDecryptor)
    requires e.compressedSize == e.size
    ensures DecompressFileData(e, raw, zlib, Some(des)) == Some(Decrypted(e, raw, des))
  {
  }

  // ---------------------------------------------------------------------------
  // The extractor
  // ---------------------------------------------------------------------------

  /** The reading steps of `open`: the header, then the table's stored size,
      the zlib stream and the parsing loop. */
  method ReadArchive(file: Option<seq<byte>>, zlib: Zlib) returns (r: Option<Opened>)
    ensures r == OpenImage(file, zlib)
  {
    if file.None? {
      return None;
    }
    var header := ParseHeader(file.value);
    if header.None? {
      return None;
    }
    var t := HEADER_SIZE + header.value.tableOffset;
    if t + 8 > |file.value| {
      return None;
    }
    var stored := U32At(file.value, t);
    var packed := file.value[t + 8..GrfDecompression.Min(|file.value|, t + 8 + stored)];
    var unpacked := zlib(packed, 15);
    if !unpacked.Inflated? {
      return None;
    }
    var files := ReadFileTable(unpacked.data);
    return Some(Opened(header.value, files));
  }

  /** `GRFExtractor`: the open file (as its bytes), whether it is open, the
      file list and the header fields. zlib and DES are given at creation. */
  class GrfExtractor {
    var archivePath: string
    var handle: Option<seq<byte>>
    var isOpen: bool
    var fileList: seq<FileEntry>
    var version: int
    var fileCount: int
    const zlib: Zlib
    const des: Option<GrfVfs.DesDecryptor>

    /** A closed extractor holds nothing; an open one holds its file. */
    ghost predicate Valid()
      reads this
    {
      (isOpen ==> handle.Some?) && (!isOpen ==> handle.None? && fileList == [] && version == 0 && fileCount == 0)
    }

    /** `GRFExtractor()` with no path. */
    constructor(zlib: Zlib, des: Option<GrfVfs.DesDecryptor>)
      ensures Valid() && !isOpen && this.zlib == zlib && this.des == des
    {
      archivePath := "";
      handle := None;
      isOpen := false;
      fileList := [];
      version := 0;
      fileCount := 0;
      this.zlib := zlib;
      this.des := des;
    }

    /** `close` */
    method Close()
      modifies this
      ensures Valid() && !isOpen && archivePath == old(archivePath)
    {
      handle := None;
      isOpen := false;
      fileList := [];
      version := 0;
      fileCount := 0;
    }

    /** `open`: an open archive is closed first; on any failure the
        extractor is left closed. `file` is the content of the file at
        `path`, None when it cannot be opened. */
    method Open(path: string, file: Option<seq<byte>>) returns (ok: bool)
      modifies this
      ensures Valid() && archivePath == path
      ensures ok <==> OpenImage(file, zlib).Some?
      ensures ok ==> && isOpen && handle == file
                     && fileList == OpenImage(file, zlib).value.files
                     && version == OpenImage(file, zlib).value.header.version
                     && fileCount == OpenImage(file, zlib).value.header.fileCount
      ensures !ok ==> !isOpen
    {
      if isOpen {
        Close();
      }
      archivePath := path;
      var archive := ReadArchive(file, zlib);
      if archive.None? {
        Close();
        return false;
      }
      handle := file;
      version := archive.value.header.version;
      fileCount := archive.value.header.fileCount;
      fileList := archive.value.files;
      isOpen := true;
      return true;
    }

    /** `list_files` */
    function ListFiles(): (r: seq<FileEntry>)
      reads this
      ensures !isOpen ==> r == []
      ensures isOpen ==> r == fileList
    {
      if isOpen then fileList else []
    }

    /** What `get_file_data` returns for `path`. */
    function FileData(path: string): (r: Option<seq<byte>>)
      reads this
      ensures !isOpen || handle.None? ==> r.None?
    {
      if !isOpen || handle.None? then None
      else ReadFile(handle.value, fileList, path, zlib, des)
    }

    /** `get_file_data`: the first entry whose path matches case-insensitively
        and with either slash; its bytes decompressed, never empty. */
    method GetFileData(path: string) returns (r: Option<seq<byte>>)
      ensures r == FileData(path)
      ensures !isOpen ==> r.None?
      ensures r.Some? ==> |r.value| > 0 && exists e :: e in fileList && LookupKey(e.path) == LookupKey(path)
    {
      if !isOpen || handle.None? {
        return None;
      }
      var key := LookupKey(path);
      var i := 0;
      while i < |fileList|
        invariant 0 <= i <= |fileList|
        invariant FindEntry(fileList[i..], key) == FindEntry(fileList, key)
      {
        if LookupKey(fileList[i].path) == key {
          break;
        }
        assert fileList[i..][1..] == fileList[i + 1..];
        i := i + 1;
      }
      if i == |fileList| {
        return None;
      }
      var e := fileList[i];
      var stored := ReadAt(handle.value, e.offset, if e.compressedSize < 0 then 0 else e.compressedSize);
      var data := DecompressFileData(e, stored, zlib, des);
      if data.None? || |data.value| == 0 {
        return None;
      }
      return data;
    }
  }
}
