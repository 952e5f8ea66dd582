/** What every archive extractor shares: the file entry record, the
    extract-everything loop, the size and count summaries, and the registry
    that finds an extractor for a file. */
module BaseExtractor {
  import opened Wrappers
  import opened OrderedMaps

  /** A file inside an archive; `compressedSize` equals `size` when stored raw. */
  datatype FileEntry = FileEntry(path: string, size: int, compressedSize: int, offset: int, isEncrypted: bool)

  /** `FileEntry(...)` including `__post_init__`: a compressed size of 0
      means "same as size". */
  function MakeFileEntry(path: string, size: int, compressedSize: int, offset: int, isEncrypted: bool): (e: FileEntry)
    ensures e.path == path && e.size == size && e.offset == offset && e.isEncrypted == isEncrypted
    ensures compressedSize != 0 ==> e.compressedSize == compressedSize
    ensures compressedSize == 0 ==> e.compressedSize == size
    ensures e.compressedSize == 0 ==> e.size == 0
  {
    FileEntry(path, size, if compressedSize == 0 then size else compressedSize, offset, isEncrypted)
  }

  /** `get_file_count`: the number of files `extract_all` visits when no
      filter is given. */
  function FileCount(files: seq<FileEntry>): (n: nat)
    ensures n == |Selected(files, None)|
  {
    SelectedAll(files);
    |files|
  }

  /** Without a filter `extract_all` visits every file, in order. */
  lemma {:induction false} SelectedAll(files: seq<FileEntry>)
    ensures Selected(files, None) == files
  {
    if files != [] {
      SelectedAll(files[1..]);
      assert files == [files[0]] + files[1..];
    }
  }

  /** `get_total_size`: the sum of the uncompressed sizes. */
  function TotalSize(files: seq<FileEntry>): int
  {
    if files == [] then 0 else files[0].size + TotalSize(files[1..])
  }

  lemma {:induction false} TotalSizeConcat(a: seq<FileEntry>, b: seq<FileEntry>)
    ensures TotalSize(a + b) == TotalSize(a) + TotalSize(b)
  {
    if a != [] {
      assert (a + b)[1..] == a[1..] + b;
      TotalSizeConcat(a[1..], b);
      assert TotalSize(a + b) == a[0].size + TotalSize(a[1..] + b);
    } else {
      assert a + b == b;
    }
  }

  /** With no negative sizes the total bounds every single size. */
  lemma {:induction false} TotalSizeBounds(files: seq<FileEntry>)
    requires forall i :: 0 <= i < |files| ==> files[i].size >= 0
    ensures TotalSize(files) >= 0
    ensures forall i :: 0 <= i < |files| ==> files[i].size <= TotalSize(files)
  {
    if files != [] {
      TotalSizeBounds(files[1..]);
      assert forall i :: 1 <= i < |files| ==> files[i] == files[1..][i - 1];
    }
  }

  /** The files `extract_all` works through: all of them, or those the filter keeps. */
  function Selected(files: seq<FileEntry>, filter: Option<FileEntry -> bool>): (r: seq<FileEntry>)
    ensures |r| <= |files|
    ensures forall e :: e in r <==> e in files && (filter.None? || filter.value(e))
  {
    if files == [] then []
    else
      assert files == [files[0]] + files[1..];
      (if filter.None? || filter.value(files[0]) then [files[0]] else []) + Selected(files[1..], filter)
  }

  /** How many of the files `extract` reports as written. */
  function Successes(files: seq<FileEntry>, extract: string -> bool): (n: nat)
    ensures n <= |files|
    ensures n == |files| <==> forall i :: 0 <= i < |files| ==> extract(files[i].path)
  {
    if files == [] then 0
    else
      var rest := Successes(files[1..], extract);
      assert forall i :: 1 <= i < |files| ==> files[i] == files[1..][i - 1];
      (if extract(files[0].path) then 1 else 0) + rest
  }

  lemma {:induction false} SuccessesSnoc(files: seq<FileEntry>, e: FileEntry, extract: string -> bool)
    ensures Successes(files + [e], extract) == Successes(files, extract) + if extract(e.path) then 1 else 0
  {
    if files != [] {
      assert (files + [e])[1..] == files[1..] + [e];
      SuccessesSnoc(files[1..], e, extract);
    }
  }

  /** The result of `extract_all`: it raises when the archive is not open. */
  datatype ExtractOutcome = NotOpen | Extracted(count: nat)

  /** `extract_all`: write every selected file and count the successes.
      Writing a file is the extractor's `extract_file`, given as `extract`. */
  method ExtractAll(isOpen: bool, files: seq<FileEntry>, filter: Option<FileEntry -> bool>,
                    extract: string -> bool) returns (r: ExtractOutcome)
    ensures !isOpen ==> r == NotOpen
    ensures isOpen ==> r == Extracted(Successes(Selected(files, filter), extract))
    ensures r.Extracted? ==> r.count <= |Selected(files, filter)| <= |files|
  {
    if !isOpen {
      return NotOpen;
    }
    var selected := Selected(files, filter);
    var extracted := 0;
    assert Successes(selected[..0], extract) == 0 by {
      assert selected[..0] == [];
    }
    hide *;
    var i := 0;
    while i < |selected|
      invariant 0 <= i <= |selected|
      invariant extracted == Successes(selected[..i], extract)
    {
      SuccessesSnoc(selected[..i], selected[i], extract);
      assert selected[..i + 1] == selected[..i] + [selected[i]];
      if extract(selected[i].path) {
        extracted := extracted + 1;
      }
      i := i + 1;
    }
    assert selected[..i] == selected;
    return Extracted(extracted);
  }

  // ---------------------------------------------------------------------------
  // The registry
  // ---------------------------------------------------------------------------

  /** A registered extractor class, known by its `extractor_id`. */
  datatype ExtractorClass = ExtractorClass(name: string, extractorId: string)

  /** The first class, in registration order, whose `detect` accepts the path. */
  function FirstDetecting(classes: seq<ExtractorClass>, path: string, detect: (ExtractorClass, string) -> bool)
    : (r: Option<ExtractorClass>)
    ensures r.None? <==> forall i :: 0 <= i < |classes| ==> !detect(classes[i], path)
    ensures r.Some? ==> exists i :: 0 <= i < |classes| && classes[i] == r.value && detect(r.value, path)
                                    && forall j :: 0 <= j < i ==> !detect(classes[j], path)
  {
    if classes == [] then None
    else if detect(classes[0], path) then Some(classes[0])
    else
      var r := FirstDetecting(classes[1..], path, detect);
      assert forall i :: 1 <= i < |classes| ==> classes[i] == classes[1..][i - 1];
      if r.Some? then
        var i :| 0 <= i < |classes[1..]| && classes[1..][i] == r.value && detect(r.value, path)
                 && forall j :: 0 <= j < i ==> !detect(classes[1..][j], path);
        assert classes[i + 1] == r.value;
        r
      else r
  }

  /** `ExtractorRegistry`: a dict from extractor id to class, in registration order. */
  class Registry {
    var extractors: seq<(string, ExtractorClass)>

    constructor()
      ensures extractors == []
    {
      extractors := [];
    }

    /** `register`: keyed by the class's id; registering an id again replaces
        the class where it stands. */
    method Register(c: ExtractorClass)
      modifies this
      ensures extractors == Put(old(extractors), c.extractorId, c)
    {
      extractors := Put(extractors, c.extractorId, c);
    }

    /** `get_extractor_by_id` */
    function GetExtractorById(id: string): (r: Option<ExtractorClass>)
      reads this
      ensures r.None? <==> id !in Keys(extractors)
    {
      Get(extractors, id)
    }

    /** `get_extractor_for_file`: the first registered class whose `detect`
        holds for the path (an exception in `detect` counts as false). */
    method GetExtractorForFile(path: string, detect: (ExtractorClass, string) -> bool) returns (r: Option<ExtractorClass>)
      ensures r == FirstDetecting(Values(extractors), path, detect)
    {
      var classes := Values(extractors);
      var i := 0;
      while i < |classes|
        invariant 0 <= i <= |classes|
        invariant FirstDetecting(classes, path, detect) == FirstDetecting(classes[i..], path, detect)
      {
        if detect(classes[i], path) {
          return Some(classes[i]);
        }
        assert classes[i..][1..] == classes[i + 1..];
        i := i + 1;
      }
      return None;
    }
  }

  /** After registering a class its id finds it, and every other id finds
      what it found before. */
  lemma RegisterThenLookup(before: seq<(string, ExtractorClass)>, c: ExtractorClass, id: string)
    ensures Get(Put(before, c.extractorId, c), id) == if id == c.extractorId then Some(c) else Get(before, id)
  {
    PutGet(before, c.extractorId, c, id);
  }
}
