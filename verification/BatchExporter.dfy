/** The batch exporter's bookkeeping around rendering: export results,
    file-name sanitising, the sprite-sheet grid arithmetic, and the loops of
    the headgear export and the job sheet export with the compositor state
    they change and restore. A render is a parameter of the model: it maps
    the compositor's look, an action and a frame to an image, no image, or
    an exception. */
module BatchExporter {
  import opened Wrappers
  import opened Strings
  import opened CharacterDesigner
  import ItemDatabase

  // ---------------------------------------------------------------------------
  // Results
  // ---------------------------------------------------------------------------

  /** `ExportResult` after `__post_init__`. */
  datatype ExportResult = ExportResult(success: bool, outputPath: string, count: int,
                                       errors: seq<string>, skipped: seq<string>)

  /** `ExportResult(...)`: lists left out (`None`) become empty lists, given
      lists are kept. */
  function NewResult(success: bool, outputPath: string, count: int,
                     errors: Option<seq<string>>, skipped: Option<seq<string>>): (r: ExportResult)
    ensures r.success == success && r.outputPath == outputPath && r.count == count
    ensures errors.None? ==> r.errors == []
    ensures errors.Some? ==> r.errors == errors.value
    ensures skipped.None? ==> r.skipped == []
    ensures skipped.Some? ==> r.skipped == skipped.value
  {
    ExportResult(success, outputPath, count,
                 if errors.Some? then errors.value else [],
                 if skipped.Some? then skipped.value else [])
  }

  /** What every export returns without Pillow. */
  const NO_PILLOW := NewResult(false, "", 0, Some(["Pillow not installed"]), None)

  /** `os.path.join(a, b)` on POSIX: an absolute `b` wins, otherwise one
      separator between the two. */
  function JoinPath(a: string, b: string): string {
    if |b| > 0 && b[0] == '/' then b
    else if a == [] || a[|a| - 1] == '/' then a + b
    else a + "/" + b
  }

  // ---------------------------------------------------------------------------
  // File names
  // ---------------------------------------------------------------------------

  const INVALID_CHARS := "<>:\"/\\|?*"
  const STRIP_CHARS := " ."
  const MAX_NAME := 50

  /** Every character that may not appear in a file name replaced with '_'. */
  function Replaced(name: string): (r: string)
    ensures |r| == |name|
    ensures forall i :: 0 <= i < |r| ==> r[i] == if name[i] in INVALID_CHARS then '_' else name[i]
  {
    seq(|name|, i requires 0 <= i < |name| => if name[i] in INVALID_CHARS then '_' else name[i])
  }

  /** `s` without its leading spaces and dots. */
  function StripStart(s: string): (r: string)
    ensures |r| <= |s| && r == s[|s| - |r|..]
    ensures forall i :: 0 <= i < |s| - |r| ==> s[i] in STRIP_CHARS
    ensures r != [] ==> r[0] !in STRIP_CHARS
    decreases |s|
  {
    if s != [] && s[0] in STRIP_CHARS then StripStart(s[1..]) else s
  }

  /** `s` without its trailing spaces and dots. */
  function StripEnd(s: string): (r: string)
    ensures |r| <= |s| && r == s[..|r|]
    ensures forall i :: |r| <= i < |s| ==> s[i] in STRIP_CHARS
    ensures r != [] ==> r[|r| - 1] !in STRIP_CHARS
    decreases |s|
  {
    if s != [] && s[|s| - 1] in STRIP_CHARS then StripEnd(s[..|s| - 1]) else s
  }

  /** `s.strip(' .')`: the longest middle part of `s` that neither starts
      nor ends with a space or a dot. */
  function Strip(s: string): (r: string)
    ensures |r| <= |StripStart(s)| <= |s| && r == StripStart(s)[..|r|]
    ensures r != [] ==> r[0] !in STRIP_CHARS && r[|r| - 1] !in STRIP_CHARS
  {
    StripEnd(StripStart(s))
  }

  /** What `_sanitize_filename` returns. */
  function Sanitized(name: string): string {
    var t := Strip(Replaced(name));
    if |t| > MAX_NAME then t[..MAX_NAME] else t
  }

  /** `_sanitize_filename`: each invalid character replaced in turn, the
      ends stripped of spaces and dots, then cut to 50 characters. The result
      holds no invalid character, is at most 50 long and does not start with
      a space or a dot; a name that fits after stripping does not end with
      one either. */
  method SanitizeFilename(name: string) returns (r: string)
    ensures r == Sanitized(name)
    ensures forall i :: 0 <= i < |r| ==> r[i] !in INVALID_CHARS
    ensures |r| <= MAX_NAME
    ensures r != [] ==> r[0] !in STRIP_CHARS
    ensures |Strip(Replaced(name))| <= MAX_NAME ==> r == Strip(Replaced(name)) && (r != [] ==> r[|r| - 1] !in STRIP_CHARS)
  {
    hide Strip, StripStart, StripEnd;
    var s := name;
    for k := 0 to |INVALID_CHARS|
      invariant |s| == |name|
      invariant forall i :: 0 <= i < |s| ==> s[i] == if name[i] in INVALID_CHARS[..k] then '_' else name[i]
    {
      assert INVALID_CHARS[..k + 1] == INVALID_CHARS[..k] + [INVALID_CHARS[k]];
      s := ReplaceChar(s, INVALID_CHARS[k], '_');
    }
    assert INVALID_CHARS[..|INVALID_CHARS|] == INVALID_CHARS;
    assert s == Replaced(name);
    s := Strip(s);
    StripKeepsClean(Replaced(name));
    if |s| > MAX_NAME {
      s := s[..MAX_NAME];
    }
    r := s;
  }

  /** Stripping a name without invalid characters adds none. */
  lemma StripKeepsClean(s: string)
    requires forall i :: 0 <= i < |s| ==> s[i] !in INVALID_CHARS
    ensures forall i :: 0 <= i < |Strip(s)| ==> Strip(s)[i] !in INVALID_CHARS
  {
    var u := StripStart(s);
    var t := Strip(s);
    forall i | 0 <= i < |t| ensures t[i] !in INVALID_CHARS {
      assert t[i] == u[i] == s[|s| - |u| + i];
    }
  }

  /** A name without invalid characters is left alone by the replacement. */
  lemma ReplacedClean(s: string)
    requires forall i :: 0 <= i < |s| ==> s[i] !in INVALID_CHARS
    ensures Replaced(s) == s
  {
  }

  /** A name whose ends are neither spaces nor dots is left alone by the strip. */
  lemma StripTrimmed(s: string)
    requires s != [] ==> s[0] !in STRIP_CHARS && s[|s| - 1] !in STRIP_CHARS
    ensures Strip(s) == s
  {
  }

  /** Sanitising a name that fits after stripping gives a name that
      sanitises to itself. */
  lemma SanitizedFixpoint(name: string)
    requires |Strip(Replaced(name))| <= MAX_NAME
    ensures Sanitized(Sanitized(name)) == Sanitized(name)
  {
    hide *;
    var r := Strip(Replaced(name));
    SanitizedFits(name);
    ReplacedIsClean(name);
    StripKeepsClean(Replaced(name));
    ReplacedClean(r);
    StripTrimmed(r);
    SanitizedFits(r);
  }

  /** A name that fits after stripping is not cut. */
  lemma SanitizedFits(name: string)
    requires |Strip(Replaced(name))| <= MAX_NAME
    ensures Sanitized(name) == Strip(Replaced(name))
  {
  }

  /** The replacement leaves no invalid character. */
  lemma ReplacedIsClean(name: string)
    ensures forall i :: 0 <= i < |Replaced(name)| ==> Replaced(name)[i] !in INVALID_CHARS
  {
    assert '_' !in INVALID_CHARS;
  }

  // ---------------------------------------------------------------------------
  // Sheet layout
  // ---------------------------------------------------------------------------

  /** `SpritesheetConfig`, without the background colour (drawing only). */
  datatype SheetConfig = SheetConfig(columns: nat, cellWidth: nat, cellHeight: nat, padding: nat,
                                     includeLabels: bool, labelFontSize: nat)

  /** `SpritesheetConfig()` */
  const DEFAULT_SHEET := SheetConfig(8, 100, 120, 5, true, 10)
  /** The job sheet's default configuration. */
  const JOB_SHEET := SheetConfig(8, 80, 100, 5, true, 10)
  /** The all-jobs preview's configuration. */
  const PREVIEW_SHEET := SheetConfig(6, 80, 100, 5, true, 10)

  /** `math.ceil(total / columns)`; `None` for no columns, where the
      division raises. */
  function SheetRows(total: nat, columns: nat): (r: Option<nat>)
    ensures columns == 0 <==> r.None?
    ensures r.Some? ==> total <= r.value * columns
    ensures r.Some? && r.value > 0 ==> (r.value - 1) * columns < total
  {
    if columns == 0 then None
    else
      CeilDiv(total, columns);
      Some((total + columns - 1) / columns)
  }

  /** Rounding the quotient up covers `total` and overshoots by less than a row. */
  lemma CeilDiv(total: nat, columns: nat)
    requires columns > 0
    ensures var q := (total + columns - 1) / columns;
            total <= q * columns && (q > 0 ==> (q - 1) * columns < total)
  {
    var n := total + columns - 1;
    var q := n / columns;
    assert n == q * columns + n % columns && 0 <= n % columns < columns;
    assert (q - 1) * columns == q * columns - columns;
  }

  /** The sheet `(width, height)` for `total` cells: as many columns as
      configured, as many rows as needed, each cell padded on both sides. */
  function SheetSize(total: nat, c: SheetConfig): (r: Option<(nat, nat)>)
    ensures c.columns == 0 <==> r.None?
    ensures r.Some? ==> r.value.0 == c.columns * (c.cellWidth + c.padding) + c.padding
    ensures r.Some? ==> r.value.1 == SheetRows(total, c.columns).value * (c.cellHeight + c.padding) + c.padding
  {
    match SheetRows(total, c.columns)
    case None => None
    case Some(rows) => Some((c.columns * (c.cellWidth + c.padding) + c.padding,
                             rows * (c.cellHeight + c.padding) + c.padding))
  }

  /** The top-left corner of cell `i`: column `i % columns`, row `i / columns`. */
  function CellOrigin(i: nat, c: SheetConfig): (nat, nat)
    requires c.columns > 0
  {
    (c.padding + (i % c.columns) * (c.cellWidth + c.padding),
     c.padding + (i / c.columns) * (c.cellHeight + c.padding))
  }

  /** Multiplying by a natural number keeps the order. */
  lemma MulLe(a: nat, b: nat, k: nat)
    requires a <= b
    ensures a * k <= b * k
  {
  }

  /** Slot `k` of `n`, each `w` wide after a padding `p`, ends with its
      padding inside the `n` slots. */
  lemma SlotFits(k: nat, n: nat, w: nat, p: nat)
    requires k < n
    ensures p <= p + k * (w + p)
    ensures p + k * (w + p) + w + p <= n * (w + p) + p
  {
    MulLe(0, k, w + p);
    MulLe(k + 1, n, w + p);
    assert (k + 1) * (w + p) == k * (w + p) + (w + p);
  }

  /** Slots `k < m` are a whole slot apart. */
  lemma SlotsApart(k: nat, m: nat, w: nat, p: nat)
    requires k < m
    ensures p + k * (w + p) + w + p <= p + m * (w + p)
  {
    MulLe(k + 1, m, w + p);
    assert (k + 1) * (w + p) == k * (w + p) + (w + p);
  }

  /** Index `i` below `total <= rows * columns` sits in one of the rows. */
  lemma RowBound(i: nat, total: nat, columns: nat, rows: nat)
    requires columns > 0 && i < total <= rows * columns
    ensures i / columns < rows
  {
    var row := i / columns;
    assert i == row * columns + i % columns;
    if row >= rows {
      MulLe(rows, row, columns);
    }
  }

  /** Every one of `total` cells lies inside the sheet, padding included. */
  lemma CellInside(total: nat, c: SheetConfig, i: nat)
    requires c.columns > 0 && i < total
    ensures var size := SheetSize(total, c).value;
            var origin := CellOrigin(i, c);
            c.padding <= origin.0 && origin.0 + c.cellWidth + c.padding <= size.0 &&
            c.padding <= origin.1 && origin.1 + c.cellHeight + c.padding <= size.1
  {
    var rows := SheetRows(total, c.columns).value;
    var col, row := i % c.columns, i / c.columns;
    assert CellOrigin(i, c) == (c.padding + col * (c.cellWidth + c.padding), c.padding + row * (c.cellHeight + c.padding));
    assert SheetSize(total, c).value == (c.columns * (c.cellWidth + c.padding) + c.padding, rows * (c.cellHeight + c.padding) + c.padding);
    assert row < rows by {
      RowBound(i, total, c.columns, rows);
    }
    assert col < c.columns;
    hide *;
    GridCellFits(col, row, c.columns, rows, c.cellWidth, c.cellHeight, c.padding);
  }

  /** A cell in column `col < columns` and row `row < rows` fits the grid. */
  lemma GridCellFits(col: nat, row: nat, columns: nat, rows: nat, w: nat, h: nat, p: nat)
    requires col < columns && row < rows
    ensures p <= p + col * (w + p) && p + col * (w + p) + w + p <= columns * (w + p) + p
    ensures p <= p + row * (h + p) && p + row * (h + p) + h + p <= rows * (h + p) + p
  {
    SlotFits(col, columns, w, p);
    SlotFits(row, rows, h, p);
  }

  /** Cells `i` and `j` of a grid, by column and row. */
  lemma GridApart(i: nat, j: nat, columns: nat)
    requires columns > 0 && i != j
    ensures i % columns != j % columns || i / columns != j / columns
  {
    assert i == (i / columns) * columns + i % columns;
    assert j == (j / columns) * columns + j % columns;
  }

  /** Two different cells never overlap: they are a whole cell and its
      padding apart across or down. */
  lemma CellsApart(i: nat, j: nat, c: SheetConfig)
    requires c.columns > 0 && i != j
    ensures var a, b := CellOrigin(i, c), CellOrigin(j, c);
            a.0 + c.cellWidth + c.padding <= b.0 || b.0 + c.cellWidth + c.padding <= a.0 ||
            a.1 + c.cellHeight + c.padding <= b.1 || b.1 + c.cellHeight + c.padding <= a.1
  {
    var ci, cj := i % c.columns, j % c.columns;
    var ri, rj := i / c.columns, j / c.columns;
    var a, b := CellOrigin(i, c), CellOrigin(j, c);
    assert a == (c.padding + ci * (c.cellWidth + c.padding), c.padding + ri * (c.cellHeight + c.padding));
    assert b == (c.padding + cj * (c.cellWidth + c.padding), c.padding + rj * (c.cellHeight + c.padding));
    GridApart(i, j, c.columns);
    hide *;
    if ci < cj {
      SlotsApart(ci, cj, c.cellWidth, c.padding);
    } else if cj < ci {
      SlotsApart(cj, ci, c.cellWidth, c.padding);
    } else if ri < rj {
      SlotsApart(ri, rj, c.cellHeight, c.padding);
    } else {
      SlotsApart(rj, ri, c.cellHeight, c.padding);
    }
  }

  /** The job sheet's label column on the left. */
  const LABEL_WIDTH := 60

  /** The job sheet `(width, height)`: the label column, then as many cells
      across as the longest action has frames, one row per action. */
  function JobSheetSize(maxFrames: nat, rows: nat, c: SheetConfig): (nat, nat) {
    (LABEL_WIDTH + maxFrames * (c.cellWidth + c.padding) + c.padding,
     rows * (c.cellHeight + c.padding) + c.padding)
  }

  /** The top-left corner of frame `col` of action row `row`. */
  function JobCellOrigin(row: nat, col: nat, c: SheetConfig): (nat, nat) {
    (LABEL_WIDTH + c.padding + col * (c.cellWidth + c.padding),
     c.padding + row * (c.cellHeight + c.padding))
  }

  /** Every frame cell lies inside the job sheet and right of the labels. */
  lemma JobCellInside(maxFrames: nat, rows: nat, row: nat, col: nat, c: SheetConfig)
    requires row < rows && col < maxFrames
    ensures var size := JobSheetSize(maxFrames, rows, c);
            var origin := JobCellOrigin(row, col, c);
            LABEL_WIDTH + c.padding <= origin.0 && origin.0 + c.cellWidth + c.padding <= size.0 &&
            c.padding <= origin.1 && origin.1 + c.cellHeight + c.padding <= size.1
  {
    SlotFits(col, maxFrames, c.cellWidth, c.padding);
    SlotFits(row, rows, c.cellHeight, c.padding);
  }

  // ---------------------------------------------------------------------------
  // Rendering outcomes
  // ---------------------------------------------------------------------------

  /** What `render_frame` gives: an image, `None`, or an exception. */
  datatype Rendered = Image | NoImage | Raised(message: string)

  /** `render_frame(action, frame, 0)` for a look. */
  type Renderer = (Look, int, int) -> Rendered

  /** The position of the first render that raises, or the number of renders. */
  function FirstRaised(rs: seq<Rendered>): (k: nat)
    ensures k <= |rs|
    ensures k < |rs| ==> rs[k].Raised?
    ensures forall i :: 0 <= i < k ==> !rs[i].Raised?
  {
    if rs == [] || rs[0].Raised? then 0
    else
      var k := FirstRaised(rs[1..]);
      assert forall i :: 1 <= i < 1 + k ==> rs[i] == rs[1..][i - 1];
      1 + k
  }

  /** The first exception is at `k` when none comes before it and `k` is one
      (or the end). */
  lemma FirstRaisedAt(rs: seq<Rendered>, k: nat)
    requires k <= |rs| && (k < |rs| ==> rs[k].Raised?)
    requires forall i :: 0 <= i < k ==> !rs[i].Raised?
    ensures FirstRaised(rs) == k
  {
  }

  /** Rendering a run of frames in order: it stops at the first exception
      with its message, or finishes with the number of images. */
  datatype RunOutcome = Stopped(message: string) | Finished(images: nat)

  /** `n` more images before a run. */
  function Plus(n: nat, o: RunOutcome): RunOutcome {
    if o.Stopped? then o else Finished(n + o.images)
  }

  /** Frames rendered in turn: the number of images up to the first
      exception, or that exception. */
  function Run(rs: seq<Rendered>): (o: RunOutcome)
    ensures o.Finished? ==> o.images <= |rs|
  {
    if rs == [] then Finished(0)
    else match rs[0]
      case Raised(m) => Stopped(m)
      case Image => Plus(1, Run(rs[1..]))
      case NoImage => Run(rs[1..])
  }

  /** Running two stretches of frames one after the other. */
  lemma {:induction false} RunAppend(xs: seq<Rendered>, ys: seq<Rendered>)
    ensures Run(xs + ys) == if Run(xs).Stopped? then Run(xs) else Plus(Run(xs).images, Run(ys))
  {
    if xs != [] {
      assert (xs + ys)[0] == xs[0] && (xs + ys)[1..] == xs[1..] + ys;
      RunAppend(xs[1..], ys);
      match xs[0]
      case Raised(m) =>
      case Image =>
        assert Run(xs + ys) == Plus(1, Run(xs[1..] + ys));
      case NoImage =>
        assert Run(xs + ys) == Run(xs[1..] + ys);
    } else {
      assert xs + ys == ys;
    }
  }

  /** A run stops exactly at its first exception. */
  lemma {:induction false} RunStopsAtFirstRaise(rs: seq<Rendered>)
    ensures Run(rs).Stopped? <==> FirstRaised(rs) < |rs|
    ensures Run(rs).Stopped? ==> Run(rs).message == rs[FirstRaised(rs)].message
  {
    if rs != [] && !rs[0].Raised? {
      RunStopsAtFirstRaise(rs[1..]);
    }
  }

  // ---------------------------------------------------------------------------
  // Exporting every headgear
  // ---------------------------------------------------------------------------

  /** The look rendered for headgear `id`: the chosen sex, `id` on top,
      nothing in the middle or lower slot, the rest as it was. */
  function HeadgearLook(base: Look, gender: string, id: int): Look {
    base.(gender := gender, headgearTop := id, headgearMid := 0, headgearLow := 0)
  }

  /** Frame `frame` of action `action` drawn for `look`. */
  function Draw(render: Renderer, look: Look, action: int, frame: int): Rendered {
    render(look, action, frame)
  }

  /** The render of each headgear in turn. */
  function HeadgearRenders(base: Look, gender: string, ids: seq<int>, render: Renderer): (rs: seq<Rendered>)
    ensures |rs| == |ids|
    ensures forall i :: 0 <= i < |ids| ==> rs[i] == Draw(render, HeadgearLook(base, gender, ids[i]), 0, 0)
  {
    seq(|ids|, i requires 0 <= i < |ids| => Draw(render, HeadgearLook(base, gender, ids[i]), 0, 0))
  }

  /** Whether a database name is used for the file: it is non-empty and is
      not the "Headgear <id>" stand-in for an unknown id. */
  predicate UsableName(name: Option<string>) {
    name.Some? && name.value != [] && !("Headgear " <= name.value)
  }

  /** The file name (without ".png") of headgear `id` given its database
      name: "<id>_<sanitised name>" for a usable name, "headgear_<id>"
      otherwise. */
  function Stem(id: int, name: Option<string>): string {
    if UsableName(name) then IntToString(id) + "_" + Sanitized(name.value)
    else "headgear_" + IntToString(id)
  }

  /** The headgear table of the database, when there is one. */
  function Table(db: ItemDatabase.ItemDatabase?): Option<seq<(int, ItemDatabase.ItemInfo)>>
    reads db
  {
    if db == null then None else Some(db.headgear)
  }

  /** The database name of headgear `id`, when there is a database. */
  function DbName(table: Option<seq<(int, ItemDatabase.ItemInfo)>>, id: int): Option<string> {
    if table.None? then None else Some(ItemDatabase.HeadgearName(table.value, id))
  }

  /** The file name, without extension, of headgear `id` given the headgear table. */
  function FileStem(table: Option<seq<(int, ItemDatabase.ItemInfo)>>, id: int): string {
    Stem(id, DbName(table, id))
  }

  /** The file name the export computes for headgear `id`. */
  method HeadgearFileName(db: ItemDatabase.ItemDatabase?, id: int) returns (name: string)
    ensures name == FileStem(Table(db), id)
    ensures db == null ==> name == "headgear_" + IntToString(id)
  {
    name := "headgear_" + IntToString(id);
    if db != null {
      var dbName := db.GetHeadgearName(id);
      if dbName != [] && !("Headgear " <= dbName) {
        var clean := SanitizeFilename(dbName);
        name := IntToString(id) + "_" + clean;
      }
    }
  }

  /** The file an image named `stem` is saved to in `folder`. */
  function PngPath(folder: string, stem: string): string {
    JoinPath(folder, stem + ".png")
  }

  /** The note left for a headgear that rendered to nothing. */
  function SkipNote(id: int): string {
    "Headgear " + IntToString(id) + ": No sprite found"
  }

  /** The files saved for the first `n` headgear: those rendered to an
      image, in order. */
  function SavedFiles(folder: string, table: Option<seq<(int, ItemDatabase.ItemInfo)>>, ids: seq<int>, rs: seq<Rendered>, n: nat): (r: seq<string>)
    requires n <= |ids| == |rs|
  {
    if n == 0 then []
    else SavedFiles(folder, table, ids, rs, n - 1) + if rs[n - 1].Image? then [PngPath(folder, FileStem(table, ids[n - 1]))] else []
  }

  /** The skip notes for the first `n` headgear: those rendered to nothing, in order. */
  function SkipNotes(ids: seq<int>, rs: seq<Rendered>, n: nat): (r: seq<string>)
    requires n <= |ids| == |rs|
  {
    if n == 0 then []
    else SkipNotes(ids, rs, n - 1) + if rs[n - 1].NoImage? then [SkipNote(ids[n - 1])] else []
  }

  /** Without exceptions each headgear is either saved or skipped. */
  lemma {:induction false} SavedOrSkipped(folder: string, table: Option<seq<(int, ItemDatabase.ItemInfo)>>, ids: seq<int>, rs: seq<Rendered>, n: nat)
    requires n <= |ids| == |rs| && forall i :: 0 <= i < n ==> !rs[i].Raised?
    ensures |SavedFiles(folder, table, ids, rs, n)| + |SkipNotes(ids, rs, n)| == n
  {
    hide FileStem, JoinPath;
    if n > 0 {
      SavedOrSkipped(folder, table, ids, rs, n - 1);
    }
  }

  /** The spelling of a number holds only digits and a leading minus sign. */
  lemma IntToStringChars(i: int)
    ensures forall k :: 0 <= k < |IntToString(i)| ==> IsDigit(IntToString(i)[k]) || IntToString(i)[k] == '-'
  {
    if i < 0 {
      assert forall k :: 1 <= k < |IntToString(i)| ==> IntToString(i)[k] == NatToString(-i)[k - 1];
    }
  }

  /** Two headgear ids never share a file name, whatever their database
      names, so no export overwrites another. */
  lemma StemsDistinct(a: int, b: int, na: Option<string>, nb: Option<string>)
    requires a != b
    ensures Stem(a, na) != Stem(b, nb)
  {
    var sa, sb := IntToString(a), IntToString(b);
    if UsableName(na) && UsableName(nb) {
      NamedStemsDistinct(a, b, Sanitized(na.value), Sanitized(nb.value));
    } else if UsableName(na) {
      NamedNotDefault(a, b, Sanitized(na.value));
    } else if UsableName(nb) {
      NamedNotDefault(b, a, Sanitized(nb.value));
    } else if "headgear_" + sa == "headgear_" + sb {
      CancelPrefix("headgear_", sa, sb);
      IntToStringInjective(a, b);
    }
  }

  /** A named file never looks like a default one: the first begins with a
      digit or a minus sign, the second with 'h'. */
  lemma NamedNotDefault(a: int, b: int, x: string)
    ensures IntToString(a) + "_" + x != "headgear_" + IntToString(b)
  {
    IntToStringChars(a);
    assert (IntToString(a) + "_" + x)[0] == IntToString(a)[0];
  }

  /** The first underscore of "<p>_<x>" is right after `p` when `p` has none. */
  lemma UnderscoreAfter(p: string, x: string)
    requires forall k :: 0 <= k < |p| ==> p[k] != '_'
    ensures Find(p + "_" + x, "_") == |p|
  {
    var s := p + "_" + x;
    assert s[|p|..|p| + 1] == "_";
    assert OccursAt("_", s, |p|);
    forall j | 0 <= j < |p| ensures !OccursAt("_", s, j) {
      assert s[j..j + 1] == [p[j]];
    }
  }

  /** "<a>_<x>" and "<b>_<y>" are equal only for `a == b`. */
  lemma NamedStemsDistinct(a: int, b: int, x: string, y: string)
    requires a != b
    ensures IntToString(a) + "_" + x != IntToString(b) + "_" + y
  {
    var sa, sb := IntToString(a), IntToString(b);
    IntToStringChars(a);
    IntToStringChars(b);
    if sa + "_" + x == sb + "_" + y {
      UnderscoreAfter(sa, x);
      UnderscoreAfter(sb, y);
      assert sa == (sa + "_" + x)[..|sa|] && sb == (sb + "_" + y)[..|sb|];
      IntToStringInjective(a, b);
    }
  }

  /** `export_all_headgear`: without Pillow, the Pillow error. Otherwise
      each headgear in turn is put on top (middle and lower slots emptied)
      and rendered for the chosen sex; an image is saved, no image is noted
      as skipped, and an exception ends the export with its message and no
      success. The top headgear and the sex are restored at the end; the
      middle and lower slots stay empty once any headgear was tried. On
      success every headgear was saved or skipped. */
  method ExportAllHeadgear(c: SpriteCompositor, db: ItemDatabase.ItemDatabase?, outputPath: string,
                           ids: seq<int>, gender: string, pilAvailable: bool, render: Renderer)
    returns (r: ExportResult, saved: seq<string>)
    modifies c
    ensures !pilAvailable ==> r == NO_PILLOW && saved == [] && c.CurrentLook() == old(c.CurrentLook())
    ensures pilAvailable ==>
      var folder := JoinPath(outputPath, "headgear");
      var rs := HeadgearRenders(old(c.CurrentLook()), gender, ids, render);
      var k := FirstRaised(rs);
      saved == SavedFiles(folder, Table(db), ids, rs, k) &&
      r.skipped == SkipNotes(ids, rs, k) &&
      (k == |ids| ==> r == NewResult(true, folder, |saved|, None, Some(r.skipped))) &&
      (k < |ids| ==> r == NewResult(false, "", 0, Some([rs[k].message]), Some(r.skipped)))
    ensures r.success ==> r.count + |r.skipped| == |ids|
    ensures c.headgearTop == old(c.headgearTop) && c.gender == old(c.gender)
    ensures c.job == old(c.job) && c.headId == old(c.headId)
    ensures pilAvailable && ids != [] ==> c.headgearMid == 0 && c.headgearLow == 0
    ensures !pilAvailable || ids == [] ==> c.headgearMid == old(c.headgearMid) && c.headgearLow == old(c.headgearLow)
  {
    if !pilAvailable {
      return NO_PILLOW, [];
    }
    var folder := JoinPath(outputPath, "headgear");
    ghost var base := c.CurrentLook();
    ghost var rs := HeadgearRenders(base, gender, ids, render);
    var originalTop, originalGender := c.headgearTop, c.gender;
    c.gender := gender;
    assert HeadgearRenders(c.CurrentLook(), gender, ids, render) == rs by {
      forall i | 0 <= i < |ids| ensures HeadgearLook(c.CurrentLook(), gender, ids[i]) == HeadgearLook(base, gender, ids[i]) {
      }
    }
    var skipped, error;
    saved, skipped, error := ExportEachHeadgear(c, db, folder, ids, render);
    hide SavedFiles, SkipNotes, FileStem, JoinPath, HeadgearRenders;
    if error.None? {
      SavedOrSkipped(folder, Table(db), ids, rs, |ids|);
      r := NewResult(true, folder, |saved|, None, Some(skipped));
    } else {
      r := NewResult(false, "", 0, Some([error.value]), Some(skipped));
    }
    c.headgearTop, c.gender := originalTop, originalGender;
  }

  /** What the loop of `export_all_headgear` has produced after the first
      `n` headgear, none of which raised. */
  predicate Progress(folder: string, table: Option<seq<(int, ItemDatabase.ItemInfo)>>, ids: seq<int>,
                     rs: seq<Rendered>, n: nat, saved: seq<string>, skipped: seq<string>)
  {
    n <= |ids| == |rs| && (forall j :: 0 <= j < n ==> !rs[j].Raised?) &&
    saved == SavedFiles(folder, table, ids, rs, n) && skipped == SkipNotes(ids, rs, n)
  }

  /** What the loop of `export_all_headgear` produces: the files and notes up
      to the first exception, and that exception's message. */
  predicate Outcome(folder: string, table: Option<seq<(int, ItemDatabase.ItemInfo)>>, ids: seq<int>,
                    rs: seq<Rendered>, saved: seq<string>, skipped: seq<string>, error: Option<string>)
    requires |ids| == |rs|
  {
    var k := FirstRaised(rs);
    saved == SavedFiles(folder, table, ids, rs, k) && skipped == SkipNotes(ids, rs, k) &&
    (error.None? <==> k == |ids|) && (error.Some? ==> error.value == rs[k].message)
  }

  /** Before the loop nothing is saved or skipped. */
  lemma ProgressStart(folder: string, table: Option<seq<(int, ItemDatabase.ItemInfo)>>, ids: seq<int>, rs: seq<Rendered>)
    requires |ids| == |rs|
    ensures Progress(folder, table, ids, rs, 0, [], [])
  {
  }

  /** A headgear that did not raise adds its file or its note. */
  lemma ProgressStep(folder: string, table: Option<seq<(int, ItemDatabase.ItemInfo)>>, ids: seq<int>,
                     rs: seq<Rendered>, n: nat, saved: seq<string>, skipped: seq<string>)
    requires Progress(folder, table, ids, rs, n, saved, skipped) && n < |ids| && !rs[n].Raised?
    ensures rs[n].Image? ==> Progress(folder, table, ids, rs, n + 1, saved + [PngPath(folder, FileStem(table, ids[n]))], skipped)
    ensures rs[n].NoImage? ==> Progress(folder, table, ids, rs, n + 1, saved, skipped + [SkipNote(ids[n])])
  {
    hide SavedFiles, SkipNotes, PngPath, SkipNote, FileStem;
    SavedStep(folder, table, ids, rs, n);
    SkipStep(ids, rs, n);
    if rs[n].Image? {
      assert SkipNotes(ids, rs, n + 1) == skipped;
    } else {
      assert SavedFiles(folder, table, ids, rs, n + 1) == saved;
    }
  }

  /** One more headgear adds its file when it rendered to an image. */
  lemma SavedStep(folder: string, table: Option<seq<(int, ItemDatabase.ItemInfo)>>, ids: seq<int>, rs: seq<Rendered>, n: nat)
    requires n < |ids| == |rs|
    ensures SavedFiles(folder, table, ids, rs, n + 1) ==
      SavedFiles(folder, table, ids, rs, n) + if rs[n].Image? then [PngPath(folder, FileStem(table, ids[n]))] else []
  {
  }

  /** One more headgear adds its note when it rendered to nothing. */
  lemma SkipStep(ids: seq<int>, rs: seq<Rendered>, n: nat)
    requires n < |ids| == |rs|
    ensures SkipNotes(ids, rs, n + 1) ==
      SkipNotes(ids, rs, n) + if rs[n].NoImage? then [SkipNote(ids[n])] else []
  {
  }

  /** The loop ends at the end of the ids or at the first exception. */
  lemma ProgressEnd(folder: string, table: Option<seq<(int, ItemDatabase.ItemInfo)>>, ids: seq<int>,
                    rs: seq<Rendered>, n: nat, saved: seq<string>, skipped: seq<string>, error: Option<string>)
    requires Progress(folder, table, ids, rs, n, saved, skipped)
    requires n == |ids| ==> error.None?
    requires n < |ids| ==> rs[n].Raised? && error == Some(rs[n].message)
    ensures Outcome(folder, table, ids, rs, saved, skipped, error)
  {
    FirstRaisedAt(rs, n);
  }

  /** The loop of `export_all_headgear`, for the sex already chosen: each
      headgear in turn put on top and rendered, up to the first exception. */
  method ExportEachHeadgear(c: SpriteCompositor, db: ItemDatabase.ItemDatabase?, folder: string,
                            ids: seq<int>, render: Renderer)
    returns (saved: seq<string>, skipped: seq<string>, error: Option<string>)
    modifies c
    ensures Outcome(folder, Table(db), ids, HeadgearRenders(old(c.CurrentLook()), old(c.gender), ids, render), saved, skipped, error)
    ensures c.job == old(c.job) && c.headId == old(c.headId) && c.gender == old(c.gender)
    ensures ids != [] ==> c.headgearMid == 0 && c.headgearLow == 0
    ensures ids == [] ==> c.CurrentLook() == old(c.CurrentLook())
  {
    ghost var base := c.CurrentLook();
    ghost var rs := HeadgearRenders(base, base.gender, ids, render);
    ghost var table := Table(db);
    skipped, error := [], None;
    saved := [];
    ProgressStart(folder, table, ids, rs);
    assert c.job == base.job && c.headId == base.headId && c.gender == base.gender;
    assert c.headgearTop == base.headgearTop && c.headgearMid == base.headgearMid && c.headgearLow == base.headgearLow;
    hide *;
    var i := 0;
    while i < |ids|
      invariant 0 <= i <= |ids|
      invariant c.job == base.job && c.headId == base.headId && c.gender == base.gender
      invariant i > 0 ==> c.headgearMid == 0 && c.headgearLow == 0
      invariant i == 0 ==> c.headgearTop == base.headgearTop && c.headgearMid == base.headgearMid && c.headgearLow == base.headgearLow
      invariant i == 0 ==> c.CurrentLook() == base
      invariant Table(db) == table
      invariant Progress(folder, table, ids, rs, i, saved, skipped)
    {
      var img, name := TryHeadgear(c, db, ids[i], render, base);
      if img.Raised? {
        error := Some(img.message);
        break;
      }
      ProgressStep(folder, table, ids, rs, i, saved, skipped);
      if img.Image? {
        saved := saved + [PngPath(folder, name)];
      } else {
        skipped := skipped + [SkipNote(ids[i])];
      }
      i := i + 1;
    }
    ProgressEnd(folder, table, ids, rs, i, saved, skipped, error);
  }



  /** One headgear of the loop: put on top with the middle and lower slots
      emptied, rendered, and named when it gave an image. */
  method TryHeadgear(c: SpriteCompositor, db: ItemDatabase.ItemDatabase?, id: int, render: Renderer, ghost base: Look)
    returns (img: Rendered, name: string)
    requires c.job == base.job && c.headId == base.headId && c.gender == base.gender
    modifies c
    ensures c.job == old(c.job) && c.headId == old(c.headId) && c.gender == old(c.gender)
    ensures c.headgearTop == id && c.headgearMid == 0 && c.headgearLow == 0
    ensures img == Draw(render, HeadgearLook(base, base.gender, id), 0, 0)
    ensures img.Image? ==> name == FileStem(Table(db), id)
  {
    c.headgearTop, c.headgearMid, c.headgearLow := id, 0, 0;
    img := Draw(render, c.CurrentLook(), 0, 0);
    assert c.CurrentLook() == HeadgearLook(base, base.gender, id);
    name := "";
    if img.Image? {
      name := HeadgearFileName(db, id);
    }
  }

  // ---------------------------------------------------------------------------
  // The job sheet
  // ---------------------------------------------------------------------------

  /** Stand, walk, sit, ready, attack, hurt, dead and cast, facing south. */
  const DEFAULT_ACTIONS: seq<int> := [0, 8, 16, 32, 40, 48, 64, 72]
  const FRAMES_PER_ACTION := 8

  /** The renders of one action's eight frames. */
  function ActionRenders(look: Look, action: int, render: Renderer): (rs: seq<Rendered>)
    ensures |rs| == FRAMES_PER_ACTION
    ensures forall f :: 0 <= f < FRAMES_PER_ACTION ==> rs[f] == render(look, action, f)
  {
    seq(FRAMES_PER_ACTION, f requires 0 <= f < FRAMES_PER_ACTION => render(look, action, f))
  }

  /** The renders of the job sheet: action by action, eight frames each. */
  function JobRenders(look: Look, actions: seq<int>, render: Renderer): (rs: seq<Rendered>)
    ensures |rs| == FRAMES_PER_ACTION * |actions|
  {
    if actions == [] then [] else ActionRenders(look, actions[0], render) + JobRenders(look, actions[1..], render)
  }

  /** The renders of two action lists one after the other. */
  lemma {:induction false} JobRendersAppend(look: Look, xs: seq<int>, ys: seq<int>, render: Renderer)
    ensures JobRenders(look, xs + ys, render) == JobRenders(look, xs, render) + JobRenders(look, ys, render)
  {
    if xs != [] {
      assert (xs + ys)[0] == xs[0] && (xs + ys)[1..] == xs[1..] + ys;
      JobRendersAppend(look, xs[1..], ys, render);
      var a := ActionRenders(look, xs[0], render);
      assert JobRenders(look, xs + ys, render) == a + (JobRenders(look, xs[1..], render) + JobRenders(look, ys, render));
      assert JobRenders(look, xs, render) == a + JobRenders(look, xs[1..], render);
    } else {
      assert xs + ys == ys;
    }
  }

  /** The job sheet's image count never exceeds eight per action. */
  lemma JobCountBound(look: Look, actions: seq<int>, render: Renderer)
    ensures Run(JobRenders(look, actions, render)).Finished? ==>
            Run(JobRenders(look, actions, render)).images <= FRAMES_PER_ACTION * |actions|
  {
  }

  /** The total number of frames over the actions that rendered any. */
  function Total(frames: seq<(int, nat)>): nat {
    if frames == [] then 0 else Total(frames[..|frames| - 1]) + frames[|frames| - 1].1
  }

  /** One action of the job sheet: its eight frames rendered in turn,
      counting the images, up to the first exception. */
  method RenderAction(c: SpriteCompositor, action: int, render: Renderer) returns (n: nat, error: Option<string>)
    ensures Run(ActionRenders(c.CurrentLook(), action, render)) ==
            if error.Some? then Stopped(error.value) else Finished(n)
  {
    ghost var rs := ActionRenders(c.CurrentLook(), action, render);
    n, error := 0, None;
    var f := 0;
    while f < FRAMES_PER_ACTION
      invariant 0 <= f <= FRAMES_PER_ACTION
      invariant Run(rs) == Plus(n, Run(rs[f..]))
    {
      assert rs[f..] == [rs[f]] + rs[f + 1..];
      var img := render(c.CurrentLook(), action, f);
      if img.Raised? {
        return n, Some(img.message);
      }
      if img.Image? {
        n := n + 1;
      }
      f := f + 1;
    }
  }

  /** The job sheet's run after one more action: it stops with that
      action's exception, or adds its images. */
  lemma ActionStep(look: Look, acts: seq<int>, i: nat, render: Renderer, total: nat, n: nat, e: Option<string>)
    requires i < |acts| && Run(JobRenders(look, acts[..i], render)) == Finished(total)
    requires Run(ActionRenders(look, acts[i], render)) == if e.Some? then Stopped(e.value) else Finished(n)
    ensures e.None? ==> Run(JobRenders(look, acts[..i + 1], render)) == Finished(total + n)
    ensures e.Some? ==> Run(JobRenders(look, acts, render)) == Stopped(e.value)
  {
    var done, next := JobRenders(look, acts[..i], render), ActionRenders(look, acts[i], render);
    JobRendersAppend(look, acts[..i], [acts[i]], render);
    assert acts[..i + 1] == acts[..i] + [acts[i]];
    assert JobRenders(look, [acts[i]], render) == next + [] by {
      assert [acts[i]][1..] == [];
    }
    assert done + (next + []) == done + next;
    RunAppend(done, next);
    if e.Some? {
      JobRendersAppend(look, acts[..i + 1], acts[i + 1..], render);
      assert acts[..i + 1] + acts[i + 1..] == acts;
      RunAppend(JobRenders(look, acts[..i + 1], render), JobRenders(look, acts[i + 1..], render));
    }
  }

  /** The actions a job sheet covers: the given ones, or the defaults. */
  function SheetActions(actions: Option<seq<int>>): seq<int> {
    if actions.Some? then actions.value else DEFAULT_ACTIONS
  }

  /** The job sheet after its first `i` actions: none raised, and `frames`
      lists the actions that gave images with their image counts, whose sum
      is the run's count. */
  predicate SheetProgress(look: Look, acts: seq<int>, render: Renderer, i: nat, frames: seq<(int, nat)>) {
    i <= |acts| && Run(JobRenders(look, acts[..i], render)) == Finished(Total(frames)) &&
    (frames != [] ==> frames[|frames| - 1].1 > 0)
  }

  /** Before the first action no frame is rendered. */
  lemma SheetStart(look: Look, acts: seq<int>, render: Renderer)
    ensures SheetProgress(look, acts, render, 0, [])
  {
    assert acts[..0] == [];
  }

  /** An action that rendered without exception adds its frames (when it has
      images) to the sheet. */
  lemma SheetStep(look: Look, acts: seq<int>, render: Renderer, i: nat, frames: seq<(int, nat)>, n: nat)
    requires SheetProgress(look, acts, render, i, frames) && i < |acts|
    requires Run(ActionRenders(look, acts[i], render)) == Finished(n)
    ensures SheetProgress(look, acts, render, i + 1, if n > 0 then frames + [(acts[i], n)] else frames)
  {
    ActionStep(look, acts, i, render, Total(frames), n, None);
    if n > 0 {
      assert (frames + [(acts[i], n)])[..|frames|] == frames;
    }
  }

  /** Listing only actions with images, the sheet has no images exactly when
      the list is empty. */
  lemma SheetEnd(look: Look, acts: seq<int>, render: Renderer, frames: seq<(int, nat)>)
    requires SheetProgress(look, acts, render, |acts|, frames)
    ensures Run(JobRenders(look, acts, render)) == Finished(Total(frames))
    ensures frames == [] <==> Total(frames) == 0
  {
    assert acts[..|acts|] == acts;
  }

  /** The loop of `export_job_spritesheet`: each action rendered in turn for
      the compositor's current look, up to the first exception; `frames`
      lists the actions that gave images, with their image counts. */
  method RenderSheet(c: SpriteCompositor, acts: seq<int>, render: Renderer)
    returns (frames: seq<(int, nat)>, error: Option<string>)
    ensures error.Some? ==> Run(JobRenders(c.CurrentLook(), acts, render)) == Stopped(error.value)
    ensures error.None? ==> Run(JobRenders(c.CurrentLook(), acts, render)) == Finished(Total(frames))
    ensures error.None? ==> (frames == [] <==> Total(frames) == 0)
  {
    ghost var look := c.CurrentLook();
    frames, error := [], None;
    SheetStart(look, acts, render);
    hide *;
    var i := 0;
    while i < |acts|
      invariant SheetProgress(look, acts, render, i, frames)
    {
      var n, e := RenderAction(c, acts[i], render);
      if e.Some? {
        ActionStep(look, acts, i, render, Total(frames), n, e);
        return frames, e;
      }
      SheetStep(look, acts, render, i, frames, n);
      if n > 0 {
        frames := frames + [(acts[i], n)];
      }
      i := i + 1;
    }
    SheetEnd(look, acts, render, frames);
  }

  /** `export_job_spritesheet`: without Pillow, the Pillow error. Otherwise
      every frame of every action is rendered for the job and sex. An
      exception ends the export with its message; no image at all gives
      "No frames rendered"; otherwise the sheet is saved under the sanitised
      job name and the count is the number of frames rendered. The job and
      the sex are restored in every case. */
  method ExportJobSpritesheet(c: SpriteCompositor, outputPath: string, jobName: string, gender: string,
                              actions: Option<seq<int>>, pilAvailable: bool, render: Renderer)
    returns (r: ExportResult, saved: seq<string>)
    modifies c
    ensures c.CurrentLook() == old(c.CurrentLook())
    ensures !pilAvailable ==> r == NO_PILLOW && saved == []
    ensures pilAvailable ==>
      var o := Run(JobRenders(old(c.CurrentLook()).(job := jobName, gender := gender), SheetActions(actions), render));
      var sheet := JoinPath(outputPath, Sanitized(jobName) + "_" + gender + "_sheet.png");
      (o.Stopped? ==> r == NewResult(false, "", 0, Some([o.message]), None) && saved == []) &&
      (o == Finished(0) ==> r == NewResult(false, "", 0, Some(["No frames rendered"]), None) && saved == []) &&
      (o.Finished? && o.images > 0 ==> r == NewResult(true, sheet, o.images, None, None) && saved == [sheet])
  {
    if !pilAvailable {
      return NO_PILLOW, [];
    }
    var acts := SheetActions(actions);
    var originalJob, originalGender := c.job, c.gender;
    c.job, c.gender := jobName, gender;
    var frames, error := RenderSheet(c, acts, render);
    hide Run, JobRenders, Sanitized, JoinPath;
    if error.Some? {
      r, saved := NewResult(false, "", 0, Some([error.value]), None), [];
    } else if frames == [] {
      r, saved := NewResult(false, "", 0, Some(["No frames rendered"]), None), [];
    } else {
      var clean := SanitizeFilename(jobName);
      var sheet := JoinPath(outputPath, clean + "_" + gender + "_sheet.png");
      r, saved := NewResult(true, sheet, Total(frames), None, None), [sheet];
    }
    c.job, c.gender := originalJob, originalGender;
  }
}
