/** The stricter SPR reader ported from GRFEditor: RLE with a coverage check,
    ARGB frames turned into top-down RGBA, and early stops that keep what was read. */
module SprFallback {
  import opened Wrappers
  import opened Bytes
  import opened SprParser

  /** Highest frame count of either kind the reader accepts. */
  const MAX_FRAMES := 1000

  // ---------------------------------------------------------------------------
  // RLE with a coverage check
  // ---------------------------------------------------------------------------

  /** The loop of `decompress_rle` from the unread input `c`; `out` is the buffer up to
      `position` (a skip leaves the zeros the buffer was created with). `None` when a
      skip runs past `n`. */
  function StrictFrom(c: seq<byte>, out: seq<byte>, n: nat): (r: Option<seq<byte>>)
    requires |out| <= n
    ensures r.Some? ==> out <= r.value && |r.value| <= n
    decreases |c|
  {
    if |c| == 0 || |out| >= n then Some(out)
    else if c[0] != 0 then StrictFrom(c[1..], out + [c[0]], n)
    else if |c| == 1 then Some(out)
    else if |out| + c[1] > n then None
    else StrictFrom(c[2..], out + Fill(c[1], 0), n)
  }

  /** `decompress_rle(data, n)`: `None` for no input, a non-positive length, a skip
      past the end, or less than 90% of the length produced; otherwise exactly `n`
      bytes. The float test `position < n * 0.9` is taken as `10 * position < 9 * n`. */
  function DecompressStrict(data: seq<byte>, n: int): (r: Option<seq<byte>>)
    ensures |data| == 0 || n <= 0 ==> r.None?
    ensures r.Some? ==> |r.value| == n
    ensures r.Some? ==> StrictFrom(data, [], n).Some? && 10 * |StrictFrom(data, [], n).value| >= 9 * n
  {
    if |data| == 0 || n <= 0 then None
    else match StrictFrom(data, [], n)
      case None => None
      case Some(o) => if 10 * |o| < 9 * n then None else Some(o + Fill(n - |o|, 0))
  }

  /** The decoding loop of `decompress_rle` over a zeroed buffer; `ok` is false where
      the source returns `None` for a skip past the end. */
  method DecodeRuns(data: seq<byte>, buffer: array<byte>) returns (ok: bool, position: nat)
    requires forall j :: 0 <= j < buffer.Length ==> buffer[j] == 0
    modifies buffer
    ensures ok <==> StrictFrom(data, [], buffer.Length).Some?
    ensures ok ==> position <= buffer.Length && buffer[..position] == StrictFrom(data, [], buffer.Length).value
    ensures ok ==> forall j :: position <= j < buffer.Length ==> buffer[j] == 0
  {
    var n := buffer.Length;
    position := 0;
    var k := 0;
    while k < |data| && position < n
      invariant k <= |data| && position <= n
      invariant forall j :: position <= j < n ==> buffer[j] == 0
      invariant StrictFrom(data[k..], buffer[..position], n) == StrictFrom(data, [], n)
    {
      var b := data[k];
      ghost var rest := data[k..];
      ghost var out := buffer[..position];
      if b == 0 {
        k := k + 1;
        if k >= |data| {
          assert |rest| == 1;
          break;
        }
        var skip := data[k];
        assert rest[1] == skip && rest[2..] == data[k + 1..];
        if position + skip > n {
          return false, position;
        }
        assert buffer[..position + skip] == out + Fill(skip, 0);
        position := position + skip;
        k := k + 1;
      } else {
        assert rest[1..] == data[k + 1..];
        buffer[position] := b;
        assert buffer[..position + 1] == out + [b];
        position := position + 1;
        k := k + 1;
      }
    }
    return true, position;
  }

  /** `decompress_rle`: decodes into a zeroed buffer of `n` bytes, checks coverage,
      then zero-fills the rest. */
  method DecompressRleStrict(data: seq<byte>, n: int) returns (r: Option<seq<byte>>)
    ensures r == DecompressStrict(data, n)
  {
    if |data| == 0 || n <= 0 {
      return None;
    }
    var buffer := new byte[n](_ => 0);
    var ok, position := DecodeRuns(data, buffer);
    if !ok || 10 * position < 9 * n {
      return None;
    }
    ghost var produced := buffer[..position];
    while position < n
      invariant |produced| <= position <= n
      invariant buffer[..position] == produced + Fill(position - |produced|, 0)
      invariant forall j :: position <= j < n ==> buffer[j] == 0
    {
      buffer[position] := 0;
      position := position + 1;
    }
    assert buffer[..] == buffer[..position];
    return Some(buffer[..]);
  }

  lemma StrictFromLiteral(c: seq<byte>, out: seq<byte>, n: nat)
    requires |c| > 0 && c[0] != 0 && |out| < n
    ensures StrictFrom(c, out, n) == StrictFrom(c[1..], out + [c[0]], n)
  {
  }

  lemma StrictFromRun(c: seq<byte>, out: seq<byte>, n: nat)
    requires |c| >= 2 && c[0] == 0 && |out| + c[1] <= n && |out| < n
    ensures StrictFrom(c, out, n) == StrictFrom(c[2..], out + Fill(c[1], 0), n)
  {
  }

  /** Where the strict decoder succeeds it agrees with the padding decoder of
      `SPRParser._decompress_rle`. */
  lemma {:induction false} StrictFromAgrees(c: seq<byte>, out: seq<byte>, n: nat)
    requires |out| <= n && StrictFrom(c, out, n).Some?
    ensures StrictFrom(c, out, n).value == RleFrom(c, out, n)
    decreases |c|
  {
    if |c| == 0 || |out| >= n {
    } else if c[0] != 0 {
      StrictFromLiteral(c, out, n);
      RleFromLiteral(c, out, n);
      StrictFromAgrees(c[1..], out + [c[0]], n);
    } else if |c| == 1 {
    } else {
      StrictFromRun(c, out, n);
      RleFromRun(c, out, n);
      StrictFromAgrees(c[2..], out + Fill(c[1], 0), n);
    }
  }

  lemma StrictAgrees(data: seq<byte>, n: int)
    requires DecompressStrict(data, n).Some?
    ensures DecompressStrict(data, n).value == Rle(data, n)
  {
    StrictFromAgrees(data, [], n);
  }

  lemma {:induction false} StrictFromEncode(p: seq<byte>, out: seq<byte>, n: nat)
    requires |out| + |p| <= n
    ensures StrictFrom(RleEncode(p), out, n) == Some(out + p)
    decreases |p|, 1
  {
    if |p| == 0 {
      assert out + p == out;
    } else if p[0] != 0 {
      StrictFromEncodeLiteral(p, out, n);
    } else {
      StrictFromEncodeRun(p, out, n);
    }
  }

  lemma {:induction false} StrictFromEncodeLiteral(p: seq<byte>, out: seq<byte>, n: nat)
    requires |out| + |p| <= n && |p| > 0 && p[0] != 0
    ensures StrictFrom(RleEncode(p), out, n) == Some(out + p)
    decreases |p|, 0
  {
    var c := RleEncode(p);
    assert c[0] == p[0] && c[1..] == RleEncode(p[1..]);
    StrictFromLiteral(c, out, n);
    StrictFromEncode(p[1..], out + [p[0]], n);
    assert out + [p[0]] + p[1..] == out + p;
  }

  lemma {:induction false} StrictFromEncodeRun(p: seq<byte>, out: seq<byte>, n: nat)
    requires |out| + |p| <= n && |p| > 0 && p[0] == 0
    ensures StrictFrom(RleEncode(p), out, n) == Some(out + p)
    decreases |p|, 0
  {
    var k := EncodeRun(p);
    var c := RleEncode(p);
    StrictFromRun(c, out, n);
    StrictFromEncode(p[k..], out + Fill(k, 0), n);
    assert out + Fill(k, 0) + p[k..] == out + p by {
      assert p == p[..k] + p[k..];
    }
  }

  /** Encoded pixels decode back in full, so the coverage check passes. */
  lemma StrictRoundTrip(p: seq<byte>)
    requires |p| > 0
    ensures DecompressStrict(RleEncode(p), |p|) == Some(p)
  {
    StrictFromEncode(p, [], |p|);
    assert [] + p + Fill(0, 0) == p;
    assert RleEncode(p) != [] by {
      if p[0] == 0 {
        var k := EncodeRun(p);
      }
    }
  }

  // ---------------------------------------------------------------------------
  // ARGB rows to top-down RGBA
  // ---------------------------------------------------------------------------

  /** The pixel count of a `w` by `h` frame. */
  function Pixels(w: nat, h: nat): nat {
    w * h
  }

  /** Byte `i` of a row after each pixel `[A, R, G, B]` becomes `[R, G, B, A]`. */
  function Swizzled(row: seq<byte>, i: nat): byte
    requires |row| % 4 == 0 && i < |row|
  {
    row[i - i % 4 + (i % 4 + 1) % 4]
  }

  /** A row with its channels reordered. */
  function ArgbToRgba(row: seq<byte>): (r: seq<byte>)
    requires |row| % 4 == 0
    ensures |r| == |row|
  {
    seq(|row|, i requires 0 <= i < |row| => Swizzled(row, i))
  }

  /** Four bytes of a pixel. */
  function PixelOf(s: seq<byte>, x: nat): seq<byte>
    requires 4 * x + 4 <= |s|
  {
    s[4 * x..4 * x + 4]
  }

  lemma ArgbToRgbaPixel(row: seq<byte>, x: nat)
    requires |row| % 4 == 0 && 4 * x + 4 <= |row|
    ensures PixelOf(ArgbToRgba(row), x) == [row[4 * x + 1], row[4 * x + 2], row[4 * x + 3], row[4 * x]]
  {
    var r := ArgbToRgba(row);
    assert (4 * x) % 4 == 0 && (4 * x + 1) % 4 == 1 && (4 * x + 2) % 4 == 2 && (4 * x + 3) % 4 == 3;
    assert r[4 * x] == row[4 * x + 1];
    assert r[4 * x + 1] == row[4 * x + 2];
    assert r[4 * x + 2] == row[4 * x + 3];
    assert r[4 * x + 3] == row[4 * x];
  }

  /** Row `y` of an image whose rows are `rowSize` bytes. */
  function Row(s: seq<byte>, rowSize: nat, y: nat): seq<byte>
    requires (y + 1) * rowSize <= |s|
  {
    s[y * rowSize..y * rowSize + rowSize]
  }

  lemma RowsFit(rowSize: nat, y: nat, h: nat)
    requires y < h
    ensures (y + 1) * rowSize <= h * rowSize
  {
  }

  /** Rows `h - 1` down to `y` of `s`, each reordered: the output once the loop
      `for y in range(height - 1, -1, -1)` has done those rows. */
  function FlippedFrom(s: seq<byte>, rowSize: nat, h: nat, y: nat): (r: seq<byte>)
    requires rowSize % 4 == 0 && h * rowSize <= |s| && y <= h
    ensures |r| == (h - y) * rowSize
    decreases h - y
  {
    if y == h then []
    else
      RowsFit(rowSize, y, h);
      FlippedFrom(s, rowSize, h, y + 1) + ArgbToRgba(Row(s, rowSize, y))
  }

  lemma MulSucc(m: nat, rowSize: nat)
    ensures (m + 1) * rowSize == m * rowSize + rowSize
  {
  }

  /** A row of the front part of a concatenation of rows. */
  lemma RowOfPrefix(a: seq<byte>, b: seq<byte>, rowSize: nat, m: nat, k: nat)
    requires |a| == m * rowSize && k < m
    ensures (k + 1) * rowSize <= |a| && Row(a + b, rowSize, k) == Row(a, rowSize, k)
  {
    RowsFit(rowSize, k, m);
    MulSucc(k, rowSize);
  }

  /** The row appended last. */
  lemma RowOfLast(a: seq<byte>, b: seq<byte>, rowSize: nat, m: nat)
    requires |a| == m * rowSize && |b| == rowSize
    ensures (m + 1) * rowSize <= |a + b| && Row(a + b, rowSize, m) == b
  {
    MulSucc(m, rowSize);
  }

  lemma {:induction false} FlippedRow(s: seq<byte>, rowSize: nat, h: nat, y: nat, k: nat)
    requires rowSize % 4 == 0 && h * rowSize <= |s| && y <= h && k < h - y
    ensures (k + 1) * rowSize <= |FlippedFrom(s, rowSize, h, y)|
    ensures (h - k) * rowSize <= |s|
            && Row(FlippedFrom(s, rowSize, h, y), rowSize, k) == ArgbToRgba(Row(s, rowSize, h - 1 - k))
    decreases h - y
  {
    RowsFit(rowSize, h - 1 - k, h);
    RowsFit(rowSize, y, h);
    var a := FlippedFrom(s, rowSize, h, y + 1);
    var b := ArgbToRgba(Row(s, rowSize, y));
    assert FlippedFrom(s, rowSize, h, y) == a + b;
    if k < h - y - 1 {
      FlippedRow(s, rowSize, h, y + 1, k);
      RowOfPrefix(a, b, rowSize, h - y - 1, k);
    } else {
      RowOfLast(a, b, rowSize, h - y - 1);
    }
  }

  /** `data` zero-padded to `size` bytes when shorter. */
  function Padded(data: seq<byte>, size: nat): (r: seq<byte>)
    ensures |r| >= size && |r| >= |data| && r[..|data|] == data
  {
    if |data| < size then data + Fill(size - |data|, 0) else data
  }

  /** `convert_bgra32_to_rgba`: `None` for no data or a non-positive size, otherwise
      the rows of the zero-padded input in reverse order, every pixel reordered. */
  function ConvertBgra32(data: seq<byte>, w: int, h: int): (r: Option<seq<byte>>)
    ensures |data| == 0 || w <= 0 || h <= 0 <==> r.None?
    ensures r.Some? ==> |r.value| == Pixels(w, h) * 4
  {
    if |data| == 0 || w <= 0 || h <= 0 then None
    else
      var size := Pixels(w, h) * 4;
      assert h * (4 * w) == size;
      Some(FlippedFrom(Padded(data, size), 4 * w, h, 0))
  }

  /** Output pixel `(x, y)` is input pixel `(x, h - 1 - y)` with `[A, R, G, B]`
      turned into `[R, G, B, A]`. */
  lemma FlippedPixel(s: seq<byte>, w: nat, h: nat, y: nat, x: nat)
    requires h * (4 * w) <= |s| && y < h && x < w
    ensures (h - y) * (4 * w) <= |s| && (y + 1) * (4 * w) <= |FlippedFrom(s, 4 * w, h, 0)|
    ensures var src := PixelOf(Row(s, 4 * w, h - 1 - y), x);
            PixelOf(Row(FlippedFrom(s, 4 * w, h, 0), 4 * w, y), x) == [src[1], src[2], src[3], src[0]]
  {
    FlippedRow(s, 4 * w, h, 0, y);
    ArgbToRgbaPixel(Row(s, 4 * w, h - 1 - y), x);
  }

  /** The same for the converted frame. */
  lemma ConvertBgra32Pixel(data: seq<byte>, w: nat, h: nat, y: nat, x: nat)
    requires |data| > 0 && y < h && x < w
    ensures var s := Padded(data, Pixels(w, h) * 4);
            (h - y) * (4 * w) <= |s| && (y + 1) * (4 * w) <= |ConvertBgra32(data, w, h).value|
            && var src := PixelOf(Row(s, 4 * w, h - 1 - y), x);
               PixelOf(Row(ConvertBgra32(data, w, h).value, 4 * w, y), x) == [src[1], src[2], src[3], src[0]]
  {
    assert h * (4 * w) == Pixels(w, h) * 4;
    FlippedPixel(Padded(data, Pixels(w, h) * 4), w, h, y, x);
  }

  /** One row of `convert_bgra32_to_rgba`: a `bytearray(row_size)` written pixel by pixel. */
  method ConvertRow(row: seq<byte>, w: nat) returns (r: seq<byte>)
    requires |row| == 4 * w
    ensures r == ArgbToRgba(row)
  {
    var rgba := new byte[4 * w];
    for x := 0 to w
      invariant forall i :: 0 <= i < 4 * x ==> rgba[i] == Swizzled(row, i)
    {
      assert (4 * x) % 4 == 0 && (4 * x + 1) % 4 == 1 && (4 * x + 2) % 4 == 2 && (4 * x + 3) % 4 == 3;
      rgba[4 * x] := row[4 * x + 1];
      rgba[4 * x + 1] := row[4 * x + 2];
      rgba[4 * x + 2] := row[4 * x + 3];
      rgba[4 * x + 3] := row[4 * x];
    }
    return rgba[..];
  }

  /** The row loop of `convert_bgra32_to_rgba`, from the bottom row up. */
  method FlipRows(padded: seq<byte>, w: nat, h: nat) returns (out: seq<byte>)
    requires h * (4 * w) <= |padded|
    ensures out == FlippedFrom(padded, 4 * w, h, 0)
  {
    var rowSize := w * 4;
    out := [];
    var y := h;
    while y > 0
      invariant 0 <= y <= h
      invariant out == FlippedFrom(padded, rowSize, h, y)
    {
      y := y - 1;
      RowsFit(rowSize, y, h);
      var rowRgba := ConvertRow(Row(padded, rowSize, y), w);
      out := out + rowRgba;
    }
  }

  /** `convert_bgra32_to_rgba` */
  method ConvertBgra32ToRgba(data: seq<byte>, w: int, h: int) returns (r: Option<seq<byte>>)
    ensures r == ConvertBgra32(data, w, h)
  {
    if |data| == 0 || w <= 0 || h <= 0 {
      return None;
    }
    var size := Pixels(w, h) * 4;
    var padded := data;
    if |data| < size {
      padded := data + Fill(size - |data|, 0);
    }
    assert h * (4 * w) == size;
    var out := FlipRows(padded, w, h);
    return Some(out);
  }

  // ---------------------------------------------------------------------------
  // parse_spr_fallback
  // ---------------------------------------------------------------------------

  /** One pass of a frame loop: a frame and the offset after it, or the `break`
      together with how far `offset` had already moved. */
  datatype Step = Read(frame: SprFrame, next: nat) | Stop(at: nat)

  /** The body of the indexed-frame loop of `parse_spr_fallback`: the two size fields,
      then the pixels. */
  function FallbackIndexed(data: seq<byte>, offset: nat, version: Version): (r: Step)
    ensures offset + 4 > |data| ==> r == Stop(offset)
    ensures r.Read? ==> offset + 4 <= r.next <= |data| && r.frame.kind == Indexed
    ensures offset + 4 <= |data| && (U16At(data, offset) == 0 || U16At(data, offset + 2) == 0) ==>
              r == Read(SprFrame(0, 0, Indexed, []), offset + 4)
    ensures offset + 4 <= |data| && U16At(data, offset) > 0 && U16At(data, offset + 2) > 0 ==>
              r == if AtLeast(version, 2, 1) then RlePixels(data, offset + 4, U16At(data, offset), U16At(data, offset + 2))
                   else RawPixels(data, offset + 4, U16At(data, offset), U16At(data, offset + 2))
  {
    if offset >= |data| || offset + 4 > |data| then Stop(offset)
    else
      var w := U16At(data, offset);
      var h := U16At(data, offset + 2);
      if w == 0 || h == 0 then Read(SprFrame(0, 0, Indexed, []), offset + 4)
      else if AtLeast(version, 2, 1) then RlePixels(data, offset + 4, w, h)
      else RawPixels(data, offset + 4, w, h)
  }

  /** Pixels before version 2.1: `w * h` raw bytes, or a stop when they are not all there. */
  function RawPixels(data: seq<byte>, at: nat, w: u16, h: u16): (r: Step)
    ensures r.Stop? <==> at + Area(w, h) > |data|
    ensures r.Stop? ==> r.at == at
    ensures r.Read? ==> r.next == at + Area(w, h) && r.frame == SprFrame(w, h, Indexed, data[at..r.next])
  {
    if at + Area(w, h) > |data| then Stop(at)
    else Read(SprFrame(w, h, Indexed, data[at..at + Area(w, h)]), at + Area(w, h))
  }

  /** Pixels from version 2.1: a u16 size and that many RLE bytes. A failed decode
      keeps the bytes as they are when there are exactly `w * h` of them, and stops
      the loop otherwise. */
  function RlePixels(data: seq<byte>, at: nat, w: u16, h: u16): (r: Step)
    ensures at + 2 > |data| ==> r == Stop(at)
    ensures at + 2 <= |data| && at + 2 + U16At(data, at) > |data| ==> r == Stop(at + 2)
    ensures at + 2 <= |data| && at + 2 + U16At(data, at) <= |data| ==>
              var payload := data[at + 2..at + 2 + U16At(data, at)];
              var decoded := DecompressStrict(payload, Area(w, h));
              if decoded.Some? then r == Read(SprFrame(w, h, Indexed, decoded.value), at + 2 + |payload|)
              else if |payload| == Area(w, h) then r == Read(SprFrame(w, h, Indexed, payload), at + 2 + |payload|)
              else r == Stop(at + 2 + |payload|)
    ensures r.Read? ==> at + 2 <= r.next <= |data| && |r.frame.data| == Area(w, h)
  {
    if at + 2 > |data| then Stop(at)
    else
      var size := U16At(data, at);
      if at + 2 + size > |data| then Stop(at + 2)
      else
        var payload := data[at + 2..at + 2 + size];
        match DecompressStrict(payload, Area(w, h))
        case Some(p) => Read(SprFrame(w, h, Indexed, p), at + 2 + size)
        case None =>
          if |payload| == Area(w, h) then Read(SprFrame(w, h, Indexed, payload), at + 2 + size)
          else Stop(at + 2 + size)
  }

  /** The body of the RGBA-frame loop. */
  function FallbackRgba(data: seq<byte>, offset: nat): (r: Step)
    ensures offset + 4 > |data| ==> r == Stop(offset)
    ensures r.Read? ==> offset + 4 <= r.next <= |data| && r.frame.kind == Rgba
    ensures offset + 4 <= |data| && (U16At(data, offset) == 0 || U16At(data, offset + 2) == 0) ==>
              r == Read(SprFrame(0, 0, Rgba, []), offset + 4)
    ensures offset + 4 <= |data| && U16At(data, offset) > 0 && U16At(data, offset + 2) > 0 ==>
              r == RgbaPixels(data, offset + 4, U16At(data, offset), U16At(data, offset + 2))
  {
    if offset >= |data| || offset + 4 > |data| then Stop(offset)
    else
      var w := U16At(data, offset);
      var h := U16At(data, offset + 2);
      if w == 0 || h == 0 then Read(SprFrame(0, 0, Rgba, []), offset + 4)
      else RgbaPixels(data, offset + 4, w, h)
  }

  /** `w * h * 4` bytes turned into top-down RGBA, or a stop when they are not all there. */
  function RgbaPixels(data: seq<byte>, at: nat, w: u16, h: u16): (r: Step)
    requires w > 0 && h > 0
    ensures r.Stop? <==> at + Area(w, h) * 4 > |data|
    ensures r.Stop? ==> r.at == at
    ensures r.Read? ==> r.next == at + Area(w, h) * 4 && r.frame.width == w && r.frame.height == h
    ensures r.Read? ==> Some(r.frame.data) == ConvertBgra32(data[at..r.next], w, h)
  {
    var size := Area(w, h) * 4;
    if at + size > |data| then Stop(at)
    else
      var bgra := data[at..at + size];
      Read(SprFrame(w, h, Rgba, ConvertBgra32(bgra, w, h).GetOr(bgra)), at + size)
  }

  /** The indexed-frame loop from `offset` with `left` passes to go: a `break`
      keeps the frames read so far and the offset reached. */
  function FallbackIndexedFrom(data: seq<byte>, offset: nat, version: Version, left: nat, acc: seq<SprFrame>)
    : (r: (seq<SprFrame>, nat))
    ensures acc <= r.0 && |r.0| <= |acc| + left
    decreases left
  {
    if left == 0 then (acc, offset)
    else match FallbackIndexed(data, offset, version)
      case Stop(at) => (acc, at)
      case Read(f, next) => FallbackIndexedFrom(data, next, version, left - 1, acc + [f])
  }

  /** The RGBA-frame loop, likewise. */
  function FallbackRgbaFrom(data: seq<byte>, offset: nat, left: nat, acc: seq<SprFrame>)
    : (r: (seq<SprFrame>, nat))
    ensures acc <= r.0 && |r.0| <= |acc| + left
    decreases left
  {
    if left == 0 then (acc, offset)
    else match FallbackRgba(data, offset)
      case Stop(at) => (acc, at)
      case Read(f, next) => FallbackRgbaFrom(data, next, left - 1, acc + [f])
  }

  /** `parse_spr_fallback` */
  function ParseSprFallback(data: seq<byte>): (r: Option<SprData>)
    ensures |data| < 8 || data[..2] != SIGNATURE || data[3] < 1 || data[3] > 3 || U16At(data, 4) > MAX_FRAMES
            ==> r.None?
    ensures |data| >= 8 && AtLeast((data[3], data[2]), 2, 0) && U16At(data, 6) > MAX_FRAMES ==> r.None?
    ensures r.Some? ==> r.value.version == (data[3], data[2])
                        && 0 < |r.value.indexedFrames| + |r.value.rgbaFrames|
                        && |r.value.indexedFrames| <= U16At(data, 4)
                        && |r.value.palette| == PALETTE_SIZE
    ensures r.Some? && !AtLeast(r.value.version, 2, 0) ==> r.value.rgbaFrames == []
    ensures r.Some? && AtLeast(r.value.version, 2, 0) ==> |r.value.rgbaFrames| <= U16At(data, 6)
  {
    if |data| < 8 || data[..2] != SIGNATURE then None
    else
      var version := (data[3], data[2]);
      if version.0 < 1 || version.0 > 3 then None
      else
        var indexedCount := U16At(data, 4);
        if indexedCount > MAX_FRAMES then None
        else if AtLeast(version, 2, 0) && U16At(data, 6) > MAX_FRAMES then None
        else
          var rgbaCount := if AtLeast(version, 2, 0) then U16At(data, 6) else 0;
          var (indexed, next) := FallbackIndexedFrom(data, FramesStart(version), version, indexedCount, []);
          var (rgba, end) := FallbackRgbaFrom(data, next, rgbaCount, []);
          if |indexed| + |rgba| == 0 then None
          else Some(SprData(version, indexed, rgba, PaletteAt(data, end)))
  }

  /** The version 2.1 pixels, calling the RLE loop. */
  method ReadRlePixels(data: seq<byte>, at: nat, w: u16, h: u16) returns (r: Step)
    ensures r == RlePixels(data, at, w, h)
  {
    if at + 2 > |data| {
      return Stop(at);
    }
    var size := U16At(data, at);
    var offset := at + 2;
    if offset + size > |data| {
      return Stop(offset);
    }
    var payload := data[offset..offset + size];
    offset := offset + size;
    var pixels := DecompressRleStrict(payload, Area(w, h));
    if pixels.None? {
      if |payload| == Area(w, h) {
        pixels := Some(payload);
      } else {
        return Stop(offset);
      }
    }
    return Read(SprFrame(w, h, Indexed, pixels.value), offset);
  }

  /** The body of the indexed-frame loop. */
  method ReadFallbackIndexed(data: seq<byte>, offset: nat, version: Version) returns (r: Step)
    ensures r == FallbackIndexed(data, offset, version)
  {
    if offset >= |data| || offset + 4 > |data| {
      return Stop(offset);
    }
    var w := U16At(data, offset);
    var h := U16At(data, offset + 2);
    if w == 0 || h == 0 {
      return Read(SprFrame(0, 0, Indexed, []), offset + 4);
    }
    if AtLeast(version, 2, 1) {
      r := ReadRlePixels(data, offset + 4, w, h);
    } else {
      r := RawPixels(data, offset + 4, w, h);
    }
  }

  /** The body of the RGBA-frame loop, calling the row conversion. */
  method ReadFallbackRgba(data: seq<byte>, offset: nat) returns (r: Step)
    ensures r == FallbackRgba(data, offset)
  {
    if offset >= |data| || offset + 4 > |data| {
      return Stop(offset);
    }
    var w := U16At(data, offset);
    var h := U16At(data, offset + 2);
    var at := offset + 4;
    if w == 0 || h == 0 {
      return Read(SprFrame(0, 0, Rgba, []), at);
    }
    var size := Area(w, h) * 4;
    if at + size > |data| {
      return Stop(at);
    }
    var bgra := data[at..at + size];
    var rgba := ConvertBgra32ToRgba(bgra, w, h);
    return Read(SprFrame(w, h, Rgba, rgba.GetOr(bgra)), at + size);
  }

  /** `for i in range(indexed_count)` with its `break`s. */
  method ReadFallbackIndexedFrames(data: seq<byte>, start: nat, version: Version, count: nat)
    returns (frames: seq<SprFrame>, offset: nat)
    ensures (frames, offset) == FallbackIndexedFrom(data, start, version, count, [])
  {
    frames := [];
    offset := start;
    var i := 0;
    while i < count
      invariant i <= count
      invariant FallbackIndexedFrom(data, offset, version, count - i, frames)
                == FallbackIndexedFrom(data, start, version, count, [])
    {
      var step := ReadFallbackIndexed(data, offset, version);
      if step.Stop? {
        offset := step.at;
        return;
      }
      frames := frames + [step.frame];
      offset := step.next;
      i := i + 1;
    }
  }

  /** `for i in range(rgba_count)` with its `break`s. */
  method ReadFallbackRgbaFrames(data: seq<byte>, start: nat, count: nat)
    returns (frames: seq<SprFrame>, offset: nat)
    ensures (frames, offset) == FallbackRgbaFrom(data, start, count, [])
  {
    frames := [];
    offset := start;
    var i := 0;
    while i < count
      invariant i <= count
      invariant FallbackRgbaFrom(data, offset, count - i, frames) == FallbackRgbaFrom(data, start, count, [])
    {
      var step := ReadFallbackRgba(data, offset);
      if step.Stop? {
        offset := step.at;
        return;
      }
      frames := frames + [step.frame];
      offset := step.next;
      i := i + 1;
    }
  }

  /** `parse_spr_fallback`: the sprite object filled frame list by frame list. */
  method ParseSprFallbackBytes(data: seq<byte>) returns (r: Option<SprSprite>)
    ensures r.None? <==> ParseSprFallback(data).None?
    ensures r.Some? ==> fresh(r.value) && r.value.Data() == ParseSprFallback(data).value
  {
    if |data| < 8 || data[..2] != SIGNATURE {
      return None;
    }
    var version := (data[3], data[2]);
    if version.0 < 1 || version.0 > 3 {
      return None;
    }
    var indexedCount := U16At(data, 4);
    if indexedCount > MAX_FRAMES {
      return None;
    }
    var rgbaCount := 0;
    var offset := 6;
    if AtLeast(version, 2, 0) {
      rgbaCount := U16At(data, 6);
      if rgbaCount > MAX_FRAMES {
        return None;
      }
      offset := 8;
    }
    var sprite := new SprSprite(version);
    var indexed, next := ReadFallbackIndexedFrames(data, offset, version, indexedCount);
    var rgba, end := ReadFallbackRgbaFrames(data, next, rgbaCount);
    sprite.indexedFrames := indexed;
    sprite.rgbaFrames := rgba;
    sprite.palette := PaletteAt(data, end);
    if sprite.TotalFrames() == 0 {
      return None;
    }
    return Some(sprite);
  }
}
