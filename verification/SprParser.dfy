/** The Ragnarok Online SPR sprite reader: a header, indexed (palette) frames,
    optionally RLE-compressed, RGBA frames and a trailing 1024-byte palette. */
module SprParser {
  import opened Wrappers
  import opened Bytes

  /** "SP" */
  const SIGNATURE: seq<byte> := [0x53, 0x50]
  const PALETTE_SIZE := 1024

  datatype FrameKind = Indexed | Rgba

  datatype SprFrame = SprFrame(width: u16, height: u16, kind: FrameKind, data: seq<byte>)

  /** The pixel count `width * height` of a frame. */
  function Area(w: u16, h: u16): nat {
    w as int * h as int
  }

  /** A colour as `(r, g, b, a)`. */
  type Color = (byte, byte, byte, byte)

  /** Entry `i` of a palette laid out as 256 four-byte RGBA entries. */
  function PaletteEntry(p: seq<byte>, i: nat): seq<byte>
    requires 4 * i + 4 <= |p|
  {
    p[4 * i..4 * i + 4]
  }

  function ColorBytes(c: Color): seq<byte> {
    [c.0, c.1, c.2, c.3]
  }

  /** The first `n` palette entries built from `colors`, zeros past its end. */
  function PaletteFrom(colors: seq<Color>, n: nat): (r: seq<byte>)
    ensures |r| == 4 * n
  {
    if n == 0 then []
    else PaletteFrom(colors, n - 1) + (if n - 1 < |colors| then ColorBytes(colors[n - 1]) else [0, 0, 0, 0])
  }

  lemma {:induction false} PaletteFromEntry(colors: seq<Color>, n: nat, i: nat)
    requires i < n
    ensures PaletteEntry(PaletteFrom(colors, n), i)
            == if i < |colors| then ColorBytes(colors[i]) else [0, 0, 0, 0]
  {
    var a := PaletteFrom(colors, n - 1);
    var e := if n - 1 < |colors| then ColorBytes(colors[n - 1]) else [0, 0, 0, 0];
    var k := 4 * i;
    assert PaletteFrom(colors, n) == a + e;
    if i < n - 1 {
      PaletteFromEntry(colors, n - 1, i);
      PrefixSlice(a, e, k, k + 4);
    } else {
      assert |a| == k;
      assert (a + e)[k..] == e;
    }
  }

  /** A slice inside the first part of a concatenation. */
  lemma PrefixSlice(a: seq<byte>, e: seq<byte>, lo: nat, hi: nat)
    requires lo <= hi <= |a|
    ensures (a + e)[lo..hi] == a[lo..hi]
  {
  }

  /** `create_palette_from_colors`: always 256 entries, colour `i` at entry `i`,
      zero entries past the end of `colors`, extra colours ignored. */
  function CreatePaletteFromColors(colors: seq<Color>): (r: seq<byte>)
    ensures |r| == PALETTE_SIZE
    ensures forall i :: 0 <= i < 256 ==>
              PaletteEntry(r, i) == if i < |colors| then ColorBytes(colors[i]) else [0, 0, 0, 0]
  {
    var r := PaletteFrom(colors, 256);
    forall i | 0 <= i < 256
      ensures PaletteEntry(r, i) == if i < |colors| then ColorBytes(colors[i]) else [0, 0, 0, 0]
    {
      PaletteFromEntry(colors, 256, i);
    }
    r
  }

  /** `DEFAULT_PALETTE`: a grey ramp, entry `i` is `(i, i, i, 255)`. */
  function DefaultPalette(): (r: seq<byte>)
    ensures |r| == PALETTE_SIZE
    ensures forall i :: 0 <= i < 256 ==> PaletteEntry(r, i) == [i, i, i, 255]
  {
    var grey: seq<Color> := seq(256, (i: nat) requires i < 256 => (i, i, i, 255));
    assert forall i :: 0 <= i < 256 ==> ColorBytes(grey[i]) == [i, i, i, 255];
    CreatePaletteFromColors(grey)
  }

  /** Pads `s` with zero bytes, or truncates it, to exactly `n` bytes. */
  function FitTo(s: seq<byte>, n: nat): (r: seq<byte>)
    ensures |r| == n
    ensures |s| >= n ==> r == s[..n]
    ensures |s| < n ==> r == s + Fill(n - |s|, 0)
  {
    if |s| >= n then s[..n] else s + Fill(n - |s|, 0)
  }

  // ---------------------------------------------------------------------------
  // Zero-run RLE
  // ---------------------------------------------------------------------------

  /** The decoding loop of `_decompress_rle` from the unread input `c` and the output
      so far: `0x00 n` appends `n` zeros, another byte is a literal, a lone final
      `0x00` is dropped, and decoding stops once `expected` bytes are out. */
  function RleFrom(c: seq<byte>, out: seq<byte>, expected: nat): (r: seq<byte>)
    ensures out <= r
    decreases |c|
  {
    if |c| == 0 || |out| >= expected then out
    else if c[0] != 0 then RleFrom(c[1..], out + [c[0]], expected)
    else if |c| == 1 then out
    else RleFrom(c[2..], out + Fill(c[1], 0), expected)
  }

  /** `_decompress_rle(compressed, expected)`. */
  function Rle(compressed: seq<byte>, expected: nat): (r: seq<byte>)
    ensures |r| == expected
  {
    FitTo(RleFrom(compressed, [], expected), expected)
  }

  /** `_decompress_rle`: a bytearray grown while input remains and fewer than
      `expected` bytes are out, then padded or truncated. */
  method DecompressRle(compressed: seq<byte>, expected: nat) returns (r: seq<byte>)
    ensures r == Rle(compressed, expected)
    ensures |r| == expected
  {
    var result: seq<byte> := [];
    var i := 0;
    while i < |compressed| && |result| < expected
      invariant i <= |compressed|
      invariant RleFrom(compressed[i..], result, expected) == RleFrom(compressed, [], expected)
    {
      var b := compressed[i];
      var rest := compressed[i..];
      i := i + 1;
      if b == 0 {
        if i < |compressed| {
          var run := compressed[i];
          assert rest[2..] == compressed[i + 1..];
          i := i + 1;
          result := result + Fill(run, 0);
        } else {
          assert |rest| == 1;
        }
      } else {
        assert rest[1..] == compressed[i..];
        result := result + [b];
      }
    }
    if |result| < expected {
      result := result + Fill(expected - |result|, 0);
    } else if |result| > expected {
      result := result[..expected];
    }
    r := result;
  }

  /** Leading zeros of `p`, at most `limit` of them. */
  function ZeroRun(p: seq<byte>, limit: nat): (k: nat)
    ensures k <= |p| && k <= limit
    ensures forall i :: 0 <= i < k ==> p[i] == 0
    ensures |p| > 0 && p[0] == 0 && limit > 0 ==> k > 0
  {
    if |p| == 0 || limit == 0 || p[0] != 0 then 0 else 1 + ZeroRun(p[1..], limit - 1)
  }

  /** The matching encoder: a non-zero pixel is written as itself and a run of up to
      255 zero pixels as `0x00 n`. */
  function RleEncode(p: seq<byte>): (c: seq<byte>)
    decreases |p|
  {
    if |p| == 0 then []
    else if p[0] != 0 then [p[0]] + RleEncode(p[1..])
    else
      var k := ZeroRun(p, 255);
      [0, k] + RleEncode(p[k..])
  }

  lemma RleFromLiteral(c: seq<byte>, out: seq<byte>, expected: nat)
    requires |c| > 0 && c[0] != 0 && |out| < expected
    ensures RleFrom(c, out, expected) == RleFrom(c[1..], out + [c[0]], expected)
  {
  }

  lemma RleFromRun(c: seq<byte>, out: seq<byte>, expected: nat)
    requires |c| >= 2 && c[0] == 0 && |out| < expected
    ensures RleFrom(c, out, expected) == RleFrom(c[2..], out + Fill(c[1], 0), expected)
  {
  }

  lemma EncodeRun(p: seq<byte>) returns (k: nat)
    requires |p| > 0 && p[0] == 0
    ensures 0 < k <= |p| && p[..k] == Fill(k, 0)
    ensures var c := RleEncode(p); |c| >= 2 && c[0] == 0 && c[1] == k && c[2..] == RleEncode(p[k..])
  {
    k := ZeroRun(p, 255);
    assert p[..k] == Fill(k, 0);
  }

  lemma {:induction false} RleFromEncode(p: seq<byte>, out: seq<byte>, expected: nat)
    requires |out| + |p| <= expected
    ensures RleFrom(RleEncode(p), out, expected) == out + p
    decreases |p|, 1
  {
    if |p| == 0 {
    } else if p[0] != 0 {
      RleFromEncodeLiteral(p, out, expected);
    } else {
      RleFromEncodeRun(p, out, expected);
    }
  }

  lemma {:induction false} RleFromEncodeLiteral(p: seq<byte>, out: seq<byte>, expected: nat)
    requires |out| + |p| <= expected && |p| > 0 && p[0] != 0
    ensures RleFrom(RleEncode(p), out, expected) == out + p
    decreases |p|, 0
  {
    var c := RleEncode(p);
    assert c[0] == p[0] && c[1..] == RleEncode(p[1..]);
    RleFromLiteral(c, out, expected);
    RleFromEncode(p[1..], out + [p[0]], expected);
    assert out + [p[0]] + p[1..] == out + p;
  }

  lemma {:induction false} RleFromEncodeRun(p: seq<byte>, out: seq<byte>, expected: nat)
    requires |out| + |p| <= expected && |p| > 0 && p[0] == 0
    ensures RleFrom(RleEncode(p), out, expected) == out + p
    decreases |p|, 0
  {
    var k := EncodeRun(p);
    var c := RleEncode(p);
    RleFromRun(c, out, expected);
    RleFromEncode(p[k..], out + Fill(k, 0), expected);
    assert out + Fill(k, 0) + p[k..] == out + p by {
      assert p == p[..k] + p[k..];
    }
  }

  /** Decoding what the encoder wrote gives the pixels back. */
  lemma RleRoundTrip(p: seq<byte>)
    ensures Rle(RleEncode(p), |p|) == p
  {
    RleFromEncode(p, [], |p|);
  }

  lemma {:induction false} RleFromLiterals(c: seq<byte>, out: seq<byte>, expected: nat)
    requires forall i :: 0 <= i < |c| ==> c[i] != 0
    requires |out| + |c| <= expected
    ensures RleFrom(c, out, expected) == out + c
    decreases |c|
  {
    if |c| > 0 {
      RleFromLiterals(c[1..], out + [c[0]], expected);
      assert out + [c[0]] + c[1..] == out + c;
    }
  }

  /** Input without zero bytes is copied literally and zero-padded. */
  lemma LiteralsCopied(c: seq<byte>, expected: nat)
    requires forall i :: 0 <= i < |c| ==> c[i] != 0
    requires |c| <= expected
    ensures Rle(c, expected) == c + Fill(expected - |c|, 0)
  {
    RleFromLiterals(c, [], expected);
  }

  // ---------------------------------------------------------------------------
  // Frames
  // ---------------------------------------------------------------------------

  /** `_read_indexed_frame`: `None` stands for the `struct.error` a short read raises. */
  function ReadIndexed(data: seq<byte>, offset: nat, version: Version): (r: Option<(SprFrame, nat)>)
    ensures r.None? <==> offset + 4 > |data|
                         || (AtLeast(version, 1, 1) && offset + 6 > |data|
                             && U16At(data, offset) > 0 && U16At(data, offset + 2) > 0)
    ensures r.Some? ==> r.value.0.kind == Indexed && r.value.0.width == U16At(data, offset)
                        && r.value.0.height == U16At(data, offset + 2)
    ensures r.Some? && (r.value.0.width == 0 || r.value.0.height == 0) ==>
              r.value == (SprFrame(r.value.0.width, r.value.0.height, Indexed, []), offset + 4)
    ensures r.Some? && r.value.0.width > 0 && r.value.0.height > 0 && AtLeast(version, 1, 1) ==>
              var size := U16At(data, offset + 4);
              r.value == (SprFrame(r.value.0.width, r.value.0.height, Indexed,
                                   Rle(Window(data, offset + 6, size), Area(r.value.0.width, r.value.0.height))),
                          offset + 6 + size)
    ensures r.Some? && r.value.0.width > 0 && r.value.0.height > 0 && !AtLeast(version, 1, 1) ==>
              var n := Area(r.value.0.width, r.value.0.height);
              r.value == (SprFrame(r.value.0.width, r.value.0.height, Indexed, Window(data, offset + 4, n)),
                          offset + 4 + n)
  {
    if offset + 4 > |data| then None
    else
      var w := U16At(data, offset);
      var h := U16At(data, offset + 2);
      if w == 0 || h == 0 then Some((SprFrame(w, h, Indexed, []), offset + 4))
      else if AtLeast(version, 1, 1) then
        if offset + 6 > |data| then None
        else
          var size := U16At(data, offset + 4);
          Some((SprFrame(w, h, Indexed, Rle(Window(data, offset + 6, size), Area(w, h))), offset + 6 + size))
      else Some((SprFrame(w, h, Indexed, Window(data, offset + 4, Area(w, h))), offset + 4 + Area(w, h)))
  }

  /** `_read_indexed_frame` with its RLE loop. */
  method ReadIndexedFrame(data: seq<byte>, offset: nat, version: Version) returns (r: Option<(SprFrame, nat)>)
    ensures r == ReadIndexed(data, offset, version)
  {
    if offset + 4 > |data| {
      return None;
    }
    var w := U16At(data, offset);
    var h := U16At(data, offset + 2);
    if w == 0 || h == 0 {
      return Some((SprFrame(w, h, Indexed, []), offset + 4));
    }
    if AtLeast(version, 1, 1) {
      if offset + 6 > |data| {
        return None;
      }
      var size := U16At(data, offset + 4);
      var pixels := DecompressRle(Window(data, offset + 6, size), Area(w, h));
      return Some((SprFrame(w, h, Indexed, pixels), offset + 6 + size));
    }
    var n := Area(w, h);
    return Some((SprFrame(w, h, Indexed, Window(data, offset + 4, n)), offset + 4 + n));
  }

  /** `_read_rgba_frame`: `width * height * 4` bytes, as many as there are. */
  function ReadRgba(data: seq<byte>, offset: nat): (r: Option<(SprFrame, nat)>)
    ensures r.None? <==> offset + 4 > |data|
    ensures r.Some? ==> r.value.0.kind == Rgba && r.value.0.width == U16At(data, offset)
                        && r.value.0.height == U16At(data, offset + 2)
    ensures r.Some? && (r.value.0.width == 0 || r.value.0.height == 0) ==>
              r.value == (SprFrame(r.value.0.width, r.value.0.height, Rgba, []), offset + 4)
    ensures r.Some? && r.value.0.width > 0 && r.value.0.height > 0 ==>
              var n := Area(r.value.0.width, r.value.0.height) * 4;
              r.value == (SprFrame(r.value.0.width, r.value.0.height, Rgba, Window(data, offset + 4, n)),
                          offset + 4 + n)
  {
    if offset + 4 > |data| then None
    else
      var w := U16At(data, offset);
      var h := U16At(data, offset + 2);
      if w == 0 || h == 0 then Some((SprFrame(w, h, Rgba, []), offset + 4))
      else Some((SprFrame(w, h, Rgba, Window(data, offset + 4, Area(w, h) * 4)), offset + 4 + Area(w, h) * 4))
  }

  /** The `for i in range(count)` loop over indexed frames, from `offset` with
      `left` frames to go; one failed read fails the whole load. */
  function IndexedFrom(data: seq<byte>, offset: nat, version: Version, left: nat, acc: seq<SprFrame>)
    : (r: Option<(seq<SprFrame>, nat)>)
    ensures r.Some? ==> acc <= r.value.0 && |r.value.0| == |acc| + left
    decreases left
  {
    if left == 0 then Some((acc, offset))
    else match ReadIndexed(data, offset, version)
      case None => None
      case Some((f, next)) => IndexedFrom(data, next, version, left - 1, acc + [f])
  }

  /** The loop over RGBA frames. */
  function RgbaFrom(data: seq<byte>, offset: nat, left: nat, acc: seq<SprFrame>)
    : (r: Option<(seq<SprFrame>, nat)>)
    ensures r.Some? ==> acc <= r.value.0 && |r.value.0| == |acc| + left
    decreases left
  {
    if left == 0 then Some((acc, offset))
    else match ReadRgba(data, offset)
      case None => None
      case Some((f, next)) => RgbaFrom(data, next, left - 1, acc + [f])
  }

  /** The 1024 bytes at `offset` when they are all there, else the default ramp. */
  function PaletteAt(data: seq<byte>, offset: nat): (r: seq<byte>)
    ensures |r| == PALETTE_SIZE
  {
    if offset + PALETTE_SIZE <= |data| then data[offset..offset + PALETTE_SIZE] else DefaultPalette()
  }

  /** What a loaded sprite holds. */
  datatype SprData = SprData(version: Version, indexedFrames: seq<SprFrame>,
                             rgbaFrames: seq<SprFrame>, palette: seq<byte>)

  /** Where frames start: the RGBA count at bytes 6..8 exists from version 2.0 on. */
  function FramesStart(version: Version): nat {
    if AtLeast(version, 2, 0) then 8 else 6
  }

  /** `SPRParser.load_from_bytes`. */
  function ParseSpr(data: seq<byte>): (r: Option<SprData>)
    ensures |data| < 6 || data[..2] != SIGNATURE ==> r.None?
    ensures r.Some? ==> r.value.version == (data[3], data[2])
                        && |r.value.indexedFrames| == U16At(data, 4)
                        && |r.value.palette| == PALETTE_SIZE
    ensures r.Some? && !AtLeast(r.value.version, 2, 0) ==> r.value.rgbaFrames == []
    ensures r.Some? && AtLeast(r.value.version, 2, 0) ==>
              |data| >= 8 && |r.value.rgbaFrames| == U16At(data, 6)
  {
    if |data| < 6 || data[..2] != SIGNATURE then None
    else
      var version := (data[3], data[2]);
      if AtLeast(version, 2, 0) && |data| < 8 then None
      else
        var rgbaCount := if AtLeast(version, 2, 0) then U16At(data, 6) else 0;
        match IndexedFrom(data, FramesStart(version), version, U16At(data, 4), [])
        case None => None
        case Some((indexed, next)) =>
          match RgbaFrom(data, next, rgbaCount, [])
          case None => None
          case Some((rgba, end)) => Some(SprData(version, indexed, rgba, PaletteAt(data, end)))
  }

  /** Frames start at offset 8 from version 2.0 on and at offset 6 before: with no
      frames, the palette is read right there. */
  lemma FramesStartAt(data: seq<byte>)
    requires |data| >= 8 && data[..2] == SIGNATURE
    requires U16At(data, 4) == 0 && (AtLeast((data[3], data[2]), 2, 0) ==> U16At(data, 6) == 0)
    ensures ParseSpr(data).Some?
    ensures AtLeast((data[3], data[2]), 2, 0) ==> ParseSpr(data).value.palette == PaletteAt(data, 8)
    ensures !AtLeast((data[3], data[2]), 2, 0) ==> ParseSpr(data).value.palette == PaletteAt(data, 6)
  {
  }

  /** The bytes of an RLE-compressed indexed frame as a version 1.1+ file stores them. */
  function IndexedFrameBytes(w: u16, h: u16, pixels: seq<byte>): seq<byte>
    requires |RleEncode(pixels)| < 0x1_0000
  {
    U16Bytes(w) + U16Bytes(h) + U16Bytes(|RleEncode(pixels)|) + RleEncode(pixels)
  }

  /** The header fields of a stored frame, read where it sits. */
  lemma IndexedFrameHeader(p: seq<byte>, w: u16, h: u16, pixels: seq<byte>, q: seq<byte>)
    requires |RleEncode(pixels)| < 0x1_0000
    ensures var data := p + IndexedFrameBytes(w, h, pixels) + q;
            |p| + 6 <= |data| && U16At(data, |p|) == w && U16At(data, |p| + 2) == h
            && U16At(data, |p| + 4) == |RleEncode(pixels)|
  {
    var t := IndexedFrameBytes(w, h, pixels);
    var n := |RleEncode(pixels)|;
    var data := p + t + q;
    assert data[|p|..|p| + |t|] == t;
    U16Field(data, |p|, t, 0);
    U16Field(data, |p|, t, 2);
    U16Field(data, |p|, t, 4);
    U16Within([], w, t[2..]);
    U16Within(U16Bytes(w), h, t[4..]);
    U16Within(U16Bytes(w) + U16Bytes(h), n, RleEncode(pixels));
    assert t == [] + U16Bytes(w) + t[2..];
    assert t == U16Bytes(w) + U16Bytes(h) + t[4..];
  }

  /** The compressed pixels of a stored frame, read where it sits. */
  lemma IndexedFramePayload(p: seq<byte>, w: u16, h: u16, pixels: seq<byte>, q: seq<byte>)
    requires |RleEncode(pixels)| < 0x1_0000
    ensures var data := p + IndexedFrameBytes(w, h, pixels) + q;
            |p| + 6 <= |data| && Window(data, |p| + 6, |RleEncode(pixels)|) == RleEncode(pixels)
  {
    var t := IndexedFrameBytes(w, h, pixels);
    var data := p + t + q;
    assert data[|p|..|p| + |t|] == t;
    SubSlice(data, |p|, t, 6, |t|);
    assert t[6..] == RleEncode(pixels);
  }

  /** Reading a stored frame gives back its size and pixels and stops right after it. */
  lemma IndexedFrameRoundTrip(p: seq<byte>, w: u16, h: u16, pixels: seq<byte>, q: seq<byte>, version: Version)
    requires AtLeast(version, 1, 1) && w > 0 && h > 0 && |pixels| == Area(w, h)
    requires |RleEncode(pixels)| < 0x1_0000
    ensures var t := IndexedFrameBytes(w, h, pixels);
            ReadIndexed(p + t + q, |p|, version) == Some((SprFrame(w, h, Indexed, pixels), |p| + |t|))
  {
    IndexedFrameHeader(p, w, h, pixels, q);
    IndexedFramePayload(p, w, h, pixels, q);
    RleRoundTrip(pixels);
  }

  // ---------------------------------------------------------------------------
  // The sprite
  // ---------------------------------------------------------------------------

  /** `SPRSprite`: frames are numbered indexed first, then RGBA. */
  class SprSprite {
    var version: Version
    var indexedFrames: seq<SprFrame>
    var rgbaFrames: seq<SprFrame>
    var palette: seq<byte>
    var filepath: string

    /** `SPRSprite(version=version)` */
    constructor (version: Version)
      ensures this.version == version && indexedFrames == [] && rgbaFrames == []
      ensures palette == [] && filepath == ""
    {
      this.version := version;
      indexedFrames := [];
      rgbaFrames := [];
      palette := [];
      filepath := "";
    }

    function Data(): SprData
      reads this
    {
      SprData(version, indexedFrames, rgbaFrames, palette)
    }

    /** `get_total_frames` */
    function TotalFrames(): (n: nat)
      reads this
      ensures n == |indexedFrames + rgbaFrames|
    {
      |indexedFrames| + |rgbaFrames|
    }

    /** `get_frame`: the global index runs over the indexed frames, then the RGBA ones. */
    function GetFrame(index: int): (r: Option<SprFrame>)
      reads this
      ensures r.Some? <==> 0 <= index < TotalFrames()
      ensures r.Some? ==> r.value == (indexedFrames + rgbaFrames)[index]
      ensures 0 <= index < |indexedFrames| ==> r == Some(indexedFrames[index])
    {
      var indexedCount := |indexedFrames|;
      if index < 0 then None
      else if index < indexedCount then Some(indexedFrames[index])
      else if index < indexedCount + |rgbaFrames| then Some(rgbaFrames[index - indexedCount])
      else None
    }

    /** `set_palette`: exactly 1024 bytes, truncated or zero-padded. */
    method SetPalette(data: seq<byte>)
      modifies this
      ensures palette == FitTo(data, PALETTE_SIZE)
      ensures version == old(version) && indexedFrames == old(indexedFrames)
      ensures rgbaFrames == old(rgbaFrames) && filepath == old(filepath)
    {
      if |data| >= PALETTE_SIZE {
        palette := data[..PALETTE_SIZE];
      } else {
        palette := data + Fill(PALETTE_SIZE - |data|, 0);
      }
    }
  }

  /** `set_palette` keeps what fits and zero-fills the rest. */
  lemma SetPaletteKeeps(data: seq<byte>, i: nat)
    requires i < PALETTE_SIZE
    ensures FitTo(data, PALETTE_SIZE)[i] == if i < |data| then data[i] else 0
  {
  }

  /** The indexed-frame loop of `load_from_bytes`. */
  method ReadIndexedFrames(data: seq<byte>, start: nat, version: Version, count: nat)
    returns (r: Option<(seq<SprFrame>, nat)>)
    ensures r == IndexedFrom(data, start, version, count, [])
  {
    var frames: seq<SprFrame> := [];
    var offset := start;
    var i := 0;
    while i < count
      invariant i <= count
      invariant IndexedFrom(data, offset, version, count - i, frames) == IndexedFrom(data, start, version, count, [])
    {
      var f := ReadIndexedFrame(data, offset, version);
      if f.None? {
        return None;
      }
      frames := frames + [f.value.0];
      offset := f.value.1;
      i := i + 1;
    }
    return Some((frames, offset));
  }

  /** The RGBA-frame loop of `load_from_bytes`. */
  method ReadRgbaFrames(data: seq<byte>, start: nat, count: nat) returns (r: Option<(seq<SprFrame>, nat)>)
    ensures r == RgbaFrom(data, start, count, [])
  {
    var frames: seq<SprFrame> := [];
    var offset := start;
    var i := 0;
    while i < count
      invariant i <= count
      invariant RgbaFrom(data, offset, count - i, frames) == RgbaFrom(data, start, count, [])
    {
      var f := ReadRgba(data, offset);
      if f.None? {
        return None;
      }
      frames := frames + [f.value.0];
      offset := f.value.1;
      i := i + 1;
    }
    return Some((frames, offset));
  }

  /** `load_from_bytes`, threading `offset` through both frame loops. */
  method LoadFromBytes(data: seq<byte>) returns (r: Option<SprSprite>)
    ensures r.None? <==> ParseSpr(data).None?
    ensures r.Some? ==> fresh(r.value) && r.value.Data() == ParseSpr(data).value
  {
    if |data| < 6 || data[..2] != SIGNATURE {
      return None;
    }
    var version := (data[3], data[2]);
    var indexedCount := U16At(data, 4);
    var rgbaCount := 0;
    var offset := 6;
    if AtLeast(version, 2, 0) {
      if |data| < 8 {
        return None;
      }
      rgbaCount := U16At(data, 6);
      offset := 8;
    }
    var indexed := ReadIndexedFrames(data, offset, version, indexedCount);
    if indexed.None? {
      return None;
    }
    var rgba := ReadRgbaFrames(data, indexed.value.1, rgbaCount);
    if rgba.None? {
      return None;
    }
    var sprite := new SprSprite(version);
    sprite.indexedFrames := indexed.value.0;
    sprite.rgbaFrames := rgba.value.0;
    sprite.palette := PaletteAt(data, rgba.value.1);
    return Some(sprite);
  }
}
