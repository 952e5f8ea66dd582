/** `.pal` palettes: 256 RGBA colours stored as 1024 bytes, entry 0 transparent. */
module PalParser {
  import opened Wrappers
  import opened Bytes
  import opened SprParser

  const COLOR_COUNT := 256

  /** The grey ramp the parser starts with and `create_grayscale` builds:
      `(i, i, i, 255)`, except that entry 0 is transparent. */
  function Grayscale(): (p: seq<Color>)
    ensures |p| == COLOR_COUNT
    ensures p[0] == (0, 0, 0, 0)
    ensures forall i :: 0 < i < COLOR_COUNT ==> p[i] == (i, i, i, 255)
  {
    seq(COLOR_COUNT, (i: nat) requires i < COLOR_COUNT => (i, i, i, if i > 0 then 255 else 0))
  }

  /** `create_solid_palette(color)`: transparent entry 0, then 255 copies of `color`. */
  function SolidPalette(color: Color): (p: seq<Color>)
    ensures |p| == COLOR_COUNT && p[0] == (0, 0, 0, 0)
    ensures forall i :: 0 < i < COLOR_COUNT ==> p[i] == color
  {
    [(0, 0, 0, 0)] + seq(COLOR_COUNT - 1, _ => color)
  }

  /** Colour `i` as `load_from_bytes` reads it from bytes `4i..4i+3`: entry 0 is
      made transparent, and an alpha of 0 elsewhere becomes 255. */
  function LoadedColor(data: seq<byte>, i: nat): (c: Color)
    requires i < COLOR_COUNT && PALETTE_SIZE <= |data|
    ensures (c.0, c.1, c.2) == (data[4 * i], data[4 * i + 1], data[4 * i + 2])
    ensures i == 0 ==> c.3 == 0
    ensures i > 0 ==> c.3 != 0 && (data[4 * i + 3] != 0 ==> c.3 == data[4 * i + 3])
  {
    var a := data[4 * i + 3];
    (data[4 * i], data[4 * i + 1], data[4 * i + 2], if i == 0 then 0 else if a == 0 then 255 else a)
  }

  /** The palette a successful `load_from_bytes` leaves. */
  function Loaded(data: seq<byte>): (p: seq<Color>)
    requires PALETTE_SIZE <= |data|
    ensures |p| == COLOR_COUNT && forall i :: 0 <= i < COLOR_COUNT ==> p[i] == LoadedColor(data, i)
  {
    seq(COLOR_COUNT, (i: nat) requires i < COLOR_COUNT => LoadedColor(data, i))
  }

  /** The 1024 bytes `save` writes: entry `i` at bytes `4i..4i+3`, zeros after the
      last colour; `None` for a palette of more than 256 colours, where the write
      past the buffer raises. */
  function Saved(p: seq<Color>): (r: Option<seq<byte>>)
    ensures r.Some? <==> |p| <= COLOR_COUNT
    ensures r.Some? ==> |r.value| == PALETTE_SIZE
    ensures r.Some? ==> forall i :: 0 <= i < |p| ==> PaletteEntry(r.value, i) == ColorBytes(p[i])
    ensures r.Some? ==> forall i :: |p| <= i < COLOR_COUNT ==> PaletteEntry(r.value, i) == [0, 0, 0, 0]
  {
    if |p| > COLOR_COUNT then None else Some(CreatePaletteFromColors(p))
  }

  /** Two 1024-byte buffers with equal entries are equal. */
  lemma EntriesEqual(a: seq<byte>, b: seq<byte>)
    requires |a| == PALETTE_SIZE && |b| == PALETTE_SIZE
    requires forall i :: 0 <= i < COLOR_COUNT ==> PaletteEntry(a, i) == PaletteEntry(b, i)
    ensures a == b
  {
    forall k | 0 <= k < PALETTE_SIZE
      ensures a[k] == b[k]
    {
      var i := k / 4;
      assert PaletteEntry(a, i)[k - 4 * i] == a[k];
      assert PaletteEntry(b, i)[k - 4 * i] == b[k];
    }
  }

  /** A buffer holding the colours of `p` in order and zeros after them is what
      `save` writes. */
  lemma SavedLayout(d: seq<byte>, p: seq<Color>)
    requires |d| == PALETTE_SIZE && |p| <= COLOR_COUNT
    requires forall j :: 0 <= j < |p| ==> PaletteEntry(d, j) == ColorBytes(p[j])
    requires forall k :: 4 * |p| <= k < PALETTE_SIZE ==> d[k] == 0
    ensures Saved(p) == Some(d)
  {
    forall j | |p| <= j < COLOR_COUNT
      ensures PaletteEntry(d, j) == [0, 0, 0, 0]
    {
      assert d[4 * j] == 0 && d[4 * j + 1] == 0 && d[4 * j + 2] == 0 && d[4 * j + 3] == 0;
    }
    EntriesEqual(d, Saved(p).value);
  }

  /** Loading what `save` wrote gives the palette back, provided entry 0 is
      transparent and no other entry is: the only alphas loading rewrites. */
  lemma SaveLoadRoundTrip(p: seq<Color>)
    requires |p| == COLOR_COUNT && p[0].3 == 0
    requires forall i :: 0 < i < COLOR_COUNT ==> p[i].3 != 0
    ensures Saved(p).Some? && Loaded(Saved(p).value) == p
  {
    var data := Saved(p).value;
    forall i | 0 <= i < COLOR_COUNT
      ensures LoadedColor(data, i) == p[i]
    {
      assert PaletteEntry(data, i) == ColorBytes(p[i]);
      assert data[4 * i + 3] == PaletteEntry(data, i)[3];
      assert data[4 * i] == PaletteEntry(data, i)[0];
      assert data[4 * i + 1] == PaletteEntry(data, i)[1];
      assert data[4 * i + 2] == PaletteEntry(data, i)[2];
    }
  }

  /** Saving a loaded palette gives back the bytes read, with the alphas loading
      rewrote, so loading that again changes nothing. */
  lemma LoadSaveLoad(data: seq<byte>)
    requires PALETTE_SIZE <= |data|
    ensures Saved(Loaded(data)).Some? && Loaded(Saved(Loaded(data)).value) == Loaded(data)
  {
    var p := Loaded(data);
    assert p[0].3 == 0;
    SaveLoadRoundTrip(p);
  }

  /** `PALParser` */
  class PalParser {
    var filename: string
    var isLoaded: bool
    var palette: seq<Color>

    /** `PALParser()`: the grey ramp, nothing loaded. */
    constructor ()
      ensures filename == "" && !isLoaded && palette == Grayscale()
    {
      filename := "";
      isLoaded := false;
      palette := Grayscale();
    }

    /** `load_from_bytes`: fewer than 1024 bytes fail and change nothing; otherwise
        the palette is rebuilt colour by colour from the first 1024 bytes. */
    method LoadFromBytes(data: seq<byte>) returns (ok: bool)
      modifies this
      ensures ok <==> PALETTE_SIZE <= |data|
      ensures ok ==> palette == Loaded(data) && isLoaded
      ensures !ok ==> palette == old(palette) && isLoaded == old(isLoaded)
      ensures filename == old(filename)
    {
      if |data| < PALETTE_SIZE {
        return false;
      }
      palette := [];
      for i := 0 to COLOR_COUNT
        invariant |palette| == i && filename == old(filename)
        invariant forall j :: 0 <= j < i ==> palette[j] == LoadedColor(data, j)
      {
        var offset := i * 4;
        var r, g, b, a := data[offset], data[offset + 1], data[offset + 2], data[offset + 3];
        if i == 0 {
          palette := palette + [(r, g, b, 0)];
        } else {
          if a == 0 {
            a := 255;
          }
          palette := palette + [(r, g, b, a)];
        }
      }
      isLoaded := true;
      return true;
    }

    /** The byte layout of `save`, filled into a zeroed buffer; writing the file is
        not modelled. */
    method SaveBytes() returns (r: Option<seq<byte>>)
      ensures r == Saved(palette)
    {
      var data := new byte[PALETTE_SIZE](_ => 0);
      var i := 0;
      while i < |palette|
        invariant i <= |palette| && i <= COLOR_COUNT
        invariant forall j :: 0 <= j < i ==> PaletteEntry(data[..], j) == ColorBytes(palette[j])
        invariant forall k :: 4 * i <= k < PALETTE_SIZE ==> data[k] == 0
      {
        if i == COLOR_COUNT {
          return None;
        }
        WriteColor(data, i, palette[i]);
        i := i + 1;
      }
      SavedLayout(data[..], palette);
      return Some(data[..]);
    }

    /** One pass of the loop in `save`: colour `i` into bytes `4i..4i+3`. */
    static method WriteColor(data: array<byte>, i: nat, c: Color)
      requires 4 * i + 4 <= data.Length
      modifies data
      ensures PaletteEntry(data[..], i) == ColorBytes(c)
      ensures forall k :: 0 <= k < data.Length && !(4 * i <= k < 4 * i + 4) ==> data[k] == old(data[k])
    {
      data[4 * i] := c.0;
      data[4 * i + 1] := c.1;
      data[4 * i + 2] := c.2;
      data[4 * i + 3] := c.3;
    }

    /** `get_color`: transparent black out of range. */
    function GetColor(index: int): (c: Color)
      reads this
      ensures 0 <= index < |palette| ==> c == palette[index]
      ensures !(0 <= index < |palette|) ==> c == (0, 0, 0, 0)
    {
      if 0 <= index < |palette| then palette[index] else (0, 0, 0, 0)
    }

    /** `set_color`: out of range changes nothing. */
    method SetColor(index: int, color: Color)
      modifies this
      ensures 0 <= index < |old(palette)| ==> palette == old(palette)[index := color]
      ensures !(0 <= index < |old(palette)|) ==> palette == old(palette)
      ensures filename == old(filename) && isLoaded == old(isLoaded)
    {
      if 0 <= index < |palette| {
        palette := palette[index := color];
      }
    }
  }

  /** `create_grayscale` */
  method CreateGrayscale() returns (parser: PalParser)
    ensures fresh(parser) && parser.palette == Grayscale() && !parser.isLoaded
  {
    parser := new PalParser();
    parser.palette := Grayscale();
  }

  /** `create_solid_palette` */
  method CreateSolidPalette(color: Color) returns (parser: PalParser)
    ensures fresh(parser) && parser.palette == SolidPalette(color) && !parser.isLoaded
  {
    parser := new PalParser();
    parser.palette := SolidPalette(color);
  }
}
