/** `save_to_bytes` and its `_write_*` helpers: the inverse layout of the reader.
    A value `struct.pack` cannot encode (an integer outside 32 bits, a colour
    channel outside 0..255, a name character outside latin-1, more than 65535
    actions) raises, and the whole save gives `None`. */
module ActWriter {
  import opened Wrappers
  import opened Bytes
  import opened ActParser

  predicate IsI32(x: int) {
    -0x8000_0000 <= x < 0x8000_0000
  }

  predicate IsByte(x: int) {
    0 <= x < 0x100
  }

  /** The version a file is written with: anything below 2.5 is raised to 2.5. */
  function SaveVersion(v: Version): (r: Version)
    ensures AtLeast(r, 2, 5)
    ensures AtLeast(v, 2, 5) ==> r == v
    ensures !AtLeast(v, 2, 5) ==> r == (2, 5)
  {
    if v.0 < 2 || (v.0 == 2 && v.1 < 5) then (2, 5) else v
  }

  // ---------------------------------------------------------------------------
  // Layers and anchors
  // ---------------------------------------------------------------------------

  /** Every field `_write_layer` packs at version `v` is encodable. */
  predicate LayerFits(l: Layer, v: Version) {
    IsI32(l.x) && IsI32(l.y) && IsI32(l.spriteIndex) &&
    (AtLeast(v, 2, 0) ==>
      IsByte(l.color.0) && IsByte(l.color.1) && IsByte(l.color.2) && IsByte(l.color.3) &&
      IsI32(l.rotation) && IsI32(l.spriteType) &&
      (AtLeast(v, 2, 5) ==> IsI32(l.width) && IsI32(l.height)))
  }

  /** `_write_layer`: x, y, sprite index, mirror as 1 or 0, then the fields the
      version adds, in the order the reader takes them. */
  function LayerBytes(l: Layer, v: Version): (r: seq<byte>)
    requires LayerFits(l, v)
    ensures |r| == LayerSize(v)
  {
    I32Bytes(l.x) + I32Bytes(l.y) + I32Bytes(l.spriteIndex) + I32Bytes(if l.mirror then 1 else 0)
    + LayerExtraBytes(l, v)
  }

  /** The fields a layer has from version 2.0. */
  function LayerExtraBytes(l: Layer, v: Version): (r: seq<byte>)
    requires LayerFits(l, v)
    ensures |r| == LayerSize(v) - 16
  {
    if !AtLeast(v, 2, 0) then []
    else
      [l.color.0, l.color.1, l.color.2, l.color.3] + U32Bytes(l.scaleX)
      + (if AtLeast(v, 2, 4) then U32Bytes(l.scaleY) else [])
      + I32Bytes(l.rotation) + I32Bytes(l.spriteType)
      + (if AtLeast(v, 2, 5) then I32Bytes(l.width) + I32Bytes(l.height) else [])
  }

  predicate LayersFit(ls: seq<Layer>, v: Version) {
    forall i :: 0 <= i < |ls| ==> LayerFits(ls[i], v)
  }

  function LayerEncoder(v: Version): Layer --> seq<byte> {
    (l: Layer) requires LayerFits(l, v) => LayerBytes(l, v)
  }

  /** The layers of a frame, one after another. */
  function LayersBytes(ls: seq<Layer>, v: Version): (r: seq<byte>)
    requires LayersFit(ls, v)
  {
    Concat(ls, LayerEncoder(v))
  }

  predicate AnchorFits(a: Anchor) {
    IsI32(a.x) && IsI32(a.y) && IsI32(a.attr)
  }

  /** One anchor: four zero bytes where the reader skips four, then x, y, attr. */
  function AnchorBytes(a: Anchor): (r: seq<byte>)
    requires AnchorFits(a)
    ensures |r| == ANCHOR_SIZE
  {
    Fill(4, 0) + I32Bytes(a.x) + I32Bytes(a.y) + I32Bytes(a.attr)
  }

  predicate AnchorsFit(anchors: seq<Anchor>) {
    forall i :: 0 <= i < |anchors| ==> AnchorFits(anchors[i])
  }

  function AnchorEncoder(): Anchor --> seq<byte> {
    (a: Anchor) requires AnchorFits(a) => AnchorBytes(a)
  }

  function AnchorsBytes(anchors: seq<Anchor>): (r: seq<byte>)
    requires AnchorsFit(anchors)
  {
    Concat(anchors, AnchorEncoder())
  }

  // ---------------------------------------------------------------------------
  // Frames and actions
  // ---------------------------------------------------------------------------

  predicate FrameFits(f: Frame, v: Version) {
    IsI32(|f.layers|) && LayersFit(f.layers, v) && FrameTailFits(f, v)
  }

  predicate FrameTailFits(f: Frame, v: Version) {
    (AtLeast(v, 2, 0) ==> IsI32(f.eventId)) &&
    (AtLeast(v, 2, 3) ==> IsI32(|f.anchors|) && AnchorsFit(f.anchors))
  }

  /** `_write_frame`: 32 zero bytes, the layer count and the layers, then the tail. */
  function FrameBytes(f: Frame, v: Version): (r: seq<byte>)
    requires FrameFits(f, v)
    ensures |r| >= FRAME_PADDING + 4
  {
    FrameHeadBytes(f) + LayersBytes(f.layers, v) + FrameTailBytes(f, v)
  }

  function FrameHeadBytes(f: Frame): (r: seq<byte>)
    requires IsI32(|f.layers|)
    ensures |r| == FRAME_PADDING + 4
  {
    Fill(FRAME_PADDING, 0) + I32Bytes(|f.layers|)
  }

  /** The event id from 2.0; from 2.3 the anchor count and the anchors. */
  function FrameTailBytes(f: Frame, v: Version): (r: seq<byte>)
    requires FrameTailFits(f, v)
  {
    (if AtLeast(v, 2, 0) then I32Bytes(f.eventId) else [])
    + (if AtLeast(v, 2, 3) then I32Bytes(|f.anchors|) + AnchorsBytes(f.anchors) else [])
  }

  predicate FramesFit(frames: seq<Frame>, v: Version) {
    forall i :: 0 <= i < |frames| ==> FrameFits(frames[i], v)
  }

  function FrameEncoder(v: Version): Frame --> seq<byte> {
    (f: Frame) requires FrameFits(f, v) => FrameBytes(f, v)
  }

  function FramesBytes(frames: seq<Frame>, v: Version): (r: seq<byte>)
    requires FramesFit(frames, v)
  {
    Concat(frames, FrameEncoder(v))
  }

  predicate ActionFits(a: Action, v: Version) {
    IsI32(|a.frames|) && FramesFit(a.frames, v)
  }

  /** `_write_action`: the frame count, then the frames. */
  function ActionBytes(a: Action, v: Version): (r: seq<byte>)
    requires ActionFits(a, v)
    ensures |r| >= 4
  {
    I32Bytes(|a.frames|) + FramesBytes(a.frames, v)
  }

  predicate ActionsFit(actions: seq<Action>, v: Version) {
    forall i :: 0 <= i < |actions| ==> ActionFits(actions[i], v)
  }

  function ActionEncoder(v: Version): Action --> seq<byte> {
    (a: Action) requires ActionFits(a, v) => ActionBytes(a, v)
  }

  function ActionsBytes(actions: seq<Action>, v: Version): (r: seq<byte>)
    requires ActionsFit(actions, v)
  {
    Concat(actions, ActionEncoder(v))
  }

  // ---------------------------------------------------------------------------
  // Event names and the file
  // ---------------------------------------------------------------------------

  /** One event name: its latin-1 bytes cut to 39, padded with NULs to 40, so
      the field always ends in a NUL. */
  function EventBytes(name: string): (r: seq<byte>)
    requires Latin1(name)
    ensures |r| == EVENT_NAME_SIZE && r[EVENT_NAME_SIZE - 1] == 0
    ensures |name| <= EVENT_NAME_SIZE - 1 ==> r[..|name|] == Encode(name)
  {
    var b := Encode(name);
    var cut := if |b| > EVENT_NAME_SIZE - 1 then b[..EVENT_NAME_SIZE - 1] else b;
    cut + Fill(EVENT_NAME_SIZE - |cut|, 0)
  }

  predicate NamesFit(names: seq<string>) {
    forall i :: 0 <= i < |names| ==> Latin1(names[i])
  }

  function EventEncoder(): string --> seq<byte> {
    (name: string) requires Latin1(name) => EventBytes(name)
  }

  function EventsBytes(names: seq<string>): (r: seq<byte>)
    requires NamesFit(names)
  {
    Concat(names, EventEncoder())
  }

  /** Everything `save_to_bytes` packs can be packed, at the version it writes. */
  predicate ActFits(d: ActData) {
    var v := SaveVersion(d.version);
    |d.actions| < 0x1_0000 && ActionsFit(d.actions, v) &&
    (AtLeast(v, 2, 1) ==> |d.events| < 0x1_0000_0000 && NamesFit(d.events))
  }

  /** The 16-byte header: "AC", minor, major, the action count, 10 zero bytes. */
  function HeaderBytes(v: Version, count: u16): (r: seq<byte>)
    ensures |r| == HEADER_SIZE && r[..2] == SIGNATURE
    ensures r[2] == v.1 && r[3] == v.0 && U16At(r, 4) == count
  {
    var r := SIGNATURE + [v.1, v.0] + U16Bytes(count) + Fill(10, 0);
    U16Frame(r, U16Bytes(count), 4, 0);
    r
  }

  /** From 2.1 the event count and the names. */
  function EventTableBytes(names: seq<string>, v: Version): (r: seq<byte>)
    requires AtLeast(v, 2, 1) ==> |names| < 0x1_0000_0000 && NamesFit(names)
  {
    if AtLeast(v, 2, 1) then U32Bytes(|names|) + EventsBytes(names) else []
  }

  /** The speed factor `save_to_bytes` packs for the action at each index, as
      its float32 bit pattern: the average of the action's frame delays over
      25 ms. Delays and this arithmetic are floating point, so the factors are
      an input. */
  type SpeedFactors = nat -> u32

  /** The speeds of the first `n` actions, four bytes each. */
  function SpeedBytes(n: nat, factor: SpeedFactors): (r: seq<byte>)
    ensures |r| == 4 * n
  {
    if n == 0 then [] else SpeedBytes(n - 1, factor) + U32Bytes(factor(n - 1))
  }

  /** From 2.2 one speed per action. */
  function SpeedTableBytes(n: nat, factor: SpeedFactors, v: Version): (r: seq<byte>)
  {
    if AtLeast(v, 2, 2) then SpeedBytes(n, factor) else []
  }

  /** The bytes of a file that can be saved: header, actions, event table and
      speeds. */
  function ActBytes(d: ActData, factor: SpeedFactors): (r: seq<byte>)
    requires ActFits(d)
    ensures |r| >= HEADER_SIZE
  {
    var v := SaveVersion(d.version);
    HeaderBytes(v, |d.actions|) + ActionsBytes(d.actions, v) + EventTableBytes(d.events, v)
      + SpeedTableBytes(|d.actions|, factor, v)
  }

  /** `save_to_bytes`: `None` exactly when some value cannot be packed. */
  function SaveAct(d: ActData, factor: SpeedFactors): (r: Option<seq<byte>>)
    ensures r.Some? <==> ActFits(d)
    ensures r.Some? ==> |r.value| >= HEADER_SIZE && r.value[..2] == SIGNATURE
    ensures r.Some? ==> AtLeast((r.value[3], r.value[2]), 2, 5)
  {
    if ActFits(d) then Some(ActBytes(d, factor)) else None
  }

  // ---------------------------------------------------------------------------
  // The writer, as the source runs it
  // ---------------------------------------------------------------------------

  /** The layer loop of `_write_frame`. */
  method WriteLayers(out: seq<byte>, ls: seq<Layer>, v: Version) returns (r: Option<seq<byte>>)
    ensures r == if LayersFit(ls, v) then Some(out + LayersBytes(ls, v)) else None
  {
    r := WriteEach(out, ls, x => LayerFits(x, v), LayerEncoder(v));
  }

  /** The anchor loop of `_write_frame`. */
  method WriteAnchors(out: seq<byte>, anchors: seq<Anchor>) returns (r: Option<seq<byte>>)
    ensures r == if AnchorsFit(anchors) then Some(out + AnchorsBytes(anchors)) else None
  {
    r := WriteEach(out, anchors, x => AnchorFits(x), AnchorEncoder());
  }

  /** `_write_frame` */
  method WriteFrame(out: seq<byte>, f: Frame, v: Version) returns (r: Option<seq<byte>>)
    ensures r == if FrameFits(f, v) then Some(out + FrameBytes(f, v)) else None
  {
    if !IsI32(|f.layers|) {
      return None;
    }
    var w := WriteLayers(out + FrameHeadBytes(f), f.layers, v);
    if w.None? {
      return None;
    }
    var tail := WriteFrameTail(f, v);
    if tail.None? {
      return None;
    }
    AppendThree(out, FrameHeadBytes(f), LayersBytes(f.layers, v), FrameTailBytes(f, v));
    return Some(w.value + tail.value);
  }

  /** The part of `_write_frame` after the layers. */
  method WriteFrameTail(f: Frame, v: Version) returns (r: Option<seq<byte>>)
    ensures r == if FrameTailFits(f, v) then Some(FrameTailBytes(f, v)) else None
  {
    var tail: seq<byte> := [];
    if AtLeast(v, 2, 0) {
      if !IsI32(f.eventId) {
        return None;
      }
      tail := I32Bytes(f.eventId);
    }
    if AtLeast(v, 2, 3) {
      if !IsI32(|f.anchors|) {
        return None;
      }
      var anchors := WriteAnchors(I32Bytes(|f.anchors|), f.anchors);
      if anchors.None? {
        return None;
      }
      tail := tail + anchors.value;
    }
    assert tail == FrameTailBytes(f, v);
    return Some(tail);
  }

  /** The frame loop of `_write_action`. */
  method WriteFrames(out: seq<byte>, frames: seq<Frame>, v: Version) returns (r: Option<seq<byte>>)
    ensures r == if FramesFit(frames, v) then Some(out + FramesBytes(frames, v)) else None
  {
    r := WriteEach(out, frames, x => FrameFits(x, v), FrameEncoder(v));
  }

  /** `_write_action` */
  method WriteAction(out: seq<byte>, a: Action, v: Version) returns (r: Option<seq<byte>>)
    ensures r == if ActionFits(a, v) then Some(out + ActionBytes(a, v)) else None
  {
    if !IsI32(|a.frames|) {
      return None;
    }
    var w := WriteFrames(I32Bytes(|a.frames|), a.frames, v);
    if w.None? {
      return None;
    }
    return Some(out + w.value);
  }

  /** The action loop of `save_to_bytes`. */
  method WriteActions(out: seq<byte>, actions: seq<Action>, v: Version) returns (r: Option<seq<byte>>)
    ensures r == if ActionsFit(actions, v) then Some(out + ActionsBytes(actions, v)) else None
  {
    r := WriteEach(out, actions, x => ActionFits(x, v), ActionEncoder(v));
  }

  /** The event loop of `save_to_bytes`. */
  method WriteEvents(out: seq<byte>, names: seq<string>) returns (r: Option<seq<byte>>)
    ensures r == if NamesFit(names) then Some(out + EventsBytes(names)) else None
  {
    r := WriteEach(out, names, x => Latin1(x), EventEncoder());
  }

  /** `save_to_bytes` */
  method SaveToBytes(d: ActData, factor: SpeedFactors) returns (r: Option<seq<byte>>)
    ensures r == SaveAct(d, factor)
  {
    var v := SaveVersion(d.version);
    if |d.actions| >= 0x1_0000 {
      return None;
    }
    var w := WriteActions(HeaderBytes(v, |d.actions|), d.actions, v);
    if w.None? {
      return None;
    }
    var events: seq<byte> := [];
    if AtLeast(v, 2, 1) {
      if |d.events| >= 0x1_0000_0000 {
        return None;
      }
      var table := WriteEvents(U32Bytes(|d.events|), d.events);
      if table.None? {
        return None;
      }
      events := table.value;
    }
    assert events == EventTableBytes(d.events, v);
    var speeds := WriteSpeeds(|d.actions|, factor, v);
    return Some(w.value + events + speeds);
  }

  /** The speed loop of `save_to_bytes`. */
  method WriteSpeeds(n: nat, factor: SpeedFactors, v: Version) returns (out: seq<byte>)
    ensures out == SpeedTableBytes(n, factor, v)
  {
    out := [];
    if AtLeast(v, 2, 2) {
      for i := 0 to n
        invariant out == SpeedBytes(i, factor)
      {
        out := out + U32Bytes(factor(i));
      }
    }
  }
}
