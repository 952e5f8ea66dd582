/** Reading back what `save_to_bytes` writes. The writer always stores version
    2.5 or later, where every layer field is on disk, so layers, anchors, frames
    and actions come back unchanged; an event name comes back cut to 39
    characters and at its first NUL. Each level is stated for the encoding
    sitting anywhere inside a larger buffer. */
module ActRoundTrip {
  import opened Wrappers
  import opened Bytes
  import opened ActParser
  import opened ActWriter

  /** A name as far as its first NUL character. */
  function CutAtNulChar(s: string): (r: string)
    ensures r <= s && '\0' !in r
    ensures |r| < |s| ==> s[|r|] == '\0'
  {
    if |s| == 0 || s[0] == '\0' then [] else [s[0]] + CutAtNulChar(s[1..])
  }

  /** The event name the reader gets back for `name`: the 39 characters that fit
      before the field's closing NUL, up to the first NUL among them. */
  function StoredName(name: string): (r: string)
    ensures |r| <= EVENT_NAME_SIZE - 1 && r <= name
    ensures '\0' !in name && |name| <= EVENT_NAME_SIZE - 1 ==> r == name
  {
    var t := if |name| > EVENT_NAME_SIZE - 1 then name[..EVENT_NAME_SIZE - 1] else name;
    var r := CutAtNulChar(t);
    assert |r| < |name| ==> r[..] == name[..|r|];
    r
  }

  function StoredNames(names: seq<string>): (r: seq<string>)
    ensures |r| == |names| && forall i :: 0 <= i < |names| ==> r[i] == StoredName(names[i])
  {
    seq(|names|, i requires 0 <= i < |names| => StoredName(names[i]))
  }

  /** The counts the reader accepts: 1 to 200 actions, at most 200 frames per
      action, 100 layers and 2000 anchors per frame, and a major version it
      knows. */
  predicate Readable(d: ActData) {
    SaveVersion(d.version).0 <= 3 && 1 <= |d.actions| <= MAX_ACTIONS &&
    forall a :: 0 <= a < |d.actions| ==> ActionReadable(d.actions[a])
  }

  predicate AsciiNames(names: seq<string>) {
    forall i :: 0 <= i < |names| ==> Ascii(names[i])
  }

  predicate ActionReadable(a: Action) {
    |a.frames| <= MAX_FRAMES && forall i :: 0 <= i < |a.frames| ==> FrameReadable(a.frames[i])
  }

  predicate FrameReadable(f: Frame) {
    |f.layers| <= MAX_LAYERS && |f.anchors| <= MAX_ANCHORS
  }

  // ---------------------------------------------------------------------------
  // Layers
  // ---------------------------------------------------------------------------

  /** `_read_layer` undoes `_write_layer` from version 2.5 on. */
  lemma {:induction false} DecodeLayerBytes(l: Layer, v: Version)
    requires AtLeast(v, 2, 5) && LayerFits(l, v)
    ensures DecodeLayer(LayerBytes(l, v), v) == l
  {
    var w := LayerBytes(l, v);
    var e := LayerExtraBytes(l, v);
    var m := if l.mirror then 1 else 0;
    assert w == I32Bytes(l.x) + I32Bytes(l.y) + I32Bytes(l.spriteIndex) + I32Bytes(m) + e;
    assert w[0..4] == I32Bytes(l.x);
    I32In(w, 0, l.x);
    assert w[4..8] == I32Bytes(l.y);
    I32In(w, 4, l.y);
    assert w[8..12] == I32Bytes(l.spriteIndex);
    I32In(w, 8, l.spriteIndex);
    assert w[12..16] == I32Bytes(m);
    I32In(w, 12, m);
    assert w[16..] == e;
    DecodeExtra(w, l, v);
  }

  /** The fields from byte 16 on. */
  lemma {:induction false} DecodeExtra(w: seq<byte>, l: Layer, v: Version)
    requires AtLeast(v, 2, 5) && LayerFits(l, v)
    requires |w| == LayerSize(v) && w[16..] == LayerExtraBytes(l, v)
    ensures (w[16] as int, w[17] as int, w[18] as int, w[19] as int) == l.color
    ensures U32At(w, 20) == l.scaleX && U32At(w, 24) == l.scaleY
    ensures I32At(w, 28) == l.rotation && I32At(w, 32) == l.spriteType
    ensures I32At(w, 36) == l.width && I32At(w, 40) == l.height
  {
    var c: seq<byte> := [l.color.0, l.color.1, l.color.2, l.color.3];
    var p := c + U32Bytes(l.scaleX) + U32Bytes(l.scaleY) + I32Bytes(l.rotation) + I32Bytes(l.spriteType);
    assert LayerExtraBytes(l, v) == p + (I32Bytes(l.width) + I32Bytes(l.height));
    AtSlice(w, 16, p + (I32Bytes(l.width) + I32Bytes(l.height)));
    Split(w, 16, p, I32Bytes(l.width) + I32Bytes(l.height));
    Split(w, 44 - 8, I32Bytes(l.width), I32Bytes(l.height));
    ReadI32(w, 36, l.width);
    ReadI32(w, 40, l.height);
    DecodeFront(w, l, c);
  }

  /** Colour, scales, rotation and sprite type, from byte 16 on. */
  lemma {:induction false} DecodeFront(w: seq<byte>, l: Layer, c: seq<byte>)
    requires IsI32(l.rotation) && IsI32(l.spriteType) && c == [l.color.0, l.color.1, l.color.2, l.color.3]
    requires At(w, 16, c + U32Bytes(l.scaleX) + U32Bytes(l.scaleY) + I32Bytes(l.rotation) + I32Bytes(l.spriteType))
    ensures (w[16] as int, w[17] as int, w[18] as int, w[19] as int) == l.color
    ensures U32At(w, 20) == l.scaleX && U32At(w, 24) == l.scaleY
    ensures I32At(w, 28) == l.rotation && I32At(w, 32) == l.spriteType
  {
    Split(w, 16, c + U32Bytes(l.scaleX) + U32Bytes(l.scaleY) + I32Bytes(l.rotation), I32Bytes(l.spriteType));
    Split(w, 16, c + U32Bytes(l.scaleX) + U32Bytes(l.scaleY), I32Bytes(l.rotation));
    Split(w, 16, c + U32Bytes(l.scaleX), U32Bytes(l.scaleY));
    Split(w, 16, c, U32Bytes(l.scaleX));
    ReadI32(w, 32, l.spriteType);
    ReadI32(w, 28, l.rotation);
    ReadU32(w, 24, l.scaleY);
    ReadU32(w, 20, l.scaleX);
    AtSlice(w, 16, c);
    assert w[16] == c[0] && w[17] == c[1] && w[18] == c[2] && w[19] == c[3];
  }

  lemma {:induction false} LayerRoundTrip(data: seq<byte>, offset: nat, l: Layer, v: Version)
    requires AtLeast(v, 2, 5) && LayerFits(l, v) && At(data, offset, LayerBytes(l, v))
    ensures LayerAt(data, offset, v) == Some((l, offset + LayerSize(v)))
  {
    AtSlice(data, offset, LayerBytes(l, v));
    DecodeLayerBytes(l, v);
  }

  function LayerReader(v: Version): (seq<byte>, nat) -> Option<(Layer, nat)> {
    (data: seq<byte>, offset: nat) => LayerAt(data, offset, v)
  }

  /** The layer loop is the generic all-or-nothing reader. */
  lemma {:induction false} LayersFromReadAll(data: seq<byte>, offset: nat, v: Version, n: nat, acc: seq<Layer>)
    ensures LayersFrom(data, offset, v, n, acc) == ReadAll(data, offset, n, acc, LayerReader(v))
    decreases n
  {
    if n > 0 {
      match LayerAt(data, offset, v)
      case None =>
      case Some((l, next)) => LayersFromReadAll(data, next, v, n - 1, acc + [l]);
    }
  }

  lemma {:induction false} LayersRoundTrip(data: seq<byte>, offset: nat, ls: seq<Layer>, v: Version, acc: seq<Layer>)
    requires AtLeast(v, 2, 5) && LayersFit(ls, v) && At(data, offset, LayersBytes(ls, v))
    ensures LayersFrom(data, offset, v, |ls|, acc) == Some((acc + ls, offset + |LayersBytes(ls, v)|))
  {
    LayersReadAll(data, offset, ls, v, acc);
    LayersFromReadAll(data, offset, v, |ls|, acc);
  }

  lemma {:induction false} LayersReadAll(data: seq<byte>, offset: nat, ls: seq<Layer>, v: Version, acc: seq<Layer>)
    requires AtLeast(v, 2, 5) && LayersFit(ls, v) && At(data, offset, LayersBytes(ls, v))
    ensures ReadAll(data, offset, |ls|, acc, LayerReader(v)) == Some((acc + ls, offset + |LayersBytes(ls, v)|))
  {
    hide LayerAt;
    hide LayerBytes;
    LayersInvert(data, ls, v);
    ReadAllConcat(data, offset, ls, ls, LayerEncoder(v), LayerReader(v), acc, LayersBytes(ls, v));
  }

  lemma {:induction false} LayersInvert(data: seq<byte>, ls: seq<Layer>, v: Version)
    requires AtLeast(v, 2, 5) && LayersFit(ls, v)
    ensures Inverts(data, ls, ls, LayerEncoder(v), LayerReader(v))
  {
    hide DecodeLayer;
    hide LayerBytes;
    forall off: nat, i | 0 <= i < |ls| && At(data, off, LayerEncoder(v)(ls[i]))
      ensures LayerReader(v)(data, off) == Some((ls[i], off + |LayerEncoder(v)(ls[i])|))
    {
      LayerRoundTrip(data, off, ls[i], v);
    }
  }

  // ---------------------------------------------------------------------------
  // Anchors and frames
  // ---------------------------------------------------------------------------

  lemma {:induction false} AnchorRoundTrip(data: seq<byte>, offset: nat, a: Anchor)
    requires AnchorFits(a) && At(data, offset, AnchorBytes(a))
    ensures I32At(data, offset + 4) == a.x && I32At(data, offset + 8) == a.y
    ensures I32At(data, offset + 12) == a.attr
  {
    var t := AnchorBytes(a);
    assert t[4..8] == I32Bytes(a.x) && t[8..12] == I32Bytes(a.y) && t[12..16] == I32Bytes(a.attr);
    AtPart(data, offset, t, 4, 8);
    ReadI32(data, offset + 4, a.x);
    AtPart(data, offset, t, 8, 12);
    ReadI32(data, offset + 8, a.y);
    AtPart(data, offset, t, 12, 16);
    ReadI32(data, offset + 12, a.attr);
  }

  function AnchorReader(): (seq<byte>, nat) -> Option<(Anchor, nat)> {
    (data: seq<byte>, offset: nat) =>
      if offset + ANCHOR_SIZE > |data| then None else Some((AnchorAt(data, offset), offset + ANCHOR_SIZE))
  }

  /** The anchor loop is the generic reader that stops early. */
  lemma {:induction false} AnchorsFromReadWhile(data: seq<byte>, offset: nat, n: nat, acc: seq<Anchor>)
    ensures AnchorsFrom(data, offset, n, acc) == ReadWhile(data, offset, n, acc, AnchorReader())
    decreases n
  {
    if n > 0 && offset + ANCHOR_SIZE <= |data| {
      AnchorsFromReadWhile(data, offset + ANCHOR_SIZE, n - 1, acc + [AnchorAt(data, offset)]);
    }
  }

  lemma {:induction false} AnchorsRoundTrip(data: seq<byte>, offset: nat, anchors: seq<Anchor>, acc: seq<Anchor>)
    requires AnchorsFit(anchors) && At(data, offset, AnchorsBytes(anchors))
    ensures AnchorsFrom(data, offset, |anchors|, acc) == (acc + anchors, offset + |AnchorsBytes(anchors)|)
  {
    AnchorsReadWhile(data, offset, anchors, acc);
    AnchorsFromReadWhile(data, offset, |anchors|, acc);
  }

  lemma {:induction false} AnchorsReadWhile(data: seq<byte>, offset: nat, anchors: seq<Anchor>, acc: seq<Anchor>)
    requires AnchorsFit(anchors) && At(data, offset, AnchorsBytes(anchors))
    ensures ReadWhile(data, offset, |anchors|, acc, AnchorReader()) == (acc + anchors, offset + |AnchorsBytes(anchors)|)
  {
    hide AnchorAt;
    hide AnchorBytes;
    AnchorsInvert(data, anchors);
    ReadWhileConcat(data, offset, anchors, anchors, AnchorEncoder(), AnchorReader(), acc, AnchorsBytes(anchors));
  }

  lemma {:induction false} AnchorsInvert(data: seq<byte>, anchors: seq<Anchor>)
    requires AnchorsFit(anchors)
    ensures Inverts(data, anchors, anchors, AnchorEncoder(), AnchorReader())
  {
    forall off: nat, i | 0 <= i < |anchors| && At(data, off, AnchorEncoder()(anchors[i]))
      ensures AnchorReader()(data, off) == Some((anchors[i], off + |AnchorEncoder()(anchors[i])|))
    {
      AnchorRoundTrip(data, off, anchors[i]);
    }
  }

  lemma {:induction false} FrameTailRoundTrip(data: seq<byte>, offset: nat, f: Frame, v: Version)
    requires AtLeast(v, 2, 5) && FrameTailFits(f, v) && FrameReadable(f)
    requires At(data, offset, FrameTailBytes(f, v))
    ensures FrameTail(data, offset, v, f.layers) == Some((f, offset + |FrameTailBytes(f, v)|))
  {
    hide AnchorsFrom;
    hide AnchorsBytes;
    assert FrameTailBytes(f, v) == I32Bytes(f.eventId) + (I32Bytes(|f.anchors|) + AnchorsBytes(f.anchors));
    Split(data, offset, I32Bytes(f.eventId), I32Bytes(|f.anchors|) + AnchorsBytes(f.anchors));
    ReadI32(data, offset, f.eventId);
    Split(data, offset + 4, I32Bytes(|f.anchors|), AnchorsBytes(f.anchors));
    ReadI32(data, offset + 4, |f.anchors|);
    AnchorsRoundTrip(data, offset + 8, f.anchors, []);
    assert [] + f.anchors == f.anchors;
  }

  lemma {:induction false} FrameRoundTrip(data: seq<byte>, offset: nat, f: Frame, v: Version)
    requires AtLeast(v, 2, 5) && FrameFits(f, v) && FrameReadable(f)
    requires At(data, offset, FrameBytes(f, v))
    ensures FrameAt(data, offset, v) == Some((f, offset + |FrameBytes(f, v)|))
  {
    hide LayersFrom;
    hide FrameTail;
    hide LayersBytes;
    hide FrameTailBytes;
    Split(data, offset, FrameHeadBytes(f) + LayersBytes(f.layers, v), FrameTailBytes(f, v));
    Split(data, offset, FrameHeadBytes(f), LayersBytes(f.layers, v));
    assert FrameHeadBytes(f)[FRAME_PADDING..FRAME_PADDING + 4] == I32Bytes(|f.layers|);
    AtPart(data, offset, FrameHeadBytes(f), FRAME_PADDING, FRAME_PADDING + 4);
    ReadI32(data, offset + FRAME_PADDING, |f.layers|);
    LayersRoundTrip(data, offset + FRAME_PADDING + 4, f.layers, v, []);
    assert [] + f.layers == f.layers;
    FrameTailRoundTrip(data, offset + FRAME_PADDING + 4 + |LayersBytes(f.layers, v)|, f, v);
  }

  function FrameReader(v: Version): (seq<byte>, nat) -> Option<(Frame, nat)> {
    (data: seq<byte>, offset: nat) => FrameAt(data, offset, v)
  }

  /** The frame loop is the generic reader that stops early. */
  lemma {:induction false} FramesFromReadWhile(data: seq<byte>, offset: nat, v: Version, n: nat, acc: seq<Frame>)
    ensures FramesFrom(data, offset, v, n, acc) == ReadWhile(data, offset, n, acc, FrameReader(v))
    decreases n
  {
    if n > 0 && offset < |data| {
      match FrameAt(data, offset, v)
      case None =>
      case Some((f, next)) => FramesFromReadWhile(data, next, v, n - 1, acc + [f]);
    }
  }

  lemma {:induction false} FramesRoundTrip(data: seq<byte>, offset: nat, frames: seq<Frame>, v: Version, acc: seq<Frame>)
    requires AtLeast(v, 2, 5) && FramesFit(frames, v) && At(data, offset, FramesBytes(frames, v))
    requires forall i :: 0 <= i < |frames| ==> FrameReadable(frames[i])
    ensures FramesFrom(data, offset, v, |frames|, acc) == (acc + frames, offset + |FramesBytes(frames, v)|)
  {
    FramesReadWhile(data, offset, frames, v, acc);
    FramesFromReadWhile(data, offset, v, |frames|, acc);
  }

  lemma {:induction false} FramesReadWhile(data: seq<byte>, offset: nat, frames: seq<Frame>, v: Version, acc: seq<Frame>)
    requires AtLeast(v, 2, 5) && FramesFit(frames, v) && At(data, offset, FramesBytes(frames, v))
    requires forall i :: 0 <= i < |frames| ==> FrameReadable(frames[i])
    ensures ReadWhile(data, offset, |frames|, acc, FrameReader(v)) == (acc + frames, offset + |FramesBytes(frames, v)|)
  {
    hide FrameAt;
    hide FrameBytes;
    FramesInvert(data, frames, v);
    ReadWhileConcat(data, offset, frames, frames, FrameEncoder(v), FrameReader(v), acc, FramesBytes(frames, v));
  }

  lemma {:induction false} FramesInvert(data: seq<byte>, frames: seq<Frame>, v: Version)
    requires AtLeast(v, 2, 5) && FramesFit(frames, v)
    requires forall i :: 0 <= i < |frames| ==> FrameReadable(frames[i])
    ensures Inverts(data, frames, frames, FrameEncoder(v), FrameReader(v))
  {
    hide FrameAt;
    hide FrameBytes;
    forall off: nat, i | 0 <= i < |frames| && At(data, off, FrameEncoder(v)(frames[i]))
      ensures FrameReader(v)(data, off) == Some((frames[i], off + |FrameEncoder(v)(frames[i])|))
    {
      FrameRoundTrip(data, off, frames[i], v);
    }
  }

  // ---------------------------------------------------------------------------
  // Actions
  // ---------------------------------------------------------------------------

  lemma {:induction false} ActionRoundTrip(data: seq<byte>, offset: nat, a: Action, v: Version)
    requires AtLeast(v, 2, 5) && ActionFits(a, v) && ActionReadable(a)
    requires At(data, offset, ActionBytes(a, v))
    ensures ActionAt(data, offset, v) == Some((a, offset + |ActionBytes(a, v)|))
  {
    hide FramesFrom;
    hide FramesBytes;
    Split(data, offset, I32Bytes(|a.frames|), FramesBytes(a.frames, v));
    ReadI32(data, offset, |a.frames|);
    FramesRoundTrip(data, offset + 4, a.frames, v, []);
    assert [] + a.frames == a.frames;
  }

  function ActionReader(v: Version): (seq<byte>, nat) -> Option<(Action, nat)> {
    (data: seq<byte>, offset: nat) => ActionAt(data, offset, v)
  }

  /** The action loop is the generic reader that stops early. */
  lemma {:induction false} ActionsFromReadWhile(data: seq<byte>, offset: nat, v: Version, n: nat, acc: seq<Action>)
    ensures ActionsFrom(data, offset, v, n, acc) == ReadWhile(data, offset, n, acc, ActionReader(v))
    decreases n
  {
    if n > 0 && offset < |data| {
      match ActionAt(data, offset, v)
      case None =>
      case Some((a, next)) => ActionsFromReadWhile(data, next, v, n - 1, acc + [a]);
    }
  }

  lemma {:induction false} ActionsRoundTrip(data: seq<byte>, offset: nat, actions: seq<Action>, v: Version, acc: seq<Action>)
    requires AtLeast(v, 2, 5) && ActionsFit(actions, v) && At(data, offset, ActionsBytes(actions, v))
    requires forall i :: 0 <= i < |actions| ==> ActionReadable(actions[i])
    ensures ActionsFrom(data, offset, v, |actions|, acc) == (acc + actions, offset + |ActionsBytes(actions, v)|)
  {
    ActionsReadWhile(data, offset, actions, v, acc);
    ActionsFromReadWhile(data, offset, v, |actions|, acc);
  }

  lemma {:induction false} ActionsReadWhile(data: seq<byte>, offset: nat, actions: seq<Action>, v: Version, acc: seq<Action>)
    requires AtLeast(v, 2, 5) && ActionsFit(actions, v) && At(data, offset, ActionsBytes(actions, v))
    requires forall i :: 0 <= i < |actions| ==> ActionReadable(actions[i])
    ensures ReadWhile(data, offset, |actions|, acc, ActionReader(v)) == (acc + actions, offset + |ActionsBytes(actions, v)|)
  {
    hide ActionAt;
    hide ActionBytes;
    ActionsInvert(data, actions, v);
    ReadWhileConcat(data, offset, actions, actions, ActionEncoder(v), ActionReader(v), acc, ActionsBytes(actions, v));
  }

  lemma {:induction false} ActionsInvert(data: seq<byte>, actions: seq<Action>, v: Version)
    requires AtLeast(v, 2, 5) && ActionsFit(actions, v)
    requires forall i :: 0 <= i < |actions| ==> ActionReadable(actions[i])
    ensures Inverts(data, actions, actions, ActionEncoder(v), ActionReader(v))
  {
    hide ActionAt;
    hide ActionBytes;
    forall off: nat, i | 0 <= i < |actions| && At(data, off, ActionEncoder(v)(actions[i]))
      ensures ActionReader(v)(data, off) == Some((actions[i], off + |ActionEncoder(v)(actions[i])|))
    {
      ActionRoundTrip(data, off, actions[i], v);
    }
  }

  // ---------------------------------------------------------------------------
  // Event names
  // ---------------------------------------------------------------------------

  /** Cutting at the first NUL looks past `a` only when `a` has none. */
  lemma {:induction false} CutAtNulAppend(a: seq<byte>, b: seq<byte>)
    requires 0 !in a
    ensures CutAtNul(a + b) == a + CutAtNul(b)
  {
    if |a| > 0 {
      assert (a + b)[1..] == a[1..] + b;
      CutAtNulAppend(a[1..], b);
      assert [a[0]] + a[1..] == a;
    } else {
      assert a + b == b;
    }
  }

  /** Encoding and cutting at NUL commute on latin-1 text. */
  lemma {:induction false} CutEncode(s: string)
    requires Latin1(s)
    ensures CutAtNul(Encode(s)) == Encode(CutAtNulChar(s))
  {
    if |s| > 0 {
      EncodeCons(s);
      if s[0] != '\0' {
        CutEncode(s[1..]);
        EncodeCons([s[0]] + CutAtNulChar(s[1..]));
        assert ([s[0]] + CutAtNulChar(s[1..]))[1..] == CutAtNulChar(s[1..]);
      }
    }
  }

  /** Encoding one character, then the rest. */
  lemma EncodeCons(s: string)
    requires |s| > 0 && Latin1(s)
    ensures Encode(s) == [s[0] as int] + Encode(s[1..])
  {
    assert Encode(s)[1..] == Encode(s[1..]);
  }

  /** The 40-byte field of a name, cut at its first NUL, is the stored name. */
  lemma {:induction false} EventFieldCut(name: string)
    requires Latin1(name)
    ensures CutAtNul(EventBytes(name)) == Encode(StoredName(name))
  {
    var t := if |name| > EVENT_NAME_SIZE - 1 then name[..EVENT_NAME_SIZE - 1] else name;
    var b := Encode(name);
    var cut := if |b| > EVENT_NAME_SIZE - 1 then b[..EVENT_NAME_SIZE - 1] else b;
    assert cut == Encode(t);
    var pad := Fill(EVENT_NAME_SIZE - |cut|, 0);
    assert EventBytes(name) == cut + pad;
    CutEncode(t);
    if |CutAtNul(cut)| == |cut| {
      CutAtNulAppend(cut, pad);
      assert CutAtNul(pad) == [];
    } else {
      CutHead(cut, pad);
    }
  }

  /** Stated for ASCII names: `_read_string` tries UTF-8 and then EUC-KR
      before latin-1, and only on ASCII bytes do all three agree with the
      latin-1 bytes the writer stores. */
  lemma {:induction false} EventNameRoundTrip(data: seq<byte>, offset: nat, name: string)
    requires Latin1(name) && Ascii(name) && At(data, offset, EventBytes(name))
    ensures EventName(data, offset) == StoredName(name)
  {
    AtSlice(data, offset, EventBytes(name));
    EventFieldCut(name);
    var c := StoredName(name);
    assert Latin1(c) by {
      assert forall i :: 0 <= i < |c| ==> c[i] == name[i];
    }
    DecodeEncode(c);
  }

  /** A NUL inside `a` ends the cut there. */
  lemma {:induction false} CutHead(a: seq<byte>, b: seq<byte>)
    requires |CutAtNul(a)| < |a|
    ensures CutAtNul(a + b) == CutAtNul(a)
  {
    if a[0] != 0 {
      assert (a + b)[1..] == a[1..] + b;
      CutHead(a[1..], b);
    }
  }

  function EventReader(): (seq<byte>, nat) -> Option<(string, nat)> {
    (data: seq<byte>, offset: nat) => Some((EventName(data, offset), offset + EVENT_NAME_SIZE))
  }

  /** The event loop is the generic reader, one that never fails. */
  lemma {:induction false} EventsFromReadAll(data: seq<byte>, offset: nat, n: nat, acc: seq<string>)
    ensures Some(EventsFrom(data, offset, n, acc)) == ReadAll(data, offset, n, acc, EventReader())
    decreases n
  {
    if n > 0 {
      EventsFromReadAll(data, offset + EVENT_NAME_SIZE, n - 1, acc + [EventName(data, offset)]);
    }
  }

  lemma {:induction false} EventsRoundTrip(data: seq<byte>, offset: nat, names: seq<string>, acc: seq<string>)
    requires NamesFit(names) && AsciiNames(names) && At(data, offset, EventsBytes(names))
    ensures EventsFrom(data, offset, |names|, acc).0 == acc + StoredNames(names)
  {
    EventsReadAll(data, offset, names, acc);
    EventsFromReadAll(data, offset, |names|, acc);
  }

  lemma {:induction false} EventsReadAll(data: seq<byte>, offset: nat, names: seq<string>, acc: seq<string>)
    requires NamesFit(names) && AsciiNames(names) && At(data, offset, EventsBytes(names))
    ensures ReadAll(data, offset, |names|, acc, EventReader()) == Some((acc + StoredNames(names), offset + |EventsBytes(names)|))
  {
    hide EventName;
    hide EventBytes;
    EventsInvert(data, names);
    ReadAllConcat(data, offset, names, StoredNames(names), EventEncoder(), EventReader(), acc, EventsBytes(names));
  }

  lemma {:induction false} EventsInvert(data: seq<byte>, names: seq<string>)
    requires NamesFit(names) && AsciiNames(names)
    ensures Inverts(data, names, StoredNames(names), EventEncoder(), EventReader())
  {
    hide EventName;
    hide EventBytes;
    hide StoredName;
    forall off: nat, i | 0 <= i < |names| && At(data, off, EventEncoder()(names[i]))
      ensures EventReader()(data, off) == Some((StoredNames(names)[i], off + |EventEncoder()(names[i])|))
    {
      EventNameRoundTrip(data, off, names[i]);
    }
  }

  // ---------------------------------------------------------------------------
  // The file
  // ---------------------------------------------------------------------------

  /** Loading a saved file gives back its actions unchanged at the version it
      was saved with, and its event names as stored. The speeds written last
      do not disturb the rest. */
  lemma {:induction false} SaveLoadRoundTrip(d: ActData, factor: SpeedFactors)
    requires ActFits(d) && Readable(d) && AsciiNames(d.events)
    ensures SaveAct(d, factor).Some?
    ensures ParseAct(SaveAct(d, factor).value)
            == Some(ActData(SaveVersion(d.version), d.actions, StoredNames(d.events)))
  {
    hide ActionsFrom;
    hide ActionsBytes;
    hide EventsSection;
    hide EventTableBytes;
    hide SpeedTableBytes;
    var v := SaveVersion(d.version);
    var data := ActBytes(d, factor);
    var h, a, e := HeaderBytes(v, |d.actions|), ActionsBytes(d.actions, v), EventTableBytes(d.events, v);
    assert data == h + a + e + SpeedTableBytes(|d.actions|, factor, v);
    AtSlice(data, 0, data);
    Split(data, 0, h + a + e, SpeedTableBytes(|d.actions|, factor, v));
    AtSlice(data, 0, h + a + e);
    HeaderRead(data, h, v, |d.actions|);
    Split(data, 0, h + a, e);
    Split(data, 0, h, a);
    ActionsRoundTrip(data, HEADER_SIZE, d.actions, v, []);
    assert [] + d.actions == d.actions;
    EventTableRead(data, HEADER_SIZE + |a|, d.events, ActData(v, d.actions, []));
  }

  /** The speed loop reads the `n` speeds written at `offset`. */
  lemma {:induction false} SpeedsRoundTrip(data: seq<byte>, offset: nat, n: nat, factor: SpeedFactors, last: u32)
    requires At(data, offset, SpeedBytes(n, factor))
    ensures forall i :: 0 <= i < n ==> SpeedsFrom(data, offset, n, last)[i] == factor(i)
  {
    SpeedsReadFrom(data, offset, n, factor, 0, offset, n, last);
  }

  lemma {:induction false} SpeedsReadFrom(data: seq<byte>, offset: nat, n: nat, factor: SpeedFactors,
                                          j: nat, at: nat, m: nat, last: u32)
    requires At(data, offset, SpeedBytes(n, factor)) && j + m == n && at == offset + 4 * j
    ensures forall i :: 0 <= i < m ==> SpeedsFrom(data, at, m, last)[i] == factor(j + i)
    decreases m
  {
    if m > 0 {
      SpeedAt(data, offset, n, factor, j);
      var v := U32At(data, at);
      SpeedsReadFrom(data, offset, n, factor, j + 1, at + 4, m - 1, v);
      assert SpeedsFrom(data, at, m, last) == [factor(j)] + SpeedsFrom(data, at + 4, m - 1, v);
    }
  }

  /** The `i`-th speed sits four bytes after the one before it. */
  lemma {:induction false} SpeedAt(data: seq<byte>, offset: nat, n: nat, factor: SpeedFactors, i: nat)
    requires At(data, offset, SpeedBytes(n, factor)) && i < n
    ensures offset + 4 * i + 4 <= |data| && U32At(data, offset + 4 * i) == factor(i)
  {
    Split(data, offset, SpeedBytes(n - 1, factor), U32Bytes(factor(n - 1)));
    if i < n - 1 {
      SpeedAt(data, offset, n - 1, factor, i);
    } else {
      ReadU32(data, offset + 4 * i, factor(i));
    }
  }

  /** The event table, read back after the actions. */
  lemma {:induction false} EventTableRead(data: seq<byte>, offset: nat, names: seq<string>, act: ActData)
    requires AtLeast(act.version, 2, 1) && act.events == []
    requires |names| < 0x1_0000_0000 && NamesFit(names) && AsciiNames(names)
    requires At(data, offset, EventTableBytes(names, act.version))
    ensures EventsSection(data, offset, act) == Some(act.(events := StoredNames(names)))
  {
    hide EventsFrom;
    hide EventsBytes;
    Split(data, offset, U32Bytes(|names|), EventsBytes(names));
    ReadU32(data, offset, |names|);
    EventsRoundTrip(data, offset + 4, names, []);
    assert [] + StoredNames(names) == StoredNames(names);
  }

  /** The header fields read from the start of a saved file. */
  lemma {:induction false} HeaderRead(data: seq<byte>, h: seq<byte>, v: Version, count: u16)
    requires h == HeaderBytes(v, count) && h <= data
    ensures data[..2] == SIGNATURE && data[3] == v.0 && data[2] == v.1
    ensures U16At(data, 4) == count
  {
    assert data[..2] == h[..2];
    assert data[..HEADER_SIZE] == h;
    U16Field(data, 0, h, 4);
  }
}
