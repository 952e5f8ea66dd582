/** `.act` animation files: a 16-byte header, then count-prefixed actions, each a
    list of frames, each a list of sprite layers plus an event id and anchors;
    then, from version 2.1, a table of 40-byte event names. Which fields a layer
    or frame stores depends on the version. */
module ActParser {
  import opened Wrappers
  import opened Bytes

  const SIGNATURE: seq<byte> := [0x41, 0x43]
  const HEADER_SIZE := 16
  const FRAME_PADDING := 32
  const MAX_ACTIONS := 200
  const MAX_FRAMES := 200
  const MAX_LAYERS := 100
  const MAX_ANCHORS := 2000
  const ANCHOR_SIZE := 16
  const EVENT_NAME_SIZE := 40

  /** The float32 bit pattern of 1.0, the scale a layer has when none is stored. */
  const ONE_F32: u32 := 0x3F80_0000

  /** An RGBA tint; the reader yields bytes, the editor accepts any integers. */
  type Tint = (int, int, int, int)

  const NO_TINT: Tint := (255, 255, 255, 255)

  /** `ACTLayer`. Scales are carried as their float32 bit patterns. */
  datatype Layer = Layer(
    x: int, y: int, spriteIndex: int, mirror: bool,
    scaleX: u32, scaleY: u32, rotation: int, spriteType: int,
    width: int, height: int, color: Tint)

  /** `ACTAnchor` */
  datatype Anchor = Anchor(x: int, y: int, attr: int)

  /** `ACTFrame`; `eventId` is -1 for no event. */
  datatype Frame = Frame(layers: seq<Layer>, eventId: int, anchors: seq<Anchor>) {
    /** `get_anchor` */
    function GetAnchor(index: int): (r: Option<Anchor>)
      ensures r.Some? <==> 0 <= index < |anchors|
      ensures r.Some? ==> r.value == anchors[index]
    {
      if 0 <= index < |anchors| then Some(anchors[index]) else None
    }
  }

  /** `ACTAction` */
  datatype Action = Action(frames: seq<Frame>) {
    /** `get_frame` */
    function GetFrame(index: int): (r: Option<Frame>)
      ensures r.Some? <==> 0 <= index < |frames|
      ensures r.Some? ==> r.value == frames[index]
    {
      if 0 <= index < |frames| then Some(frames[index]) else None
    }
  }

  /** `ACTData` without the per-action intervals and the file path. */
  datatype ActData = ActData(version: Version, actions: seq<Action>, events: seq<string>) {
    /** `get_action` */
    function GetAction(index: int): (r: Option<Action>)
      ensures r.Some? <==> 0 <= index < |actions|
      ensures r.Some? ==> r.value == actions[index]
    {
      if 0 <= index < |actions| then Some(actions[index]) else None
    }

    /** `get_frame(action_index, frame_index)`: both indices must be in range. */
    function GetFrame(actionIndex: int, frameIndex: int): (r: Option<Frame>)
      ensures r.Some? <==> 0 <= actionIndex < |actions| && 0 <= frameIndex < |actions[actionIndex].frames|
      ensures r.Some? ==> r.value == actions[actionIndex].frames[frameIndex]
    {
      match GetAction(actionIndex)
      case None => None
      case Some(a) => a.GetFrame(frameIndex)
    }

    /** `get_event_name`: the empty name for an unknown id. */
    function GetEventName(eventId: int): (r: string)
      ensures 0 <= eventId < |events| ==> r == events[eventId]
      ensures !(0 <= eventId < |events|) ==> r == ""
    {
      if 0 <= eventId < |events| then events[eventId] else ""
    }
  }

  // ---------------------------------------------------------------------------
  // Layers
  // ---------------------------------------------------------------------------

  /** The bytes one layer occupies at version `v`: x, y, sprite index and mirror;
      from 2.0 colour, scale x, rotation and sprite type; from 2.4 scale y; from
      2.5 width and height. Every field is four bytes. */
  function LayerSize(v: Version): (n: nat)
    ensures n == 16 || n == 32 || n == 36 || n == 44
    ensures !AtLeast(v, 2, 0) <==> n == 16
    ensures AtLeast(v, 2, 5) <==> n == 44
  {
    if !AtLeast(v, 2, 0) then 16
    else 32 + (if AtLeast(v, 2, 4) then 4 else 0) + (if AtLeast(v, 2, 5) then 8 else 0)
  }

  /** The layer `_read_layer` builds from the `LayerSize(v)` bytes `w`. */
  function DecodeLayer(w: seq<byte>, v: Version): (l: Layer)
    requires |w| == LayerSize(v)
    ensures l.mirror <==> I32At(w, 12) != 0
    ensures !AtLeast(v, 2, 0) ==>
      l.color == NO_TINT && l.scaleX == ONE_F32 && l.scaleY == ONE_F32 && l.rotation == 0 && l.spriteType == 0
    ensures AtLeast(v, 2, 0) && !AtLeast(v, 2, 4) ==> l.scaleY == l.scaleX
    ensures !AtLeast(v, 2, 5) ==> l.width == 0 && l.height == 0
  {
    var x, y, index, mirror := I32At(w, 0), I32At(w, 4), I32At(w, 8), I32At(w, 12) != 0;
    if !AtLeast(v, 2, 0) then
      Layer(x, y, index, mirror, ONE_F32, ONE_F32, 0, 0, 0, 0, NO_TINT)
    else
      var color := (w[16] as int, w[17] as int, w[18] as int, w[19] as int);
      var scaleX := U32At(w, 20);
      var k := if AtLeast(v, 2, 4) then 28 else 24;
      var scaleY := if AtLeast(v, 2, 4) then U32At(w, 24) else scaleX;
      var width := if AtLeast(v, 2, 5) then I32At(w, k + 8) else 0;
      var height := if AtLeast(v, 2, 5) then I32At(w, k + 12) else 0;
      Layer(x, y, index, mirror, scaleX, scaleY, I32At(w, k), I32At(w, k + 4), width, height, color)
  }

  /** `_read_layer`: every field read checks that its four bytes are there, so the
      layer fails exactly when fewer than `LayerSize(v)` bytes remain. */
  function LayerAt(data: seq<byte>, offset: nat, v: Version): (r: Option<(Layer, nat)>)
    ensures r.None? <==> offset + LayerSize(v) > |data|
    ensures r.Some? ==> r.value.1 == offset + LayerSize(v)
  {
    if offset + LayerSize(v) > |data| then None
    else Some((DecodeLayer(data[offset..offset + LayerSize(v)], v), offset + LayerSize(v)))
  }

  /** The layer loop of `_read_frame`: `n` layers in a row, appended to `acc`;
      a layer that fails fails the frame. */
  function LayersFrom(data: seq<byte>, offset: nat, v: Version, n: nat, acc: seq<Layer>): (r: Option<(seq<Layer>, nat)>)
    ensures r.Some? ==> |r.value.0| == |acc| + n && r.value.0[..|acc|] == acc
    ensures r.Some? ==> offset <= r.value.1
    decreases n
  {
    if n == 0 then Some((acc, offset))
    else match LayerAt(data, offset, v)
      case None => None
      case Some((l, next)) => LayersFrom(data, next, v, n - 1, acc + [l])
  }

  // ---------------------------------------------------------------------------
  // Anchors, frames and actions
  // ---------------------------------------------------------------------------

  /** One anchor: four bytes skipped, then x, y and attr. */
  function AnchorAt(data: seq<byte>, offset: nat): Anchor
    requires offset + ANCHOR_SIZE <= |data|
  {
    Anchor(I32At(data, offset + 4), I32At(data, offset + 8), I32At(data, offset + 12))
  }

  /** The anchor loop of `_read_frame`: up to `n` anchors of 16 bytes, the first
      four ignored; a short one ends the loop without failing the frame. */
  function AnchorsFrom(data: seq<byte>, offset: nat, n: nat, acc: seq<Anchor>): (r: (seq<Anchor>, nat))
    ensures |acc| <= |r.0| <= |acc| + n && r.0[..|acc|] == acc
    ensures r.1 == offset + ANCHOR_SIZE * (|r.0| - |acc|)
    ensures |r.0| < |acc| + n ==> r.1 + ANCHOR_SIZE > |data|
    decreases n
  {
    if n == 0 || offset + ANCHOR_SIZE > |data| then (acc, offset)
    else
      AnchorsFrom(data, offset + ANCHOR_SIZE, n - 1, acc + [AnchorAt(data, offset)])
  }

  /** What follows the layers of a frame: the event id from 2.0 (-1 before),
      which must be there, and from 2.3 an anchor count, if four bytes remain,
      with counts over 2000 read as 0. */
  function FrameTail(data: seq<byte>, offset: nat, v: Version, layers: seq<Layer>): (r: Option<(Frame, nat)>)
    ensures r.None? <==> AtLeast(v, 2, 0) && offset + 4 > |data|
    ensures r.Some? ==> r.value.0.layers == layers && offset <= r.value.1
    ensures r.Some? && !AtLeast(v, 2, 0) ==> r.value.0.eventId == -1
    ensures r.Some? ==> |r.value.0.anchors| <= MAX_ANCHORS
    ensures r.Some? && !AtLeast(v, 2, 3) ==> r.value.0.anchors == []
  {
    if AtLeast(v, 2, 0) && offset + 4 > |data| then None
    else
      var eventId := if AtLeast(v, 2, 0) then I32At(data, offset) else -1;
      var next := if AtLeast(v, 2, 0) then offset + 4 else offset;
      if AtLeast(v, 2, 3) && next + 4 <= |data| then
        var count := U32At(data, next);
        var anchors := AnchorsFrom(data, next + 4, if count > MAX_ANCHORS then 0 else count, []);
        Some((Frame(layers, eventId, anchors.0), anchors.1))
      else
        Some((Frame(layers, eventId, []), next))
  }

  /** `_read_frame`: 32 bytes skipped, a layer count that must lie in 0..100, the
      layers, then the tail. */
  function FrameAt(data: seq<byte>, offset: nat, v: Version): (r: Option<(Frame, nat)>)
    ensures offset + FRAME_PADDING + 4 > |data| ==> r.None?
    ensures r.Some? ==> |r.value.0.layers| == I32At(data, offset + FRAME_PADDING) <= MAX_LAYERS
    ensures r.Some? ==> offset + FRAME_PADDING + 4 <= r.value.1
  {
    if offset + FRAME_PADDING + 4 > |data| then None
    else
      var count := I32At(data, offset + FRAME_PADDING);
      if count < 0 || count > MAX_LAYERS then None
      else match LayersFrom(data, offset + FRAME_PADDING + 4, v, count, [])
        case None => None
        case Some((layers, next)) => FrameTail(data, next, v, layers)
  }

  /** The frame loop of `_read_action`: stops at the end of the data or at the
      first frame that fails, keeping the frames before it and the offset where
      the failed frame began. */
  function FramesFrom(data: seq<byte>, offset: nat, v: Version, n: nat, acc: seq<Frame>): (r: (seq<Frame>, nat))
    ensures |acc| <= |r.0| <= |acc| + n && r.0[..|acc|] == acc
    ensures offset <= r.1
    decreases n
  {
    if n == 0 || offset >= |data| then (acc, offset)
    else match FrameAt(data, offset, v)
      case None => (acc, offset)
      case Some((f, next)) => FramesFrom(data, next, v, n - 1, acc + [f])
  }

  /** `_read_action`: a signed frame count, which must be there and at most 200;
      a negative count gives no frames. */
  function ActionAt(data: seq<byte>, offset: nat, v: Version): (r: Option<(Action, nat)>)
    ensures r.None? <==> offset + 4 > |data| || I32At(data, offset) > MAX_FRAMES
    ensures r.Some? ==> |r.value.0.frames| <= (if I32At(data, offset) < 0 then 0 else I32At(data, offset))
    ensures r.Some? ==> offset + 4 <= r.value.1
  {
    if offset + 4 > |data| then None
    else
      var count := I32At(data, offset);
      if count > MAX_FRAMES then None
      else
        var frames := FramesFrom(data, offset + 4, v, if count < 0 then 0 else count, []);
        Some((Action(frames.0), frames.1))
  }

  /** The action loop of `load_from_bytes`: stops at the end of the data or at the
      first action that fails, keeping the actions before it. */
  function ActionsFrom(data: seq<byte>, offset: nat, v: Version, n: nat, acc: seq<Action>): (r: (seq<Action>, nat))
    ensures |acc| <= |r.0| <= |acc| + n && r.0[..|acc|] == acc
    ensures offset <= r.1
    decreases n
  {
    if n == 0 || offset >= |data| then (acc, offset)
    else match ActionAt(data, offset, v)
      case None => (acc, offset)
      case Some((a, next)) => ActionsFrom(data, next, v, n - 1, acc + [a])
  }

  // ---------------------------------------------------------------------------
  // Event names and the file
  // ---------------------------------------------------------------------------

  /** The bytes before the first NUL. */
  function CutAtNul(s: seq<byte>): (r: seq<byte>)
    ensures r <= s && 0 !in r
    ensures |r| < |s| ==> s[|r|] == 0
  {
    if |s| == 0 || s[0] == 0 then [] else [s[0]] + CutAtNul(s[1..])
  }

  /** `_read_string(data, offset, 40)`: the 40-byte field, or what is left of
      it, cut at its first NUL; the caller always advances by 40. */
  function EventName(data: seq<byte>, offset: nat): (r: string)
    ensures |r| <= EVENT_NAME_SIZE && '\0' !in r
  {
    var s := Decode(CutAtNul(Window(data, offset, EVENT_NAME_SIZE)));
    assert forall i :: 0 <= i < |s| ==> s[i] != '\0';
    s
  }

  /** The event loop of `load_from_bytes`: `n` names, 40 bytes apart, read even
      past the end of the data. */
  function EventsFrom(data: seq<byte>, offset: nat, n: nat, acc: seq<string>): (r: (seq<string>, nat))
    ensures |r.0| == |acc| + n && r.0[..|acc|] == acc
    ensures r.1 == offset + EVENT_NAME_SIZE * n
    decreases n
  {
    if n == 0 then (acc, offset)
    else EventsFrom(data, offset + EVENT_NAME_SIZE, n - 1, acc + [EventName(data, offset)])
  }

  /** The speed loop of `load_from_bytes` (from 2.2, when data is left after
      the events): one float32 bit pattern per action; once fewer than four
      bytes are left, the last one read, at first 1.0, repeats. */
  function SpeedsFrom(data: seq<byte>, offset: nat, n: nat, last: u32): (r: seq<u32>)
    ensures |r| == n
    decreases n
  {
    if n == 0 then []
    else if offset + 4 <= |data| then [U32At(data, offset)] + SpeedsFrom(data, offset + 4, n - 1, U32At(data, offset))
    else [last] + SpeedsFrom(data, offset, n - 1, last)
  }

  /** `load_from_bytes`. `None` for fewer than 16 bytes, a signature other than
      "AC", a major version outside 1..3, more than 200 actions, no action read,
      or (from 2.1) a truncated event count. Actions start at byte 16. */
  function ParseAct(data: seq<byte>): (r: Option<ActData>)
    ensures |data| < HEADER_SIZE || data[..2] != SIGNATURE ==> r.None?
    ensures |data| >= HEADER_SIZE && !(1 <= data[3] <= 3) ==> r.None?
    ensures |data| >= HEADER_SIZE && U16At(data, 4) > MAX_ACTIONS ==> r.None?
    ensures r.Some? ==> r.value.version == (data[3], data[2])
    ensures r.Some? ==> 1 <= |r.value.actions| <= U16At(data, 4)
    ensures r.Some? && !AtLeast(r.value.version, 2, 1) ==> r.value.events == []
  {
    if |data| < HEADER_SIZE || data[..2] != SIGNATURE then None
    else
      var v := (data[3], data[2]);
      if v.0 < 1 || v.0 > 3 then None
      else
        var count := U16At(data, 4);
        if count > MAX_ACTIONS then None
        else
          var actions := ActionsFrom(data, HEADER_SIZE, v, count, []);
          if |actions.0| == 0 then None
          else EventsSection(data, actions.1, ActData(v, actions.0, []))
  }

  /** The event table after the actions, read from 2.1 when any data is left;
      a count cut short makes the whole load fail. */
  function EventsSection(data: seq<byte>, offset: nat, act: ActData): (r: Option<ActData>)
    requires act.events == []
    ensures r.Some? ==> r.value.version == act.version && r.value.actions == act.actions
    ensures !AtLeast(act.version, 2, 1) || offset >= |data| ==> r == Some(act)
    ensures r.None? <==> AtLeast(act.version, 2, 1) && offset < |data| < offset + 4
  {
    if AtLeast(act.version, 2, 1) && offset < |data| then
      if offset + 4 > |data| then None
      else Some(act.(events := EventsFrom(data, offset + 4, U32At(data, offset), []).0))
    else Some(act)
  }

  // ---------------------------------------------------------------------------
  // The reader, as the source runs it
  // ---------------------------------------------------------------------------

  /** The layer loop of `_read_frame`. */
  method ReadLayers(data: seq<byte>, offset: nat, v: Version, n: nat) returns (r: Option<(seq<Layer>, nat)>)
    ensures r == LayersFrom(data, offset, v, n, [])
  {
    var layers: seq<Layer> := [];
    var at := offset;
    var i := 0;
    while i < n
      invariant i <= n
      invariant LayersFrom(data, at, v, n - i, layers) == LayersFrom(data, offset, v, n, [])
    {
      match LayerAt(data, at, v)
      case None =>
        return None;
      case Some((l, next)) =>
        layers := layers + [l];
        at := next;
      i := i + 1;
    }
    return Some((layers, at));
  }

  /** The anchor loop of `_read_frame`. */
  method ReadAnchors(data: seq<byte>, offset: nat, n: nat) returns (anchors: seq<Anchor>, next: nat)
    ensures (anchors, next) == AnchorsFrom(data, offset, n, [])
  {
    anchors := [];
    next := offset;
    var i := 0;
    while i < n
      invariant i <= n
      invariant AnchorsFrom(data, next, n - i, anchors) == AnchorsFrom(data, offset, n, [])
    {
      if next + ANCHOR_SIZE > |data| {
        break;
      }
      var x := I32At(data, next + 4);
      var y := I32At(data, next + 8);
      var attr := I32At(data, next + 12);
      anchors := anchors + [Anchor(x, y, attr)];
      next := next + ANCHOR_SIZE;
      i := i + 1;
    }
  }

  /** `_read_frame` */
  method ReadFrame(data: seq<byte>, offset: nat, v: Version) returns (r: Option<(Frame, nat)>)
    ensures r == FrameAt(data, offset, v)
  {
    hide LayersFrom;
    hide AnchorsFrom;
    if offset + FRAME_PADDING + 4 > |data| {
      return None;
    }
    var count := I32At(data, offset + FRAME_PADDING);
    if count < 0 || count > MAX_LAYERS {
      return None;
    }
    var layers := ReadLayers(data, offset + FRAME_PADDING + 4, v, count);
    if layers.None? {
      return None;
    }
    var next := layers.value.1;
    var eventId := -1;
    if AtLeast(v, 2, 0) {
      if next + 4 > |data| {
        return None;
      }
      eventId := I32At(data, next);
      next := next + 4;
    }
    var anchors: seq<Anchor> := [];
    if AtLeast(v, 2, 3) && next + 4 <= |data| {
      var anchorCount := U32At(data, next);
      if anchorCount > MAX_ANCHORS {
        anchorCount := 0;
      }
      anchors, next := ReadAnchors(data, next + 4, anchorCount);
    }
    return Some((Frame(layers.value.0, eventId, anchors), next));
  }

  /** `_read_action` */
  method ReadAction(data: seq<byte>, offset: nat, v: Version) returns (r: Option<(Action, nat)>)
    ensures r == ActionAt(data, offset, v)
  {
    if offset + 4 > |data| {
      return None;
    }
    var count := I32At(data, offset);
    if count > MAX_FRAMES {
      return None;
    }
    var n: nat := if count < 0 then 0 else count;
    var frames: seq<Frame> := [];
    var at: nat := offset + 4;
    var i := 0;
    while i < n
      invariant i <= n
      invariant FramesFrom(data, at, v, n - i, frames) == FramesFrom(data, offset + 4, v, n, [])
    {
      if at >= |data| {
        break;
      }
      var frame := ReadFrame(data, at, v);
      if frame.None? {
        break;
      }
      frames := frames + [frame.value.0];
      at := frame.value.1;
      i := i + 1;
    }
    return Some((Action(frames), at));
  }

  /** The event loop of `load_from_bytes`. */
  method ReadEvents(data: seq<byte>, offset: nat, n: nat) returns (events: seq<string>, next: nat)
    ensures (events, next) == EventsFrom(data, offset, n, [])
  {
    events := [];
    next := offset;
    for i := 0 to n
      invariant next == offset + EVENT_NAME_SIZE * i
      invariant EventsFrom(data, next, n - i, events) == EventsFrom(data, offset, n, [])
    {
      events := events + [EventName(data, next)];
      next := next + EVENT_NAME_SIZE;
    }
  }

  /** `load_from_bytes`; the per-action speeds that follow the events set frame
      delays, which are floating point and not modelled. */
  method LoadFromBytes(data: seq<byte>) returns (r: Option<ActData>)
    ensures r == ParseAct(data)
  {
    if |data| < HEADER_SIZE || data[..2] != SIGNATURE {
      return None;
    }
    var v := (data[3], data[2]);
    if v.0 < 1 || v.0 > 3 {
      return None;
    }
    var count := U16At(data, 4);
    if count > MAX_ACTIONS {
      return None;
    }
    var actions: seq<Action> := [];
    var at: nat := HEADER_SIZE;
    var i := 0;
    while i < count
      invariant i <= count
      invariant ActionsFrom(data, at, v, count - i, actions) == ActionsFrom(data, HEADER_SIZE, v, count, [])
    {
      if at >= |data| {
        break;
      }
      var action := ReadAction(data, at, v);
      if action.None? {
        break;
      }
      actions := actions + [action.value.0];
      at := action.value.1;
      i := i + 1;
    }
    if |actions| == 0 {
      return None;
    }
    var act := ActData(v, actions, []);
    if AtLeast(v, 2, 1) && at < |data| {
      if at + 4 > |data| {
        return None;
      }
      var events, _ := ReadEvents(data, at + 4, U32At(data, at));
      act := act.(events := events);
    }
    return Some(act);
  }
}
