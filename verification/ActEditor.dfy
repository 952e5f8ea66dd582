/** `ACTEditor`: edits the layers, frames and sound events of an open `.act`
    file in place. The editor's data is an `ActData` value that each edit
    replaces with a copy differing in one place, as the source changes one
    layer or frame object inside it. */
module ActEditor {
  import opened Wrappers
  import opened Bytes
  import opened ActParser
  import opened ActWriter
  import opened ActRoundTrip

  /** Frame `fi` of action `ai` exists in `d`. */
  predicate HasFrame(d: ActData, ai: int, fi: int) {
    0 <= ai < |d.actions| && 0 <= fi < |d.actions[ai].frames|
  }

  /** Layer `li` of that frame exists too. */
  predicate HasLayer(d: ActData, ai: int, fi: int, li: int) {
    HasFrame(d, ai, fi) && 0 <= li < |d.actions[ai].frames[fi].layers|
  }

  /** `d` with frame `fi` of action `ai` replaced by `f`. */
  function WithFrame(d: ActData, ai: nat, fi: nat, f: Frame): (r: ActData)
    requires HasFrame(d, ai, fi)
    ensures r.version == d.version && r.events == d.events && |r.actions| == |d.actions|
    ensures forall a :: 0 <= a < |d.actions| ==> |r.actions[a].frames| == |d.actions[a].frames|
    ensures r.GetFrame(ai, fi) == Some(f)
    ensures forall a, i :: (a, i) != (ai, fi) ==> r.GetFrame(a, i) == d.GetFrame(a, i)
  {
    var frames := d.actions[ai].frames;
    d.(actions := d.actions[ai := Action(frames[fi := f])])
  }

  /** `d` with layer `li` of that frame replaced by `l`. */
  function WithLayer(d: ActData, ai: nat, fi: nat, li: nat, l: Layer): (r: ActData)
    requires HasLayer(d, ai, fi, li)
    ensures r.version == d.version && r.events == d.events && |r.actions| == |d.actions|
    ensures forall a :: 0 <= a < |d.actions| ==> |r.actions[a].frames| == |d.actions[a].frames|
    ensures HasLayer(r, ai, fi, li) && r.actions[ai].frames[fi].layers[li] == l
    ensures forall a, i, j :: HasLayer(d, a, i, j) && (a, i, j) != (ai, fi, li) ==>
              HasLayer(r, a, i, j) && r.actions[a].frames[i].layers[j] == d.actions[a].frames[i].layers[j]
    ensures forall a, i :: HasFrame(d, a, i) ==>
              r.actions[a].frames[i].eventId == d.actions[a].frames[i].eventId
              && r.actions[a].frames[i].anchors == d.actions[a].frames[i].anchors
  {
    var f := d.actions[ai].frames[fi];
    WithFrame(d, ai, fi, f.(layers := f.layers[li := l]))
  }

  /** A layer edit whose new values can be packed keeps the file savable and
      readable, and loading the saved bytes gives back the edited actions. */
  lemma {:induction false} LayerEditSaves(d: ActData, ai: nat, fi: nat, li: nat, l: Layer, factor: SpeedFactors)
    requires HasLayer(d, ai, fi, li) && ActFits(d) && Readable(d) && AsciiNames(d.events)
    requires LayerFits(l, SaveVersion(d.version))
    ensures var r := WithLayer(d, ai, fi, li, l);
            ActFits(r) && Readable(r) &&
            ParseAct(SaveAct(r, factor).value) == Some(ActData(SaveVersion(d.version), r.actions, StoredNames(d.events)))
  {
    var r := WithLayer(d, ai, fi, li, l);
    var v := SaveVersion(d.version);
    forall a | 0 <= a < |r.actions|
      ensures ActionFits(r.actions[a], v) && ActionReadable(r.actions[a])
    {
      forall i | 0 <= i < |r.actions[a].frames|
        ensures FrameFits(r.actions[a].frames[i], v) && FrameReadable(r.actions[a].frames[i])
      {
        assert HasFrame(d, a, i);
        var f, g := d.actions[a].frames[i], r.actions[a].frames[i];
        assert |g.layers| == |f.layers| by {
          assert r.GetFrame(a, i).Some? && d.GetFrame(a, i).Some?;
          if (a, i) != (ai, fi) {
            assert r.GetFrame(a, i) == d.GetFrame(a, i);
          }
        }
        assert ActionFits(d.actions[a], v);
        forall j | 0 <= j < |g.layers|
          ensures LayerFits(g.layers[j], v)
        {
          assert HasLayer(d, a, i, j);
        }
      }
    }
    SaveLoadRoundTrip(r, factor);
  }

  /** The index of the first event called `name`. */
  function FindEvent(events: seq<string>, name: string): (r: Option<nat>)
    ensures r.Some? ==> r.value < |events| && events[r.value] == name
                        && forall j :: 0 <= j < r.value ==> events[j] != name
    ensures r.None? ==> name !in events
  {
    if |events| == 0 then None
    else if events[0] == name then Some(0)
    else match FindEvent(events[1..], name)
      case None => None
      case Some(i) => Some(i + 1)
  }

  predicate Distinct(events: seq<string>) {
    forall i, j :: 0 <= i < j < |events| ==> events[i] != events[j]
  }

  /** The version `set_color` leaves: raised to 2.0, the first with colours. */
  function ColorVersion(v: Version): (r: Version)
    ensures AtLeast(r, 2, 0) && (AtLeast(v, 2, 0) ==> r == v)
  {
    if AtLeast(v, 2, 0) then v else (2, 0)
  }

  /** The version `add_sound_event` leaves: raised to 2.1, the first with events. */
  function EventVersion(v: Version): (r: Version)
    ensures AtLeast(r, 2, 1) && (AtLeast(v, 2, 1) ==> r == v)
  {
    if AtLeast(v, 2, 1) then v else (2, 1)
  }

  /** What `add_sound_event` does to open data: a name already listed keeps
      the data and gives its first index; a new name is appended, raising the
      version to 2.1, and gives the last index. */
  function AddEvent(d: ActData, name: string): (r: (ActData, nat))
    ensures r.0.actions == d.actions
    ensures r.1 < |r.0.events| && r.0.events[r.1] == name
    ensures forall j :: 0 <= j < r.1 ==> r.0.events[j] != name
    ensures name in d.events ==> r.0 == d
    ensures name !in d.events ==> r.0.events == d.events + [name] && r.0.version == EventVersion(d.version)
    ensures Distinct(d.events) ==> Distinct(r.0.events)
  {
    match FindEvent(d.events, name)
    case Some(i) => (d, i)
    case None => (d.(events := d.events + [name], version := EventVersion(d.version)), |d.events|)
  }

  /** Python's `a or b` on optional paths: the empty path counts as missing. */
  function OrPath(a: Option<string>, b: Option<string>): (r: Option<string>)
    ensures r.Some? ==> r.value != []
    ensures a.Some? && a.value != [] ==> r == a
    ensures !(a.Some? && a.value != []) ==> r == (if b.Some? && b.value != [] then b else None)
  {
    if a.Some? && a.value != [] then a
    else if b.Some? && b.value != [] then b
    else None
  }

  class Editor {
    var act: Option<ActData>
    var filepath: Option<string>
    var modified: bool

    /** `ACTEditor()`: nothing open. */
    constructor ()
      ensures act.None? && filepath.None? && !modified
    {
      act := None;
      filepath := None;
      modified := false;
    }

    /** `open`: the file's contents, as read, or `None` when it cannot be read.
        The data is replaced even when loading fails. */
    method Open(path: string, contents: Option<seq<byte>>) returns (ok: bool)
      modifies this
      ensures act == (if contents.Some? then ParseAct(contents.value) else None)
      ensures ok <==> act.Some?
      ensures ok ==> filepath == Some(path) && !modified
      ensures !ok ==> filepath == old(filepath) && modified == old(modified)
    {
      if contents.Some? {
        act := ParseAct(contents.value);
      } else {
        act := None;
      }
      if act.Some? {
        filepath := Some(path);
        modified := false;
        return true;
      }
      return false;
    }

    /** `save`: the path written to and the bytes written, or `None` when there
        is no path, nothing open, or a value that cannot be packed. */
    method Save(path: Option<string>, factor: SpeedFactors) returns (r: Option<(string, seq<byte>)>)
      ensures r.Some? <==> OrPath(path, filepath).Some? && act.Some? && ActFits(act.value)
      ensures r.Some? ==> r.value == (OrPath(path, filepath).value, SaveAct(act.value, factor).value)
    {
      var target := OrPath(path, filepath);
      if target.None? || act.None? {
        return None;
      }
      var data := SaveToBytes(act.value, factor);
      if data.None? {
        return None;
      }
      return Some((target.value, data.value));
    }

    /** `get_layer` */
    function GetLayer(ai: int, fi: int, li: int): (r: Option<Layer>)
      reads this
      ensures r.Some? <==> act.Some? && HasLayer(act.value, ai, fi, li)
      ensures r.Some? ==> r.value == act.value.actions[ai].frames[fi].layers[li]
    {
      if act.None? then None
      else match act.value.GetFrame(ai, fi)
        case None => None
        case Some(f) => if 0 <= li < |f.layers| then Some(f.layers[li]) else None
    }

    /** One layer edit: `change` applied to the layer, if it exists. */
    method EditLayer(ai: int, fi: int, li: int, change: Layer -> Layer) returns (ok: bool)
      modifies this
      ensures ok <==> old(GetLayer(ai, fi, li)).Some?
      ensures ok ==> act == Some(WithLayer(old(act.value), ai, fi, li, change(old(GetLayer(ai, fi, li)).value)))
                     && modified
      ensures !ok ==> act == old(act) && modified == old(modified)
      ensures filepath == old(filepath)
    {
      var layer := GetLayer(ai, fi, li);
      if layer.None? {
        return false;
      }
      act := Some(WithLayer(act.value, ai, fi, li, change(layer.value)));
      modified := true;
      return true;
    }

    /** `set_offset` */
    method SetOffset(ai: int, fi: int, li: int, x: int, y: int) returns (ok: bool)
      modifies this
      ensures ok <==> old(GetLayer(ai, fi, li)).Some?
      ensures ok ==> act == Some(WithLayer(old(act.value), ai, fi, li, old(GetLayer(ai, fi, li)).value.(x := x, y := y)))
                     && modified
      ensures !ok ==> act == old(act) && modified == old(modified)
      ensures filepath == old(filepath)
    {
      ok := EditLayer(ai, fi, li, (l: Layer) => l.(x := x, y := y));
    }

    /** `set_scale`: `scaleY` defaults to `scaleX`. */
    method SetScale(ai: int, fi: int, li: int, scaleX: u32, scaleY: Option<u32>) returns (ok: bool)
      modifies this
      ensures ok <==> old(GetLayer(ai, fi, li)).Some?
      ensures ok ==> act == Some(WithLayer(old(act.value), ai, fi, li,
                                           old(GetLayer(ai, fi, li)).value.(scaleX := scaleX,
                                                                            scaleY := scaleY.GetOr(scaleX))))
                     && modified
      ensures !ok ==> act == old(act) && modified == old(modified)
      ensures filepath == old(filepath)
    {
      var sy := if scaleY.Some? then scaleY.value else scaleX;
      ok := EditLayer(ai, fi, li, (l: Layer) => l.(scaleX := scaleX, scaleY := sy));
    }

    /** `set_rotation` */
    method SetRotation(ai: int, fi: int, li: int, angle: int) returns (ok: bool)
      modifies this
      ensures ok <==> old(GetLayer(ai, fi, li)).Some?
      ensures ok ==> act == Some(WithLayer(old(act.value), ai, fi, li, old(GetLayer(ai, fi, li)).value.(rotation := angle)))
                     && modified
      ensures !ok ==> act == old(act) && modified == old(modified)
      ensures filepath == old(filepath)
    {
      ok := EditLayer(ai, fi, li, (l: Layer) => l.(rotation := angle));
    }

    /** `set_mirror` */
    method SetMirror(ai: int, fi: int, li: int, mirror: bool) returns (ok: bool)
      modifies this
      ensures ok <==> old(GetLayer(ai, fi, li)).Some?
      ensures ok ==> act == Some(WithLayer(old(act.value), ai, fi, li, old(GetLayer(ai, fi, li)).value.(mirror := mirror)))
                     && modified
      ensures !ok ==> act == old(act) && modified == old(modified)
      ensures filepath == old(filepath)
    {
      ok := EditLayer(ai, fi, li, (l: Layer) => l.(mirror := mirror));
    }

    /** `set_color`: the tint, and the version raised to 2.0 if it was older. */
    method SetColor(ai: int, fi: int, li: int, color: Tint) returns (ok: bool)
      modifies this
      ensures ok <==> old(GetLayer(ai, fi, li)).Some?
      ensures ok ==> act.Some? && act.value.version == ColorVersion(old(act.value.version))
                     && act.value == WithLayer(old(act.value), ai, fi, li, old(GetLayer(ai, fi, li)).value.(color := color))
                                       .(version := ColorVersion(old(act.value.version)))
                     && modified
      ensures !ok ==> act == old(act) && modified == old(modified)
      ensures filepath == old(filepath)
    {
      ok := EditLayer(ai, fi, li, (l: Layer) => l.(color := color));
      if ok && !AtLeast(act.value.version, 2, 0) {
        act := Some(act.value.(version := (2, 0)));
      }
    }

    /** `add_sound_event`: the index of the first event with this name; a new
        name is appended, raising the version to 2.1. -1 with nothing open. */
    method AddSoundEvent(name: string) returns (id: int)
      modifies this
      ensures old(act).None? ==> id == -1 && act == old(act) && modified == old(modified)
      ensures old(act).Some? && name in old(act.value.events) ==>
                id == FindEvent(old(act.value.events), name).value && act == old(act) && modified == old(modified)
      ensures old(act).Some? && name !in old(act.value.events) ==>
                act == Some(old(act.value).(events := old(act.value.events) + [name],
                                            version := EventVersion(old(act.value.version))))
                && id == |act.value.events| - 1 && modified
      ensures id >= 0 ==> act.Some? && id < |act.value.events| && act.value.events[id] == name
      ensures act.Some? ==> act.value.actions == old(act.value.actions)
      ensures act.Some? && Distinct(old(act.value.events)) ==> Distinct(act.value.events)
      ensures old(act).Some? ==> act == Some(AddEvent(old(act.value), name).0) && id == AddEvent(old(act.value), name).1
      ensures filepath == old(filepath)
    {
      if act.None? {
        return -1;
      }
      var events := act.value.events;
      for i := 0 to |events|
        invariant forall j :: 0 <= j < i ==> events[j] != name
      {
        if events[i] == name {
          assert FindEvent(events, name) == Some(i) by {
            FindEventFirst(events, name, i);
          }
          return i;
        }
      }
      var v := act.value.version;
      if !AtLeast(v, 2, 1) {
        v := (2, 1);
      }
      act := Some(act.value.(events := events + [name], version := v));
      modified := true;
      return |events|;
    }

    /** `set_frame_event`: -1 for `None`, else the id `add_sound_event` gives. */
    method SetFrameEvent(ai: int, fi: int, eventName: Option<string>) returns (ok: bool)
      modifies this
      ensures ok <==> old(act).Some? && HasFrame(old(act.value), ai, fi)
      ensures !ok ==> act == old(act) && modified == old(modified)
      ensures ok ==> act.Some? && modified && HasFrame(act.value, ai, fi)
      ensures ok && eventName.None? ==>
                act.value == WithFrame(old(act.value), ai, fi, old(act.value.actions[ai].frames[fi]).(eventId := -1))
      ensures ok && eventName.Some? ==>
                var (e, id) := AddEvent(old(act.value), eventName.value);
                act.value == WithFrame(e, ai, fi, old(act.value.actions[ai].frames[fi]).(eventId := id))
      ensures ok && eventName.Some? ==>
                var id := act.value.actions[ai].frames[fi].eventId;
                0 <= id < |act.value.events| && act.value.events[id] == eventName.value
      ensures ok ==> forall a, i :: (a, i) != (ai, fi) ==> act.value.GetFrame(a, i) == old(act.value.GetFrame(a, i))
      ensures ok ==> act.value.actions[ai].frames[fi].layers == old(act.value.actions[ai].frames[fi].layers)
                     && act.value.actions[ai].frames[fi].anchors == old(act.value.actions[ai].frames[fi].anchors)
      ensures filepath == old(filepath)
    {
      if act.None? || !HasFrame(act.value, ai, fi) {
        return false;
      }
      var frame := act.value.actions[ai].frames[fi];
      var id := -1;
      if eventName.Some? {
        id := AddSoundEvent(eventName.value);
      }
      act := Some(WithFrame(act.value, ai, fi, frame.(eventId := id)));
      modified := true;
      return true;
    }

    /** `set_frame_delay`: true exactly when the frame exists. The delay itself
        is a float the model does not carry. */
    method SetFrameDelay(ai: int, fi: int) returns (ok: bool)
      modifies this
      ensures ok <==> act.Some? && HasFrame(act.value, ai, fi)
      ensures act == old(act) && filepath == old(filepath)
      ensures modified == (old(modified) || ok)
    {
      if act.None? || !HasFrame(act.value, ai, fi) {
        return false;
      }
      modified := true;
      return true;
    }
  }

  /** The first index holding `name` is what `FindEvent` reports. */
  lemma {:induction false} FindEventFirst(events: seq<string>, name: string, i: nat)
    requires i < |events| && events[i] == name && forall j :: 0 <= j < i ==> events[j] != name
    ensures FindEvent(events, name) == Some(i)
  {
    if i > 0 {
      FindEventFirst(events[1..], name, i - 1);
    }
  }
}
