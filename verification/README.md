# AssetHarvester core, modelled in Dafny

AssetHarvester pulls game assets out of Ragnarok Online GRF archives and ROSE
VFS archives. It decodes the sprite formats those games ship: SPR frames, ACT
animations and PAL palettes. It hashes the extracted files and classifies each
one against a baseline of vanilla hashes as identical, modified, new or unknown.
It sorts assets into categories and can write GRF archives back.

This project models that machinery, one Dafny module per source file:

- **Archive readers.**
  - `GrfExtractor`: the GRF header and file-table parse, lookup and the decompression decision.
  - `GrfVfs`: the priority-merged virtual file system over several GRFs, with its LRU byte cache and statistics.
  - `GrfDecompression`: the LZSS decoder and the fallback chain.
  - `VfsExtractor`: the ROSE IDX parser, the XOR cipher and block decompression.
  - `BaseExtractor`: the shared extractor base and registry.
- **Archive writer.** `GrfEditor`: the header and table builders, the edit operations, and the proof that the VFS reader reads back what the writer lays out.
- **Sprite formats.**
  - `SprParser`: the SPR parser.
  - `SprFallback`: the tolerant SPR parser.
  - `PalParser`: palettes.
  - `ActParser`, `ActWriter` and `ActRoundTrip`: the ACT reader, its writer, and the proof that reading a written file gives it back.
  - `ActEditor`: the ACT editor.
- **Bookkeeping.**
  - `Hasher`: the chunking loops.
  - `Comparator`: the baseline classification.
  - `Cataloger`: categories and counts.
  - `Config`: settings with clamps and a merge.
  - `ItemDatabase`: item-id tables.
  - `BatchExporter`: filename sanitising, sheet layout and export counting.
  - `CharacterDesigner`: the custom-sprite detector and the sprite path builders.
- **Shared helpers.**
  - `Wrappers`: Option.
  - `Bytes`: bytes and little-endian fields.
  - `Strings`: the part of Python's `str` that is used.
  - `OrderedMaps`: a Python dict as an insertion-ordered list of pairs.

Objects whose fields the program updates in place are classes with `modifies`
frames. Loops are methods with invariants. Each method is proved against a
specification function, and the properties are proved about that function.

Foreign algorithms are function-valued parameters: zlib, LZMA, DES, MD5 and
SHA-256. File contents and file existence are parameters too. Python's
unbounded `int` is `int`/`nat`. Fixed-width fields are read and written as
explicit little-endian bytes.

## Model

| member | source | states |
|---|---|---|
| ActParser.Frame.GetAnchor | src/parsers/act_parser.py:310-314 | an anchor is returned exactly when the index is in range, and it is the anchor at that index |
| ActParser.Action.GetFrame | src/parsers/act_parser.py:334-338 | a frame is returned exactly when the index is in range, and it is the frame at that index |
| ActParser.ActData.GetAction | src/parsers/act_parser.py:374-378 | an action is returned exactly when the index is in range, and it is the action at that index |
| ActParser.ActData.GetFrame | src/parsers/act_parser.py:380-394 | a frame is returned exactly when both the action index and the frame index are in range |
| ActParser.ActData.GetEventName | src/parsers/act_parser.py:396-405 | the name of a known event id, and the empty name for any other id |
| ActParser.LayerSize | src/parsers/act_parser.py:705-816 | a layer takes 16 bytes before version 2.0 and 44 bytes from 2.5 on, and 32 or 36 in between |
| ActParser.DecodeLayer | src/parsers/act_parser.py:705-816 | a layer is mirrored exactly when its mirror field is non-zero; before 2.0 it has no tint, unit scales, no rotation and sprite type 0; between 2.0 and 2.4 its y scale is its x scale; before 2.5 it has no size |
| ActParser.LayerAt | src/parsers/act_parser.py:705-816 | reading a layer fails exactly when fewer bytes than the layer size remain; otherwise it advances by the layer size |
| ActParser.LayersFrom | src/parsers/act_parser.py:668-670 | the layer loop reads exactly the requested number of layers or fails |
| ActParser.AnchorsFrom | src/parsers/act_parser.py:690-701 | the anchor loop reads at most the count, 16 bytes each, and stops early only when fewer than 16 bytes remain |
| ActParser.FrameTail | src/parsers/act_parser.py:673-701 | from version 2.0 a missing event id fails the frame; before 2.0 the event id is -1; anchors exist only from 2.3 and number at most 2000 |
| ActParser.FrameAt | src/parsers/act_parser.py:623-703 | a frame without room for its padding and layer count fails; a frame read has as many layers as its count says, and that count is at most 100 |
| ActParser.FramesFrom | src/parsers/act_parser.py:610-619 | the frame loop keeps the frames read before it stops, at most the count |
| ActParser.ActionAt | src/parsers/act_parser.py:580-621 | an action fails exactly when its frame count is missing or above 200, and it holds at most as many frames as a non-negative count says |
| ActParser.ActionsFrom | src/parsers/act_parser.py:509-523 | the action loop keeps the actions read before it stops, at most the count |
| ActParser.CutAtNul | src/parsers/act_parser.py:1001-1004 | the bytes before the first NUL: a prefix holding no NUL, followed by a NUL when shorter |
| ActParser.EventName | src/parsers/act_parser.py:984-1015 | an event name has at most 40 characters and no NUL |
| ActParser.EventsFrom | src/parsers/act_parser.py:535-537 | the event loop reads exactly the count of names and advances 40 bytes for each |
| ActParser.SpeedsFrom | src/parsers/act_parser.py:541-548 | one speed per action |
| ActParser.ParseAct | src/parsers/act_parser.py:463-578 | loading fails for data shorter than 16 bytes, a wrong signature, a major version outside 1..3, or more than 200 actions; a loaded file has the header's version, between 1 and the header's count of actions, and no events before version 2.1 |
| ActParser.EventsSection | src/parsers/act_parser.py:530-537 | the event table keeps version and actions; it is read only from 2.1 when data remains, and it fails exactly when its count is cut short |
| ActParser.ReadLayers | src/parsers/act_parser.py:668-670 | the layer loop computes `LayersFrom` |
| ActParser.ReadAnchors | src/parsers/act_parser.py:680-701 | the anchor loop computes `AnchorsFrom` |
| ActParser.ReadFrame | src/parsers/act_parser.py:623-703 | `_read_frame` computes `FrameAt` |
| ActParser.ReadAction | src/parsers/act_parser.py:580-621 | `_read_action` computes `ActionAt` |
| ActParser.ReadEvents | src/parsers/act_parser.py:535-537 | the event loop computes `EventsFrom` |
| ActParser.LoadFromBytes | src/parsers/act_parser.py:463-578 | `load_from_bytes` computes `ParseAct` |
| ActWriter.SaveVersion | src/parsers/act_parser.py:859-862 | a file is written at version 2.5 or later: an older version becomes 2.5, a newer one is kept |
| ActWriter.LayerBytes | src/parsers/act_parser.py:946-982 | a written layer takes exactly the bytes the reader takes for one at that version |
| ActWriter.LayerExtraBytes | src/parsers/act_parser.py:959-982 | the fields from version 2.0 take the layer size less the first 16 bytes |
| ActWriter.AnchorBytes | src/parsers/act_parser.py:939-944 | a written anchor takes 16 bytes |
| ActWriter.FrameBytes | src/parsers/act_parser.py:918-944 | a written frame takes at least its 32 bytes of padding and its layer count |
| ActWriter.FrameHeadBytes | src/parsers/act_parser.py:921-925 | padding and layer count take 36 bytes |
| ActWriter.ActionBytes | src/parsers/act_parser.py:909-916 | a written action takes at least its frame count |
| ActWriter.EventBytes | src/parsers/act_parser.py:882-886 | an event name takes exactly 40 bytes, the last one NUL, and a name of at most 39 characters starts with its latin-1 bytes |
| ActWriter.HeaderBytes | src/parsers/act_parser.py:855-872 | the header is 16 bytes: the signature, the version minor then major, and the action count |
| ActWriter.SpeedBytes | src/parsers/act_parser.py:889-899 | four bytes per action |
| ActWriter.ActBytes | src/parsers/act_parser.py:851-901 | a saved file holds at least its header |
| ActWriter.SaveAct | src/parsers/act_parser.py:841-907 | saving fails exactly when some value cannot be packed; a saved file starts with the signature and has version 2.5 or later |
| ActWriter.WriteLayers | src/parsers/act_parser.py:927-928 | the layer loop appends the layers' bytes, or fails when one cannot be packed |
| ActWriter.WriteAnchors | src/parsers/act_parser.py:939-944 | the anchor loop appends the anchors' bytes, or fails when one cannot be packed |
| ActWriter.WriteFrame | src/parsers/act_parser.py:918-944 | `_write_frame` appends `FrameBytes`, or fails when a value cannot be packed |
| ActWriter.WriteFrameTail | src/parsers/act_parser.py:931-944 | the event id and anchors, or failure when one cannot be packed |
| ActWriter.WriteFrames | src/parsers/act_parser.py:915-916 | the frame loop appends the frames' bytes, or fails |
| ActWriter.WriteAction | src/parsers/act_parser.py:909-916 | `_write_action` appends `ActionBytes`, or fails |
| ActWriter.WriteActions | src/parsers/act_parser.py:875-876 | the action loop appends the actions' bytes, or fails |
| ActWriter.WriteEvents | src/parsers/act_parser.py:882-886 | the event loop appends the names' fields, or fails on a name that is not latin-1 |
| ActWriter.SaveToBytes | src/parsers/act_parser.py:841-907 | `save_to_bytes` computes `SaveAct` |
| ActWriter.WriteSpeeds | src/parsers/act_parser.py:889-899 | the speed loop appends one speed per action from version 2.2 |
| ActRoundTrip.CutAtNulChar | src/parsers/act_parser.py:1001-1004 | the characters before the first NUL |
| ActRoundTrip.StoredName | src/parsers/act_parser.py:884-886 | the name read back is a prefix of at most 39 characters, and is the whole name when that is short and has no NUL (also lines 1001-1004) |
| ActRoundTrip.StoredNames | src/parsers/act_parser.py:882-886 | one stored name per event |
| ActRoundTrip.DecodeLayerBytes | src/parsers/act_parser.py:705-816 | from version 2.5, decoding a written layer gives the layer back (also lines 946-982) |
| ActRoundTrip.LayerRoundTrip | src/parsers/act_parser.py:705-816 | reading a written layer gives it back and ends right after it (also lines 946-982) |
| ActRoundTrip.LayersRoundTrip | src/parsers/act_parser.py:668-670 | the layer loop reads back the layers written (also lines 927-928) |
| ActRoundTrip.AnchorRoundTrip | src/parsers/act_parser.py:694-701 | a written anchor reads back its x, y and attribute (also lines 939-944) |
| ActRoundTrip.AnchorsRoundTrip | src/parsers/act_parser.py:690-701 | the anchor loop reads back the anchors written (also lines 939-944) |
| ActRoundTrip.FrameTailRoundTrip | src/parsers/act_parser.py:673-701 | event id and anchors read back as written (also lines 931-944) |
| ActRoundTrip.FrameRoundTrip | src/parsers/act_parser.py:623-703 | reading a written frame gives it back and ends right after it (also lines 918-944) |
| ActRoundTrip.FramesRoundTrip | src/parsers/act_parser.py:610-619 | the frame loop reads back the frames written (also lines 915-916) |
| ActRoundTrip.ActionRoundTrip | src/parsers/act_parser.py:580-621 | reading a written action gives it back and ends right after it (also lines 909-916) |
| ActRoundTrip.ActionsRoundTrip | src/parsers/act_parser.py:509-523 | the action loop reads back the actions written (also lines 875-876) |
| ActRoundTrip.EventFieldCut | src/parsers/act_parser.py:884-886 | a written name field, cut at its first NUL, is the stored name's bytes (also lines 1001-1004) |
| ActRoundTrip.EventNameRoundTrip | src/parsers/act_parser.py:984-1015 | reading a written ASCII name gives its stored name |
| ActRoundTrip.EventsRoundTrip | src/parsers/act_parser.py:535-537 | the event loop reads back the stored names (also lines 882-886) |
| ActRoundTrip.SpeedsRoundTrip | src/parsers/act_parser.py:541-548 | the speed loop reads back the speeds written (also lines 893-899) |
| ActRoundTrip.EventTableRead | src/parsers/act_parser.py:530-537 | the event table reads back as the stored names (also lines 879-886) |
| ActRoundTrip.HeaderRead | src/parsers/act_parser.py:481-496 | a written header reads back its signature, version and action count (also lines 855-872) |
| ActRoundTrip.SaveLoadRoundTrip | src/parsers/act_parser.py:463-578 | saving readable data succeeds, and loading the bytes gives the same actions at the saved version, with the event names as stored (also lines 841-907) |
| ActEditor.WithFrame | src/extractors/act_editor.py:142-159 | replacing one frame keeps version, events and every action's frame count, puts the new frame there and leaves every other frame as it was |
| ActEditor.WithLayer | src/extractors/act_editor.py:51-105 | replacing one layer puts the new layer there and leaves every other layer, every event id and every anchor list as it was |
| ActEditor.LayerEditSaves | src/extractors/act_editor.py:41-105 | after a layer edit whose values can be packed, saving succeeds and loading gives back the edited actions |
| ActEditor.FindEvent | src/extractors/act_editor.py:128-130 | the first index holding the name, or none exactly when the name is absent |
| ActEditor.FindEventFirst | src/extractors/act_editor.py:128-130 | the first index holding the name is the one found |
| ActEditor.ColorVersion | src/extractors/act_editor.py:113-115 | the version after a colour change is at least 2.0 and unchanged when it already was |
| ActEditor.EventVersion | src/extractors/act_editor.py:135-137 | the version after adding an event is at least 2.1 and unchanged when it already was |
| ActEditor.AddEvent | src/extractors/act_editor.py:120-140 | a listed name keeps the data and gives its first index; a new name is appended at the end with the version raised; actions are untouched and names stay distinct |
| ActEditor.OrPath | src/extractors/act_editor.py:45 | the first non-empty path of the two, or none |
| ActEditor.Editor.constructor | src/extractors/act_editor.py:24-28 | nothing is open, there is no path, nothing is modified |
| ActEditor.Editor.Open | src/extractors/act_editor.py:30-39 | the data becomes what loading the contents gives; on success the path is set and the editor is unmodified, otherwise path and flag are kept |
| ActEditor.Editor.Save | src/extractors/act_editor.py:41-49 | bytes are written exactly when there is a path, open data, and every value can be packed; they are the saved file at that path |
| ActEditor.Editor.GetLayer | src/extractors/act_editor.py:51-63 | a layer is returned exactly when data is open and all three indices are in range |
| ActEditor.Editor.EditLayer | src/extractors/act_editor.py:65-105 | an edit succeeds exactly when the layer exists; it changes that layer only and marks the editor modified; a failed edit changes nothing |
| ActEditor.Editor.SetOffset | src/extractors/act_editor.py:65-73 | on an existing layer, sets x and y only and marks the editor modified; otherwise changes nothing |
| ActEditor.Editor.SetScale | src/extractors/act_editor.py:75-87 | on an existing layer, sets both scales, y defaulting to x, and marks the editor modified; otherwise changes nothing |
| ActEditor.Editor.SetRotation | src/extractors/act_editor.py:89-96 | on an existing layer, sets the rotation only and marks the editor modified; otherwise changes nothing |
| ActEditor.Editor.SetMirror | src/extractors/act_editor.py:98-105 | on an existing layer, sets the mirror flag only and marks the editor modified; otherwise changes nothing |
| ActEditor.Editor.SetColor | src/extractors/act_editor.py:107-118 | on an existing layer, sets the tint, raises the version to 2.0 if older and marks the editor modified; otherwise changes nothing |
| ActEditor.Editor.AddSoundEvent | src/extractors/act_editor.py:120-140 | -1 with nothing open; the first index of a listed name without change; otherwise the name is appended, the version raised to 2.1, and its new index returned |
| ActEditor.Editor.SetFrameEvent | src/extractors/act_editor.py:142-159 | succeeds exactly when the frame exists; sets its event id to -1 for no name, else to the index of that name, adding it if new; every other frame, and this frame's layers and anchors, are kept |
| ActEditor.Editor.SetFrameDelay | src/extractors/act_editor.py:161-173 | succeeds exactly when the frame exists, marking the editor modified; the data modelled is unchanged |
| BaseExtractor.MakeFileEntry | src/extractors/base_extractor.py:42-53 | the entry keeps path, size, offset and encryption flag; a non-zero compressed size is kept, and a compressed size of 0 is replaced by the size |
| BaseExtractor.FileCount | src/extractors/base_extractor.py:295-297 | the count is the number of files `extract_all` visits without a filter |
| BaseExtractor.SelectedAll | src/extractors/base_extractor.py:236-240 | without a filter every listed file is visited, in order |
| BaseExtractor.TotalSizeConcat | src/extractors/base_extractor.py:299-301 | the total size of two lists is the sum of their totals |
| BaseExtractor.TotalSizeBounds | src/extractors/base_extractor.py:299-301 | with no negative sizes the total is non-negative and bounds each single size |
| BaseExtractor.Selected | src/extractors/base_extractor.py:238-240 | the visited files are exactly the listed files the filter keeps (all of them without one), never more |
| BaseExtractor.Successes | src/extractors/base_extractor.py:245-258 | the number of successes is at most the number of files, and equals it exactly when every extraction succeeds |
| BaseExtractor.SuccessesSnoc | src/extractors/base_extractor.py:257-258 | one more file adds one exactly when its extraction succeeds |
| BaseExtractor.ExtractAll | src/extractors/base_extractor.py:217-260 | a closed archive raises "Archive is not open"; an open one returns the number of successful extractions over the selected files, at most the number of files |
| BaseExtractor.FirstDetecting | src/extractors/base_extractor.py:379-391 | no class is found exactly when none detects the path; a class found detects it and no earlier class does |
| BaseExtractor.Registry.constructor | src/extractors/base_extractor.py:338-339 | the registry starts empty |
| BaseExtractor.Registry.Register | src/extractors/base_extractor.py:342-362 | the class is stored under its id, replacing an earlier class with that id in place, otherwise appended |
| BaseExtractor.Registry.GetExtractorById | src/extractors/base_extractor.py:394-404 | nothing is found exactly when no class has that id |
| BaseExtractor.Registry.GetExtractorForFile | src/extractors/base_extractor.py:365-391 | the result is the first registered class, in registration order, whose `detect` accepts the path |
| BaseExtractor.RegisterThenLookup | src/extractors/base_extractor.py:356-357 | after registering, the class's id finds it and every other id finds what it found before |
| BatchExporter.NewResult | src/parsers/batch_exporter.py:39-60 | a result keeps the given fields, with missing error and skip lists made empty |
| BatchExporter.Replaced | src/parsers/batch_exporter.py:642-644 | same length; each invalid file-name character becomes '_' and every other character stays |
| BatchExporter.StripStart | src/parsers/batch_exporter.py:647 | a suffix of the input with only spaces and dots removed, not starting with either |
| BatchExporter.StripEnd | src/parsers/batch_exporter.py:647 | a prefix of the input with only spaces and dots removed, not ending with either |
| BatchExporter.Strip | src/parsers/batch_exporter.py:647 | a middle part of the input that neither starts nor ends with a space or a dot |
| BatchExporter.SanitizeFilename | src/parsers/batch_exporter.py:631-653 | the loop computes the sanitised name: no invalid character, at most 50 characters, and when nothing is cut no leading or trailing space or dot |
| BatchExporter.StripKeepsClean | src/parsers/batch_exporter.py:647 | stripping introduces no invalid character |
| BatchExporter.ReplacedClean | src/parsers/batch_exporter.py:642-644 | replacing is the identity on a name without invalid characters |
| BatchExporter.StripTrimmed | src/parsers/batch_exporter.py:647 | stripping is the identity on a name already trimmed |
| BatchExporter.SanitizedFixpoint | src/parsers/batch_exporter.py:631-653 | sanitising a sanitised name that needed no cut changes nothing |
| BatchExporter.SanitizedFits | src/parsers/batch_exporter.py:631-653 | when the stripped name fits, sanitising is just replace then strip |
| BatchExporter.ReplacedIsClean | src/parsers/batch_exporter.py:642-644 | no invalid character survives the replacement |
| BatchExporter.SheetRows | src/parsers/batch_exporter.py:222 | `ceil(total / columns)`: undefined for zero columns; otherwise the fewest rows holding every item |
| BatchExporter.CeilDiv | src/parsers/batch_exporter.py:222 | the integer ceiling holds every item and no row is wasted |
| BatchExporter.SheetSize | src/parsers/batch_exporter.py:222-226 | width is columns cells plus padding around them; height is the row count of cells plus padding |
| BatchExporter.MulLe | src/parsers/batch_exporter.py:259-260 | scaling keeps order |
| BatchExporter.SlotFits | src/parsers/batch_exporter.py:259-260 | slot k of n lies inside the sheet's extent |
| BatchExporter.SlotsApart | src/parsers/batch_exporter.py:259-260 | an earlier slot ends before a later one starts |
| BatchExporter.RowBound | src/parsers/batch_exporter.py:256-257 | every item's row is below the row count |
| BatchExporter.CellInside | src/parsers/batch_exporter.py:222-260 | every item's cell, with its padding, lies inside the sheet |
| BatchExporter.GridCellFits | src/parsers/batch_exporter.py:256-260 | a cell at column and row within the grid lies inside it on both axes |
| BatchExporter.GridApart | src/parsers/batch_exporter.py:256-257 | two different items differ in column or in row |
| BatchExporter.CellsApart | src/parsers/batch_exporter.py:256-260 | the cells of two different items do not overlap |
| BatchExporter.JobCellInside | src/parsers/batch_exporter.py:376-404 | every frame cell of the job sheet lies inside the sheet and right of the labels |
| BatchExporter.FirstRaised | src/parsers/batch_exporter.py:149-185 | the index of the first render that raised, or the length when none did |
| BatchExporter.FirstRaisedAt | src/parsers/batch_exporter.py:149-185 | any index with that property is the first raise |
| BatchExporter.Run | src/parsers/batch_exporter.py:356-369 | a finished run never counts more images than renders |
| BatchExporter.RunAppend | src/parsers/batch_exporter.py:356-369 | running two sequences in turn stops at the first one's exception or adds the counts |
| BatchExporter.RunStopsAtFirstRaise | src/parsers/batch_exporter.py:345-426 | a run stops exactly when some render raises, with the first exception's message |
| BatchExporter.HeadgearRenders | src/parsers/batch_exporter.py:152-162 | one render per headgear id, frame 0 of action 0 with that headgear on top and the others cleared |
| BatchExporter.HeadgearFileName | src/parsers/batch_exporter.py:165-171 | the name is `headgear_<id>` without a database, otherwise from the database name |
| BatchExporter.SavedOrSkipped | src/parsers/batch_exporter.py:164-178 | up to the first exception every headgear is either saved or noted as skipped |
| BatchExporter.IntToStringChars | src/parsers/batch_exporter.py:166-171 | a decimal rendering holds only digits and '-' |
| BatchExporter.StemsDistinct | src/parsers/batch_exporter.py:165-171 | different ids never get the same file name, so no saved PNG overwrites another |
| BatchExporter.NamedNotDefault | src/parsers/batch_exporter.py:166-171 | a name from the database never equals a default name |
| BatchExporter.UnderscoreAfter | src/parsers/batch_exporter.py:171 | the first '_' of a named file follows the id |
| BatchExporter.NamedStemsDistinct | src/parsers/batch_exporter.py:171 | two named files of different ids differ |
| BatchExporter.ExportAllHeadgear | src/parsers/batch_exporter.py:119-195 | without Pillow nothing is saved and the error is returned; otherwise each headgear is rendered in turn until the first exception, the saved PNGs and skip notes are those of the renders before it, success reports the folder and the count, and a success accounts for every id; the top headgear and gender are restored, mid and low left cleared |
| BatchExporter.ProgressStart | src/parsers/batch_exporter.py:142-143 | before the loop nothing is saved or skipped |
| BatchExporter.ProgressStep | src/parsers/batch_exporter.py:164-178 | an image adds its PNG, a missing sprite adds a skip note |
| BatchExporter.SavedStep | src/parsers/batch_exporter.py:173-176 | saved files grow by one exactly on an image |
| BatchExporter.SkipStep | src/parsers/batch_exporter.py:177-178 | skip notes grow by one exactly on a missing sprite |
| BatchExporter.ProgressEnd | src/parsers/batch_exporter.py:180-185 | the loop ends either through every id or at the first exception with its message |
| BatchExporter.ExportEachHeadgear | src/parsers/batch_exporter.py:149-185 | the loop saves, skips and stops as specified; the job, head and gender stay |
| BatchExporter.TryHeadgear | src/parsers/batch_exporter.py:156-171 | one headgear is set on top with the others cleared, rendered, and named |
| BatchExporter.ActionRenders | src/parsers/batch_exporter.py:358-365 | eight renders of frames 0 to 7 of the action |
| BatchExporter.JobRenders | src/parsers/batch_exporter.py:356-369 | eight renders per action |
| BatchExporter.JobRendersAppend | src/parsers/batch_exporter.py:356-369 | renders of concatenated action lists concatenate |
| BatchExporter.JobCountBound | src/parsers/batch_exporter.py:423 | the sheet's count is at most eight per action |
| BatchExporter.RenderAction | src/parsers/batch_exporter.py:357-369 | one action's images are counted up to the first exception |
| BatchExporter.ActionStep | src/parsers/batch_exporter.py:356-369 | a finished action adds its images; an exception ends the whole run with it |
| BatchExporter.SheetStart | src/parsers/batch_exporter.py:350 | before the first action no frame is kept |
| BatchExporter.SheetStep | src/parsers/batch_exporter.py:367-369 | an action is kept exactly when it gave an image, with its count |
| BatchExporter.SheetEnd | src/parsers/batch_exporter.py:371-376 | the kept actions account for every image, and none is kept exactly when no image was rendered |
| BatchExporter.RenderSheet | src/parsers/batch_exporter.py:350-373 | the loop keeps the actions that gave images or returns the first exception |
| BatchExporter.ExportJobSpritesheet | src/parsers/batch_exporter.py:309-432 | without Pillow nothing is saved; an exception fails with its message; no frame fails with "No frames rendered"; otherwise the sheet is saved under the sanitised job name, gender and `_sheet.png` with the number of frames; the compositor's look is restored |
| Cataloger.AddExtensions | src/core/cataloger.py:128-129 | adding one category's extensions keeps every existing key, and each key is either kept or a lower-case extension mapped to that category |
| Cataloger.AddEach | src/core/cataloger.py:128-129 | the inner loop over one category's extensions builds that map |
| Cataloger.AddExtensionsListed | src/core/cataloger.py:128-129 | every listed extension, lower-cased, maps to the category |
| Cataloger.AddExtensionsUnlisted | src/core/cataloger.py:128-129 | an unlisted key is present afterwards exactly when it was before, with its old category |
| Cataloger.ExtensionMap | src/core/cataloger.py:126-129 | every key of the reverse map is lower case and maps to one of the categories |
| Cataloger.ExtensionMapLaterWins | src/core/cataloger.py:126-129 | an extension maps to the category that lists it last |
| Cataloger.ExtensionMapUnlisted | src/core/cataloger.py:126-129 | an extension no category lists is not in the map |
| Cataloger.DefaultCategoriesDistinct | src/core/cataloger.py:38-65 | the default categories have distinct names |
| Cataloger.InitKeys | src/core/cataloger.py:199-200 | the result's initial keys are every category plus 'Other' |
| Cataloger.InitKeysNoRepeats | src/core/cataloger.py:199-200 | with distinct category names the initial keys have no repeats |
| Cataloger.InCategory | src/core/cataloger.py:209 | one category's list never holds more assets than were filed |
| Cataloger.InCategoryMembers | src/core/cataloger.py:209 | a category's list holds exactly the filed assets of that category |
| Cataloger.InCategoryCons | src/core/cataloger.py:209 | filing an asset first puts it first in its own category's list only |
| Cataloger.Grouped | src/core/cataloger.py:199-209 | each key is paired with its category's assets, in key order |
| Cataloger.GroupedSnoc | src/core/cataloger.py:209 | filing one more asset appends it to its own category's list and changes no other list |
| Cataloger.NonEmpty | src/core/cataloger.py:212 | dropping empty categories never adds entries |
| Cataloger.NonEmptyMembers | src/core/cataloger.py:212 | the kept entries are exactly those with a non-empty list |
| Cataloger.SumByEmpty | src/core/cataloger.py:199-200 | with no files every list is empty |
| Cataloger.SumByNonEmpty | src/core/cataloger.py:212 | dropping empty categories keeps the number of assets |
| Cataloger.GroupedPartition | src/core/cataloger.py:188-212 | every asset is filed under its own category, and the list lengths add up to the number of assets |
| Cataloger.GroupedCount | src/core/cataloger.py:199-209 | the list lengths add up to the number of assets |
| Cataloger.TallyFromCount | src/core/cataloger.py:271 | counting from existing counts adds each key's number of occurrences |
| Cataloger.TallyFromPresent | src/core/cataloger.py:271 | a key has a count exactly when it had one or occurs among the keys |
| Cataloger.TallyCount | src/core/cataloger.py:244-271 | each key's count is its number of occurrences, and only occurring keys are counted |
| Cataloger.TallyFromSum | src/core/cataloger.py:271 | counting more keys raises the sum of the counts by their number |
| Cataloger.TallyStepSum | src/core/cataloger.py:271 | counting one key raises the sum of the counts by one |
| Cataloger.TallySum | src/core/cataloger.py:244-271 | the counts add up to the number of keys |
| Cataloger.StripDots | src/core/cataloger.py:256 | `lstrip('.')` gives a suffix of the input that does not start with a dot |
| Cataloger.OrganizeKey | src/core/cataloger.py:250-266 | the key is the category, the status, the extension without leading dots (or 'no_extension', never empty or dotted), or 'preserved' for any other structure |
| Cataloger.OrganizeKeys | src/core/cataloger.py:244-266 | each asset's key, in order |
| Cataloger.OrganizeAssets | src/core/cataloger.py:219-281 | the counts are the tally of the assets' keys and add up to the number of assets |
| Cataloger.ByStatusKeys | src/core/cataloger.py:253-255 | organised by status, only the assets' statuses appear as keys |
| Cataloger.Entries | src/core/cataloger.py:308-314 | one entry per result, in order, each carrying the list's status |
| Cataloger.Gathered | src/core/cataloger.py:304-314 | the gathered entries number the new and modified results, plus the identical and unknown ones unless only custom assets are wanted; then every status is 'new' or 'modified' |
| Cataloger.AppendEntries | src/core/cataloger.py:308-314 | the inner loop appends one list's entries |
| Cataloger.StatsFromSums | src/core/cataloger.py:446-461 | the per-category counts and sizes add up to the number and total size of the assets |
| Cataloger.CategoryStatsSums | src/core/cataloger.py:446-461 | the per-category counts add up to the number of assets and the sizes to the total size |
| Cataloger.StatsFromLookup | src/core/cataloger.py:446-451 | each category's count and size are those of its own assets, added to what was there |
| Cataloger.CategoryStatsLookup | src/core/cataloger.py:446-451 | each category's count and size are those of its own assets |
| Cataloger.TotalSizeConcat | src/core/cataloger.py:461 | the total size of two lists is the sum of their totals |
| Cataloger.Statuses | src/core/cataloger.py:454-456 | each asset's status, in order |
| Cataloger.Extensions | src/core/cataloger.py:459-461 | each asset's extension, in order |
| Cataloger.FlatValuesLength | src/core/cataloger.py:325-327 | the flattened list is as long as the lists together |
| Cataloger.FlatValuesSnoc | src/core/cataloger.py:325-327 | flattening one more list appends it |
| Cataloger.FlatValuesMembers | src/core/cataloger.py:325-327 | every flattened asset comes from one of the lists |
| Cataloger.GroupedFrom | src/core/cataloger.py:322-327 | every flattened categorised asset is one of the assets filed |
| Cataloger.FlattenGroups | src/core/cataloger.py:324-327 | the flattening loop returns the lists one after the other |
| Cataloger.AssetCataloger.constructor | src/core/cataloger.py:113-129 | the categories are the custom ones when given and non-empty, otherwise the defaults, and the reverse map is built from them |
| Cataloger.AssetCataloger.GetCategory | src/core/cataloger.py:136-155 | the category is 'Other' or one of the categories, and 'Other' for an extension the map does not know |
| Cataloger.AssetCataloger.CategorizeFile | src/core/cataloger.py:157-186 | the asset keeps path, status and hash; its extension is lower case and empty or dotted; its category is one of the initial keys; the full path falls back to the path |
| Cataloger.AssetCataloger.AssetOf | src/core/cataloger.py:202-208 | a file record becomes an asset with one of the initial categories, and status 'unknown' when the record has none |
| Cataloger.AssetCataloger.AssetsOf | src/core/cataloger.py:202-208 | one asset per record |
| Cataloger.AssetCataloger.AssetsOfEach | src/core/cataloger.py:202-209 | each record's asset, in order, each in one of the initial categories |
| Cataloger.AssetCataloger.CategorizeFiles | src/core/cataloger.py:188-212 | the result is each category's assets, empty categories removed, and holds as many assets as files |
| Cataloger.AssetCataloger.GatherResults | src/core/cataloger.py:300-314 | the gathering loop returns the gathered entries |
| Cataloger.AssetCataloger.ComparisonAssets | src/core/cataloger.py:300-327 | the flattened categorised assets number the gathered entries; with only custom assets every status is 'new' or 'modified' |
| Cataloger.AssetCataloger.ComparisonAssetsFacts | src/core/cataloger.py:316-327 | categorising and flattening keeps the number of entries, and keeps statuses within 'new' and 'modified' when the entries have only those |
| Cataloger.AssetCataloger.ComparisonCount | src/core/cataloger.py:316-327 | categorising and flattening keeps the number of entries |
| Cataloger.AssetCataloger.ComparisonStatuses | src/core/cataloger.py:316-327 | categorising and flattening keeps statuses within 'new' and 'modified' |
| Cataloger.AssetCataloger.OrganizeComparisonResults | src/core/cataloger.py:283-331 | the counts are the tally of the gathered assets' keys; they add up to the number gathered, which with only custom assets is the number of new and modified results; by status, only 'new' and 'modified' appear |
| Cataloger.AssetCataloger.GetStatistics | src/core/cataloger.py:428-470 | the totals are the number and size of the assets; the per-category, per-status and per-extension tables are the exact counts (and sizes), and each adds up to the totals |
| CharacterDesigner.GenderWord | src/gui/character_designer.py:295 | one Korean character: "남" exactly for "male", "여" for any other gender |
| CharacterDesigner.SpriteCompositor.constructor | src/gui/character_designer.py:151-168 | a new compositor shows a male Novice with head 1 and no headgear |
| CharacterDesigner.SpriteCompositor.BodyPath | src/gui/character_designer.py:288-296 | empty exactly for a job without a folder; otherwise the body directory, the gender word, the job's folder and the gender word again |
| CharacterDesigner.SpriteCompositor.HeadPath | src/gui/character_designer.py:298-301 | the head directory, the gender word, the head id and the gender word |
| CharacterDesigner.SpriteCompositor.HeadgearPath | src/gui/character_designer.py:303-306 | the accessory directory, the gender word, then the gender word and the headgear id |
| CharacterDesigner.IntToStringInjective | src/gui/character_designer.py:306 | different ids render as different decimal strings |
| CharacterDesigner.CancelPrefix | src/gui/character_designer.py:306 | equal strings with a common prefix have equal rests |
| CharacterDesigner.HeadgearPathsDistinct | src/gui/character_designer.py:303-306 | different headgear ids give different paths |
| CharacterDesigner.HeadPathsBySex | src/gui/character_designer.py:298-301 | a male and a non-male compositor never share a head path |
| CharacterDesigner.RelPath | src/gui/character_designer.py:565-570 | the path from the first "data/" on, or the whole path when it has none |
| CharacterDesigner.RelPathOfKey | src/gui/character_designer.py:565-570 | a path that starts with "data/" is its own relative path |
| CharacterDesigner.LowerKeepsDataDir | src/gui/character_designer.py:561 | lower-casing keeps a leading "data/" |
| CharacterDesigner.HeadgearPathIsKey | src/gui/character_designer.py:561-570 | a lower-cased headgear path is its own relative path, as the baseline keys it |
| CharacterDesigner.HeadgearUnderData | src/gui/character_designer.py:303-306 | every headgear path starts with "data/" |
| CharacterDesigner.RelPathIdempotent | src/gui/character_designer.py:565-570 | taking the relative path twice changes nothing |
| CharacterDesigner.Classify | src/gui/character_designer.py:572-585 | never 'modified'; 'unknown' exactly for an empty baseline; 'vanilla' exactly when the relative path is in it; 'new' exactly when it is not |
| CharacterDesigner.AgreeingCacheTransparent | src/gui/character_designer.py:560-588 | a cache whose every entry is what the baseline gives never changes an answer |
| CharacterDesigner.StaleCacheAfterLoad | src/gui/character_designer.py:534-545 | as written, loading a baseline from the database keeps the cache, so a path checked before keeps a status the new baseline contradicts |
| CharacterDesigner.BaselineOf | src/gui/character_designer.py:539-542 | the baseline's keys are exactly the lower-cased paths of the vanilla files |
| CharacterDesigner.BaselineLast | src/gui/character_designer.py:539-542 | a path maps to the hash of its last file in the list |
| CharacterDesigner.CustomSpriteDetector.constructor | src/gui/character_designer.py:517-527 | a new detector has the given baseline or an empty one and an empty cache |
| CharacterDesigner.CustomSpriteDetector.SetBaseline | src/gui/character_designer.py:529-532 | the baseline is replaced and the cache cleared, so every answer is the new baseline's |
| CharacterDesigner.CustomSpriteDetector.LoadBaselineFromDb | src/gui/character_designer.py:534-545 | with a database that answers, the baseline is built from its files; otherwise it stays; the cache is kept |
| CharacterDesigner.CustomSpriteDetector.CheckSprite | src/gui/character_designer.py:547-588 | the answer is the cached status or the classification; an empty path or empty baseline gives 'unknown' and is not cached; a fresh answer under a baseline is cached by the lower-cased path; no answer changes |
| CharacterDesigner.CustomSpriteDetector.GetCustomSprites | src/gui/character_designer.py:590-600 | one status per given path, each what `check_sprite` gives, none 'modified', and no later answer changes |
| CharacterDesigner.CheckStep | src/gui/character_designer.py:560-588 | one check keeps every answer the same |
| CharacterDesigner.CacheGrowthKeepsAnswers | src/gui/character_designer.py:587 | caching a fresh classification changes no answer |
| Comparator.StatusName | src/core/comparator.py:320-325 | each status is named by one of the four result keys |
| Comparator.StatusNamesDistinct | src/core/comparator.py:320-325 | different statuses have different names |
| Comparator.VanillaHash | src/core/comparator.py:283-284 | a vanilla hash is found exactly when the lower-cased relative path is in the baseline |
| Comparator.Classify | src/core/comparator.py:271-303 | no (or an empty) hash gives 'unknown' with an empty hash; otherwise 'new' exactly when the path is not in the baseline, 'identical' exactly when the hashes match case-insensitively, 'modified' exactly when the path is known with another hash; the vanilla hash is recorded exactly for 'identical' and 'modified' |
| Comparator.ClassifyIgnoresPathCase | src/core/comparator.py:283-284 | paths differing only in letter case are classified alike |
| Comparator.HashOf | src/core/comparator.py:344 | a path the hasher did not report has no hash |
| Comparator.Results | src/core/comparator.py:337-373 | one classification per file, in order, with the hash reported for its full path |
| Comparator.WithStatus | src/core/comparator.py:366-373 | a bucket holds only results of its status, taken from the results |
| Comparator.Bucketed | src/core/comparator.py:318-373 | each bucket is exactly the results of its status, in order |
| Comparator.BucketedSnoc | src/core/comparator.py:366-373 | one more result is appended to the bucket of its status only |
| Comparator.BucketsPartition | src/core/comparator.py:318-373 | the buckets hold as many results as there are, and every result is in the bucket of its status |
| Comparator.BucketEach | src/core/comparator.py:337-373 | the comparison loop fills the buckets with the classified files |
| Comparator.CacheOf | src/core/comparator.py:112-115 | every cached path is lower case and every stored file is cached under its lower-cased path |
| Comparator.AssetComparator.constructor | src/core/comparator.py:82-101 | the cache holds the stored vanilla files under their lower-cased paths (also lines 103-119) |
| Comparator.AssetComparator.CompareFiles | src/core/comparator.py:305-375 | the buckets are the classified files by status, and together hold every file |
| Comparator.Kept | src/core/comparator.py:162-173 | the walk's kept files are never more than the walked ones |
| Comparator.KeptMembers | src/core/comparator.py:162-173 | a file is kept exactly when there is no filter or its lower-cased extension is among the filter's |
| Comparator.Added | src/core/comparator.py:189-201 | at most one cache entry per kept file |
| Comparator.AddedSnoc | src/core/comparator.py:189-201 | a kept file adds its lower-cased path and hash exactly when it got a non-empty hash |
| Comparator.AddedKeys | src/core/comparator.py:189-201 | every added path is lower case with a non-empty hash, and every hashed kept file is added |
| Comparator.AddHashes | src/core/comparator.py:199 | caching never drops a path |
| Comparator.AddHashesLookup | src/core/comparator.py:199 | a path's last added hash is cached; a path never added keeps its old entry |
| Comparator.AddHashesSnoc | src/core/comparator.py:199 | caching one more pair updates that path only |
| Comparator.CacheEach | src/core/comparator.py:185-201 | the baseline loop caches the added pairs in order and counts them |
| Comparator.AssetComparator.BuildBaseline | src/core/comparator.py:126-218 | the cache gains each kept, hashed file under its lower-cased path, and the count is the number of such files |
| Comparator.AssetComparator.ClearBaseline | src/core/comparator.py:233-253 | the cache is empty |
| Comparator.RebuiltFileIsIdentical | src/core/comparator.py:199 | a file compared with the hash the baseline stored last for its path is 'identical' (also lines 283-292) |
| Config.Merge | src/core/config.py:177-179 | merging loaded values never adds or removes a key |
| Config.MergeLookup | src/core/config.py:177-179 | after the merge a known key holds the value of its last occurrence in the file, or its old value when the file does not mention it |
| Config.MergeLastOccurrence | src/core/config.py:177-179 | a key's last occurrence in the file decides its value |
| Config.MergeUnmentioned | src/core/config.py:177-179 | a key the file does not mention keeps its value |
| Config.MergeDefaultsOnly | src/core/config.py:148-149 | a file holding only the defaults' own values, plus any unknown keys, leaves the defaults unchanged (also lines 177-179) |
| Config.Clamp | src/core/config.py:293 | `max(lo, min(hi, v))` lies in `lo..hi`, is `v` inside that range and the nearer bound outside it (also lines 319) |
| Config.ClampIdempotent | src/core/config.py:293 | clamping twice is clamping once (also lines 319) |
| Config.Config.constructor | src/core/config.py:131-152 | the path is the given one when non-empty, otherwise the default location; the data are the defaults, unmodified |
| Config.Config.Load | src/core/config.py:158-190 | success exactly when the file exists and parses; then the values are merged into the known keys and the modified flag is cleared; otherwise nothing changes; the key set and path never change |
| Config.Config.Save | src/core/config.py:192-215 | success exactly when the file could be written, which clears the modified flag; the data are unchanged |
| Config.Config.ResetToDefaults | src/core/config.py:217-220 | the data become the defaults and are marked modified |
| Config.Config.Get | src/core/config.py:321-332 | a present key gives its value, a missing one the default |
| Config.Config.GetItem | src/core/config.py:345-347 | a missing key raises `KeyError` (`None`); a present one gives its value |
| Config.Config.Set | src/core/config.py:334-343 | the key now holds the value, nothing else changes, the data are marked modified and keep every default key (also lines 349-356) |
| Config.Config.SetAssetLibraryPath | src/core/config.py:232-236 | only `asset_library_path` changes, to the value; marked modified |
| Config.Config.SetQuickbmsPath | src/core/config.py:243-247 | only `quickbms_path` changes, to the value; marked modified |
| Config.Config.SetDatabasePath | src/core/config.py:254-258 | only `database_path` changes, to the value; marked modified |
| Config.Config.SetHashAlgorithm | src/core/config.py:265-271 | accepted exactly for md5, sha256 and both, which are then stored and marked modified; any other value raises `ValueError` and changes nothing |
| Config.Config.SetDebugMode | src/core/config.py:278-282 | only `debug_mode` changes, to the value; marked modified |
| Config.Config.SetGenerateThumbnails | src/core/config.py:300-304 | only `generate_thumbnails` changes, to the value; marked modified |
| Config.Config.SetExtractionThreads | src/core/config.py:289-293 | the stored thread count is the value clamped to 1..16, the value itself when already in range |
| Config.Config.SetThumbnailSize | src/core/config.py:311-319 | the stored size is the value clamped to 32..512, the value itself when already in range |
| Hasher.FirstEmpty | src/core/hasher.py:103-107 | the read loop stops at the first empty read: every earlier read gave bytes |
| Bytes.Fill | src/parsers/spr_parser.py:537-539 | n copies of the byte |
| Bytes.Window | src/extractors/grf_extractor.py:270-273 | a seek and read returns at most n bytes: all n when they are there, the bytes up to the end otherwise, none past the end |
| Bytes.ReadU32 | src/parsers/act_parser.py:881 | an unsigned little-endian word reads back the value written into it |
| Bytes.ReadI32 | src/parsers/act_parser.py:913 | a signed little-endian word reads back the value written into it |
| Strings.LowerChar | src/core/comparator.py:283 | ASCII upper-case letters move to lower case; every other character stays |
| Strings.ReplaceChar | src/extractors/vfs_extractor.py:382 | same length; every occurrence of one character replaced, everything else kept |
| Strings.RFind | src/core/cataloger.py:152 | the last position of the character, or -1 when it does not occur |
| Strings.Insert | src/extractors/grf_editor.py:418 | inserting into a sorted list gives a sorted list with the same elements plus the new one |
| Strings.SortNoRepeats | src/extractors/grf_editor.py:418 | sorting distinct keys gives a strictly ascending list of the same length |
| Strings.NatToString | src/parsers/batch_exporter.py:166 | a non-empty string of digits with no leading zero |
| GrfDecompression.CopyBack | src/extractors/grf_decompression_fallback.py:93-99 | a phrase copy keeps the output before it and adds `n` bytes, each equal to the byte `dist` positions before it |
| GrfDecompression.Wrap | src/extractors/grf_decompression_fallback.py:93-99 | the position reduced below the distance |
| GrfDecompression.CopyBackPeriodic | src/extractors/grf_decompression_fallback.py:93-99 | the copied run repeats the last `dist` bytes before it, period `dist`, so an overlapping reference re-reads bytes it has just produced |
| GrfDecompression.CopyBackSnoc | src/extractors/grf_decompression_fallback.py:93-99 | copying one more byte appends the byte `dist` back |
| GrfDecompression.Shift | src/extractors/grf_decompression_fallback.py:102-110 | the control shift never fails, never produces output, and either continues with a count below 8 or stops |
| GrfDecompression.StepOnce | src/extractors/grf_decompression_fallback.py:64-110 | each pass that continues consumes input and produces output, never beyond the expected length |
| GrfDecompression.Run | src/extractors/grf_decompression_fallback.py:64-110 | the loop never produces more than the expected length |
| GrfDecompression.RunStep | src/extractors/grf_decompression_fallback.py:64-110 | the loop's result from a state is the result after one more pass, the output on a stop, or failure on an invalid reference |
| GrfDecompression.LzssDecoded | src/extractors/grf_decompression_fallback.py:23-122 | empty input or length 0 gives empty bytes; a negative length fails; otherwise a result has at most the expected length and at least 90% of it |
| GrfDecompression.CopyPhrase | src/extractors/grf_decompression_fallback.py:93-99 | the copy loop writes `CopyBack` into the buffer, stopping when the buffer is full |
| GrfDecompression.DecodeToken | src/extractors/grf_decompression_fallback.py:64-110 | one pass of the loop body on the buffer computes `StepOnce` |
| GrfDecompression.ReadToken | src/extractors/grf_decompression_fallback.py:65-99 | the token part of a pass computes `StepOnce` up to the control shift |
| GrfDecompression.PhraseStep | src/extractors/grf_decompression_fallback.py:74-99 | a phrase token stops when the codeword is cut short, is invalid on distance 0 or one reaching before the start, and otherwise copies `length + 2` bytes, as many as fit |
| GrfDecompression.ReadPhrase | src/extractors/grf_decompression_fallback.py:74-99 | the phrase branch of the loop body on the buffer, with the same three outcomes |
| GrfDecompression.LzssDecompress | src/extractors/grf_decompression_fallback.py:23-122 | `lzss_decompress` on a preallocated buffer computes `LzssDecoded` |
| GrfDecompression.LiteralStream | src/extractors/grf_decompression_fallback.py:60-73 | a literal-only encoding is longer than its bytes |
| GrfDecompression.LiteralRun | src/extractors/grf_decompression_fallback.py:65-73 | clear control bits copy input bytes to the output one per token |
| GrfDecompression.LiteralStep | src/extractors/grf_decompression_fallback.py:65-73 | a clear control bit copies one input byte to the output |
| GrfDecompression.LiteralGroups | src/extractors/grf_decompression_fallback.py:60-110 | the groups of a literal-only encoding decode to their bytes |
| GrfDecompression.ShortGroup | src/extractors/grf_decompression_fallback.py:64-73 | a last group of fewer than eight literals fills the output |
| GrfDecompression.FullGroupEnd | src/extractors/grf_decompression_fallback.py:102-110 | the eighth literal ends a full group: the output is full or the next control byte is read |
| GrfDecompression.LastLiteral | src/extractors/grf_decompression_fallback.py:102-110 | after the eighth clear bit the next control byte is read when input remains |
| GrfDecompression.LiteralRoundTrip | src/extractors/grf_decompression_fallback.py:23-122 | a literal-only stream decodes to exactly its bytes |
| GrfDecompression.DecodedOfRun | src/extractors/grf_decompression_fallback.py:113-116 | a loop result of at least 90% of the length is what `lzss_decompress` returns |
| GrfDecompression.OverlappingRun | src/extractors/grf_decompression_fallback.py:84-99 | a literal followed by a back-reference of distance 1 repeats the literal to fill the output |
| GrfDecompression.OverlapFirst | src/extractors/grf_decompression_fallback.py:65-73 | the literal is taken on the first clear bit |
| GrfDecompression.OverlapSecond | src/extractors/grf_decompression_fallback.py:74-99 | the distance-1 reference fills the output with the literal |
| GrfDecompression.RepeatOfOne | src/extractors/grf_decompression_fallback.py:93-99 | copying at distance 1 after one byte repeats it |
| GrfDecompression.LeadingReference | src/extractors/grf_decompression_fallback.py:88-90 | a back-reference before any byte was produced makes decoding fail |
| GrfDecompression.ZlibAttempts | src/extractors/grf_decompression_fallback.py:158-197 | six zlib attempts, eight when more than 2 bytes allow the header skip |
| GrfDecompression.FirstAccepted | src/extractors/grf_decompression_fallback.py:158-197 | none exactly when no attempt passes the size check; otherwise the output of the first attempt that does |
| GrfDecompression.FirstAcceptedWins | src/extractors/grf_decompression_fallback.py:158-197 | any attempt that passes is preceded or matched by the one picked |
| GrfDecompression.FallbackDecompress | src/extractors/grf_decompression_fallback.py:125-226 | empty input fails; type 0 returns the bytes exactly when they have the size; types other than 0, 1 and 4 fail; type 4 returns the LZMA output only within the 20% tolerance |
| GrfDecompression.ZlibChain | src/extractors/grf_decompression_fallback.py:158-210 | type 1 returns the first zlib attempt that passes the size check; only when all fail is LZSS tried, and then the raw bytes when their size ratio is plausible |
| GrfDecompression.ZeroSizeOnlyZlib | src/extractors/grf_decompression_fallback.py:200-208 | with no expected size only a zlib attempt can succeed |
| GrfEditor.EditorPath | src/extractors/grf_editor.py:233 | the stored path has the length of the given path and no '/' left in it |
| GrfEditor.EditorKey | src/extractors/grf_editor.py:232-234 | the dict key keeps the length, holds no '/' and is all lower case |
| GrfEditor.EditorKeyIsLookupKey | src/extractors/grf_editor.py:232-234 | the key `add_file` stores under is exactly the key the extractor looks a path up by, so a file added under a path is found by that path |
| GrfEditor.Stored | src/extractors/grf_editor.py:425-437 | what is written is never longer than the data; it is the level-6 zlib output exactly when compression is asked, the data is non-empty and the output is strictly smaller, and the data itself otherwise |
| GrfEditor.NameBytes | src/extractors/grf_editor.py:527-532 | a name is the EUC-KR encoding when the codec accepts the path; otherwise it is the latin-1 encoding, one byte per character, which exists exactly when every character is below 256; otherwise there is no name |
| GrfEditor.PathBytes | src/extractors/grf_editor.py:527-549 | a path of non-zero ASCII characters, under an EUC-KR codec that encodes ASCII as itself, is named by bytes without NUL that decode back to the same path |
| GrfEditor.RowBytes | src/extractors/grf_editor.py:527-549 | one table row is the name, a NUL and the 17-byte record |
| GrfEditor.TableBytesSnoc | src/extractors/grf_editor.py:527-549 | the table of one more file is the old table followed by that file's row |
| GrfEditor.BuildFileTable | src/extractors/grf_editor.py:505-549 | the loop builds exactly the table of the rows in order |
| GrfEditor.VfsEntry | src/extractors/grf_vfs.py:266-309 | the VFS entry of a written row is keyed by the normalised name it carries |
| GrfEditor.VfsEntries | src/extractors/grf_vfs.py:266-309 | one VFS entry per written row |
| GrfEditor.StateAt | src/extractors/grf_vfs.py:266-309 | after k rows the VFS parse state has counted k more entries |
| GrfEditor.StateAtNext | src/extractors/grf_vfs.py:266-309 | each further row advances the parse state by that row's bytes and entry |
| GrfEditor.VfsEntriesSnoc | src/extractors/grf_vfs.py:266-309 | the entries of one more row end with that row's entry |
| GrfEditor.VfsEntriesKeys | src/extractors/grf_vfs.py:266-309 | the j-th entry's key is the j-th row's normalised name |
| GrfEditor.RowPlacedAt | src/extractors/grf_vfs.py:266-309 | a row lying at the parse offset with a fresh key is in place to be parsed |
| GrfEditor.RowStepAt | src/extractors/grf_vfs.py:266-309 | a row in place is consumed by one VFS parse step |
| GrfEditor.AllPasses | src/extractors/grf_vfs.py:266-309 | every row in place gives a successful parse step |
| GrfEditor.RowBytesAt | src/extractors/grf_editor.py:527-549 | the k-th row's bytes lie right after the table of the first k rows |
| GrfEditor.TableBytesAround | src/extractors/grf_editor.py:527-549 | a table is the rows before k, row k and the rows after |
| GrfEditor.TableBytesCut | src/extractors/grf_editor.py:527-549 | a table splits at any row boundary into two tables |
| GrfEditor.TableBytesUncons | src/extractors/grf_editor.py:527-549 | a table suffix starts with its first row |
| GrfEditor.TableBytesPrefixSnoc | src/extractors/grf_editor.py:527-549 | a table prefix grows by one row at a time |
| GrfEditor.KeyFreshAt | src/extractors/grf_vfs.py:363 | with distinct keys, row k's key is not among the entries parsed before it |
| GrfEditor.RowParsedByVfs | src/extractors/grf_vfs.py:266-309 | a readable row is consumed by one VFS step that appends its entry |
| GrfEditor.RowLaidOut | src/extractors/grf_vfs.py:266-309 | a written row with a fresh key meets every check of the VFS record read |
| GrfEditor.TableReadByVfs | src/extractors/grf_editor.py:505-549 | the VFS table parse of a table the editor writes gives back one entry per row, in order (paired with grf_vfs.py:266-309) |
| GrfEditor.RowInTable | src/extractors/grf_editor.py:527-549 | every row of a written table is in place for the VFS parse |
| GrfEditor.ParsedFrom | src/extractors/grf_vfs.py:266-309 | parsing from row k on yields the entries so far plus the remaining rows' entries |
| GrfEditor.ListedEntries | src/extractors/grf_extractor.py:455-499 | one extractor listing per written row |
| GrfEditor.RowsListed | src/extractors/grf_extractor.py:455-499 | the extractor's listing loop over a written table lists every row in order |
| GrfEditor.RowsListedEnd | src/extractors/grf_extractor.py:455-499 | at the end of the table the listing stops |
| GrfEditor.RowsListedStep | src/extractors/grf_extractor.py:455-499 | the listing takes the first row and continues on the rest |
| GrfEditor.TableSplit | src/extractors/grf_editor.py:527-549 | a non-empty table is its first row followed by the table of the rest |
| GrfEditor.RowListed | src/extractors/grf_extractor.py:455-499 | one listing step reads one written row into one file entry |
| GrfEditor.TableReadByExtractor | src/extractors/grf_editor.py:505-549 | the extractor lists a written table as exactly one entry per row (paired with grf_extractor.py:455-499) |
| GrfEditor.BuildHeader | src/extractors/grf_editor.py:464-503 | the header is 46 bytes and starts with the 15-byte signature |
| GrfEditor.HeaderRoundTrip | src/extractors/grf_editor.py:464-503 | the extractor's header parse reads back the table offset, the file count and the version the header was built with (paired with grf_extractor.py:380-424) |
| GrfEditor.ItemsFor | src/extractors/grf_editor.py:418 | the items for a list of keys carry those keys in that order, each with its dict value |
| GrfEditor.SortedItems | src/extractors/grf_editor.py:418 | `sorted(self.files.items())`: the keys in sorted order, each with its dict value |
| GrfEditor.SortKeepsMembers | src/extractors/grf_editor.py:418 | sorting introduces no new key |
| GrfEditor.SortedItemsAreFiles | src/extractors/grf_editor.py:418 | the sorted items are a strictly ascending permutation of the dict's items |
| GrfEditor.Layout | src/extractors/grf_editor.py:418-437 | the bodies are written back to back from offset 0, one row per item carrying the item's encoded name (EUC-KR, else latin-1), stored and original size and flags |
| GrfEditor.LayoutSlices | src/extractors/grf_editor.py:418-437 | every row's offset and size point at exactly that file's stored bytes |
| GrfEditor.LayoutSliceAt | src/extractors/grf_editor.py:418-437 | the same for one row |
| GrfEditor.Assemble | src/extractors/grf_editor.py:439-458 | the image exists exactly when every `struct.pack('<I')` fits; it is the header, the bodies, the two table sizes and the packed table |
| GrfEditor.ItemsOfFiles | src/extractors/grf_editor.py:418 | every sorted item is a dict item whose key is its lower-cased path |
| GrfEditor.RowsListable | src/extractors/grf_editor.py:527-549 | every written row has a file flag and a NUL-free name |
| GrfEditor.ImageOpens | src/extractors/grf_editor.py:395-462 | the extractor opens every image the editor writes, reading back its file count, table offset and version and listing one entry per file (paired with grf_extractor.py:426-506); stated for non-zero ASCII paths under an ASCII-compatible EUC-KR codec |
| GrfEditor.AssembledOpens | src/extractors/grf_editor.py:439-458 | an assembled image opens to its header and the listing of its rows |
| GrfEditor.PartsOpen | src/extractors/grf_extractor.py:426-506 | header, bodies, sizes and a packed table that inflates to a table open to that table's listing |
| GrfEditor.OpenImageSteps | src/extractors/grf_extractor.py:426-506 | the open reads the header, then the packed table at the offset it names |
| GrfEditor.TablePartOpens | src/extractors/grf_editor.py:449-454 | the stored size read after the bodies covers exactly the packed table |
| GrfEditor.StoredReadsBack | src/extractors/grf_editor.py:425-437 | decompressing what the editor stored for a non-empty file gives back its data, compressed or not (paired with grf_extractor.py:301-378) |
| GrfEditor.BodiesFollowHeader | src/extractors/grf_editor.py:418-437 | the bodies sit right after the header |
| GrfEditor.ImageHoldsBodies | src/extractors/grf_editor.py:418-437 | any range of the bodies is found 46 bytes later in the image |
| GrfEditor.ListedEntriesAt | src/extractors/grf_extractor.py:455-499 | the i-th listed entry comes from the i-th row |
| GrfEditor.LookupKeyOfStored | src/extractors/grf_extractor.py:257 | for a stored path the extractor's key is its lower-cased form |
| GrfEditor.FindOnly | src/extractors/grf_extractor.py:260-263 | the lookup finds the one entry whose key matches |
| GrfEditor.ListedKey | src/extractors/grf_editor.py:418 | the j-th listed entry's key is the j-th sorted dict key, for non-zero ASCII paths under an ASCII-compatible EUC-KR codec |
| GrfEditor.FileReadsBack | src/extractors/grf_editor.py:395-462 | the extractor reads every non-empty file of a written image back by its path, byte for byte (paired with grf_extractor.py:243-299); stated for non-zero ASCII paths under an ASCII-compatible EUC-KR codec |
| GrfEditor.ListedFound | src/extractors/grf_extractor.py:260-263 | looking up a written file's path finds its own row, for non-zero ASCII paths under an ASCII-compatible EUC-KR codec |
| GrfEditor.BodyReadAt | src/extractors/grf_extractor.py:270-273 | reading a row's range from the image gives that row's body |
| GrfEditor.EntryReadsBack | src/extractors/grf_extractor.py:243-299 | a found entry whose body is the stored bytes reads back as the file's data |
| GrfEditor.WriteGrf | src/extractors/grf_editor.py:395-462 | the writer produces exactly the specified image, and nothing when a name encodes neither as EUC-KR nor as latin-1 or a number does not fit four bytes |
| GrfEditor.UnencodableNameFails | src/extractors/grf_editor.py:527-532 | one file whose name neither EUC-KR nor latin-1 encodes makes the whole write fail |
| GrfEditor.WriteTable | src/extractors/grf_editor.py:439-458 | after the bodies it appends the sizes and packed table and rewrites the header with the table offset, giving the assembled image |
| GrfEditor.WriteBodies | src/extractors/grf_editor.py:418-437 | the loop reports whether every name encodes and, when they do, writes the bodies of the layout after the header and collects its rows |
| GrfEditor.LayoutSnoc | src/extractors/grf_editor.py:418-437 | one more item appends its stored body and a row with its encoded name at the current end |
| GrfEditor.Editor.constructor | src/extractors/grf_editor.py:124-133 | a fresh editor has no path, no files, nothing modified and version 0x200 |
| GrfEditor.Editor.Create | src/extractors/grf_editor.py:135-154 | create sets the path, empties the files and marks the editor modified |
| GrfEditor.Editor.AddFile | src/extractors/grf_editor.py:206-248 | succeeds exactly when the file could be read; then the dict maps the lower-cased key to the record with '/' turned into '\\' and the editor is modified; otherwise nothing changes |
| GrfEditor.Editor.RemoveFile | src/extractors/grf_editor.py:306-325 | succeeds exactly when the normalised key is present; then that key alone is removed and the editor is modified; otherwise nothing changes |
| GrfEditor.Editor.ListFiles | src/extractors/grf_editor.py:327-334 | one stored path per dict entry, each lower-casing to its key and free of '/' |
| GrfEditor.Editor.Save | src/extractors/grf_editor.py:336-376 | a non-empty output path replaces the path; with no path it fails; with nothing modified it succeeds without writing; otherwise it writes the specified image and clears the modified flag exactly when that succeeds, failing when a name encodes neither as EUC-KR nor as latin-1 |
| GrfEditor.Editor.Close | src/extractors/grf_editor.py:378-393 | close drops the path and the files and clears the modified flag |
| GrfEditor.Paths | src/extractors/grf_editor.py:334 | the stored paths, one per entry in order |
| GrfEditor.RemoveKeepsWellKeyed | src/extractors/grf_editor.py:318-319 | removing a key keeps every entry keyed by its lower-cased path |
| GrfEditor.PutKeepsWellKeyed | src/extractors/grf_editor.py:237 | storing a record under its lower-cased path keeps the dict well keyed |
| GrfVfs.CompressionType | src/extractors/grf_vfs.py:328-339 | type 0 exactly when no crypt flag and equal sizes; 1 exactly when no crypt flag and differing sizes; 2 exactly for DES without MIXCRYPT and differing sizes; 3 otherwise |
| GrfVfs.DerivedTypeAgrees | src/extractors/grf_vfs.py:77-84 | for a parsed entry, encrypted means type 2 or 3, and compressed means the sizes differ without MIXCRYPT (also lines 328-339) |
| GrfVfs.Normalize | src/extractors/grf_vfs.py:343 | the key has the path's length, no backslash and no capital, and a slash exactly where the path had either separator |
| GrfVfs.NormalizeIdempotent | src/extractors/grf_vfs.py:343 | normalising twice changes nothing and letter case does not matter, so lookups find what the index stored (also lines 567-568,  581,  647-648) |
| GrfVfs.FindNul | src/extractors/grf_vfs.py:269 | the first NUL from the position, or -1 when there is none |
| GrfVfs.TableStep | src/extractors/grf_vfs.py:266-377 | every pass that does not stop moves forward |
| GrfVfs.Admit | src/extractors/grf_vfs.py:312-367 | parsing resumes after the record whatever happens to it |
| GrfVfs.ParseFromStep | src/extractors/grf_vfs.py:266 | a pass that succeeds below the entry limit leaves the rest of the parse to the state it reaches |
| GrfVfs.TableStepKeeps | src/extractors/grf_vfs.py:266-377 | a pass only appends, keeps keys distinct and entries well formed, and counts them |
| GrfVfs.ParseFromKeeps | src/extractors/grf_vfs.py:266-377 | the parse keeps whatever came before a stop, yields distinct well-formed entries of this archive, and stops at a million |
| GrfVfs.ParseTableWellFormed | src/extractors/grf_vfs.py:261-379 | a parsed table has distinct well-formed paths of this archive, at most a million |
| GrfVfs.RecordBytes | src/extractors/grf_vfs.py:295-309 | the 17 metadata bytes read back as the two sizes, the uncompressed size, the flag byte and the offset |
| GrfVfs.NewEntry | src/extractors/grf_vfs.py:343-360 | an entry is keyed by its normalised path and holds the decoded name, the aligned size, the uncompressed size, the offset, the flags, the archive and its priority |
| GrfVfs.RecordParsed | src/extractors/grf_vfs.py:266-367 | a readable record is appended and parsing continues right after it |
| GrfVfs.RecordReadableAt | src/extractors/grf_vfs.py:269-309 | a record laid out whole that passes the checks is readable there |
| GrfVfs.RecordStep | src/extractors/grf_vfs.py:266-367 | the pass over such a record appends its entry and moves past it |
| GrfVfs.TableStepNew | src/extractors/grf_vfs.py:312-367 | a record that passes every check and names a new path is appended |
| GrfVfs.TableStepAdmits | src/extractors/grf_vfs.py:269-309 | a complete record with a name of at most 260 bytes goes on to the checks |
| GrfVfs.AdmitNew | src/extractors/grf_vfs.py:312-367 | the checks admit a record that passes them and names a new path |
| GrfVfs.RecordLaidOut | src/extractors/grf_vfs.py:269-309 | the name of a laid-out record ends at the first NUL and its fields are read after it |
| GrfVfs.LongNameResumes | src/extractors/grf_vfs.py:277-279 | a name over 260 bytes resumes right after its NUL, without consuming the 17 bytes |
| GrfVfs.TruncationStops | src/extractors/grf_vfs.py:269-271 | no NUL left, or fewer than 17 bytes after the name: parsing stops and keeps what it has (also lines 291-292) |
| GrfVfs.SkippedRecord | src/extractors/grf_vfs.py:312-325 | a directory record or one beyond the size and offset limits adds nothing, and parsing goes on after its 17 bytes |
| GrfVfs.ReadFileTable | src/extractors/grf_vfs.py:261-379 | the table loop computes `ParseTable` |
| GrfVfs.ReadRecord | src/extractors/grf_vfs.py:267-377 | one pass of the loop body computes `TableStep`, `stop` standing for a `break` |
| GrfVfs.MergeEntryGet | src/extractors/grf_vfs.py:470-475 | merging an entry replaces a path only when absent or strictly outranked; other paths are untouched |
| GrfVfs.MergeAllSnoc | src/extractors/grf_vfs.py:470-475 | merging one more pair merges it into what came before |
| GrfVfs.MergeAllDistinct | src/extractors/grf_vfs.py:470-475 | a merged index holds each path once |
| GrfVfs.MergeEntryKeeps | src/extractors/grf_vfs.py:472-475 | a merge step never loses a path nor lowers its priority |
| GrfVfs.MergeCoversPairs | src/extractors/grf_vfs.py:470-475 | after a merge every merged path is present at no lower priority |
| GrfVfs.MergeKeepsIndex | src/extractors/grf_vfs.py:470-475 | after a merge every indexed path is still there at no lower priority |
| GrfVfs.MergeFromCandidates | src/extractors/grf_vfs.py:470-475 | every merged entry was in the index or among the pairs |
| GrfVfs.MergeDominates | src/extractors/grf_vfs.py:470-475 | the higher priority wins: every path is present at no lower priority than any candidate, and comes from one of them |
| GrfVfs.MergeFirstKept | src/extractors/grf_vfs.py:472-475 | on ties the first entry seen is kept |
| GrfVfs.InsertArchive | src/extractors/grf_vfs.py:445 | inserting keeps the archives ordered by priority and adds exactly the one archive |
| GrfVfs.SortByPriority | src/extractors/grf_vfs.py:445 | sorting orders by priority and is a permutation (also lines 483) |
| GrfVfs.Reindexed | src/extractors/grf_vfs.py:488-490 | each entry is keyed by its own path |
| GrfVfs.RebuiltSnoc | src/extractors/grf_vfs.py:485-496 | one more archive merges its entries into the index built so far |
| GrfVfs.RebuiltDistinct | src/extractors/grf_vfs.py:477-509 | the rebuilt index holds each path once |
| GrfVfs.RebuiltCovers | src/extractors/grf_vfs.py:477-509 | every entry of every archive is indexed under its path at no lower priority |
| GrfVfs.RebuiltSources | src/extractors/grf_vfs.py:477-509 | every indexed entry comes from one of the archives |
| GrfVfs.RebuiltDominates | src/extractors/grf_vfs.py:477-509 | the rebuilt index is a dict covering every archive's entries at no lower priority, each drawn from an archive |
| GrfVfs.ReadFileData | src/extractors/grf_vfs.py:170-198 | data is read exactly when the archive is open and the stored bytes are all there; it is the stored bytes at 46 + offset |
| GrfVfs.FindArchive | src/extractors/grf_vfs.py:599-603 | none exactly when no archive has the path; otherwise the first that has it |
| GrfVfs.ZlibPrimary | src/extractors/grf_vfs.py:739-823 | a missing result counts one failure; a fallback returns the raw bytes when their size is plausible; standard zlib within 10% or 1 KiB or 20% is taken as is |
| GrfVfs.ZlibStrategies | src/extractors/grf_vfs.py:706-737 | a result is never empty; a missing one counts a failure; a result without fallback is the primary one |
| GrfVfs.Decompress | src/extractors/grf_vfs.py:825-905 | type 0 keeps the bytes; a missing result counts a failure unless DES is unavailable; DES types succeed only with DES; type 3 is the decryption; an LZMA fallback keeps raw bytes of the exact size |
| GrfVfs.CacheBytesAppend | src/extractors/grf_vfs.py:703-704 | caching data adds its length to the size |
| GrfVfs.CacheBytesRemove | src/extractors/grf_vfs.py:586 | removing a cached path takes away exactly its length (also lines 699-700) |
| GrfVfs.EvictCount | src/extractors/grf_vfs.py:697-700 | the fewest oldest entries whose eviction lets the new data fit, or all |
| GrfVfs.EvictOldest | src/extractors/grf_vfs.py:697-700 | the eviction loop drops exactly those oldest entries and keeps the size equal to the bytes cached |
| GrfVfs.CacheInsertKeeps | src/extractors/grf_vfs.py:688-704 | caching keeps a dict within the limit; data over the limit is not cached; otherwise only the oldest entries go and the new one is most recent |
| GrfVfs.Fetch | src/extractors/grf_vfs.py:591-635 | data is read only for an indexed path whose archive is loaded; it is non-empty and not rejected by the size check; an unindexed path reads nothing and counts nothing |
| GrfVfs.FetchFile | src/extractors/grf_vfs.py:591-635 | the uncached path of `read_file` computes `Fetch` |
| GrfVfs.DirKey | src/extractors/grf_vfs.py:540-542 | the directory key ends with a slash |
| GrfVfs.FirstComponent | src/extractors/grf_vfs.py:551 | the part before the first slash |
| GrfVfs.Children | src/extractors/grf_vfs.py:545-553 | a name is listed exactly when it is the non-empty first component of some path below the directory |
| GrfVfs.Matching | src/extractors/grf_vfs.py:660-665 | a path is kept exactly when it is indexed and contains the query |
| GrfVfs.Vfs.constructor | src/extractors/grf_vfs.py:400-420 | nothing loaded, indexed or cached; the limit is the size in MiB; all counters 0 |
| GrfVfs.Vfs.AddArchive | src/extractors/grf_vfs.py:444-449 | the archive is added in priority order and the index is rebuilt when asked |
| GrfVfs.Vfs.MergeFileIndex | src/extractors/grf_vfs.py:463-475 | the index becomes the merge of the old index and the new one; nothing else changes |
| GrfVfs.Vfs.MergeArchive | src/extractors/grf_vfs.py:487-496 | one archive's entries are merged under their own paths |
| GrfVfs.Vfs.RebuildIndex | src/extractors/grf_vfs.py:477-509 | the index becomes the merge of every archive, lowest priority first |
| GrfVfs.Vfs.FileExists | src/extractors/grf_vfs.py:557-568 | true exactly when the normalised path is indexed |
| GrfVfs.Vfs.GetFileInfo | src/extractors/grf_vfs.py:637-648 | an entry exactly when the file exists |
| GrfVfs.Vfs.ListDirectory | src/extractors/grf_vfs.py:529-555 | the distinct first components below the directory, strictly sorted |
| GrfVfs.Vfs.SearchFiles | src/extractors/grf_vfs.py:650-667 | exactly the indexed paths containing the lower-cased query, sorted |
| GrfVfs.Vfs.ClearCache | src/extractors/grf_vfs.py:683-686 | the cache is empty and its size 0; nothing else changes |
| GrfVfs.Vfs.CacheFile | src/extractors/grf_vfs.py:688-704 | the cache becomes `CacheInsert`, keeping the size invariant |
| GrfVfs.Vfs.Touch | src/extractors/grf_vfs.py:586-587 | a hit moves the path to the most recent end |
| GrfVfs.Vfs.ReadFile | src/extractors/grf_vfs.py:570-635 | a hit returns the cached bytes, moves them to the most recent end and counts a hit; a miss counts a miss, returns `Fetch`'s data, caches it when present, and adds its failures, fallbacks and a read |
| GrfExtractor.ParseHeader | src/extractors/grf_extractor.py:380-424 | the header is read exactly when the 46 bytes are there and start with the signature; it holds the table offset, the stored count less 7 and the version, whatever the version is |
| GrfExtractor.RecordEntry | src/extractors/grf_extractor.py:489-498 | a record's entry has the decoded name, the uncompressed size, the offset counted from the file's start, the aligned size as its compressed size (the uncompressed size when the aligned size is 0), and is encrypted exactly when a crypt flag is set |
| GrfExtractor.ListStep | src/extractors/grf_extractor.py:455-499 | one pass of the table loop moves past at least the 17 metadata bytes and the NUL, and adds at most one entry |
| GrfExtractor.ListFromStep | src/extractors/grf_extractor.py:455-499 | a pass that succeeds leaves the rest of the listing to the state it reaches |
| GrfExtractor.ListFromGrows | src/extractors/grf_extractor.py:455-499 | the loop only appends, and at most one entry per 18 bytes remaining |
| GrfExtractor.ParseFileListBound | src/extractors/grf_extractor.py:426-506 | a table of n bytes lists at most n / 18 files |
| GrfExtractor.RecordListed | src/extractors/grf_extractor.py:457-499 | a whole record in a table is listed, unless it is a directory, and the listing goes on after it |
| GrfExtractor.RecordStep | src/extractors/grf_extractor.py:457-499 | the pass over a whole record moves right past it and adds its entry unless it is a directory |
| GrfExtractor.ListStepKept | src/extractors/grf_extractor.py:465-499 | with the metadata all there, the pass moves past it and adds the entry unless it is a directory |
| GrfExtractor.ListFromStops | src/extractors/grf_extractor.py:458-459 | a `break` ends the listing with the files gathered so far (also lines 465-466) |
| GrfExtractor.ReadFileTable | src/extractors/grf_extractor.py:452-499 | the parsing loop computes `ParseFileList` |
| GrfExtractor.ReadListRecord | src/extractors/grf_extractor.py:457-499 | one pass of the loop body computes `ListStep`, `stop` standing for a `break` |
| GrfExtractor.OpenImage | src/extractors/grf_extractor.py:159-193 | an archive opens only when its file is there with a valid header, and its files are the parse of a table that inflated (also lines 426-506) |
| GrfExtractor.LookupKey | src/extractors/grf_extractor.py:257 | the key has the path's length and no forward slash |
| GrfExtractor.LookupKeyIgnoresCase | src/extractors/grf_extractor.py:257 | paths differing only in letter case or slash direction have the same key (also lines 261) |
| GrfExtractor.FindEntry | src/extractors/grf_extractor.py:260-263 | none exactly when no entry's key matches; otherwise the first entry whose key matches |
| GrfExtractor.ReadAt | src/extractors/grf_extractor.py:270-273 | a read returns at most the bytes asked for, and exactly them when they are all there |
| GrfExtractor.DecompressFileData | src/extractors/grf_extractor.py:301-378 | encrypted data without DES fails; equal sizes or a non-positive compressed size keep the bytes; inflated data is kept when within 10 bytes of the size; after another zlib error the raw bytes are kept only when they have the size |
| GrfExtractor.EqualSizesStoredRaw | src/extractors/grf_extractor.py:331 | a file stored with equal sizes is decrypted at most and never inflated (also lines 369-371) |
| GrfExtractor.ReadFile | src/extractors/grf_extractor.py:243-299 | a file read is never empty, and a path no entry matches reads nothing |
| GrfExtractor.ReadArchive | src/extractors/grf_extractor.py:380-506 | the reading steps of `open` compute `OpenImage` |
| GrfExtractor.GrfExtractor.constructor | src/extractors/grf_extractor.py:101-118 | a new extractor is closed |
| GrfExtractor.GrfExtractor.Close | src/extractors/grf_extractor.py:195-207 | closing leaves the extractor closed with its path |
| GrfExtractor.GrfExtractor.Open | src/extractors/grf_extractor.py:159-193 | opening succeeds exactly when the archive reads; then the list, version and count are the archive's; otherwise the extractor is closed |
| GrfExtractor.GrfExtractor.ListFiles | src/extractors/grf_extractor.py:209-213 | nothing when closed, the listed files when open |
| GrfExtractor.GrfExtractor.FileData | src/extractors/grf_extractor.py:243-299 | a closed extractor reads nothing |
| GrfExtractor.GrfExtractor.GetFileData | src/extractors/grf_extractor.py:243-299 | reads nothing when closed; bytes read are non-empty and belong to a listed entry whose key matches the path |
| Hasher.MmapChunks | src/core/hasher.py:131-138 | the slices fed to the digest concatenate to the whole content; each is non-empty and at most four chunk sizes long, and all but the last are exactly four chunk sizes |
| Hasher.HashMmap | src/core/hasher.py:115-143 | `_hash_file_mmap` returns the digest of the whole content |
| Hasher.FeedResults | src/core/hasher.py:101-107 | the loop feeds exactly the reads before the first empty read, in order |
| Hasher.HashFile | src/core/hasher.py:66-113 | a missing file gives `None`, any other file a digest; a file over the mmap threshold is hashed whole; a smaller one is hashed over its reads up to the first empty one, which is the whole content when the reads deliver it in chunks |
| Hasher.HashFileBoth | src/core/hasher.py:244-280 | a missing file gives `(None, None)`; otherwise MD5 and SHA-256 are taken over the same bytes, the reads up to the first empty one |
| Hasher.CompareHashes | src/core/hasher.py:335-352 | `None` on either side never matches; equal hashes match; matching hashes have the same length |
| Hasher.CompareHashesSymmetric | src/core/hasher.py:335-352 | the comparison is symmetric |
| Hasher.CompareHashesTransitive | src/core/hasher.py:335-352 | the comparison is transitive |
| Hasher.CompareHashesIgnoresCase | src/core/hasher.py:351 | hashes that differ only in letter case match |
| Bytes.U16Bytes | src/parsers/act_parser.py:869 | `struct.pack('<H', v)` is two bytes that read back as `v` |
| Bytes.U32Bytes | src/parsers/act_parser.py:881 | `struct.pack('<I', v)` is four bytes that read back as `v` |
| Bytes.I32Bytes | src/parsers/act_parser.py:913 | `struct.pack('<i', v)` is four bytes that read back, as two's complement, as `v` |
| Bytes.Decode | src/parsers/act_parser.py:1006-1013 | one character per byte, with the byte's value |
| Bytes.Encode | src/parsers/act_parser.py:884 | one byte per character, the character's value modulo 256 |
| Bytes.DecodeEncode | src/parsers/act_parser.py:884 | decoding the encoding of latin-1 text gives the text back |
| Strings.Lower | src/core/comparator.py:283 | each ASCII capital is lowered, every other character kept |
| Strings.LowerIsLower | src/core/comparator.py:283 | lowering gives lower-case text, and lowering it again changes nothing |
| Strings.Find | src/gui/character_designer.py:568 | `str.find` gives -1 or an index where the query occurs, and no occurrence comes before it |
| Strings.FindOccurs | src/gui/character_designer.py:568-569 | the index is non-negative exactly when the query occurs |
| Strings.Ext | src/core/cataloger.py:152 | `os.path.splitext(p)[1]` is a suffix of the path that is empty or a dot followed by neither a slash nor a dot |
| Strings.Sort | src/extractors/grf_editor.py:418 | `sorted` returns a permutation of the strings in ascending order |
| Strings.SortedUnique | src/extractors/grf_editor.py:418 | only one ordering of given strings is sorted |
| Strings.IntToString | src/parsers/batch_exporter.py:166 | `str(i)` is a minus sign for a negative number followed by the digits of its magnitude |
| Strings.ParseNatToString | src/parsers/batch_exporter.py:166 | reading back the digits of a number gives the number |
| OrderedMaps.Get | src/core/config.py:332 | `dict.get` finds a value exactly when the key is present |
| OrderedMaps.Put | src/core/cataloger.py:269 | `d[k] = v` keeps the key order, replaces the value of a present key in place and appends a new key at the end |
| OrderedMaps.PutGet | src/core/cataloger.py:269 | after `d[k] = v`, `k` finds `v` and every other key finds what it found before |
| OrderedMaps.PutMembers | src/core/cataloger.py:269 | after `d[k] = v` every entry is the new one or an old one |
| OrderedMaps.Remove | src/extractors/grf_editor.py:320-321 | `del d[k]` leaves the key absent and adds no entry |
| OrderedMaps.RemoveGet | src/extractors/grf_editor.py:320-321 | after `del d[k]`, `k` finds nothing and every other key finds what it found before |
| OrderedMaps.PutAll | src/parsers/item_database.py:422-434 | storing pairs one after another never drops a key |
| OrderedMaps.PutAllGet | src/parsers/item_database.py:422-434 | after storing pairs, a key holds the value of its last pair, or its old value when no pair mentions it |
| OrderedMaps.PutEach | src/parsers/item_database.py:422-434 | the storing loop stores the pairs one after another |
| OrderedMaps.LastValue | src/parsers/item_database.py:422-434 | a key's last value exists exactly when the key occurs in the pairs, and is one of its pairs |
| OrderedMaps.PutSumBy | src/core/cataloger.py:269 | `d[k] = v` changes the sum of the values by the replaced value |
| ItemDatabase.HeadgearSlot | src/parsers/item_database.py:423-427 | the slot is 'headmid' exactly for ids 5000..5099, 'headlow' exactly for 5100..5199, otherwise 'headtop' |
| ItemDatabase.GuessWeaponType | src/parsers/item_database.py:641-672 | the type is 'Unknown' exactly outside 1100..1799 |
| ItemDatabase.GuessWeaponTypeByRange | src/parsers/item_database.py:641-672 | an id in one of the twelve ranges gets that range's type, and lies in no other range |
| ItemDatabase.LuaTable | src/parsers/item_database.py:498-529 | ids 2200..2999 and 5000..5999 go to headgear, 1100..1799 to weapons, 2100..2199 to shields, and no others are filed |
| ItemDatabase.LuaPairs | src/parsers/item_database.py:483-529 | the pairs stored into one dictionary are at most one per entry, each with an id filed there and an item carrying that id |
| ItemDatabase.LastName | src/parsers/item_database.py:483-493 | a name found for an id comes from a named entry with that id |
| ItemDatabase.HeadgearPairs | src/parsers/item_database.py:422-434 | one headgear item per default, with its id as sprite id and the slot of its range |
| ItemDatabase.WeaponPairs | src/parsers/item_database.py:437-443 | one weapon item per default, with its name and type |
| ItemDatabase.ShieldPairs | src/parsers/item_database.py:446-451 | one shield item per default, with its name |
| ItemDatabase.InsertById | src/parsers/item_database.py:712 | inserting into a list sorted by id keeps it sorted and adds exactly the one item |
| ItemDatabase.InsertStep | src/parsers/item_database.py:712 | an item behind the head is inserted into the tail without breaking the order |
| ItemDatabase.SortById | src/parsers/item_database.py:712 | `sorted(..., key=id)` returns a permutation of the items in ascending id order (also lines 716,  720) |
| ItemDatabase.Matching | src/parsers/item_database.py:732-736 | the matches are exactly the items whose lower-cased name contains the lower-cased query, taken from the items (also lines 740-752) |
| ItemDatabase.ItemDatabase.constructor | src/parsers/item_database.py:407-412 | three empty dictionaries and no sources loaded |
| ItemDatabase.ItemDatabase.LoadDefaults | src/parsers/item_database.py:414-455 | each default is stored in its dictionary, in order, and "defaults" is recorded as loaded |
| ItemDatabase.ItemDatabase.LoadFromLua | src/parsers/item_database.py:457-537 | success exactly when the file could be read; then each named entry is stored in the dictionary its id range selects and "lua:<path>" is recorded; otherwise nothing changes |
| ItemDatabase.LuaLookup | src/parsers/item_database.py:483-529 | after loading, an id holds the item built from its last named entry when its range files it there, otherwise what it held before |
| ItemDatabase.LuaLastValue | src/parsers/item_database.py:483-529 | the last pair stored for an id is the item of its last named entry, when filed there |
| ItemDatabase.LuaIgnoresUnfiled | src/parsers/item_database.py:498-529 | an id outside every range changes no dictionary |
| ItemDatabase.DefaultHeadgearLookup | src/parsers/item_database.py:422-434 | after loading the defaults, a listed id holds the headgear of its last default name, any other id what it held before |
| ItemDatabase.HeadgearLastValue | src/parsers/item_database.py:422-434 | the last pair stored for an id is the headgear of its last default name |
| ItemDatabase.ItemDatabase.GetHeadgearName | src/parsers/item_database.py:674-686 | a known id gives its name, an unknown one "Headgear <id>" |
| ItemDatabase.ItemDatabase.GetHeadgearInfo | src/parsers/item_database.py:688-690 | the item is found exactly when the id is known, and is the one stored under it |
| ItemDatabase.ItemDatabase.GetWeaponName | src/parsers/item_database.py:692-696 | a known id gives its name, an unknown one "Weapon <id>" |
| ItemDatabase.ItemDatabase.GetWeaponType | src/parsers/item_database.py:698-702 | a known id gives its stored type, an unknown one the type guessed from its range |
| ItemDatabase.ItemDatabase.GetShieldName | src/parsers/item_database.py:704-708 | a known id gives its name, an unknown one "Shield <id>" |
| ItemDatabase.ItemDatabase.GetAllHeadgear | src/parsers/item_database.py:710-712 | all headgear, each once, in ascending id order |
| ItemDatabase.ItemDatabase.GetAllWeapons | src/parsers/item_database.py:714-716 | all weapons, each once, in ascending id order |
| ItemDatabase.ItemDatabase.GetAllShields | src/parsers/item_database.py:718-720 | all shields, each once, in ascending id order |
| ItemDatabase.ItemDatabase.SearchHeadgear | src/parsers/item_database.py:722-736 | the results are exactly the headgear whose name contains the query, ignoring case |
| ItemDatabase.ItemDatabase.SearchWeapons | src/parsers/item_database.py:738-752 | the results are exactly the weapons whose name contains the query, ignoring case |
| PalParser.Grayscale | src/parsers/pal_parser.py:101-103 | 256 colours: index 0 fully transparent black, every other index i the opaque grey (i, i, i) |
| PalParser.SolidPalette | src/parsers/pal_parser.py:267-268 | 256 colours: index 0 transparent black, the other 255 all the given colour |
| PalParser.LoadedColor | src/parsers/pal_parser.py:154-166 | colour i takes its RGB from bytes 4i..4i+2; index 0 gets alpha 0, every other index a non-zero alpha that is the stored one unless that was 0 |
| PalParser.Loaded | src/parsers/pal_parser.py:151-166 | the loaded palette has 256 colours, each decoded from its own four bytes |
| PalParser.Saved | src/parsers/pal_parser.py:184-193 | the buffer exists exactly when the palette has at most 256 colours; it is 1024 bytes, entry i holds colour i and entries past the palette stay zero |
| PalParser.EntriesEqual | src/parsers/pal_parser.py:184-193 | two 1024-byte buffers with the same 256 entries are equal |
| PalParser.SavedLayout | src/parsers/pal_parser.py:184-193 | any buffer laid out entry by entry with a zero tail is the saved buffer |
| PalParser.SaveLoadRoundTrip | src/parsers/pal_parser.py:138-193 | saving a 256-colour palette with a transparent index 0 and non-zero other alphas and loading it back gives the same palette |
| PalParser.LoadSaveLoad | src/parsers/pal_parser.py:138-193 | any loaded palette survives a save and reload unchanged |
| PalParser.PalParser.constructor | src/parsers/pal_parser.py:94-103 | a new parser has no file name, is not loaded and holds the grayscale palette |
| PalParser.PalParser.LoadFromBytes | src/parsers/pal_parser.py:138-171 | succeeds exactly when there are at least 1024 bytes; then the palette is the decoded one and the parser is loaded; otherwise nothing changes |
| PalParser.PalParser.SaveBytes | src/parsers/pal_parser.py:173-200 | the loop produces the specified buffer, or nothing where `save` would fail |
| PalParser.PalParser.GetColor | src/parsers/pal_parser.py:202-214 | an index inside the palette gives its colour; any other index gives transparent black |
| PalParser.PalParser.SetColor | src/parsers/pal_parser.py:216-225 | an index inside the palette replaces that one colour; any other index changes nothing |
| PalParser.CreateGrayscale | src/parsers/pal_parser.py:237-251 | a fresh, not loaded parser holding the grayscale palette |
| PalParser.CreateSolidPalette | src/parsers/pal_parser.py:254-269 | a fresh, not loaded parser holding the solid palette of the colour |
| SprParser.PaletteFrom | src/parsers/spr_parser.py:585-592 | n entries of four bytes each |
| SprParser.PaletteFromEntry | src/parsers/spr_parser.py:585-592 | entry i is colour i's RGBA bytes while there are colours, and four zeros after |
| SprParser.CreatePaletteFromColors | src/parsers/spr_parser.py:573-592 | a 1024-byte palette whose entry i is colour i, or four zeros past the given colours |
| SprParser.DefaultPalette | src/parsers/spr_parser.py:74 | a 1024-byte palette whose entry i is the opaque grey (i, i, i, 255) |
| SprParser.FitTo | src/parsers/spr_parser.py:201-204 | the result has exactly the asked length: a prefix of a long enough input, or the input padded with zeros |
| SprParser.RleFrom | src/parsers/spr_parser.py:516-530 | the decoding loop only appends to what it has produced so far |
| SprParser.Rle | src/parsers/spr_parser.py:500-543 | the decoded pixels always have exactly the expected size, padded or truncated |
| SprParser.DecompressRle | src/parsers/spr_parser.py:500-543 | the loop computes the specified decoding, of exactly the expected size |
| SprParser.ZeroRun | src/parsers/spr_parser.py:522-527 | a run of zeros within the limit; non-empty whenever the input starts with a zero |
| SprParser.RleFromLiteral | src/parsers/spr_parser.py:528-530 | a non-zero byte is copied as one pixel |
| SprParser.RleFromRun | src/parsers/spr_parser.py:522-527 | a zero followed by n expands to n zero pixels |
| SprParser.EncodeRun | src/parsers/spr_parser.py:522-527 | the encoder writes a leading zero run as a zero byte and its length |
| SprParser.RleFromEncode | src/parsers/spr_parser.py:516-530 | decoding the encoding of pixels that fit appends exactly those pixels |
| SprParser.RleFromEncodeLiteral | src/parsers/spr_parser.py:528-530 | the same when the pixels start with a non-zero byte |
| SprParser.RleFromEncodeRun | src/parsers/spr_parser.py:522-527 | the same when the pixels start with a zero run |
| SprParser.RleRoundTrip | src/parsers/spr_parser.py:500-543 | decoding the run-length encoding of any pixels at their own size gives the pixels back |
| SprParser.RleFromLiterals | src/parsers/spr_parser.py:528-530 | input without zeros is copied through unchanged |
| SprParser.LiteralsCopied | src/parsers/spr_parser.py:516-537 | input without zeros decodes to itself padded with zeros to the expected size |
| SprParser.ReadIndexed | src/parsers/spr_parser.py:413-462 | fails exactly when the width and height, or for a non-empty frame from version 1.1 on the size word, run past the data; an empty frame has no pixels; from 1.1 the pixels are the RLE decoding of the sized block, before 1.1 the raw width*height bytes; the offset advances past what was read |
| SprParser.ReadIndexedFrame | src/parsers/spr_parser.py:413-462 | the reader computes the specified frame and offset |
| SprParser.ReadRgba | src/parsers/spr_parser.py:464-498 | fails exactly when the width and height run past the data; otherwise the frame holds width*height*4 raw bytes and the offset advances past them |
| SprParser.IndexedFrom | src/parsers/spr_parser.py:388-390 | reading n indexed frames appends exactly n frames |
| SprParser.RgbaFrom | src/parsers/spr_parser.py:393-395 | reading n RGBA frames appends exactly n frames |
| SprParser.PaletteAt | src/parsers/spr_parser.py:397-403 | the palette is always 1024 bytes: the bytes after the frames if there are enough, the default palette otherwise |
| SprParser.ParseSpr | src/parsers/spr_parser.py:343-411 | short data or a wrong signature is refused; a parsed sprite has the version (major, minor) from bytes 3 and 2, as many indexed frames as the count word says, RGBA frames only from version 2.0 and then as many as their count word says, and a 1024-byte palette |
| SprParser.FramesStartAt | src/parsers/spr_parser.py:380-403 | with no frames the palette starts right after the 8-byte (2.0+) or 6-byte header |
| SprParser.IndexedFrameHeader | src/parsers/spr_parser.py:429-447 | a written frame carries its width, height and compressed size where the reader looks |
| SprParser.IndexedFramePayload | src/parsers/spr_parser.py:447-452 | the compressed block sits right after the size word |
| SprParser.IndexedFrameRoundTrip | src/parsers/spr_parser.py:413-462 | from version 1.1 on, an RLE frame written anywhere in a file reads back as the same frame, with the offset just past it |
| SprParser.SprSprite.constructor | src/parsers/spr_parser.py:122-147 | a new sprite has the given version, no frames, an empty palette and no path |
| SprParser.SprSprite.TotalFrames | src/parsers/spr_parser.py:148-155 | indexed plus RGBA frames |
| SprParser.SprSprite.GetFrame | src/parsers/spr_parser.py:165-188 | a global index inside the total picks that frame from the indexed frames followed by the RGBA frames; anything else gives nothing |
| SprParser.SprSprite.SetPalette | src/parsers/spr_parser.py:190-204 | the palette becomes the data cut or zero-padded to 1024 bytes; nothing else changes |
| SprParser.SetPaletteKeeps | src/parsers/spr_parser.py:201-204 | each palette byte is the given byte where there is one and zero otherwise |
| SprParser.ReadIndexedFrames | src/parsers/spr_parser.py:388-390 | the loop computes the specified indexed frames |
| SprParser.ReadRgbaFrames | src/parsers/spr_parser.py:393-395 | the loop computes the specified RGBA frames |
| SprParser.LoadFromBytes | src/parsers/spr_parser.py:343-411 | returns a fresh sprite exactly when the data parses, holding the parsed sprite |
| SprFallback.StrictFrom | src/parsers/spr_parser_fallback.py:52-71 | the strict decoding loop only appends, never beyond the expected length, and fails when a skip overshoots it |
| SprFallback.DecompressStrict | src/parsers/spr_parser_fallback.py:26-87 | empty data or a non-positive length gives nothing; a result has exactly the asked length and the decoding reached at least 90% of it before padding |
| SprFallback.DecodeRuns | src/parsers/spr_parser_fallback.py:47-71 | on a zeroed buffer the in-place loop succeeds exactly when the strict decoding does, writes that decoding at the front and leaves the rest zero |
| SprFallback.DecompressRleStrict | src/parsers/spr_parser_fallback.py:26-87 | the array version computes the specified decoding |
| SprFallback.StrictFromLiteral | src/parsers/spr_parser_fallback.py:67-71 | a non-zero byte is one pixel |
| SprFallback.StrictFromRun | src/parsers/spr_parser_fallback.py:55-62 | a zero and n skip n zero pixels when they fit |
| SprFallback.StrictFromAgrees | src/parsers/spr_parser_fallback.py:52-71 | wherever the strict loop succeeds it produces what the lenient SPR decoder produces |
| SprFallback.StrictAgrees | src/parsers/spr_parser_fallback.py:26-87 | every successful strict decompression equals the lenient decompression of spr_parser.py:500-543 |
| SprFallback.StrictFromEncode | src/parsers/spr_parser_fallback.py:52-71 | the strict loop decodes the encoding of pixels that fit into exactly those pixels |
| SprFallback.StrictFromEncodeLiteral | src/parsers/spr_parser_fallback.py:67-71 | the same for pixels starting with a non-zero byte |
| SprFallback.StrictFromEncodeRun | src/parsers/spr_parser_fallback.py:55-62 | the same for pixels starting with a zero run |
| SprFallback.StrictRoundTrip | src/parsers/spr_parser_fallback.py:26-87 | strict decompression of the run-length encoding of any non-empty pixels at their own length gives them back |
| SprFallback.ArgbToRgba | src/parsers/spr_parser_fallback.py:131-139 | the converted row keeps its length |
| SprFallback.ArgbToRgbaPixel | src/parsers/spr_parser_fallback.py:131-139 | each pixel (A, R, G, B) becomes (R, G, B, A) |
| SprFallback.RowsFit | src/parsers/spr_parser_fallback.py:125-127 | every source row lies inside the image |
| SprFallback.FlippedFrom | src/parsers/spr_parser_fallback.py:125-143 | the flipped image from row y on has h - y rows |
| SprFallback.RowOfPrefix | src/parsers/spr_parser_fallback.py:141-143 | joining more rows leaves earlier rows in place |
| SprFallback.RowOfLast | src/parsers/spr_parser_fallback.py:141-143 | the last joined row is the one appended |
| SprFallback.FlippedRow | src/parsers/spr_parser_fallback.py:125-143 | output row k is the converted source row h - 1 - k |
| SprFallback.Padded | src/parsers/spr_parser_fallback.py:113-116 | short data is padded to the expected size and keeps its bytes at the front |
| SprFallback.ConvertBgra32 | src/parsers/spr_parser_fallback.py:90-148 | empty data or a non-positive side gives nothing; otherwise width*height*4 bytes |
| SprFallback.FlippedPixel | src/parsers/spr_parser_fallback.py:125-139 | pixel x of output row y is source pixel x of row h - 1 - y with its channels rotated |
| SprFallback.ConvertBgra32Pixel | src/parsers/spr_parser_fallback.py:90-148 | the conversion flips the image vertically and turns every ARGB pixel into RGBA, reading zero padding where the data is short |
| SprFallback.ConvertRow | src/parsers/spr_parser_fallback.py:131-141 | the loop converts one row as specified |
| SprFallback.FlipRows | src/parsers/spr_parser_fallback.py:121-143 | the loop builds the flipped, converted image |
| SprFallback.ConvertBgra32ToRgba | src/parsers/spr_parser_fallback.py:90-148 | the method computes the specified conversion |
| SprFallback.FallbackIndexed | src/parsers/spr_parser_fallback.py:203-257 | with less than four bytes left the loop stops; a zero side gives an empty 0x0 frame; otherwise version 2.1 and later read an RLE block, earlier versions raw pixels; a read frame ends inside the data |
| SprFallback.RawPixels | src/parsers/spr_parser_fallback.py:244-250 | the raw pixels are read exactly when they fit, and the offset moves past them |
| SprFallback.RlePixels | src/parsers/spr_parser_fallback.py:223-243 | a missing size word or a block past the end stops; a block that decodes strictly gives those pixels; one that does not is kept as raw pixels only when it is exactly width*height bytes, and stops otherwise |
| SprFallback.FallbackRgba | src/parsers/spr_parser_fallback.py:260-297 | with less than four bytes left the loop stops; a zero side gives an empty 0x0 frame; otherwise the RGBA pixels |
| SprFallback.RgbaPixels | src/parsers/spr_parser_fallback.py:279-294 | the pixels are read exactly when they fit and are the flipped ARGB-to-RGBA conversion |
| SprFallback.FallbackIndexedFrom | src/parsers/spr_parser_fallback.py:203-257 | the indexed loop keeps the frames read so far and reads at most the counted number |
| SprFallback.FallbackRgbaFrom | src/parsers/spr_parser_fallback.py:260-297 | the RGBA loop keeps the frames read so far and reads at most the counted number |
| SprFallback.ParseSprFallback | src/parsers/spr_parser_fallback.py:151-316 | refuses fewer than 8 bytes, a wrong signature, a major version outside 1 to 3 and counts over 1000; a result has the file's version, at least one frame, no more frames than counted, RGBA frames only from 2.0, and a 1024-byte palette |
| SprFallback.ReadRlePixels | src/parsers/spr_parser_fallback.py:223-243 | the method computes the specified RLE frame step |
| SprFallback.ReadFallbackIndexed | src/parsers/spr_parser_fallback.py:203-257 | the method computes the specified indexed frame step |
| SprFallback.ReadFallbackRgba | src/parsers/spr_parser_fallback.py:260-297 | the method computes the specified RGBA frame step |
| SprFallback.ReadFallbackIndexedFrames | src/parsers/spr_parser_fallback.py:203-257 | the loop computes the specified indexed frames and end offset |
| SprFallback.ReadFallbackRgbaFrames | src/parsers/spr_parser_fallback.py:260-297 | the loop computes the specified RGBA frames and end offset |
| SprFallback.ParseSprFallbackBytes | src/parsers/spr_parser_fallback.py:151-316 | returns a fresh sprite exactly when the data parses, holding the parsed sprite |
| VfsExtractor.Detect | src/extractors/vfs_extractor.py:187-244 | accepted only for a .vfs or .idx extension in any case, with both companion files present, a 16-byte header, a version of at most 1000 and at most 1000000 files; a missing file or short header is refused |
| VfsExtractor.StripNuls | src/extractors/vfs_extractor.py:484 | `rstrip(b'\x00')`: a prefix of the name ending in a non-NUL byte, with only NULs cut |
| VfsExtractor.EntryPath | src/extractors/vfs_extractor.py:484-485 | one character per kept byte, with no backslash left |
| VfsExtractor.RecordAt | src/extractors/vfs_extractor.py:482-501 | the record holds the name bytes, the four little-endian words after them and the three flag bytes, each flag set exactly when its byte is non-zero |
| VfsExtractor.ToEntry | src/extractors/vfs_extractor.py:473-501 | the entry carries the record's path and every field unchanged |
| VfsExtractor.RecordsFrom | src/extractors/vfs_extractor.py:472-506 | the entry loop keeps the records read so far and reads at most the counted number |
| VfsExtractor.Records | src/extractors/vfs_extractor.py:472-490 | at most file_count records are read; a short read ends the loop |
| VfsExtractor.StoreAllSnoc | src/extractors/vfs_extractor.py:505-506 | storing one more record is one more dict assignment |
| VfsExtractor.ParseIdx | src/extractors/vfs_extractor.py:447-508 | the index parses exactly when the header is 16 bytes long |
| VfsExtractor.LastStored | src/extractors/vfs_extractor.py:505-506 | the entry a path ends up with is the last live record of that path, and there is none exactly when every record of that path is deleted |
| VfsExtractor.StoreAllGet | src/extractors/vfs_extractor.py:505-506 | after storing the records, a path maps to its last live record, or keeps its earlier entry |
| VfsExtractor.StoreWellFormed | src/extractors/vfs_extractor.py:505-506 | one assignment keeps the table free of duplicates, keyed by path, with no deleted entry and no backslash |
| VfsExtractor.StoreAllWellFormed | src/extractors/vfs_extractor.py:472-506 | the whole loop keeps that invariant |
| VfsExtractor.ParseIdxWellFormed | src/extractors/vfs_extractor.py:447-508 | a parsed table has no duplicate path and no deleted entry, and each path maps to its last live record in the file |
| VfsExtractor.EntryBytes | src/extractors/vfs_extractor.py:476-501 | one index entry is a 2-byte length, the name and 20 bytes of fields |
| VfsExtractor.EntryRead | src/extractors/vfs_extractor.py:476-501 | an entry laid out in the index reads back as the same name, words and flags |
| VfsExtractor.EntryReadStep | src/extractors/vfs_extractor.py:472-506 | the loop consumes such an entry and records exactly it |
| VfsExtractor.FieldsRead | src/extractors/vfs_extractor.py:476-501 | bytes carrying the fields at their offsets read back as that record |
| VfsExtractor.FieldsOfEntry | src/extractors/vfs_extractor.py:476-501 | a laid-out entry carries each field at the offset the reader uses |
| VfsExtractor.ParseIdxFile | src/extractors/vfs_extractor.py:447-508 | the method computes the specified table |
| VfsExtractor.ReadRecords | src/extractors/vfs_extractor.py:472-501 | the loop computes the specified records |
| VfsExtractor.StoreRecords | src/extractors/vfs_extractor.py:505-506 | the loop computes the specified table |
| VfsExtractor.Pow2 | src/extractors/vfs_extractor.py:526 | a power of two is at least 1 |
| VfsExtractor.XorBits | src/extractors/vfs_extractor.py:526 | bitwise exclusive or of the low k bits: below 2^k, and the low bit is set exactly when the operands' low bits differ |
| VfsExtractor.XorBitsTwice | src/extractors/vfs_extractor.py:526 | exclusive or with the same value twice is the identity |
| VfsExtractor.XorTwice | src/extractors/vfs_extractor.py:526 | the same for one byte |
| VfsExtractor.Xored | src/extractors/vfs_extractor.py:522-528 | the decrypted data has the length of the input |
| VfsExtractor.XoredTwice | src/extractors/vfs_extractor.py:510-528 | decrypting twice with the same non-empty key gives the data back |
| VfsExtractor.DecryptData | src/extractors/vfs_extractor.py:510-528 | each output byte is the input byte xor the key byte at i mod the key length, of the same length |
| VfsExtractor.BlocksFrom | src/extractors/vfs_extractor.py:549-569 | the chunk loop only appends |
| VfsExtractor.Take | src/extractors/vfs_extractor.py:571 | `result[:expected]`: a prefix of at most n bytes, the whole when it is short enough |
| VfsExtractor.Blocks | src/extractors/vfs_extractor.py:530-575 | the result is never longer than the expected size |
| VfsExtractor.FrameParts | src/extractors/vfs_extractor.py:554-562 | a frame is the size word, the chunk and the rest |
| VfsExtractor.FirstChunk | src/extractors/vfs_extractor.py:554-562 | framed chunks start with the first chunk's size word and bytes |
| VfsExtractor.BlocksFromStep | src/extractors/vfs_extractor.py:549-569 | one pass reads one frame and appends its unpacked bytes |
| VfsExtractor.FramedChunksRead | src/extractors/vfs_extractor.py:549-571 | reading framed chunks appends all of them, up to the cut |
| VfsExtractor.FirstChunkRead | src/extractors/vfs_extractor.py:549-569 | the first frame is consumed first |
| VfsExtractor.JoinedFirst | src/extractors/vfs_extractor.py:565-569 | the joined chunks are the first chunk's bytes followed by the rest |
| VfsExtractor.BlocksFromFull | src/extractors/vfs_extractor.py:549 | once the expected size is reached the loop stops |
| VfsExtractor.TakeLong | src/extractors/vfs_extractor.py:571 | the cut ignores anything past the expected size |
| VfsExtractor.FramedChunksDecode | src/extractors/vfs_extractor.py:530-575 | data made of framed chunks decodes to the chunks unpacked one after another, cut at the expected size |
| VfsExtractor.TruncatedTailIgnored | src/extractors/vfs_extractor.py:551-558 | a short or truncated frame at the end is ignored |
| VfsExtractor.ChunkAt | src/extractors/vfs_extractor.py:554-562 | the chunk read at an offset is the bytes after its size word |
| VfsExtractor.DecompressBlocks | src/extractors/vfs_extractor.py:530-575 | the loop computes the specified decoding |
| VfsExtractor.FindInsensitive | src/extractors/vfs_extractor.py:388-392 | the first entry whose path matches ignoring case, and none exactly when no path matches |
| VfsExtractor.Lookup | src/extractors/vfs_extractor.py:382-396 | with '\\' turned into '/', an exact match wins; otherwise the first case-insensitive match; none exactly when no path matches ignoring case |
| VfsExtractor.EntryData | src/extractors/vfs_extractor.py:407-441 | a plain entry is the stored bytes; a block-compressed result is never longer than the uncompressed size |
| VfsExtractor.FetchData | src/extractors/vfs_extractor.py:407-441 | the method computes the specified read |
| VfsExtractor.EncryptedRoundTrip | src/extractors/vfs_extractor.py:415-416 | an encrypted, uncompressed entry written with a key reads back as the plaintext with that key |
| VfsExtractor.Listed | src/extractors/vfs_extractor.py:326-332 | the reported entry has the path, the uncompressed size, the offset and the encryption flag; its compressed size is the stored one when non-zero, and the uncompressed size when that is 0 |
| VfsExtractor.ListedAll | src/extractors/vfs_extractor.py:312-339 | exactly the live entries are listed, in order |
| VfsExtractor.ListedAllSnoc | src/extractors/vfs_extractor.py:321-333 | one more entry adds its listing unless it is deleted |
| VfsExtractor.ListedAllOfWellFormed | src/extractors/vfs_extractor.py:312-339 | for a parsed table every entry is listed, in order |
| VfsExtractor.VfsArchive.constructor | src/extractors/vfs_extractor.py:143-166 | a new archive has no entries, no handle, is not open and uses the default key |
| VfsExtractor.VfsArchive.Close | src/extractors/vfs_extractor.py:294-310 | close drops the handle, the paths and the entries and keeps the key and the open flag |
| VfsExtractor.VfsArchive.OpenAsWritten | src/extractors/vfs_extractor.py:246-292 | open as written: succeeds exactly when both files exist and the index parses, then holds the parsed table and the data file; the open flag is never set |
| VfsExtractor.VfsArchive.Open | src/extractors/vfs_extractor.py:246-292 | the corrected open: the same, with the open flag set exactly on success |
| VfsExtractor.VfsArchive.SetXorKey | src/extractors/vfs_extractor.py:577-587 | the key is replaced and nothing else changes |
| VfsExtractor.VfsArchive.FileData | src/extractors/vfs_extractor.py:369-445 | no data for a path not in the table or without an open data file |
| VfsExtractor.VfsArchive.GetFileData | src/extractors/vfs_extractor.py:369-445 | the method returns the specified data, and nothing without a data file |
| VfsExtractor.VfsArchive.FindEntry | src/extractors/vfs_extractor.py:382-396 | the method finds the specified entry |
| VfsExtractor.VfsArchive.ListFiles | src/extractors/vfs_extractor.py:312-339 | the loop lists exactly the specified entries |
| VfsExtractor.OpenedArchiveRefusesExtractAll | src/extractors/base_extractor.py:232-233 | an archive opened successfully by the code as written still makes `extract_all` refuse to run |
| VfsExtractor.OpenedArchiveExtractsAll | src/extractors/base_extractor.py:232-233 | with the corrected open the same archive is extracted, counting no more files than it holds |

## Left out

- File and OS I/O (open, seek, read, write, `os.walk`, `getsize`, `makedirs`, copies, mmap) is not modelled. Instead, the bytes a read delivers, the file existences and the file sizes are parameters. Writing an archive, palette, ACT file or image gives the byte buffer that would be written.
- zlib, LZMA, DES, MD5 and SHA-256 are function parameters, because they are library code outside the repository. This includes the zlib inflate of the GRF file table. Their errors (`zlib.error`, `LZMAError`, a DES exception) become `None`.
- Exceptions in general are modelled only where the code catches them and returns a value. Each such `except` becomes a `None`, a `False` or a stop of the loop, as the handler does.
- The database layer (SQLAlchemy sessions and queries) in the comparator and the character designer is left out. Stored baseline hashes, and the rows a query returns, are parameters.
- Threads are left out: `hash_files_parallel`'s thread pool, the GUI workers and progress callbacks.
- The Qt GUI and PIL rendering are left out, since drawing pixels is outside the model:
  - `get_frame_image`, `to_image`, sprite compositing, sheet pasting, fonts and thumbnails;
  - `SpriteCompositor.render_frame`, `load_sprite`, `set_resource_path` and `get_sprite_path`.
- Floating point is left out: ACT frame delays and speeds as numbers, palette `create_gradient` and `create_hue_shifted`, and `get_statistics`' size in MB. ACT scale, rotation and speed values are carried as raw 32-bit patterns. The percentage tolerances (0.9, 0.8–1.2, 10 %) are written as the equivalent integer inequalities.
- `fnmatch` glob patterns (`GRFVirtualFileSystem.list_files`, `find_files`) are left out, and so is the Lua regex extraction. Only the id-range filing of the extracted `(id, name)` pairs is modelled.
- `GRFVirtualFileSystem.set_file_index` and `get_statistics` are not modelled. The cache and lookup counters they report are kept in the modelled statistics.
- `GRFArchive` open, `_read_header`, `close`, `get_entry` and `list_entries` are not modelled, because they are file access. `read_file_data` and the table parse are modelled. `load_grf`'s `os.path.isfile` test is not modelled.
- `GRFEditor.open`, `add_directory` and `create_grf_from_directory` are not modelled; they walk or read the disk. `add_file` takes the file's bytes as an optional parameter, where `None` stands for an unreadable file.
- `VFSExtractor.extract_file` writes files and is not modelled. Neither are the constant properties `game_name`, `supported_extensions` and `extractor_id`, or `__repr__`. `detect` takes the file existences and the first 16 bytes of the index as parameters.
- `PALParser.load` (a file read) is not modelled, nor is `to_image`. `save` is modelled as the 1024-byte buffer it writes.
- `SPRParser.load` and `load_palette` are file reads and are not modelled. `get_frame_image` is rendering. `get_size`, `is_indexed`, `is_rgba`, `get_indexed_count` and `get_rgba_count` are one-line field reads and are not modelled either.
- `export_headgear_spritesheet` and `export_all_jobs_preview` are modelled through their sheet layout only (`SheetSize`, `CellInside`). `export_comparison_sheet` is not modelled. The rendered frame counts are a parameter, and `math.ceil` is integer ceiling division.
- `CustomSpriteDetector.check_sprite`'s `os.path.exists` test is not modelled, because both of its branches return 'vanilla'. A database error in `load_baseline_from_db` keeps the baseline, which is what its handler does. `JOB_DATA`, `DEFAULT_HEADGEAR`, `DEFAULT_WEAPONS` and `DEFAULT_SHIELDS` are parameters rather than transcribed literal tables.
- Config JSON reading and writing is not modelled. `load` receives the parsed dictionary, and `save` gives the dictionary that would be written.
- The asset cataloger sees each file as a path and a size; the directory scan that produces them is not modelled.
- Bytes.Decode: reads stored text as latin-1, one character per byte. `_read_string` tries UTF-8 and then EUC-KR before latin-1, and the GRF tables decode EUC-KR with `errors='replace'`. The three agree only on ASCII, so the round trips that go through this decoding are stated for ASCII names and paths.
- ActRoundTrip.EventNameRoundTrip: stated only for ASCII event names, because the source's UTF-8/EUC-KR-first decoding reads some latin-1 byte pairs back as a different character.
- ActRoundTrip.SaveLoadRoundTrip: stated only for ASCII event names, for the same reason. Frame delays are floats and do not take part.
- ActEditor.Editor.SetFrameDelay: states only whether the addressed frame exists and when the editor is marked modified; the new delay is a float and is not stored in the model.
- ActWriter.SaveAct: a `struct.pack` that would raise is `None`. That covers a count over 65535, a field out of its range, or a name character outside latin-1.
- GrfEditor.BuildHeader: requires that the file count plus 7 and the table offset fit in 32 bits, where the source's `struct.pack` would raise. `_write_grf`'s model checks the same bounds and returns `None` when they fail.
- Strings.Lower: lower-cases ASCII letters only. Python's `str.lower()` also lower-cases other alphabets, so path keys and name searches that contain non-ASCII capitals differ.
- Strings.Ext: is `posixpath.splitext` and splits on '/' only. The Windows `ntpath` variant also splits on '\\'.
- BatchExporter.JoinPath: is POSIX `os.path.join`, joining with '/'. The Windows `ntpath` variant joins with '\\' and treats drive letters, which the model does not.
- GrfEditor.ImageOpens: the read-back lemmas (also GrfEditor.FileReadsBack, GrfEditor.ListedFound, GrfEditor.ListedKey, GrfEditor.PathBytes) are stated for non-zero ASCII paths and an EUC-KR codec that encodes ASCII as itself. The extractor decodes names with `errors='replace'`, so a non-ASCII name is not claimed to read back.
- GrfEditor.FileReadsBack: stated for non-zero ASCII paths only, for the reason given for GrfEditor.ImageOpens.
- GrfEditor.ListedFound: stated for non-zero ASCII paths only, for the reason given for GrfEditor.ImageOpens.
- GrfEditor.ListedKey: stated for non-zero ASCII paths only, for the reason given for GrfEditor.ImageOpens.
- GrfEditor.PathBytes: stated for non-zero ASCII paths only, for the reason given for GrfEditor.ImageOpens.
- GrfEditor.NameBytes: the EUC-KR codec is a parameter of the writer, since Python's codec is not part of this model; its bare `except:` is modelled as the codec returning nothing.
- VfsExtractor.DecryptData: requires a non-empty key whenever the data is non-empty, because `i % len(key)` raises ZeroDivisionError there. A caller can reach that through `set_xor_key(b"")`. The modelled `get_file_data` returns `None` in that case, as its `except` handler does.
- Hasher.MmapChunks: requires a positive chunk size. At chunk size 0 the `_hash_file_mmap` loop never advances on a non-empty file.
- Hasher.HashFile: requires a positive chunk size. At chunk size 0 `readinto` reads nothing, so the source would return the digest of the empty string. Every caller uses the default of 256 KiB.
- GrfVfs.Vfs.CacheFile: requires that the path is not already cached, because `_cache_file` is only called on a cache miss.

## Findings

| source | as written | input that shows it | evidently intended | confidence | as-written member | corrected member |
|---|---|---|---|---|---|---|
| src/extractors/base_extractor.py:232-233 | `VFSExtractor.open` returns True but never sets `_is_open` (base_extractor.py:85), so `extract_all` on an opened archive raises "Archive is not open" | any well-formed .idx/.vfs pair, opened and then passed to `extract_all` | a successful `open` sets `_is_open`, as `GRFExtractor.open` does | not executed | VfsExtractor.VfsArchive.OpenAsWritten, VfsExtractor.OpenedArchiveRefusesExtractAll | VfsExtractor.VfsArchive.Open, VfsExtractor.OpenedArchiveExtractsAll |
