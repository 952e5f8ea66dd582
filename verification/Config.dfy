/** `Config`: the application settings, a dictionary started from the
    defaults, with typed setters that clamp or validate, and a modified flag.
    The JSON file behind `load` and `save` is an input: its parsed content, or
    the failure to read it. */
module Config {
  import opened Wrappers
  import opened OrderedMaps

  /** A JSON value as `json.load` produces it (floats, lists and objects are
      not distinguished from one another). */
  datatype Value = Str(s: string) | Int(i: int) | Bool(b: bool) | Null | Other

  const DEFAULTS: map<string, Value> := map[
    "asset_library_path" := Str(""),
    "quickbms_path" := Str("tools/quickbms.exe"),
    "bms_scripts_path" := Str("tools/scripts"),
    "default_output_path" := Str(""),
    "database_path" := Str("data/harvester.db"),
    "hash_algorithm" := Str("md5"),
    "max_file_size_mb" := Int(0),
    "extraction_threads" := Int(4),
    "overwrite_existing" := Bool(false),
    "generate_thumbnails" := Bool(true),
    "thumbnail_size" := Int(128),
    "catalog_format" := Str("json"),
    "remember_window_state" := Bool(true),
    "window_width" := Int(1400),
    "window_height" := Int(900),
    "theme" := Str("dark"),
    "debug_mode" := Bool(false),
    "show_hidden_files" := Bool(false)
  ]

  /** What reading the config file gives: no file, a file that is not valid
      JSON, or the key/value pairs of the JSON object, in file order. */
  datatype ConfigFile = Missing | Invalid | Parsed(items: seq<(string, Value)>)

  /** The merge step of `load`: each loaded key already in `data` takes the
      loaded value; any other key is ignored. */
  function Merge(data: map<string, Value>, items: seq<(string, Value)>): (r: map<string, Value>)
    ensures r.Keys == data.Keys
  {
    if items == [] then data
    else
      var last := items[|items| - 1];
      var before := Merge(data, items[..|items| - 1]);
      if last.0 in before then before[last.0 := last.1] else before
  }

  /** After the merge a known key holds the value of its last occurrence in
      the file, or its old value when the file does not mention it. */
  lemma {:induction false} MergeLookup(data: map<string, Value>, items: seq<(string, Value)>, k: string)
    requires k in data
    ensures Merge(data, items)[k] == LastValue(items, k).GetOr(data[k])
  {
    if items != [] {
      var n := |items| - 1;
      MergeLookup(data, items[..n], k);
    }
  }

  lemma MergeLastOccurrence(data: map<string, Value>, items: seq<(string, Value)>, k: string, i: nat)
    requires k in data && i < |items| && items[i].0 == k && forall j :: i < j < |items| ==> items[j].0 != k
    ensures Merge(data, items)[k] == items[i].1
  {
    MergeLookup(data, items, k);
    LastValueAt(items, k, i);
  }

  lemma MergeUnmentioned(data: map<string, Value>, items: seq<(string, Value)>, k: string)
    requires k in data && forall i :: 0 <= i < |items| ==> items[i].0 != k
    ensures Merge(data, items)[k] == data[k]
  {
    MergeLookup(data, items, k);
    assert k !in Keys(items);
  }

  /** `max(lo, min(hi, v))` */
  function Clamp(v: int, lo: int, hi: int): (r: int)
    requires lo <= hi
    ensures lo <= r <= hi
    ensures lo <= v <= hi ==> r == v
    ensures v < lo ==> r == lo
    ensures v > hi ==> r == hi
  {
    if v < lo then lo else if v > hi then hi else v
  }

  const HASH_ALGORITHMS: set<string> := {"md5", "sha256", "both"}

  class Config {
    var configPath: string
    var data: map<string, Value>
    var modified: bool

    /** Every default key is still present: nothing the class does removes a key. */
    predicate HasDefaultKeys()
      reads this
    {
      DEFAULTS.Keys <= data.Keys
    }

    /** `__init__`: the given path, or the default location when none is
        given; the data a copy of the defaults. */
    constructor (path: Option<string>, defaultLocation: string)
      ensures configPath == (if path.Some? && path.value != [] then path.value else defaultLocation)
      ensures data == DEFAULTS && !modified && HasDefaultKeys()
    {
      configPath := if path.Some? && path.value != [] then path.value else defaultLocation;
      data := DEFAULTS;
      modified := false;
    }

    /** `load`: false, changing nothing, when the file is missing or invalid;
        otherwise the loaded values merged into the known keys. */
    method Load(file: ConfigFile) returns (ok: bool)
      modifies this
      ensures ok <==> file.Parsed?
      ensures ok ==> data == Merge(old(data), file.items) && !modified
      ensures !ok ==> data == old(data) && modified == old(modified)
      ensures data.Keys == old(data.Keys) && configPath == old(configPath)
    {
      if !file.Parsed? {
        return false;
      }
      var items := file.items;
      for i := 0 to |items|
        invariant data == Merge(old(data), items[..i])
        invariant configPath == old(configPath)
      {
        assert items[..i + 1][..i] == items[..i];
        if items[i].0 in data {
          data := data[items[i].0 := items[i].1];
        }
      }
      assert items[..|items|] == items;
      modified := false;
      return true;
    }

    /** `save`: `written` is whether the file could be written. */
    method Save(written: bool) returns (ok: bool)
      modifies this
      ensures ok == written
      ensures modified == (if written then false else old(modified))
      ensures data == old(data) && configPath == old(configPath)
    {
      if written {
        modified := false;
      }
      return written;
    }

    /** `reset_to_defaults` */
    method ResetToDefaults()
      modifies this
      ensures data == DEFAULTS && modified && HasDefaultKeys()
      ensures configPath == old(configPath)
    {
      data := DEFAULTS;
      modified := true;
    }

    /** `get(key, default)` and the property getters, each with its own default. */
    function Get(key: string, default: Value): (r: Value)
      reads this
      ensures key in data ==> r == data[key]
      ensures key !in data ==> r == default
    {
      if key in data then data[key] else default
    }

    /** `config[key]`: a missing key raises `KeyError`, here `None`. */
    function GetItem(key: string): (r: Option<Value>)
      reads this
      ensures r.Some? <==> key in data
      ensures r.Some? ==> r.value == Get(key, Null)
    {
      if key in data then Some(data[key]) else None
    }

    /** `set(key, value)` and `config[key] = value` */
    method Set(key: string, value: Value)
      modifies this
      ensures data == old(data)[key := value] && modified
      ensures Get(key, Null) == value
      ensures old(HasDefaultKeys()) ==> HasDefaultKeys()
      ensures configPath == old(configPath)
    {
      data := data[key := value];
      modified := true;
    }

    method SetAssetLibraryPath(value: string)
      modifies this
      ensures data == old(data)["asset_library_path" := Str(value)] && modified
      ensures old(HasDefaultKeys()) ==> HasDefaultKeys()
      ensures configPath == old(configPath)
    {
      Set("asset_library_path", Str(value));
    }

    method SetQuickbmsPath(value: string)
      modifies this
      ensures data == old(data)["quickbms_path" := Str(value)] && modified
      ensures old(HasDefaultKeys()) ==> HasDefaultKeys()
      ensures configPath == old(configPath)
    {
      Set("quickbms_path", Str(value));
    }

    method SetDatabasePath(value: string)
      modifies this
      ensures data == old(data)["database_path" := Str(value)] && modified
      ensures old(HasDefaultKeys()) ==> HasDefaultKeys()
      ensures configPath == old(configPath)
    {
      Set("database_path", Str(value));
    }

    /** The `hash_algorithm` setter: a value other than md5, sha256 or both
        raises `ValueError` (here `false`) and changes nothing. */
    method SetHashAlgorithm(value: string) returns (ok: bool)
      modifies this
      ensures ok <==> value in HASH_ALGORITHMS
      ensures ok ==> data == old(data)["hash_algorithm" := Str(value)] && modified
      ensures !ok ==> data == old(data) && modified == old(modified)
      ensures Get("hash_algorithm", Str("md5")) in (set a | a in HASH_ALGORITHMS :: Str(a))
                || Get("hash_algorithm", Str("md5")) == old(Get("hash_algorithm", Str("md5")))
      ensures old(HasDefaultKeys()) ==> HasDefaultKeys()
      ensures configPath == old(configPath)
    {
      if value !in HASH_ALGORITHMS {
        return false;
      }
      Set("hash_algorithm", Str(value));
      return true;
    }

    method SetDebugMode(value: bool)
      modifies this
      ensures data == old(data)["debug_mode" := Bool(value)] && modified
      ensures old(HasDefaultKeys()) ==> HasDefaultKeys()
      ensures configPath == old(configPath)
    {
      Set("debug_mode", Bool(value));
    }

    method SetGenerateThumbnails(value: bool)
      modifies this
      ensures data == old(data)["generate_thumbnails" := Bool(value)] && modified
      ensures old(HasDefaultKeys()) ==> HasDefaultKeys()
      ensures configPath == old(configPath)
    {
      Set("generate_thumbnails", Bool(value));
    }

    /** The `extraction_threads` setter: clamped to 1..16. */
    method SetExtractionThreads(value: int)
      modifies this
      ensures data == old(data)["extraction_threads" := Int(Clamp(value, 1, 16))] && modified
      ensures Get("extraction_threads", Int(4)).Int? && 1 <= Get("extraction_threads", Int(4)).i <= 16
      ensures 1 <= value <= 16 ==> Get("extraction_threads", Int(4)) == Int(value)
      ensures old(HasDefaultKeys()) ==> HasDefaultKeys()
      ensures configPath == old(configPath)
    {
      Set("extraction_threads", Int(Clamp(value, 1, 16)));
    }

    /** The `thumbnail_size` setter: clamped to 32..512. */
    method SetThumbnailSize(value: int)
      modifies this
      ensures data == old(data)["thumbnail_size" := Int(Clamp(value, 32, 512))] && modified
      ensures Get("thumbnail_size", Int(128)).Int? && 32 <= Get("thumbnail_size", Int(128)).i <= 512
      ensures 32 <= value <= 512 ==> Get("thumbnail_size", Int(128)) == Int(value)
      ensures old(HasDefaultKeys()) ==> HasDefaultKeys()
      ensures configPath == old(configPath)
    {
      Set("thumbnail_size", Int(Clamp(value, 32, 512)));
    }
  }

  /** Clamping twice is clamping once. */
  lemma ClampIdempotent(v: int, lo: int, hi: int)
    requires lo <= hi
    ensures Clamp(Clamp(v, lo, hi), lo, hi) == Clamp(v, lo, hi)
  {
  }

  /** A file holding only the defaults' own values leaves the defaults
      unchanged, whatever unknown keys it adds. */
  lemma {:induction false} MergeDefaultsOnly(items: seq<(string, Value)>)
    requires forall i :: 0 <= i < |items| && items[i].0 in DEFAULTS ==> items[i].1 == DEFAULTS[items[i].0]
    ensures Merge(DEFAULTS, items) == DEFAULTS
  {
    if items != [] {
      MergeDefaultsOnly(items[..|items| - 1]);
    }
  }
}
