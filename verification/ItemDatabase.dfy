/** `ItemDatabase`: item names, equipment slots and weapon types, in three
    dictionaries keyed by item id (headgear, weapons, shields), filled from the
    built-in tables or from the entries of a client `itemInfo.lua`. A
    dictionary is an ordered sequence of (id, item) pairs, in Python's
    insertion order. The built-in tables are inputs; the Lua file is the
    sequence of its entries as the entry pattern finds them. */
module ItemDatabase {
  import opened Wrappers
  import opened Strings
  import opened OrderedMaps

  /** `ItemInfo`, and `WeaponInfo` with its weapon type (the empty string for
      headgear and shields). Korean name, description, view class, level and
      attack are never set by the loaders modelled here and are left out. */
  datatype ItemInfo = ItemInfo(id: int, name: string, slot: string, spriteId: int, weaponType: string)

  /** The dictionary an item id is filed in. */
  datatype Table = HeadgearTable | WeaponTable | ShieldTable

  /** The headgear slot by id range: middle 5000-5099, lower 5100-5199, top
      for every other id. */
  function HeadgearSlot(id: int): (r: string)
    ensures r in {"headtop", "headmid", "headlow"}
    ensures r == "headmid" <==> 5000 <= id < 5100
    ensures r == "headlow" <==> 5100 <= id < 5200
  {
    if 5000 <= id < 5100 then "headmid"
    else if 5100 <= id < 5200 then "headlow"
    else "headtop"
  }

  function Headgear(id: int, name: string): ItemInfo {
    ItemInfo(id, name, HeadgearSlot(id), id, "")
  }

  function Weapon(id: int, name: string, weaponType: string): ItemInfo {
    ItemInfo(id, name, "weapon", 0, weaponType)
  }

  function Shield(id: int, name: string): ItemInfo {
    ItemInfo(id, name, "shield", 0, "")
  }

  /** The weapon type ranges, in the order `_guess_weapon_type` tests them. */
  const WEAPON_RANGES: seq<(int, int, string)> := [
    (1100, 1150, "Sword"), (1150, 1200, "Two-Hand Sword"), (1200, 1250, "Dagger"),
    (1250, 1300, "Katar"), (1300, 1400, "Axe"), (1400, 1500, "Spear"),
    (1500, 1550, "Mace"), (1550, 1600, "Book"), (1600, 1650, "Staff"),
    (1650, 1700, "Two-Hand Staff"), (1700, 1750, "Bow"), (1750, 1800, "Instrument/Whip")
  ]

  /** `_guess_weapon_type`: the type of the range the id falls in. */
  function GuessWeaponType(id: int): (r: string)
    ensures r == "Unknown" <==> !(1100 <= id < 1800)
  {
    if 1100 <= id < 1150 then "Sword"
    else if 1150 <= id < 1200 then "Two-Hand Sword"
    else if 1200 <= id < 1250 then "Dagger"
    else if 1250 <= id < 1300 then "Katar"
    else if 1300 <= id < 1400 then "Axe"
    else if 1400 <= id < 1500 then "Spear"
    else if 1500 <= id < 1550 then "Mace"
    else if 1550 <= id < 1600 then "Book"
    else if 1600 <= id < 1650 then "Staff"
    else if 1650 <= id < 1700 then "Two-Hand Staff"
    else if 1700 <= id < 1750 then "Bow"
    else if 1750 <= id < 1800 then "Instrument/Whip"
    else "Unknown"
  }

  /** The ranges tile 1100..1800 with no gap or overlap, and the guess is the
      type of the one range that holds the id. */
  lemma GuessWeaponTypeByRange(id: int, k: nat)
    requires k < |WEAPON_RANGES| && WEAPON_RANGES[k].0 <= id < WEAPON_RANGES[k].1
    ensures GuessWeaponType(id) == WEAPON_RANGES[k].2
    ensures forall j :: 0 <= j < |WEAPON_RANGES| && j != k ==> !(WEAPON_RANGES[j].0 <= id < WEAPON_RANGES[j].1)
  {
  }

  /** The dictionary `load_from_lua` files an id in, or none: headgear
      2200-2999 and 5000-5999, weapons 1100-1799, shields 2100-2199. */
  function LuaTable(id: int): (r: Option<Table>)
    ensures r == Some(HeadgearTable) <==> 2200 <= id < 3000 || 5000 <= id < 6000
    ensures r == Some(WeaponTable) <==> 1100 <= id < 1800
    ensures r == Some(ShieldTable) <==> 2100 <= id < 2200
  {
    if 2200 <= id < 3000 || 5000 <= id < 6000 then Some(HeadgearTable)
    else if 1100 <= id < 1800 then Some(WeaponTable)
    else if 2100 <= id < 2200 then Some(ShieldTable)
    else None
  }

  /** The item `load_from_lua` builds for an id of the given dictionary. */
  function LuaItem(t: Table, id: int, name: string): ItemInfo {
    match t
    case HeadgearTable => Headgear(id, name)
    case WeaponTable => Weapon(id, name, GuessWeaponType(id))
    case ShieldTable => Shield(id, name)
  }

  /** One match of the entry pattern: the id in brackets, and the display
      name if the entry has an `identifiedDisplayName`. */
  datatype LuaEntry = LuaEntry(id: nat, name: Option<string>)

  /** The pairs `load_from_lua` stores into dictionary `t`, in order: the
      named entries whose id it files there. */
  function LuaPairs(entries: seq<LuaEntry>, t: Table): (r: seq<(int, ItemInfo)>)
    ensures |r| <= |entries|
    ensures forall i :: 0 <= i < |r| ==> LuaTable(r[i].0) == Some(t) && r[i].1.id == r[i].0
  {
    if entries == [] then []
    else
      var e := entries[|entries| - 1];
      var before := LuaPairs(entries[..|entries| - 1], t);
      if e.name.Some? && LuaTable(e.id) == Some(t) then before + [(e.id as int, LuaItem(t, e.id, e.name.value))]
      else before
  }

  /** The name of the last named entry with this id, if any. */
  function LastName(entries: seq<LuaEntry>, id: int): (r: Option<string>)
    ensures r.Some? ==> id >= 0 && LuaEntry(id as nat, r) in entries
  {
    if entries == [] then None
    else
      var e := entries[|entries| - 1];
      if e.id == id && e.name.Some? then e.name
      else LastName(entries[..|entries| - 1], id)
  }

  /** The pairs `load_defaults` stores into each dictionary. */
  function HeadgearPairs(table: seq<(int, string)>): (r: seq<(int, ItemInfo)>)
    ensures |r| == |table|
    ensures forall i :: 0 <= i < |r| ==> r[i] == (table[i].0, Headgear(table[i].0, table[i].1))
  {
    seq(|table|, i requires 0 <= i < |table| => (table[i].0, Headgear(table[i].0, table[i].1)))
  }

  function WeaponPairs(table: seq<(int, (string, string))>): (r: seq<(int, ItemInfo)>)
    ensures |r| == |table|
    ensures forall i :: 0 <= i < |r| ==> r[i] == (table[i].0, Weapon(table[i].0, table[i].1.0, table[i].1.1))
  {
    seq(|table|, i requires 0 <= i < |table| => (table[i].0, Weapon(table[i].0, table[i].1.0, table[i].1.1)))
  }

  function ShieldPairs(table: seq<(int, string)>): (r: seq<(int, ItemInfo)>)
    ensures |r| == |table|
    ensures forall i :: 0 <= i < |r| ==> r[i] == (table[i].0, Shield(table[i].0, table[i].1))
  {
    seq(|table|, i requires 0 <= i < |table| => (table[i].0, Shield(table[i].0, table[i].1)))
  }

  /** Items in ascending id order. */
  predicate SortedById(items: seq<ItemInfo>) {
    forall i, j :: 0 <= i < j < |items| ==> items[i].id <= items[j].id
  }

  function InsertById(x: ItemInfo, items: seq<ItemInfo>): (r: seq<ItemInfo>)
    requires SortedById(items)
    ensures SortedById(r) && multiset(r) == multiset(items) + multiset{x}
    ensures |r| == |items| + 1 && (r[0] == x || (|items| > 0 && r[0] == items[0]))
  {
    if items == [] then [x]
    else if x.id <= items[0].id then [x] + items
    else
      var t := InsertById(x, items[1..]);
      InsertStep(x, items, t);
      [items[0]] + t
  }

  /** Putting the first item in front of the insertion into the rest, when
      `x` goes after it, keeps the ids ascending and adds just `x`. */
  lemma InsertStep(x: ItemInfo, items: seq<ItemInfo>, t: seq<ItemInfo>)
    requires SortedById(items) && items != [] && items[0].id < x.id
    requires SortedById(t) && multiset(t) == multiset(items[1..]) + multiset{x}
    ensures SortedById([items[0]] + t) && multiset([items[0]] + t) == multiset(items) + multiset{x}
  {
    var h, rest := items[0], items[1..];
    assert items == [h] + rest;
    forall k | 0 <= k < |t|
      ensures h.id <= t[k].id
    {
      assert t[k] in multiset(t);
      if t[k] != x {
        assert t[k] in multiset(rest);
        var m :| 0 <= m < |rest| && rest[m] == t[k];
        assert ([h] + rest)[0] == h && ([h] + rest)[m + 1] == rest[m];
      }
    }
    forall i, j | 0 <= i < j < |[h] + t|
      ensures ([h] + t)[i].id <= ([h] + t)[j].id
    {
      if i > 0 {
        assert ([h] + t)[i] == t[i - 1] && ([h] + t)[j] == t[j - 1];
      } else {
        assert ([h] + t)[j] == t[j - 1];
      }
    }
  }

  /** `sorted(items, key=lambda x: x.id)`: ascending ids, the same items. */
  function SortById(items: seq<ItemInfo>): (r: seq<ItemInfo>)
    ensures SortedById(r) && multiset(r) == multiset(items)
  {
    if items == [] then []
    else
      assert items == [items[0]] + items[1..];
      InsertById(items[0], SortById(items[1..]))
  }

  /** The search filter: the items, in order, whose lower-cased name contains
      the lower-cased query. */
  function Matching(items: seq<ItemInfo>, query: string): (r: seq<ItemInfo>)
    ensures |r| <= |items|
    ensures forall x :: x in r <==> x in items && Occurs(Lower(query), Lower(x.name))
  {
    if items == [] then []
    else
      var last := items[|items| - 1];
      var before := Matching(items[..|items| - 1], query);
      assert items == items[..|items| - 1] + [last];
      if Occurs(Lower(query), Lower(last.name)) then before + [last] else before
  }

  /** The name a headgear table gives `id`, or "Headgear <id>". */
  function HeadgearName(headgear: seq<(int, ItemInfo)>, id: int): string {
    match Get(headgear, id)
    case Some(item) => item.name
    case None => "Headgear " + IntToString(id)
  }

  class ItemDatabase {
    var headgear: seq<(int, ItemInfo)>
    var weapons: seq<(int, ItemInfo)>
    var shields: seq<(int, ItemInfo)>
    var loadedSources: seq<string>

    /** `__init__`: three empty dictionaries, nothing loaded. */
    constructor ()
      ensures headgear == [] && weapons == [] && shields == [] && loadedSources == []
    {
      headgear, weapons, shields, loadedSources := [], [], [], [];
    }

    /** `load_defaults`: every entry of each built-in table stored in table
        order (a headgear's slot from its id, its sprite id its item id; a
        weapon with its listed type), then "defaults" recorded. */
    method LoadDefaults(defaultHeadgear: seq<(int, string)>, defaultWeapons: seq<(int, (string, string))>,
                        defaultShields: seq<(int, string)>)
      modifies this
      ensures headgear == PutAll(old(headgear), HeadgearPairs(defaultHeadgear))
      ensures weapons == PutAll(old(weapons), WeaponPairs(defaultWeapons))
      ensures shields == PutAll(old(shields), ShieldPairs(defaultShields))
      ensures loadedSources == old(loadedSources) + ["defaults"]
    {
      headgear := PutEach(headgear, HeadgearPairs(defaultHeadgear));
      weapons := PutEach(weapons, WeaponPairs(defaultWeapons));
      shields := PutEach(shields, ShieldPairs(defaultShields));
      loadedSources := loadedSources + ["defaults"];
    }

    /** `load_from_lua`: `entries` is `None` when the file does not exist or
        cannot be read, and the load fails changing nothing. Otherwise each
        named entry is stored in the dictionary its id range selects (entries
        outside every range are skipped) and "lua:<path>" is recorded. */
    method LoadFromLua(path: string, entries: Option<seq<LuaEntry>>) returns (ok: bool)
      modifies this
      ensures ok <==> entries.Some?
      ensures !ok ==> headgear == old(headgear) && weapons == old(weapons) && shields == old(shields)
                      && loadedSources == old(loadedSources)
      ensures ok ==> headgear == PutAll(old(headgear), LuaPairs(entries.value, HeadgearTable))
      ensures ok ==> weapons == PutAll(old(weapons), LuaPairs(entries.value, WeaponTable))
      ensures ok ==> shields == PutAll(old(shields), LuaPairs(entries.value, ShieldTable))
      ensures ok ==> loadedSources == old(loadedSources) + ["lua:" + path]
    {
      if entries.None? {
        return false;
      }
      var es := entries.value;
      for i := 0 to |es|
        invariant headgear == PutAll(old(headgear), LuaPairs(es[..i], HeadgearTable))
        invariant weapons == PutAll(old(weapons), LuaPairs(es[..i], WeaponTable))
        invariant shields == PutAll(old(shields), LuaPairs(es[..i], ShieldTable))
        invariant loadedSources == old(loadedSources)
      {
        var e := es[i];
        assert es[..i + 1][..i] == es[..i];
        if e.name.None? {
          continue;
        }
        var table := LuaTable(e.id);
        if table.None? {
          continue;
        }
        var t := table.value;
        var item := LuaItem(t, e.id, e.name.value);
        PutAllSnoc(old(headgear), LuaPairs(es[..i], t), (e.id, item));
        PutAllSnoc(old(weapons), LuaPairs(es[..i], t), (e.id, item));
        PutAllSnoc(old(shields), LuaPairs(es[..i], t), (e.id, item));
        match t
        case HeadgearTable => headgear := Put(headgear, e.id, item);
        case WeaponTable => weapons := Put(weapons, e.id, item);
        case ShieldTable => shields := Put(shields, e.id, item);
      }
      assert es[..|es|] == es;
      loadedSources := loadedSources + ["lua:" + path];
      return true;
    }

    /** `get_headgear_name`: the stored name, or "Headgear <id>". */
    function GetHeadgearName(id: int): (r: string)
      reads this
      ensures Get(headgear, id).Some? ==> r == Get(headgear, id).value.name
      ensures Get(headgear, id).None? ==> r == "Headgear " + IntToString(id)
    {
      HeadgearName(headgear, id)
    }

    /** `get_headgear_info` */
    function GetHeadgearInfo(id: int): (r: Option<ItemInfo>)
      reads this
      ensures r.Some? <==> id in Keys(headgear)
      ensures r.Some? ==> (id, r.value) in headgear
    {
      GetIn(headgear, id);
      Get(headgear, id)
    }

    /** `get_weapon_name`: the stored name, or "Weapon <id>". */
    function GetWeaponName(id: int): (r: string)
      reads this
      ensures Get(weapons, id).Some? ==> r == Get(weapons, id).value.name
      ensures Get(weapons, id).None? ==> r == "Weapon " + IntToString(id)
    {
      match Get(weapons, id)
      case Some(item) => item.name
      case None => "Weapon " + IntToString(id)
    }

    /** `get_weapon_type`: the stored type, or the guess from the id range. */
    function GetWeaponType(id: int): (r: string)
      reads this
      ensures Get(weapons, id).Some? ==> r == Get(weapons, id).value.weaponType
      ensures Get(weapons, id).None? ==> r == GuessWeaponType(id)
    {
      match Get(weapons, id)
      case Some(item) => item.weaponType
      case None => GuessWeaponType(id)
    }

    /** `get_shield_name`: the stored name, or "Shield <id>". */
    function GetShieldName(id: int): (r: string)
      reads this
      ensures Get(shields, id).Some? ==> r == Get(shields, id).value.name
      ensures Get(shields, id).None? ==> r == "Shield " + IntToString(id)
    {
      match Get(shields, id)
      case Some(item) => item.name
      case None => "Shield " + IntToString(id)
    }

    /** `get_all_headgear`: every stored headgear, in ascending id order. */
    function GetAllHeadgear(): (r: seq<ItemInfo>)
      reads this
      ensures SortedById(r) && multiset(r) == multiset(Values(headgear))
    {
      SortById(Values(headgear))
    }

    /** `get_all_weapons` */
    function GetAllWeapons(): (r: seq<ItemInfo>)
      reads this
      ensures SortedById(r) && multiset(r) == multiset(Values(weapons))
    {
      SortById(Values(weapons))
    }

    /** `get_all_shields` */
    function GetAllShields(): (r: seq<ItemInfo>)
      reads this
      ensures SortedById(r) && multiset(r) == multiset(Values(shields))
    {
      SortById(Values(shields))
    }

    /** `search_headgear`: case-insensitive substring match on the name. */
    function SearchHeadgear(query: string): (r: seq<ItemInfo>)
      reads this
      ensures forall x :: x in r <==> x in Values(headgear) && Occurs(Lower(query), Lower(x.name))
    {
      Matching(Values(headgear), query)
    }

    /** `search_weapons` */
    function SearchWeapons(query: string): (r: seq<ItemInfo>)
      reads this
      ensures forall x :: x in r <==> x in Values(weapons) && Occurs(Lower(query), Lower(x.name))
    {
      Matching(Values(weapons), query)
    }
  }

  /** After a Lua load, an id holds the item built from its last named entry
      when that entry's id range selects this dictionary, and keeps what it
      held otherwise. */
  lemma {:induction false} LuaLookup(d: seq<(int, ItemInfo)>, entries: seq<LuaEntry>, t: Table, id: int)
    ensures Get(PutAll(d, LuaPairs(entries, t)), id) ==
              if LuaTable(id) == Some(t) && LastName(entries, id).Some?
              then Some(LuaItem(t, id, LastName(entries, id).value))
              else Get(d, id)
  {
    PutAllGet(d, LuaPairs(entries, t), id);
    LuaLastValue(entries, t, id);
  }

  lemma {:induction false} LuaLastValue(entries: seq<LuaEntry>, t: Table, id: int)
    ensures LastValue(LuaPairs(entries, t), id) ==
              if LuaTable(id) == Some(t) && LastName(entries, id).Some?
              then Some(LuaItem(t, id, LastName(entries, id).value))
              else None
  {
    if entries != [] {
      LuaLastValue(entries[..|entries| - 1], t, id);
    }
  }

  /** After `load_defaults` a headgear id holds the item of its last row in
      the table, or what it held before when the table does not list it. */
  lemma {:induction false} DefaultHeadgearLookup(d: seq<(int, ItemInfo)>, table: seq<(int, string)>, id: int)
    ensures Get(PutAll(d, HeadgearPairs(table)), id) ==
              if LastValue(table, id).Some? then Some(Headgear(id, LastValue(table, id).value)) else Get(d, id)
  {
    PutAllGet(d, HeadgearPairs(table), id);
    HeadgearLastValue(table, id);
  }

  lemma {:induction false} HeadgearLastValue(table: seq<(int, string)>, id: int)
    ensures LastValue(HeadgearPairs(table), id) ==
              if LastValue(table, id).Some? then Some(Headgear(id, LastValue(table, id).value)) else None
  {
    if table != [] {
      var init := table[..|table| - 1];
      HeadgearLastValue(init, id);
      assert HeadgearPairs(table)[..|table| - 1] == HeadgearPairs(init);
    }
  }

  /** A Lua load never touches ids outside the three ranges. */
  lemma LuaIgnoresUnfiled(d: seq<(int, ItemInfo)>, entries: seq<LuaEntry>, t: Table, id: int)
    requires LuaTable(id).None?
    ensures Get(PutAll(d, LuaPairs(entries, t)), id) == Get(d, id)
  {
    LuaLookup(d, entries, t, id);
  }
}
