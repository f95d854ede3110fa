/**
 The driver's rule lists: which list a registry value belongs to, and how the decoded items
 are grouped by rule id.
 */
module Loader {
  import opened Bytes
  import opened Bits
  import opened Addresses
  import opened Options
  import opened Matching
  import opened RuleCodec

  const BLOCKLIST_MAX := 32000
  const CONFIG_GROUP_MAX := 256
  const LIST_MAX := 65535
  const LIST_COUNT := 26

  // ----- value names

  /** The list types in the order of the driver's table. */
  function ListAt(i: nat): nat {
    if i == 0 then 0x10 else 0xCF + i
  }

  predicate IsList(list: nat) {
    list == 0x10 || 0xD0 <= list <= 0xE8
  }

  function IndexOf(list: nat): nat
    requires IsList(list)
  {
    if list == 0x10 then 0 else list - 0xCF
  }

  function PrefixAt(i: nat): string
    requires i < LIST_COUNT
  {
    match i
    case 0 => "CFG_PBL_"
    case 1 => "CFG_PINC_"
    case 2 => "CFG_PEXC_"
    case 3 => "CFG_PTINC_"
    case 4 => "CFG_PTEXC_"
    case 5 => "CFG_TBL_"
    case 6 => "CFG_TINC_"
    case 7 => "CFG_TEXC_"
    case 8 => "CFG_MBL_"
    case 9 => "CFG_MINC_"
    case 10 => "CFG_MEXC"
    case 11 => "CFG_OBL_"
    case 12 => "CFG_OINC_"
    case 13 => "CFG_OEXC_"
    case 14 => "CFG_RBL_"
    case 15 => "CFG_RINC_"
    case 16 => "CFG_REXC_"
    case 17 => "CFG_FCBL_"
    case 18 => "CFG_FCINC_"
    case 19 => "CFG_FCEXC_"
    case 20 => "CFG_FSBL_"
    case 21 => "CFG_FSINC_"
    case 22 => "CFG_FSEXC_"
    case 23 => "CFG_WBL_"
    case 24 => "CFG_WINC_"
    case 25 => "CFG_WEXC_"
  }

  function Folded(c: char): int {
    if 'A' <= c <= 'Z' then c as int + 32 else c as int
  }

  /** The name starts with the prefix, upper and lower case being the same. */
  predicate HasPrefix(prefix: string, name: string) {
    |prefix| <= |name| && forall i :: 0 <= i < |prefix| ==> Folded(prefix[i]) == Folded(name[i])
  }

  /** The list whose prefix the name carries, 0 if there is none. */
  method ResolveValueName(name: string) returns (list: nat)
    ensures list == Resolve(name)
  {
    for i := 0 to LIST_COUNT
      invariant ResolveFrom(name, 0) == ResolveFrom(name, i)
    {
      if |name| >= |PrefixAt(i)| && HasPrefix(PrefixAt(i), name) {
        return ListAt(i);
      }
    }
    return 0;
  }

  function ResolveFrom(name: string, i: nat): nat
    requires i <= LIST_COUNT
    decreases LIST_COUNT - i
  {
    if i == LIST_COUNT then 0
    else if HasPrefix(PrefixAt(i), name) then ListAt(i)
    else ResolveFrom(name, i + 1)
  }

  function Resolve(name: string): nat {
    ResolveFrom(name, 0)
  }

  /** The four characters behind "CFG_", as one number; every prefix has them. */
  function Key(name: string): int
    requires |name| >= 8
  {
    Folded(name[4]) * 0x100_0000 + Folded(name[5]) * 0x1_0000 + Folded(name[6]) * 0x100 + Folded(name[7])
  }

  /** The table position a key belongs to. */
  function Position(key: int): nat {
    if key == 0x70_62_6C_5F then 0 else if key == 0x70_69_6E_63 then 1 else if key == 0x70_65_78_63 then 2
    else if key == 0x70_74_69_6E then 3 else if key == 0x70_74_65_78 then 4 else if key == 0x74_62_6C_5F then 5
    else if key == 0x74_69_6E_63 then 6 else if key == 0x74_65_78_63 then 7 else if key == 0x6D_62_6C_5F then 8
    else if key == 0x6D_69_6E_63 then 9 else if key == 0x6D_65_78_63 then 10 else if key == 0x6F_62_6C_5F then 11
    else if key == 0x6F_69_6E_63 then 12 else if key == 0x6F_65_78_63 then 13 else if key == 0x72_62_6C_5F then 14
    else if key == 0x72_69_6E_63 then 15 else if key == 0x72_65_78_63 then 16 else if key == 0x66_63_62_6C then 17
    else if key == 0x66_63_69_6E then 18 else if key == 0x66_63_65_78 then 19 else if key == 0x66_73_62_6C then 20
    else if key == 0x66_73_69_6E then 21 else if key == 0x66_73_65_78 then 22 else if key == 0x77_62_6C_5F then 23
    else if key == 0x77_69_6E_63 then 24 else 25
  }

  lemma KeyOfPrefix(i: nat)
    requires i < LIST_COUNT
    ensures |PrefixAt(i)| >= 8 && Position(Key(PrefixAt(i))) == i
  {
  }

  lemma SameKey(prefix: string, name: string)
    requires |prefix| >= 8
    ensures HasPrefix(prefix, name) ==> |name| >= 8 && Key(prefix) == Key(name)
  {
  }

  lemma {:induction false} ResolvesTo(name: string, from: nat, i: nat)
    requires from <= i < LIST_COUNT && HasPrefix(PrefixAt(i), name)
    ensures ResolveFrom(name, from) == ListAt(i)
    decreases i - from
  {
    if from < i {
      KeyOfPrefix(from);
      KeyOfPrefix(i);
      SameKey(PrefixAt(from), name);
      SameKey(PrefixAt(i), name);
      ResolvesTo(name, from + 1, i);
    }
  }

  /** The prefixes are prefix-free: a name built for a list resolves to that list, whatever follows the prefix. */
  lemma NameResolves(list: nat, rest: string)
    requires IsList(list)
    ensures Resolve(PrefixAt(IndexOf(list)) + rest) == list
  {
    ResolvesTo(PrefixAt(IndexOf(list)) + rest, 0, IndexOf(list));
  }

  lemma {:induction false} ResolvedFrom(name: string, from: nat) returns (i: nat)
    requires from <= LIST_COUNT && ResolveFrom(name, from) != 0
    ensures i < LIST_COUNT && HasPrefix(PrefixAt(i), name) && ResolveFrom(name, from) == ListAt(i)
    decreases LIST_COUNT - from
  {
    if HasPrefix(PrefixAt(from), name) {
      i := from;
    } else {
      i := ResolvedFrom(name, from + 1);
    }
  }

  /** A name belongs to a list exactly when it carries the list's prefix. */
  lemma ResolvesIff(name: string, list: nat)
    requires IsList(list)
    ensures Resolve(name) == list <==> HasPrefix(PrefixAt(IndexOf(list)), name)
  {
    if Resolve(name) == list {
      var i := ResolvedFrom(name, 0);
    }
    if HasPrefix(PrefixAt(IndexOf(list)), name) {
      ResolvesTo(name, 0, IndexOf(list));
    }
  }

  // ----- grouping

  function Find(groups: seq<Group>, id: nat): (k: nat)
    ensures k <= |groups|
    ensures k < |groups| ==> groups[k].id == id
    ensures forall j :: 0 <= j < k ==> groups[j].id != id
  {
    if groups == [] || groups[0].id == id then 0 else
      1 + Find(groups[1..], id)
  }

  /** One item joins its group, or starts one at the end of the list. */
  function AddItem(groups: seq<Group>, l: Loaded): seq<Group> {
    var k := Find(groups, l.id);
    if k < |groups| then
      var g := groups[k];
      groups[k := Group(g.id, And(g.actions, l.actions), g.items + [l.item])]
    else groups + [Group(l.id, l.actions, [l.item])]
  }

  function Grouped(ls: seq<Loaded>): seq<Group> {
    if ls == [] then [] else AddItem(Grouped(ls[..|ls| - 1]), ls[|ls| - 1])
  }

  /** The items loaded under an id, in loading order. */
  function ItemsOf(ls: seq<Loaded>, id: nat): seq<Item> {
    if ls == [] then [] else
      var before, last := ItemsOf(ls[..|ls| - 1], id), ls[|ls| - 1];
      if last.id == id then before + [last.item] else before
  }

  /** The bitwise AND of the actions loaded under an id; all ones where there are none. */
  function ActionsOf(ls: seq<Loaded>, id: nat): Option<nat> {
    if ls == [] then None else
      var before, last := ActionsOf(ls[..|ls| - 1], id), ls[|ls| - 1];
      if last.id != id then before
      else if before.None? then Some(last.actions)
      else Some(And(before.value, last.actions))
  }

  /** The ids in the order of their first appearance. */
  function FirstIds(ls: seq<Loaded>): seq<nat> {
    if ls == [] then [] else
      var before, last := FirstIds(ls[..|ls| - 1]), ls[|ls| - 1];
      if last.id in before then before else before + [last.id]
  }

  function Ids(groups: seq<Group>): (s: seq<nat>)
    ensures |s| == |groups|
    ensures forall k :: 0 <= k < |groups| ==> s[k] == groups[k].id
  {
    seq(|groups|, k requires 0 <= k < |groups| => groups[k].id)
  }

  function Sizes(groups: seq<Group>): nat {
    if groups == [] then 0 else Sizes(groups[..|groups| - 1]) + |groups[|groups| - 1].items|
  }

  lemma {:induction false} SizesOfUpdate(groups: seq<Group>, k: nat, g: Group)
    requires k < |groups|
    ensures Sizes(groups[k := g]) == Sizes(groups) - |groups[k].items| + |g.items|
  {
    var last := |groups| - 1;
    if k == last {
      assert groups[k := g][..last] == groups[..last];
    } else {
      SizesOfUpdate(groups[..last], k, g);
      assert groups[k := g][..last] == groups[..last][k := g];
    }
  }

  lemma {:induction false} FirstIdsAre(ls: seq<Loaded>)
    ensures forall id: nat :: id in FirstIds(ls) <==> exists l :: l in ls && l.id == id
    ensures forall i, j :: 0 <= i < j < |FirstIds(ls)| ==> FirstIds(ls)[i] != FirstIds(ls)[j]
  {
    if ls != [] {
      FirstIdsAre(ls[..|ls| - 1]);
      assert ls == ls[..|ls| - 1] + [ls[|ls| - 1]];
      assert ls[|ls| - 1] in ls;
    }
  }

  /**
   One group per id, in order of first appearance, holding exactly the items loaded under the
   id in loading order, with the AND of their actions; no item is lost or counted twice.
   */
  ghost predicate IsGrouping(groups: seq<Group>, ls: seq<Loaded>) {
    && Ids(groups) == FirstIds(ls)
    && (forall k :: 0 <= k < |groups| ==>
      && groups[k].items == ItemsOf(ls, groups[k].id) != []
      && Some(groups[k].actions) == ActionsOf(ls, groups[k].id))
    && Sizes(groups) == |ls|
  }

  lemma {:induction false} JoinsGroup(groups: seq<Group>, ls: seq<Loaded>, l: Loaded)
    requires IsGrouping(groups, ls) && Find(groups, l.id) < |groups|
    ensures IsGrouping(AddItem(groups, l), ls + [l])
  {
    var k := Find(groups, l.id);
    var after := AddItem(groups, l);
    FirstIdsAre(ls);
    assert (ls + [l])[..|ls|] == ls;
    assert Ids(groups)[k] == l.id;
    assert Ids(after) == Ids(groups);
    SizesOfUpdate(groups, k, after[k]);
    forall j | 0 <= j < |groups| && j != k
      ensures after[j] == groups[j] && after[j].id != l.id
    {
      assert Ids(groups)[j] != Ids(groups)[k];
    }
  }

  lemma {:induction false} StartsGroup(groups: seq<Group>, ls: seq<Loaded>, l: Loaded)
    requires IsGrouping(groups, ls) && Find(groups, l.id) == |groups|
    ensures IsGrouping(AddItem(groups, l), ls + [l])
  {
    var after := AddItem(groups, l);
    assert (ls + [l])[..|ls|] == ls;
    assert l.id !in Ids(groups);
    NoneLoaded(ls, l.id);
    assert after[..|groups|] == groups;
    assert Ids(after) == Ids(groups) + [l.id];
    assert forall j :: 0 <= j < |groups| ==> after[j] == groups[j];
  }

  /** Loading refines grouping by id. */
  lemma {:induction false} GroupedById(ls: seq<Loaded>)
    ensures IsGrouping(Grouped(ls), ls)
  {
    if ls != [] {
      var before, last := ls[..|ls| - 1], ls[|ls| - 1];
      GroupedById(before);
      assert ls == before + [last];
      if Find(Grouped(before), last.id) < |Grouped(before)| {
        JoinsGroup(Grouped(before), before, last);
      } else {
        StartsGroup(Grouped(before), before, last);
      }
    }
  }

  lemma {:induction false} NoneLoaded(ls: seq<Loaded>, id: nat)
    requires id !in FirstIds(ls)
    ensures ItemsOf(ls, id) == [] && ActionsOf(ls, id) == None
  {
    if ls != [] {
      FirstIdsAre(ls);
      FirstIdsAre(ls[..|ls| - 1]);
      assert ls[|ls| - 1] in ls;
      NoneLoaded(ls[..|ls| - 1], id);
    }
  }

  lemma {:induction false} ItemsAre(ls: seq<Loaded>, id: nat)
    ensures forall item :: item in ItemsOf(ls, id) <==> exists l :: l in ls && l.id == id && l.item == item
  {
    if ls != [] {
      var before, last := ls[..|ls| - 1], ls[|ls| - 1];
      ItemsAre(before, id);
      assert ls == before + [last];
      assert last in ls;
    }
  }

  // ----- loading a registry key

  /** A registry value: binary data, or data of another type. */
  datatype Datum = Binary(bytes: seq<byte>) | Other

  /** The registry does not tell upper from lower case, so the model has every value name in upper case. */
  type ValueName = name: string | Uppercase(name) witness ""

  predicate Uppercase(name: string) {
    forall i :: 0 <= i < |name| ==> !('a' <= name[i] <= 'z')
  }

  /** The same character, or the two cases of one letter. */
  predicate SameLetter(c: char, d: char) {
    || c == d
    || ('A' <= c <= 'Z' && d as int == c as int + 32)
    || ('A' <= d <= 'Z' && c as int == d as int + 32)
  }

  /** Nothing depends on that choice: names that differ only in case belong to the same list. */
  lemma ResolveIgnoresCase(name: string, other: string)
    requires |name| == |other| && forall i :: 0 <= i < |name| ==> SameLetter(name[i], other[i])
    ensures Resolve(name) == Resolve(other)
  {
    SameFrom(name, other, 0);
  }

  lemma {:induction false} SameFrom(name: string, other: string, i: nat)
    requires |name| == |other| && forall k :: 0 <= k < |name| ==> Folded(name[k]) == Folded(other[k])
    requires i <= LIST_COUNT
    ensures ResolveFrom(name, i) == ResolveFrom(other, i)
    decreases LIST_COUNT - i
  {
    if i < LIST_COUNT {
      SameFrom(name, other, i + 1);
      assert HasPrefix(PrefixAt(i), name) <==> HasPrefix(PrefixAt(i), other);
    }
  }

  type Registry = map<ValueName, Datum>

  /**
   A name is terminated at twice its length in bytes, in a buffer of 4096 bytes whose first 12
   are taken: behind 1020 characters there is no room. A name too long for the buffer gets a
   larger one and is terminated behind that.
   */
  const NAME_MAX := 1020

  ghost predicate Listed(reg: Registry, names: seq<ValueName>) {
    forall name :: name in names ==> name in reg
  }

  /** What an enumerated value does to the loading: nothing, a new item, or its end. */
  datatype Fate = Ignored | Adds(list: nat, loaded: Loaded) | Stops(crash: bool)

  function FateOf(reg: Registry, name: ValueName): Fate
    requires name in reg
  {
    var list := Resolve(name);
    if |name| > NAME_MAX then Stops(true)
    else if list == 0 || reg[name].Other? then Ignored else
    match Decode(reg[name].bytes)
    case Loads(l) => Adds(list, l)
    case Drops => Ignored
    case Halts => Stops(false)
    case Crashes => Stops(true)
  }

  /** What one enumerated value contributes to a list. */
  function Contribution(reg: Registry, name: ValueName, list: nat): Option<Loaded>
    requires name in reg
  {
    var fate := FateOf(reg, name);
    if fate.Adds? && fate.list == list then Some(fate.loaded) else None
  }

  /** The items of one list in the order the values are enumerated. */
  function LoadedFrom(reg: Registry, names: seq<ValueName>, list: nat): seq<Loaded>
    requires Listed(reg, names)
  {
    if names == [] then [] else
      var before := LoadedFrom(reg, names[..|names| - 1], list);
      var last := Contribution(reg, names[|names| - 1], list);
      if last.Some? then before + [last.value] else before
  }

  /** The items made of the values whose names carry a prefix, in the order of enumeration. */
  function LoadedUnder(reg: Registry, names: seq<ValueName>, prefix: string): seq<Loaded>
    requires Listed(reg, names)
  {
    if names == [] then [] else
      var before, last := LoadedUnder(reg, names[..|names| - 1], prefix), names[|names| - 1];
      if HasPrefix(prefix, last) && FateOf(reg, last).Adds? then before + [FateOf(reg, last).loaded] else before
  }

  lemma AddsByPrefix(reg: Registry, name: ValueName, list: nat)
    requires name in reg && IsList(list)
    ensures var fate := FateOf(reg, name);
      Contribution(reg, name, list)
        == if HasPrefix(PrefixAt(IndexOf(list)), name) && fate.Adds? then Some(fate.loaded) else None
  {
    ResolvesIff(name, list);
  }

  lemma {:induction false} LoadedByPrefix(reg: Registry, names: seq<ValueName>, list: nat)
    requires Listed(reg, names) && IsList(list)
    ensures LoadedFrom(reg, names, list) == LoadedUnder(reg, names, PrefixAt(IndexOf(list)))
  {
    if names != [] {
      LoadedByPrefix(reg, names[..|names| - 1], list);
      AddsByPrefix(reg, names[|names| - 1], list);
    }
  }

  function Fates(reg: Registry, names: seq<ValueName>): (fates: seq<Fate>)
    requires Listed(reg, names)
    ensures |fates| == |names|
    ensures forall k :: 0 <= k < |names| ==> fates[k] == FateOf(reg, names[k])
  {
    seq(|names|, k requires 0 <= k < |names| => FateOf(reg, names[k]))
  }

  /** Where the loop over the values ends: at their end, at the cap, or at a value that stops it. */
  function ReachFrom(fates: seq<Fate>, i: nat): (n: nat)
    requires i <= |fates|
    ensures i <= n <= |fates|
    decreases |fates| - i
  {
    if i == |fates| || i == BLOCKLIST_MAX || fates[i].Stops? then i else ReachFrom(fates, i + 1)
  }

  lemma {:induction false} ReachIs(fates: seq<Fate>, i: nat)
    requires i <= |fates| && i <= BLOCKLIST_MAX
    ensures ReachFrom(fates, i) <= BLOCKLIST_MAX
    ensures var n := ReachFrom(fates, i);
      n < |fates| && n < BLOCKLIST_MAX ==> fates[n].Stops?
    ensures forall k :: i <= k < ReachFrom(fates, i) ==> !fates[k].Stops?
    decreases |fates| - i
  {
    if i < |fates| && i < BLOCKLIST_MAX {
      ReachIs(fates, i + 1);
    }
  }

  /** The values the driver processes. */
  function Seen(reg: Registry, names: seq<ValueName>): (r: seq<ValueName>)
    requires Listed(reg, names)
    ensures r <= names
  {
    names[..ReachFrom(Fates(reg, names), 0)]
  }

  /** The loop ends at a value whose name or data takes the driver out of its buffers. */
  predicate EndsWild(fates: seq<Fate>) {
    var n := ReachFrom(fates, 0);
    n < |fates| && n < BLOCKLIST_MAX && fates[n] == Stops(true)
  }

  predicate RunsWild(reg: Registry, names: seq<ValueName>)
    requires Listed(reg, names)
  {
    EndsWild(Fates(reg, names))
  }

  ghost predicate GroupFits(reg: Registry, names: seq<ValueName>, list: nat, id: nat)
    requires Listed(reg, names)
  {
    |ItemsOf(LoadedFrom(reg, names, list), id)| <= CONFIG_GROUP_MAX
  }

  /** No group gets more items than it has places. */
  ghost predicate GroupsFit(reg: Registry, names: seq<ValueName>)
    requires Listed(reg, names)
  {
    forall list, id :: GroupFits(reg, names, list, id)
  }

  /** The driver gets through its registry key without leaving the memory it allocated. */
  ghost predicate Loadable(reg: Registry, names: seq<ValueName>)
    requires Listed(reg, names)
  {
    !RunsWild(reg, names) && GroupsFit(reg, Seen(reg, names))
  }

  lemma {:induction false} LoadedAre(reg: Registry, names: seq<ValueName>, list: nat)
    requires Listed(reg, names)
    ensures forall l :: l in LoadedFrom(reg, names, list) <==>
      exists name :: name in names && Contribution(reg, name, list) == Some(l)
    ensures |LoadedFrom(reg, names, list)| <= |names|
  {
    if names != [] {
      var before, last := names[..|names| - 1], names[|names| - 1];
      LoadedAre(reg, before, list);
      assert names == before + [last];
      assert last in names;
    }
  }

  lemma {:induction false} ItemsOfPrefix(reg: Registry, names: seq<ValueName>, n: nat, list: nat, id: nat)
    requires Listed(reg, names) && n <= |names|
    ensures |ItemsOf(LoadedFrom(reg, names[..n], list), id)| <= |ItemsOf(LoadedFrom(reg, names, list), id)|
    decreases |names|
  {
    if n < |names| {
      var before := names[..|names| - 1];
      ItemsOfPrefix(reg, before, n, list, id);
      assert before[..n] == names[..n];
      var last := Contribution(reg, names[|names| - 1], list);
      if last.Some? {
        var ls := LoadedFrom(reg, before, list);
        assert (ls + [last.value])[..|ls|] == ls;
      }
    } else {
      assert names[..n] == names;
    }
  }

  class Driver {
    var lists: map<nat, seq<Group>>

    constructor ()
      ensures Unloaded(lists)
    {
      lists := map list | 0 <= list < 0x100 && IsList(list) :: [];
    }

    /**
     loadConfigItem: search the list for the id, then extend that group or append one. The
     result says whether the group had a place left; the write past a full group's entries is
     not modelled.
     */
    method LoadConfigItem(list: nat, l: Loaded) returns (inBounds: bool)
      requires list in lists && |lists[list]| < LIST_MAX
      modifies this
      ensures inBounds <==> !Full(old(lists)[list], l.id)
      ensures lists == if inBounds then old(lists)[list := AddItem(old(lists)[list], l)] else old(lists)
    {
      var groups := lists[list];
      var i := 0;
      while i < |groups|
        invariant i <= |groups| && lists == old(lists)
        invariant forall j :: 0 <= j < i ==> groups[j].id != l.id
      {
        if groups[i].id == l.id {
          FindIs(groups, l.id, i);
          var g := groups[i];
          if |g.items| >= CONFIG_GROUP_MAX {
            return false;
          }
          var grown := Group(g.id, And(g.actions, l.actions), g.items + [l.item]);
          lists := lists[list := groups[i := grown]];
          return true;
        }
        i := i + 1;
      }
      FindIs(groups, l.id, i);
      lists := lists[list := groups + [Group(l.id, l.actions, [l.item])]];
      return true;
    }

    /** One enumerated value: resolve its list, decode it, load the item. */
    method LoadValue(datum: Datum, name: ValueName) returns (more: bool, inBounds: bool)
      requires forall list :: IsList(list) ==> list in lists && |lists[list]| < LIST_MAX
      modifies this
      ensures var fate := FateOf(map[name := datum], name);
        && (fate.Adds? ==> IsList(fate.list))
        && more == !fate.Stops?
        && (inBounds <==> fate != Stops(true) && !(fate.Adds? && Full(old(lists)[fate.list], fate.loaded.id)))
        && lists == if inBounds && fate.Adds? then old(lists)[fate.list := AddItem(old(lists)[fate.list], fate.loaded)]
          else old(lists)
    {
      if |name| > NAME_MAX {
        return false, false;
      }
      var found := ResolveValueName(name);
      if found > 0 && datum.Binary? {
        ResolvesToList(name, 0);
        var decoded := Decode(datum.bytes);
        match decoded {
          case Loads(l) =>
            inBounds := LoadConfigItem(found, l);
            return true, inBounds;
          case Drops =>
          case Halts => return false, true;
          case Crashes => return false, false;
        }
      }
      return true, true;
    }

    /**
     LoadConfig, for every registry key and every order of enumeration: each list ends up
     holding its values grouped by id, up to the cap of 32000 values or a value that ends the
     loop; the driver stays within its memory exactly when no value makes it read wildly and no
     group gets more than 256 items.
     */
    method LoadConfig(reg: Registry, names: seq<ValueName>) returns (inBounds: bool)
      requires Listed(reg, names) && Unloaded(lists)
      modifies this
      ensures inBounds <==> Loadable(reg, names)
      ensures inBounds ==> LoadedUpTo(lists, reg, Seen(reg, names))
    {
      var index := 0;
      ghost var fates := Fates(reg, names);
      assert names[..0] == [];
      while index < |names|
        invariant index <= |names| && index < BLOCKLIST_MAX
        invariant ReachFrom(fates, 0) == ReachFrom(fates, index)
        invariant LoadedUpTo(lists, reg, names[..index]) && GroupsFit(reg, names[..index])
      {
        var more, ok := LoadNext(reg, names, index);
        if !ok {
          return false;
        }
        if !more {
          break;
        }
        index := index + 1;
        if index >= BLOCKLIST_MAX {
          break;
        }
      }
      return true;
    }

    /** One turn of the loop over the values. */
    method LoadNext(reg: Registry, names: seq<ValueName>, index: nat) returns (more: bool, inBounds: bool)
      requires Listed(reg, names) && index < |names| && index < BLOCKLIST_MAX
      requires ReachFrom(Fates(reg, names), 0) == ReachFrom(Fates(reg, names), index)
      requires LoadedUpTo(lists, reg, names[..index]) && GroupsFit(reg, names[..index])
      modifies this
      ensures !inBounds ==> !Loadable(reg, names)
      ensures inBounds ==> more == !FateOf(reg, names[index]).Stops? && FateOf(reg, names[index]) != Stops(true)
      ensures inBounds ==>
        var n := if more then index + 1 else index;
        LoadedUpTo(lists, reg, names[..n]) && GroupsFit(reg, names[..n])
    {
      ghost var before := lists;
      RoomInLists(before, reg, names[..index]);
      SameFate(reg, names[index]);
      more, inBounds := LoadValue(reg[names[index]], names[index]);
      if !inBounds {
        NotLoadable(before, reg, names, index);
      } else if more {
        ValueLoaded(before, lists, reg, names, index);
      }
    }
  }

  ghost predicate Unloaded(lists: map<nat, seq<Group>>) {
    forall list :: IsList(list) ==> list in lists && lists[list] == []
  }

  /** The group of this id has no place left. */
  predicate Full(groups: seq<Group>, id: nat) {
    Find(groups, id) < |groups| && |groups[Find(groups, id)].items| >= CONFIG_GROUP_MAX
  }

  ghost predicate LoadedUpTo(lists: map<nat, seq<Group>>, reg: Registry, names: seq<ValueName>) {
    && Listed(reg, names)
    && forall list :: IsList(list) ==> list in lists && lists[list] == Grouped(LoadedFrom(reg, names, list))
  }

  /** The values are processed, one after the other, without an end to the loop. */
  ghost predicate Processed(reg: Registry, names: seq<ValueName>) {
    Listed(reg, names) && forall name :: name in names ==> !FateOf(reg, name).Stops?
  }

  /** The values processed: all of them, unless the 32000th or one that ends the loop comes first. */
  lemma SeenIs(reg: Registry, names: seq<ValueName>)
    requires Listed(reg, names)
    ensures Seen(reg, names) <= names && |Seen(reg, names)| <= 32000
    ensures forall k :: 0 <= k < |Seen(reg, names)| ==> !FateOf(reg, names[k]).Stops?
    ensures var n := |Seen(reg, names)|;
      n < |names| && n < 32000 ==> FateOf(reg, names[n]).Stops?
  {
    ReachIs(Fates(reg, names), 0);
  }

  /** What a value with this name and these bytes does, by its length, its prefix and its decoding. */
  lemma FateIs(reg: Registry, name: ValueName, list: nat)
    requires name in reg && IsList(list)
    ensures |name| > 1020 ==> FateOf(reg, name) == Stops(true)
    ensures |name| <= 1020 && reg[name].Other? ==> FateOf(reg, name) == Ignored
    ensures |name| <= 1020 && (forall i: nat :: i < 26 ==> !HasPrefix(PrefixAt(i), name)) ==>
      FateOf(reg, name) == Ignored
    ensures |name| <= 1020 && reg[name].Binary? && HasPrefix(PrefixAt(IndexOf(list)), name) ==>
      var d := Decode(reg[name].bytes);
      && (d.Loads? ==> FateOf(reg, name) == Adds(list, d.loaded)) && (d.Drops? ==> FateOf(reg, name) == Ignored)
      && (d.Halts? ==> FateOf(reg, name) == Stops(false)) && (d.Crashes? ==> FateOf(reg, name) == Stops(true))
  {
    ResolvesIff(name, list);
    if Resolve(name) != 0 {
      var i := ResolvedFrom(name, 0);
    }
  }

  lemma SeenProcessed(reg: Registry, names: seq<ValueName>)
    requires Listed(reg, names)
    ensures Processed(reg, Seen(reg, names))
  {
    ReachIs(Fates(reg, names), 0);
  }

  /** A value with a name of more than 1020 characters, of whatever type, is not loadable once it is reached. */
  lemma LongNameNotLoadable(reg: Registry, names: seq<ValueName>, n: nat)
    requires Listed(reg, names) && n < |names| && n < 32000 && |names[n]| > 1020
    requires forall k :: 0 <= k < n ==> !FateOf(reg, names[k]).Stops?
    ensures !Loadable(reg, names)
  {
    ReachesTo(Fates(reg, names), 0, n);
  }

  lemma {:induction false} ReachesTo(fates: seq<Fate>, i: nat, n: nat)
    requires i <= n < |fates| && n < BLOCKLIST_MAX && fates[n].Stops?
    requires forall k :: i <= k < n ==> !fates[k].Stops?
    ensures ReachFrom(fates, i) == n
    decreases n - i
  {
    if i < n {
      ReachesTo(fates, i + 1, n);
    }
  }

  lemma SameFate(reg: Registry, name: ValueName)
    requires name in reg
    ensures FateOf(map[name := reg[name]], name) == FateOf(reg, name)
  {
  }

  lemma SameValueSameFate(reg: Registry, other: Registry, name: ValueName)
    requires name in reg && name in other && reg[name] == other[name]
    ensures FateOf(reg, name) == FateOf(other, name)
  {
  }

  /** The lists never run out of indices under the cap. */
  lemma RoomInLists(lists: map<nat, seq<Group>>, reg: Registry, names: seq<ValueName>)
    requires LoadedUpTo(lists, reg, names) && |names| < BLOCKLIST_MAX
    ensures forall list :: IsList(list) ==> |lists[list]| < LIST_MAX
  {
    forall list | IsList(list)
      ensures |lists[list]| < LIST_MAX
    {
      var ls := LoadedFrom(reg, names, list);
      LoadedAre(reg, names, list);
      GroupedById(ls);
      FirstIdsFew(ls);
    }
  }

  /** A full group holds as many items as were loaded under its id. */
  lemma FullIff(ls: seq<Loaded>, id: nat)
    ensures Full(Grouped(ls), id) <==> |ItemsOf(ls, id)| >= 256
  {
    GroupedById(ls);
    var groups := Grouped(ls);
    var k := Find(groups, id);
    if k == |groups| {
      assert id !in Ids(groups);
      NoneLoaded(ls, id);
    }
  }

  lemma {:induction false} ValueLoaded(before: map<nat, seq<Group>>, after: map<nat, seq<Group>>,
                                       reg: Registry, names: seq<ValueName>, n: nat)
    requires Listed(reg, names) && n < |names|
    requires LoadedUpTo(before, reg, names[..n]) && GroupsFit(reg, names[..n])
    requires var fate := FateOf(reg, names[n]);
      && !fate.Stops? && (fate.Adds? ==> IsList(fate.list) && !Full(before[fate.list], fate.loaded.id))
      && after == if fate.Adds? then before[fate.list := AddItem(before[fate.list], fate.loaded)] else before
    ensures LoadedUpTo(after, reg, names[..n + 1]) && GroupsFit(reg, names[..n + 1])
  {
    forall list | IsList(list)
      ensures list in after && after[list] == Grouped(LoadedFrom(reg, names[..n + 1], list))
    {
      NextValue(reg, names, n, list);
    }
    var longer := names[..n + 1];
    forall list, id
      ensures GroupFits(reg, longer, list, id)
    {
      assert GroupFits(reg, names[..n], list, id);
      FullIff(LoadedFrom(reg, names[..n], list), id);
      NextItems(reg, names, n, list, id);
    }
  }

  lemma NextItems(reg: Registry, names: seq<ValueName>, n: nat, list: nat, id: nat)
    requires Listed(reg, names) && n < |names|
    ensures var l := Contribution(reg, names[n], list);
      |ItemsOf(LoadedFrom(reg, names[..n + 1], list), id)|
        == |ItemsOf(LoadedFrom(reg, names[..n], list), id)| + if l.Some? && l.value.id == id then 1 else 0
  {
    NextValue(reg, names, n, list);
    var ls, l := LoadedFrom(reg, names[..n], list), Contribution(reg, names[n], list);
    if l.Some? {
      assert (ls + [l.value])[..|ls|] == ls;
    }
  }

  lemma {:induction false} NextValue(reg: Registry, names: seq<ValueName>, n: nat, list: nat)
    requires Listed(reg, names) && n < |names|
    ensures var before := LoadedFrom(reg, names[..n], list);
      var l := Contribution(reg, names[n], list);
      && LoadedFrom(reg, names[..n + 1], list) == (if l.Some? then before + [l.value] else before)
      && Grouped(LoadedFrom(reg, names[..n + 1], list))
        == if l.Some? then AddItem(Grouped(before), l.value) else Grouped(before)
  {
    assert names[..n + 1][..n] == names[..n];
    var before := LoadedFrom(reg, names[..n], list);
    var l := Contribution(reg, names[n], list);
    if l.Some? {
      assert (before + [l.value])[..|before|] == before;
    }
  }

  lemma ReachesPast(fates: seq<Fate>, n: nat)
    requires n < |fates| && n < BLOCKLIST_MAX && ReachFrom(fates, 0) == ReachFrom(fates, n)
    ensures fates[n] == Stops(true) ==> EndsWild(fates)
    ensures !fates[n].Stops? ==> n + 1 <= ReachFrom(fates, 0)
  {
  }

  /** A group that gets one item too many among the first values has it among all of them. */
  lemma Overfull(reg: Registry, names: seq<ValueName>, seen: seq<ValueName>, n: nat, list: nat, id: nat)
    requires Listed(reg, names) && seen <= names && n + 1 <= |seen|
    requires Contribution(reg, names[n], list).Some? && Contribution(reg, names[n], list).value.id == id
    requires Full(Grouped(LoadedFrom(reg, names[..n], list)), id)
    ensures !GroupFits(reg, seen, list, id)
  {
    FullIff(LoadedFrom(reg, names[..n], list), id);
    NextItems(reg, names, n, list, id);
    assert seen[..n + 1] == names[..n + 1];
    ItemsOfPrefix(reg, seen, n + 1, list, id);
  }

  /** A value that finds its group full, or that reads wildly, keeps the key from being loadable. */
  lemma NotLoadable(lists: map<nat, seq<Group>>, reg: Registry, names: seq<ValueName>, n: nat)
    requires Listed(reg, names) && n < |names| && n < BLOCKLIST_MAX
    requires ReachFrom(Fates(reg, names), 0) == ReachFrom(Fates(reg, names), n)
    requires LoadedUpTo(lists, reg, names[..n])
    requires var fate := FateOf(reg, names[n]);
      fate == Stops(true) || (fate.Adds? && IsList(fate.list) && Full(lists[fate.list], fate.loaded.id))
    ensures !Loadable(reg, names)
  {
    var fate := FateOf(reg, names[n]);
    ReachesPast(Fates(reg, names), n);
    if fate.Adds? {
      Overfull(reg, names, Seen(reg, names), n, fate.list, fate.loaded.id);
    }
  }

  lemma FindIs(groups: seq<Group>, id: nat, k: nat)
    requires k <= |groups| && (k < |groups| ==> groups[k].id == id)
    requires forall j :: 0 <= j < k ==> groups[j].id != id
    ensures Find(groups, id) == k
  {
    var found := Find(groups, id);
  }

  lemma {:induction false} ResolvesToList(name: string, i: nat)
    requires i <= LIST_COUNT
    ensures ResolveFrom(name, i) == 0 || IsList(ResolveFrom(name, i))
    decreases LIST_COUNT - i
  {
    if i < LIST_COUNT {
      ResolvesToList(name, i + 1);
    }
  }

  lemma {:induction false} FirstIdsFew(ls: seq<Loaded>)
    ensures |FirstIds(ls)| <= |ls|
  {
    if ls != [] {
      FirstIdsFew(ls[..|ls| - 1]);
    }
  }
}
