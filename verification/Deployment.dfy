/**
 A configuration deployed: compiled into a registry key that holds other values already,
 enumerated in any order, loaded into the driver's fixed arrays, and consulted by the
 inspectors.
 */
module Deployment {
  import opened Bytes
  import opened Addresses
  import opened Options
  import opened Matching
  import opened RuleCodec
  import opened Loader
  import opened Compiler
  import opened Configuration
  import opened RuleMeaning
  import opened RuleActions
  import opened Verdict

  // ----- which values make up a list

  /** The names that put an item into a list. */
  ghost function NamesOf(reg: Registry, names: seq<ValueName>, list: nat): set<ValueName>
    requires Listed(reg, names)
  {
    set name | name in names && Contribution(reg, name, list).Some?
  }

  /** The names under which a list's rules on known fields are stored. */
  ghost function StoredNames(ss: seq<Stored>, list: nat): set<ValueName>
    requires Separate(ss)
  {
    set k: nat | k < |ss| && ss[k].list == list && KnownField(ss[k].rule.field) :: Name(ss[k])
  }

  lemma WriteHolds(reg: Registry, ss: seq<Stored>)
    requires Separate(ss)
    ensures Holding(WriteAll(reg, ss), ss)
  {
    forall k | 0 <= k < |ss|
      ensures Name(ss[k]) in WriteAll(reg, ss) && WriteAll(reg, ss)[Name(ss[k])] == Binary(ValueOf(ss[k]))
    {
      WrittenLookup(reg, ss, k);
    }
  }

  lemma StoredContributes(reg: Registry, ss: seq<Stored>, k: nat, list: nat)
    requires Separate(ss) && Holding(reg, ss) && k < |ss| && |Name(ss[k])| <= NAME_MAX
    ensures Name(ss[k]) in reg
    ensures Contribution(reg, Name(ss[k]), list).Some? <==> ss[k].list == list && KnownField(ss[k].rule.field)
    ensures Contribution(reg, Name(ss[k]), list).Some? ==> Contribution(reg, Name(ss[k]), list).value.id == ss[k].id
  {
    StoredFate(reg, ss[k]);
  }

  /** Only a value with a name the driver has room for is processed. */
  lemma ProcessedIsShort(reg: Registry, names: seq<ValueName>, name: ValueName)
    requires Processed(reg, names) && name in names
    ensures name in reg && |name| <= NAME_MAX
  {
    assert !FateOf(reg, name).Stops?;
  }

  lemma StoredNamesAre(ss: seq<Stored>, list: nat, name: ValueName) returns (k: nat)
    requires Separate(ss) && name in StoredNames(ss, list)
    ensures k < |ss| && ss[k].list == list && KnownField(ss[k].rule.field) && Name(ss[k]) == name
  {
    k :| k < |ss| && ss[k].list == list && KnownField(ss[k].rule.field) && Name(ss[k]) == name;
  }

  lemma FoundIsNotStale(reg: Registry, names: seq<ValueName>, list: nat, ss: seq<Stored>)
    requires Separate(ss) && Listed(reg, names) && NamesOf(reg, names, list) == StoredNames(ss, list)
    ensures NoStale(reg, names, list, ss)
  {
    forall name | name in names && name in reg && !IsName(ss, name)
      ensures Contribution(reg, name, list).None?
    {
      if name in NamesOf(reg, names, list) {
        var k := StoredNamesAre(ss, list, name);
      }
    }
  }

  lemma StoredIsFound(reg: Registry, names: seq<ValueName>, list: nat, ss: seq<Stored>)
    requires Separate(ss) && Listed(reg, names) && NamesOf(reg, names, list) == StoredNames(ss, list)
    ensures NothingCut(names, list, ss)
  {
    forall k | 0 <= k < |ss| && ss[k].list == list && KnownField(ss[k].rule.field)
      ensures Name(ss[k]) in names
    {
      assert Name(ss[k]) in StoredNames(ss, list);
      assert Name(ss[k]) in NamesOf(reg, names, list);
    }
  }

  lemma CarriedIsFound(reg: Registry, names: seq<ValueName>, list: nat, ss: seq<Stored>, name: ValueName)
    requires Separate(ss) && Carries(reg, names, list, ss)
    ensures name in NamesOf(reg, names, list) <==> name in StoredNames(ss, list)
  {
    if name in NamesOf(reg, names, list) {
      assert IsName(ss, name);
      var k :| 0 <= k < |ss| && name == Name(ss[k]);
      ProcessedIsShort(reg, names, name);
      StoredContributes(reg, ss, k, list);
    }
    if name in StoredNames(ss, list) {
      var k := StoredNamesAre(ss, list, name);
      ProcessedIsShort(reg, names, name);
      StoredContributes(reg, ss, k, list);
    }
  }

  /**
   The values behind a loaded list are exactly those the configuration stored for it if and only
   if, among the values the driver processes, no other one adds to the list and none of the
   list's own is missing.
   */
  lemma CarriesIff(reg: Registry, names: seq<ValueName>, list: nat, ss: seq<Stored>)
    requires Separate(ss) && Holding(reg, ss) && Processed(reg, names)
    ensures NamesOf(reg, names, list) == StoredNames(ss, list)
      <==> NoStale(reg, names, list, ss) && NothingCut(names, list, ss)
  {
    if NamesOf(reg, names, list) == StoredNames(ss, list) {
      FoundIsNotStale(reg, names, list, ss);
      StoredIsFound(reg, names, list, ss);
    }
    if Carries(reg, names, list, ss) {
      forall name: ValueName
        ensures name in NamesOf(reg, names, list) <==> name in StoredNames(ss, list)
      {
        CarriedIsFound(reg, names, list, ss, name);
      }
    }
  }

  // ----- what a value too many, or too few, does

  /** A value that is left over and alone under its id decides by itself, although no entry has the id. */
  lemma StaleRuleDecides(kind: Kind, calls: seq<Call>, reg: Registry, names: seq<ValueName>, s: Stored, ev: Event)
    requires CompileAll(calls).Some? && Processed(reg, names)
    requires s.Valid() && KnownField(s.rule.field) && Name(s) in names && reg[Name(s)] == Binary(ValueOf(s))
    requires forall c: nat, k: nat :: KeptAt(calls, c, k) ==> calls[c].entries[k].id != s.id
    requires forall name :: name in names && ContributesTo(reg, name, s.list, s.id) ==> name == Name(s)
    ensures SomeGroupMatches(kind, LoadedFrom(reg, names, s.list), s.id, ev) <==> RuleHolds(kind, s.rule, ev)
    ensures !IdMatches(kind, calls, s.list, s.id, ev)
  {
    var ls := LoadedFrom(reg, names, s.list);
    ProcessedIsShort(reg, names, Name(s));
    StoredFate(reg, s);
    var l := FateOf(reg, Name(s)).loaded;
    LoadedAre(reg, names, s.list);
    assert Contribution(reg, Name(s), s.list) == Some(l);
    assert l in ls;
    forall m | m in ls && m.id == s.id
      ensures m == l
    {
      var name :| name in names && Contribution(reg, name, s.list) == Some(m);
      assert ContributesTo(reg, name, s.list, s.id);
    }
    OwnVerdict(kind, ls, s.id, ev);
  }

  /** A group's verdict, where its items do not depend on their places. */
  lemma OwnVerdict(kind: Kind, ls: seq<Loaded>, id: nat, ev: Event)
    requires forall l, i: nat :: l in ls && l.id == id ==>
      (Satisfied(kind, l.item, ev, i) <==> Satisfied(kind, l.item, ev, 0))
    ensures SomeGroupMatches(kind, ls, id, ev) <==> LoadedMatches(kind, ls, id, ev)
  {
    GroupedById(ls);
    if g :| g in Grouped(ls) && g.id == id && GroupMatches(kind, g, ev) {
      var first := GroupItem(ls, g, 0);
      forall l | l in ls && l.id == id
        ensures Satisfied(kind, l.item, ev, 0)
      {
        var j := ItemPlace(ls, g, l);
        assert Satisfied(kind, g.items[j], ev, j);
      }
    }
    if LoadedMatches(kind, ls, id, ev) {
      FirstIdsAre(ls);
      assert id in Ids(Grouped(ls));
      var k :| 0 <= k < |Ids(Grouped(ls))| && Ids(Grouped(ls))[k] == id;
      var g := Grouped(ls)[k];
      forall j: nat | j < |g.items|
        ensures Satisfied(kind, g.items[j], ev, j)
      {
        var l := GroupItem(ls, g, j);
      }
      assert GroupMatches(kind, g, ev);
    }
  }

  /** An id of which the driver processes no value matches nothing, whatever its entry says. */
  lemma UnseenNeverMatches(kind: Kind, reg: Registry, names: seq<ValueName>, list: nat, id: nat, ev: Event)
    requires Listed(reg, names) && forall name :: name in names ==> !ContributesTo(reg, name, list, id)
    ensures !SomeGroupMatches(kind, LoadedFrom(reg, names, list), id, ev)
  {
    var ls := LoadedFrom(reg, names, list);
    LoadedAre(reg, names, list);
    forall l | l in ls
      ensures l.id != id
    {
      var name :| name in names && Contribution(reg, name, list) == Some(l);
      assert ContributesTo(reg, name, list, l.id);
    }
    OwnVerdict(kind, ls, id, ev);
  }

  // ----- capacity

  ghost predicate Distinct(names: seq<ValueName>) {
    forall i, j :: 0 <= i < j < |names| ==> names[i] != names[j]
  }

  ghost predicate ContributesTo(reg: Registry, name: ValueName, list: nat, id: nat) {
    name in reg && Contribution(reg, name, list).Some? && Contribution(reg, name, list).value.id == id
  }

  /** The names that put an item into one group. */
  ghost function NamesUnder(reg: Registry, names: seq<ValueName>, list: nat, id: nat): set<ValueName> {
    set name | name in names && ContributesTo(reg, name, list, id)
  }

  lemma NamesUnderNext(reg: Registry, names: seq<ValueName>, last: ValueName, list: nat, id: nat)
    ensures var under := NamesUnder(reg, names, list, id);
      NamesUnder(reg, names + [last], list, id) == if ContributesTo(reg, last, list, id) then under + {last} else under
  {
  }

  lemma ItemsNext(ls: seq<Loaded>, l: Loaded, id: nat)
    ensures |ItemsOf(ls + [l], id)| == |ItemsOf(ls, id)| + if l.id == id then 1 else 0
  {
    assert (ls + [l])[..|ls|] == ls;
  }

  lemma LastIsNew(names: seq<ValueName>)
    requires Distinct(names) && names != []
    ensures var before, last := names[..|names| - 1], names[|names| - 1];
      names == before + [last] && last !in before && Distinct(before)
  {
  }

  /** Of an enumeration without repetitions every name puts at most one item into one group. */
  lemma {:induction false} OneItemPerName(reg: Registry, names: seq<ValueName>, list: nat, id: nat)
    requires Listed(reg, names) && Distinct(names)
    ensures |ItemsOf(LoadedFrom(reg, names, list), id)| == |NamesUnder(reg, names, list, id)|
  {
    if names == [] {
      assert NamesUnder(reg, names, list, id) == {};
    } else {
      var before, last := names[..|names| - 1], names[|names| - 1];
      LastIsNew(names);
      OneItemPerName(reg, before, list, id);
      NamesUnderNext(reg, before, last, list, id);
      var ls, l := LoadedFrom(reg, before, list), Contribution(reg, last, list);
      if l.Some? {
        ItemsNext(ls, l.value, id);
      }
      assert last !in NamesUnder(reg, before, list, id);
    }
  }

  /** The values stored for a kept entry are its rules, numbered consecutively. */
  lemma {:induction false} ItemRange(list: nat, entries: seq<Entry>, ids: set<nat>, k: nat)
    returns (first: nat, actions: nat)
    requires CompileList(list, entries, ids).Some? && Kept(entries, ids, k)
    ensures forall s :: s in CompileList(list, entries, ids).value.stored && s.id == entries[k].id <==>
      s in StoreRules(list, entries[k].id, actions, first, entries[k].rules)
  {
    var n := |entries| - 1;
    var before, last := entries[..n], entries[n];
    var st := CompileList(list, before, ids).value;
    KeptIffNew(list, entries, ids);
    CompiledIds(list, before, ids);
    if k < n {
      assert Kept(before, ids, k);
      first, actions := ItemRange(list, before, ids, k);
      assert before[k] in before;
    } else {
      first := |st.stored|;
      actions := if last.action.Some? then last.action.value else st.actions;
      forall s | s in st.stored
        ensures s.id != last.id
      {
        StoredAreKept(list, before, ids, s.id, s.rule);
        var j: nat :| Kept(before, ids, j) && before[j].id == s.id;
        assert before[j] in before;
      }
    }
  }

  /** The names with a mark. */
  ghost function Picked(names: seq<ValueName>, marks: seq<bool>): set<ValueName>
    requires |names| == |marks|
  {
    if names == [] then {} else
      var n := |names| - 1;
      var before := Picked(names[..n], marks[..n]);
      if marks[n] then before + {names[n]} else before
  }

  function Count(marks: seq<bool>): nat {
    if marks == [] then 0 else Count(marks[..|marks| - 1]) + if marks[|marks| - 1] then 1 else 0
  }

  ghost predicate MarkedAt(names: seq<ValueName>, marks: seq<bool>, name: ValueName, j: nat) {
    j < |names| && j < |marks| && marks[j] && names[j] == name
  }

  lemma {:induction false} PickedAre(names: seq<ValueName>, marks: seq<bool>, name: ValueName)
    requires |names| == |marks|
    ensures name in Picked(names, marks) <==> exists j: nat :: MarkedAt(names, marks, name, j)
  {
    if names != [] {
      var n := |names| - 1;
      var ns, ms := names[..n], marks[..n];
      PickedAre(ns, ms, name);
      if j: nat :| MarkedAt(ns, ms, name, j) {
        assert MarkedAt(names, marks, name, j);
      }
      if j: nat :| MarkedAt(names, marks, name, j) {
        assert j < n ==> MarkedAt(ns, ms, name, j);
      }
      if marks[n] && names[n] == name {
        assert MarkedAt(names, marks, name, n);
      }
    }
  }

  lemma {:induction false} PickedCount(names: seq<ValueName>, marks: seq<bool>)
    requires |names| == |marks| && Distinct(names)
    ensures |Picked(names, marks)| == Count(marks)
  {
    if names != [] {
      var n := |names| - 1;
      PickedCount(names[..n], marks[..n]);
      PickedAre(names[..n], marks[..n], names[n]);
    }
  }

  /** The names of `n` consecutively numbered values. */
  function ItemNames(list: nat, id: nat, first: nat, n: nat): (names: seq<ValueName>)
    requires IsList(list)
    ensures |names| == n && forall j :: 0 <= j < n ==> names[j] == NameOf(list, id, first + j)
  {
    if n == 0 then [] else ItemNames(list, id, first, n - 1) + [NameOf(list, id, first + n - 1)]
  }

  /** Which rules are on known fields. */
  function Marks(rules: seq<Rule>): (marks: seq<bool>)
    ensures |marks| == |rules| && forall j :: 0 <= j < |rules| ==> marks[j] == KnownField(rules[j].field)
  {
    seq(|rules|, j requires 0 <= j < |rules| => KnownField(rules[j].field))
  }

  lemma NamesOfDiffer(list: nat, id: nat, i: nat, j: nat)
    requires IsList(list) && NameOf(list, id, i) == NameOf(list, id, j)
    ensures i == j
  {
    Regroup(PrefixAt(IndexOf(list)), Itoa(id), Itoa(i));
    Regroup(PrefixAt(IndexOf(list)), Itoa(id), Itoa(j));
    LastNumber(PrefixAt(IndexOf(list)) + Itoa(id), i, PrefixAt(IndexOf(list)) + Itoa(id), j);
  }

  lemma ItemNamesDiffer(list: nat, id: nat, first: nat, n: nat)
    requires IsList(list)
    ensures Distinct(ItemNames(list, id, first, n))
  {
    forall i, j | 0 <= i < j < n
      ensures ItemNames(list, id, first, n)[i] != ItemNames(list, id, first, n)[j]
    {
      if NameOf(list, id, first + i) == NameOf(list, id, first + j) {
        NamesOfDiffer(list, id, first + i, first + j);
      }
    }
  }

  lemma {:induction false} MarksCount(rules: seq<Rule>)
    ensures Count(Marks(rules)) == |KnownRules(rules)|
  {
    if rules != [] {
      MarksCount(rules[..|rules| - 1]);
      KnownRulesNext(rules);
      assert Marks(rules)[..|rules| - 1] == Marks(rules[..|rules| - 1]);
    }
  }

  /** The names of the rules on known fields among consecutively numbered ones. */
  ghost function KnownNames(list: nat, id: nat, first: nat, rules: seq<Rule>): set<ValueName>
    requires IsList(list)
  {
    Picked(ItemNames(list, id, first, |rules|), Marks(rules))
  }

  lemma KnownNamesCount(list: nat, id: nat, first: nat, rules: seq<Rule>)
    requires IsList(list)
    ensures |KnownNames(list, id, first, rules)| == |KnownRules(rules)|
  {
    ItemNamesDiffer(list, id, first, |rules|);
    PickedCount(ItemNames(list, id, first, |rules|), Marks(rules));
    MarksCount(rules);
  }

  /** A rule on a known field has this name, numbered from `first`. */
  ghost predicate NamesKnown(list: nat, id: nat, first: nat, rules: seq<Rule>, name: ValueName, j: nat)
    requires IsList(list)
  {
    j < |rules| && KnownField(rules[j].field) && NameOf(list, id, first + j) == name
  }

  lemma KnownNamesAre(list: nat, id: nat, first: nat, rules: seq<Rule>, name: ValueName)
    requires IsList(list)
    ensures name in KnownNames(list, id, first, rules)
      <==> exists j: nat :: NamesKnown(list, id, first, rules, name, j)
  {
    var names, marks := ItemNames(list, id, first, |rules|), Marks(rules);
    PickedAre(names, marks, name);
    if j: nat :| MarkedAt(names, marks, name, j) {
      assert NamesKnown(list, id, first, rules, name, j);
    }
    if j: nat :| NamesKnown(list, id, first, rules, name, j) {
      assert MarkedAt(names, marks, name, j);
    }
  }

  lemma {:induction false} KnownRulesNext(rules: seq<Rule>)
    requires rules != []
    ensures var n := |rules| - 1;
      |KnownRules(rules)| == |KnownRules(rules[..n])| + if KnownField(rules[n].field) then 1 else 0
  {
    if |rules| > 1 {
      var n, rest := |rules| - 1, rules[1..];
      KnownRulesNext(rest);
      assert rest[..n - 1] == rules[..n][1..] && rest[n - 1] == rules[n];
    }
  }

  /** The values stored for entry `k` of call `c` carry these actions and are numbered from `first`. */
  ghost predicate NumberedFrom(calls: seq<Call>, c: nat, k: nat, first: nat, actions: nat)
    requires CompileAll(calls).Some? && KeptAt(calls, c, k)
  {
    forall s :: s in Part(calls, c) && s.id == calls[c].entries[k].id <==>
      s in StoreRules(calls[c].list, calls[c].entries[k].id, actions, first, calls[c].entries[k].rules)
  }

  lemma UnderIsKnown(calls: seq<Call>, reg: Registry, names: seq<ValueName>, c: nat, k: nat,
                     first: nat, actions: nat, name: ValueName)
    requires Typed(calls) && CompileAll(calls).Some? && KeptAt(calls, c, k) && IsList(calls[c].list)
    requires Carries(reg, names, calls[c].list, StoredOf(calls)) && NumberedFrom(calls, c, k, first, actions)
    requires name in NamesUnder(reg, names, calls[c].list, calls[c].entries[k].id)
    ensures name in KnownNames(calls[c].list, calls[c].entries[k].id, first, calls[c].entries[k].rules)
  {
    var list, e := calls[c].list, calls[c].entries[k];
    var s := ContributedBy(reg, names, list, StoredOf(calls), name, e.id);
    var d, l := StoredHasEntry(calls, s);
    KeptOnce(calls, c, k, d, l);
    StoredIsKnown(list, e.id, first, actions, e.rules, s);
  }

  lemma StoredIsKnown(list: nat, id: nat, first: nat, actions: nat, rules: seq<Rule>, s: Stored)
    requires IsList(list) && s in StoreRules(list, id, actions, first, rules) && KnownField(s.rule.field)
    ensures Name(s) in KnownNames(list, id, first, rules)
  {
    var more := StoreRules(list, id, actions, first, rules);
    var j: nat :| j < |more| && more[j] == s;
    NumberedStored(list, id, first, actions, rules, j);
    assert NamesKnown(list, id, first, rules, Name(s), j);
    KnownNamesAre(list, id, first, rules, Name(s));
  }

  lemma NumberedStored(list: nat, id: nat, first: nat, actions: nat, rules: seq<Rule>, j: nat)
    requires IsList(list) && j < |rules|
    ensures var s := StoreRules(list, id, actions, first, rules)[j];
      && s in StoreRules(list, id, actions, first, rules) && s.list == list && s.id == id
      && Name(s) == NameOf(list, id, first + j) && s.rule == rules[j]
  {
  }

  lemma KnownNameStored(list: nat, id: nat, first: nat, actions: nat, rules: seq<Rule>, name: ValueName)
    returns (s: Stored)
    requires IsList(list) && name in KnownNames(list, id, first, rules)
    ensures s in StoreRules(list, id, actions, first, rules) && KnownField(s.rule.field)
    ensures s.list == list && s.id == id && name == Name(s)
  {
    KnownNamesAre(list, id, first, rules, name);
    var j: nat :| NamesKnown(list, id, first, rules, name, j);
    NumberedStored(list, id, first, actions, rules, j);
    s := StoreRules(list, id, actions, first, rules)[j];
  }

  lemma KnownIsUnder(calls: seq<Call>, reg: Registry, names: seq<ValueName>, c: nat, k: nat,
                     first: nat, actions: nat, name: ValueName)
    requires Typed(calls) && CompileAll(calls).Some? && KeptAt(calls, c, k) && IsList(calls[c].list)
    requires Carries(reg, names, calls[c].list, StoredOf(calls)) && NumberedFrom(calls, c, k, first, actions)
    requires name in KnownNames(calls[c].list, calls[c].entries[k].id, first, calls[c].entries[k].rules)
    ensures name in NamesUnder(reg, names, calls[c].list, calls[c].entries[k].id)
  {
    var list, e := calls[c].list, calls[c].entries[k];
    var s := KnownNameStored(list, e.id, first, actions, e.rules, name);
    PartIsLoaded(calls, reg, names, c, s);
  }

  /** A stored rule on a known field puts its item into its group. */
  lemma PartIsLoaded(calls: seq<Call>, reg: Registry, names: seq<ValueName>, c: nat, s: Stored)
    requires Typed(calls) && CompileAll(calls).Some? && StoredBy(calls, c, s) && KnownField(s.rule.field)
    requires Carries(reg, names, s.list, StoredOf(calls))
    ensures IsList(s.list) && Name(s) in NamesUnder(reg, names, s.list, s.id)
  {
    var ss := StoredOf(calls);
    StoredByCalls(calls, s);
    var i :| 0 <= i < |ss| && ss[i] == s;
    StoredContributes(reg, ss, i, s.list);
  }

  /** Of a kept entry exactly the rules on known fields reach its group. */
  lemma GroupSize(calls: seq<Call>, reg: Registry, names: seq<ValueName>, c: nat, k: nat)
    requires Typed(calls) && CompileAll(calls).Some? && KeptAt(calls, c, k) && IsList(calls[c].list)
    requires Carries(reg, names, calls[c].list, StoredOf(calls)) && Distinct(names)
    ensures |ItemsOf(LoadedFrom(reg, names, calls[c].list), calls[c].entries[k].id)|
      == |KnownRules(calls[c].entries[k].rules)|
  {
    var list, e := calls[c].list, calls[c].entries[k];
    PartCompiles(calls, c);
    var first, actions := ItemRange(list, calls[c].entries, IdsBefore(calls, c), k);
    assert NumberedFrom(calls, c, k, first, actions);
    OneItemPerName(reg, names, list, e.id);
    forall name
      ensures name in NamesUnder(reg, names, list, e.id) <==> name in KnownNames(list, e.id, first, e.rules)
    {
      if name in NamesUnder(reg, names, list, e.id) {
        UnderIsKnown(calls, reg, names, c, k, first, actions, name);
      }
      if name in KnownNames(list, e.id, first, e.rules) {
        KnownIsUnder(calls, reg, names, c, k, first, actions, name);
      }
    }
    assert NamesUnder(reg, names, list, e.id) == KnownNames(list, e.id, first, e.rules);
    KnownNamesCount(list, e.id, first, e.rules);
  }

  lemma ContributedBy(reg: Registry, names: seq<ValueName>, list: nat, ss: seq<Stored>, name: ValueName, id: nat)
    returns (s: Stored)
    requires Separate(ss) && Carries(reg, names, list, ss) && name in names && ContributesTo(reg, name, list, id)
    ensures s in ss && s.list == list && s.id == id && IsList(list) && name == Name(s) && KnownField(s.rule.field)
  {
    assert IsName(ss, name);
    var k :| 0 <= k < |ss| && name == Name(ss[k]);
    StoredContributes(reg, ss, k, list);
    s := ss[k];
  }

  /** No kept entry has more rules on known fields than a group has places. */
  ghost predicate EntriesFit(calls: seq<Call>)
    requires CompileAll(calls).Some?
  {
    forall c: nat, k: nat :: KeptAt(calls, c, k) ==> |KnownRules(calls[c].entries[k].rules)| <= 256
  }

  /** The values the driver processes carry every list of the configuration, and nothing else. */
  ghost predicate CarriesAll(calls: seq<Call>, reg: Registry, names: seq<ValueName>)
    requires Typed(calls) && CompileAll(calls).Some?
  {
    forall list :: Carries(reg, names, list, StoredOf(calls))
  }

  lemma CallsAreLists(calls: seq<Call>, c: nat)
    requires Typed(calls) && CompileAll(calls).Some? && c < |calls|
    ensures IsList(calls[c].list)
  {
    PartCompiles(calls, c);
    assert calls[c].Typed();
    CompiledNumbered(calls[c].list, calls[c].entries, IdsBefore(calls, c));
  }

  /**
   No enumeration overflows a group of a configuration if and only if every kept entry has at
   most 256 rules on known fields. The agent accepts entries with more.
   */
  lemma GroupsFitIff(calls: seq<Call>, reg: Registry, names: seq<ValueName>)
    requires Typed(calls) && CompileAll(calls).Some? && CarriesAll(calls, reg, names) && Distinct(names)
    requires Listed(reg, names)
    ensures GroupsFit(reg, names) <==> EntriesFit(calls)
  {
    if GroupsFit(reg, names) {
      forall c: nat, k: nat | KeptAt(calls, c, k)
        ensures |KnownRules(calls[c].entries[k].rules)| <= 256
      {
        CallsAreLists(calls, c);
        assert Carries(reg, names, calls[c].list, StoredOf(calls));
        GroupSize(calls, reg, names, c, k);
        assert GroupFits(reg, names, calls[c].list, calls[c].entries[k].id);
      }
    }
    if EntriesFit(calls) {
      forall list, id
        ensures GroupFits(reg, names, list, id)
      {
        assert Carries(reg, names, list, StoredOf(calls));
        OneItemPerName(reg, names, list, id);
        if name :| name in NamesUnder(reg, names, list, id) {
          var s := ContributedBy(reg, names, list, StoredOf(calls), name, id);
          var c, k := StoredHasEntry(calls, s);
          GroupSize(calls, reg, names, c, k);
        }
      }
    }
  }

  // ----- verdicts

  /** The lists the callbacks of one kind of event pass to their inspector; network events have no block list. */
  datatype ListTypes = ListTypes(block: Option<nat>, incl: nat, excl: nat)

  function ListsOf(kind: Kind): ListTypes {
    match kind
    case Process => ListTypes(Some(0x10), 0xD0, 0xD1)
    case Registry => ListTypes(Some(0xDD), 0xDE, 0xDF)
    case FileCreate => ListTypes(Some(0xE0), 0xE1, 0xE2)
    case FileSet => ListTypes(Some(0xE3), 0xE4, 0xE5)
    case Network => ListTypes(None, 0xE7, 0xE8)
  }

  /** The groups an inspector consults. */
  ghost function Consulted(reg: Registry, names: seq<ValueName>, kind: Kind): Lists
    requires Listed(reg, names)
  {
    var t := ListsOf(kind);
    Lists(if t.block.None? then [] else Grouped(LoadedFrom(reg, names, t.block.value)),
          Grouped(LoadedFrom(reg, names, t.incl)), Grouped(LoadedFrom(reg, names, t.excl)))
  }

  /** The lists of this kind of event hold what the configuration stored for them. */
  ghost predicate CarriesKind(calls: seq<Call>, reg: Registry, names: seq<ValueName>, kind: Kind)
    requires Typed(calls) && CompileAll(calls).Some?
  {
    var t, ss := ListsOf(kind), StoredOf(calls);
    && (t.block.Some? ==> Carries(reg, names, t.block.value, ss))
    && Carries(reg, names, t.incl, ss) && Carries(reg, names, t.excl, ss)
  }

  /** The group a matcher stops at stands for a kept entry that matches, and carries its action. */
  lemma HitIsEntry(calls: seq<Call>, reg: Registry, names: seq<ValueName>, list: nat, kind: Kind, ev: Event)
    returns (c: nat, k: nat)
    requires Typed(calls) && CompileAll(calls).Some? && Carries(reg, names, list, StoredOf(calls))
    requires AnyMatches(kind, Grouped(LoadedFrom(reg, names, list)), ev)
    ensures MatchesAt(kind, calls, list, ev, c, k)
    ensures var g := Hit(kind, Grouped(LoadedFrom(reg, names, list)), ev);
      g.id == calls[c].entries[k].id && g.actions == ActionAt(calls, c, k)
  {
    var groups := Grouped(LoadedFrom(reg, names, list));
    var g := Hit(kind, groups, ev);
    assert g in groups && GroupMatches(kind, g, ev);
    MeaningPreserved(calls, reg, names, list, kind, g.id, ev);
    c, k :| MatchesAt(kind, calls, list, ev, c, k) && calls[c].entries[k].id == g.id;
    ActionArrives(calls, reg, names, list, c, k, g);
  }

  /** A kept block entry matches. */
  ghost predicate Blocked(kind: Kind, t: ListTypes, calls: seq<Call>, ev: Event)
    requires CompileAll(calls).Some?
  {
    t.block.Some? && ListMatches(kind, calls, t.block.value, ev)
  }

  /** Entry `k` of call `c` accounts for a block: it matches, and the outcome has its status and id. */
  ghost predicate BlockedBy(kind: Kind, block: nat, calls: seq<Call>, ev: Event, o: Outcome, c: nat, k: nat)
    requires CompileAll(calls).Some?
  {
    && MatchesAt(kind, calls, block, ev, c, k)
    && o.matchId == calls[c].entries[k].id
    && o.status == if ActionAt(calls, c, k) == 0 then STATUS_ACCESS_DENIED else ActionAt(calls, c, k)
  }

  /**
   What the outcome of an inspection says about the configuration: the operation passes exactly
   when no kept block entry matches, and is otherwise answered with the status and id of one
   that does; the event is dropped exactly when an exclude entry matches and no block or include
   entry does; the id names an entry of the list that decided.
   */
  ghost predicate Decides(kind: Kind, t: ListTypes, calls: seq<Call>, ev: Event, o: Outcome)
    requires CompileAll(calls).Some?
  {
    var included, excluded := ListMatches(kind, calls, t.incl, ev), ListMatches(kind, calls, t.excl, ev);
    && (o.status == STATUS_SUCCESS <==> !Blocked(kind, t, calls, ev))
    && (Blocked(kind, t, calls, ev) ==>
      exists c: nat, k: nat :: BlockedBy(kind, t.block.value, calls, ev, o, c, k))
    && (o.skipLogging <==> excluded && !included && !Blocked(kind, t, calls, ev))
    && (Blocked(kind, t, calls, ev)
       || if included then IdMatches(kind, calls, t.incl, o.matchId, ev)
       else if excluded then IdMatches(kind, calls, t.excl, o.matchId, ev)
       else o.matchId == 0)
  }

  /**
   The documented policy by kind of event, with the lists as the agent numbers them: process,
   registry, file creation, file change and network lists, for blocking, logging and dropping.
   */
  ghost predicate Answers(kind: Kind, calls: seq<Call>, ev: Event, o: Outcome)
    requires CompileAll(calls).Some?
  {
    && (kind.Process? ==> Decides(kind, ListTypes(Some(0x10), 0xD0, 0xD1), calls, ev, o))
    && (kind.Registry? ==> Decides(kind, ListTypes(Some(0xDD), 0xDE, 0xDF), calls, ev, o))
    && (kind.FileCreate? ==> Decides(kind, ListTypes(Some(0xE0), 0xE1, 0xE2), calls, ev, o))
    && (kind.FileSet? ==> Decides(kind, ListTypes(Some(0xE3), 0xE4, 0xE5), calls, ev, o))
    && (kind.Network? ==> Decides(kind, ListTypes(None, 0xE7, 0xE8), calls, ev, o))
  }

  lemma HitIdMatches(calls: seq<Call>, reg: Registry, names: seq<ValueName>, list: nat, kind: Kind, ev: Event)
    requires Typed(calls) && CompileAll(calls).Some? && Carries(reg, names, list, StoredOf(calls))
    ensures var groups := Grouped(LoadedFrom(reg, names, list));
      && (AnyMatches(kind, groups, ev) <==> ListMatches(kind, calls, list, ev))
      && (if AnyMatches(kind, groups, ev) then IdMatches(kind, calls, list, HitId(kind, groups, ev), ev)
         else HitId(kind, groups, ev) == 0)
  {
    ListVerdict(calls, reg, names, list, kind, ev);
    if AnyMatches(kind, Grouped(LoadedFrom(reg, names, list)), ev) {
      var c, k := HitIsEntry(calls, reg, names, list, kind, ev);
    }
  }

  /** The policy on the loaded lists decides what the configuration says. */
  lemma PolicyDecides(calls: seq<Call>, reg: Registry, names: seq<ValueName>, kind: Kind, ev: Event)
    requires Typed(calls) && CompileAll(calls).Some? && CarriesKind(calls, reg, names, kind)
    ensures Answers(kind, calls, ev, Policy(kind, Consulted(reg, names, kind), ev))
  {
    ListsDecide(calls, reg, names, kind, ev);
  }

  lemma ListsDecide(calls: seq<Call>, reg: Registry, names: seq<ValueName>, kind: Kind, ev: Event)
    requires Typed(calls) && CompileAll(calls).Some? && CarriesKind(calls, reg, names, kind)
    ensures Decides(kind, ListsOf(kind), calls, ev, Policy(kind, Consulted(reg, names, kind), ev))
  {
    var t, ls := ListsOf(kind), Consulted(reg, names, kind);
    HitIdMatches(calls, reg, names, t.incl, kind, ev);
    HitIdMatches(calls, reg, names, t.excl, kind, ev);
    if t.block.Some? {
      HitIdMatches(calls, reg, names, t.block.value, kind, ev);
    }
    if AnyMatches(kind, ls.block, ev) {
      var c, k := HitIsEntry(calls, reg, names, t.block.value, kind, ev);
      assert BlockedBy(kind, t.block.value, calls, ev, Policy(kind, ls, ev), c, k);
    }
  }

  /** The groups made of the values under three prefixes. */
  ghost function ListsUnder(reg: Registry, names: seq<ValueName>, block: string, incl: string, excl: string): Lists
    requires Listed(reg, names)
  {
    Lists(Grouped(LoadedUnder(reg, names, block)), Grouped(LoadedUnder(reg, names, incl)),
          Grouped(LoadedUnder(reg, names, excl)))
  }

  lemma ConsultedUnder(reg: Registry, names: seq<ValueName>, kind: Kind, block: string, incl: string, excl: string)
    requires Listed(reg, names)
    requires var t := ListsOf(kind);
      && (t.block.Some? ==> block == ValuePrefix(t.block.value))
      && incl == ValuePrefix(t.incl) && excl == ValuePrefix(t.excl)
    ensures Consulted(reg, names, kind) == Relevant(kind, ListsUnder(reg, names, block, incl, excl))
  {
    var t := ListsOf(kind);
    if t.block.Some? {
      LoadedByPrefix(reg, names, t.block.value);
    }
    LoadedByPrefix(reg, names, t.incl);
    LoadedByPrefix(reg, names, t.excl);
  }

  /** The lists an inspector consults, by the names of the values that make them up. */
  lemma ConsultedByPrefix(reg: Registry, names: seq<ValueName>)
    requires Listed(reg, names)
    ensures Consulted(reg, names, Process) == ListsUnder(reg, names, "CFG_PBL_", "CFG_PINC_", "CFG_PEXC_")
    ensures Consulted(reg, names, Registry) == ListsUnder(reg, names, "CFG_RBL_", "CFG_RINC_", "CFG_REXC_")
    ensures Consulted(reg, names, FileCreate) == ListsUnder(reg, names, "CFG_FCBL_", "CFG_FCINC_", "CFG_FCEXC_")
    ensures Consulted(reg, names, FileSet) == ListsUnder(reg, names, "CFG_FSBL_", "CFG_FSINC_", "CFG_FSEXC_")
    ensures Consulted(reg, names, Network) == ListsUnder(reg, names, "", "CFG_WINC_", "CFG_WEXC_").(block := [])
  {
    PrefixTexts();
    ConsultedUnder(reg, names, Process, "CFG_PBL_", "CFG_PINC_", "CFG_PEXC_");
    ConsultedUnder(reg, names, Registry, "CFG_RBL_", "CFG_RINC_", "CFG_REXC_");
    ConsultedUnder(reg, names, FileCreate, "CFG_FCBL_", "CFG_FCINC_", "CFG_FCEXC_");
    ConsultedUnder(reg, names, FileSet, "CFG_FSBL_", "CFG_FSINC_", "CFG_FSEXC_");
    ConsultedUnder(reg, names, Network, "", "CFG_WINC_", "CFG_WEXC_");
  }

  lemma ProcessTexts()
    ensures ValuePrefix(0x10) == "CFG_PBL_" && ValuePrefix(0xD0) == "CFG_PINC_" && ValuePrefix(0xD1) == "CFG_PEXC_"
  {
  }

  lemma RegistryTexts()
    ensures ValuePrefix(0xDD) == "CFG_RBL_" && ValuePrefix(0xDE) == "CFG_RINC_" && ValuePrefix(0xDF) == "CFG_REXC_"
  {
  }

  lemma FileCreateTexts()
    ensures ValuePrefix(0xE0) == "CFG_FCBL_" && ValuePrefix(0xE1) == "CFG_FCINC_" && ValuePrefix(0xE2) == "CFG_FCEXC_"
  {
  }

  lemma FileSetTexts()
    ensures ValuePrefix(0xE3) == "CFG_FSBL_" && ValuePrefix(0xE4) == "CFG_FSINC_" && ValuePrefix(0xE5) == "CFG_FSEXC_"
  {
  }

  lemma NetworkTexts()
    ensures ValuePrefix(0xE7) == "CFG_WINC_" && ValuePrefix(0xE8) == "CFG_WEXC_"
  {
  }

  lemma PrefixTexts()
    ensures ValuePrefix(0x10) == "CFG_PBL_" && ValuePrefix(0xD0) == "CFG_PINC_" && ValuePrefix(0xD1) == "CFG_PEXC_"
    ensures ValuePrefix(0xDD) == "CFG_RBL_" && ValuePrefix(0xDE) == "CFG_RINC_" && ValuePrefix(0xDF) == "CFG_REXC_"
    ensures ValuePrefix(0xE0) == "CFG_FCBL_" && ValuePrefix(0xE1) == "CFG_FCINC_" && ValuePrefix(0xE2) == "CFG_FCEXC_"
    ensures ValuePrefix(0xE3) == "CFG_FSBL_" && ValuePrefix(0xE4) == "CFG_FSINC_" && ValuePrefix(0xE5) == "CFG_FSEXC_"
    ensures ValuePrefix(0xE7) == "CFG_WINC_" && ValuePrefix(0xE8) == "CFG_WEXC_"
  {
    ProcessTexts();
    RegistryTexts();
    FileCreateTexts();
    FileSetTexts();
    NetworkTexts();
  }

  /** The names under which the agent writes the rules of these lists. */
  lemma AgentNames(id: nat, item: nat)
    ensures var rest := Itoa(id) + "_" + Itoa(item);
      && NameOf(0x10, id, item) == "CFG_PBL_" + rest && NameOf(0xD0, id, item) == "CFG_PINC_" + rest
      && NameOf(0xD1, id, item) == "CFG_PEXC_" + rest && NameOf(0xDD, id, item) == "CFG_RBL_" + rest
      && NameOf(0xDE, id, item) == "CFG_RINC_" + rest && NameOf(0xDF, id, item) == "CFG_REXC_" + rest
      && NameOf(0xE0, id, item) == "CFG_FCBL_" + rest && NameOf(0xE1, id, item) == "CFG_FCINC_" + rest
      && NameOf(0xE2, id, item) == "CFG_FCEXC_" + rest && NameOf(0xE3, id, item) == "CFG_FSBL_" + rest
      && NameOf(0xE4, id, item) == "CFG_FSINC_" + rest && NameOf(0xE5, id, item) == "CFG_FSEXC_" + rest
      && NameOf(0xE7, id, item) == "CFG_WINC_" + rest && NameOf(0xE8, id, item) == "CFG_WEXC_" + rest
  {
    PrefixTexts();
  }

  lemma GroupsHaveItems(ls: seq<Loaded>)
    ensures forall k :: 0 <= k < |Grouped(ls)| ==> Grouped(ls)[k].items != []
  {
    GroupedById(ls);
  }

  lemma ConsultedIsLoaded(reg: Registry, names: seq<ValueName>, kind: Kind)
    requires Listed(reg, names)
    ensures Consulted(reg, names, kind).Loaded()
  {
    var t := ListsOf(kind);
    if t.block.Some? {
      GroupsHaveItems(LoadedFrom(reg, names, t.block.value));
    }
    GroupsHaveItems(LoadedFrom(reg, names, t.incl));
    GroupsHaveItems(LoadedFrom(reg, names, t.excl));
  }

  lemma NoNamelessHit(calls: seq<Call>, reg: Registry, names: seq<ValueName>, kind: Kind, ev: Event)
    requires Typed(calls) && CompileAll(calls).Some? && CarriesKind(calls, reg, names, kind)
    ensures var ls := Consulted(reg, names, kind);
      !NamelessHit(kind, ls.block, ev) && !NamelessHit(kind, ls.incl, ev)
  {
    var t := ListsOf(kind);
    LoadedGroupsNamed(reg, names, t.incl, StoredOf(calls));
    if t.block.Some? {
      LoadedGroupsNamed(reg, names, t.block.value, StoredOf(calls));
      assert !NamelessHit(kind, Grouped(LoadedFrom(reg, names, t.block.value)), ev);
    }
    assert !NamelessHit(kind, Grouped(LoadedFrom(reg, names, t.incl)), ev);
  }

  /**
   The callbacks' calls of InspectProcessCreation, InspectNetworkEvent and the three other
   inspectors, on whatever lists were loaded: where those hold what a configuration stored, the
   outcome is what the configuration says.
   */
  method Consult(driver: Driver, kind: Kind, ev: Event,
                 ghost calls: seq<Call>, ghost reg: Registry, ghost seen: seq<ValueName>)
    returns (o: Outcome)
    requires LoadedUpTo(driver.lists, reg, seen) && Typed(calls) && CompileAll(calls).Some?
    ensures CarriesKind(calls, reg, seen, kind) ==> Answers(kind, calls, ev, o)
  {
    ConsultedIsLoaded(reg, seen, kind);
    if CarriesKind(calls, reg, seen, kind) {
      NoNamelessHit(calls, reg, seen, kind, ev);
      PolicyDecides(calls, reg, seen, kind, ev);
    }
    var t := ListsOf(kind);
    var block := if t.block.Some? then driver.lists[t.block.value] else [];
    var incl, excl := driver.lists[t.incl], driver.lists[t.excl];
    assert Relevant(kind, Lists(block, incl, excl)) == Consulted(reg, seen, kind);
    o := InspectEvent(kind, Lists(block, incl, excl), ev);
  }

  /** Every value of the key is listed once. */
  ghost predicate Enumerates(reg: Registry, names: seq<ValueName>) {
    Distinct(names) && forall name :: name in names <==> name in reg
  }

  /** The registry lists its values in an order of its own. */
  method Enumerate(reg: Registry) returns (names: seq<ValueName>)
    ensures Enumerates(reg, names)
  {
    names := [];
    var rest := reg.Keys;
    while rest != {}
      invariant Distinct(names) && rest <= reg.Keys
      invariant forall name :: name in reg <==> name in rest || name in names
      invariant forall name :: name in names ==> name !in rest
      decreases |rest|
    {
      var name :| name in rest;
      names := names + [name];
      rest := rest - {name};
    }
  }

  lemma NoStaleBefore(reg0: Registry, names: seq<ValueName>, list: nat, ss: seq<Stored>)
    requires Separate(ss)
    ensures NoStale(reg0, names, list, ss) <==> NoStale(WriteAll(reg0, ss), names, list, ss)
  {
    forall name | !IsName(ss, name)
      ensures name in WriteAll(reg0, ss) <==> name in reg0
      ensures name in reg0 ==> Contribution(WriteAll(reg0, ss), name, list) == Contribution(reg0, name, list)
    {
      WrittenElse(reg0, ss, name);
      if name in reg0 {
        SameValueSameFate(WriteAll(reg0, ss), reg0, name);
      }
    }
  }

  /**
   What a caller can check of a registry key before deploying: of the values the driver will
   process, none already there adds to the list, and all the list's own are among them.
   */
  ghost predicate CleanFor(calls: seq<Call>, reg0: Registry, names: seq<ValueName>, list: nat)
    requires Typed(calls) && CompileAll(calls).Some?
  {
    NoStale(reg0, names, list, StoredOf(calls)) && NothingCut(names, list, StoredOf(calls))
  }

  lemma CleanIsCarried(calls: seq<Call>, reg0: Registry, names: seq<ValueName>, list: nat)
    requires Typed(calls) && CompileAll(calls).Some?
    requires Processed(WriteAll(reg0, StoredOf(calls)), names)
    ensures CleanFor(calls, reg0, names, list)
      <==> Carries(WriteAll(reg0, StoredOf(calls)), names, list, StoredOf(calls))
  {
    WriteHolds(reg0, StoredOf(calls));
    NoStaleBefore(reg0, names, list, StoredOf(calls));
  }

  ghost predicate CleanForKind(calls: seq<Call>, reg0: Registry, names: seq<ValueName>, kind: Kind)
    requires Typed(calls) && CompileAll(calls).Some?
  {
    var t := ListsOf(kind);
    && (t.block.Some? ==> CleanFor(calls, reg0, names, t.block.value))
    && CleanFor(calls, reg0, names, t.incl) && CleanFor(calls, reg0, names, t.excl)
  }

  lemma CleanKindIsCarried(calls: seq<Call>, reg0: Registry, names: seq<ValueName>, kind: Kind)
    requires Typed(calls) && CompileAll(calls).Some?
    requires Processed(WriteAll(reg0, StoredOf(calls)), names) && CleanForKind(calls, reg0, names, kind)
    ensures CarriesKind(calls, WriteAll(reg0, StoredOf(calls)), names, kind)
  {
    var t := ListsOf(kind);
    if t.block.Some? {
      CleanIsCarried(calls, reg0, names, t.block.value);
    }
    CleanIsCarried(calls, reg0, names, t.incl);
    CleanIsCarried(calls, reg0, names, t.excl);
  }

  /** On a registry key that is clean for every list, loading stays in bounds exactly when all entries fit. */
  lemma LoadableIff(calls: seq<Call>, reg0: Registry, names: seq<ValueName>)
    requires Typed(calls) && CompileAll(calls).Some? && Distinct(names)
    requires var reg := WriteAll(reg0, StoredOf(calls));
      && Listed(reg, names) && !RunsWild(reg, names)
      && forall list :: CleanFor(calls, reg0, Seen(reg, names), list)
    ensures Loadable(WriteAll(reg0, StoredOf(calls)), names) <==> EntriesFit(calls)
  {
    var reg := WriteAll(reg0, StoredOf(calls));
    var seen := Seen(reg, names);
    SeenProcessed(reg, names);
    forall list
      ensures Carries(reg, seen, list, StoredOf(calls))
    {
      CleanIsCarried(calls, reg0, seen, list);
    }
    GroupsFitIff(calls, reg, seen);
  }

  /**
   Compile a configuration into a registry key, enumerate the key in any order, and load it.
   Whatever the key held before: if it is clean for every list and nothing in it makes the
   driver read wildly, loading stays in bounds exactly when no kept entry has more than 256
   rules on known fields.
   */
  method Deploy(writer: RuleWriter, driver: Driver, calls: seq<Call>)
    returns (compiled: bool, loaded: bool, ghost names: seq<ValueName>)
    requires Typed(calls) && writer.ids == {} && Unloaded(driver.lists)
    modifies writer, driver
    ensures compiled <==> CompileAll(calls).Some?
    ensures compiled ==>
      var reg := WriteAll(old(writer.registry), StoredOf(calls));
      && Enumerates(reg, names)
      && (loaded <==> Loadable(reg, names))
      && (loaded ==> LoadedUpTo(driver.lists, reg, Seen(reg, names)))
      && (!RunsWild(reg, names) && (forall list :: CleanFor(calls, old(writer.registry), Seen(reg, names), list))
          ==> (loaded <==> EntriesFit(calls)))
  {
    ghost var reg0 := writer.registry;
    loaded, names := false, [];
    compiled := Configure(writer, calls);
    if compiled {
      var order := Enumerate(writer.registry);
      names := order;
      loaded := driver.LoadConfig(writer.registry, order);
      if !RunsWild(writer.registry, order)
         && forall list :: CleanFor(calls, reg0, Seen(writer.registry, order), list) {
        LoadableIff(calls, reg0, order);
      }
    }
  }

  /**
   The whole chain, as code: deploy a configuration and have an inspector judge an event.
   Whatever the registry key held before, the outcome is what the configuration says, provided
   that, of the values the driver processed, none left over adds to the lists consulted and none
   of theirs is missing.
   */
  method Judge(writer: RuleWriter, driver: Driver, calls: seq<Call>, kind: Kind, ev: Event)
    returns (o: Option<Outcome>, ghost names: seq<ValueName>)
    requires Typed(calls) && writer.ids == {} && Unloaded(driver.lists)
    modifies writer, driver
    ensures CompileAll(calls).None? ==> o.None?
    ensures CompileAll(calls).Some? ==>
      var reg0 := old(writer.registry);
      var reg := WriteAll(reg0, StoredOf(calls));
      && Enumerates(reg, names)
      && (o.Some? <==> Loadable(reg, names))
      && (o.Some? && CleanForKind(calls, reg0, Seen(reg, names), kind) ==> Answers(kind, calls, ev, o.value))
  {
    ghost var reg0 := writer.registry;
    var compiled, loaded;
    compiled, loaded, names := Deploy(writer, driver, calls);
    if !compiled || !loaded {
      return None, names;
    }
    ghost var reg := WriteAll(reg0, StoredOf(calls));
    ghost var seen := Seen(reg, names);
    var outcome := Consult(driver, kind, ev, calls, reg, seen);
    if CleanForKind(calls, reg0, seen, kind) {
      SeenProcessed(reg, names);
      CleanKindIsCarried(calls, reg0, seen, kind);
    }
    o := Some(outcome);
  }
}
