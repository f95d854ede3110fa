/**
 The whole way of a rule: a configuration compiled by the agent, stored in the registry,
 enumerated by the driver in any order, decoded, grouped and matched against an event.
 */
module RuleMeaning {
  import opened Bits
  import opened Bytes
  import opened Operators
  import opened Text
  import opened Addresses
  import opened Options
  import opened Matching
  import opened RuleCodec
  import opened Loader
  import opened Compiler
  import opened Configuration
  import opened Verdict

  // ----- what the driver finds of a configuration

  /** The registry holds every stored value under its name. */
  ghost predicate Holding(reg: Registry, ss: seq<Stored>)
    requires Separate(ss)
  {
    forall k :: 0 <= k < |ss| ==> Name(ss[k]) in reg && reg[Name(ss[k])] == Binary(ValueOf(ss[k]))
  }

  /** None of the values the driver processes adds anything to the list, except the stored ones. */
  ghost predicate NoStale(reg: Registry, names: seq<ValueName>, list: nat, ss: seq<Stored>)
    requires Separate(ss)
  {
    forall name :: name in names && name in reg && !IsName(ss, name) ==> Contribution(reg, name, list).None?
  }

  /** The driver processes every value of the list whose field it knows. */
  ghost predicate NothingCut(names: seq<ValueName>, list: nat, ss: seq<Stored>)
    requires Separate(ss)
  {
    forall k :: 0 <= k < |ss| && ss[k].list == list && KnownField(ss[k].rule.field) ==> Name(ss[k]) in names
  }

  /** The values the driver processes carry the list as it is stored. */
  ghost predicate Carries(reg: Registry, names: seq<ValueName>, list: nat, ss: seq<Stored>)
    requires Separate(ss)
  {
    Processed(reg, names) && Holding(reg, ss) && NoStale(reg, names, list, ss) && NothingCut(names, list, ss)
  }

  lemma StoredDecodes(s: Stored)
    requires s.Valid()
    ensures Resolve(Name(s)) == s.list
    ensures var d := Decode(ValueOf(s));
      && (if KnownField(s.rule.field) then d.Loads? else d.Drops?)
      && (d.Loads? ==> d.loaded.id == s.id && d.loaded.actions == s.actions && SameMeaning(s.rule, d.loaded.item))
  {
    RuleSurvives(s.rule, s.list, s.id, s.actions);
    NameResolves(s.list, Itoa(s.id) + "_" + Itoa(s.item));
  }

  /** A stored value adds its rule to its list, if the driver knows the field, and never stops the driver. */
  lemma StoredFate(reg: Registry, s: Stored)
    requires s.Valid() && Name(s) in reg && reg[Name(s)] == Binary(ValueOf(s)) && |Name(s)| <= NAME_MAX
    ensures var fate := FateOf(reg, Name(s));
      && (if KnownField(s.rule.field) then fate.Adds? else fate.Ignored?)
      && (fate.Adds? ==>
        fate.list == s.list && fate.loaded.id == s.id && fate.loaded.actions == s.actions
        && SameMeaning(s.rule, fate.loaded.item))
  {
    StoredDecodes(s);
  }

  lemma LoadedIsStored(reg: Registry, names: seq<ValueName>, list: nat, ss: seq<Stored>, l: Loaded) returns (s: Stored)
    requires Separate(ss) && Carries(reg, names, list, ss) && l in LoadedFrom(reg, names, list)
    ensures s in ss && s.Valid() && s.list == list && s.id == l.id
    ensures KnownField(s.rule.field) && SameMeaning(s.rule, l.item) && s.actions == l.actions
  {
    LoadedAre(reg, names, list);
    var name :| name in names && Contribution(reg, name, list) == Some(l);
    assert IsName(ss, name);
    var k :| 0 <= k < |ss| && name == Name(ss[k]);
    StoredFate(reg, ss[k]);
    s := ss[k];
  }

  lemma StoredIsLoaded(reg: Registry, names: seq<ValueName>, ss: seq<Stored>, s: Stored) returns (l: Loaded)
    requires Separate(ss) && Carries(reg, names, s.list, ss) && s in ss && KnownField(s.rule.field)
    ensures l in LoadedFrom(reg, names, s.list) && l.id == s.id && SameMeaning(s.rule, l.item)
  {
    LoadedAre(reg, names, s.list);
    var k :| 0 <= k < |ss| && ss[k] == s;
    StoredFate(reg, s);
    l := FateOf(reg, Name(s)).loaded;
    assert Contribution(reg, Name(s), s.list) == Some(l);
  }

  // ----- matching

  /** What an entry amounts to in the driver: its rules on known fields, of which it needs one. */
  ghost predicate EntryMatches(kind: Kind, e: Entry, ev: Event) {
    && (exists r :: r in e.rules && KnownField(r.field))
    && forall r :: r in e.rules && KnownField(r.field) ==> RuleHolds(kind, r, ev)
  }

  ghost predicate LoadedMatches(kind: Kind, ls: seq<Loaded>, id: nat, ev: Event) {
    && (exists l :: l in ls && l.id == id)
    && forall l :: l in ls && l.id == id ==> Satisfied(kind, l.item, ev, 0)
  }

  /** No item of the list depends on the hits before it. */
  ghost predicate PlaceFree(kind: Kind, ls: seq<Loaded>, ev: Event) {
    forall l, i: nat :: l in ls ==> (Satisfied(kind, l.item, ev, i) <==> Satisfied(kind, l.item, ev, 0))
  }

  ghost predicate SomeGroupMatches(kind: Kind, ls: seq<Loaded>, id: nat, ev: Event) {
    exists g :: g in Grouped(ls) && g.id == id && GroupMatches(kind, g, ev)
  }

  lemma GroupItem(ls: seq<Loaded>, g: Group, j: nat) returns (l: Loaded)
    requires g in Grouped(ls) && j < |g.items|
    ensures l in ls && l.id == g.id && l.item == g.items[j]
  {
    GroupedById(ls);
    ItemsAre(ls, g.id);
    assert g.items == ItemsOf(ls, g.id);
    assert g.items[j] in ItemsOf(ls, g.id);
    l :| l in ls && l.id == g.id && l.item == g.items[j];
  }

  lemma ItemPlace(ls: seq<Loaded>, g: Group, l: Loaded) returns (j: nat)
    requires g in Grouped(ls) && l in ls && l.id == g.id
    ensures j < |g.items| && g.items[j] == l.item
  {
    GroupedById(ls);
    ItemsAre(ls, g.id);
    assert g.items == ItemsOf(ls, g.id);
    assert l.item in ItemsOf(ls, g.id);
    j :| 0 <= j < |g.items| && g.items[j] == l.item;
  }

  lemma GroupOfId(kind: Kind, ls: seq<Loaded>, g: Group, ev: Event)
    requires PlaceFree(kind, ls, ev) && g in Grouped(ls)
    ensures GroupMatches(kind, g, ev) <==> LoadedMatches(kind, ls, g.id, ev)
  {
    GroupedById(ls);
    assert g.items != [];
    var first := GroupItem(ls, g, 0);
    if GroupMatches(kind, g, ev) {
      forall l | l in ls && l.id == g.id
        ensures Satisfied(kind, l.item, ev, 0)
      {
        var j := ItemPlace(ls, g, l);
        assert Satisfied(kind, g.items[j], ev, j);
      }
    }
    if LoadedMatches(kind, ls, g.id, ev) {
      forall j: nat | j < |g.items|
        ensures Satisfied(kind, g.items[j], ev, j)
      {
        var l := GroupItem(ls, g, j);
      }
    }
  }

  /** A group's verdict depends on which items were loaded under its id, not on their order. */
  lemma GroupVerdict(kind: Kind, ls: seq<Loaded>, id: nat, ev: Event)
    requires PlaceFree(kind, ls, ev)
    ensures SomeGroupMatches(kind, ls, id, ev) <==> LoadedMatches(kind, ls, id, ev)
  {
    if g :| g in Grouped(ls) && g.id == id && GroupMatches(kind, g, ev) {
      GroupOfId(kind, ls, g, ev);
    }
    if LoadedMatches(kind, ls, id, ev) {
      GroupedById(ls);
      FirstIdsAre(ls);
      assert id in Ids(Grouped(ls));
      var k :| 0 <= k < |Ids(Grouped(ls))| && Ids(Grouped(ls))[k] == id;
      GroupOfId(kind, ls, Grouped(ls)[k], ev);
    }
  }

  lemma StoredPlaceFree(kind: Kind, reg: Registry, names: seq<ValueName>, list: nat, ss: seq<Stored>, ev: Event)
    requires Separate(ss) && Carries(reg, names, list, ss)
    ensures PlaceFree(kind, LoadedFrom(reg, names, list), ev)
  {
    forall l, i: nat | l in LoadedFrom(reg, names, list)
      ensures Satisfied(kind, l.item, ev, i) <==> Satisfied(kind, l.item, ev, 0)
    {
      var s := LoadedIsStored(reg, names, list, ss, l);
    }
  }

  ghost predicate Active(ss: seq<Stored>, s: Stored, list: nat, id: nat) {
    s in ss && s.list == list && s.id == id && KnownField(s.rule.field)
  }

  ghost predicate StoredMatches(kind: Kind, ss: seq<Stored>, list: nat, id: nat, ev: Event) {
    && (exists s :: Active(ss, s, list, id))
    && forall s :: Active(ss, s, list, id) ==> RuleHolds(kind, s.rule, ev)
  }

  lemma LoadedHold(kind: Kind, reg: Registry, names: seq<ValueName>, list: nat, ss: seq<Stored>, id: nat, ev: Event)
    requires Separate(ss) && Carries(reg, names, list, ss)
    requires LoadedMatches(kind, LoadedFrom(reg, names, list), id, ev)
    ensures StoredMatches(kind, ss, list, id, ev)
  {
    var ls := LoadedFrom(reg, names, list);
    var l :| l in ls && l.id == id;
    var origin := LoadedIsStored(reg, names, list, ss, l);
    assert Active(ss, origin, list, id);
    forall s | Active(ss, s, list, id)
      ensures RuleHolds(kind, s.rule, ev)
    {
      var loaded := StoredIsLoaded(reg, names, ss, s);
      assert Satisfied(kind, loaded.item, ev, 0);
    }
  }

  lemma StoredHold(kind: Kind, reg: Registry, names: seq<ValueName>, list: nat, ss: seq<Stored>, id: nat, ev: Event)
    requires Separate(ss) && Carries(reg, names, list, ss)
    requires StoredMatches(kind, ss, list, id, ev)
    ensures LoadedMatches(kind, LoadedFrom(reg, names, list), id, ev)
  {
    var ls := LoadedFrom(reg, names, list);
    var s :| Active(ss, s, list, id);
    var loaded := StoredIsLoaded(reg, names, ss, s);
    assert loaded in ls;
    forall l | l in ls && l.id == id
      ensures Satisfied(kind, l.item, ev, 0)
    {
      var origin := LoadedIsStored(reg, names, list, ss, l);
      assert Active(ss, origin, list, id);
    }
  }

  /** The verdict on an id in terms of the rules stored under it, whatever the enumeration. */
  lemma LoadedVerdict(kind: Kind, reg: Registry, names: seq<ValueName>, list: nat, ss: seq<Stored>, id: nat, ev: Event)
    requires Separate(ss) && Carries(reg, names, list, ss)
    ensures LoadedMatches(kind, LoadedFrom(reg, names, list), id, ev) <==> StoredMatches(kind, ss, list, id, ev)
  {
    if LoadedMatches(kind, LoadedFrom(reg, names, list), id, ev) {
      LoadedHold(kind, reg, names, list, ss, id, ev);
    }
    if StoredMatches(kind, ss, list, id, ev) {
      StoredHold(kind, reg, names, list, ss, id, ev);
    }
  }

  /** What a configuration stores. */
  ghost function StoredOf(calls: seq<Call>): (ss: seq<Stored>)
    requires Typed(calls) && CompileAll(calls).Some?
    ensures Separate(ss)
  {
    CompiledSeparate(calls);
    CompileAll(calls).value.stored
  }

  /** The rules stored for a kept entry's id are that entry's, so their verdict is the entry's. */
  lemma KeptVerdict(kind: Kind, calls: seq<Call>, c: nat, k: nat, ev: Event)
    requires Typed(calls) && CompileAll(calls).Some? && KeptAt(calls, c, k)
    ensures var e := calls[c].entries[k];
      StoredMatches(kind, StoredOf(calls), calls[c].list, e.id, ev) <==> EntryMatches(kind, e, ev)
  {
    var ss, list, e := StoredOf(calls), calls[c].list, calls[c].entries[k];
    forall s | Active(ss, s, list, e.id)
      ensures s.rule in e.rules
    {
      var d, l := StoredHasEntry(calls, s);
      KeptOnce(calls, c, k, d, l);
    }
    forall r | r in e.rules && KnownField(r.field)
      ensures exists s :: Active(ss, s, list, e.id) && s.rule == r
    {
      var s := EntryIsStored(calls, c, k, r);
      assert Active(ss, s, list, e.id);
    }
  }

  /** Entry `k` of call `c` is kept, belongs to the list and matches the event. */
  ghost predicate MatchesAt(kind: Kind, calls: seq<Call>, list: nat, ev: Event, c: nat, k: nat)
    requires CompileAll(calls).Some?
  {
    KeptAt(calls, c, k) && calls[c].list == list && EntryMatches(kind, calls[c].entries[k], ev)
  }

  /** Some kept entry of the list with this id matches. */
  ghost predicate IdMatches(kind: Kind, calls: seq<Call>, list: nat, id: nat, ev: Event)
    requires CompileAll(calls).Some?
  {
    exists c: nat, k: nat :: MatchesAt(kind, calls, list, ev, c, k) && calls[c].entries[k].id == id
  }

  /** Some kept entry of the list matches. */
  ghost predicate ListMatches(kind: Kind, calls: seq<Call>, list: nat, ev: Event)
    requires CompileAll(calls).Some?
  {
    exists c: nat, k: nat :: MatchesAt(kind, calls, list, ev, c, k)
  }

  /**
   Meaning preserved. If the values the driver processes, in whatever order, carry a list of a
   configuration that compiles, then the groups it loads that match an event are exactly those
   of the kept entries that have rules on known fields, all of which hold. In particular the
   matching ids do not depend on the order of enumeration.
   */
  lemma MeaningPreserved(calls: seq<Call>, reg: Registry, names: seq<ValueName>, list: nat, kind: Kind, id: nat,
                         ev: Event)
    requires Typed(calls) && CompileAll(calls).Some? && Carries(reg, names, list, StoredOf(calls))
    ensures SomeGroupMatches(kind, LoadedFrom(reg, names, list), id, ev) <==> IdMatches(kind, calls, list, id, ev)
  {
    var ss := StoredOf(calls);
    StoredPlaceFree(kind, reg, names, list, ss, ev);
    GroupVerdict(kind, LoadedFrom(reg, names, list), id, ev);
    LoadedVerdict(kind, reg, names, list, ss, id, ev);
    if StoredMatches(kind, ss, list, id, ev) {
      var s :| Active(ss, s, list, id);
      var c, k := StoredHasEntry(calls, s);
      KeptVerdict(kind, calls, c, k, ev);
      assert MatchesAt(kind, calls, list, ev, c, k);
    }
    if c: nat, k: nat :| MatchesAt(kind, calls, list, ev, c, k) && calls[c].entries[k].id == id {
      KeptVerdict(kind, calls, c, k, ev);
    }
  }

  lemma GroupIsEntry(calls: seq<Call>, reg: Registry, names: seq<ValueName>, list: nat, kind: Kind, ev: Event, k: nat)
    requires Typed(calls) && CompileAll(calls).Some? && Carries(reg, names, list, StoredOf(calls))
    requires k < |Grouped(LoadedFrom(reg, names, list))|
    requires GroupMatches(kind, Grouped(LoadedFrom(reg, names, list))[k], ev)
    ensures IdMatches(kind, calls, list, Grouped(LoadedFrom(reg, names, list))[k].id, ev)
  {
    var g := Grouped(LoadedFrom(reg, names, list))[k];
    assert SomeGroupMatches(kind, LoadedFrom(reg, names, list), g.id, ev);
    MeaningPreserved(calls, reg, names, list, kind, g.id, ev);
  }

  lemma EntryHasGroup(calls: seq<Call>, reg: Registry, names: seq<ValueName>, list: nat, kind: Kind, ev: Event,
                      c: nat, k: nat)
    requires Typed(calls) && CompileAll(calls).Some? && Carries(reg, names, list, StoredOf(calls))
    requires MatchesAt(kind, calls, list, ev, c, k)
    ensures AnyMatches(kind, Grouped(LoadedFrom(reg, names, list)), ev)
  {
    var groups, id := Grouped(LoadedFrom(reg, names, list)), calls[c].entries[k].id;
    assert IdMatches(kind, calls, list, id, ev);
    MeaningPreserved(calls, reg, names, list, kind, id, ev);
    var g :| g in groups && g.id == id && GroupMatches(kind, g, ev);
    var j :| 0 <= j < |groups| && groups[j] == g;
    assert GroupMatches(kind, groups[j], ev);
  }

  /** What a list matcher answers on the loaded list: whether some kept entry of it matches. */
  lemma ListVerdict(calls: seq<Call>, reg: Registry, names: seq<ValueName>, list: nat, kind: Kind, ev: Event)
    requires Typed(calls) && CompileAll(calls).Some? && Carries(reg, names, list, StoredOf(calls))
    ensures AnyMatches(kind, Grouped(LoadedFrom(reg, names, list)), ev) <==> ListMatches(kind, calls, list, ev)
  {
    var groups := Grouped(LoadedFrom(reg, names, list));
    if k: nat :| k < |groups| && GroupMatches(kind, groups[k], ev) {
      GroupIsEntry(calls, reg, names, list, kind, ev, k);
    }
    if c: nat, k: nat :| MatchesAt(kind, calls, list, ev, c, k) {
      EntryHasGroup(calls, reg, names, list, kind, ev, c, k);
    }
  }

  /**
   Loaded groups are never empty, and those of a configuration never have id 0, so the
   inspectors meet the documented policy on it.
   */
  lemma LoadedGroupsNamed(reg: Registry, names: seq<ValueName>, list: nat, ss: seq<Stored>)
    requires Separate(ss) && Carries(reg, names, list, ss)
    ensures var groups := Grouped(LoadedFrom(reg, names, list));
      && (forall k :: 0 <= k < |groups| ==> groups[k].items != [] && groups[k].id != 0)
      && forall kind, ev :: !NamelessHit(kind, groups, ev)
  {
    var ls := LoadedFrom(reg, names, list);
    GroupedById(ls);
    forall k | 0 <= k < |Grouped(ls)|
      ensures Grouped(ls)[k].items != [] && Grouped(ls)[k].id != 0
    {
      var l := GroupItem(ls, Grouped(ls)[k], 0);
      var s := LoadedIsStored(reg, names, list, ss, l);
    }
  }

  // ----- rules the driver drops

  /** What a rule is documented to ask: a field the driver drops is compared with the event's own value. */
  ghost predicate RuleMeans(kind: Kind, r: Rule, ev: Event) {
    if KnownField(r.field) then RuleHolds(kind, r, ev)
    else if r.value.Text? then r.field in ev.texts && StringHolds(r.op, ev.texts[r.field], r.value.bytes)
    else r.value.Number? && Documented(r.op, Num(ev, r.field), r.value.n, 4)
  }

  /** An event whose flag fields are 32-bit numbers. */
  predicate Proper(ev: Event) {
    0 <= Num(ev, PFLAGS) < 0x1_0000_0000 && 0 <= Num(ev, PHFLAGS) < 0x1_0000_0000
  }

  /** All of the rules hold, and there is one. */
  ghost predicate AllMean(kind: Kind, rules: seq<Rule>, ev: Event) {
    rules != [] && forall r :: r in rules ==> RuleMeans(kind, r, ev)
  }

  /** A rule on a dropped field that holds of every event. A flag rule with value 0 does not compile. */
  predicate Vacuous(r: Rule) {
    && !KnownField(r.field) && r.value.Number?
    && (r.op == LESS_OR_EQUAL || r.op == NOT_GREATER_THAN) && r.value.n == 0xFFFF_FFFF
  }

  lemma DroppedFields(r: Rule)
    requires r.Typed() && Compiles(r) && !KnownField(r.field)
    ensures r.field in {REG_DATA, ACCOUNT_NAME, ACCOUNT_DOMAIN, PFLAGS, PHFLAGS}
    ensures r.field in {PFLAGS, PHFLAGS} ==> r.value.Number? && 0 < r.value.n < 0x1_0000_0000
    ensures r.field !in {PFLAGS, PHFLAGS} ==> r.value.Text?
  {
    UnknownFields(r.field);
  }

  /** A 32-bit number that a flag rule rejects, unless the rule is vacuous. */
  function Rejected(r: Rule): nat
    requires r.value.Number? && 0 < r.value.n < 0x1_0000_0000
  {
    if r.op == NOT_AND || r.op == NOT_EQUALS then r.value.n
    else if r.op in {LESS_THAN, LESS_OR_EQUAL, NOT_GREATER_THAN} then 0xFFFF_FFFF
    else 0
  }

  lemma ZeroHasNoBits(n: nat)
    requires 0 < n < 0x1_0000_0000
    ensures !HasBits(0, n, 4)
  {
    Powers();
    assert And(0, n) == 0;
  }

  lemma FlagRuleIff(r: Rule, x: nat)
    requires !KnownField(r.field) && r.value.Number? && 0 < r.value.n < 0x1_0000_0000 && x < 0x1_0000_0000
    ensures Vacuous(r) ==> Documented(r.op, x, r.value.n, 4)
    ensures Documented(r.op, Rejected(r), r.value.n, 4) ==> Vacuous(r)
  {
    EqualHasBits(r.value.n, 4);
    ZeroHasNoBits(r.value.n);
  }

  /** The event with another value in a field the driver drops. */
  function Without(ev: Event, r: Rule): Event
    requires r.value.Number? ==> 0 < r.value.n < 0x1_0000_0000
  {
    if r.value.Number? then ev.(numbers := ev.numbers[r.field := Rejected(r)]) else ev.(texts := ev.texts - {r.field})
  }

  lemma KnownUnaffected(kind: Kind, q: Rule, r: Rule, ev: Event)
    requires KnownField(q.field) && !KnownField(r.field)
    requires r.value.Number? ==> 0 < r.value.n < 0x1_0000_0000
    ensures RuleHolds(kind, q, Without(ev, r)) <==> RuleHolds(kind, q, ev)
  {
    var after := Without(ev, r);
    assert KnownField(Source(q.field));
    assert Num(after, q.field) == Num(ev, q.field);
    assert Source(q.field) in after.texts <==> Source(q.field) in ev.texts;
  }

  lemma DroppedIsFalse(kind: Kind, r: Rule, ev: Event)
    requires r.Typed() && Compiles(r) && !KnownField(r.field) && !Vacuous(r) && Proper(ev)
    ensures r.value.Number? ==> 0 < r.value.n < 0x1_0000_0000
    ensures Proper(Without(ev, r)) && !RuleMeans(kind, r, Without(ev, r))
  {
    DroppedFields(r);
    if r.value.Number? {
      FlagRuleIff(r, 0);
    }
  }

  /** A dropped rule that is not vacuous can be made false without touching any rule the driver knows. */
  lemma DroppedRefuted(kind: Kind, r: Rule, ev: Event)
    requires r.Typed() && Compiles(r) && !KnownField(r.field) && !Vacuous(r) && Proper(ev)
    ensures r.value.Number? ==> 0 < r.value.n < 0x1_0000_0000
    ensures Proper(Without(ev, r)) && !RuleMeans(kind, r, Without(ev, r))
    ensures forall q: Rule :: KnownField(q.field) ==> (RuleHolds(kind, q, Without(ev, r)) <==> RuleHolds(kind, q, ev))
  {
    DroppedIsFalse(kind, r, ev);
    forall q: Rule | KnownField(q.field)
      ensures RuleHolds(kind, q, Without(ev, r)) <==> RuleHolds(kind, q, ev)
    {
      KnownUnaffected(kind, q, r, ev);
    }
  }

  ghost predicate CanHold(kind: Kind, rules: seq<Rule>) {
    exists ev :: Proper(ev) && AllMean(kind, rules, ev)
  }

  /** The rules of the entry whose fields the driver knows. */
  function KnownRules(rules: seq<Rule>): (known: seq<Rule>)
    ensures forall r :: r in known <==> r in rules && KnownField(r.field)
  {
    if rules == [] then [] else
      var rest := KnownRules(rules[1..]);
      assert rules == [rules[0]] + rules[1..];
      if KnownField(rules[0].field) then [rules[0]] + rest else rest
  }

  /** The driver decides as if it knew all fields, on this event. */
  ghost predicate Agrees(kind: Kind, e: Entry, ev: Event) {
    EntryMatches(kind, e, ev) <==> AllMean(kind, e.rules, ev)
  }

  lemma MatchesIffKnown(kind: Kind, e: Entry, ev: Event)
    ensures EntryMatches(kind, e, ev) <==> AllMean(kind, KnownRules(e.rules), ev)
  {
    var known := KnownRules(e.rules);
    if known != [] {
      assert known[0] in known;
    }
    if r :| r in e.rules && KnownField(r.field) {
      assert r in known;
    }
  }

  /**
   From any event that a loaded entry matches one gets, by changing the field of a dropped rule,
   an event that it still matches although that rule is false of it.
   */
  lemma DroppedRuleMissed(kind: Kind, e: Entry, r: Rule, ev: Event)
    requires r in e.rules && r.Typed() && Compiles(r) && !KnownField(r.field) && !Vacuous(r)
    requires Proper(ev) && EntryMatches(kind, e, ev)
    ensures r.value.Number? ==> 0 < r.value.n < 0x1_0000_0000
    ensures Proper(Without(ev, r)) && EntryMatches(kind, e, Without(ev, r)) && !AllMean(kind, e.rules, Without(ev, r))
  {
    DroppedRefuted(kind, r, ev);
  }

  lemma VacuousHold(kind: Kind, e: Entry, ev: Event)
    requires forall r :: r in e.rules ==> r.Typed() && Compiles(r)
    requires forall r :: r in e.rules && !KnownField(r.field) ==> Vacuous(r)
    requires Proper(ev)
    ensures forall r :: r in e.rules && !KnownField(r.field) ==> RuleMeans(kind, r, ev)
  {
    forall r | r in e.rules && !KnownField(r.field)
      ensures RuleMeans(kind, r, ev)
    {
      DroppedFields(r);
      FlagRuleIff(r, Num(ev, r.field));
    }
  }

  predicate AllVacuous(e: Entry) {
    forall r :: r in e.rules && !KnownField(r.field) ==> Vacuous(r)
  }

  ghost predicate AlwaysAgrees(kind: Kind, e: Entry) {
    forall ev :: Proper(ev) ==> Agrees(kind, e, ev)
  }

  lemma UnknownEntryIff(kind: Kind, e: Entry)
    requires KnownRules(e.rules) == []
    ensures AlwaysAgrees(kind, e) <==> !CanHold(kind, e.rules)
  {
    forall ev
      ensures !EntryMatches(kind, e, ev)
    {
      MatchesIffKnown(kind, e, ev);
    }
    if ev :| Proper(ev) && AllMean(kind, e.rules, ev) {
      assert !Agrees(kind, e, ev);
    }
  }

  lemma KnownEntryIff(kind: Kind, e: Entry)
    requires KnownRules(e.rules) != [] && forall r :: r in e.rules ==> r.Typed() && Compiles(r)
    ensures AlwaysAgrees(kind, e) <==> CanHold(kind, KnownRules(e.rules)) ==> AllVacuous(e)
  {
    if ev :| Proper(ev) && AllMean(kind, KnownRules(e.rules), ev) && !AllVacuous(e) {
      var r :| r in e.rules && !KnownField(r.field) && !Vacuous(r);
      MatchesIffKnown(kind, e, ev);
      DroppedRuleMissed(kind, e, r, ev);
      assert !Agrees(kind, e, Without(ev, r));
    }
    forall ev | Proper(ev)
      ensures AllVacuous(e) || !CanHold(kind, KnownRules(e.rules)) ==> Agrees(kind, e, ev)
    {
      MatchesIffKnown(kind, e, ev);
      if AllVacuous(e) {
        VacuousHold(kind, e, ev);
      }
    }
  }

  /**
   An entry is decided on every event as if the driver knew all its fields if and only if: with
   rules on known fields, either these hold of no event or all the rules it drops are vacuous;
   without any, its rules hold of no event.
   */
  lemma DocumentedEntryIff(kind: Kind, e: Entry)
    requires forall r :: r in e.rules ==> r.Typed() && Compiles(r)
    ensures AlwaysAgrees(kind, e) <==>
      if KnownRules(e.rules) == [] then !CanHold(kind, e.rules)
      else CanHold(kind, KnownRules(e.rules)) ==> AllVacuous(e)
  {
    if KnownRules(e.rules) == [] {
      UnknownEntryIff(kind, e);
    } else {
      KnownEntryIff(kind, e);
    }
  }

  // ----- the same condition, read off the rules

  predicate StringOperator(op: int) {
    op in {EQUALS, NOT_EQUALS, STARTS_WITH, NOT_STARTS_WITH, ENDS_WITH, NOT_ENDS_WITH, CONTAINS, NOT_CONTAINS}
  }

  predicate NumericOperator(op: int) {
    op in {AND, NOT_AND, EQUALS, NOT_EQUALS, GREATER_THAN, NOT_GREATER_THAN, GREAT_OR_EQUAL, LESS_THAN,
           NOT_LESS_THAN, LESS_OR_EQUAL}
  }

  /** Some event satisfies the rule, if its field is matched as text or dropped. */
  predicate Satisfiable(kind: Kind, r: Rule) {
    if KnownField(r.field) then CheckOf(kind, r.field).ByText? && r.value.Text? && StringOperator(r.op)
    else if r.value.Text? then StringOperator(r.op)
    else r.value.Number? && NumericOperator(r.op) && !(r.op == GREATER_THAN && r.value.n == 0xFFFF_FFFF)
  }

  /**
   Every field is asked for once, and those the driver knows are matched as text, or not at all.
   In lists for process events all known fields are.
   */
  predicate Plain(kind: Kind, rules: seq<Rule>) {
    && (forall r, q :: r in rules && q in rules && Source(r.field) == Source(q.field) ==> r == q)
    && forall r :: r in rules ==>
      r.Typed() && Compiles(r) && (KnownField(r.field) ==> CheckOf(kind, r.field) in {ByText, Unchecked})
  }

  /** A string that satisfies a text rule. */
  function SomeText(r: Rule): seq<byte>
    requires r.value.Text?
  {
    if r.op in {EQUALS, STARTS_WITH, ENDS_WITH, CONTAINS} then r.value.bytes else []
  }

  /** A number that satisfies a flag rule. */
  function SomeNumber(r: Rule): nat
    requires r.value.Number? && 0 < r.value.n < 0x1_0000_0000
  {
    if r.op in {NOT_EQUALS, NOT_AND, LESS_THAN} then 0
    else if r.op == GREATER_THAN && r.value.n < 0xFFFF_FFFF then r.value.n + 1
    else r.value.n
  }

  function Give(ev: Event, r: Rule): Event {
    if r.value.Text? then ev.(texts := ev.texts[Source(r.field) := SomeText(r)])
    else if r.value.Number? && 0 < r.value.n < 0x1_0000_0000
    then ev.(numbers := ev.numbers[r.field := SomeNumber(r)])
    else ev
  }

  /** An event with something in each field a rule asks for. */
  function Candidate(rules: seq<Rule>): Event {
    if rules == [] then Event(map[], map[], map[], map[], AsReceived)
    else Give(Candidate(rules[..|rules| - 1]), rules[|rules| - 1])
  }

  /** The event has in this rule's field what satisfies it. */
  predicate Given(ev: Event, r: Rule) {
    && (r.value.Text? ==> Source(r.field) in ev.texts && ev.texts[Source(r.field)] == SomeText(r))
    && (r.value.Number? ==> 0 < r.value.n < 0x1_0000_0000 && Num(ev, r.field) == SomeNumber(r))
  }

  lemma GiveGives(ev: Event, r: Rule)
    requires r.value.Number? ==> 0 < r.value.n < 0x1_0000_0000
    ensures Given(Give(ev, r), r)
  {
  }

  lemma GiveKeeps(ev: Event, r: Rule, other: Rule)
    requires Given(ev, r) && Source(r.field) != Source(other.field)
    ensures Given(Give(ev, other), r)
  {
  }

  lemma {:induction false} CandidateGives(kind: Kind, rules: seq<Rule>, r: Rule)
    requires Plain(kind, rules) && r in rules && Satisfiable(kind, r)
    ensures Given(Candidate(rules), r)
  {
    var before, last := rules[..|rules| - 1], rules[|rules| - 1];
    assert rules == before + [last] && last in rules;
    if r.value.Number? {
      DroppedFields(r);
    }
    if r == last {
      GiveGives(Candidate(before), r);
    } else {
      CandidateGives(kind, before, r);
      GiveKeeps(Candidate(before), r, last);
    }
  }

  lemma {:induction false} CandidateProper(rules: seq<Rule>)
    ensures Proper(Candidate(rules))
  {
    if rules != [] {
      CandidateProper(rules[..|rules| - 1]);
    }
  }

  lemma SatisfiedIsSatisfiable(kind: Kind, r: Rule, ev: Event)
    requires Plain(kind, [r]) && Proper(ev) && RuleMeans(kind, r, ev)
    ensures Satisfiable(kind, r)
  {
    assert r in [r];
    if !KnownField(r.field) {
      DroppedFields(r);
    }
  }

  lemma CandidateSatisfies(kind: Kind, rules: seq<Rule>, r: Rule)
    requires Plain(kind, rules) && r in rules && Satisfiable(kind, r)
    ensures RuleMeans(kind, r, Candidate(rules))
  {
    CandidateGives(kind, rules, r);
    if r.value.Number? {
      SomeNumberHolds(r);
    } else {
      SomeTextMeans(kind, r, Candidate(rules));
    }
  }

  lemma SomeTextMeans(kind: Kind, r: Rule, ev: Event)
    requires Satisfiable(kind, r) && r.value.Text? && r.value.bytes != []
    requires Source(r.field) in ev.texts && ev.texts[Source(r.field)] == SomeText(r)
    ensures RuleMeans(kind, r, ev)
  {
    SomeTextHolds(r);
    assert KnownField(r.field) || Source(r.field) == r.field;
  }

  lemma SomeNumberHolds(r: Rule)
    requires r.value.Number? && 0 < r.value.n < 0x1_0000_0000 && NumericOperator(r.op)
    requires !(r.op == GREATER_THAN && r.value.n == 0xFFFF_FFFF)
    ensures Documented(r.op, SomeNumber(r), r.value.n, 4)
  {
    EqualHasBits(r.value.n, 4);
    ZeroHasNoBits(r.value.n);
  }

  lemma SomeTextHolds(r: Rule)
    requires r.value.Text? && r.value.bytes != [] && StringOperator(r.op)
    ensures StringHolds(r.op, SomeText(r), r.value.bytes)
  {
    var v := r.value.bytes;
    assert v[0..0 + |v|] == v;
    assert OccursAt(v, v, 0);
  }

  lemma CanHoldIff(kind: Kind, rules: seq<Rule>)
    requires Plain(kind, rules)
    ensures CanHold(kind, rules) <==> rules != [] && forall r :: r in rules ==> Satisfiable(kind, r)
  {
    if ev :| Proper(ev) && AllMean(kind, rules, ev) {
      forall r | r in rules
        ensures Satisfiable(kind, r)
      {
        SatisfiedIsSatisfiable(kind, r, ev);
      }
    }
    if rules != [] && forall r :: r in rules ==> Satisfiable(kind, r) {
      CandidateProper(rules);
      forall r | r in rules
        ensures RuleMeans(kind, r, Candidate(rules))
      {
        CandidateSatisfies(kind, rules, r);
      }
      assert AllMean(kind, rules, Candidate(rules));
    }
  }

  /** Nothing is lost with the rules the driver drops, for all that can be read off the rules. */
  predicate DropsNothing(kind: Kind, e: Entry) {
    var known := KnownRules(e.rules);
    if known == []
    then e.rules == [] || exists r :: r in e.rules && !Satisfiable(kind, r)
    else (exists r :: r in known && !Satisfiable(kind, r)) || AllVacuous(e)
  }

  /**
   For an entry that asks for every field once, and for text where the driver knows the field,
   the exact condition is one on its operators and values: it is decided as documented if and
   only if some rule that counts can never hold or every rule dropped always does.
   */
  lemma PlainEntryIff(kind: Kind, e: Entry)
    requires Plain(kind, e.rules)
    ensures AlwaysAgrees(kind, e) <==> DropsNothing(kind, e)
  {
    DocumentedEntryIff(kind, e);
    CanHoldIff(kind, e.rules);
    CanHoldIff(kind, KnownRules(e.rules));
  }
}
