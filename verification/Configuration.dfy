/**
 A configuration: lists of entries compiled one after the other, what ends up stored for
 them in the registry, and under which names.
 */
module Configuration {
  import opened Bytes
  import opened RuleCodec
  import opened Addresses
  import opened Options
  import opened Loader
  import opened Compiler

  /** One call of the list compiler. A list may occur again, for example in a second file. */
  datatype Call = Call(list: nat, entries: seq<Entry>) {
    predicate Typed() {
      forall k :: 0 <= k < |entries| ==> entries[k].Typed()
    }
  }

  datatype Compiled = Compiled(ids: set<nat>, stored: seq<Stored>)

  /** All calls share the set of ids; action and running number start over with each. */
  function CompileAll(calls: seq<Call>): Option<Compiled> {
    if calls == [] then Some(Compiled({}, [])) else
      var before, last := CompileAll(calls[..|calls| - 1]), calls[|calls| - 1];
      if before.None? then None else
        var st := CompileList(last.list, last.entries, before.value.ids);
        if st.None? then None else Some(Compiled(st.value.ids, before.value.stored + st.value.stored))
  }

  ghost predicate Typed(calls: seq<Call>) {
    forall c :: 0 <= c < |calls| ==> calls[c].Typed()
  }

  /** Entry `k` is not skipped: its id occurs neither in earlier lists nor earlier in its own. */
  ghost predicate Kept(entries: seq<Entry>, ids: set<nat>, k: nat) {
    && k < |entries| && entries[k].id !in ids
    && forall j :: 0 <= j < k ==> entries[j].id != entries[k].id
  }

  lemma KeptUnique(entries: seq<Entry>, ids: set<nat>, j: nat, k: nat)
    requires Kept(entries, ids, j) && Kept(entries, ids, k) && entries[j].id == entries[k].id
    ensures j == k
  {
  }

  // ----- what is stored

  ghost predicate StoredFor(ss: seq<Stored>, id: nat, rule: Rule) {
    exists s :: s in ss && s.id == id && s.rule == rule
  }

  ghost predicate KeptRule(entries: seq<Entry>, ids: set<nat>, id: nat, rule: Rule) {
    exists k: nat :: Kept(entries, ids, k) && entries[k].id == id && rule in entries[k].rules
  }

  lemma {:induction false} CompiledIds(list: nat, entries: seq<Entry>, ids: set<nat>)
    requires CompileList(list, entries, ids).Some?
    ensures CompileList(list, entries, ids).value.ids == ids + set e | e in entries :: e.id
  {
    if entries != [] {
      var before, last := entries[..|entries| - 1], entries[|entries| - 1];
      CompiledIds(list, before, ids);
      assert entries == before + [last];
      assert (set e | e in entries :: e.id) == (set e | e in before :: e.id) + {last.id};
    }
  }

  lemma {:induction false} StoreRulesHave(list: nat, e: Entry, actions: nat, item: nat, id: nat, rule: Rule)
    ensures StoredFor(StoreRules(list, e.id, actions, item, e.rules), id, rule)
      <==> e.id == id && rule in e.rules
  {
    var more := StoreRules(list, e.id, actions, item, e.rules);
    if e.id == id && rule in e.rules {
      var j :| 0 <= j < |e.rules| && e.rules[j] == rule;
      assert more[j] in more;
    }
  }

  lemma StoredForAppend(a: seq<Stored>, b: seq<Stored>, id: nat, rule: Rule)
    ensures StoredFor(a + b, id, rule) <==> StoredFor(a, id, rule) || StoredFor(b, id, rule)
  {
    if StoredFor(a, id, rule) {
      var s :| s in a && s.id == id && s.rule == rule;
      assert s in a + b;
    }
    if StoredFor(b, id, rule) {
      var s :| s in b && s.id == id && s.rule == rule;
      assert s in a + b;
    }
  }

  lemma {:induction false} LastKept(entries: seq<Entry>, ids: set<nat>, id: nat, rule: Rule)
    requires entries != []
    ensures var before, last := entries[..|entries| - 1], entries[|entries| - 1];
      KeptRule(entries, ids, id, rule) <==>
        KeptRule(before, ids, id, rule)
        || (last.id !in ids + (set e | e in before :: e.id) && last.id == id && rule in last.rules)
  {
    var before, last := entries[..|entries| - 1], entries[|entries| - 1];
    var n := |before|;
    assert Kept(entries, ids, n) <==> last.id !in ids + set e | e in before :: e.id;
    if KeptRule(before, ids, id, rule) {
      var k: nat :| Kept(before, ids, k) && before[k].id == id && rule in before[k].rules;
      assert Kept(entries, ids, k);
    }
    if KeptRule(entries, ids, id, rule) {
      var k: nat :| Kept(entries, ids, k) && entries[k].id == id && rule in entries[k].rules;
      if k < n {
        assert Kept(before, ids, k);
      }
    }
  }

  /** The compiler stores exactly the rules of the kept entries, each under its entry's id. */
  lemma {:induction false} StoredAreKept(list: nat, entries: seq<Entry>, ids: set<nat>, id: nat, rule: Rule)
    requires CompileList(list, entries, ids).Some?
    ensures StoredFor(CompileList(list, entries, ids).value.stored, id, rule) <==> KeptRule(entries, ids, id, rule)
  {
    if entries == [] {
      assert !KeptRule([], ids, id, rule);
    } else {
      var before, last := entries[..|entries| - 1], entries[|entries| - 1];
      var st := CompileList(list, before, ids).value;
      StoredAreKept(list, before, ids, id, rule);
      CompiledIds(list, before, ids);
      LastKept(entries, ids, id, rule);
      if last.id !in st.ids {
        var actions := if last.action.Some? then last.action.value else st.actions;
        StoreRulesHave(list, last, actions, |st.stored|, id, rule);
        StoredForAppend(st.stored, StoreRules(list, last.id, actions, |st.stored|, last.rules), id, rule);
      }
    }
  }

  lemma {:induction false} KeptIffNew(list: nat, entries: seq<Entry>, ids: set<nat>)
    requires entries != [] && CompileList(list, entries[..|entries| - 1], ids).Some?
    ensures Kept(entries, ids, |entries| - 1) <==>
      entries[|entries| - 1].id !in CompileList(list, entries[..|entries| - 1], ids).value.ids
  {
    var before := entries[..|entries| - 1];
    CompiledIds(list, before, ids);
    assert forall j :: 0 <= j < |before| ==> before[j] in before && before[j] == entries[j];
  }

  /** What the agent asks of an entry: an id in range and, unless it is skipped, a supported action and valid rules. */
  ghost predicate EntryAccepted(entries: seq<Entry>, ids: set<nat>, k: nat)
    requires k < |entries|
  {
    && 1 <= entries[k].id <= 0xFFFF_FFFE
    && (Kept(entries, ids, k) ==>
         entries[k].action != Some(0) && forall r :: r in entries[k].rules ==> Compiles(r))
  }

  lemma AcceptedBefore(entries: seq<Entry>, ids: set<nat>, k: nat)
    requires entries != [] && k < |entries| - 1
    ensures EntryAccepted(entries[..|entries| - 1], ids, k) <==> EntryAccepted(entries, ids, k)
  {
    assert Kept(entries[..|entries| - 1], ids, k) <==> Kept(entries, ids, k);
  }

  /** A list compiles if and only if it is one of the 26 and the agent accepts all its entries. */
  lemma {:induction false} ListCompilesIff(list: nat, entries: seq<Entry>, ids: set<nat>)
    ensures CompileList(list, entries, ids).Some? <==>
      (list == 0x10 || 0xD0 <= list <= 0xE8) && forall k: nat :: k < |entries| ==> EntryAccepted(entries, ids, k)
  {
    if entries != [] {
      var n := |entries| - 1;
      ListCompilesIff(list, entries[..n], ids);
      forall k: nat | k < n
        ensures EntryAccepted(entries[..n], ids, k) <==> EntryAccepted(entries, ids, k)
      {
        AcceptedBefore(entries, ids, k);
      }
      if CompileList(list, entries[..n], ids).Some? {
        KeptIffNew(list, entries, ids);
      }
      assert (forall k: nat :: k < |entries| ==> EntryAccepted(entries, ids, k))
        <==> EntryAccepted(entries, ids, n) && forall k: nat :: k < n ==> EntryAccepted(entries[..n], ids, k);
    }
  }

  /** Rule `j` of an entry and all before it are valid. */
  ghost predicate ValidUpTo(rules: seq<Rule>, rule: Rule, j: nat) {
    j < |rules| && rules[j] == rule && forall i :: 0 <= i <= j ==> Compiles(rules[i])
  }

  lemma {:induction false} LeadingAre(rules: seq<Rule>, rule: Rule)
    ensures rule in rules[..Leading(rules)] <==> exists j: nat :: ValidUpTo(rules, rule, j)
  {
    var n := Leading(rules);
    if rule in rules[..n] {
      var j :| 0 <= j < n && rules[..n][j] == rule;
      assert forall i :: 0 <= i <= j ==> rules[i] == rules[..n][i];
      assert ValidUpTo(rules, rule, j);
    }
    if j: nat :| ValidUpTo(rules, rule, j) {
      assert j < n;
      assert rules[..n][j] == rule;
    }
  }

  lemma EntryValuesHave(list: nat, st: State, e: Entry, id: nat, rule: Rule)
    ensures StoredFor(EntryValues(list, st, e), id, rule) <==>
      && e.id == id && 1 <= id <= 0xFFFF_FFFE && e.action != Some(0) && id !in st.ids
      && exists j: nat :: ValidUpTo(e.rules, rule, j)
  {
    LeadingAre(e.rules, rule);
    var actions := if e.action.Some? then e.action.value else st.actions;
    StoreRulesHave(list, Entry(e.id, e.action, e.rules[..Leading(e.rules)]), actions, |st.stored|, id, rule);
  }

  lemma StoppedWritten(list: nat, entries: seq<Entry>, ids: set<nat>, n: nat)
    requires n < |entries| && CompileList(list, entries[..n], ids).Some?
    requires CompileList(list, entries[..n + 1], ids).None?
    ensures var st := CompileList(list, entries[..n], ids).value;
      Written(list, entries, ids) == st.stored + EntryValues(list, st, entries[n])
  {
    WrittenStops(list, entries, ids, n + 1);
    CompileNext(list, entries, ids, n, CompileList(list, entries[..n], ids).value);
  }

  /**
   Where the agent stops at entry `n`, it has written the rules of the entries kept before, and of
   entry `n`, if that is no repetition and its id and action are in order, those before the first
   invalid one.
   */
  lemma StoppedWrites(list: nat, entries: seq<Entry>, ids: set<nat>, n: nat, id: nat, rule: Rule)
    requires n < |entries| && CompileList(list, entries[..n], ids).Some?
    requires CompileList(list, entries[..n + 1], ids).None?
    ensures StoredFor(Written(list, entries, ids), id, rule) <==>
      || KeptRule(entries[..n], ids, id, rule)
      || (var e := entries[n];
          && e.id == id && 1 <= id <= 0xFFFF_FFFE && e.action != Some(0) && Kept(entries, ids, n)
          && exists j: nat :: ValidUpTo(e.rules, rule, j))
  {
    var st, e := CompileList(list, entries[..n], ids).value, entries[n];
    StoppedWritten(list, entries, ids, n);
    StoredAreKept(list, entries[..n], ids, id, rule);
    StoredForAppend(st.stored, EntryValues(list, st, e), id, rule);
    EntryValuesHave(list, st, e, id, rule);
    KeptAtStop(list, entries, ids, n);
  }

  lemma KeptAtStop(list: nat, entries: seq<Entry>, ids: set<nat>, n: nat)
    requires n < |entries| && CompileList(list, entries[..n], ids).Some?
    ensures Kept(entries, ids, n) <==> entries[n].id !in CompileList(list, entries[..n], ids).value.ids
  {
    assert entries[..n + 1][..n] == entries[..n];
    KeptIffNew(list, entries[..n + 1], ids);
    assert Kept(entries[..n + 1], ids, n) <==> Kept(entries, ids, n);
  }

  // ----- the parts of a configuration

  lemma {:induction false} CompileStopsAll(calls: seq<Call>, n: nat)
    requires n <= |calls| && CompileAll(calls).Some?
    ensures CompileAll(calls[..n]).Some?
    decreases |calls|
  {
    if n < |calls| {
      CompileStopsAll(calls[..|calls| - 1], n);
      assert calls[..|calls| - 1][..n] == calls[..n];
    } else {
      assert calls[..n] == calls;
    }
  }

  /** The ids taken when call `c` starts. */
  ghost function IdsBefore(calls: seq<Call>, c: nat): set<nat>
    requires CompileAll(calls).Some? && c <= |calls|
  {
    CompileStopsAll(calls, c);
    CompileAll(calls[..c]).value.ids
  }

  lemma PartCompiles(calls: seq<Call>, c: nat)
    requires CompileAll(calls).Some? && c < |calls|
    ensures CompileList(calls[c].list, calls[c].entries, IdsBefore(calls, c)).Some?
    ensures IdsBefore(calls, c + 1) == CompileList(calls[c].list, calls[c].entries, IdsBefore(calls, c)).value.ids
  {
    CompileStopsAll(calls, c);
    CompileStopsAll(calls, c + 1);
    assert calls[..c + 1][..c] == calls[..c];
  }

  /** What call `c` stores. */
  ghost function Part(calls: seq<Call>, c: nat): seq<Stored>
    requires CompileAll(calls).Some? && c < |calls|
  {
    PartCompiles(calls, c);
    CompileList(calls[c].list, calls[c].entries, IdsBefore(calls, c)).value.stored
  }

  lemma {:induction false} IdsGrow(calls: seq<Call>, c: nat, d: nat)
    requires CompileAll(calls).Some? && c <= d <= |calls|
    ensures IdsBefore(calls, c) <= IdsBefore(calls, d)
    decreases d
  {
    if c < d {
      IdsGrow(calls, c, d - 1);
      PartCompiles(calls, d - 1);
      CompiledIds(calls[d - 1].list, calls[d - 1].entries, IdsBefore(calls, d - 1));
    }
  }

  ghost predicate StoredBy(calls: seq<Call>, c: nat, s: Stored)
    requires CompileAll(calls).Some?
  {
    c < |calls| && s in Part(calls, c)
  }

  lemma PartOfPrefix(calls: seq<Call>, c: nat)
    requires CompileAll(calls).Some? && c < |calls| - 1
    ensures CompileAll(calls[..|calls| - 1]).Some?
    ensures IdsBefore(calls[..|calls| - 1], c) == IdsBefore(calls, c)
    ensures Part(calls[..|calls| - 1], c) == Part(calls, c)
  {
    assert calls[..|calls| - 1][..c] == calls[..c];
  }

  /** The configuration stores what its calls store, and nothing else. */
  lemma {:induction false} StoredByCalls(calls: seq<Call>, s: Stored)
    requires CompileAll(calls).Some?
    ensures s in CompileAll(calls).value.stored <==> exists c: nat :: StoredBy(calls, c, s)
  {
    if calls != [] {
      var n := |calls| - 1;
      var before := calls[..n];
      StoredByCalls(before, s);
      assert CompileAll(calls).value.stored == CompileAll(before).value.stored + Part(calls, n);
      if c: nat :| StoredBy(before, c, s) {
        PartOfPrefix(calls, c);
        assert StoredBy(calls, c, s);
      }
      if c: nat :| StoredBy(calls, c, s) {
        if c < n {
          PartOfPrefix(calls, c);
          assert StoredBy(before, c, s);
        }
      }
      assert s in Part(calls, n) ==> StoredBy(calls, n, s);
    }
  }

  /** Entry `k` of call `c` is kept, given the ids of the calls before it. */
  ghost predicate KeptAt(calls: seq<Call>, c: nat, k: nat)
    requires CompileAll(calls).Some?
  {
    c < |calls| && Kept(calls[c].entries, IdsBefore(calls, c), k)
  }

  /** Over a whole configuration an id is kept at most once. */
  lemma KeptOnce(calls: seq<Call>, c: nat, k: nat, d: nat, l: nat)
    requires CompileAll(calls).Some? && KeptAt(calls, c, k) && KeptAt(calls, d, l)
    requires calls[c].entries[k].id == calls[d].entries[l].id
    ensures c == d && k == l
  {
    if c < d {
      KeptIdTaken(calls, c, k);
      IdsGrow(calls, c + 1, d);
    } else if d < c {
      KeptIdTaken(calls, d, l);
      IdsGrow(calls, d + 1, c);
    } else {
      KeptUnique(calls[c].entries, IdsBefore(calls, c), k, l);
    }
  }

  lemma KeptIdTaken(calls: seq<Call>, c: nat, k: nat)
    requires CompileAll(calls).Some? && KeptAt(calls, c, k)
    ensures calls[c].entries[k].id in IdsBefore(calls, c + 1)
  {
    PartCompiles(calls, c);
    CompiledIds(calls[c].list, calls[c].entries, IdsBefore(calls, c));
    assert calls[c].entries[k] in calls[c].entries;
  }

  /** A stored value belongs to exactly one kept entry and is one of its rules. */
  lemma StoredHasEntry(calls: seq<Call>, s: Stored) returns (c: nat, k: nat)
    requires Typed(calls) && CompileAll(calls).Some? && s in CompileAll(calls).value.stored
    ensures KeptAt(calls, c, k) && StoredBy(calls, c, s)
    ensures calls[c].list == s.list && calls[c].entries[k].id == s.id && s.rule in calls[c].entries[k].rules
  {
    StoredByCalls(calls, s);
    c :| StoredBy(calls, c, s);
    PartCompiles(calls, c);
    var ids := IdsBefore(calls, c);
    assert calls[c].Typed();
    CompiledNumbered(calls[c].list, calls[c].entries, ids);
    StoredAreKept(calls[c].list, calls[c].entries, ids, s.id, s.rule);
    k :| Kept(calls[c].entries, ids, k) && calls[c].entries[k].id == s.id && s.rule in calls[c].entries[k].rules;
  }

  /** Every rule of a kept entry is stored under the entry's list and id. */
  lemma EntryIsStored(calls: seq<Call>, c: nat, k: nat, rule: Rule) returns (s: Stored)
    requires Typed(calls) && CompileAll(calls).Some? && KeptAt(calls, c, k) && rule in calls[c].entries[k].rules
    ensures s in CompileAll(calls).value.stored
    ensures s.list == calls[c].list && s.id == calls[c].entries[k].id && s.rule == rule
  {
    PartCompiles(calls, c);
    var ids, id := IdsBefore(calls, c), calls[c].entries[k].id;
    assert calls[c].Typed();
    CompiledNumbered(calls[c].list, calls[c].entries, ids);
    StoredAreKept(calls[c].list, calls[c].entries, ids, id, rule);
    s :| s in Part(calls, c) && s.id == id && s.rule == rule;
    assert StoredBy(calls, c, s);
    StoredByCalls(calls, s);
  }

  // ----- the registry holds them all

  /** No two stored values get the same name. */
  ghost predicate Separate(ss: seq<Stored>) {
    && (forall k :: 0 <= k < |ss| ==> ss[k].Valid())
    && forall i, j :: 0 <= i < j < |ss| ==>
      ss[i].list != ss[j].list || ss[i].id != ss[j].id || ss[i].item != ss[j].item
  }

  lemma {:induction false} CompiledSeparate(calls: seq<Call>)
    requires Typed(calls) && CompileAll(calls).Some?
    ensures Separate(CompileAll(calls).value.stored)
    ensures forall s :: s in CompileAll(calls).value.stored ==> s.id in CompileAll(calls).value.ids
  {
    if calls != [] {
      var before, last := calls[..|calls| - 1], calls[|calls| - 1];
      CompiledSeparate(before);
      var taken := CompileAll(before).value.ids;
      assert last.Typed();
      CompiledNumbered(last.list, last.entries, taken);
      CompiledIds(last.list, last.entries, taken);
      forall s | s in CompileList(last.list, last.entries, taken).value.stored
        ensures s.id !in taken && s.id in CompileAll(calls).value.ids
      {
        StoredAreKept(last.list, last.entries, taken, s.id, s.rule);
        var k: nat :| Kept(last.entries, taken, k) && last.entries[k].id == s.id;
        assert last.entries[k] in last.entries;
      }
    }
  }

  lemma NamesDiffer(ss: seq<Stored>, i: nat, j: nat)
    requires Separate(ss) && i < j < |ss|
    ensures Name(ss[i]) != Name(ss[j])
  {
    if Name(ss[i]) == Name(ss[j]) {
      NameDetermines(ss[i], ss[j]);
    }
  }

  lemma {:induction false} LastWriteStays(reg: Registry, ss: seq<Stored>, k: nat)
    requires k < |ss| && forall j :: k < j < |ss| ==> Name(ss[j]) != Name(ss[k])
    ensures Name(ss[k]) in WriteAll(reg, ss) && WriteAll(reg, ss)[Name(ss[k])] == Binary(ValueOf(ss[k]))
  {
    var before, last := ss[..|ss| - 1], ss[|ss| - 1];
    WriteOneOnly(WriteAll(reg, before), last, Name(ss[k]));
    if k < |ss| - 1 {
      LastWriteStays(reg, before, k);
    }
  }

  lemma WriteOneOnly(reg: Registry, s: Stored, name: ValueName)
    ensures Name(s) in WriteOne(reg, s) && WriteOne(reg, s)[Name(s)] == Binary(ValueOf(s))
    ensures name != Name(s) ==>
      (name in WriteOne(reg, s) <==> name in reg) && (name in reg ==> WriteOne(reg, s)[name] == reg[name])
  {
  }

  /** No value is overwritten: every stored value is found under its name. */
  lemma {:induction false} WrittenLookup(reg: Registry, ss: seq<Stored>, k: nat)
    requires Separate(ss) && k < |ss|
    ensures Name(ss[k]) in WriteAll(reg, ss) && WriteAll(reg, ss)[Name(ss[k])] == Binary(ValueOf(ss[k]))
  {
    forall j | k < j < |ss|
      ensures Name(ss[j]) != Name(ss[k])
    {
      NamesDiffer(ss, k, j);
    }
    LastWriteStays(reg, ss, k);
  }

  ghost predicate IsName(ss: seq<Stored>, name: ValueName)
    requires Separate(ss)
  {
    exists k :: 0 <= k < |ss| && name == Name(ss[k])
  }

  lemma {:induction false} OtherNames(reg: Registry, ss: seq<Stored>, name: ValueName)
    requires forall k :: 0 <= k < |ss| ==> Name(ss[k]) != name
    ensures name in WriteAll(reg, ss) <==> name in reg
    ensures name in reg ==> WriteAll(reg, ss)[name] == reg[name]
  {
    if ss != [] {
      OtherNames(reg, ss[..|ss| - 1], name);
    }
  }

  /** Values under other names stay as they were. */
  lemma {:induction false} WrittenElse(reg: Registry, ss: seq<Stored>, name: ValueName)
    requires Separate(ss) && !IsName(ss, name)
    ensures name in WriteAll(reg, ss) <==> name in reg
    ensures name in reg ==> WriteAll(reg, ss)[name] == reg[name]
  {
    OtherNames(reg, ss, name);
  }

  // ----- the loop over the lists

  lemma {:induction false} CompileAllNext(calls: seq<Call>, c: nat)
    requires c < |calls| && CompileAll(calls[..c]).Some?
    ensures var before := CompileAll(calls[..c]).value;
      var st := CompileList(calls[c].list, calls[c].entries, before.ids);
      CompileAll(calls[..c + 1])
        == if st.None? then None else Some(Compiled(st.value.ids, before.stored + st.value.stored))
  {
    assert calls[..c + 1][..c] == calls[..c];
  }

  /** The values written for a configuration, up to the point where the compiler stops. */
  function WrittenFor(calls: seq<Call>): seq<Stored> {
    if calls == [] then [] else
      var before, last := CompileAll(calls[..|calls| - 1]), calls[|calls| - 1];
      if before.None? then WrittenFor(calls[..|calls| - 1])
      else before.value.stored + Written(last.list, last.entries, before.value.ids)
  }

  lemma {:induction false} WrittenForStops(calls: seq<Call>, c: nat)
    requires c <= |calls| && CompileAll(calls[..c]).None?
    ensures CompileAll(calls).None? && WrittenFor(calls) == WrittenFor(calls[..c])
    decreases |calls| - c
  {
    if c < |calls| {
      assert calls[..c + 1][..c] == calls[..c];
      WrittenForStops(calls, c + 1);
    } else {
      assert calls[..c] == calls;
    }
  }

  lemma WrittenForNext(calls: seq<Call>, c: nat)
    requires c < |calls| && CompileAll(calls[..c]).Some?
    ensures var before := CompileAll(calls[..c]).value;
      WrittenFor(calls[..c + 1]) == before.stored + Written(calls[c].list, calls[c].entries, before.ids)
  {
    assert calls[..c + 1][..c] == calls[..c];
  }

  lemma {:induction false} WrittenForCompiled(calls: seq<Call>)
    requires CompileAll(calls).Some?
    ensures WrittenFor(calls) == CompileAll(calls).value.stored
  {
    if calls != [] {
      var last := calls[|calls| - 1];
      WrittenIfCompiled(last.list, last.entries, CompileAll(calls[..|calls| - 1]).value.ids);
    }
  }

  /** One list of the configuration: what is in the registry afterwards, also if the compiler stops. */
  method ConfigureNext(agent: RuleWriter, calls: seq<Call>, c: nat, ghost reg0: Registry) returns (ok: bool)
    requires Typed(calls) && c < |calls| && CompileAll(calls[..c]).Some?
    requires var before := CompileAll(calls[..c]).value;
      agent.ids == before.ids && agent.registry == WriteAll(reg0, before.stored)
    modifies agent
    ensures ok <==> CompileAll(calls[..c + 1]).Some?
    ensures agent.registry == WriteAll(reg0, WrittenFor(calls[..c + 1]))
    ensures ok ==> agent.ids == CompileAll(calls[..c + 1]).value.ids
    ensures ok ==> WrittenFor(calls[..c + 1]) == CompileAll(calls[..c + 1]).value.stored
  {
    ghost var before := CompileAll(calls[..c]).value;
    assert calls[c].Typed();
    CompileAllNext(calls, c);
    WrittenForNext(calls, c);
    ok := agent.ProcessList(calls[c].list, calls[c].entries);
    WriteAllSplit(reg0, before.stored, Written(calls[c].list, calls[c].entries, before.ids));
  }

  /**
   Compiling a configuration writes its values over whatever the registry key held, or stops
   with an error exactly when some list does not compile, leaving the values written so far.
   */
  method Configure(agent: RuleWriter, calls: seq<Call>) returns (ok: bool)
    requires Typed(calls) && agent.ids == {}
    modifies agent
    ensures ok <==> CompileAll(calls).Some?
    ensures agent.registry == WriteAll(old(agent.registry), WrittenFor(calls))
    ensures ok ==> Separate(CompileAll(calls).value.stored) && WrittenFor(calls) == CompileAll(calls).value.stored
  {
    ghost var reg0 := agent.registry;
    for c := 0 to |calls|
      invariant CompileAll(calls[..c]).Some?
      invariant agent.ids == CompileAll(calls[..c]).value.ids
      invariant agent.registry == WriteAll(reg0, CompileAll(calls[..c]).value.stored)
    {
      ok := ConfigureNext(agent, calls, c, reg0);
      if !ok {
        WrittenForStops(calls, c + 1);
        return;
      }
    }
    assert calls[..|calls|] == calls;
    WrittenForCompiled(calls);
    CompiledSeparate(calls);
    return true;
  }
}
