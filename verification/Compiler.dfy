/**
 The agent's rule compiler: entries of a list become registry values, one for each rule,
 under names that carry the list, the entry's id and a running number.
 */
module Compiler {
  import opened Bytes
  import opened Addresses
  import opened Options
  import opened Matching
  import opened RuleCodec
  import opened Loader

  /** `action` is None where the entry names none, and Some(0) where it names an unsupported one. */
  datatype Entry = Entry(id: nat, action: Option<nat>, rules: seq<Rule>) {
    predicate Typed() {
      && (action.Some? ==> action.value < 0x1_0000_0000)
      && forall j :: 0 <= j < |rules| ==> rules[j].Typed()
    }
  }

  /** A registry value before it is encoded. */
  datatype Stored = Stored(list: nat, id: nat, item: nat, actions: nat, rule: Rule) {
    predicate Valid() {
      && IsList(list) && 0 < id < 0xFFFF_FFFF && actions < 0x1_0000_0000
      && rule.Typed() && Compiles(rule)
    }
  }

  /** The variables the compiler carries from entry to entry. */
  datatype State = State(ids: set<nat>, actions: nat, stored: seq<Stored>)

  function StoreRules(list: nat, id: nat, actions: nat, item: nat, rules: seq<Rule>): (ss: seq<Stored>)
    ensures |ss| == |rules|
    ensures forall j :: 0 <= j < |rules| ==> ss[j] == Stored(list, id, item + j, actions, rules[j])
  {
    seq(|rules|, j requires 0 <= j < |rules| => Stored(list, id, item + j, actions, rules[j]))
  }

  predicate RulesCompile(rules: seq<Rule>) {
    forall j :: 0 <= j < |rules| ==> Compiles(rules[j])
  }

  /**
   One entry. None stands for the fatal exits: an id out of range, an unsupported action or a
   rule that does not compile. An id seen before skips the entry; an entry without an action
   goes with the action of the entry before it.
   */
  function EntryStep(list: nat, st: State, e: Entry): Option<State> {
    if e.id == 0 || e.id >= 0xFFFF_FFFF then None
    else if e.id in st.ids then Some(st)
    else
      var actions := if e.action.Some? then e.action.value else st.actions;
      if (e.action.Some? && actions == 0) || !RulesCompile(e.rules) then None
      else Some(State(st.ids + {e.id}, actions, st.stored + StoreRules(list, e.id, actions, |st.stored|, e.rules)))
  }

  function CompileList(list: nat, entries: seq<Entry>, ids: set<nat>): Option<State> {
    if entries == [] then (if IsList(list) then Some(State(ids, 0, [])) else None) else
      var before := CompileList(list, entries[..|entries| - 1], ids);
      if before.None? then None else EntryStep(list, before.value, entries[|entries| - 1])
  }

  /** How many rules compile before the first one that does not. */
  function Leading(rules: seq<Rule>): (n: nat)
    ensures n <= |rules| && RulesCompile(rules[..n])
    ensures n < |rules| ==> !Compiles(rules[n])
  {
    if rules == [] || !Compiles(rules[0]) then 0 else 1 + Leading(rules[1..])
  }

  lemma LeadingStep(rules: seq<Rule>, n: nat)
    requires n < |rules| && n <= Leading(rules)
    ensures if Compiles(rules[n]) then n < Leading(rules) else n == Leading(rules)
  {
    if n < Leading(rules) {
      assert Compiles(rules[..Leading(rules)][n]);
    }
  }

  lemma LeadingAll(rules: seq<Rule>)
    ensures Leading(rules) == |rules| <==> RulesCompile(rules)
    ensures Leading(rules) == |rules| ==> rules[..Leading(rules)] == rules
  {
    if Leading(rules) == |rules| {
      assert rules[..Leading(rules)] == rules;
    }
  }

  /** The values written for an entry, up to the one at which the compiler stops. */
  function EntryValues(list: nat, st: State, e: Entry): seq<Stored> {
    if e.id == 0 || e.id >= 0xFFFF_FFFF || e.id in st.ids || e.action == Some(0) then [] else
      var actions := if e.action.Some? then e.action.value else st.actions;
      StoreRules(list, e.id, actions, |st.stored|, e.rules[..Leading(e.rules)])
  }

  /** The values written for a list, up to the point where the compiler stops. */
  function Written(list: nat, entries: seq<Entry>, ids: set<nat>): seq<Stored> {
    if entries == [] then [] else
      var before := CompileList(list, entries[..|entries| - 1], ids);
      if before.None? then Written(list, entries[..|entries| - 1], ids)
      else before.value.stored + EntryValues(list, before.value, entries[|entries| - 1])
  }

  /** If the compiler gets through, it has written what the list compiles to. */
  lemma WrittenIfCompiled(list: nat, entries: seq<Entry>, ids: set<nat>)
    requires CompileList(list, entries, ids).Some?
    ensures Written(list, entries, ids) == CompileList(list, entries, ids).value.stored
  {
    if entries != [] {
      var last := entries[|entries| - 1];
      var st := CompileList(list, entries[..|entries| - 1], ids).value;
      if last.id in st.ids {
        assert st.stored + [] == st.stored;
      } else {
        LeadingAll(last.rules);
      }
    }
  }

  lemma {:induction false} WrittenStops(list: nat, entries: seq<Entry>, ids: set<nat>, n: nat)
    requires n <= |entries| && CompileList(list, entries[..n], ids).None?
    ensures Written(list, entries, ids) == Written(list, entries[..n], ids)
    decreases |entries| - n
  {
    if n < |entries| {
      assert entries[..n + 1][..n] == entries[..n];
      WrittenStops(list, entries, ids, n + 1);
    } else {
      assert entries[..n] == entries;
    }
  }

  lemma {:induction false} CompileStops(list: nat, entries: seq<Entry>, ids: set<nat>, n: nat)
    requires n <= |entries| && CompileList(list, entries[..n], ids).None?
    ensures CompileList(list, entries, ids).None?
    decreases |entries| - n
  {
    if n < |entries| {
      assert entries[..n + 1][..n] == entries[..n];
      CompileStops(list, entries, ids, n + 1);
    } else {
      assert entries[..n] == entries;
    }
  }

  // ----- names

  function Itoa(n: nat): (s: string)
    ensures s != []
  {
    var digit := [(('0' as int) + n % 10) as char];
    if n < 10 then digit else Itoa(n / 10) + digit
  }

  lemma {:induction false} ItoaDigits(n: nat)
    ensures forall i :: 0 <= i < |Itoa(n)| ==> '0' <= Itoa(n)[i] <= '9'
  {
    if n >= 10 {
      ItoaDigits(n / 10);
    }
  }

  lemma {:induction false} ItoaInjective(m: nat, n: nat)
    requires Itoa(m) == Itoa(n)
    ensures m == n
  {
    var s := Itoa(m);
    assert s[|s| - 1] as int == '0' as int + m % 10 == '0' as int + n % 10;
    if m >= 10 && n >= 10 {
      assert s[..|s| - 1] == Itoa(m / 10) == Itoa(n / 10);
      ItoaInjective(m / 10, n / 10);
    }
  }

  /** The agent's table of prefixes; it agrees with the driver's. */
  function ValuePrefix(list: nat): (prefix: string)
    requires IsList(list)
    ensures prefix == PrefixAt(IndexOf(list))
  {
    match list
    case 0x10 => "CFG_PBL_"
    case 0xD0 => "CFG_PINC_"
    case 0xD1 => "CFG_PEXC_"
    case 0xD2 => "CFG_PTINC_"
    case 0xD3 => "CFG_PTEXC_"
    case 0xD4 => "CFG_TBL_"
    case 0xD5 => "CFG_TINC_"
    case 0xD6 => "CFG_TEXC_"
    case 0xD7 => "CFG_MBL_"
    case 0xD8 => "CFG_MINC_"
    case 0xD9 => "CFG_MEXC"
    case 0xDA => "CFG_OBL_"
    case 0xDB => "CFG_OINC_"
    case 0xDC => "CFG_OEXC_"
    case 0xDD => "CFG_RBL_"
    case 0xDE => "CFG_RINC_"
    case 0xDF => "CFG_REXC_"
    case 0xE0 => "CFG_FCBL_"
    case 0xE1 => "CFG_FCINC_"
    case 0xE2 => "CFG_FCEXC_"
    case 0xE3 => "CFG_FSBL_"
    case 0xE4 => "CFG_FSINC_"
    case 0xE5 => "CFG_FSEXC_"
    case 0xE6 => "CFG_WBL_"
    case 0xE7 => "CFG_WINC_"
    case _ => "CFG_WEXC_"
  }

  function NameOf(list: nat, id: nat, item: nat): (name: ValueName)
    requires IsList(list)
  {
    NameIsUppercase(list, id, item);
    ValuePrefix(list) + (Itoa(id) + "_" + Itoa(item))
  }

  lemma NameIsUppercase(list: nat, id: nat, item: nat)
    requires IsList(list)
    ensures Uppercase(PrefixAt(IndexOf(list)) + (Itoa(id) + "_" + Itoa(item)))
  {
    PrefixIsUppercase(IndexOf(list));
    ItoaDigits(id);
    ItoaDigits(item);
    JoinedUppercase(Itoa(id), "_");
    JoinedUppercase(Itoa(id) + "_", Itoa(item));
    JoinedUppercase(PrefixAt(IndexOf(list)), Itoa(id) + "_" + Itoa(item));
  }

  lemma PrefixIsUppercase(i: nat)
    requires i < LIST_COUNT
    ensures Uppercase(PrefixAt(i))
  {
  }

  lemma JoinedUppercase(a: string, b: string)
    requires Uppercase(a) && Uppercase(b)
    ensures Uppercase(a + b)
  {
  }

  function Name(s: Stored): ValueName {
    if IsList(s.list) then NameOf(s.list, s.id, s.item) else ""
  }

  lemma NoLaterUnderscore(a: string, n: nat, k: nat)
    requires |a| < k < |a + "_" + Itoa(n)|
    ensures (a + "_" + Itoa(n))[k] != '_'
  {
    ItoaDigits(n);
    assert (a + "_" + Itoa(n))[k] == Itoa(n)[k - |a| - 1];
  }

  /** Equal strings have equal last underscores, and so the same text before and number behind it. */
  lemma LastNumber(a: string, m: nat, b: string, n: nat)
    requires a + "_" + Itoa(m) == b + "_" + Itoa(n)
    ensures m == n && a == b
  {
    var s, t := a + "_" + Itoa(m), b + "_" + Itoa(n);
    assert s[|a|] == '_' && t[|b|] == '_';
    if |a| < |b| {
      NoLaterUnderscore(a, m, |b|);
    } else if |b| < |a| {
      NoLaterUnderscore(b, n, |a|);
    }
    assert s[|a| + 1..] == Itoa(m) && t[|b| + 1..] == Itoa(n);
    assert s[..|a|] == a && t[..|b|] == b;
    ItoaInjective(m, n);
  }

  lemma Regroup(p: string, id: string, item: string)
    ensures p + (id + "_" + item) == p + id + "_" + item
  {
    Associative(p, id + "_", item);
    Associative(p, id, "_");
  }

  /** A value's name determines its list, its entry's id and its running number. */
  lemma NameDetermines(s: Stored, t: Stored)
    requires IsList(s.list) && IsList(t.list) && Name(s) == Name(t)
    ensures s.list == t.list && s.id == t.id && s.item == t.item
  {
    NameResolves(s.list, Itoa(s.id) + "_" + Itoa(s.item));
    NameResolves(t.list, Itoa(t.id) + "_" + Itoa(t.item));
    var p := PrefixAt(IndexOf(s.list));
    Regroup(p, Itoa(s.id), Itoa(s.item));
    Regroup(p, Itoa(t.id), Itoa(t.item));
    LastNumber(p + Itoa(s.id), s.item, p + Itoa(t.id), t.item);
    assert (p + Itoa(s.id))[|p|..] == Itoa(s.id) && (p + Itoa(t.id))[|p|..] == Itoa(t.id);
    ItoaInjective(s.id, t.id);
  }

  // ----- the registry

  /** The bytes of a stored rule; there are none for one that does not compile. */
  function ValueOf(s: Stored): seq<byte> {
    if Compiles(s.rule) then BlobOf(s.rule, s.list, s.id, s.actions) else []
  }

  function WriteOne(reg: Registry, s: Stored): Registry {
    reg[Name(s) := Binary(ValueOf(s))]
  }

  function WriteAll(reg: Registry, ss: seq<Stored>): Registry {
    if ss == [] then reg else WriteOne(WriteAll(reg, ss[..|ss| - 1]), ss[|ss| - 1])
  }

  lemma {:induction false} WriteAllThenOne(reg: Registry, ss: seq<Stored>, last: Stored)
    ensures WriteAll(reg, ss + [last]) == WriteOne(WriteAll(reg, ss), last)
  {
    assert (ss + [last])[..|ss + [last]| - 1] == ss;
  }

  lemma {:induction false} WriteAllSplit(reg: Registry, a: seq<Stored>, b: seq<Stored>)
    ensures WriteAll(reg, a + b) == WriteAll(WriteAll(reg, a), b)
  {
    if b == [] {
      assert a + b == a;
    } else {
      var before, last := b[..|b| - 1], b[|b| - 1];
      WriteAllSplit(reg, a, before);
      WriteAllThenOne(reg, a + before, last);
      WriteAllThenOne(WriteAll(reg, a), before, last);
      SplitLast(a, b);
    }
  }

  lemma {:induction false} WriteAllNext(reg: Registry, ss: seq<Stored>, j: nat)
    requires j < |ss|
    ensures WriteAll(reg, ss[..j + 1]) == WriteOne(WriteAll(reg, ss[..j]), ss[j])
  {
    assert ss[..j + 1][..j] == ss[..j];
  }

  /** What holds of every compiled list. */
  ghost predicate Numbered(list: nat, st: State) {
    && st.actions < 0x1_0000_0000
    && forall k :: 0 <= k < |st.stored| ==>
      st.stored[k].Valid() && st.stored[k].list == list && st.stored[k].item == k
  }

  lemma {:induction false} CompiledNumbered(list: nat, entries: seq<Entry>, ids: set<nat>)
    requires forall k :: 0 <= k < |entries| ==> entries[k].Typed()
    requires CompileList(list, entries, ids).Some?
    ensures IsList(list) && Numbered(list, CompileList(list, entries, ids).value)
  {
    if entries != [] {
      CompiledNumbered(list, entries[..|entries| - 1], ids);
    }
  }

  lemma {:induction false} StoredValid(list: nat, id: nat, actions: nat, item: nat, rules: seq<Rule>)
    requires IsList(list) && 0 < id < 0xFFFF_FFFF && actions < 0x1_0000_0000
    requires RulesCompile(rules) && forall j :: 0 <= j < |rules| ==> rules[j].Typed()
    ensures forall k :: 0 <= k < |rules| ==> StoreRules(list, id, actions, item, rules)[k].Valid()
  {
    var more := StoreRules(list, id, actions, item, rules);
    forall k | 0 <= k < |more|
      ensures more[k].Valid()
    {
      assert rules[k].Typed() && Compiles(rules[k]);
    }
  }

  lemma {:induction false} EntryWrites(list: nat, st: State, e: Entry, actions: nat, reg: Registry)
    requires IsList(list) && Numbered(list, st) && e.Typed()
    requires 0 < e.id < 0xFFFF_FFFF && actions < 0x1_0000_0000
    ensures var more := StoreRules(list, e.id, actions, |st.stored|, e.rules[..Leading(e.rules)]);
      && Numbered(list, State(st.ids + {e.id}, actions, st.stored + more))
      && WriteAll(reg, st.stored + more) == WriteAll(WriteAll(reg, st.stored), more)
  {
    var rules := e.rules[..Leading(e.rules)];
    StoredValid(list, e.id, actions, |st.stored|, rules);
    WriteAllSplit(reg, st.stored, StoreRules(list, e.id, actions, |st.stored|, rules));
  }

  /** An entry all of whose rules compile: the step it makes, and the registry after it. */
  lemma EntryCompiled(list: nat, st: State, e: Entry, reg: Registry) returns (after: State)
    requires IsList(list) && Numbered(list, st) && e.Typed() && RulesCompile(e.rules)
    requires 0 < e.id < 0xFFFF_FFFF && e.id !in st.ids && e.action != Some(0)
    ensures EntryStep(list, st, e) == Some(after) && Numbered(list, after)
    ensures after.ids == st.ids + {e.id} && |after.stored| == |st.stored| + |e.rules|
    ensures after.actions == if e.action.Some? then e.action.value else st.actions
    ensures WriteAll(reg, after.stored) == WriteAll(WriteAll(reg, st.stored), EntryValues(list, st, e))
  {
    var actions := if e.action.Some? then e.action.value else st.actions;
    LeadingAll(e.rules);
    EntryWrites(list, st, e, actions, reg);
    after := State(st.ids + {e.id}, actions, st.stored + StoreRules(list, e.id, actions, |st.stored|, e.rules));
  }

  lemma CompileNext(list: nat, entries: seq<Entry>, ids: set<nat>, n: nat, st: State)
    requires n < |entries| && CompileList(list, entries[..n], ids) == Some(st)
    ensures CompileList(list, entries[..n + 1], ids) == EntryStep(list, st, entries[n])
    ensures Written(list, entries[..n + 1], ids) == st.stored + EntryValues(list, st, entries[n])
  {
    assert entries[..n + 1][..n] == entries[..n];
  }

  /** A compiler that stops at an entry has written what was compiled and that entry's leading rules. */
  lemma StoppedAt(list: nat, entries: seq<Entry>, ids: set<nat>, n: nat, st: State, reg: Registry)
    requires n < |entries| && CompileList(list, entries[..n], ids) == Some(st) && EntryStep(list, st, entries[n]).None?
    ensures CompileList(list, entries, ids).None?
    ensures WriteAll(reg, Written(list, entries, ids))
      == WriteAll(WriteAll(reg, st.stored), EntryValues(list, st, entries[n]))
  {
    CompileNext(list, entries, ids, n, st);
    CompileStops(list, entries, ids, n + 1);
    WrittenStops(list, entries, ids, n + 1);
    WriteAllSplit(reg, st.stored, EntryValues(list, st, entries[n]));
  }

  class RuleWriter {
    var registry: Registry
    var ids: set<nat>

    constructor ()
      ensures registry == map[] && ids == {}
    {
      registry, ids := map[], {};
    }

    /** One rule: encode it and write its value, or refuse it and write nothing. */
    method WriteRule(s: Stored) returns (ok: bool)
      requires IsList(s.list) && 0 < s.id < 0xFFFF_FFFF && s.actions < 0x1_0000_0000 && s.rule.Typed()
      modifies this`registry
      ensures ok <==> Compiles(s.rule)
      ensures registry == if ok then WriteOne(old(registry), s) else old(registry)
    {
      var rule := s.rule;
      var payload := StringToMessage(rule.field, rule.value);
      if !rule.validated || !VerifyIpv4(rule.value) || rule.op == 0 || rule.field == 0
         || payload.None? || payload.value == [] {
        return false;
      }
      PayloadFits(rule);
      var data := WriteBlob(HeaderOf(rule, s.list, s.id, s.actions), payload.value);
      registry := registry[Name(s) := Binary(data[..])];
      return true;
    }

    /** The inner loop: encode and write one value for each rule, or stop at one that does not compile. */
    method WriteRules(list: nat, id: nat, actions: nat, item: nat, rules: seq<Rule>) returns (ok: bool)
      requires IsList(list) && 0 < id < 0xFFFF_FFFF && actions < 0x1_0000_0000
      requires forall j :: 0 <= j < |rules| ==> rules[j].Typed()
      modifies this`registry
      ensures ok <==> RulesCompile(rules)
      ensures registry == WriteAll(old(registry), StoreRules(list, id, actions, item, rules[..Leading(rules)]))
    {
      ghost var all := StoreRules(list, id, actions, item, rules[..Leading(rules)]);
      LeadingAll(rules);
      for j := 0 to |rules|
        invariant j <= |all| == Leading(rules)
        invariant registry == WriteAll(old(registry), all[..j])
      {
        LeadingStep(rules, j);
        ok := WriteRule(Stored(list, id, item + j, actions, rules[j]));
        if !ok {
          assert all[..j] == all;
          return;
        }
        WriteAllNext(old(registry), all, j);
      }
      assert all[..|rules|] == all;
      return true;
    }

    /** One entry: skip it, stop, or write its rules and carry the variables on. */
    method ProcessEntry(list: nat, entry: Entry, actions: nat, item: nat, ghost st: State, ghost reg0: Registry)
      returns (ok: bool, actions': nat, item': nat, ghost st': State)
      requires IsList(list) && entry.Typed() && Numbered(list, st)
      requires ids == st.ids && actions == st.actions && item == |st.stored|
      requires registry == WriteAll(reg0, st.stored)
      modifies this
      ensures ok <==> EntryStep(list, st, entry).Some?
      ensures ok ==> EntryStep(list, st, entry) == Some(st') && Numbered(list, st')
      ensures ok ==> ids == st'.ids && actions' == st'.actions && item' == |st'.stored|
      ensures ok ==> registry == WriteAll(reg0, st'.stored)
      ensures !ok ==> registry == WriteAll(WriteAll(reg0, st.stored), EntryValues(list, st, entry))
    {
      ok, actions', item', st' := false, actions, item, st;
      if entry.id == 0 || entry.id >= 0xFFFF_FFFF {
        return;
      }
      if entry.id in ids {
        ok := true;
        return;
      }
      ids := ids + {entry.id};
      if entry.action.Some? {
        actions' := entry.action.value;
        if actions' == 0 {
          return;
        }
      }
      ok := WriteRules(list, entry.id, actions', item, entry.rules);
      if ok {
        st' := EntryCompiled(list, st, entry, reg0);
        item' := item + |entry.rules|;
      }
    }

    /**
     processList: writes exactly the compiled values and takes over the ids, or stops with an
     error exactly when the list does not compile, having written the values before that point.
     */
    method ProcessList(list: nat, entries: seq<Entry>) returns (ok: bool)
      requires forall k :: 0 <= k < |entries| ==> entries[k].Typed()
      modifies this
      ensures ok <==> CompileList(list, entries, old(ids)).Some?
      ensures registry == WriteAll(old(registry), Written(list, entries, old(ids)))
      ensures ok ==>
        var st := CompileList(list, entries, old(ids)).value;
        Numbered(list, st) && ids == st.ids && Written(list, entries, old(ids)) == st.stored
    {
      ghost var ids0, reg0 := ids, registry;
      if !IsList(list) {
        CompileStops(list, entries, ids, 0);
        WrittenStops(list, entries, ids, 0);
        return false;
      }
      var actions, item := 0, 0;
      ghost var st := State(ids, 0, []);
      for i := 0 to |entries|
        invariant CompileList(list, entries[..i], ids0) == Some(st)
        invariant Numbered(list, st)
        invariant ids == st.ids && actions == st.actions && item == |st.stored|
        invariant registry == WriteAll(reg0, st.stored)
      {
        ghost var before := st;
        CompileNext(list, entries, ids0, i, before);
        ok, actions, item, st := ProcessEntry(list, entries[i], actions, item, st, reg0);
        if !ok {
          StoppedAt(list, entries, ids0, i, before, reg0);
          return;
        }
      }
      assert entries[..|entries|] == entries;
      WrittenIfCompiled(list, entries, ids0);
      return true;
    }
  }
}
