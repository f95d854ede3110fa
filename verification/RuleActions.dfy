/**
 The status a block rule answers with: from the entry that names it to the group that
 carries it, and the entries that name none.
 */
module RuleActions {
  import opened Bits
  import opened Addresses
  import opened Options
  import opened Matching
  import opened RuleCodec
  import opened Loader
  import opened Compiler
  import opened Configuration
  import opened RuleMeaning

  /** The action named last by the first `n` entries of a list, skipped ones not counting; 0 if there is none. */
  ghost function EffectiveAction(entries: seq<Entry>, ids: set<nat>, n: nat): nat
    requires n <= |entries|
  {
    if n == 0 then 0
    else if Kept(entries, ids, n - 1) && entries[n - 1].action.Some? then entries[n - 1].action.value
    else EffectiveAction(entries, ids, n - 1)
  }

  lemma {:induction false} EffectiveActionOfPrefix(entries: seq<Entry>, ids: set<nat>, m: nat, n: nat)
    requires n <= m <= |entries|
    ensures EffectiveAction(entries[..m], ids, n) == EffectiveAction(entries, ids, n)
  {
    if n > 0 {
      EffectiveActionOfPrefix(entries, ids, m, n - 1);
      assert Kept(entries[..m], ids, n - 1) <==> Kept(entries, ids, n - 1);
    }
  }

  lemma {:induction false} CompiledActions(list: nat, entries: seq<Entry>, ids: set<nat>)
    requires CompileList(list, entries, ids).Some?
    ensures CompileList(list, entries, ids).value.actions == EffectiveAction(entries, ids, |entries|)
  {
    if entries != [] {
      var n := |entries| - 1;
      CompiledActions(list, entries[..n], ids);
      EffectiveActionOfPrefix(entries, ids, n, n);
      KeptIffNew(list, entries, ids);
    }
  }

  lemma StoredEarlier(list: nat, entries: seq<Entry>, ids: set<nat>, k: nat, s: Stored)
    requires entries != [] && CompileList(list, entries[..|entries| - 1], ids).Some? && Kept(entries, ids, k)
    requires s in CompileList(list, entries[..|entries| - 1], ids).value.stored && s.id == entries[k].id
    ensures k < |entries| - 1 && Kept(entries[..|entries| - 1], ids, k)
  {
    var before := entries[..|entries| - 1];
    StoredAreKept(list, before, ids, s.id, s.rule);
    var j: nat :| Kept(before, ids, j) && before[j].id == s.id;
    assert Kept(entries, ids, j);
    KeptUnique(entries, ids, j, k);
  }

  /** Every value stored for a kept entry carries the entry's effective action. */
  lemma {:induction false} StoredActions(list: nat, entries: seq<Entry>, ids: set<nat>, k: nat, s: Stored)
    requires CompileList(list, entries, ids).Some? && Kept(entries, ids, k)
    requires s in CompileList(list, entries, ids).value.stored && s.id == entries[k].id
    ensures s.actions == EffectiveAction(entries, ids, k + 1)
  {
    var n := |entries| - 1;
    var before, last := entries[..n], entries[n];
    var st := CompileList(list, before, ids).value;
    KeptIffNew(list, entries, ids);
    CompiledIds(list, before, ids);
    if s in st.stored {
      StoredEarlier(list, entries, ids, k, s);
      StoredActions(list, before, ids, k, s);
      EffectiveActionOfPrefix(entries, ids, n, k + 1);
    } else {
      CompiledActions(list, entries, ids);
      assert last.id == s.id && Kept(entries, ids, n);
      KeptUnique(entries, ids, n, k);
    }
  }

  lemma {:induction false} SameActions(ls: seq<Loaded>, id: nat, actions: nat)
    requires forall l :: l in ls && l.id == id ==> l.actions == actions
    ensures ActionsOf(ls, id) in {None, Some(actions)}
  {
    if ls != [] {
      assert ls[|ls| - 1] in ls;
      SameActions(ls[..|ls| - 1], id, actions);
      AndSelf(actions);
    }
  }

  /** The action in force when the rules of entry `k` of call `c` are written. */
  ghost function ActionAt(calls: seq<Call>, c: nat, k: nat): nat
    requires CompileAll(calls).Some? && KeptAt(calls, c, k)
  {
    EffectiveAction(calls[c].entries, IdsBefore(calls, c), k + 1)
  }

  /**
   The action of a kept entry reaches its group unchanged, although it is stored once for
   every rule and the driver combines the copies with a bitwise AND.
   */
  lemma ActionArrives(calls: seq<Call>, reg: Registry, names: seq<ValueName>, list: nat, c: nat, k: nat, g: Group)
    requires Typed(calls) && CompileAll(calls).Some? && Carries(reg, names, list, StoredOf(calls))
    requires g in Grouped(LoadedFrom(reg, names, list))
    requires KeptAt(calls, c, k) && g.id == calls[c].entries[k].id
    ensures g.actions == ActionAt(calls, c, k)
  {
    var ls := LoadedFrom(reg, names, list);
    var actions := ActionAt(calls, c, k);
    forall l | l in ls && l.id == g.id
      ensures l.actions == actions
    {
      var s := LoadedIsStored(reg, names, list, StoredOf(calls), l);
      var d, j := StoredHasEntry(calls, s);
      KeptOnce(calls, c, k, d, j);
      PartCompiles(calls, c);
      StoredActions(calls[c].list, calls[c].entries, IdsBefore(calls, c), k, s);
    }
    SameActions(ls, g.id, actions);
    GroupedById(ls);
  }

  lemma {:induction false} NamedIsNonZero(list: nat, entries: seq<Entry>, ids: set<nat>, k: nat)
    requires CompileList(list, entries, ids).Some? && Kept(entries, ids, k)
    ensures entries[k].action != Some(0)
  {
    var n := |entries| - 1;
    KeptIffNew(list, entries, ids);
    if k < n {
      assert Kept(entries[..n], ids, k);
      NamedIsNonZero(list, entries[..n], ids, k);
    }
  }

  lemma {:induction false} EffectiveZeroIff(entries: seq<Entry>, ids: set<nat>, n: nat)
    requires n <= |entries|
    requires forall k: nat :: Kept(entries, ids, k) ==> entries[k].action != Some(0)
    ensures EffectiveAction(entries, ids, n) == 0 <==>
      forall j: nat :: j < n && Kept(entries, ids, j) ==> entries[j].action.None?
  {
    if n > 0 {
      EffectiveZeroIff(entries, ids, n - 1);
    }
  }

  /**
   An entry that names no action gets the documented default, access denied, if and only if no
   earlier kept entry of its list names one; otherwise it answers with that entry's status.
   */
  lemma DefaultActionIff(list: nat, entries: seq<Entry>, ids: set<nat>, k: nat)
    requires CompileList(list, entries, ids).Some?
    requires Kept(entries, ids, k) && entries[k].action.None?
    ensures EffectiveAction(entries, ids, k + 1) == 0 <==>
      forall j: nat :: j < k && Kept(entries, ids, j) ==> entries[j].action.None?
  {
    forall j: nat | Kept(entries, ids, j)
      ensures entries[j].action != Some(0)
    {
      NamedIsNonZero(list, entries, ids, j);
    }
    EffectiveZeroIff(entries, ids, k + 1);
    EffectiveZeroIff(entries, ids, k);
  }
}
