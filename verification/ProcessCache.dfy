/**
 The cache of process information: an array scanned linearly, filled through a cursor that
 steps past its last slot, and a one-shot "new" mark per process. Process handles are numbers
 and 0 is the NULL handle.
 */
module ProcessCache {
  import opened Options

  const NEW_PROCS_MAX: nat := 32000

  datatype Slot<+T> = Slot(p: nat, isNew: bool, inUse: bool, info: T, tagged: bool)

  datatype Cached<+T> = Cached(info: T, isNew: bool, inUse: bool)

  /** Exactly the tagged slots carry a handle, and each carries it alone. */
  ghost predicate WellFormed<T>(slots: seq<Slot<T>>) {
    && (forall i :: 0 <= i < |slots| ==> (slots[i].tagged <==> slots[i].p != 0))
    && (forall i, j :: 0 <= i < j < |slots| && slots[i].p != 0 ==> slots[i].p != slots[j].p)
  }

  function Entry<T>(s: Slot<T>): Cached<T> {
    Cached(s.info, s.isNew, s.inUse)
  }

  /** Slot `i` holds `p`. */
  ghost predicate HoldsAt<T>(slots: seq<Slot<T>>, p: nat, i: nat) {
    i < |slots| && slots[i].p == p
  }

  /** The cache as a partial map from handles to entries. */
  ghost function Contents<T>(slots: seq<Slot<T>>): map<nat, Cached<T>> {
    FirstContents(slots, |slots|)
  }

  ghost function FirstContents<T>(slots: seq<Slot<T>>, n: nat): map<nat, Cached<T>>
    requires n <= |slots|
  {
    if n == 0 then map[]
    else if slots[n - 1].p == 0 then FirstContents(slots, n - 1)
    else FirstContents(slots, n - 1)[slots[n - 1].p := Entry(slots[n - 1])]
  }

  lemma {:induction false} FirstContentsAre<T>(slots: seq<Slot<T>>, n: nat)
    requires WellFormed(slots) && n <= |slots|
    ensures forall p: nat :: p in FirstContents(slots, n) ==>
      p != 0 && exists i: nat :: i < n && HoldsAt(slots, p, i)
    ensures forall i: nat :: i < n && slots[i].p != 0 ==>
      slots[i].p in FirstContents(slots, n) && FirstContents(slots, n)[slots[i].p] == Entry(slots[i])
  {
    if n > 0 {
      FirstContentsAre(slots, n - 1);
      assert HoldsAt(slots, slots[n - 1].p, n - 1);
    }
  }

  /** A handle is in the cache exactly when a slot holds it, with that slot's entry. */
  lemma ContentsAre<T>(slots: seq<Slot<T>>)
    requires WellFormed(slots)
    ensures forall p: nat :: p in Contents(slots) <==> p != 0 && exists i :: HoldsAt(slots, p, i)
    ensures forall p: nat, i: nat :: p != 0 && HoldsAt(slots, p, i) ==> Contents(slots)[p] == Entry(slots[i])
  {
    FirstContentsAre(slots, |slots|);
    forall p: nat, i: nat | p != 0 && HoldsAt(slots, p, i)
      ensures p in Contents(slots) && Contents(slots)[p] == Entry(slots[i])
    {
      assert slots[i].p == p;
    }
  }

  /** Rewriting one slot drops the handle it held and enters the one it gets. */
  lemma Rewritten<T>(slots: seq<Slot<T>>, k: nat, slot: Slot<T>)
    requires WellFormed(slots) && k < |slots|
    requires slot.tagged <==> slot.p != 0
    requires slot.p != 0 ==> forall i: nat :: i != k ==> !HoldsAt(slots, slot.p, i)
    ensures WellFormed(slots[k := slot])
    ensures Contents(slots[k := slot]) ==
      var left := Contents(slots) - {slots[k].p};
      if slot.p == 0 then left else left[slot.p := Entry(slot)]
  {
    var after := slots[k := slot];
    assert forall i: nat :: i < |slots| && i != k ==> after[i] == slots[i];
    forall i, j | 0 <= i < j < |slots| && after[i].p != 0
      ensures after[i].p != after[j].p
    {
      if i == k {
        assert !HoldsAt(slots, slot.p, j);
      } else if j == k && slot.p != 0 {
        assert !HoldsAt(slots, slot.p, i);
      }
    }
    ContentsAre(slots);
    ContentsAre(after);
    var left := Contents(slots) - {slots[k].p};
    var expected := if slot.p == 0 then left else left[slot.p := Entry(slot)];
    forall p: nat | p in Contents(after)
      ensures p in expected && Contents(after)[p] == expected[p]
    {
      var i :| HoldsAt(after, p, i);
      if i != k {
        assert HoldsAt(slots, p, i);
      }
    }
    forall p: nat | p in expected
      ensures p in Contents(after)
    {
      if slot.p != 0 && p == slot.p {
        assert HoldsAt(after, p, k);
      } else {
        var i :| HoldsAt(slots, p, i);
        assert HoldsAt(after, p, i);
      }
    }
  }

  // ----- the operations as functions of the map

  /** An insertion enters a handle the map does not have; the NULL handle counts as cached. */
  function AfterAdd<T>(m: map<nat, Cached<T>>, p: nat, info: T): map<nat, Cached<T>> {
    if Misses(m, p) then m[p := Cached(info, true, false)] else m
  }

  predicate Misses<T>(m: map<nat, Cached<T>>, p: nat) {
    p != 0 && p !in m
  }

  function AfterPurge<T>(m: map<nat, Cached<T>>, p: nat): map<nat, Cached<T>> {
    if p in m && !m[p].inUse then m - {p} else m
  }

  function AfterUse<T>(m: map<nat, Cached<T>>, p: nat, inUse: bool): map<nat, Cached<T>> {
    if p in m then m[p := m[p].(inUse := inUse)] else m
  }

  function AfterFirstThread<T>(m: map<nat, Cached<T>>, p: nat): map<nat, Cached<T>> {
    if p in m then m[p := m[p].(isNew := false)] else m
  }

  predicate IsNew<T>(m: map<nat, Cached<T>>, p: nat) {
    p in m && m[p].isNew
  }

  /** The cursor comes round only from one step past the last slot. */
  function NextCursor(cursor: nat): nat {
    if cursor >= NEW_PROCS_MAX then 0 else cursor + 1
  }

  class Cache<T(0)> {
    const slots: array<Slot<T>>
    var cursor: nat

    /** The slots past the cursor, and the first one, have never been filled. */
    ghost predicate Valid()
      reads this, slots
    {
      && slots.Length == NEW_PROCS_MAX && cursor < NEW_PROCS_MAX
      && WellFormed(slots[..])
      && slots[0].p == 0 && forall i :: cursor < i < NEW_PROCS_MAX ==> slots[i].p == 0
    }

    ghost function Map(): map<nat, Cached<T>>
      reads this, slots
      requires Valid()
    {
      Contents(slots[..])
    }

    constructor (blank: T)
      ensures Valid() && cursor == 0 && Map() == map[]
      ensures fresh(slots)
    {
      slots := new Slot<T>[NEW_PROCS_MAX](_ => Slot(0, false, false, blank, false));
      cursor := 0;
      new;
      ContentsAre(slots[..]);
    }

    /** The linear scan all lookups share: the first tagged slot that holds `p`. */
    method Find(p: nat) returns (found: Option<nat>)
      requires Valid()
      ensures found.Some? <==> p in Map()
      ensures found.Some? ==> p != 0 && HoldsAt(slots[..], p, found.value) && Entry(slots[found.value]) == Map()[p]
    {
      ContentsAre(slots[..]);
      for i := 0 to NEW_PROCS_MAX
        invariant forall j: nat :: j < i ==> slots[j].p != p || p == 0
      {
        if slots[i].tagged && p == slots[i].p {
          assert HoldsAt(slots[..], p, i);
          assert slots[..][i] == slots[i];
          return Some(i);
        }
      }
      assert forall j: nat :: j < NEW_PROCS_MAX ==> slots[..][j] == slots[j];
      return None;
    }

    /**
     AddNewProcess. A cached handle is left alone. Otherwise the cursor moves on and the slot
     it reaches takes the new process; a slot in use would be taken as well. The result says
     whether there is such a slot: the cursor's last step leads past the end of the array, and
     what the driver's write there does is not modelled.
     */
    method AddNewProcess(p: nat, info: T) returns (inBounds: bool)
      requires Valid()
      modifies this`cursor, slots
      ensures inBounds <==> !(Misses(old(Map()), p) && old(cursor) == NEW_PROCS_MAX - 1)
      ensures cursor == if Misses(old(Map()), p) then old(cursor) + 1 else old(cursor)
      ensures inBounds ==> Valid() && Map() == AfterAdd(old(Map()), p, info)
      ensures !inBounds ==> slots[..] == old(slots[..])
    {
      ghost var before := slots[..];
      ContentsAre(before);
      for i := 0 to NEW_PROCS_MAX
        invariant forall j: nat :: j < i ==> slots[j].p != p
      {
        if slots[i].p == p {
          assert HoldsAt(slots[..], p, i);
          return true;
        }
      }
      assert p != 0 by {
        assert slots[0].p == 0;
      }
      assert forall i: nat :: !HoldsAt(before, p, i);
      cursor := NextCursor(cursor);
      if cursor == slots.Length {
        return false;
      }
      slots[cursor] := Slot(p, true, false, info, true);
      assert slots[..] == before[cursor := slots[cursor]];
      Rewritten(before, cursor, slots[cursor]);
      EmptyHandle(before);
      return true;
    }

    /** PurgeCachedProcess: removes the entry unless it is in use. */
    method PurgeCachedProcess(p: nat)
      requires Valid()
      modifies slots
      ensures Valid()
      ensures Map() == AfterPurge(old(Map()), p)
    {
      ghost var before := slots[..];
      var found := Find(p);
      if found.Some? && !slots[found.value].inUse {
        var k := found.value;
        slots[k] := slots[k].(p := 0, isNew := false, tagged := false);
        assert slots[..] == before[k := slots[k]];
        Rewritten(before, k, slots[k]);
      }
    }

    /** RemoveNewProcessStatus: clears the mark of a cached process. */
    method RemoveNewProcessStatus(p: nat)
      requires Valid()
      modifies slots
      ensures Valid()
      ensures Map() == AfterFirstThread(old(Map()), p)
    {
      var found := Find(p);
      if found.Some? {
        Update(found.value, slots[found.value].(isNew := false));
      }
    }

    /** A callback marks the entry it works on as in use, or releases it. */
    method SetInUse(p: nat, inUse: bool)
      requires Valid()
      modifies slots
      ensures Valid()
      ensures Map() == AfterUse(old(Map()), p, inUse)
    {
      var found := Find(p);
      if found.Some? {
        Update(found.value, slots[found.value].(inUse := inUse));
      }
    }

    method Update(k: nat, slot: Slot<T>)
      requires Valid() && k < slots.Length && slots[k].p != 0
      requires slot.p == slots[k].p && slot.tagged
      modifies slots
      ensures Valid()
      ensures Map() == old(Map())[slot.p := Entry(slot)]
    {
      ghost var before := slots[..];
      slots[k] := slot;
      assert slots[..] == before[k := slot];
      Rewritten(before, k, slot);
      assert (Contents(before) - {slot.p})[slot.p := Entry(slot)] == Contents(before)[slot.p := Entry(slot)];
    }

    /** GetCachedProcess returns exactly the mapped entry. */
    method GetCachedProcess(p: nat) returns (r: Option<Cached<T>>)
      requires Valid()
      ensures r == if p in Map() then Some(Map()[p]) else None
    {
      var found := Find(p);
      match found
      case None => return None;
      case Some(i) => return Some(Entry(slots[i]));
    }

    method IsNewProcess(p: nat) returns (r: bool)
      requires Valid()
      ensures r <==> IsNew(Map(), p)
    {
      var found := Find(p);
      r := found.Some? && slots[found.value].isNew;
    }

    /**
     The gate at the head of the thread callback, run without interference: a thread of a new
     process is taken for its first thread, suppressed, and uses up the mark.
     */
    method SuppressesThread(p: nat) returns (suppressed: bool)
      requires Valid()
      modifies slots
      ensures Valid()
      ensures suppressed <==> IsNew(old(Map()), p)
      ensures Map() == if suppressed then AfterFirstThread(old(Map()), p) else old(Map())
    {
      suppressed := IsNewProcess(p);
      if suppressed {
        RemoveNewProcessStatus(p);
      }
    }
  }

  /** The NULL handle is never an entry of the map. */
  lemma EmptyHandle<T>(slots: seq<Slot<T>>)
    requires WellFormed(slots)
    ensures Contents(slots) - {0} == Contents(slots)
  {
    ContentsAre(slots);
  }

  // ----- runs of the callbacks

  /**
   One call into the cache. The thread callback makes two: `Test` asks for the mark without
   taking the lock, and `Clear` follows where the answer was yes.
   */
  datatype Call<T> =
    | Add(p: nat, info: T)
    | Purge(p: nat)
    | Use(p: nat, inUse: bool)
    | Test(p: nat)
    | Clear(p: nat)

  function Apply<T>(m: map<nat, Cached<T>>, call: Call<T>): map<nat, Cached<T>> {
    match call
    case Add(p, info) => AfterAdd(m, p, info)
    case Purge(p) => AfterPurge(m, p)
    case Use(p, inUse) => AfterUse(m, p, inUse)
    case Test(p) => m
    case Clear(p) => AfterFirstThread(m, p)
  }

  /** The map after any sequence of calls, starting from the empty cache. */
  function After<T>(calls: seq<Call<T>>): map<nat, Cached<T>> {
    if calls == [] then map[] else Apply(After(calls[..|calls| - 1]), calls[|calls| - 1])
  }

  /** How many insertions since the driver was loaded found their handle missing. */
  function MissCount<T>(calls: seq<Call<T>>): nat {
    if calls == [] then 0 else
      var before, last := calls[..|calls| - 1], calls[|calls| - 1];
      MissCount(before) + if last.Add? && Misses(After(before), last.p) then 1 else 0
  }

  lemma {:induction false} MissCountGrows<T>(calls: seq<Call<T>>, n: nat)
    requires n <= |calls|
    ensures MissCount(calls[..n]) <= MissCount(calls)
    decreases |calls|
  {
    if n < |calls| {
      MissCountGrows(calls[..|calls| - 1], n);
      assert calls[..|calls| - 1][..n] == calls[..n];
    } else {
      assert calls[..n] == calls;
    }
  }

  method Perform<T(0)>(cache: Cache<T>, call: Call<T>) returns (inBounds: bool)
    requires cache.Valid()
    modifies cache`cursor, cache.slots
    ensures inBounds <==> !(call.Add? && Misses(old(cache.Map()), call.p) && old(cache.cursor) == NEW_PROCS_MAX - 1)
    ensures inBounds ==> cache.Valid() && cache.Map() == Apply(old(cache.Map()), call)
    ensures inBounds ==>
      cache.cursor == old(cache.cursor) + if call.Add? && Misses(old(cache.Map()), call.p) then 1 else 0
  {
    inBounds := true;
    match call {
      case Add(p, info) => inBounds := cache.AddNewProcess(p, info);
      case Purge(p) => cache.PurgeCachedProcess(p);
      case Use(p, inUse) => cache.SetInUse(p, inUse);
      case Test(p) => var isNew := cache.IsNewProcess(p);
      case Clear(p) => cache.RemoveNewProcessStatus(p);
    }
  }

  /**
   Every run from the load of the driver: all writes stay within the array if and only if at
   most 31999 insertions missed, and then the array refines the map; entries never evict each
   other, because the cursor runs past the array before it comes round.
   */
  method Replay<T(0)>(calls: seq<Call<T>>, blank: T) returns (cache: Cache<T>, inBounds: bool)
    ensures inBounds <==> MissCount(calls) <= 31999
    ensures inBounds ==> cache.Valid() && cache.Map() == After(calls) && cache.cursor == MissCount(calls)
  {
    cache := new Cache(blank);
    for i := 0 to |calls|
      invariant cache.Valid() && fresh(cache) && fresh(cache.slots)
      invariant cache.Map() == After(calls[..i]) && cache.cursor == MissCount(calls[..i])
    {
      assert calls[..i + 1][..i] == calls[..i];
      inBounds := Perform(cache, calls[i]);
      if !inBounds {
        MissCountGrows(calls, i + 1);
        return;
      }
    }
    assert calls[..|calls|] == calls;
    MissCountGrows(calls, |calls|);
    return cache, true;
  }

  /** Process `p` is created and ends, `n` times over. */
  function Churn<T>(p: nat, info: T, n: nat): seq<Call<T>> {
    if n == 0 then [] else Churn(p, info, n - 1) + [Add(p, info), Purge(p)]
  }

  /**
   The cache need not be full to overrun: a handle that comes and goes misses every time and
   leaves nothing behind, so the 32000th creation since load is out of bounds.
   */
  lemma {:induction false} ChurnMisses<T>(p: nat, info: T, n: nat)
    requires p != 0
    ensures MissCount(Churn(p, info, n)) == n && After(Churn(p, info, n)) == map[]
  {
    if n > 0 {
      ChurnMisses(p, info, n - 1);
      var before, all := Churn(p, info, n - 1), Churn(p, info, n);
      var added := before + [Add(p, info)];
      assert all[..|all| - 1] == added && added[..|before|] == before;
      assert After(added) == map[p := Cached(info, true, false)];
    }
  }

  // ----- what becomes of an entry

  /** Call `m` marks `p` in use, and none behind it releases it. */
  ghost predicate MarksLast<T>(calls: seq<Call<T>>, p: nat, m: nat) {
    m < |calls| && calls[m] == Use(p, true) && forall k :: m < k < |calls| ==> calls[k] != Use(p, false)
  }

  /** The last call that marks or releases `p` marks it. */
  ghost predicate LastMarked<T>(calls: seq<Call<T>>, p: nat) {
    exists m: nat :: MarksLast(calls, p, m)
  }

  lemma LastMarkedNext<T>(calls: seq<Call<T>>, call: Call<T>, p: nat)
    ensures LastMarked(calls + [call], p) <==> call == Use(p, true) || (LastMarked(calls, p) && call != Use(p, false))
  {
    var all := calls + [call];
    if call == Use(p, true) {
      assert MarksLast(all, p, |calls|);
    } else if m: nat :| MarksLast(calls, p, m) && call != Use(p, false) {
      assert MarksLast(all, p, m);
    }
    if m: nat :| MarksLast(all, p, m) && call != Use(p, true) {
      assert all[|calls|] == call;
      assert forall k :: m <= k < |calls| ==> calls[k] == all[k];
      assert MarksLast(calls, p, m);
    }
  }

  /** Every removal of `p` comes while it is marked in use. */
  ghost predicate Undisturbed<T>(calls: seq<Call<T>>, p: nat) {
    forall k :: 0 <= k < |calls| && calls[k] == Purge(p) ==> LastMarked(calls[..k], p)
  }

  lemma UndisturbedBefore<T>(calls: seq<Call<T>>, p: nat)
    requires Undisturbed(calls, p) && calls != []
    ensures Undisturbed(calls[..|calls| - 1], p)
    ensures calls[|calls| - 1] == Purge(p) ==> LastMarked(calls[..|calls| - 1], p)
  {
    var before := calls[..|calls| - 1];
    assert forall k :: 0 <= k < |before| ==> before[..k] == calls[..k] && before[k] == calls[k];
  }

  lemma AfterNext<T>(calls: seq<Call<T>>, call: Call<T>)
    ensures After(calls + [call]) == Apply(After(calls), call)
  {
    assert (calls + [call])[..|calls|] == calls;
  }

  lemma StepOnEntry<T>(m: map<nat, Cached<T>>, call: Call<T>, p: nat, isNew: bool, inUse: bool)
    requires p in m && m[p].isNew == isNew && m[p].inUse == inUse && (call == Purge(p) ==> inUse)
    ensures p in Apply(m, call) && Apply(m, call)[p].info == m[p].info
    ensures Apply(m, call)[p].isNew == (isNew && call != Clear(p))
    ensures Apply(m, call)[p].inUse == (call == Use(p, true) || (inUse && call != Use(p, false)))
  {
  }

  lemma {:induction false} EntryKept<T>(calls: seq<Call<T>>, p: nat, info: T, more: seq<Call<T>>)
    requires p != 0 && p !in After(calls) && Undisturbed(more, p)
    ensures var m := After(calls + [Add(p, info)] + more);
      p in m && m[p] == Cached(info, Clear(p) !in more, LastMarked(more, p))
  {
    var entered := calls + [Add(p, info)];
    if more == [] {
      assert entered + more == entered;
      AfterNext(calls, Add(p, info));
    } else {
      var before, last := more[..|more| - 1], more[|more| - 1];
      assert more == before + [last] && entered + more == (entered + before) + [last];
      UndisturbedBefore(more, p);
      EntryKept(calls, p, info, before);
      AfterNext(entered + before, last);
      LastMarkedNext(before, last, p);
      StepOnEntry(After(entered + before), last, p, Clear(p) !in before, LastMarked(before, p));
    }
  }

  /**
   A process that was entered stays, through any calls that remove it only while it is marked in
   use, with the information it was entered with, in use if the last marking said so, and new
   until its mark is cleared. A removal while it is not in use takes it out.
   */
  lemma EntryStays<T>(calls: seq<Call<T>>, p: nat, info: T, more: seq<Call<T>>)
    requires p != 0 && p !in After(calls) && Undisturbed(more, p)
    ensures var m := After(calls + [Add(p, info)] + more);
      p in m && m[p] == Cached(info, Clear(p) !in more, LastMarked(more, p))
    ensures !LastMarked(more, p) ==> p !in After(calls + [Add(p, info)] + more + [Purge(p)])
  {
    EntryKept(calls, p, info, more);
    AfterNext(calls + [Add(p, info)] + more, Purge(p));
  }

  /**
   A removal takes effect on whatever was released last: one release is enough, whoever else has
   marked the entry before.
   */
  lemma {:induction false} ReleasedGoes<T>(calls: seq<Call<T>>, p: nat, more: seq<Call<T>>)
    requires forall call :: call in more && call.p == p ==> !call.Add? && call != Use(p, true)
    ensures p !in After(calls + [Use(p, false)] + more) || !After(calls + [Use(p, false)] + more)[p].inUse
    ensures p !in After(calls + [Use(p, false)] + more + [Purge(p)])
  {
    var released := calls + [Use(p, false)];
    if more == [] {
      assert released + more == released;
      AfterNext(calls, Use(p, false));
    } else {
      var before, last := more[..|more| - 1], more[|more| - 1];
      assert more == before + [last] && released + more == (released + before) + [last];
      assert last in more;
      ReleasedGoes(calls, p, before);
      AfterNext(released + before, last);
    }
    AfterNext(released + more, Purge(p));
  }

  /** A process that is not cached appears only with an insertion. */
  lemma OnlyAddEnters<T>(calls: seq<Call<T>>, call: Call<T>, p: nat)
    requires p !in After(calls)
    ensures p in After(calls + [call]) <==> call.Add? && call.p == p && p != 0
  {
    EmptyNeverCached(calls);
    AfterNext(calls, call);
  }

  lemma {:induction false} EmptyNeverCached<T>(calls: seq<Call<T>>)
    ensures 0 !in After(calls)
  {
    if calls != [] {
      EmptyNeverCached(calls[..|calls| - 1]);
    }
  }

  /** A call leaves every process but its own as it was. */
  lemma OthersStay<T>(calls: seq<Call<T>>, call: Call<T>, q: nat)
    requires q != call.p
    ensures q in After(calls + [call]) <==> q in After(calls)
    ensures q in After(calls) ==> After(calls + [call])[q] == After(calls)[q]
  {
    AfterNext(calls, call);
  }

  // ----- threads of new processes

  /** How often process `p` was entered into the cache. */
  function Insertions<T>(calls: seq<Call<T>>, p: nat): nat {
    if calls == [] then 0 else
      var before, last := calls[..|calls| - 1], calls[|calls| - 1];
      Insertions(before, p) + if last.Add? && last.p == p && Misses(After(before), p) then 1 else 0
  }

  predicate Suppresses<T>(before: seq<Call<T>>, call: Call<T>, p: nat) {
    call.Test? && call.p == p && IsNew(After(before), p)
  }

  /** How many thread creations in process `p` went unreported. */
  function Suppressed<T>(calls: seq<Call<T>>, p: nat): nat {
    if calls == [] then 0 else
      var before, last := calls[..|calls| - 1], calls[|calls| - 1];
      Suppressed(before, p) + if Suppresses(before, last, p) then 1 else 0
  }

  /** How many thread callbacks have seen the mark of `p` and not yet cleared it. */
  function Pending<T>(calls: seq<Call<T>>, p: nat): nat {
    if calls == [] then 0 else
      var before, last := calls[..|calls| - 1], calls[|calls| - 1];
      var n := Pending(before, p);
      if Suppresses(before, last, p) then n + 1
      else if last.Clear? && last.p == p && n > 0 then n - 1
      else n
  }

  /** At no point are more than `width` callbacks for `p` between the two calls. */
  ghost predicate Narrow<T>(calls: seq<Call<T>>, p: nat, width: nat) {
    forall n: nat :: n <= |calls| ==> Pending(calls[..n], p) <= width
  }

  lemma NarrowBefore<T>(calls: seq<Call<T>>, p: nat, width: nat)
    requires Narrow(calls, p, width) && calls != []
    ensures Narrow(calls[..|calls| - 1], p, width)
  {
    var before := calls[..|calls| - 1];
    forall n: nat | n <= |before|
      ensures Pending(before[..n], p) <= width
    {
      assert before[..n] == calls[..n];
    }
  }

  /**
   With at most `width` callbacks at a time between the two calls, each insertion of a process
   suppresses at most `width` thread creations in it; one at a time, at most one.
   */
  lemma {:induction false} ThreadsPerInsertion<T>(calls: seq<Call<T>>, p: nat, width: nat)
    requires Narrow(calls, p, width)
    ensures Pending(calls, p) <= width
    ensures Suppressed(calls, p) + (if IsNew(After(calls), p) then width - Pending(calls, p) else 0)
      <= width * Insertions(calls, p)
  {
    assert calls[..|calls|] == calls;
    if calls != [] {
      var before := calls[..|calls| - 1];
      NarrowBefore(calls, p, width);
      ThreadsPerInsertion(before, p, width);
      OneMore(width, Insertions(before, p));
    }
  }

  lemma OneMore(width: nat, n: nat)
    ensures width * (n + 1) == width * n + width
  {
  }

  function Tests<T>(p: nat, n: nat): seq<Call<T>> {
    seq(n, _ => Test(p))
  }

  /** The bound is reached: callbacks that all ask before the first one clears are all suppressed. */
  lemma {:induction false} BoundIsReached<T>(p: nat, info: T, width: nat)
    requires p != 0
    ensures var calls := [Add(p, info)] + Tests(p, width);
      && Insertions(calls, p) == 1 && Suppressed(calls, p) == width == Pending(calls, p)
      && IsNew(After(calls), p)
  {
    var calls: seq<Call<T>> := [Add(p, info)] + Tests(p, width);
    if width == 0 {
      assert calls == [Add(p, info)] && calls[..0] == [];
    } else {
      BoundIsReached(p, info, width - 1);
      assert calls[..|calls| - 1] == [Add(p, info)] + Tests(p, width - 1);
    }
  }
}
