/**
 From the callbacks to the agent's log. A callback takes one id and logs its fields and its
 end under it, in order, while other callbacks, purges, reads and workers interleave freely.
 */
module Emission {
  import opened Bytes
  import opened Frames
  import opened EventLog
  import opened LogRuns
  import opened Agent
  import opened Rotation
  import opened Pipeline
  import opened Overwriting
  import EventIds

  /**
   One callback: its id, the frames it logs in program order, how many of them it has handed to
   the log, and the names under which the log accepted them.
   */
  datatype Event = Event(id: nat, plan: seq<Frame>, logged: nat, names: seq<nat>)

  /** The system; `seed` is where the driver's counter started. */
  datatype Source = Source(seed: nat, world: World, events: seq<Event>)

  /** The id of event `i`. */
  function IdOf(src: Source, i: nat): nat {
    EventIds.Name(src.seed + i)
  }

  /** Fields first, then the ends; one end in most callbacks, two for a loaded module. */
  ghost predicate FieldsThenEnds(plan: seq<Frame>, fields: nat) {
    && fields <= |plan|
    && forall j :: 0 <= j < |plan| ==> (plan[j].kind == EVENT_END <==> j >= fields)
  }

  /** What the callback with this id may log. An empty plan is an event that is not logged. */
  ghost predicate Disciplined(plan: seq<Frame>, id: nat) {
    && (forall j :: 0 <= j < |plan| ==> plan[j].id == id && Op.Write(plan[j], 0).Allowed())
    && exists fields :: FieldsThenEnds(plan, fields)
  }

  datatype Move =
    | Begin(plan: seq<Frame>)
    | Emit(i: nat, random: nat)
    | Rest(action: Action)
  {
    ghost predicate Possible(src: Source) {
      match this
      case Begin(plan) => Disciplined(plan, IdOf(src, |src.events|))
      case Emit(i, random) => i < |src.events| && src.events[i].logged < |src.events[i].plan|
      case Rest(a) => !a.Log? && a.Possible(src.world)
    }
  }

  function Logging(e: Event, random: nat): Action
    requires e.logged < |e.plan|
  {
    Action.Log(e.plan[e.logged], random)
  }

  /** The callback after its next frame: the log refuses empty payloads. */
  function Advance(e: Event, name: nat): Event
    requires e.logged < |e.plan|
  {
    e.(logged := e.logged + 1, names := if e.plan[e.logged].Accepted() then e.names + [name] else e.names)
  }

  ghost function Do(src: Source, m: Move): Source
    requires Orderly(src) && m.Possible(src)
  {
    match m
    case Begin(plan) => src.(events := src.events + [Event(IdOf(src, |src.events|), plan, 0, [])])
    case Emit(i, random) =>
      var e := src.events[i];
      src.(world := Act(src.world, Logging(e, random)), events := src.events[i := Advance(e, |src.world.run.accepted|)])
    case Rest(a) => src.(world := Act(src.world, a))
  }

  /** The frames of a plan the log accepts. */
  function Loggable(fs: seq<Frame>): (r: seq<Frame>) {
    if fs == [] then [] else
      var before := Loggable(fs[..|fs| - 1]);
      if fs[|fs| - 1].Accepted() then before + [fs[|fs| - 1]] else before
  }

  /** An event of a run: its frames carry its id, and its names stand for those accepted so far. */
  ghost predicate Follows(run: Run, e: Event) {
    Disciplined(e.plan, e.id) && Tracks(run, e)
  }

  ghost predicate Tracks(run: Run, e: Event) {
    && e.logged <= |e.plan|
    && Known(run, e.names) && Increasing(e.names)
    && Named(run, e.names) == Loggable(e.plan[..e.logged])
  }

  ghost predicate Owned(events: seq<Event>, t: nat) {
    exists i :: 0 <= i < |events| && t in events[i].names
  }

  /** The callbacks took their ids one after the other. */
  ghost predicate Numbered(src: Source) {
    forall i :: 0 <= i < |src.events| ==> src.events[i].id == IdOf(src, i)
  }

  /** Every accepted frame belongs to a callback, and every callback's are its own in program order. */
  ghost predicate Booked(run: Run, events: seq<Event>) {
    && (forall i :: 0 <= i < |events| ==> Follows(run, events[i]))
    && forall t: nat :: t < |run.accepted| ==> Owned(events, t)
  }

  ghost predicate Orderly(src: Source) {
    Sound(src.world) && Numbered(src) && Booked(src.world.run, src.events)
  }

  // ----- every move keeps order

  lemma FollowsLater(run: Run, after: Run, e: Event)
    requires Follows(run, e) && run.accepted <= after.accepted
    ensures Follows(after, e)
  {
    assert Named(after, e.names) == Named(run, e.names);
  }

  lemma BeginBooked(run: Run, events: seq<Event>, e: Event)
    requires Booked(run, events) && Disciplined(e.plan, e.id) && e.logged == 0 && e.names == []
    ensures Booked(run, events + [e])
  {
    assert e.plan[..0] == [];
    assert Follows(run, e);
    forall t: nat | t < |run.accepted|
      ensures Owned(events + [e], t)
    {
      assert Owned(events, t);
      var i :| 0 <= i < |events| && t in events[i].names;
      assert t in (events + [e])[i].names;
    }
  }

  lemma BeginKeeps(src: Source, plan: seq<Frame>)
    requires Orderly(src) && Begin(plan).Possible(src)
    ensures Orderly(Do(src, Begin(plan)))
  {
    BeginBooked(src.world.run, src.events, Event(IdOf(src, |src.events|), plan, 0, []));
  }

  lemma LoggableNext(plan: seq<Frame>, n: nat)
    requires n < |plan|
    ensures var before := Loggable(plan[..n]);
      Loggable(plan[..n + 1]) == if plan[n].Accepted() then before + [plan[n]] else before
  {
    assert plan[..n + 1][..n] == plan[..n];
  }

  lemma NamedNext(run: Run, after: Run, names: seq<nat>, f: Frame)
    requires Known(run, names) && Increasing(names) && after.accepted == run.accepted + [f]
    ensures Known(after, names + [|run.accepted|]) && Increasing(names + [|run.accepted|])
    ensures Named(after, names + [|run.accepted|]) == Named(run, names) + [f]
  {
  }

  lemma AcceptedTracks(run: Run, after: Run, e: Event)
    requires Tracks(run, e) && e.logged < |e.plan| && e.plan[e.logged].Accepted()
    requires after.accepted == run.accepted + [e.plan[e.logged]]
    ensures Tracks(after, e.(logged := e.logged + 1, names := e.names + [|run.accepted|]))
  {
    LoggableNext(e.plan, e.logged);
    NamedNext(run, after, e.names, e.plan[e.logged]);
  }

  lemma RefusedTracks(run: Run, after: Run, e: Event)
    requires Tracks(run, e) && e.logged < |e.plan| && !e.plan[e.logged].Accepted()
    requires after.accepted == run.accepted
    ensures Tracks(after, e.(logged := e.logged + 1))
  {
    LoggableNext(e.plan, e.logged);
    assert Named(after, e.names) == Named(run, e.names);
  }

  lemma AdvanceTracks(run: Run, after: Run, e: Event)
    requires Tracks(run, e) && e.logged < |e.plan|
    requires after.accepted == if e.plan[e.logged].Accepted() then run.accepted + [e.plan[e.logged]] else run.accepted
    ensures Tracks(after, Advance(e, |run.accepted|))
  {
    if e.plan[e.logged].Accepted() {
      AcceptedTracks(run, after, e);
    } else {
      RefusedTracks(run, after, e);
    }
  }

  lemma EmitOwned(events: seq<Event>, i: nat, name: nat, t: nat)
    requires i < |events| && events[i].logged < |events[i].plan|
    requires Owned(events, t) || (t == name && events[i].plan[events[i].logged].Accepted())
    ensures Owned(events[i := Advance(events[i], name)], t)
  {
    var after := events[i := Advance(events[i], name)];
    if Owned(events, t) {
      var j :| 0 <= j < |events| && t in events[j].names;
      assert t in after[j].names;
    } else {
      assert t in after[i].names;
    }
  }

  lemma EmitBooked(run: Run, after: Run, events: seq<Event>, i: nat)
    requires Booked(run, events) && i < |events| && events[i].logged < |events[i].plan|
    requires var f := events[i].plan[events[i].logged];
      after.accepted == if f.Accepted() then run.accepted + [f] else run.accepted
    ensures Booked(after, events[i := Advance(events[i], |run.accepted|)])
  {
    var now := events[i := Advance(events[i], |run.accepted|)];
    AdvanceTracks(run, after, events[i]);
    forall j | 0 <= j < |events| && j != i
      ensures Follows(after, events[j])
    {
      FollowsLater(run, after, events[j]);
    }
    forall t: nat | t < |after.accepted|
      ensures Owned(now, t)
    {
      EmitOwned(events, i, |run.accepted|, t);
    }
  }

  lemma LogAccepts(w: World, f: Frame, random: nat)
    requires Sound(w) && Action.Log(f, random).Possible(w)
    ensures Act(w, Action.Log(f, random)).run.accepted
      == if f.Accepted() then w.run.accepted + [f] else w.run.accepted
  {
  }

  lemma EmitKeeps(src: Source, i: nat, random: nat)
    requires Orderly(src) && Emit(i, random).Possible(src)
    ensures Orderly(Do(src, Emit(i, random)))
  {
    var e := src.events[i];
    LogKeeps(src.world, e.plan[e.logged], random);
    LogAccepts(src.world, e.plan[e.logged], random);
    EmitBooked(src.world.run, Act(src.world, Logging(e, random)).run, src.events, i);
    StillOrderly(src, Act(src.world, Logging(e, random)), src.events[i := Advance(e, |src.world.run.accepted|)]);
  }

  lemma RestAccepts(w: World, a: Action)
    requires Sound(w) && !a.Log? && a.Possible(w)
    ensures Act(w, a).run.accepted == w.run.accepted
  {
  }

  lemma RestBooked(run: Run, after: Run, events: seq<Event>)
    requires Booked(run, events) && after.accepted == run.accepted
    ensures Booked(after, events)
  {
    forall i | 0 <= i < |events|
      ensures Follows(after, events[i])
    {
      FollowsLater(run, after, events[i]);
    }
  }

  lemma RestKeeps(src: Source, a: Action)
    requires Orderly(src) && Rest(a).Possible(src)
    ensures Orderly(Do(src, Rest(a)))
  {
    ActKeeps(src.world, a);
    RestAccepts(src.world, a);
    RestBooked(src.world.run, Act(src.world, a).run, src.events);
    StillOrderly(src, Act(src.world, a), src.events);
  }

  lemma StillOrderly(src: Source, w: World, events: seq<Event>)
    requires Sound(w) && Booked(w.run, events)
    requires |events| == |src.events| && forall i :: 0 <= i < |events| ==> events[i].id == IdOf(src, i)
    ensures Orderly(Source(src.seed, w, events))
  {
    assert forall i :: 0 <= i < |events| ==> IdOf(Source(src.seed, w, events), i) == IdOf(src, i);
  }

  lemma DoKeeps(src: Source, m: Move)
    requires Orderly(src) && m.Possible(src)
    ensures Orderly(Do(src, m))
  {
    match m
    case Begin(plan) => BeginKeeps(src, plan);
    case Emit(i, random) => EmitKeeps(src, i, random);
    case Rest(a) => RestKeeps(src, a);
  }

  ghost predicate Leads'(src: Source, m: Move, after: Source) {
    Orderly(src) ==> m.Possible(src) && after == Do(src, m)
  }

  /** A run of the whole system from the load of driver and agent. */
  ghost predicate History(ss: seq<Source>, ms: seq<Move>) {
    && |ss| == |ms| + 1
    && ss[0].seed < 0x1_0000_0000 && |ss[0].world.pool.buffers| >= 1
    && ss[0] == Source(ss[0].seed, World(START, Start(ss[0].world.pool.buffers)), [])
    && forall i :: 0 <= i < |ms| ==> Leads'(ss[i], ms[i], ss[i + 1])
  }

  lemma {:induction false} HistoryKeeps(ss: seq<Source>, ms: seq<Move>, n: nat)
    requires History(ss, ms) && n < |ss|
    ensures Orderly(ss[n])
  {
    StartOrderly(ss[0]);
    for i := 0 to n
      invariant Orderly(ss[i])
    {
      HistoryStep(ss, ms, i);
    }
  }

  lemma HistoryStep(ss: seq<Source>, ms: seq<Move>, n: nat)
    requires History(ss, ms) && n < |ms| && Orderly(ss[n])
    ensures Orderly(ss[n + 1])
  {
    assert Leads'(ss[n], ms[n], ss[n + 1]);
    DoKeeps(ss[n], ms[n]);
  }

  lemma StartOrderly(src: Source)
    requires |src.world.pool.buffers| >= 1 && src == Source(src.seed, World(START, Start(src.world.pool.buffers)), [])
    ensures Orderly(src)
  {
    StartSound(src.world);
  }

  // ----- an id names one event

  /** Before the counter has come round, the accepted frames with an event's id are that event's. */
  lemma OwnFrames(src: Source, i: nat, t: nat)
    requires Orderly(src) && |src.events| <= EventIds.PERIOD
    requires i < |src.events| && t < |src.world.run.accepted|
    ensures src.world.run.accepted[t].id == IdOf(src, i) <==> t in src.events[i].names
  {
    assert Owned(src.events, t);
    var j :| 0 <= j < |src.events| && t in src.events[j].names;
    NamedHaveId(src.world.run, src.events[j], t);
    EventIds.NamesDistinct(src.seed, i, j);
    if t in src.events[i].names {
      NamedHaveId(src.world.run, src.events[i], t);
    }
  }

  lemma NamedHaveId(run: Run, e: Event, t: nat)
    requires Follows(run, e) && t in e.names
    ensures run.accepted[t].id == e.id
  {
    var k :| 0 <= k < |e.names| && e.names[k] == t;
    assert Named(run, e.names)[k] == run.accepted[t];
    LoggableFrom(e.plan[..e.logged], run.accepted[t]);
  }

  lemma {:induction false} LoggableFrom(fs: seq<Frame>, f: Frame)
    ensures f in Loggable(fs) <==> f in fs && f.Accepted()
  {
    if fs != [] {
      LoggableFrom(fs[..|fs| - 1], f);
      assert fs == fs[..|fs| - 1] + [fs[|fs| - 1]];
    }
  }

  /** The names of a batch that stand for frames with this id. */
  ghost function OwnTags(run: Run, tags: seq<nat>, id: nat): seq<nat>
    requires Known(run, tags)
  {
    if tags == [] then [] else
      var before := OwnTags(run, tags[..|tags| - 1], id);
      if run.accepted[tags[|tags| - 1]].id == id then before + [tags[|tags| - 1]] else before
  }

  lemma {:induction false} OwnTagsAre(run: Run, tags: seq<nat>, id: nat)
    requires Known(run, tags) && Increasing(tags)
    ensures Known(run, OwnTags(run, tags, id)) && Increasing(OwnTags(run, tags, id))
    ensures forall t: nat :: t in OwnTags(run, tags, id) <==> t in tags && run.accepted[t].id == id
  {
    if tags != [] {
      var before, last := tags[..|tags| - 1], tags[|tags| - 1];
      OwnTagsAre(run, before, id);
      assert tags == before + [last];
      var own := OwnTags(run, before, id);
      forall k | 0 <= k < |own|
        ensures own[k] < last
      {
        assert own[k] in own && own[k] in before;
      }
    }
  }

  lemma NamedMore(run: Run, tags: seq<nat>, last: nat)
    requires Known(run, tags) && last < |run.accepted|
    ensures Known(run, tags + [last]) && Named(run, tags + [last]) == Named(run, tags) + [run.accepted[last]]
  {
  }

  lemma {:induction false} OnlyOwn(run: Run, tags: seq<nat>, id: nat)
    requires Known(run, tags)
    ensures Known(run, OwnTags(run, tags, id)) && Only(Named(run, tags), id) == Named(run, OwnTags(run, tags, id))
  {
    if tags != [] {
      var before, last := tags[..|tags| - 1], tags[|tags| - 1];
      assert tags == before + [last];
      OnlyOwn(run, before, id);
      NamedMore(run, before, last);
      OnlyAppend(Named(run, before), run.accepted[last], id);
      if run.accepted[last].id == id {
        NamedMore(run, OwnTags(run, before, id), last);
      }
    }
  }

  // ----- what a batch holds of an event

  lemma LastOfPart(a: seq<nat>, b: seq<nat>)
    requires Increasing(a) && Increasing(b) && a != [] && forall t :: t in a ==> t in b
    ensures b != []
    ensures var m, n := |a| - 1, |b| - 1;
      if a[m] == b[n] then forall t :: t in a[..m] ==> t in b[..n] else forall t :: t in a ==> t in b[..n]
  {
    var m := |a| - 1;
    assert a[m] in b;
    var n := |b| - 1;
    assert b == b[..n] + [b[n]];
    forall t | t in a
      ensures t in b[..n] || t == b[n] == a[m]
    {
      var j :| 0 <= j < |b| && b[j] == a[m];
    }
    assert forall t :: t in a[..m] ==> t in a && t < a[m];
  }

  lemma {:induction false} IncreasingPart(a: seq<nat>, b: seq<nat>)
    requires Increasing(a) && Increasing(b) && forall t :: t in a ==> t in b
    ensures |a| <= |b|
    ensures |a| == |b| ==> a == b
  {
    if a != [] {
      LastOfPart(a, b);
      var m, n := |a| - 1, |b| - 1;
      if a[m] == b[n] {
        IncreasingPart(a[..m], b[..n]);
        assert a == a[..m] + [a[m]] && b == b[..n] + [b[n]];
      } else {
        IncreasingPart(a, b[..n]);
      }
    }
  }

  lemma {:induction false} BatchIncreasing(batches: seq<seq<nat>>, s: nat)
    requires Increasing(Concat(batches)) && s < |batches|
    ensures Increasing(batches[s])
    ensures forall t :: t in batches[s] ==> t in Concat(batches)
    decreases |batches|
  {
    var first, rest := batches[0], Concat(batches[1..]);
    assert Concat(batches)[..|first|] == first && Concat(batches)[|first|..] == rest;
    if s > 0 {
      BatchIncreasing(batches[1..], s - 1);
    }
  }

  lemma {:induction false} BatchesDisjoint(batches: seq<seq<nat>>, s: nat, u: nat, t: nat)
    requires Increasing(Concat(batches)) && s < u < |batches|
    ensures !(t in batches[s] && t in batches[u])
    decreases |batches|
  {
    var first, rest := batches[0], Concat(batches[1..]);
    assert Concat(batches)[..|first|] == first && Concat(batches)[|first|..] == rest;
    if s > 0 {
      BatchesDisjoint(batches[1..], s - 1, u - 1, t);
    } else if t in batches[u] {
      BatchIncreasing(batches[1..], u - 1);
      assert t in rest;
    }
  }

  /** The line of a sound world splits into increasing batches. */
  lemma BatchesIncrease(w: World)
    requires Sound(w)
    ensures Increasing(Concat(w.run.batches))
  {
    var d := |Concat(w.run.batches)|;
    assert Line(w.run)[..d] == Concat(w.run.batches);
  }

  /** The frames a worker recovered from buffer content `s`. */
  function Recovered(w: World, s: nat): seq<Frame>
    requires s in w.pool.outputs
  {
    Parse(w.pool.outputs[s].data, w.pool.outputs[s].n).frames
  }

  lemma RecoveredBatch(w: World, s: nat)
    requires Sound(w) && s in w.pool.outputs
    ensures s < |w.run.batches| && Known(w.run, w.run.batches[s]) && Increasing(w.run.batches[s])
    ensures Recovered(w, s) == Named(w.run, w.run.batches[s])
  {
    assert s < |w.pool.filled| && w.pool.outputs[s] == w.pool.filled[s];
    assert Holds(w, s);
    BatchRoundTrip(w.pool.outputs[s].data, Named(w.run, w.run.batches[s]));
    BatchesIncrease(w);
    BatchIncreasing(w.run.batches, s);
  }

  /** Every frame of the event that was accepted lies in batch `s`. */
  ghost predicate Whole(src: Source, i: nat, s: nat) {
    && i < |src.events| && s < |src.world.run.batches|
    && forall t :: t in src.events[i].names ==> t in src.world.run.batches[s]
  }

  /** What the event has logged so far. */
  function OwnPlan(e: Event): seq<Frame>
    requires e.logged <= |e.plan|
  {
    Loggable(e.plan[..e.logged])
  }

  /**
   While ids have not come round: a worker finds exactly the event's frames under its id, all of
   them and in order, if and only if they all lie in the batch it processed.
   */
  lemma WholeIff(src: Source, i: nat, s: nat)
    requires Orderly(src) && |src.events| <= EventIds.PERIOD
    requires i < |src.events| && s in src.world.pool.outputs
    ensures Only(Recovered(src.world, s), IdOf(src, i)) == OwnPlan(src.events[i]) <==> Whole(src, i, s)
  {
    var run, e, id := src.world.run, src.events[i], IdOf(src, i);
    RecoveredBatch(src.world, s);
    var batch := run.batches[s];
    var own := OwnTags(run, batch, id);
    OwnTagsAre(run, batch, id);
    OnlyOwn(run, batch, id);
    forall t | t in own
      ensures t in e.names
    {
      OwnFrames(src, i, t);
    }
    IncreasingPart(own, e.names);
    if Whole(src, i, s) {
      forall t | t in e.names
        ensures t in own
      {
        OwnFrames(src, i, t);
      }
      IncreasingPart(e.names, own);
    } else {
      var t :| t in e.names && t !in batch;
      assert own != e.names;
    }
  }

  /** No frame of an event that lies whole in a batch was purged or lies in another batch. */
  lemma WholeIsSafe(src: Source, i: nat, s: nat, u: nat, t: nat)
    requires Orderly(src) && Whole(src, i, s) && t in src.events[i].names
    ensures t !in src.world.run.purged
    ensures u < |src.world.run.batches| && u != s ==> t !in src.world.run.batches[u]
  {
    var w := src.world;
    BatchesIncrease(w);
    BatchIncreasing(w.run.batches, s);
    assert t in Line(w.run);
    if u < |w.run.batches| && u != s {
      BatchesDisjoint(w.run.batches, if u < s then u else s, if u < s then s else u, t);
    }
  }

  // ----- what is logged

  /** The records of an event with these fields, one for each of its ends. */
  function FullRecords(fields: seq<Frame>, ends: seq<Frame>, r: Renderer): seq<Record> {
    seq(|ends|, j requires 0 <= j < |ends| => Record(ends[j].id, Merge(r.header(ends[j]), Rendered(fields, r))))
  }

  lemma {:induction false} FieldsBeforeEnds(fields: seq<Frame>, ends: seq<Frame>)
    requires forall f :: f in fields ==> f.kind != EVENT_END
    requires forall f :: f in ends ==> f.kind == EVENT_END
    ensures FieldFrames(fields + ends) == fields
  {
    if ends == [] {
      assert fields + ends == fields;
      FieldFramesAll(fields);
    } else {
      var n := |ends| - 1;
      FieldsBeforeEnds(fields, ends[..n]);
      SplitLast(fields, ends);
      FieldFramesAppend(fields + ends[..n], ends[n]);
    }
  }

  lemma {:induction false} OnlyAll(fs: seq<Frame>, id: nat)
    requires forall f :: f in fs ==> f.id == id
    ensures Only(fs, id) == fs
  {
    if fs != [] {
      OnlyAll(fs[..|fs| - 1], id);
    }
  }

  lemma FullRecordsNext(fields: seq<Frame>, ends: seq<Frame>, r: Renderer)
    requires ends != []
    ensures var n := |ends| - 1;
      FullRecords(fields, ends, r)
        == FullRecords(fields, ends[..n], r) + [Record(ends[n].id, Merge(r.header(ends[n]), Rendered(fields, r)))]
  {
  }

  /** Fields followed by ends, all under one id, yield one full record for each end. */
  lemma {:induction false} RecordsOfPlan(fields: seq<Frame>, ends: seq<Frame>, id: nat, r: Renderer)
    requires forall f :: f in fields ==> f.kind != EVENT_END && f.id == id
    requires forall f :: f in ends ==> f.kind == EVENT_END && f.id == id
    ensures Records(fields + ends, r) == FullRecords(fields, ends, r)
  {
    if ends == [] {
      assert fields + ends == fields;
      NoEndNoRecord(fields, r);
    } else {
      var n := |ends| - 1;
      RecordsOfPlan(fields, ends[..n], id, r);
      SplitLast(fields, ends);
      RecordsAppend(fields + ends[..n], ends[n], r);
      OnlyAll(fields + ends[..n], id);
      FieldsBeforeEnds(fields, ends[..n]);
      FullRecordsNext(fields, ends, r);
    }
  }

  /** The records a worker sends for an event's id. */
  function LoggedFor(w: World, s: nat, id: nat, r: Renderer): seq<Record>
    requires s in w.pool.outputs
  {
    RecordsFor(Records(Recovered(w, s), r), id)
  }

  /** The callback has returned; these are its accepted fields and ends. */
  ghost predicate Finished(e: Event, fields: seq<Frame>, ends: seq<Frame>) {
    && e.logged == |e.plan| && OwnPlan(e) == fields + ends
    && (forall f :: f in fields ==> f.kind != EVENT_END)
    && forall f :: f in ends ==> f.kind == EVENT_END
  }

  /**
   A finished event whose frames all lie in one batch is logged, once a worker has processed
   it, as one record with all its fields for each of its ends, and in no other buffer.
   */
  lemma EventLogged(src: Source, i: nat, s: nat, fields: seq<Frame>, ends: seq<Frame>, r: Renderer)
    requires Orderly(src) && |src.events| <= EventIds.PERIOD
    requires i < |src.events| && s in src.world.pool.outputs && Whole(src, i, s)
    requires Finished(src.events[i], fields, ends)
    ensures LoggedFor(src.world, s, IdOf(src, i), r) == FullRecords(fields, ends, r)
    ensures forall u :: u in src.world.pool.outputs && u != s ==> LoggedFor(src.world, u, IdOf(src, i), r) == []
  {
    var id := IdOf(src, i);
    WholeIff(src, i, s);
    InterleavingIrrelevant(Recovered(src.world, s), id, r);
    PlanHasId(src, i);
    RecordsOfPlan(fields, ends, id, r);
    forall u | u in src.world.pool.outputs && u != s
      ensures LoggedFor(src.world, u, id, r) == []
    {
      RecoveredBatch(src.world, u);
      var batch := src.world.run.batches[u];
      OwnTagsAre(src.world.run, batch, id);
      OnlyOwn(src.world.run, batch, id);
      var own := OwnTags(src.world.run, batch, id);
      if own != [] {
        assert own[0] in own;
        OwnFrames(src, i, own[0]);
        WholeIsSafe(src, i, s, u, own[0]);
      }
      InterleavingIrrelevant(Recovered(src.world, u), id, r);
    }
  }

  lemma PlanHasId(src: Source, i: nat)
    requires Orderly(src) && i < |src.events|
    ensures forall f :: f in OwnPlan(src.events[i]) ==> f.id == IdOf(src, i)
  {
    var e := src.events[i];
    forall f | f in OwnPlan(e)
      ensures f.id == IdOf(src, i)
    {
      LoggableFrom(e.plan[..e.logged], f);
    }
  }

  // ----- when an event is reported

  /** The frames a worker found under the event's id in buffer content `s`. */
  function Found(src: Source, i: nat, s: nat): seq<Frame>
    requires s in src.world.pool.outputs
  {
    Only(Recovered(src.world, s), IdOf(src, i))
  }

  lemma LoggedFound(src: Source, i: nat, s: nat, r: Renderer)
    requires s in src.world.pool.outputs
    ensures LoggedFor(src.world, s, IdOf(src, i), r) == Records(Found(src, i, s), r)
  {
    InterleavingIrrelevant(Recovered(src.world, s), IdOf(src, i), r);
  }

  /** The frames found of an event are some of those its callback logged, its end the last if at all. */
  ghost predicate PartOf(own: seq<Frame>, fields: seq<Frame>, end: Frame) {
    && |own| <= |fields| + 1
    && forall k :: 0 <= k < |own| ==>
      if own[k].kind == EVENT_END then k == |own| - 1 && own[k] == end else own[k] in fields
  }

  lemma FoundAt(run: Run, e: Event, own: seq<nat>, fields: seq<Frame>, end: Frame, k: nat)
    requires Tracks(run, e) && Finished(e, fields, [end]) && k < |own|
    requires Known(run, own) && Increasing(own) && forall t :: t in own ==> t in e.names
    ensures var f := run.accepted[own[k]];
      if f.kind == EVENT_END then k == |own| - 1 && f == end else f in fields
  {
    assert own[k] in e.names;
    var m :| 0 <= m < |e.names| && e.names[m] == own[k];
    assert Named(run, e.names)[m] == run.accepted[own[k]] == (fields + [end])[m];
    if m < |fields| {
      assert (fields + [end])[m] == fields[m] && fields[m] in fields;
    } else {
      assert (fields + [end])[m] == end && end in [end];
      assert forall t :: t in e.names ==> t <= own[k];
      assert own[|own| - 1] in own;
    }
  }

  lemma FoundIsPart(src: Source, i: nat, s: nat, fields: seq<Frame>, end: Frame)
    requires Orderly(src) && |src.events| <= EventIds.PERIOD && i < |src.events|
    requires Finished(src.events[i], fields, [end]) && s in src.world.pool.outputs
    ensures PartOf(Found(src, i, s), fields, end)
  {
    var run, e, id := src.world.run, src.events[i], IdOf(src, i);
    RecoveredBatch(src.world, s);
    var own := OwnTags(run, run.batches[s], id);
    OwnTagsAre(run, run.batches[s], id);
    OnlyOwn(run, run.batches[s], id);
    forall t | t in own
      ensures t in e.names
    {
      OwnFrames(src, i, t);
    }
    IncreasingPart(own, e.names);
    assert |Named(run, e.names)| == |fields| + 1;
    forall k | 0 <= k < |own|
      ensures var f := run.accepted[own[k]];
        if f.kind == EVENT_END then k == |own| - 1 && f == end else f in fields
    {
      FoundAt(run, e, own, fields, end, k);
    }
  }

  /** The end was found, behind fields with the same last occurrences as those logged. */
  ghost predicate Suffices(own: seq<Frame>, fields: seq<Frame>, end: Frame) {
    own != [] && own[|own| - 1] == end && Lasting(own[..|own| - 1]) == Lasting(fields)
  }

  /** However frames are rendered, these yield the one record with all the fields. */
  ghost predicate YieldsFull(own: seq<Frame>, fields: seq<Frame>, end: Frame) {
    forall r: Renderer :: Records(own, r) == FullRecords(fields, [end], r)
  }

  lemma EndedYields(found: seq<Frame>, fields: seq<Frame>, end: Frame)
    requires end.kind == EVENT_END && forall f :: f in found ==> f.kind != EVENT_END && f.id == end.id
    ensures YieldsFull(found + [end], fields, end) <==> Lasting(found) == Lasting(fields)
  {
    forall r: Renderer
      ensures Records(found + [end], r) == FullRecords(fields, [end], r) <==> SameContent(found, fields, end, r)
    {
      RecordsOfPlan(found, [end], end.id, r);
      assert FullRecords(found, [end], r)[0].content == Merge(r.header(end), Rendered(found, r));
      assert FullRecords(fields, [end], r)[0].content == Merge(r.header(end), Rendered(fields, r));
    }
    SameRecordIff(found, fields, end);
    if YieldsFull(found + [end], fields, end) {
      forall r: Renderer
        ensures SameContent(found, fields, end, r)
      {
        assert Records(found + [end], r) == FullRecords(fields, [end], r);
      }
    }
  }

  lemma UnendedYieldsNothing(own: seq<Frame>, fields: seq<Frame>, end: Frame)
    requires forall k :: 0 <= k < |own| ==> own[k].kind != EVENT_END
    ensures !YieldsFull(own, fields, end)
  {
    var r := Pair(end, end);
    NoEndNoRecord(own, r);
    assert |FullRecords(fields, [end], r)| == 1;
  }

  lemma YieldsIff(own: seq<Frame>, fields: seq<Frame>, end: Frame)
    requires PartOf(own, fields, end) && end.kind == EVENT_END
    requires forall f :: f in fields ==> f.kind != EVENT_END && f.id == end.id
    ensures YieldsFull(own, fields, end) <==> Suffices(own, fields, end)
  {
    if own != [] && own[|own| - 1] == end {
      var found := own[..|own| - 1];
      assert own == found + [end];
      forall f | f in found
        ensures f.kind != EVENT_END && f.id == end.id
      {
        var k :| 0 <= k < |found| && found[k] == f;
        assert own[k] == f;
      }
      EndedYields(found, fields, end);
    } else {
      UnendedYieldsNothing(own, fields, end);
    }
  }

  /** Buffer `s` was processed and yielded, however frames are rendered, one record with all the event's fields. */
  ghost predicate LoggedWhole(src: Source, i: nat, s: nat, fields: seq<Frame>, end: Frame) {
    && s in src.world.pool.outputs
    && forall r: Renderer :: LoggedFor(src.world, s, IdOf(src, i), r) == FullRecords(fields, [end], r)
  }

  /** Buffer `s` was processed, and the event's frames in it make the full record. */
  ghost predicate Reportable(src: Source, i: nat, s: nat, fields: seq<Frame>, end: Frame) {
    s in src.world.pool.outputs && Suffices(Found(src, i, s), fields, end)
  }

  lemma LoggedWholeIff(src: Source, i: nat, s: nat, fields: seq<Frame>, end: Frame)
    requires Orderly(src) && |src.events| <= EventIds.PERIOD && i < |src.events|
    requires Finished(src.events[i], fields, [end]) && s in src.world.pool.outputs
    ensures LoggedWhole(src, i, s, fields, end) <==> Reportable(src, i, s, fields, end)
  {
    var own := Found(src, i, s);
    FoundIsPart(src, i, s, fields, end);
    PlanHasId(src, i);
    PlanIs(src, i, fields, end);
    YieldsIff(own, fields, end);
    forall r: Renderer
      ensures LoggedFor(src.world, s, IdOf(src, i), r) == Records(own, r)
    {
      LoggedFound(src, i, s, r);
    }
  }

  lemma PlanIs(src: Source, i: nat, fields: seq<Frame>, end: Frame)
    requires Orderly(src) && i < |src.events| && Finished(src.events[i], fields, [end])
    ensures end.kind == EVENT_END && end.id == IdOf(src, i)
    ensures forall f :: f in fields ==> f.kind != EVENT_END && f.id == IdOf(src, i)
  {
    PlanHasId(src, i);
    var plan := OwnPlan(src.events[i]);
    assert end in [end] && plan[|fields|] == end && end in plan;
    forall f | f in fields
      ensures f.id == IdOf(src, i)
    {
      assert f in plan;
    }
  }

  lemma FullSuffices(fields: seq<Frame>, end: Frame)
    ensures Suffices(fields + [end], fields, end)
  {
    assert (fields + [end])[..|fields|] == fields;
  }

  lemma SufficientIsFull(own: seq<Frame>, fields: seq<Frame>, end: Frame)
    requires PartOf(own, fields, end) && AllDiffer(fields) && Suffices(own, fields, end)
    ensures own == fields + [end]
  {
    var found := own[..|own| - 1];
    assert own == found + [end];
    LastingShortens(fields);
    LastingShortens(found);
  }

  /** Frames all in one processed batch suffice; for fields without repetitions nothing less does. */
  lemma WholeSuffices(src: Source, i: nat, s: nat, fields: seq<Frame>, end: Frame)
    requires Orderly(src) && |src.events| <= EventIds.PERIOD && i < |src.events|
    requires Finished(src.events[i], fields, [end]) && s in src.world.pool.outputs
    ensures Whole(src, i, s) ==> Reportable(src, i, s, fields, end)
    ensures AllDiffer(fields) && Reportable(src, i, s, fields, end) ==> Whole(src, i, s)
  {
    WholeIff(src, i, s);
    FullSuffices(fields, end);
    if AllDiffer(fields) && Reportable(src, i, s, fields, end) {
      FoundIsPart(src, i, s, fields, end);
      SufficientIsFull(Found(src, i, s), fields, end);
    }
  }

  /**
   End to end, in every run of at most 2^64 - 16 events from any start of the counter: a callback
   that has returned, having logged fields and one end, is reported as one record with all its
   fields if and only if, in some processed batch, the frames found under its id are its end
   behind fields with the same last occurrences as those it logged. That is so where all its
   frames lie in one batch, so that none was purged, and only then if no field is repeated.
   */
  lemma EventArrives(ss: seq<Source>, ms: seq<Move>, n: nat, i: nat, fields: seq<Frame>, end: Frame)
    requires History(ss, ms) && n < |ss| && |ss[n].events| <= EventIds.PERIOD && i < |ss[n].events|
    requires Finished(ss[n].events[i], fields, [end])
    ensures forall s :: LoggedWhole(ss[n], i, s, fields, end) <==> Reportable(ss[n], i, s, fields, end)
    ensures forall s :: s in ss[n].world.pool.outputs && Whole(ss[n], i, s) ==> Reportable(ss[n], i, s, fields, end)
    ensures AllDiffer(fields) ==> forall s :: Reportable(ss[n], i, s, fields, end) ==> Whole(ss[n], i, s)
    ensures forall s, t :: Whole(ss[n], i, s) && t in ss[n].events[i].names ==> t !in ss[n].world.run.purged
  {
    var src := ss[n];
    HistoryKeeps(ss, ms, n);
    forall s | s in src.world.pool.outputs
      ensures LoggedWhole(src, i, s, fields, end) <==> Reportable(src, i, s, fields, end)
      ensures Whole(src, i, s) ==> Reportable(src, i, s, fields, end)
      ensures AllDiffer(fields) && Reportable(src, i, s, fields, end) ==> Whole(src, i, s)
    {
      LoggedWholeIff(src, i, s, fields, end);
      WholeSuffices(src, i, s, fields, end);
    }
    forall s, t | Whole(src, i, s) && t in src.events[i].names
      ensures t !in src.world.run.purged
    {
      WholeIsSafe(src, i, s, s, t);
    }
  }

  // ----- module loads

  /**
   The callback for loaded modules logs its end twice, so a module load that is not excluded is
   reported twice: two records with the same fields, equal if its two ends are.
   */
  lemma ModuleLoggedTwice(ss: seq<Source>, ms: seq<Move>, n: nat, i: nat, s: nat,
                          fields: seq<Frame>, end: Frame, r: Renderer)
    requires History(ss, ms) && n < |ss| && |ss[n].events| <= EventIds.PERIOD
    requires i < |ss[n].events| && s in ss[n].world.pool.outputs && Whole(ss[n], i, s)
    requires Finished(ss[n].events[i], fields, [end, end])
    ensures var full := Record(end.id, Merge(r.header(end), Rendered(fields, r)));
      LoggedFor(ss[n].world, s, IdOf(ss[n], i), r) == [full, full]
  {
    HistoryKeeps(ss, ms, n);
    EventLogged(ss[n], i, s, fields, [end, end], r);
  }

  /**
   For an excluded module load the second end is logged all the same: a worker that processes
   the batch it lies in sends a record without any field, and no other does.
   */
  lemma ExcludedModuleLogged(ss: seq<Source>, ms: seq<Move>, n: nat, i: nat, s: nat, end: Frame, r: Renderer)
    requires History(ss, ms) && n < |ss| && |ss[n].events| <= EventIds.PERIOD
    requires i < |ss[n].events| && s in ss[n].world.pool.outputs
    requires Finished(ss[n].events[i], [], [end])
    ensures LoggedFor(ss[n].world, s, IdOf(ss[n], i), r)
      == if Whole(ss[n], i, s) then [Record(end.id, r.header(end))] else []
  {
    HistoryKeeps(ss, ms, n);
    var own := Found(ss[n], i, s);
    FoundIsPart(ss[n], i, s, [], end);
    WholeIff(ss[n], i, s);
    LoggedFound(ss[n], i, s, r);
    if Whole(ss[n], i, s) {
      EventLogged(ss[n], i, s, [], [end], r);
    } else {
      assert own != [end];
      assert own == [];
    }
  }
}
