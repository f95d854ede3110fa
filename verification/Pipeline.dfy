/**
 The whole way of a frame: the driver's log, the agent's read buffers and its workers, as
 one machine whose moves interleave freely.
 */
module Pipeline {
  import opened Bytes
  import opened Frames
  import opened EventLog
  import opened LogRuns
  import opened Agent
  import opened Rotation

  /** A read buffer after a read: its bytes and how many of them are the batch. */
  datatype Content = Content(data: seq<byte>, n: nat)

  datatype World = World(run: Run, pool: Pool<Content>)

  datatype Action =
    | Log(f: Frame, random: nat)
    | ReadFile
    | Internal(move: Move<Content>)
  {
    predicate Possible(w: World) {
      match this
      case Log(f, random) => Op.Write(f, random).Allowed()
      case ReadFile => w.pool.phase == Reading
      case Internal(m) => !m.Fill? && Enabled(w.pool, m)
    }
  }

  /** What a read of the log leaves in the agent's buffer. */
  function BufferAfter(log: Queue): (c: Content)
    requires log.Exact()
    ensures |c.data| == BUFFER_SIZE && c.n <= BUFFER_SIZE
    ensures c.n == |Concat(log.entries[..log.Taken(BUFFER_SIZE)])|
    ensures c.data[..c.n] == Concat(log.entries[..log.Taken(BUFFER_SIZE)])
  {
    var batch := log.entries[..log.Taken(BUFFER_SIZE)];
    RestAccounting(log, BUFFER_SIZE);
    ConcatLength(batch);
    Content(Concat(batch) + Tail(BUFFER_SIZE - Total(batch), true), Total(batch))
  }

  /** A read that delivers nothing leaves everything as it was, and the reader tries again. */
  function Act(w: World, a: Action): World
    requires Sound(w) && a.Possible(w)
  {
    match a
    case Log(f, random) => w.(run := Step(w.run, Write(f, random)))
    case ReadFile =>
      if w.run.log.Taken(BUFFER_SIZE) == 0 then w else
        World(Step(w.run, Read(BUFFER_SIZE)), Next(w.pool, Fill(BufferAfter(w.run.log))))
    case Internal(m) => w.(pool := Next(w.pool, m))
  }

  /** Content `i` handed to the workers is the encoding of the frames named in batch `i`. */
  ghost predicate Holds(w: World, i: nat) {
    && i < |w.run.batches| == |w.pool.filled|
    && Known(w.run, w.run.batches[i])
    && var c := w.pool.filled[i];
      var bytes := Concat(EncodeAll(Named(w.run, w.run.batches[i])));
      c.n == |bytes| <= |c.data| <= BUFFER_SIZE && c.data[..c.n] == bytes
  }

  ghost predicate Sound(w: World) {
    && Tracked(w.run) && Conserved(w.run) && w.pool.Valid()
    && |w.run.batches| == |w.pool.filled|
    && forall i: nat :: i < |w.pool.filled| ==> Holds(w, i)
  }

  lemma LogKeeps(w: World, f: Frame, random: nat)
    requires Sound(w) && Log(f, random).Possible(w)
    ensures Sound(Act(w, Log(f, random)))
  {
    var after := Act(w, Log(f, random));
    WriteConserves(w.run, f, random);
    forall i: nat | i < |w.pool.filled|
      ensures Holds(after, i)
    {
      assert Holds(w, i);
      assert Named(after.run, w.run.batches[i]) == Named(w.run, w.run.batches[i]);
    }
  }

  lemma NewBatchHolds(w: World)
    requires Sound(w) && w.pool.phase == Reading && w.run.log.Taken(BUFFER_SIZE) > 0
    ensures Holds(Act(w, ReadFile), |w.pool.filled|)
  {
    var after := Act(w, ReadFile);
    var batch := w.run.tags[..w.run.log.Taken(BUFFER_SIZE)];
    BatchContents(w.run, BUFFER_SIZE);
    assert after.run.batches[|w.pool.filled|] == batch;
    assert after.pool.filled[|w.pool.filled|] == BufferAfter(w.run.log);
    assert Named(after.run, batch) == Named(w.run, batch);
  }

  lemma ReadKeeps(w: World)
    requires Sound(w) && w.pool.phase == Reading
    ensures Sound(Act(w, ReadFile))
  {
    if w.run.log.Taken(BUFFER_SIZE) > 0 {
      var after := Act(w, ReadFile);
      ReadConserves(w.run, BUFFER_SIZE);
      NextKeeps(w.pool, Fill(BufferAfter(w.run.log)));
      forall i: nat | i < |after.pool.filled|
        ensures Holds(after, i)
      {
        if i < |w.pool.filled| {
          OldBatchHolds(w, i);
        } else {
          NewBatchHolds(w);
        }
      }
    }
  }

  lemma OldBatchHolds(w: World, i: nat)
    requires Sound(w) && w.pool.phase == Reading && i < |w.pool.filled|
    ensures Holds(Act(w, ReadFile), i)
  {
    var after := Act(w, ReadFile);
    assert Holds(w, i);
    assert after.run.batches[i] == w.run.batches[i] && after.pool.filled[i] == w.pool.filled[i];
    assert Named(after.run, w.run.batches[i]) == Named(w.run, w.run.batches[i]);
  }

  lemma ActKeeps(w: World, a: Action)
    requires Sound(w) && a.Possible(w)
    ensures Sound(Act(w, a))
  {
    match a
    case Log(f, random) => LogKeeps(w, f, random);
    case ReadFile => ReadKeeps(w);
    case Internal(m) =>
      NextKeeps(w.pool, m);
      forall i: nat | i < |w.pool.filled|
        ensures Holds(Act(w, a), i)
      {
        assert Holds(w, i);
      }
  }

  ghost predicate Leads(w: World, a: Action, after: World) {
    Sound(w) ==> a.Possible(w) && after == Act(w, a)
  }

  /** `ws` is a run of the machine from its start, `actions` the actions taken. */
  ghost predicate Execution(ws: seq<World>, actions: seq<Action>) {
    && |ws| == |actions| + 1
    && |ws[0].pool.buffers| >= 1
    && ws[0] == World(START, Start(ws[0].pool.buffers))
    && forall i :: 0 <= i < |actions| ==> Leads(ws[i], actions[i], ws[i + 1])
  }

  lemma {:induction false} ExecutionKeeps(ws: seq<World>, actions: seq<Action>, i: nat)
    requires Execution(ws, actions) && i < |ws|
    ensures Sound(ws[i])
  {
    StartSound(ws[0]);
    for k := 0 to i
      invariant Sound(ws[k])
    {
      ExecutionStep(ws, actions, k);
    }
  }

  lemma ExecutionStep(ws: seq<World>, actions: seq<Action>, i: nat)
    requires Execution(ws, actions) && i < |actions| && Sound(ws[i])
    ensures Sound(ws[i + 1])
  {
    assert Leads(ws[i], actions[i], ws[i + 1]);
    ActKeeps(ws[i], actions[i]);
  }

  lemma {:induction false} StartSound(w: World)
    requires |w.pool.buffers| >= 1 && w == World(START, Start(w.pool.buffers))
    ensures Sound(w)
  {
    StartValid(w.pool.buffers);
    assert Concat<nat>([]) == [];
    assert Line(START) == [];
  }

  /**
   End to end. At every point of every run, a frame the driver accepted is purged, still in
   the log, or in exactly one batch; every batch a worker has processed parsed into exactly
   its frames, in the order the driver accepted them; and the batches keep that order among
   themselves.
   */
  lemma FramesArrive(ws: seq<World>, actions: seq<Action>, i: nat)
    requires Execution(ws, actions) && i < |ws|
    ensures var w := ws[i];
      && Increasing(Concat(w.run.batches) + w.run.tags)
      && (forall t: nat :: t < |w.run.accepted| <==>
        t in w.run.purged || t in w.run.tags || t in Concat(w.run.batches))
      && (forall t: nat :: t in w.run.purged ==> t !in w.run.tags && t !in Concat(w.run.batches))
      && (forall s: nat :: s in w.pool.outputs ==>
        (Holds(w, s)
        && Parse(w.pool.outputs[s].data, w.pool.outputs[s].n)
          == Parsed(Named(w.run, w.run.batches[s]), Finished)))
  {
    ExecutionKeeps(ws, actions, i);
    var w := ws[i];
    forall t: nat
      ensures t in Line(w.run) <==> t in w.run.tags || t in Concat(w.run.batches)
    {
    }
    forall s: nat | s in w.pool.outputs
      ensures Holds(w, s)
      ensures Parse(w.pool.outputs[s].data, w.pool.outputs[s].n)
        == Parsed(Named(w.run, w.run.batches[s]), Finished)
    {
      assert w.pool.outputs[s] == w.pool.filled[s];
      assert Holds(w, s);
      BatchRoundTrip(w.pool.outputs[s].data, Named(w.run, w.run.batches[s]));
    }
  }
}
