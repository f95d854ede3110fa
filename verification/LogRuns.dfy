/**
 Runs of the event log: any interleaving of writes and reads, each a critical section of
 the list lock. Every accepted frame is named by its place in the order of acceptance.
 */
module LogRuns {
  import opened Bytes
  import opened Frames
  import opened EventLog

  datatype Op = Write(f: Frame, random: nat) | Read(len: nat) {
    predicate Allowed() {
      Write? ==> f.Typed() && HEADER_SIZE + |f.payload| <= LONG_LIMIT - LIST_SIZE_MAX_BYTES
    }
  }

  /** The log, its entries named by `tags`, with the history of what entered and left it. */
  datatype Run = Run(accepted: seq<Frame>, log: Queue, tags: seq<nat>, batches: seq<seq<nat>>, purged: set<nat>)

  const START: Run := Run([], Queue([], 0), [], [], {})

  ghost predicate Increasing(s: seq<nat>) {
    forall i, j :: 0 <= i < j < |s| ==> s[i] < s[j]
  }

  /** Names of all frames handed to readers so far, in delivery order, then of those still queued. */
  function Line(r: Run): seq<nat> {
    Concat(r.batches) + r.tags
  }

  ghost predicate Tracked(r: Run) {
    && r.log.Exact()
    && |r.tags| == |r.log.entries|
    && (forall i :: 0 <= i < |r.accepted| ==> r.accepted[i].Accepted())
    && (forall i :: 0 <= i < |r.tags| ==>
      r.tags[i] < |r.accepted| && r.log.entries[i] == Encode(r.accepted[r.tags[i]]))
  }

  /**
   The line is a subsequence of the first `n` accepted frames in acceptance order, no frame
   twice, and the frames missing from it are exactly the purged ones.
   */
  ghost predicate Partition(line: seq<nat>, purged: set<nat>, n: nat) {
    && Increasing(line)
    && (forall t: nat :: t in line || t in purged <==> t < n)
    && (forall t: nat :: t in purged ==> t !in line)
  }

  ghost predicate Conserved(r: Run) {
    Partition(Line(r), r.purged, |r.accepted|)
  }

  function Step(r: Run, op: Op): Run
    requires |r.tags| == |r.log.entries|
  {
    match op
    case Write(f, random) =>
      if !f.Accepted() then r else
        var kept := r.log.Survivors(random);
        Run(r.accepted + [f], r.log.Add(Encode(f), random), r.tags[..kept] + [|r.accepted|],
            r.batches, r.purged + set t | t in r.tags[kept..])
    case Read(len) =>
      var n := r.log.Taken(len);
      Run(r.accepted, r.log.Rest(len), r.tags[n..], r.batches + [r.tags[..n]], r.purged)
  }

  /** Dropping the end of the line into the purged set and appending a new name keeps the partition. */
  lemma CutAndAppend(line: seq<nat>, purged: set<nat>, n: nat, cut: nat)
    requires Partition(line, purged, n) && cut <= |line|
    ensures Partition(line[..cut] + [n], purged + (set t | t in line[cut..]), n + 1)
  {
    var after := line[..cut] + [n];
    var dropped := set t | t in line[cut..];
    assert line == line[..cut] + line[cut..];
    forall t: nat
      ensures t in line <==> t in line[..cut] || t in line[cut..]
      ensures t in after <==> t in line[..cut] || t == n
      ensures t in dropped <==> t in line[cut..]
    {
    }
    forall t: nat | t in dropped
      ensures t !in line[..cut]
    {
      var j :| cut <= j < |line| && line[j] == t;
    }
    forall i, j | 0 <= i < j < |after|
      ensures after[i] < after[j]
    {
      assert after[i] == line[i] && line[i] in line;
    }
  }

  lemma WriteConserves(r: Run, f: Frame, random: nat)
    requires Tracked(r) && Conserved(r) && Write(f, random).Allowed()
    ensures Tracked(Step(r, Write(f, random)))
    ensures Conserved(Step(r, Write(f, random)))
  {
    if f.Accepted() {
      var after := Step(r, Write(f, random));
      var kept := r.log.Survivors(random);
      AddBounded(r.log, Encode(f), random, |Encode(f)|);
      var cut := |Concat(r.batches)| + kept;
      assert Line(r)[..cut] + [|r.accepted|] == Line(after);
      assert Line(r)[cut..] == r.tags[kept..];
      CutAndAppend(Line(r), r.purged, |r.accepted|, cut);
      WriteTracks(r, f, random);
    }
  }

  lemma WriteTracks(r: Run, f: Frame, random: nat)
    requires Tracked(r) && Write(f, random).Allowed() && f.Accepted()
    ensures Tracked(Step(r, Write(f, random)))
  {
    AddBounded(r.log, Encode(f), random, |Encode(f)|);
    var after := Step(r, Write(f, random));
    forall i | 0 <= i < |after.tags|
      ensures after.tags[i] < |after.accepted|
      ensures after.log.entries[i] == Encode(after.accepted[after.tags[i]])
    {
      if i < r.log.Survivors(random) {
        assert after.tags[i] == r.tags[i] && after.log.entries[i] == r.log.entries[i];
      }
    }
  }

  lemma {:induction false} ReadConserves(r: Run, len: nat)
    requires Tracked(r) && Conserved(r)
    ensures Tracked(Step(r, Read(len)))
    ensures Line(Step(r, Read(len))) == Line(r)
    ensures Conserved(Step(r, Read(len)))
  {
    ReadTracks(r, len);
    MovesToBatches(r.batches, r.tags, r.log.Taken(len));
  }

  lemma {:induction false} ReadTracks(r: Run, len: nat)
    requires Tracked(r)
    ensures Tracked(Step(r, Read(len)))
  {
    RestAccounting(r.log, len);
    var n := r.log.Taken(len);
    var after := Step(r, Read(len));
    forall i | 0 <= i < |after.tags|
      ensures after.tags[i] == r.tags[n + i] && after.log.entries[i] == r.log.entries[n + i]
    {
    }
  }

  /** Moving the head of the queue into a batch of its own leaves the line as it is. */
  lemma {:induction false} MovesToBatches(batches: seq<seq<nat>>, tags: seq<nat>, n: nat)
    requires n <= |tags|
    ensures Concat(batches + [tags[..n]]) + tags[n..] == Concat(batches) + tags
  {
    ConcatSplit(batches, [tags[..n]]);
    ConcatSingle(tags[..n]);
    var joined := Concat(batches);
    assert (joined + tags[..n]) + tags[n..] == joined + (tags[..n] + tags[n..]);
    assert tags[..n] + tags[n..] == tags;
  }

  lemma StepConserves(r: Run, op: Op)
    requires Tracked(r) && Conserved(r) && op.Allowed()
    ensures Tracked(Step(r, op)) && Conserved(Step(r, op))
  {
    match op
    case Write(f, random) => WriteConserves(r, f, random);
    case Read(len) => ReadConserves(r, len);
  }

  /** The state after any sequence of writes and reads. */
  function Execute(ops: seq<Op>): (r: Run)
    requires forall i :: 0 <= i < |ops| ==> ops[i].Allowed()
    ensures Tracked(r) && Conserved(r)
  {
    if ops == [] then START else
      var before := Execute(ops[..|ops| - 1]);
      var last := ops[|ops| - 1];
      StepConserves(before, last);
      Step(before, last)
  }

  /**
   In every reachable state the counter stays below the limit plus the largest frame
   written so far.
   */
  lemma {:induction false} CounterBound(ops: seq<Op>, largest: nat)
    requires forall i :: 0 <= i < |ops| ==> ops[i].Allowed()
    requires forall i :: 0 <= i < |ops| && ops[i].Write? ==> HEADER_SIZE + |ops[i].f.payload| <= largest
    ensures Execute(ops).log.sizeBytes < LIST_SIZE_MAX_BYTES + largest
  {
    if ops != [] {
      var before := Execute(ops[..|ops| - 1]);
      CounterBound(ops[..|ops| - 1], largest);
      match ops[|ops| - 1]
      case Write(f, random) =>
        if f.Accepted() {
          AddAccounting(before.log, Encode(f), random);
          AddBounded(before.log, Encode(f), random, |Encode(f)|);
        }
      case Read(len) =>
        RestAccounting(before.log, len);
        FitIsLongest(before.log.entries, len);
    }
  }

  /** A delivered batch is, byte for byte, the accepted frames its names stand for. */
  lemma BatchContents(r: Run, len: nat)
    requires Tracked(r)
    ensures var n := r.log.Taken(len);
      r.log.entries[..n] == EncodeAll(Named(r, r.tags[..n]))
  {
  }

  predicate Known(r: Run, tags: seq<nat>) {
    forall i :: 0 <= i < |tags| ==> tags[i] < |r.accepted|
  }

  /** The frames some names stand for. */
  function Named(r: Run, tags: seq<nat>): (fs: seq<Frame>)
    requires Known(r, tags)
    ensures |fs| == |tags|
    ensures forall i :: 0 <= i < |tags| ==> fs[i] == r.accepted[tags[i]]
  {
    seq(|tags|, i requires 0 <= i < |tags| => r.accepted[tags[i]])
  }

  lemma QueuedInOrder(r: Run)
    requires Conserved(r)
    ensures Increasing(r.tags)
  {
    var d := |Concat(r.batches)|;
    forall i, j | 0 <= i < j < |r.tags|
      ensures r.tags[i] < r.tags[j]
    {
      assert Line(r)[d + i] == r.tags[i] && Line(r)[d + j] == r.tags[j];
    }
  }

  /**
   A purge drops the newest queued frames: every name it removes was accepted after every
   name it leaves. The log's own description says it removes the oldest.
   */
  lemma PurgeDropsNewest(ops: seq<Op>, f: Frame, random: nat)
    requires forall i :: 0 <= i < |ops| ==> ops[i].Allowed()
    requires f.Accepted()
    ensures var r := Execute(ops);
      var kept := r.log.Survivors(random);
      && Step(r, Write(f, random)).purged == r.purged + set t | t in r.tags[kept..]
      && forall i, j :: 0 <= i < kept <= j < |r.tags| ==> r.tags[i] < r.tags[j]
  {
    var r := Execute(ops);
    QueuedInOrder(r);
  }

  /**
   The survivors of a purge are the frames an oldest-first purge of the same size would
   leave if and only if the oldest frame alone exceeds what the purge keeps, so that nothing
   survives.
   */
  lemma OldestFirstIff(ops: seq<Op>, f: Frame, random: nat)
    requires forall i :: 0 <= i < |ops| ==> ops[i].Allowed()
    requires f.Accepted() && Execute(ops).log.sizeBytes >= LIST_SIZE_MAX_BYTES
    ensures var r := Execute(ops);
      var kept := r.log.Survivors(random);
      && r.log.entries != []
      && (r.tags[..kept] == r.tags[|r.tags| - kept..] <==> |r.log.entries[0]| > KeepMax(random))
  {
    var r := Execute(ops);
    PurgeDropsSome(r.log, random);
    QueuedInOrder(r);
    EndsDiffer(r.tags, r.log.Survivors(random));
  }

  lemma EndsDiffer(tags: seq<nat>, kept: nat)
    requires Increasing(tags) && kept < |tags|
    ensures tags[..kept] == tags[|tags| - kept..] <==> kept == 0
  {
    if kept > 0 {
      assert tags[..kept][0] != tags[|tags| - kept..][0];
    }
  }

  lemma WriteBelowLimit(r: Run, f: Frame, random: nat)
    requires |r.tags| == |r.log.entries| && f.Accepted()
    requires r.log.sizeBytes == Total(r.log.entries) < LIST_SIZE_MAX_BYTES
    requires |Encode(f)| < LONG_LIMIT - LIST_SIZE_MAX_BYTES
    ensures var after := Step(r, Write(f, random));
      && after.log == Queue(r.log.entries + [Encode(f)], r.log.sizeBytes + |Encode(f)|)
      && after.tags == r.tags + [|r.accepted|] && after.accepted == r.accepted + [f]
      && after.batches == r.batches && after.purged == r.purged
      && after.log.sizeBytes == Total(after.log.entries)
  {
    assert r.log.entries[..|r.log.entries|] == r.log.entries && r.tags[..|r.tags|] == r.tags;
    assert r.tags[|r.tags|..] == [];
    AppendEntry(r.log.entries, Encode(f));
  }

  lemma PurgeOfTwo(r: Run, f: Frame, random: nat)
    requires f.Accepted() && LIST_SIZE_MAX_BYTES / 2 <= |Encode(f)| <= LIST_KEEP_MAX
    requires r.log == Queue([Encode(f), Encode(f)], 2 * |Encode(f)|) && r.tags == [0, 1] && |r.accepted| == 2
    requires r.purged == {}
    ensures Step(r, Write(f, random)).tags == [0, 2]
    ensures Step(r, Write(f, random)).purged == {1}
  {
    var e := Encode(f);
    assert r.log.entries[1..] == [e];
    assert Fit([e], KeepMax(random) - |e|) == 0;
    assert r.log.Survivors(random) == 1;
    assert r.tags[1..] == [1] && r.tags[..1] == [0];
  }

  lemma ExecuteNext(ops: seq<Op>, op: Op)
    requires op.Allowed() && forall i :: 0 <= i < |ops| ==> ops[i].Allowed()
    ensures Execute(ops + [op]) == Step(Execute(ops), op)
  {
    assert (ops + [op])[..|ops|] == ops;
  }

  lemma ExecuteTwice(op: Op)
    requires op.Allowed()
    ensures |Step(START, op).tags| == |Step(START, op).log.entries|
    ensures Execute([op, op]) == Step(Step(START, op), op)
  {
    ExecuteNext([], op);
    assert [] + [op] == [op] && [op] + [op] == [op, op];
    ExecuteNext([op], op);
  }

  function Alone(f: Frame): Run {
    Run([f], Queue([Encode(f)], |Encode(f)|), [0], [], {})
  }

  lemma OneQueued(f: Frame)
    requires f.Accepted() && |Encode(f)| <= LIST_KEEP_MAX
    ensures Step(START, Write(f, 0)) == Alone(f)
    ensures Total(Alone(f).log.entries) == |Encode(f)|
  {
    WriteBelowLimit(START, f, 0);
  }

  lemma SecondQueued(f: Frame)
    requires f.Accepted() && |Encode(f)| <= LIST_KEEP_MAX && Total(Alone(f).log.entries) == |Encode(f)|
    ensures var r := Step(Alone(f), Write(f, 0));
      && r.log == Queue([Encode(f), Encode(f)], 2 * |Encode(f)|)
      && r.tags == [0, 1] && |r.accepted| == 2 && r.purged == {}
  {
    WriteBelowLimit(Alone(f), f, 0);
  }

  lemma TwoQueued(f: Frame)
    requires f.Accepted() && |Encode(f)| <= LIST_KEEP_MAX
    ensures var r := Execute([Write(f, 0), Write(f, 0)]);
      && r.log == Queue([Encode(f), Encode(f)], 2 * |Encode(f)|)
      && r.tags == [0, 1] && |r.accepted| == 2 && r.purged == {}
  {
    ExecuteTwice(Write(f, 0));
    OneQueued(f);
    SecondQueued(f);
  }

  /**
   Reachable: two frames of 100 MB or more fill the log, and the next write, whatever its jitter,
   drops the second of them and keeps the first.
   */
  lemma NewestGoesFirst(f: Frame, random: nat)
    requires f.Accepted() && LIST_SIZE_MAX_BYTES / 2 <= |Encode(f)| <= LIST_KEEP_MAX
    ensures Write(f, random).Allowed()
    ensures var r := Execute([Write(f, 0), Write(f, 0)]);
      && r.log.sizeBytes >= LIST_SIZE_MAX_BYTES && r.tags == [0, 1]
      && Step(r, Write(f, random)).tags == [0, 2]
      && Step(r, Write(f, random)).purged == {1}
  {
    TwoQueued(f);
    PurgeOfTwo(Execute([Write(f, 0), Write(f, 0)]), f, random);
  }

  /** The log has a head entry longer than `len`, and short enough to survive any purge. */
  ghost predicate Blocked(r: Run, head: seq<byte>, len: nat) {
    r.log.entries != [] && r.log.entries[0] == head && len < |head| <= LIST_KEEP_MAX
  }

  lemma StepStaysBlocked(r: Run, op: Op, head: seq<byte>, len: nat)
    requires Tracked(r) && Blocked(r, head, len) && op.Allowed()
    requires op.Read? ==> op.len <= len
    ensures Blocked(Step(r, op), head, len)
    ensures Concat(Step(r, op).batches) == Concat(r.batches)
  {
    match op
    case Write(f, random) =>
    case Read(n) =>
      assert r.tags[..0] == [];
      ConcatSplit(r.batches, [[]]);
      ConcatSingle<nat>([]);
  }

  /**
   An entry longer than the readers' buffers blocks the log: once it is at the head, nothing
   is delivered any more, whatever is written, purged or read afterwards.
   */
  lemma {:induction false} OversizedHeadBlocks(ops: seq<Op>, n: nat, head: seq<byte>, len: nat)
    requires n <= |ops| && forall i :: 0 <= i < |ops| ==> ops[i].Allowed()
    requires Blocked(Execute(ops[..n]), head, len)
    requires forall i :: n <= i < |ops| && ops[i].Read? ==> ops[i].len <= len
    ensures Blocked(Execute(ops), head, len)
    ensures Concat(Execute(ops).batches) == Concat(Execute(ops[..n]).batches)
    decreases |ops|
  {
    if n == |ops| {
      assert ops[..n] == ops;
    } else {
      var before := ops[..|ops| - 1];
      assert before[..n] == ops[..n];
      OversizedHeadBlocks(before, n, head, len);
      StepStaysBlocked(Execute(before), ops[|ops| - 1], head, len);
    }
  }
}
