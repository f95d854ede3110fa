/**
 The agent's buffer rotation: one reader fills the buffers in turn and sends each to a
 bounded channel, workers take and process them, and after the last buffer of a round the
 reader waits for the wait group before it starts over.
 */
module Rotation {
  datatype Phase = Reading | Sending | Waiting

  datatype Job = Job(buffer: nat, serial: nat)

  /**
   `filled` is every buffer content read so far, in order; `outputs` maps the serial number
   of a processed job to the content its worker saw; `completed` counts this round's jobs.
   */
  datatype Pool<T> = Pool(
    size: nat, worker: nat, phase: Phase, buffers: seq<T>, queue: seq<Job>, running: set<Job>,
    wg: int, completed: nat, filled: seq<T>, outputs: map<nat, T>)
  {
    /** Jobs sent in this round. */
    function Sent(): nat {
      if phase == Waiting then size else worker
    }

    /** Serial number of the first job of this round. */
    function Base(): int {
      |filled| - Sent() - if phase == Sending then 1 else 0
    }

    predicate IsPending(job: Job) {
      job in queue || job in running
    }

    /** The job sent for buffer `b` in this round is processed or pending. */
    predicate Accounted(b: nat) {
      0 <= Base() && (Base() + b in outputs || IsPending(Job(b, Base() + b)))
    }

    ghost predicate Valid() {
      && 1 <= size == |buffers| && worker < size
      && (phase == Waiting ==> worker == size - 1)
      && 0 <= Base()
      && completed + |queue| + |running| == Sent()
      && wg == size - completed
      && |running| <= size
      && (phase == Sending ==> buffers[worker] == filled[|filled| - 1])
      && (forall i, j :: 0 <= i < j < |queue| ==> queue[i] != queue[j])
      && (forall job :: job in queue ==> job !in running)
      && (forall job :: IsPending(job) ==>
        && job.buffer < Sent()
        && job.serial == Base() + job.buffer
        && buffers[job.buffer] == filled[job.serial]
        && job.serial !in outputs)
      && (forall s :: s in outputs ==> s < Base() + Sent() && outputs[s] == filled[s])
      && (forall s: nat :: s < Base() ==> s in outputs)
      && (forall b: nat :: b < Sent() ==> Accounted(b))
    }
  }

  datatype Move<T> = Fill(content: T) | Send | Release | Take | Finish(job: Job)

  predicate Enabled<T>(p: Pool<T>, m: Move<T>) {
    match m
    case Fill(_) => p.phase == Reading
    case Send => p.phase == Sending && |p.queue| < p.size
    case Release => p.phase == Waiting && p.wg == 0
    case Take => |p.queue| > 0 && |p.running| < p.size
    case Finish(job) => job in p.running
  }

  function Next<T>(p: Pool<T>, m: Move<T>): Pool<T>
    requires p.Valid() && Enabled(p, m)
  {
    match m
    case Fill(content) =>
      p.(phase := Sending, buffers := p.buffers[p.worker := content], filled := p.filled + [content])
    case Send =>
      var sent := p.(queue := p.queue + [Job(p.worker, |p.filled| - 1)]);
      if p.worker < p.size - 1 then sent.(worker := p.worker + 1, phase := Reading) else sent.(phase := Waiting)
    case Release =>
      p.(worker := 0, phase := Reading, wg := p.wg + p.size, completed := 0)
    case Take =>
      p.(queue := p.queue[1..], running := p.running + {p.queue[0]})
    case Finish(job) =>
      p.(running := p.running - {job}, wg := p.wg - 1, completed := p.completed + 1,
      outputs := p.outputs[job.serial := p.buffers[job.buffer]])
  }

  function Start<T>(buffers: seq<T>): Pool<T> {
    Pool(|buffers|, 0, Reading, buffers, [], {}, |buffers|, 0, [], map[])
  }

  lemma StartValid<T>(buffers: seq<T>)
    requires |buffers| >= 1
    ensures Start(buffers).Valid()
  {
  }

  // ----- every move keeps the invariant

  lemma AccountedSame<T>(p: Pool<T>, q: Pool<T>)
    requires p.Base() == q.Base() && p.outputs.Keys <= q.outputs.Keys
    requires forall job :: p.IsPending(job) ==> q.IsPending(job) || job.serial in q.outputs
    ensures forall b: nat :: p.Accounted(b) ==> q.Accounted(b)
  {
  }

  lemma FillKeeps<T>(p: Pool<T>, content: T)
    requires p.Valid() && p.phase == Reading
    ensures Next(p, Fill(content)).Valid()
  {
    var q := Next(p, Fill(content));
    assert forall job :: q.IsPending(job) <==> p.IsPending(job);
    AccountedSame(p, q);
  }

  /** The job a send adds. */
  function Added<T>(p: Pool<T>): Job
    requires p.filled != []
  {
    Job(p.worker, |p.filled| - 1)
  }

  lemma SendPending<T>(p: Pool<T>)
    requires p.Valid() && Enabled(p, Send)
    ensures p.filled != [] && !p.IsPending(Added(p))
    ensures forall job :: Next(p, Send).IsPending(job) <==> p.IsPending(job) || job == Added(p)
  {
    assert Next(p, Send).queue[|p.queue|] == Added(p);
  }

  lemma SendAccounted<T>(p: Pool<T>)
    requires p.Valid() && Enabled(p, Send)
    ensures forall b: nat :: b < Next(p, Send).Sent() ==> Next(p, Send).Accounted(b)
  {
    var q := Next(p, Send);
    SendPending(p);
    assert q.Base() == p.Base() && q.Sent() == p.Sent() + 1;
    AccountedSame(p, q);
    assert q.Accounted(p.worker);
  }

  lemma SendKeeps<T>(p: Pool<T>)
    requires p.Valid() && Enabled(p, Send)
    ensures Next(p, Send).Valid()
  {
    var q := Next(p, Send);
    SendPending(p);
    SendAccounted(p);
    assert q.Base() == p.Base() && q.Sent() == p.Sent() + 1;
  }

  lemma ReleaseKeeps<T>(p: Pool<T>)
    requires p.Valid() && Enabled(p, Release)
    ensures Next(p, Release).Valid()
  {
    assert p.queue == [] && p.running == {};
    assert forall job :: !p.IsPending(job);
    var q := Next(p, Release);
    forall s: nat | s < q.Base()
      ensures s in q.outputs
    {
      if s >= p.Base() {
        assert p.Accounted(s - p.Base());
      }
    }
  }

  lemma TakeKeeps<T>(p: Pool<T>)
    requires p.Valid() && Enabled(p, Take)
    ensures Next(p, Take).Valid()
  {
    var q := Next(p, Take);
    var head := p.queue[0];
    assert head in p.queue && head !in p.running;
    assert |q.running| == |p.running| + 1;
    assert forall i :: 0 <= i < |q.queue| ==> q.queue[i] == p.queue[i + 1];
    forall job
      ensures q.IsPending(job) <==> p.IsPending(job)
    {
      TakePending(p, job);
    }
    AccountedSame(p, q);
  }

  lemma TakePending<T>(p: Pool<T>, job: Job)
    requires p.queue != []
    ensures job in p.queue <==> job == p.queue[0] || job in p.queue[1..]
  {
    assert p.queue == [p.queue[0]] + p.queue[1..];
  }

  lemma FinishKeeps<T>(p: Pool<T>, job: Job)
    requires p.Valid() && job in p.running
    ensures Next(p, Finish(job)).Valid()
  {
    var q := Next(p, Finish(job));
    forall other
      ensures q.IsPending(other) <==> p.IsPending(other) && other != job
    {
    }
    assert |q.running| == |p.running| - 1;
    forall other | q.IsPending(other)
      ensures other.serial != job.serial
    {
      assert p.IsPending(other) && p.IsPending(job);
    }
    assert p.IsPending(job);
    AccountedSame(p, q);
  }

  lemma NextKeeps<T>(p: Pool<T>, m: Move<T>)
    requires p.Valid() && Enabled(p, m)
    ensures Next(p, m).Valid()
  {
    match m
    case Fill(content) => FillKeeps(p, content);
    case Send => SendKeeps(p);
    case Release => ReleaseKeeps(p);
    case Take => TakeKeeps(p);
    case Finish(job) => FinishKeeps(p, job);
  }

  // ----- whole schedules

  /** `ps` is a run from the start in which `ms[i]` leads from state `i` to the next. */
  ghost predicate Schedule<T>(ps: seq<Pool<T>>, ms: seq<Move<T>>) {
    && |ps| == |ms| + 1
    && |ps[0].buffers| >= 1
    && ps[0] == Start(ps[0].buffers)
    && forall i :: 0 <= i < |ms| ==>
      ps[i].Valid() ==> Enabled(ps[i], ms[i]) && ps[i + 1] == Next(ps[i], ms[i])
  }

  lemma {:induction false} ScheduleKeeps<T>(ps: seq<Pool<T>>, ms: seq<Move<T>>, i: nat)
    requires Schedule(ps, ms) && i < |ps|
    ensures ps[i].Valid()
  {
    if i > 0 {
      ScheduleKeeps(ps, ms, i - 1);
      NextKeeps(ps[i - 1], ms[i - 1]);
    }
  }

  /**
   At every point of every schedule: the buffer about to be filled belongs to no queued or
   running job; a pending send finds room in the channel; the wait group counts the jobs
   still missing from the round and is never negative; a waiting reader is released exactly
   when nothing is pending.
   */
  lemma RotationSafe<T>(ps: seq<Pool<T>>, ms: seq<Move<T>>, i: nat)
    requires Schedule(ps, ms) && i < |ps|
    ensures var p := ps[i];
      && (p.phase == Reading ==> forall job :: p.IsPending(job) ==> job.buffer != p.worker)
      && (p.phase == Sending ==> Enabled(p, Send))
      && 0 <= p.wg == p.size - p.completed
      && |p.queue| <= p.size
      && (p.phase == Waiting ==> (p.wg == 0 <==> forall job :: !p.IsPending(job)))
  {
    ScheduleKeeps(ps, ms, i);
    var p := ps[i];
    if p.phase == Waiting && p.wg > 0 {
      if p.queue != [] {
        assert p.IsPending(p.queue[0]);
      } else {
        var job :| job in p.running;
        assert p.IsPending(job);
      }
    }
  }

  /**
   At every point of every schedule, each content read is either still pending, unchanged in
   its buffer, or has been processed, once, as it was read; nothing else has been processed.
   */
  lemma ReadsProcessedOnce<T>(ps: seq<Pool<T>>, ms: seq<Move<T>>, i: nat)
    requires Schedule(ps, ms) && i < |ps|
    ensures var p := ps[i];
      && (forall s :: s in p.outputs ==> s < |p.filled| && p.outputs[s] == p.filled[s])
      && (forall job :: p.IsPending(job) ==>
        && job.buffer < |p.buffers| && job.serial < |p.filled|
        && p.buffers[job.buffer] == p.filled[job.serial] && job.serial !in p.outputs)
      && (p.phase != Sending ==> forall s: nat :: s < |p.filled| ==>
        s in p.outputs || exists job :: p.IsPending(job) && job.serial == s)
  {
    ScheduleKeeps(ps, ms, i);
    var p := ps[i];
    if p.phase != Sending {
      forall s: nat | s < |p.filled| && s !in p.outputs
        ensures exists job :: p.IsPending(job) && job.serial == s
      {
        var b := s - p.Base();
        assert p.Accounted(b);
      }
    }
  }

  function Work<T>(p: Pool<T>): nat {
    2 * |p.queue| + |p.running|
  }

  /**
   A round always ends: while a reader waits and is not released, some worker can move, and
   every such move lowers the work left, which is zero exactly when the reader is released.
   */
  lemma WaitIsReleased<T>(p: Pool<T>)
    requires p.Valid() && p.phase == Waiting
    ensures p.wg == 0 <==> Work(p) == 0
    ensures p.wg > 0 ==> exists m: Move<T> :: (m.Take? || m.Finish?) && Enabled(p, m)
    ensures forall m: Move<T> :: (m.Take? || m.Finish?) && Enabled(p, m) ==>
      Next(p, m).phase == Waiting && Work(Next(p, m)) < Work(p)
  {
    if p.wg > 0 {
      if p.running == {} {
        assert Enabled(p, Take);
      } else {
        var job :| job in p.running;
        assert Enabled(p, Finish(job));
      }
    }
    forall m: Move<T> | (m.Take? || m.Finish?) && Enabled(p, m)
      ensures Next(p, m).phase == Waiting && Work(Next(p, m)) < Work(p)
    {
      if m.Take? {
        assert |p.running + {p.queue[0]}| == |p.running| + 1;
      }
    }
  }
}
