/**
 The driver's in-memory event log: a list of encoded entries with a signed 32-bit
 byte counter, appended to by every callback, purged when full and drained by reads.
 Each critical section of the list's spin lock is one method.
 */
module EventLog {
  import opened Bytes
  import opened Frames

  const LIST_SIZE_MAX_BYTES := 200_000_000
  const LIST_PURGE_DIVISOR := 8
  const LIST_KEEP_MAX := LIST_SIZE_MAX_BYTES - LIST_SIZE_MAX_BYTES / LIST_PURGE_DIVISOR
  const LIST_PURGE_CONGRUENT := LIST_KEEP_MAX / 20
  const LONG_LIMIT := 0x8000_0000
  const POSTAMBLE: seq<byte> := [0x4E, 0x4F, 0x4D, 0x4E, 0x4F, 0x4F, 0x4D]

  type Entries = seq<seq<byte>>

  datatype Status = Success | NoMoreEntries | InvalidBufferSize | Pending

  /** Conversion to a signed 32-bit LONG. */
  function Long(x: int): int {
    (x + LONG_LIMIT) % 0x1_0000_0000 - LONG_LIMIT
  }

  function KeepMax(random: nat): nat {
    LIST_KEEP_MAX + random % LIST_PURGE_CONGRUENT
  }

  /** How many entries, taken from the head, fit into `room` bytes. */
  function Fit(entries: Entries, room: int): (n: nat)
    ensures n <= |entries|
  {
    if entries == [] || |entries[0]| > room then 0 else 1 + Fit(entries[1..], room - |entries[0]|)
  }

  lemma {:induction false} TotalOfPrefix(entries: Entries, i: nat, j: nat)
    requires i <= j <= |entries|
    ensures Total(entries[..i]) <= Total(entries[..j])
    ensures Total(entries[..j]) == Total(entries[..i]) + Total(entries[i..j])
  {
    assert entries[..j] == entries[..i] + entries[i..j];
    ConcatSplit(entries[..i], entries[i..j]);
  }

  /** The greedy count is the length of the longest prefix within the room, and of no longer one. */
  lemma {:induction false} FitIsLongest(entries: Entries, room: nat)
    ensures Total(entries[..Fit(entries, room)]) <= room
    ensures forall j :: Fit(entries, room) < j <= |entries| ==> Total(entries[..j]) > room
  {
    if entries != [] {
      var rest := entries[1..];
      forall j | 0 < j <= |entries|
        ensures Total(entries[..j]) == |entries[0]| + Total(rest[..j - 1])
      {
        assert entries[..j][1..] == rest[..j - 1];
      }
      if |entries[0]| <= room {
        FitIsLongest(rest, room - |entries[0]|);
      }
    }
  }

  /** A prefix fits exactly if it is no longer than the greedy one. */
  lemma FitIsLongestRun(entries: Entries, room: nat)
    ensures forall k :: 0 <= k <= |entries| ==> (k <= Fit(entries, room) <==> Total(entries[..k]) <= room)
  {
    FitIsLongest(entries, room);
    forall k | 0 <= k <= Fit(entries, room)
      ensures Total(entries[..k]) <= room
    {
      TotalOfPrefix(entries, k, Fit(entries, room));
    }
  }

  /** A prefix that fits while its one-entry extension does not is the greedy one. */
  lemma FitIsUnique(entries: Entries, room: nat, n: nat)
    requires n <= |entries|
    requires Total(entries[..n]) <= room
    requires n < |entries| ==> Total(entries[..n + 1]) > room
    ensures n == Fit(entries, room)
  {
    var fit := Fit(entries, room);
    FitIsLongest(entries, room);
    if n < fit {
      TotalOfPrefix(entries, n + 1, fit);
    }
  }

  /** The log as a value: the entries, head first, and the counter. */
  datatype Queue = Queue(entries: Entries, sizeBytes: int) {
    /** The accounting invariant: the counter is the number of bytes queued. */
    ghost predicate Exact() {
      && sizeBytes == Total(entries) < LONG_LIMIT
      && forall i :: 0 <= i < |entries| ==> |entries[i]| > HEADER_SIZE
    }

    /** How many old entries an insertion leaves in place. */
    function Survivors(random: nat): nat {
      if sizeBytes < LIST_SIZE_MAX_BYTES then |entries| else Fit(entries, KeepMax(random))
    }

    function Add(entry: seq<byte>, random: nat): Queue {
      var kept := entries[..Survivors(random)];
      Queue(kept + [entry], Long(Total(kept) + |entry|))
    }

    function Taken(len: nat): nat {
      Fit(entries, len)
    }

    function Rest(len: nat): Queue {
      Queue(entries[Taken(len)..], sizeBytes - Total(entries[..Taken(len)]))
    }
  }

  lemma {:induction false} AppendEntry(entries: Entries, entry: seq<byte>)
    ensures Total(entries + [entry]) == Total(entries) + |entry|
  {
    ConcatSplit(entries, [entry]);
    ConcatSingle(entry);
  }

  /**
   An insertion, purging or not, keeps the counter exact precisely when the bytes then
   queued are below the range of a LONG; without a purge nothing old is lost.
   */
  lemma AddAccounting(q: Queue, entry: seq<byte>, random: nat)
    requires q.Exact() && |entry| > HEADER_SIZE
    ensures var kept := q.entries[..q.Survivors(random)];
      q.Add(entry, random).Exact() <==> Total(kept) + |entry| < LONG_LIMIT
    ensures Total(q.entries[..q.Survivors(random)]) < LIST_SIZE_MAX_BYTES
  {
    var k := q.Survivors(random);
    var kept := q.entries[..k];
    AppendEntry(kept, entry);
    FitIsLongest(q.entries, KeepMax(random));
    if k == |q.entries| {
      assert kept == q.entries;
    }
  }

  /** Frames no longer than 1,947,483,648 bytes can never break the accounting. */
  lemma AddBounded(q: Queue, entry: seq<byte>, random: nat, largest: nat)
    requires q.Exact() && HEADER_SIZE < |entry| <= largest <= LONG_LIMIT - LIST_SIZE_MAX_BYTES
    ensures q.Add(entry, random).Exact()
    ensures q.Add(entry, random).sizeBytes < LIST_SIZE_MAX_BYTES + largest
  {
    AddAccounting(q, entry, random);
  }

  /** One frame of 2 GB or more is enough: on an empty log the counter turns negative, exactly then. */
  lemma CounterOverflows(f: Frame, random: nat)
    requires f.Accepted()
    ensures Queue([], 0).Exact()
    ensures Queue([], 0).Add(Encode(f), random).sizeBytes < 0 <==> HEADER_SIZE + |f.payload| >= LONG_LIMIT
  {
    var q, entry := Queue([], 0), Encode(f);
    AddToEmpty(q, entry, random);
    LongNegativeIff(|entry|);
  }

  lemma AddToEmpty(q: Queue, entry: seq<byte>, random: nat)
    requires q.entries == [] && q.sizeBytes == 0
    ensures q.Exact() && q.Add(entry, random).sizeBytes == Long(|entry|)
  {
    assert q.entries[..q.Survivors(random)] == [];
  }

  lemma LongNegativeIff(x: nat)
    requires x < 0x1_0000_0000
    ensures Long(x) < 0 <==> x >= LONG_LIMIT
  {
  }

  /** A purge always drops at least one entry: the limit kept is below the limit that triggers it. */
  lemma PurgeDropsSome(q: Queue, random: nat)
    requires q.Exact() && q.sizeBytes >= LIST_SIZE_MAX_BYTES
    ensures KeepMax(random) <= 183_749_999
    ensures q.Survivors(random) < |q.entries|
  {
    FitIsLongest(q.entries, KeepMax(random));
    assert q.entries[..|q.entries|] == q.entries;
  }

  /**
   What an insertion leaves of the log, in numbers: everything below 200000000 bytes; otherwise
   the longest run of entries from the head of at most 175000000 bytes and a jitter.
   */
  lemma AddKeeps(q: Queue, entry: seq<byte>, random: nat) returns (n: nat)
    requires q.Exact() && |entry| > HEADER_SIZE
    ensures n <= |q.entries| && q.Add(entry, random).entries == q.entries[..n] + [entry]
    ensures Total(q.entries) < 200_000_000 ==> n == |q.entries|
    ensures Total(q.entries) >= 200_000_000 ==>
      forall k :: 0 <= k <= |q.entries| ==> (k <= n <==> Total(q.entries[..k]) <= 175_000_000 + random % 8_750_000)
  {
    n := q.Survivors(random);
    FitIsLongestRun(q.entries, KeepMax(random));
  }

  lemma RestAccounting(q: Queue, len: nat)
    requires q.Exact()
    ensures q.Rest(len).Exact()
    ensures q.entries[..q.Taken(len)] + q.Rest(len).entries == q.entries
    ensures Total(q.entries[..q.Taken(len)]) <= len
  {
    var n := q.Taken(len);
    FitIsLongest(q.entries, len);
    assert q.entries[..n] + q.entries[n..] == q.entries;
    ConcatSplit(q.entries[..n], q.entries[n..]);
  }

  class Log {
    var list: Entries
    var sizeBytes: int
    var initialized: bool

    function State(): Queue
      reads this
    {
      Queue(list, sizeBytes)
    }

    constructor ()
      ensures State() == Queue([], 0) && State().Exact() && !initialized
    {
      list, sizeBytes, initialized := [], 0, false;
    }

    /** DeleteLogEntry: the counter goes down by the entry's size and never below zero. */
    method DeleteLogEntry(size: nat)
      requires size < 0x1_0000_0000
      modifies this`sizeBytes
      ensures sizeBytes >= 0
      ensures 0 <= size <= old(sizeBytes) < LONG_LIMIT ==> sizeBytes == old(sizeBytes) - size
    {
      sizeBytes := Long(sizeBytes - size);
      if sizeBytes < 0 {
        sizeBytes := 0;
      }
    }

    /** One turn of the purge: the entry at the tail goes. */
    method PopTail()
      requires State().Exact() && list != []
      modifies this`list, this`sizeBytes
      ensures State().Exact() && list == old(list)[..|old(list)| - 1]
    {
      var last := |list| - 1;
      var entry := list[last];
      assert list == list[..last] + [entry];
      ConcatSplit(list[..last], [entry]);
      ConcatSingle(entry);
      list := list[..last];
      DeleteLogEntry(|entry|);
    }

    /** The purge: take entries off the tail, at least one, until at most `keepMax` bytes are left. */
    method Purge(random: nat)
      requires State().Exact() && sizeBytes >= LIST_SIZE_MAX_BYTES
      modifies this`list, this`sizeBytes
      ensures State().Exact()
      ensures list == old(list)[..old(State()).Survivors(random)]
    {
      var jitter := random % LIST_PURGE_CONGRUENT;
      var keepMax := if jitter <= 0 then LIST_KEEP_MAX else LIST_KEEP_MAX + jitter;
      ghost var before := list;
      var first := true;
      while first || sizeBytes > keepMax
        invariant State().Exact()
        invariant |list| <= |before| && list == before[..|list|]
        invariant first ==> list == before && sizeBytes >= LIST_SIZE_MAX_BYTES
        invariant !first ==> |list| < |before| && Total(before[..|list| + 1]) > keepMax
        invariant first || sizeBytes > keepMax ==> list != []
        decreases first, |list|
      {
        first := false;
        assert before[..|list| - 1] == list[..|list| - 1];
        PopTail();
      }
      FitIsUnique(before, keepMax, |list|);
    }

    /**
     AddLogEntry. A zero or oversized payload is refused; otherwise the encoded frame goes
     to the tail, after a purge if the counter has reached the limit.
     */
    method AddLogEntry(f: Frame, random: nat)
      requires f.Typed() && State().Exact()
      modifies this`list, this`sizeBytes
      ensures f.Accepted() <==> 1 <= |f.payload| <= 4_294_967_258
      ensures !f.Accepted() ==> State() == old(State())
      ensures f.Accepted() ==> State() == old(State()).Add(Encode(f), random)
      ensures f.Accepted() ==> 0 < |list| <= |old(list)| + 1 && list == old(list)[..|list| - 1] + [Encode(f)]
      ensures f.Accepted() && old(sizeBytes) < 200_000_000 ==> |list| == |old(list)| + 1
      ensures f.Accepted() && old(sizeBytes) >= 200_000_000 ==>
        forall k :: 0 <= k <= |old(list)| ==>
          (k < |list| <==> Total(old(list)[..k]) <= 175_000_000 + random % 8_750_000)
    {
      if |f.payload| == 0 || |f.payload| > PAYLOAD_MAX {
        return;
      }
      var data := BuildEntry(f);
      var entry := data[..];
      ghost var kept := AddKeeps(State(), entry, random);
      if sizeBytes < LIST_SIZE_MAX_BYTES {
        assert list[..|list|] == list;
        list := list + [entry];
        sizeBytes := Long(sizeBytes + |entry|);
      } else {
        Purge(random);
        list := list + [entry];
        sizeBytes := Long(sizeBytes + |entry|);
      }
    }

    /**
     ReadLogEntry. The longest prefix of the log that fits moves into the caller's buffer,
     followed by the postamble where there is room for it and by zeros.
     */
    method ReadLogEntry(buf: array<byte>) returns (status: Status, bytes: nat)
      requires State().Exact() && buf.Length < 0x1_0000_0000
      modifies this`list, this`sizeBytes, buf
      ensures !initialized ==> status == Pending
      ensures initialized && old(list) == [] ==> status == NoMoreEntries
      ensures initialized && old(list) != [] ==>
        status == if old(State()).Taken(buf.Length) == 0 then InvalidBufferSize else Success
      ensures status == Pending || status == NoMoreEntries ==>
        bytes == 0 && State() == old(State()) && buf[..] == old(buf[..])
      ensures status == Success || status == InvalidBufferSize ==>
        var batch := old(list)[..old(State()).Taken(buf.Length)];
        && State() == old(State()).Rest(buf.Length)
        && bytes == Total(batch) <= buf.Length
        && buf[..bytes] == Concat(batch)
        && buf[bytes..] == Tail(buf.Length - bytes, status == Success)
      ensures status == Success || status == InvalidBufferSize ==>
        forall k :: 0 <= k <= |old(list)| ==>
          (k <= |old(list)| - |list| <==> Total(old(list)[..k]) <= buf.Length)
      ensures status == Success && buf.Length - bytes >= 8 ==>
        buf[bytes..][..7] == [0x4E, 0x4F, 0x4D, 0x4E, 0x4F, 0x4F, 0x4D]
      ensures State().Exact()
    {
      status, bytes := Success, 0;
      if !initialized {
        return Pending, 0;
      }
      if list == [] {
        return NoMoreEntries, 0;
      }
      ghost var before := State();
      forall i | 0 <= i < buf.Length {
        buf[i] := 0;
      }
      bytes := Drain(buf);
      FitIsLongestRun(before.entries, buf.Length);
      var copied := bytes > 0;
      ConcatLength(before.entries[..before.Taken(buf.Length)]);
      if before.Taken(buf.Length) > 0 {
        TotalOfPrefix(before.entries, 1, before.Taken(buf.Length));
        assert before.entries[..1] == [before.entries[0]];
        ConcatSingle(before.entries[0]);
      }
      if !copied {
        status := InvalidBufferSize;
      }
      AddPostamble(buf, bytes, copied);
      TailIs(buf.Length - bytes, copied);
    }

    /** The end of a read: the postamble where something was copied and there is room behind it. */
    method AddPostamble(buf: array<byte>, bytes: nat, copied: bool)
      requires bytes <= buf.Length && forall i :: bytes <= i < buf.Length ==> buf[i] == 0
      modifies buf
      ensures buf[..bytes] == old(buf[..bytes])
      ensures buf[bytes..] == Tail(buf.Length - bytes, copied)
    {
      if copied && buf.Length - bytes > 7 {
        var end := CopyIn(buf, bytes, POSTAMBLE);
        assert buf[..bytes] == buf[..end][..bytes];
        assert buf[bytes..] == POSTAMBLE + buf[end..];
      }
    }

    /** One turn of the copy loop: the head entry moves into the buffer. */
    method MoveHead(buf: array<byte>, at: nat) returns (end: nat)
      requires State().Exact() && list != []
      requires at + |list[0]| <= buf.Length
      requires forall i :: at <= i < buf.Length ==> buf[i] == 0
      modifies this`list, this`sizeBytes, buf
      ensures State().Exact() && list == old(list)[1..]
      ensures end == at + |old(list)[0]|
      ensures buf[..end] == old(buf[..at]) + old(list)[0]
      ensures forall i :: end <= i < buf.Length ==> buf[i] == 0
    {
      var entry := list[0];
      assert list == [entry] + list[1..];
      ConcatSplit([entry], list[1..]);
      ConcatSingle(entry);
      end := CopyIn(buf, at, entry);
      list := list[1..];
      DeleteLogEntry(|entry|);
    }

    /** The copy loop of a read: move entries off the head while the next one fits. */
    method Drain(buf: array<byte>) returns (bytes: nat)
      requires State().Exact() && list != [] && buf.Length < 0x1_0000_0000
      requires forall i :: 0 <= i < buf.Length ==> buf[i] == 0
      modifies this`list, this`sizeBytes, buf
      ensures State().Exact()
      ensures State() == old(State()).Rest(buf.Length)
      ensures bytes == Total(old(list)[..old(State()).Taken(buf.Length)]) <= buf.Length
      ensures buf[..bytes] == Concat(old(list)[..old(State()).Taken(buf.Length)])
      ensures forall i :: bytes <= i < buf.Length ==> buf[i] == 0
    {
      bytes := 0;
      ghost var before := list;
      var len := buf.Length;
      ghost var n := 0;
      var more := true;
      while more
        invariant n <= |before| && list == before[n..]
        invariant State().Exact()
        invariant bytes == Total(before[..n]) <= len
        invariant buf[..bytes] == Concat(before[..n])
        invariant forall i :: bytes <= i < len ==> buf[i] == 0
        invariant more ==> n < |before|
        invariant !more ==> n == |before| || Total(before[..n + 1]) > len
        decreases more, |before| - n
      {
        var entry := list[0];
        PrefixStep(before, n);
        if len < bytes + |entry| {
          more := false;
        } else {
          bytes := MoveHead(buf, bytes);
          n := n + 1;
          more := list != [] && bytes < (len - 12) % 0x1_0000_0000;
          if list != [] {
            PrefixStep(before, n);
          }
        }
      }
      FitIsUnique(before, len, n);
      SplitTotal(before, n);
    }
  }

  /** What follows the batch in the reader's buffer. */
  function Tail(room: nat, copied: bool): (s: seq<byte>)
    ensures |s| == room
  {
    if copied && room > 7 then POSTAMBLE + seq(room - 7, _ => 0) else seq(room, _ => 0)
  }

  /** Behind a batch: the letters MOONMON backwards, where there is more room than they take, and zeros. */
  lemma TailIs(room: nat, copied: bool)
    ensures copied && room >= 8 ==> Tail(room, copied)[..7] == [0x4E, 0x4F, 0x4D, 0x4E, 0x4F, 0x4F, 0x4D]
    ensures forall i :: (if copied && room >= 8 then 7 else 0) <= i < room ==> Tail(room, copied)[i] == 0
  {
  }

  lemma SplitTotal(entries: Entries, n: nat)
    requires n <= |entries|
    ensures Total(entries) == Total(entries[..n]) + Total(entries[n..])
  {
    assert entries[..n] + entries[n..] == entries;
    ConcatSplit(entries[..n], entries[n..]);
  }

  lemma PrefixStep(entries: Entries, n: nat)
    requires n < |entries|
    ensures Total(entries[..n + 1]) == Total(entries[..n]) + |entries[n]|
    ensures Concat(entries[..n + 1]) == Concat(entries[..n]) + entries[n]
  {
    assert entries[..n + 1] == entries[..n] + [entries[n]];
    ConcatSplit(entries[..n], [entries[n]]);
    ConcatSingle(entries[n]);
  }
}
