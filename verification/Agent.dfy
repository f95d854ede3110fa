/**
 The agent's side of a read: scan the buffer for frames, collect the fields of each event
 id, and emit one record for every end-of-event frame.
 */
module Agent {
  import opened Bytes
  import opened Frames

  const EVENT_END := 0xFC

  /** The agent's read buffers have this many bytes. */
  const BUFFER_SIZE := 100_000_000

  datatype Ending = Finished | Crashed

  datatype Parsed = Parsed(frames: seq<Frame>, ending: Ending)

  /** What the scanner does at one position of the buffer. */
  datatype Look = Stop | Crash | Skip(next: nat) | Got(frame: Frame, next: nat, final: bool)

  /** Unsigned 32-bit subtraction. */
  function Minus(a: int, b: int): nat {
    (a - b) % 0x1_0000_0000
  }

  /** `n` bytes of `data` are valid; reads past `n` see stale bytes and reads past the end crash. */
  function LookAt(data: seq<byte>, n: nat, pos: nat): (l: Look)
    requires pos <= |data|
    ensures l.Skip? ==> pos < l.next <= |data|
    ensures l.Got? ==> pos + HEADER_SIZE <= l.next <= |data|
  {
    if Minus(n, pos) <= 8 then Stop
    else if pos + 7 > |data| then Crash
    else if data[pos..pos + 7] != MAGIC then
      if Minus(n, pos + 1) <= 8 then Stop else Skip(pos + 1)
    else if pos + 11 > |data| then Crash
    else
      var size := Value(data[pos + 7..pos + 11]);
      if size > Minus(n, pos + 11) then Skip(pos + 11)
      else if pos + 29 + size > |data| then Crash
      else
        var f := Frame(Value(data[pos + 11..pos + 13]), Value(data[pos + 13..pos + 21]),
                       Value(data[pos + 21..pos + 29]), data[pos + 29..pos + 29 + size]);
        Got(f, pos + 29 + size, f.kind != EVENT_END && pos + 29 + size > Minus(n, 7))
  }

  function Scan(data: seq<byte>, n: nat, pos: nat): Parsed
    requires pos <= |data|
    decreases |data| - pos
  {
    match LookAt(data, n, pos)
    case Stop => Parsed([], Finished)
    case Crash => Parsed([], Crashed)
    case Skip(next) => Scan(data, n, next)
    case Got(f, next, final) =>
      if final then Parsed([f], Finished) else
        var rest := Scan(data, n, next);
        Parsed([f] + rest.frames, rest.ending)
  }

  /** All frames the agent recovers from the first `n` bytes. */
  function Parse(data: seq<byte>, n: nat): Parsed {
    if n < 8 then Parsed([], Finished) else Scan(data, n, 0)
  }

  // ----- the codec round trip

  /** An encoded frame at the scan position is recovered and the scan moves behind it. */
  lemma {:induction false} LooksAtFrame(data: seq<byte>, n: nat, pos: nat, f: Frame)
    requires f.Accepted() && n >= 8
    requires pos + |Encode(f)| <= n <= |data| <= BUFFER_SIZE
    requires data[pos..pos + |Encode(f)|] == Encode(f)
    ensures LookAt(data, n, pos)
      == Got(f, pos + |Encode(f)|, f.kind != EVENT_END && pos + |Encode(f)| > n - 7)
  {
    FrameReadsBack(data, pos, f);
    MinusExact(n, pos);
    MinusExact(n, pos + 11);
    MinusExact(n, 7);
  }

  lemma {:induction false} MinusExact(a: nat, b: nat)
    requires b <= a < 0x1_0000_0000
    ensures Minus(a, b) == a - b
  {
  }

  /** A frame has at least 30 bytes, so no batch ends in a shorter remainder. */
  lemma {:induction false} FramesAreLong(fs: seq<Frame>)
    requires fs != [] && fs[0].Accepted()
    ensures |Concat(EncodeAll(fs))| > HEADER_SIZE
    ensures EncodeAll(fs)[1..] == EncodeAll(fs[1..])
    ensures Concat(EncodeAll(fs)) == Encode(fs[0]) + Concat(EncodeAll(fs[1..]))
  {
    assert EncodeAll(fs)[1..] == EncodeAll(fs[1..]);
  }

  lemma {:induction false} CutFrame(data: seq<byte>, n: nat, pos: nat, fs: seq<Frame>) returns (next: nat)
    requires pos <= n <= |data|
    requires fs != [] && fs[0].Accepted()
    requires data[pos..n] == Concat(EncodeAll(fs))
    ensures next == pos + |Encode(fs[0])| <= n
    ensures data[pos..next] == Encode(fs[0])
    ensures data[next..n] == Concat(EncodeAll(fs[1..]))
  {
    FramesAreLong(fs);
    next := pos + |Encode(fs[0])|;
    assert data[pos..next] == data[pos..n][..|Encode(fs[0])|];
    assert data[next..n] == data[pos..n][|Encode(fs[0])|..];
  }

  lemma {:induction false} ScanGot(data: seq<byte>, n: nat, pos: nat, f: Frame, next: nat, final: bool,
                                    rest: seq<Frame>)
    requires pos < next <= |data| && LookAt(data, n, pos) == Got(f, next, final)
    requires final ==> rest == []
    requires Scan(data, n, next) == Parsed(rest, Finished)
    ensures Scan(data, n, pos) == Parsed([f] + rest, Finished)
  {
  }

  lemma {:induction false} ShortRestIsEmpty(rest: seq<Frame>, bytes: seq<byte>)
    requires forall i :: 0 <= i < |rest| ==> rest[i].Accepted()
    requires bytes == Concat(EncodeAll(rest)) && |bytes| <= HEADER_SIZE
    ensures rest == []
  {
    if rest != [] {
      FramesAreLong(rest);
    }
  }

  lemma {:induction false} ScanFrames(data: seq<byte>, n: nat, pos: nat, fs: seq<Frame>)
    requires pos <= n <= |data| <= BUFFER_SIZE && n >= 8
    requires forall i :: 0 <= i < |fs| ==> fs[i].Accepted()
    requires data[pos..n] == Concat(EncodeAll(fs))
    ensures Scan(data, n, pos) == Parsed(fs, Finished)
    decreases |fs|
  {
    if fs == [] {
      assert pos == n;
      assert LookAt(data, n, pos) == Stop;
    } else {
      var f, rest := fs[0], fs[1..];
      var next := CutFrame(data, n, pos, fs);
      LooksAtFrame(data, n, pos, f);
      ScanFrames(data, n, next, rest);
      var final := f.kind != EVENT_END && next > n - 7;
      if final {
        ShortRestIsEmpty(rest, data[next..n]);
      }
      ScanGot(data, n, pos, f, next, final, rest);
      assert fs == [f] + rest;
    }
  }

  /**
   Round trip: the agent recovers from a batch exactly the frames the driver packed into
   it, whatever their payloads and whatever follows the batch in the buffer.
   */
  lemma BatchRoundTrip(data: seq<byte>, fs: seq<Frame>)
    requires forall i :: 0 <= i < |fs| ==> fs[i].Accepted()
    requires |Concat(EncodeAll(fs))| <= |data| <= BUFFER_SIZE
    requires data[..|Concat(EncodeAll(fs))|] == Concat(EncodeAll(fs))
    ensures Parse(data, |Concat(EncodeAll(fs))|) == Parsed(fs, Finished)
  {
    var n := |Concat(EncodeAll(fs))|;
    if fs != [] {
      FramesAreLong(fs);
      assert data[0..n] == data[..n];
      ScanFrames(data, n, 0, fs);
    }
  }

  ghost predicate PreambleAt(data: seq<byte>, p: nat) {
    p + 7 <= |data| && data[p..p + 7] == MAGIC
  }

  lemma SkipsOne(data: seq<byte>, n: nat, pos: nat)
    requires pos + 9 < n <= |data| <= BUFFER_SIZE && !PreambleAt(data, pos)
    ensures LookAt(data, n, pos) == Skip(pos + 1)
  {
    MinusExact(n, pos);
    MinusExact(n, pos + 1);
  }

  /** The size claimed behind a preamble. */
  function Claimed(data: seq<byte>, p: nat): nat
    requires p + 11 <= |data|
  {
    Value(data[p + 7..p + 11])
  }

  lemma SkipsTorn(data: seq<byte>, n: nat, pos: nat)
    requires pos + 11 <= n <= |data| <= BUFFER_SIZE && PreambleAt(data, pos) && Claimed(data, pos) > n - pos - 11
    ensures LookAt(data, n, pos) == Skip(pos + 11)
  {
    MinusExact(n, pos);
    MinusExact(n, pos + 11);
  }

  /** Bytes the scanner gets over: no preamble starts there, or one with a size the batch has no room for. */
  ghost predicate Noise(data: seq<byte>, n: nat, pos: nat, start: nat)
    requires start <= n <= |data|
  {
    forall p: nat :: pos <= p < start && PreambleAt(data, p) ==> p + 11 <= start && Claimed(data, p) > n - p - 11
  }

  /** Noise is skipped, torn frames included: the scanner resynchronises on the frames behind it. */
  lemma {:induction false} Resynchronises(data: seq<byte>, n: nat, pos: nat, start: nat, fs: seq<Frame>)
    requires pos <= start <= n <= |data| <= BUFFER_SIZE && n >= 8
    requires forall i :: 0 <= i < |fs| ==> fs[i].Accepted()
    requires fs != [] && data[start..n] == Concat(EncodeAll(fs))
    requires Noise(data, n, pos, start)
    ensures Scan(data, n, pos) == Parsed(fs, Finished)
    decreases start - pos
  {
    if pos == start {
      ScanFrames(data, n, pos, fs);
    } else {
      FramesAreLong(fs);
      if PreambleAt(data, pos) {
        SkipsTorn(data, n, pos);
        Resynchronises(data, n, pos + 11, start, fs);
      } else {
        SkipsOne(data, n, pos);
        Resynchronises(data, n, pos + 1, start, fs);
      }
    }
  }

  /** Every preamble among the valid bytes has its size there too, and a frame that ends there or is too long. */
  ghost predicate Untorn(data: seq<byte>, n: nat)
    requires n <= |data|
  {
    forall p: nat :: p + 9 <= n && PreambleAt(data, p) ==>
      p + 11 <= n && (Claimed(data, p) > n - p - 11 || p + 29 + Claimed(data, p) <= n)
  }

  lemma LooksWithin(data: seq<byte>, n: nat, pos: nat)
    requires pos <= n <= |data| <= BUFFER_SIZE && n >= 8 && Untorn(data, n)
    ensures var l := LookAt(data, n, pos);
      !l.Crash? && (l.Skip? ==> l.next <= n) && (l.Got? ==> l.next <= n)
  {
    MinusExact(n, pos);
    if pos + 9 <= n && PreambleAt(data, pos) {
      MinusExact(n, pos + 11);
    }
  }

  lemma {:induction false} ScanFinishes(data: seq<byte>, n: nat, pos: nat)
    requires pos <= n <= |data| <= BUFFER_SIZE && n >= 8 && Untorn(data, n)
    ensures Scan(data, n, pos).ending == Finished
    decreases n - pos
  {
    LooksWithin(data, n, pos);
    match LookAt(data, n, pos)
    case Skip(next) =>
      ScanFinishes(data, n, next);
    case Got(f, next, final) =>
      ScanFinishes(data, n, next);
    case _ =>
  }

  /** Whatever else the bytes are, the parser then comes to its end without a slice out of bounds. */
  lemma ParseFinishes(data: seq<byte>, n: nat)
    requires n <= |data| <= BUFFER_SIZE && Untorn(data, n)
    ensures Parse(data, n).ending == Finished
  {
    if n >= 8 {
      ScanFinishes(data, n, 0);
    }
  }

  /** Otherwise it may not: a preamble and two bytes, in a buffer that ends there. */
  lemma CutHeaderCrashes(a: byte, b: byte)
    ensures Parse(MAGIC + [a, b], 9) == Parsed([], Crashed)
  {
    var data := MAGIC + [a, b];
    assert data[0..7] == MAGIC;
    assert LookAt(data, 9, 0) == Crash;
  }

  // ----- records

  type Message = map<string, string>

  /**
   How a frame becomes text: `fields` is the rendered and enriched content of a frame,
   `header` the id and time an end-of-event frame contributes.
   */
  datatype Renderer = Renderer(fields: Frame -> Message, header: Frame -> Message)

  datatype Record = Record(id: nat, content: Message)

  /** Later messages overwrite earlier ones. */
  function Merge(start: Message, ms: seq<Message>): Message {
    if ms == [] then start else Merge(start, ms[..|ms| - 1]) + ms[|ms| - 1]
  }

  function Only(fs: seq<Frame>, id: nat): (r: seq<Frame>) {
    if fs == [] then [] else
      var own := Only(fs[..|fs| - 1], id);
      if fs[|fs| - 1].id == id then own + [fs[|fs| - 1]] else own
  }

  function FieldFrames(fs: seq<Frame>): (r: seq<Frame>) {
    if fs == [] then [] else
      var fields := FieldFrames(fs[..|fs| - 1]);
      if fs[|fs| - 1].kind != EVENT_END then fields + [fs[|fs| - 1]] else fields
  }

  function Rendered(fs: seq<Frame>, r: Renderer): (ms: seq<Message>)
    ensures |ms| == |fs|
  {
    seq(|fs|, i requires 0 <= i < |fs| => r.fields(fs[i]))
  }

  /** The record of an event that ends with `end` after the frames `before`. */
  function RecordOf(before: seq<Frame>, end: Frame, r: Renderer): Record {
    Record(end.id, Merge(r.header(end), Rendered(FieldFrames(Only(before, end.id)), r)))
  }

  /** The records emitted for a sequence of frames: one per end-of-event frame. */
  function Records(fs: seq<Frame>, r: Renderer): seq<Record> {
    if fs == [] then [] else
      var before, last := fs[..|fs| - 1], fs[|fs| - 1];
      if last.kind == EVENT_END then Records(before, r) + [RecordOf(before, last, r)] else Records(before, r)
  }

  function RecordsFor(rs: seq<Record>, id: nat): seq<Record> {
    if rs == [] then [] else
      var own := RecordsFor(rs[..|rs| - 1], id);
      if rs[|rs| - 1].id == id then own + [rs[|rs| - 1]] else own
  }

  lemma OnlyAppend(fs: seq<Frame>, f: Frame, id: nat)
    ensures Only(fs + [f], id) == if f.id == id then Only(fs, id) + [f] else Only(fs, id)
  {
    assert (fs + [f])[..|fs|] == fs;
  }

  lemma FieldFramesAppend(fs: seq<Frame>, f: Frame)
    ensures FieldFrames(fs + [f]) == if f.kind != EVENT_END then FieldFrames(fs) + [f] else FieldFrames(fs)
  {
    assert (fs + [f])[..|fs|] == fs;
  }

  lemma RecordsAppend(fs: seq<Frame>, f: Frame, r: Renderer)
    ensures Records(fs + [f], r)
      == if f.kind == EVENT_END then Records(fs, r) + [RecordOf(fs, f, r)] else Records(fs, r)
  {
    assert (fs + [f])[..|fs|] == fs;
  }

  lemma RecordsForAppend(rs: seq<Record>, last: Record, id: nat)
    ensures RecordsFor(rs + [last], id) == if last.id == id then RecordsFor(rs, id) + [last] else RecordsFor(rs, id)
  {
    assert (rs + [last])[..|rs|] == rs;
  }

  lemma {:induction false} OnlyAgain(fs: seq<Frame>, id: nat)
    ensures Only(Only(fs, id), id) == Only(fs, id)
  {
    if fs != [] {
      var before, last := fs[..|fs| - 1], fs[|fs| - 1];
      OnlyAgain(before, id);
      if last.id == id {
        OnlyAppend(Only(before, id), last, id);
      }
    }
  }

  /**
   Demultiplexing does not depend on interleaving: the records of one id are the records of
   that id's own frames, whatever frames of other ids lie between them.
   */
  lemma {:induction false} InterleavingIrrelevant(fs: seq<Frame>, id: nat, r: Renderer)
    ensures RecordsFor(Records(fs, r), id) == Records(Only(fs, id), r)
  {
    if fs != [] {
      var before, last := fs[..|fs| - 1], fs[|fs| - 1];
      InterleavingIrrelevant(before, id, r);
      if last.kind == EVENT_END {
        RecordsForAppend(Records(before, r), RecordOf(before, last, r), id);
      }
      if last.id == id {
        OnlyAgain(before, id);
        RecordsAppend(Only(before, id), last, r);
      }
    }
  }

  lemma {:induction false} FieldFramesAll(fs: seq<Frame>)
    requires forall i :: 0 <= i < |fs| ==> fs[i].kind != EVENT_END
    ensures FieldFrames(fs) == fs
  {
    if fs != [] {
      FieldFramesAll(fs[..|fs| - 1]);
    }
  }

  lemma {:induction false} NoEndNoRecord(fs: seq<Frame>, r: Renderer)
    requires forall i :: 0 <= i < |fs| ==> fs[i].kind != EVENT_END
    ensures Records(fs, r) == []
  {
    if fs != [] {
      NoEndNoRecord(fs[..|fs| - 1], r);
    }
  }

  /**
   An event whose frames all reached the batch, fields first and end last, yields exactly
   one record, made of its own fields in order, later ones winning.
   */
  lemma CompleteEvent(fs: seq<Frame>, fields: seq<Frame>, end: Frame, r: Renderer)
    requires Only(fs, end.id) == fields + [end]
    requires end.kind == EVENT_END
    requires forall i :: 0 <= i < |fields| ==> fields[i].kind != EVENT_END
    ensures RecordsFor(Records(fs, r), end.id)
      == [Record(end.id, Merge(r.header(end), Rendered(fields, r)))]
  {
    InterleavingIrrelevant(fs, end.id, r);
    OnlyAgain(fs, end.id);
    OnlyAppend(fields, end, end.id);
    assert Only(fields + [end], end.id)[..|Only(fields, end.id)|] == Only(fields, end.id) == fields;
    RecordsAppend(fields, end, r);
    NoEndNoRecord(fields, r);
    FieldFramesAll(fields);
  }

  // ----- the loop

  datatype Buffered = Buffered(id: nat, value: Message)

  function BufferOf(fs: seq<Frame>, r: Renderer): (b: seq<Buffered>)
    ensures |b| == |fs|
  {
    seq(|fs|, i requires 0 <= i < |fs| => Buffered(fs[i].id, r.fields(fs[i])))
  }

  lemma MergeStep(start: Message, fields: seq<Frame>, k: nat, id: nat, r: Renderer)
    requires k < |fields|
    ensures Merge(start, Rendered(Only(fields[..k + 1], id), r)) ==
      var merged := Merge(start, Rendered(Only(fields[..k], id), r));
      if fields[k].id == id then merged + r.fields(fields[k]) else merged
  {
    assert fields[..k + 1] == fields[..k] + [fields[k]];
    OnlyAppend(fields[..k], fields[k], id);
    if fields[k].id == id {
      var own := Only(fields[..k], id);
      assert Rendered(own + [fields[k]], r) == Rendered(own, r) + [r.fields(fields[k])];
      MergeAppend(start, Rendered(own, r), r.fields(fields[k]));
    }
  }

  lemma MergeAppend(start: Message, ms: seq<Message>, m: Message)
    ensures Merge(start, ms + [m]) == Merge(start, ms) + m
  {
    assert (ms + [m])[..|ms|] == ms;
  }

  lemma {:induction false} FiltersCommute(fs: seq<Frame>, id: nat)
    ensures Only(FieldFrames(fs), id) == FieldFrames(Only(fs, id))
  {
    if fs != [] {
      var before, last := fs[..|fs| - 1], fs[|fs| - 1];
      FiltersCommute(before, id);
      OnlyAppend(FieldFrames(before), last, id);
      FieldFramesAppend(Only(before, id), last);
    }
  }

  /** The emission loop: copy every buffered message of the ended id into the record, in order. */
  method Collect(buffered: seq<Buffered>, end: Frame, r: Renderer, ghost seen: seq<Frame>) returns (rec: Record)
    requires buffered == BufferOf(FieldFrames(seen), r)
    ensures rec == RecordOf(seen, end, r)
  {
    ghost var fields := FieldFrames(seen);
    var m := r.header(end);
    for k := 0 to |buffered|
      invariant m == Merge(r.header(end), Rendered(Only(fields[..k], end.id), r))
    {
      MergeStep(r.header(end), fields, k, end.id, r);
      if buffered[k].id == end.id {
        m := m + buffered[k].value;
      }
    }
    assert fields[..|buffered|] == fields;
    FiltersCommute(seen, end.id);
    rec := Record(end.id, m);
  }

  /** What the scan still owes at `pos` when the frames `seen` are behind it. */
  ghost predicate Pending(data: seq<byte>, n: nat, pos: nat, seen: seq<Frame>) {
    && pos <= |data|
    && Scan(data, n, 0) == Parsed(seen + Scan(data, n, pos).frames, Scan(data, n, pos).ending)
  }

  lemma ScanAdvances(data: seq<byte>, n: nat, pos: nat, seen: seq<Frame>)
    requires Pending(data, n, pos, seen)
    ensures LookAt(data, n, pos).Stop? ==> Scan(data, n, 0) == Parsed(seen, Finished)
    ensures LookAt(data, n, pos).Crash? ==> Scan(data, n, 0) == Parsed(seen, Crashed)
    ensures LookAt(data, n, pos).Skip? ==> Pending(data, n, LookAt(data, n, pos).next, seen)
    ensures LookAt(data, n, pos).Got? ==>
      var l := LookAt(data, n, pos);
      if l.final then Scan(data, n, 0) == Parsed(seen + [l.frame], Finished)
      else Pending(data, n, l.next, seen + [l.frame])
  {
    match LookAt(data, n, pos)
    case Stop =>
    case Crash =>
    case Skip(next) =>
    case Got(f, next, final) =>
      if !final {
        assert seen + ([f] + Scan(data, n, next).frames) == (seen + [f]) + Scan(data, n, next).frames;
      }
  }

  /** A recovered frame either ends its event, and a record goes out, or joins the buffer. */
  method Handle(buffered: seq<Buffered>, logs: seq<Record>, f: Frame, r: Renderer, ghost seen: seq<Frame>)
    returns (buffered': seq<Buffered>, logs': seq<Record>)
    requires buffered == BufferOf(FieldFrames(seen), r) && logs == Records(seen, r)
    ensures buffered' == BufferOf(FieldFrames(seen + [f]), r) && logs' == Records(seen + [f], r)
  {
    RecordsAppend(seen, f, r);
    FieldFramesAppend(seen, f);
    if f.kind == EVENT_END {
      var rec := Collect(buffered, f, r, seen);
      return buffered, logs + [rec];
    } else {
      return buffered + [Buffered(f.id, r.fields(f))], logs;
    }
  }

  /**
   processData: for any bytes, the frames recovered are those of `Parse` and the records
   sent to the log are those of these frames; a crash sends what was complete before it.
   */
  method ProcessData(data: seq<byte>, n: nat, r: Renderer) returns (logs: seq<Record>, ending: Ending)
    requires n <= |data| <= BUFFER_SIZE
    ensures logs == Records(Parse(data, n).frames, r)
    ensures ending == Parse(data, n).ending
  {
    logs, ending := [], Finished;
    if n < 8 {
      return;
    }
    var buffered: seq<Buffered> := [];
    var pos := 0;
    ghost var seen: seq<Frame> := [];
    while true
      invariant Pending(data, n, pos, seen)
      invariant buffered == BufferOf(FieldFrames(seen), r)
      invariant logs == Records(seen, r)
      decreases |data| - pos
    {
      ScanAdvances(data, n, pos, seen);
      var look := Inspect(data, n, pos);
      match look
      case Stop =>
        return;
      case Crash =>
        return logs, Crashed;
      case Skip(next) =>
        pos := next;
      case Got(f, next, final) =>
        buffered, logs := Handle(buffered, logs, f, r, seen);
        seen := seen + [f];
        pos := next;
        if final {
          return;
        }
    }
  }

  /** One turn of the loop up to the parsed entry: preamble, size, header fields, payload. */
  method Inspect(data: seq<byte>, n: nat, start: nat) returns (look: Look)
    requires start <= |data|
    ensures look == LookAt(data, n, start)
  {
    var pos := start;
    if (n - pos) % 0x1_0000_0000 <= 8 {
      return Stop;
    }
    if pos + 7 > |data| {
      return Crash;
    }
    if data[pos..pos + 7] != MAGIC {
      pos := pos + 1;
      if (n - pos) % 0x1_0000_0000 <= 8 {
        return Stop;
      }
      return Skip(pos);
    }
    pos := pos + 7;
    if pos + 4 > |data| {
      return Crash;
    }
    var size := Value(data[pos..pos + 4]);
    pos := pos + 4;
    if size > (n - pos) % 0x1_0000_0000 {
      return Skip(pos);
    }
    if pos + 18 + size > |data| {
      return Crash;
    }
    var kind := Value(data[pos..pos + 2]);
    pos := pos + 2;
    var id := Value(data[pos..pos + 8]);
    pos := pos + 8;
    var stamp := Value(data[pos..pos + 8]);
    pos := pos + 8;
    var payload := data[pos..pos + size];
    pos := pos + size;
    return Got(Frame(kind, id, stamp, payload), pos, kind != EVENT_END && pos > (n - 7) % 0x1_0000_0000);
  }
}
