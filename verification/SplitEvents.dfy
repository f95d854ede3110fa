/**
 Events that span two reads. The agent forgets the fields it has collected when a buffer
 ends, so whether a field is reported depends on its event ending within the same buffer.
 */
module SplitEvents {
  import opened Bytes
  import opened Frames
  import opened Agent

  function Without(fs: seq<Frame>, k: nat): seq<Frame>
    requires k < |fs|
  {
    fs[..k] + fs[k + 1..]
  }

  /** Another frame of the batch, behind frame `k`, ends the event of frame `k`. */
  ghost predicate EndsLater(fs: seq<Frame>, k: nat)
    requires k < |fs|
  {
    exists j :: k < j < |fs| && fs[j].kind == EVENT_END && fs[j].id == fs[k].id
  }

  lemma {:induction false} OnlyWithout(fs: seq<Frame>, k: nat, id: nat)
    requires k < |fs| && fs[k].id != id
    ensures Only(Without(fs, k), id) == Only(fs, id)
  {
    var before, last := fs[..|fs| - 1], fs[|fs| - 1];
    if k == |fs| - 1 {
      assert Without(fs, k) == before;
    } else {
      OnlyWithout(before, k, id);
      assert Without(fs, k) == Without(before, k) + [last];
      OnlyAppend(Without(before, k), last, id);
    }
  }

  /** A field whose event does not end later in the batch leaves no trace in any record. */
  lemma {:induction false} UnendedFieldIsLost(fs: seq<Frame>, k: nat, r: Renderer)
    requires k < |fs| && fs[k].kind != EVENT_END && !EndsLater(fs, k)
    ensures Records(Without(fs, k), r) == Records(fs, r)
  {
    var before, last := fs[..|fs| - 1], fs[|fs| - 1];
    if k == |fs| - 1 {
      assert Without(fs, k) == before;
    } else {
      assert !EndsLater(before, k);
      UnendedFieldIsLost(before, k, r);
      assert Without(fs, k) == Without(before, k) + [last];
      RecordsAppend(Without(before, k), last, r);
      if last.kind == EVENT_END {
        OnlyWithout(before, k, last.id);
      }
    }
  }

  /** A renderer that shows one frame and nothing else. */
  function Marker(x: Frame): Renderer {
    Renderer(f => if f == x then map["mark" := "seen"] else map[], f => map[])
  }

  lemma {:induction false} MergeMarks(fs: seq<Frame>, x: Frame)
    ensures "mark" in Merge(map[], Rendered(fs, Marker(x))) <==> x in fs
  {
    if fs != [] {
      var before, last := fs[..|fs| - 1], fs[|fs| - 1];
      MergeMarks(before, x);
      assert fs == before + [last];
      assert Rendered(fs, Marker(x)) == Rendered(before, Marker(x)) + [Marker(x).fields(last)];
      MergeAppend(map[], Rendered(before, Marker(x)), Marker(x).fields(last));
    }
  }

  lemma {:induction false} OwnFields(fs: seq<Frame>, x: Frame, id: nat)
    ensures x in FieldFrames(Only(fs, id)) <==> x in fs && x.id == id && x.kind != EVENT_END
  {
    if fs != [] {
      var before, last := fs[..|fs| - 1], fs[|fs| - 1];
      OwnFields(before, x, id);
      assert fs == before + [last];
      if last.id == id {
        FieldFramesAppend(Only(before, id), last);
      }
    }
  }

  ghost predicate Marked(rs: seq<Record>) {
    exists i :: 0 <= i < |rs| && "mark" in rs[i].content
  }

  /** Under its marker a frame shows in some record exactly when its event ends behind it. */
  lemma {:induction false} MarkedIff(fs: seq<Frame>, x: Frame)
    requires x.kind != EVENT_END
    ensures Marked(Records(fs, Marker(x))) <==> exists k :: 0 <= k < |fs| && fs[k] == x && EndsLater(fs, k)
  {
    if fs != [] {
      var before, last := fs[..|fs| - 1], fs[|fs| - 1];
      var r := Marker(x);
      MarkedIff(before, x);
      forall k | 0 <= k < |before|
        ensures EndsLater(fs, k) <==> EndsLater(before, k) || (last.kind == EVENT_END && last.id == before[k].id)
      {
        if EndsLater(before, k) {
          var j :| k < j < |before| && before[j].kind == EVENT_END && before[j].id == before[k].id;
          assert fs[j] == before[j];
        }
      }
      if last.kind == EVENT_END {
        var rec := RecordOf(before, last, r);
        OwnFields(before, x, last.id);
        MergeMarks(FieldFrames(Only(before, last.id)), x);
        assert Records(fs, r) == Records(before, r) + [rec];
        assert Marked(Records(fs, r)) <==> Marked(Records(before, r)) || "mark" in rec.content by {
          if Marked(Records(before, r)) {
            var i :| 0 <= i < |Records(before, r)| && "mark" in Records(before, r)[i].content;
            assert Records(fs, r)[i] == Records(before, r)[i];
          }
          if "mark" in rec.content {
            assert Records(fs, r)[|Records(before, r)|] == rec;
          }
        }
      }
    }
  }

  /** The batch as if the field had not been logged. */
  function Drop(fs: seq<Frame>, x: Frame): (r: seq<Frame>)
    ensures x !in r
  {
    if fs == [] then [] else
      var before, last := Drop(fs[..|fs| - 1], x), fs[|fs| - 1];
      if last == x then before else before + [last]
  }

  lemma {:induction false} DropOthers(fs: seq<Frame>, x: Frame, id: nat)
    requires x.id != id || x !in fs
    ensures Only(Drop(fs, x), id) == Only(fs, id)
  {
    if fs != [] {
      var before, last := fs[..|fs| - 1], fs[|fs| - 1];
      assert last in fs;
      DropOthers(before, x, id);
      if last != x {
        OnlyAppend(Drop(before, x), last, id);
      }
    }
  }

  /** No occurrence of the field is followed by the end of its event. */
  ghost predicate NeverEnds(fs: seq<Frame>, x: Frame) {
    forall k :: 0 <= k < |fs| && fs[k] == x ==> !EndsLater(fs, k)
  }

  lemma NeverEndsBefore(fs: seq<Frame>, x: Frame)
    requires fs != [] && NeverEnds(fs, x)
    ensures NeverEnds(fs[..|fs| - 1], x)
    ensures var last := fs[|fs| - 1];
      last.kind == EVENT_END ==> x.id != last.id || x !in fs[..|fs| - 1]
  {
    var before := fs[..|fs| - 1];
    forall k | 0 <= k < |before| && before[k] == x
      ensures !EndsLater(before, k)
    {
      assert fs[k] == x && !EndsLater(fs, k);
    }
    if x in before {
      var k :| 0 <= k < |before| && before[k] == x;
      assert fs[k] == x && !EndsLater(fs, k);
    }
  }

  /** A field none of whose occurrences sees its event end leaves no trace in any record. */
  lemma {:induction false} DropUnended(fs: seq<Frame>, x: Frame, r: Renderer)
    requires x.kind != EVENT_END && NeverEnds(fs, x)
    ensures Records(Drop(fs, x), r) == Records(fs, r)
  {
    if fs != [] {
      var before, last := fs[..|fs| - 1], fs[|fs| - 1];
      NeverEndsBefore(fs, x);
      DropUnended(before, x, r);
      if last != x {
        RecordsAppend(Drop(before, x), last, r);
        if last.kind == EVENT_END {
          DropOthers(before, x, last.id);
        }
      }
    }
  }

  /**
   Whether a field was logged influences what is reported if and only if the same buffer holds,
   behind one of its occurrences, the end of its event. The agent's promise that no data is lost
   when an event spans reads therefore fails for every field read before the read that brings
   the end.
   */
  lemma FieldReportedIff(fs: seq<Frame>, x: Frame)
    requires x.kind != EVENT_END
    ensures (exists r: Renderer :: Records(Drop(fs, x), r) != Records(fs, r))
      <==> exists k :: 0 <= k < |fs| && fs[k] == x && EndsLater(fs, k)
  {
    if k :| 0 <= k < |fs| && fs[k] == x && EndsLater(fs, k) {
      var r := Marker(x);
      MarkedIff(fs, x);
      MarkedIff(Drop(fs, x), x);
      assert Records(Drop(fs, x), r) != Records(fs, r);
    } else {
      forall r: Renderer
        ensures Records(Drop(fs, x), r) == Records(fs, r)
      {
        DropUnended(fs, x, r);
      }
    }
  }

  /** The smallest case: read apart, a field and its end log a record without the field. */
  lemma SplitAfterTheField(field: Frame, end: Frame, r: Renderer)
    requires field.kind != EVENT_END && end.kind == EVENT_END && field.id == end.id
    ensures Records([field, end], r) == [Record(end.id, r.header(end) + r.fields(field))]
    ensures Records([field], r) + Records([end], r) == [Record(end.id, r.header(end))]
  {
    CompleteEventOfTwo(field, end, r);
    RecordsAppend([], field, r);
    RecordsAppend([], end, r);
    assert [] + [field] == [field] && [] + [end] == [end];
  }

  lemma CompleteEventOfTwo(field: Frame, end: Frame, r: Renderer)
    requires field.kind != EVENT_END && end.kind == EVENT_END && field.id == end.id
    ensures Records([field, end], r) == [Record(end.id, r.header(end) + r.fields(field))]
  {
    assert [] + [field] == [field] && [field] + [end] == [field, end];
    OnlyAppend([], field, end.id);
    FieldFramesAppend([], field);
    RecordsAppend([], field, r);
    RecordsAppend([field], end, r);
    assert Rendered([field], r) == [] + [r.fields(field)];
    MergeAppend(r.header(end), [], r.fields(field));
  }
}
