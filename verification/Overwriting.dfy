/**
 Fields logged more than once under one id. Of equal frames only the last occurrence shows in
 a record, so that two series of fields can yield the same record however they are rendered.
 */
module Overwriting {
  import opened Bytes
  import opened Options
  import opened Frames
  import opened Agent
  import opened SplitEvents

  /** The frames of a series, each at its last occurrence. */
  function Lasting(fs: seq<Frame>): seq<Frame> {
    if fs == [] then [] else
      var last := fs[|fs| - 1];
      Drop(Lasting(fs[..|fs| - 1]), last) + [last]
  }

  ghost predicate AllDiffer(fs: seq<Frame>) {
    forall j, k :: 0 <= j < k < |fs| ==> fs[j] != fs[k]
  }

  lemma {:induction false} DropIs(fs: seq<Frame>, x: Frame)
    ensures |Drop(fs, x)| <= |fs|
    ensures x !in fs ==> Drop(fs, x) == fs
    ensures |Drop(fs, x)| == |fs| ==> x !in fs
    ensures forall f :: f in Drop(fs, x) ==> f in fs
    ensures AllDiffer(fs) ==> AllDiffer(Drop(fs, x))
  {
    if fs != [] {
      var before, last := fs[..|fs| - 1], fs[|fs| - 1];
      assert fs == before + [last];
      DropIs(before, x);
      if AllDiffer(fs) {
        assert last !in before;
      }
    }
  }

  lemma {:induction false} LastingDiffers(fs: seq<Frame>)
    ensures AllDiffer(Lasting(fs))
  {
    if fs != [] {
      LastingDiffers(fs[..|fs| - 1]);
      DropIs(Lasting(fs[..|fs| - 1]), fs[|fs| - 1]);
    }
  }

  /** A series is its own last occurrences exactly when nothing in it is repeated. */
  lemma {:induction false} LastingShortens(fs: seq<Frame>)
    ensures |Lasting(fs)| <= |fs|
    ensures |Lasting(fs)| == |fs| <==> Lasting(fs) == fs
    ensures Lasting(fs) == fs <==> AllDiffer(fs)
  {
    LastingDiffers(fs);
    if fs != [] {
      var before, last := fs[..|fs| - 1], fs[|fs| - 1];
      assert fs == before + [last];
      LastingShortens(before);
      DropIs(Lasting(before), last);
    }
  }

  // ----- last occurrences determine the record

  lemma Overwritten(a: Message, b: Message, y: Message, x: Message)
    requires a + x == b + x
    ensures (a + y) + x == (b + y) + x
  {
    forall k
      ensures k in (a + y) + x <==> k in (b + y) + x
      ensures k in (a + y) + x ==> ((a + y) + x)[k] == ((b + y) + x)[k]
    {
      assert k in a + x <==> k in b + x;
      if k !in x && k in a {
        assert (a + x)[k] == (b + x)[k];
      }
    }
  }

  lemma RenderedAppend(fs: seq<Frame>, f: Frame, r: Renderer)
    ensures Rendered(fs + [f], r) == Rendered(fs, r) + [r.fields(f)]
  {
  }

  lemma MergeNext(start: Message, fs: seq<Frame>, f: Frame, r: Renderer)
    ensures Merge(start, Rendered(fs + [f], r)) == Merge(start, Rendered(fs, r)) + r.fields(f)
  {
    RenderedAppend(fs, f, r);
    MergeAppend(start, Rendered(fs, r), r.fields(f));
  }

  lemma {:induction false} DropMerges(start: Message, fs: seq<Frame>, x: Frame, r: Renderer)
    ensures Merge(start, Rendered(Drop(fs, x), r)) + r.fields(x) == Merge(start, Rendered(fs, r)) + r.fields(x)
  {
    if fs != [] {
      var before, last := fs[..|fs| - 1], fs[|fs| - 1];
      assert fs == before + [last];
      DropMerges(start, before, x, r);
      MergeNext(start, before, last, r);
      if last != x {
        MergeNext(start, Drop(before, x), last, r);
        Overwritten(Merge(start, Rendered(Drop(before, x), r)), Merge(start, Rendered(before, r)),
                    r.fields(last), r.fields(x));
      }
    }
  }

  lemma {:induction false} LastingMerges(start: Message, fs: seq<Frame>, r: Renderer)
    ensures Merge(start, Rendered(Lasting(fs), r)) == Merge(start, Rendered(fs, r))
  {
    if fs != [] {
      var before, last := fs[..|fs| - 1], fs[|fs| - 1];
      assert fs == before + [last];
      LastingMerges(start, before, r);
      DropMerges(start, Lasting(before), last, r);
      MergeNext(start, before, last, r);
      MergeNext(start, Drop(Lasting(before), last), last, r);
    }
  }

  // ----- and are determined by it

  /** The later of two frames in a series, if either occurs. */
  function Latest(fs: seq<Frame>, x: Frame, y: Frame): Option<Frame> {
    if fs == [] then None else
      var last := fs[|fs| - 1];
      if last == x || last == y then Some(last) else Latest(fs[..|fs| - 1], x, y)
  }

  lemma {:induction false} LatestOccurs(fs: seq<Frame>, x: Frame, y: Frame)
    ensures Latest(fs, x, y).None? <==> x !in fs && y !in fs
    ensures x !in fs ==> Latest(fs, x, y) == Latest(fs, y, y)
    ensures Latest(fs, x, y) == Latest(fs, y, x)
  {
    if fs != [] {
      assert fs == fs[..|fs| - 1] + [fs[|fs| - 1]];
      LatestOccurs(fs[..|fs| - 1], x, y);
    }
  }

  lemma {:induction false} DropLatest(fs: seq<Frame>, z: Frame, x: Frame, y: Frame)
    requires z != x && z != y
    ensures Latest(Drop(fs, z), x, y) == Latest(fs, x, y)
  {
    if fs != [] {
      var before, last := fs[..|fs| - 1], fs[|fs| - 1];
      DropLatest(before, z, x, y);
      if last != z {
        assert (Drop(before, z) + [last])[..|Drop(before, z)|] == Drop(before, z);
      }
    }
  }

  lemma {:induction false} LastingLatest(fs: seq<Frame>, x: Frame, y: Frame)
    ensures Latest(Lasting(fs), x, y) == Latest(fs, x, y)
  {
    if fs != [] {
      var before, last := fs[..|fs| - 1], fs[|fs| - 1];
      var dropped := Drop(Lasting(before), last);
      LastingLatest(before, x, y);
      assert (dropped + [last])[..|dropped|] == dropped;
      if last != x && last != y {
        DropLatest(Lasting(before), last, x, y);
      }
    }
  }

  ghost predicate SameLatest(fs: seq<Frame>, gs: seq<Frame>) {
    forall x, y :: Latest(fs, x, y) == Latest(gs, x, y)
  }

  lemma SameLast(fs: seq<Frame>, gs: seq<Frame>)
    requires fs != [] && SameLatest(fs, gs)
    ensures gs != [] && fs[|fs| - 1] == gs[|gs| - 1]
  {
    var a := fs[|fs| - 1];
    assert Latest(gs, a, a) == Latest(fs, a, a);
    var b := gs[|gs| - 1];
    assert Latest(gs, a, b) == Latest(fs, a, b);
  }

  lemma SameBefore(fs: seq<Frame>, gs: seq<Frame>)
    requires fs != [] && gs != [] && fs[|fs| - 1] == gs[|gs| - 1] && SameLatest(fs, gs)
    requires AllDiffer(fs) && AllDiffer(gs)
    ensures SameLatest(fs[..|fs| - 1], gs[..|gs| - 1])
  {
    var a, before, earlier := fs[|fs| - 1], fs[..|fs| - 1], gs[..|gs| - 1];
    assert a !in before && a !in earlier;
    forall x, y
      ensures Latest(before, x, y) == Latest(earlier, x, y)
    {
      assert Latest(fs, x, y) == Latest(gs, x, y);
      assert Latest(fs, x, x) == Latest(gs, x, x);
      assert Latest(fs, y, y) == Latest(gs, y, y);
      LatestOccurs(before, x, y);
      LatestOccurs(earlier, x, y);
      LatestOccurs(before, y, x);
      LatestOccurs(earlier, y, x);
    }
  }

  /** Without repetitions, which of any two frames comes later determines the series. */
  lemma {:induction false} LatestDetermines(fs: seq<Frame>, gs: seq<Frame>)
    requires AllDiffer(fs) && AllDiffer(gs) && SameLatest(fs, gs)
    ensures fs == gs
  {
    if fs == [] {
      if gs != [] {
        SameLast(gs, fs);
      }
    } else {
      SameLast(fs, gs);
      SameBefore(fs, gs);
      LatestDetermines(fs[..|fs| - 1], gs[..|gs| - 1]);
      assert fs == fs[..|fs| - 1] + [fs[|fs| - 1]] && gs == gs[..|gs| - 1] + [gs[|gs| - 1]];
    }
  }

  /** A renderer that shows which of two frames was logged later. */
  function Pair(x: Frame, y: Frame): Renderer {
    Renderer(f => if f == x then map["mark" := "first"] else if f == y then map["mark" := "second"] else map[],
             f => map[])
  }

  lemma {:induction false} LatestShows(fs: seq<Frame>, x: Frame, y: Frame)
    ensures Merge(map[], Rendered(fs, Pair(x, y))) ==
      if Latest(fs, x, y).None? then map[] else Pair(x, y).fields(Latest(fs, x, y).value)
  {
    if fs != [] {
      var before, last := fs[..|fs| - 1], fs[|fs| - 1];
      assert fs == before + [last];
      LatestShows(before, x, y);
      MergeNext(map[], before, last, Pair(x, y));
      LatestFound(before, x, y);
    }
  }

  lemma {:induction false} LatestFound(fs: seq<Frame>, x: Frame, y: Frame)
    ensures Latest(fs, x, y).Some? ==> Latest(fs, x, y).value in {x, y}
  {
    if fs != [] {
      LatestFound(fs[..|fs| - 1], x, y);
    }
  }

  /** Rendered this way, the fields make the same record with this end. */
  ghost predicate SameContent(fs: seq<Frame>, gs: seq<Frame>, end: Frame, r: Renderer) {
    Merge(r.header(end), Rendered(fs, r)) == Merge(r.header(end), Rendered(gs, r))
  }

  /**
   Two series of fields make the same record, however they are rendered, if and only if they
   have the same last occurrences in the same order.
   */
  lemma SameRecordIff(fs: seq<Frame>, gs: seq<Frame>, end: Frame)
    ensures (forall r: Renderer :: SameContent(fs, gs, end, r)) <==> Lasting(fs) == Lasting(gs)
  {
    if Lasting(fs) == Lasting(gs) {
      forall r: Renderer
        ensures SameContent(fs, gs, end, r)
      {
        LastingMerges(r.header(end), fs, r);
        LastingMerges(r.header(end), gs, r);
      }
    }
    if forall r: Renderer :: SameContent(fs, gs, end, r) {
      forall x, y
        ensures Latest(Lasting(fs), x, y) == Latest(Lasting(gs), x, y)
      {
        assert SameContent(fs, gs, end, Pair(x, y));
        ContentShowsLatest(fs, gs, end, x, y);
        LastingLatest(fs, x, y);
        LastingLatest(gs, x, y);
      }
      LastingDiffers(fs);
      LastingDiffers(gs);
      LatestDetermines(Lasting(fs), Lasting(gs));
    }
  }

  lemma ContentShowsLatest(fs: seq<Frame>, gs: seq<Frame>, end: Frame, x: Frame, y: Frame)
    requires SameContent(fs, gs, end, Pair(x, y))
    ensures Latest(fs, x, y) == Latest(gs, x, y)
  {
    LatestShows(fs, x, y);
    LatestShows(gs, x, y);
    LatestFound(fs, x, y);
    LatestFound(gs, x, y);
    var m := Merge(map[], Rendered(fs, Pair(x, y)));
    assert "mark" in m <==> Latest(fs, x, y).Some?;
    assert "mark" in m <==> Latest(gs, x, y).Some?;
    assert "mark" in m ==> (m["mark"] == "first" <==> Latest(fs, x, y).value == x);
    assert "mark" in m ==> (m["mark"] == "first" <==> Latest(gs, x, y).value == x);
  }

  // ----- a copy too many

  ghost predicate Repeated(fs: seq<Frame>, k: nat)
    requires k < |fs|
  {
    exists j :: k < j < |fs| && fs[j] == fs[k]
  }

  lemma {:induction false} WithoutLatest(fs: seq<Frame>, k: nat, x: Frame, y: Frame)
    requires k < |fs| && (fs[k] !in {x, y} || Repeated(fs, k))
    ensures Latest(Without(fs, k), x, y) == Latest(fs, x, y)
  {
    var before, last := fs[..|fs| - 1], fs[|fs| - 1];
    if k == |fs| - 1 {
      assert Without(fs, k) == before;
    } else {
      assert Without(fs, k) == Without(before, k) + [last];
      assert (Without(before, k) + [last])[..|fs| - 2] == Without(before, k);
      if last !in {x, y} {
        if before[k] in {x, y} {
          var j :| k < j < |fs| && fs[j] == fs[k];
          assert before[j] == before[k];
        }
        WithoutLatest(before, k, x, y);
      }
    }
  }

  /** The loss of a field that is logged again does not show in any record. */
  lemma RepeatedFieldIdle(fs: seq<Frame>, k: nat)
    requires k < |fs| && Repeated(fs, k)
    ensures Lasting(Without(fs, k)) == Lasting(fs)
  {
    forall x, y
      ensures Latest(Lasting(Without(fs, k)), x, y) == Latest(Lasting(fs), x, y)
    {
      WithoutLatest(fs, k, x, y);
      LastingLatest(Without(fs, k), x, y);
      LastingLatest(fs, x, y);
    }
    LastingDiffers(fs);
    LastingDiffers(Without(fs, k));
    LatestDetermines(Lasting(Without(fs, k)), Lasting(fs));
  }
}
