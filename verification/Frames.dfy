/**
 The frame a log entry travels in, from the driver's encoder to the agent's parser:
 magic, payload size, field type, event id, timestamp, payload.
 */
module Frames {
  import opened Bytes

  const MAGIC: seq<byte> := [0x4D, 0x4F, 0x4F, 0x4E, 0x4D, 0x4F, 0x4E]

  const HEADER_SIZE: nat := 29

  /** The encoder refuses payloads longer than this. */
  const PAYLOAD_MAX: nat := 0xFFFF_FFFF - HEADER_SIZE - 8

  datatype Frame = Frame(kind: nat, id: nat, stamp: nat, payload: seq<byte>) {
    /** The C types of the encoder's arguments bound the header fields. */
    predicate Typed() {
      && kind < 0x1_0000
      && id < 0x1_0000_0000_0000_0000
      && stamp < 0x1_0000_0000_0000_0000
      && |payload| < 0x1_0000_0000
    }

    predicate Accepted() {
      Typed() && 0 < |payload| <= PAYLOAD_MAX
    }
  }

  function Header(f: Frame): (s: seq<byte>)
    ensures |s| == HEADER_SIZE
  {
    MAGIC + Little(|f.payload|, 4) + Little(f.kind, 2) + Little(f.id, 8) + Little(f.stamp, 8)
  }

  function Encode(f: Frame): (s: seq<byte>)
    ensures |s| == HEADER_SIZE + |f.payload|
  {
    Header(f) + f.payload
  }

  function EncodeAll(fs: seq<Frame>): (s: seq<seq<byte>>)
    ensures |s| == |fs|
    ensures forall i :: 0 <= i < |fs| ==> s[i] == Encode(fs[i])
  {
    seq(|fs|, i requires 0 <= i < |fs| => Encode(fs[i]))
  }

  lemma Shifted(data: seq<byte>, pos: nat, e: seq<byte>, from: nat, to: nat)
    requires pos + |e| <= |data| && data[pos..pos + |e|] == e
    requires from <= to <= |e|
    ensures data[pos + from..pos + to] == e[from..to]
  {
    var there := data[pos + from..pos + to];
    forall i | 0 <= i < to - from
      ensures there[i] == e[from..to][i]
    {
      assert data[pos..pos + |e|][from + i] == e[from + i];
    }
  }

  lemma FrameParts(f: Frame)
    ensures Encode(f)[0..7] == MAGIC
    ensures Encode(f)[7..11] == Little(|f.payload|, 4)
    ensures Encode(f)[11..13] == Little(f.kind, 2)
    ensures Encode(f)[13..21] == Little(f.id, 8)
    ensures Encode(f)[21..29] == Little(f.stamp, 8)
    ensures Encode(f)[29..] == f.payload
  {
    var h := Header(f);
    assert h == MAGIC + (Little(|f.payload|, 4) + (Little(f.kind, 2) + (Little(f.id, 8) + Little(f.stamp, 8))));
    assert h[0..7] == MAGIC;
    assert h[7..11] == Little(|f.payload|, 4);
    assert h[11..13] == Little(f.kind, 2);
    assert h[13..21] == Little(f.id, 8);
    assert h[21..29] == Little(f.stamp, 8);
    forall a: nat, b: nat | a <= b <= 29
      ensures Encode(f)[a..b] == h[a..b]
    {
    }
  }

  lemma FieldReadsBack(data: seq<byte>, pos: nat, e: seq<byte>, at: nat, n: nat, width: nat)
    requires pos + |e| <= |data| && data[pos..pos + |e|] == e
    requires at + width <= |e| && e[at..at + width] == Little(n, width) && n < Pow256(width)
    ensures Value(data[pos + at..pos + (at + width)]) == n
  {
    Shifted(data, pos, e, at, at + width);
    ValueOfLittle(n, width);
  }

  /** Wherever an encoded frame lies in a buffer, the header fields read back as they were written. */
  lemma FrameReadsBack(data: seq<byte>, pos: nat, f: Frame)
    requires f.Typed()
    requires pos + HEADER_SIZE + |f.payload| <= |data|
    requires data[pos..pos + HEADER_SIZE + |f.payload|] == Encode(f)
    ensures data[pos..pos + 7] == MAGIC
    ensures Value(data[pos + 7..pos + 11]) == |f.payload|
    ensures Value(data[pos + 11..pos + 13]) == f.kind
    ensures Value(data[pos + 13..pos + 21]) == f.id
    ensures Value(data[pos + 21..pos + 29]) == f.stamp
    ensures data[pos + 29..pos + 29 + |f.payload|] == f.payload
  {
    var e := Encode(f);
    FrameParts(f);
    Shifted(data, pos, e, 0, 7);
    Shifted(data, pos, e, 29, |e|);
    Powers();
    FieldReadsBack(data, pos, e, 7, |f.payload|, 4);
    FieldReadsBack(data, pos, e, 11, f.kind, 2);
    FieldReadsBack(data, pos, e, 13, f.id, 8);
    FieldReadsBack(data, pos, e, 21, f.stamp, 8);
  }

  /** Two accepted frames with the same bytes are the same frame. */
  lemma EncodeInjective(f: Frame, g: Frame)
    requires f.Typed() && g.Typed()
    requires Encode(f) == Encode(g)
    ensures f == g
  {
    assert Encode(f)[0..HEADER_SIZE + |f.payload|] == Encode(f);
    assert Encode(g)[0..HEADER_SIZE + |g.payload|] == Encode(g);
    FrameReadsBack(Encode(f), 0, f);
    FrameReadsBack(Encode(g), 0, g);
  }

  /** memcpy into a buffer at a moving offset. */
  method CopyIn(dst: array<byte>, at: nat, src: seq<byte>) returns (next: nat)
    requires at + |src| <= dst.Length
    modifies dst
    ensures next == at + |src|
    ensures dst[..next] == old(dst[..at]) + src
    ensures forall i :: next <= i < dst.Length ==> dst[i] == old(dst[i])
  {
    forall i | 0 <= i < |src| {
      dst[at + i] := src[i];
    }
    next := at + |src|;
  }

  /** The encoder: allocate, then write field after field. */
  method BuildEntry(f: Frame) returns (data: array<byte>)
    requires f.Accepted()
    ensures fresh(data)
    ensures data[..] == Encode(f)
  {
    data := new byte[|f.payload| + HEADER_SIZE](_ => 0x41);
    var at := CopyIn(data, 0, MAGIC);
    at := CopyIn(data, at, Little(|f.payload|, 4));
    at := CopyIn(data, at, Little(f.kind, 2));
    at := CopyIn(data, at, Little(f.id, 8));
    at := CopyIn(data, at, Little(f.stamp, 8));
    assert data[..at] == Header(f);
    at := CopyIn(data, at, f.payload);
    assert data[..at] == data[..];
  }
}
