/** Bytes, little-endian integers and concatenations of byte strings. */
module Bytes {
  type byte = b: nat | b < 256

  function Pow256(width: nat): (p: nat)
    ensures p > 0
  {
    if width == 0 then 1 else 256 * Pow256(width - 1)
  }

  /** The `width` low bytes of `n`, least significant first. */
  function Little(n: nat, width: nat): (s: seq<byte>)
    ensures |s| == width
  {
    if width == 0 then [] else [n % 256] + Little(n / 256, width - 1)
  }

  /** The number a little-endian byte string denotes. */
  function Value(s: seq<byte>): nat {
    if s == [] then 0 else s[0] + 256 * Value(s[1..])
  }

  lemma Powers()
    ensures Pow256(1) == 0x100
    ensures Pow256(2) == 0x1_0000
    ensures Pow256(4) == 0x1_0000_0000
    ensures Pow256(8) == 0x1_0000_0000_0000_0000
  {
    assert Pow256(2) == 256 * Pow256(1);
    assert Pow256(3) == 256 * Pow256(2);
    assert Pow256(4) == 256 * Pow256(3);
    assert Pow256(5) == 256 * Pow256(4);
    assert Pow256(6) == 256 * Pow256(5);
    assert Pow256(7) == 256 * Pow256(6);
    assert Pow256(8) == 256 * Pow256(7);
  }

  lemma {:induction false} ValueOfLittle(n: nat, width: nat)
    requires n < Pow256(width)
    ensures Value(Little(n, width)) == n
  {
    if width > 0 {
      ValueOfLittle(n / 256, width - 1);
      assert Little(n, width)[1..] == Little(n / 256, width - 1);
    }
  }

  lemma {:induction false} ValueBound(s: seq<byte>)
    ensures Value(s) < Pow256(|s|)
  {
    if s != [] {
      ValueBound(s[1..]);
    }
  }

  /** A byte string's number splits at any place into a low and a high part. */
  lemma {:induction false} ValueSplit(s: seq<byte>, k: nat)
    requires k <= |s|
    ensures Value(s) == Value(s[..k]) + Pow256(k) * Value(s[k..])
  {
    if k > 0 {
      ValueSplit(s[1..], k - 1);
      assert s[..k][1..] == s[1..][..k - 1] && s[k..] == s[1..][k - 1..];
      var low, high := Value(s[1..][..k - 1]), Value(s[k..]);
      assert Value(s[1..]) == low + Pow256(k - 1) * high;
      assert 256 * (Pow256(k - 1) * high) == Pow256(k) * high;
    } else {
      assert s[0..] == s;
    }
  }

  /** Zero bytes above the most significant one do not change the number. */
  lemma {:induction false} ValueZeroExtended(s: seq<byte>, zeros: seq<byte>)
    requires forall i :: 0 <= i < |zeros| ==> zeros[i] == 0
    ensures Value(s + zeros) == Value(s)
  {
    if s != [] {
      ValueZeroExtended(s[1..], zeros);
      assert (s + zeros)[1..] == s[1..] + zeros;
    } else if zeros != [] {
      ValueZeroExtended([], zeros[1..]);
      assert s + zeros == zeros;
      assert [] + zeros[1..] == zeros[1..];
    }
  }

  function Concat<T>(parts: seq<seq<T>>): seq<T> {
    if parts == [] then [] else parts[0] + Concat(parts[1..])
  }

  /** The summed length of a list of lists. */
  function Total<T>(parts: seq<seq<T>>): nat {
    if parts == [] then 0 else |parts[0]| + Total(parts[1..])
  }

  lemma {:induction false} ConcatLength<T>(parts: seq<seq<T>>)
    ensures |Concat(parts)| == Total(parts)
  {
    if parts != [] {
      ConcatLength(parts[1..]);
    }
  }

  lemma {:induction false} ConcatSplit<T>(a: seq<seq<T>>, b: seq<seq<T>>)
    ensures Concat(a + b) == Concat(a) + Concat(b)
    ensures Total(a + b) == Total(a) + Total(b)
  {
    if a == [] {
      assert a + b == b;
    } else {
      ConcatSplit(a[1..], b);
      var first, rest, tail := a[0], Concat(a[1..]), Concat(b);
      assert (a + b)[0] == first && (a + b)[1..] == a[1..] + b;
      Associative(first, rest, tail);
    }
  }

  lemma {:induction false} Associative<T>(a: seq<T>, b: seq<T>, c: seq<T>)
    ensures a + (b + c) == (a + b) + c
  {
  }

  lemma SplitLast<T>(a: seq<T>, b: seq<T>)
    requires b != []
    ensures b == b[..|b| - 1] + [b[|b| - 1]] && a + b == a + b[..|b| - 1] + [b[|b| - 1]]
  {
  }

  lemma ConcatSingle<T>(a: seq<T>)
    ensures Concat([a]) == a
    ensures Total([a]) == |a|
  {
    assert Concat([a]) == a + Concat([]);
  }
}
