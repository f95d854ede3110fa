/**
 String matching on UTF-16 bytes. Rule strings are lower-cased by the agent; the `lower`
 arguments are event strings as the kernel's down-casing returns them.
 */
module Text {
  import opened Bytes

  ghost predicate OccursAt(needle: seq<byte>, hay: seq<byte>, k: nat) {
    k + |needle| <= |hay| && hay[k..k + |needle|] == needle
  }

  ghost predicate Occurs(needle: seq<byte>, hay: seq<byte>) {
    exists k :: OccursAt(needle, hay, k)
  }

  ghost predicate Suffix(suffix: seq<byte>, s: seq<byte>) {
    |suffix| <= |s| && s[|s| - |suffix|..] == suffix
  }

  /** RtlCompareMemory: how many leading bytes agree. */
  method CompareMemory(hay: seq<byte>, at: nat, needle: seq<byte>) returns (same: nat)
    requires at + |needle| <= |hay|
    ensures same <= |needle|
    ensures same == |needle| <==> OccursAt(needle, hay, at)
  {
    same := 0;
    while same < |needle| && hay[at + same] == needle[same]
      invariant same <= |needle|
      invariant forall i :: 0 <= i < same ==> hay[at + i] == needle[i]
    {
      same := same + 1;
    }
    if same < |needle| {
      assert hay[at..at + |needle|][same] != needle[same];
    }
  }

  /** The hand-written search: every byte offset in turn, from the first, never past the end. */
  method Contains(toSearch: seq<byte>, lower: seq<byte>) returns (match': bool)
    ensures match' <==> Occurs(toSearch, lower)
  {
    var at := 0;
    var left := |lower|;
    if left >= |toSearch| {
      var first := true;
      while first || (left > 0 && left >= |toSearch|)
        invariant at + left == |lower|
        invariant first ==> at == 0
        invariant !first ==> toSearch != []
        invariant forall k: nat :: k < at ==> !OccursAt(toSearch, lower, k)
        decreases first, left
      {
        first := false;
        var matches := CompareMemory(lower, at, toSearch);
        assert toSearch == [] ==> matches == |toSearch|;
        if matches == |toSearch| {
          return true;
        }
        at := at + 1;
        left := left - 1;
      }
    }
    return false;
  }

  /** Equals: same length and contained is the same string. */
  method Equals(toSearch: seq<byte>, lower: seq<byte>) returns (match': bool)
    ensures match' <==> toSearch == lower
  {
    if |toSearch| != |lower| {
      return false;
    }
    match' := Contains(toSearch, lower);
    assert lower[0..|lower|] == lower;
    assert OccursAt(toSearch, lower, 0) <==> toSearch == lower;
  }

  method StartsWith(prefix: seq<byte>, lower: seq<byte>) returns (match': bool)
    ensures match' <==> prefix <= lower
  {
    if |prefix| > |lower| {
      return false;
    }
    var same := CompareMemory(lower, 0, prefix);
    assert lower[0..|prefix|] == lower[..|prefix|];
    return same == |prefix|;
  }

  method EndsWith(suffix: seq<byte>, lower: seq<byte>) returns (match': bool)
    ensures match' <==> Suffix(suffix, lower)
  {
    if |suffix| > |lower| {
      return false;
    }
    var same := CompareMemory(lower, |lower| - |suffix|, suffix);
    return same == |suffix|;
  }

  // ----- byte search against character search

  /** The needle occurs at a character boundary: an even byte offset. */
  ghost predicate OccursAligned(needle: seq<byte>, hay: seq<byte>) {
    exists k :: OccursAt(needle, hay, k) && k % 2 == 0
  }

  /** A UTF-16 unit, low byte first. */
  function Unit(low: byte, high: byte): nat {
    low as int + 256 * high as int
  }

  /** The text is a string the driver can be searching: every UTF-16 unit is one that down-casing leaves alone. */
  ghost predicate LowerText(lower: nat -> bool, s: seq<byte>) {
    |s| % 2 == 0 && forall i :: 0 <= i < |s| && i % 2 == 0 ==> lower(Unit(s[i], s[i + 1]))
  }

  /**
   Between the bytes `x` and `y` the needle can be read shifted by one byte: the result is
   lower-cased text in which the needle does not occur as a string.
   */
  ghost predicate Misread(lower: nat -> bool, needle: seq<byte>, x: byte, y: byte) {
    LowerText(lower, [x] + needle + [y]) && !OccursAligned(needle, [x] + needle + [y])
  }

  lemma ShiftedOccurs(needle: seq<byte>, x: byte, y: byte)
    ensures Occurs(needle, [x] + needle + [y])
  {
    assert ([x] + needle + [y])[1..1 + |needle|] == needle;
    assert OccursAt(needle, [x] + needle + [y], 1);
  }

  lemma SliceOccurs(needle: seq<byte>, hay: seq<byte>, from: nat, to: nat, m: nat)
    requires from <= to <= |hay| && OccursAt(needle, hay[from..to], m)
    ensures OccursAt(needle, hay, from + m)
  {
    var here := hay[from + m..from + m + |needle|];
    forall i | 0 <= i < |needle|
      ensures here[i] == needle[i]
    {
      assert needle[i] == hay[from..to][m..m + |needle|][i];
    }
  }

  lemma LowerSlice(lower: nat -> bool, hay: seq<byte>, from: nat, to: nat)
    requires from <= to <= |hay| && from % 2 == 0 && to % 2 == 0 && LowerText(lower, hay)
    ensures LowerText(lower, hay[from..to])
  {
    var s := hay[from..to];
    forall i | 0 <= i < |s| && i % 2 == 0
      ensures lower(Unit(s[i], s[i + 1]))
    {
      assert s[i] == hay[from + i] && s[i + 1] == hay[from + i + 1];
    }
  }

  lemma Around(hay: seq<byte>, k: nat, n: nat)
    requires 0 < k && k + n < |hay|
    ensures hay[k - 1..k + n + 1] == [hay[k - 1]] + hay[k..k + n] + [hay[k + n]]
  {
  }

  lemma MisreadAs(lower: nat -> bool, needle: seq<byte>, x: byte, y: byte, text: seq<byte>)
    requires text == [x] + needle + [y] && LowerText(lower, text) && !OccursAligned(needle, text)
    ensures Misread(lower, needle, x, y)
  {
  }

  lemma SliceNotAligned(needle: seq<byte>, hay: seq<byte>, from: nat, to: nat)
    requires from <= to <= |hay| && from % 2 == 0 && !OccursAligned(needle, hay)
    ensures !OccursAligned(needle, hay[from..to])
  {
    forall m: nat | OccursAt(needle, hay[from..to], m)
      ensures m % 2 == 1
    {
      SliceOccurs(needle, hay, from, to, m);
    }
  }

  /** An occurrence that is not aligned has a byte before and a byte behind it. */
  lemma OddPlace(needle: seq<byte>, hay: seq<byte>, k: nat)
    requires |needle| % 2 == 0 && |hay| % 2 == 0 && OccursAt(needle, hay, k) && !OccursAligned(needle, hay)
    ensures k % 2 == 1 && k + |needle| + 1 <= |hay|
  {
  }

  lemma AroundOccurrence(needle: seq<byte>, hay: seq<byte>, k: nat)
    requires OccursAt(needle, hay, k) && 0 < k && k + |needle| < |hay|
    ensures hay[k - 1..k + |needle| + 1] == [hay[k - 1]] + needle + [hay[k + |needle|]]
  {
    Around(hay, k, |needle|);
  }

  /** Around an occurrence at an odd offset lies a shifted reading of the needle. */
  lemma OddOccurrence(lower: nat -> bool, needle: seq<byte>, hay: seq<byte>, k: nat) returns (x: byte, y: byte)
    requires |needle| % 2 == 0 && LowerText(lower, hay)
    requires OccursAt(needle, hay, k) && !OccursAligned(needle, hay)
    ensures Misread(lower, needle, x, y)
  {
    OddPlace(needle, hay, k);
    var from, to := k - 1, k + |needle| + 1;
    x, y := hay[k - 1], hay[k + |needle|];
    AroundOccurrence(needle, hay, k);
    LowerSlice(lower, hay, from, to);
    SliceNotAligned(needle, hay, from, to);
    MisreadAs(lower, needle, x, y, hay[from..to]);
  }

  /**
   On lower-cased text the byte-wise search agrees with the search for whole UTF-16 units if
   and only if no pair of bytes around the needle gives a shifted reading of it.
   */
  lemma ByteSearchAlignedIff(lower: nat -> bool, needle: seq<byte>)
    requires |needle| % 2 == 0
    ensures (forall hay: seq<byte> :: LowerText(lower, hay) ==> (Occurs(needle, hay) <==> OccursAligned(needle, hay)))
      <==> !(exists x: byte, y: byte :: Misread(lower, needle, x, y))
  {
    if x: byte, y: byte :| Misread(lower, needle, x, y) {
      ShiftedOccurs(needle, x, y);
    } else {
      forall hay: seq<byte> | LowerText(lower, hay) && Occurs(needle, hay)
        ensures OccursAligned(needle, hay)
      {
        var k :| OccursAt(needle, hay, k);
        if !OccursAligned(needle, hay) {
          var x, y := OddOccurrence(lower, needle, hay, k);
        }
      }
    }
  }

  predicate Letters(needle: seq<byte>) {
    && |needle| % 2 == 0
    && forall i :: 0 <= i < |needle| ==> if i % 2 == 0 then 0x61 <= needle[i] <= 0x7A else needle[i] == 0
  }

  /**
   Every needle of lower-case ASCII letters has such a reading, among ideographs, which have no
   case: searching "a" finds it in the text U+6100 U+4E00.
   */
  lemma LettersAreMisread(lower: nat -> bool, needle: seq<byte>)
    requires needle != [] && Letters(needle)
    requires forall u :: 0x4E00 <= u < 0xA000 ==> lower(u)
    ensures Misread(lower, needle, 0, 0x4E)
  {
    var n := |needle|;
    var around := [0] + needle + [0x4E];
    forall i | 0 <= i < |around| && i % 2 == 0
      ensures lower(Unit(around[i], around[i + 1]))
    {
      assert around[i] == if i == 0 then 0 else needle[i - 1];
      assert around[i + 1] == if i == n then 0x4E else needle[i];
    }
    forall m: nat | OccursAt(needle, around, m)
      ensures m % 2 == 1
    {
      assert around[m..m + n][0] == around[m] == needle[0];
      assert around[m] == if m == 0 then 0 else if m == n + 1 then 0x4E else needle[m - 1];
    }
  }

  /** On text whose units all lie below 256, as plain ASCII does, the two searches agree. */
  lemma AgreeOnNarrowText(needle: seq<byte>, hay: seq<byte>)
    requires needle != [] && needle[0] != 0
    requires forall i :: 0 <= i < |hay| && i % 2 == 1 ==> hay[i] == 0
    ensures Occurs(needle, hay) <==> OccursAligned(needle, hay)
  {
    forall k: nat | OccursAt(needle, hay, k)
      ensures k % 2 == 0
    {
      assert hay[k] == hay[k..k + |needle|][0] == needle[0];
    }
  }
}
