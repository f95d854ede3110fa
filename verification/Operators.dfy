/** Match operators: what each check computes, and what its documentation says it means. */
module Operators {
  import opened Bytes
  import opened Bits
  import opened Text

  const STARTS_WITH := 0x08
  const NOT_STARTS_WITH := 0x80
  const ENDS_WITH := 0x09
  const NOT_ENDS_WITH := 0x90
  const CONTAINS := 0xC0
  const NOT_CONTAINS := 0x0C
  const EQUALS := 0xE0
  const NOT_EQUALS := 0x0E
  const AND := 0xF0
  const NOT_AND := 0x0F
  const GREATER_THAN := 0xDE
  const NOT_GREATER_THAN := 0xED
  const GREAT_OR_EQUAL := 0x42
  const LESS_THAN := 0x37
  const NOT_LESS_THAN := 0x73
  const LESS_OR_EQUAL := 0xEE

  /** The bit pattern of a number in a field of `width` bytes, signed or not. */
  function Pattern(x: int, width: nat): nat {
    x % Pow256(width)
  }

  predicate HasBits(x: int, v: int, width: nat) {
    And(Pattern(x, width), Pattern(v, width)) == Pattern(v, width)
  }

  /** The documented meaning of a numeric operator; other operators match nothing. */
  predicate Documented(op: int, x: int, v: int, width: nat) {
    if op == AND then HasBits(x, v, width)
    else if op == NOT_AND then !HasBits(x, v, width)
    else if op == EQUALS then x == v
    else if op == NOT_EQUALS then x != v
    else if op == GREATER_THAN then x > v
    else if op == NOT_GREATER_THAN then !(x > v)
    else if op == GREAT_OR_EQUAL then x >= v
    else if op == LESS_THAN then x < v
    else if op == NOT_LESS_THAN then !(x < v)
    else if op == LESS_OR_EQUAL then x <= v
    else false
  }

  /** The operators the driver computes otherwise than documented, when both numbers are equal. */
  predicate Deviates(op: int) {
    op == NOT_AND || op == NOT_LESS_THAN || op == NOT_GREATER_THAN
  }

  /** What a numeric check decides. */
  predicate NumberHolds(op: int, x: int, v: int, width: nat) {
    if op == AND then HasBits(x, v, width)
    else if op == NOT_AND then !HasBits(x, v, width) || x == v
    else if op == EQUALS then x == v
    else if op == NOT_EQUALS then x != v
    else if op == GREATER_THAN || op == NOT_LESS_THAN then x > v
    else if op == GREAT_OR_EQUAL then x >= v
    else if op == LESS_THAN || op == NOT_GREATER_THAN then x < v
    else if op == LESS_OR_EQUAL then x <= v
    else false
  }

  /**
   The four integer checks, one for each width of field. The NOT_AND case falls through into
   EQUALS; the counter still goes up by one at most.
   */
  method CheckNumber(op: int, v: int, toMatch: int, width: nat, matches: nat) returns (after: nat)
    ensures after == matches + if NumberHolds(op, toMatch, v, width) then 1 else 0
  {
    after := matches;
    EqualHasBits(v, width);
    if op == AND {
      if And(Pattern(toMatch, width), Pattern(v, width)) == Pattern(v, width) {
        after := after + 1;
      }
    } else if op == NOT_AND || op == EQUALS {
      if op == NOT_AND && And(Pattern(toMatch, width), Pattern(v, width)) != Pattern(v, width) {
        after := after + 1;
      }
      if toMatch == v {
        after := after + 1;
      }
    } else if op == NOT_EQUALS {
      if toMatch != v {
        after := after + 1;
      }
    } else if op == NOT_LESS_THAN || op == GREATER_THAN {
      if toMatch > v {
        after := after + 1;
      }
    } else if op == GREAT_OR_EQUAL {
      if toMatch >= v {
        after := after + 1;
      }
    } else if op == NOT_GREATER_THAN || op == LESS_THAN {
      if toMatch < v {
        after := after + 1;
      }
    } else if op == LESS_OR_EQUAL {
      if toMatch <= v {
        after := after + 1;
      }
    }
  }

  lemma EqualHasBits(v: int, width: nat)
    ensures HasBits(v, v, width)
  {
    AndSelf(Pattern(v, width));
  }

  /**
   A numeric check decides what its operator is documented to mean, except for these three
   operators on equal numbers, where it always decides the opposite.
   */
  lemma DocumentedIff(op: int, x: int, v: int, width: nat)
    ensures NumberHolds(op, x, v, width) == Documented(op, x, v, width) <==> !(Deviates(op) && x == v)
  {
    EqualHasBits(v, width);
  }

  /** AND asks for every bit of the rule's value, in the bit patterns of the field's width. */
  lemma HasBitsIff(x: int, v: int, width: nat)
    ensures HasBits(x, v, width) <==> Covers(x % Pow256(width), v % Pow256(width))
  {
    AndIsMask(x % Pow256(width), v % Pow256(width));
  }

  /**
   Which operator codes hit a number above, below or equal to the rule's value. NOT_AND hits an
   equal number because its case falls through.
   */
  lemma OperatorsCompared(op: int, v: int, d: nat, width: nat)
    ensures op !in {0xF0, 0x0F} && d > 0 ==> (NumberHolds(op, v + d, v, width) <==> op in {0x0E, 0xDE, 0x73, 0x42})
    ensures op !in {0xF0, 0x0F} && d > 0 ==> (NumberHolds(op, v - d, v, width) <==> op in {0x0E, 0x37, 0xED, 0xEE})
    ensures NumberHolds(op, v, v, width) <==> op in {0xF0, 0x0F, 0xE0, 0x42, 0xEE}
  {
    EqualHasBits(v, width);
  }

  /** The two bit operators: all the bits, or one missing or nothing but them. */
  lemma BitOperators(x: int, v: int, width: nat)
    ensures var all := Covers(x % Pow256(width), v % Pow256(width));
      (NumberHolds(0xF0, x, v, width) <==> all) && (NumberHolds(0x0F, x, v, width) <==> !all || x == v)
  {
    HasBitsIff(x, v, width);
  }

  /** What a string check decides; an absent string matches nothing, not even a negation. */
  ghost predicate StringHolds(op: int, s: seq<byte>, v: seq<byte>) {
    if op == EQUALS then v == s
    else if op == NOT_EQUALS then v != s
    else if op == STARTS_WITH then v <= s
    else if op == NOT_STARTS_WITH then !(v <= s)
    else if op == ENDS_WITH then Suffix(v, s)
    else if op == NOT_ENDS_WITH then !Suffix(v, s)
    else if op == CONTAINS then Occurs(v, s)
    else if op == NOT_CONTAINS then !Occurs(v, s)
    else false
  }

  /** The string is the value with `x` in front of it and `y` behind. */
  ghost predicate Around(s: seq<byte>, x: seq<byte>, v: seq<byte>, y: seq<byte>) {
    s == x + v + y
  }

  lemma PrefixIff(v: seq<byte>, s: seq<byte>)
    ensures v <= s <==> exists rest :: Around(s, [], v, rest)
  {
    if v <= s {
      assert Around(s, [], v, s[|v|..]);
    }
    if rest :| Around(s, [], v, rest) {
      assert [] + v + rest == v + rest;
    }
  }

  lemma SuffixIff(v: seq<byte>, s: seq<byte>)
    ensures Suffix(v, s) <==> exists rest :: Around(s, rest, v, [])
  {
    if Suffix(v, s) {
      assert Around(s, s[..|s| - |v|], v, []);
    }
    if rest :| Around(s, rest, v, []) {
      assert rest + v + [] == rest + v;
    }
  }

  lemma OccursIff(v: seq<byte>, s: seq<byte>)
    ensures Occurs(v, s) <==> exists x, y :: Around(s, x, v, y)
  {
    if k: nat :| OccursAt(v, s, k) {
      assert s == s[..k] + s[k..k + |v|] + s[k + |v|..];
      assert Around(s, s[..k], v, s[k + |v|..]);
    }
    if x, y :| Around(s, x, v, y) {
      assert s[|x|..|x| + |v|] == v;
      assert OccursAt(v, s, |x|);
    }
  }

  /**
   What each operator code asks of a string that is present: the value with anything behind it,
   in front of it, or around it, or the value alone; the four negations ask the opposite, and no
   other code ever hits.
   */
  lemma StringOperators(op: int, s: seq<byte>, v: seq<byte>)
    ensures StringHolds(0x08, s, v) <==> exists rest :: Around(s, [], v, rest)
    ensures StringHolds(0x09, s, v) <==> exists rest :: Around(s, rest, v, [])
    ensures StringHolds(0xC0, s, v) <==> exists x, y :: Around(s, x, v, y)
    ensures StringHolds(0xE0, s, v) <==> s == v
    ensures StringHolds(0x80, s, v) <==> !StringHolds(0x08, s, v)
    ensures StringHolds(0x90, s, v) <==> !StringHolds(0x09, s, v)
    ensures StringHolds(0x0C, s, v) <==> !StringHolds(0xC0, s, v)
    ensures StringHolds(0x0E, s, v) <==> !StringHolds(0xE0, s, v)
    ensures op !in {0x08, 0x80, 0x09, 0x90, 0xC0, 0x0C, 0xE0, 0x0E} ==> !StringHolds(op, s, v)
  {
    PrefixIff(v, s);
    SuffixIff(v, s);
    OccursIff(v, s);
  }

  /** CheckUnicodeEntry, for a string that is present. */
  method CheckUnicode(op: int, v: seq<byte>, toMatch: seq<byte>, matches: nat) returns (after: nat)
    ensures after == matches + if StringHolds(op, toMatch, v) then 1 else 0
  {
    var hit := false;
    if op == EQUALS || op == NOT_EQUALS {
      hit := Equals(v, toMatch);
    } else if op == STARTS_WITH || op == NOT_STARTS_WITH {
      hit := StartsWith(v, toMatch);
    } else if op == ENDS_WITH || op == NOT_ENDS_WITH {
      hit := EndsWith(v, toMatch);
    } else if op == CONTAINS || op == NOT_CONTAINS {
      hit := Contains(v, toMatch);
    } else {
      return matches;
    }
    if op == NOT_EQUALS || op == NOT_STARTS_WITH || op == NOT_ENDS_WITH || op == NOT_CONTAINS {
      hit := !hit;
    }
    after := if hit then matches + 1 else matches;
  }
}
