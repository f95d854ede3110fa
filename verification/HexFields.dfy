/**
 The agent's reading of 32-bit hexadecimal values: zeros and x's are trimmed off the front, and
 the rest is parsed.
 */
module HexFields {
  import opened Options

  /** strings.TrimLeft(data, "0x"): its second argument is a set of characters, not a prefix. */
  function TrimLeft(data: string): string {
    if data != [] && (data[0] == '0' || data[0] == 'x') then TrimLeft(data[1..]) else data
  }

  function Digit(c: char): Option<nat> {
    if '0' <= c <= '9' then Some((c - '0') as nat)
    else if 'a' <= c <= 'f' then Some((c - 'a') as nat + 10)
    else if 'A' <= c <= 'F' then Some((c - 'A') as nat + 10)
    else None
  }

  function Digits(s: string): Option<nat> {
    if s == [] then Some(0) else
      var before, last := Digits(s[..|s| - 1]), Digit(s[|s| - 1]);
      if before.None? || last.None? || 16 * before.value + last.value >= 0x1_0000_0000 then None
      else Some(16 * before.value + last.value)
  }

  /** strconv.ParseUint(s, 16, 32). */
  function ParseUint(s: string): Option<nat> {
    if s == [] then None else Digits(s)
  }

  function ParseField(data: string): Option<nat> {
    ParseUint(TrimLeft(data))
  }

  function LastDigit(n: nat): (c: char)
    ensures Digit(c) == Some(n % 16) && c != 'x' && (c == '0' ==> n % 16 == 0)
  {
    if n % 16 < 10 then '0' + (n % 16) as char else 'a' + (n % 16 - 10) as char
  }

  /** The hexadecimal digits of a number, without leading zeros. */
  function Hex(n: nat): (s: string)
    ensures s != []
  {
    if n < 16 then [LastDigit(n)] else Hex(n / 16) + [LastDigit(n)]
  }

  lemma {:induction false} DigitsPositive(s: string)
    requires s != [] && s[0] != '0' && Digits(s).Some?
    ensures Digits(s).value > 0
  {
    if |s| > 1 {
      assert s[..|s| - 1][0] == s[0];
      DigitsPositive(s[..|s| - 1]);
    }
  }

  lemma {:induction false} TrimmedFirst(data: string)
    ensures TrimLeft(data) != [] ==> TrimLeft(data)[0] != '0'
  {
    if data != [] && (data[0] == '0' || data[0] == 'x') {
      TrimmedFirst(data[1..]);
    }
  }

  /** No spelling of zero, and nothing else, is read as zero. */
  lemma ParsedIsPositive(data: string)
    requires ParseField(data).Some?
    ensures 0 < ParseField(data).value < 0x1_0000_0000
  {
    TrimmedFirst(data);
    DigitsPositive(TrimLeft(data));
  }

  lemma DigitsNext(s: string, c: char, before: nat, last: nat)
    requires Digits(s) == Some(before) && Digit(c) == Some(last) && 16 * before + last < 0x1_0000_0000
    ensures Digits(s + [c]) == Some(16 * before + last)
  {
    assert (s + [c])[..|s|] == s;
  }

  lemma HexNext(n: nat)
    ensures n < 16 ==> Hex(n) == [] + [LastDigit(n)]
    ensures n >= 16 ==> Hex(n) == Hex(n / 16) + [LastDigit(n)]
  {
  }

  lemma {:induction false} HexParses(n: nat)
    requires n < 0x1_0000_0000
    ensures Digits(Hex(n)) == Some(n)
  {
    var last, d := LastDigit(n), n % 16;
    HexNext(n);
    if n < 16 {
      DigitsNext([], last, 0, d);
    } else {
      HexParses(n / 16);
      DigitsNext(Hex(n / 16), last, n / 16, d);
    }
  }

  lemma {:induction false} HexFirst(n: nat)
    requires n > 0
    ensures Hex(n)[0] != '0' && Hex(n)[0] != 'x'
  {
    if n >= 16 {
      HexFirst(n / 16);
    }
  }

  /** A 32-bit number comes back from its hexadecimal spelling if and only if it is not zero. */
  lemma HexSurvives(n: nat)
    requires n < 0x1_0000_0000
    ensures ParseField("0x" + Hex(n)) == if n == 0 then None else Some(n)
  {
    HexParses(n);
    if n > 0 {
      HexFirst(n);
    }
    assert ("0x" + Hex(n))[1..] == "x" + Hex(n) && ("x" + Hex(n))[1..] == Hex(n);
    if n == 0 {
      assert Hex(n) == "0" && "0"[1..] == "";
      assert TrimLeft("0") == TrimLeft("");
    }
    assert TrimLeft("x" + Hex(n)) == TrimLeft(Hex(n));
    assert TrimLeft("0x" + Hex(n)) == TrimLeft("x" + Hex(n));
  }
}
