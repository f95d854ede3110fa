/**
 Subnet rules: how the agent compiles an address with a suffix, how the driver checks an
 address against it, and when that is the subnet match the suffix notation stands for.
 */
module Addresses {
  import opened Bytes
  import opened Bits
  import opened Options

  // ----- two readings of "the first p bits agree"

  /** Agreement as the driver computes it: whole octets, then the low bits of the next octet. */
  predicate LowAgree(a: seq<byte>, b: seq<byte>, p: nat)
    requires |a| == |b| && p <= 8 * |a|
  {
    if p == 0 then true
    else if p < 8 then a[0] % Pow2(p) == b[0] % Pow2(p)
    else a[0] == b[0] && LowAgree(a[1..], b[1..], p - 8)
  }

  /** The low `n` bits of a number, most significant first. */
  function BitString(x: nat, n: nat): (s: seq<nat>)
    ensures |s| == n
  {
    if n == 0 then [] else BitString(x / 2, n - 1) + [x % 2]
  }

  function OctetBits(x: byte): seq<nat> {
    BitString(x, 8)
  }

  function AddressBits(a: seq<byte>): (s: seq<nat>)
    ensures |s| == 8 * |a|
  {
    if a == [] then [] else OctetBits(a[0]) + AddressBits(a[1..])
  }

  /** Agreement as subnet notation defines it: the addresses share their first p bits. */
  predicate PrefixAgree(a: seq<byte>, b: seq<byte>, p: nat)
    requires |a| == |b| && p <= 8 * |a|
  {
    AddressBits(a)[..p] == AddressBits(b)[..p]
  }

  lemma {:induction false} BitStringInjective(x: nat, y: nat, n: nat)
    requires x < Pow2(n) && y < Pow2(n)
    requires BitString(x, n) == BitString(y, n)
    ensures x == y
  {
    if n > 0 {
      assert BitString(x, n)[..n - 1] == BitString(x / 2, n - 1);
      assert BitString(y, n)[..n - 1] == BitString(y / 2, n - 1);
      assert BitString(x, n)[n - 1] == x % 2 && BitString(y, n)[n - 1] == y % 2;
      BitStringInjective(x / 2, y / 2, n - 1);
    }
  }

  lemma PrefixStep(a: seq<byte>, b: seq<byte>, p: nat)
    requires |a| == |b| && 8 <= p <= 8 * |a|
    ensures PrefixAgree(a, b, p) <==> a[0] == b[0] && PrefixAgree(a[1..], b[1..], p - 8)
  {
    var x, y := AddressBits(a), AddressBits(b);
    assert x[..p] == OctetBits(a[0]) + AddressBits(a[1..])[..p - 8];
    assert y[..p] == OctetBits(b[0]) + AddressBits(b[1..])[..p - 8];
    if PrefixAgree(a, b, p) {
      assert OctetBits(a[0]) == x[..p][..8] == y[..p][..8] == OctetBits(b[0]);
      Octets();
      BitStringInjective(a[0], b[0], 8);
      assert AddressBits(a[1..])[..p - 8] == x[..p][8..] == y[..p][8..];
    }
  }

  lemma {:induction false} WholeOctetsAgree(a: seq<byte>, b: seq<byte>, p: nat)
    requires |a| == |b| && p <= 8 * |a| && p % 8 == 0
    ensures LowAgree(a, b, p) <==> PrefixAgree(a, b, p)
  {
    if p >= 8 {
      PrefixStep(a, b, p);
      WholeOctetsAgree(a[1..], b[1..], p - 8);
    }
  }

  function Flipped(x: byte, high: bool): byte {
    if high then (if x < 128 then x + 128 else x - 128)
    else if x % 2 == 0 then x + 1 else x - 1
  }

  lemma FlippedLow(x: byte, p: nat)
    requires 0 < p < 8
    ensures Flipped(x, true) % Pow2(p) == x % Pow2(p)
    ensures Flipped(x, false) % Pow2(p) != x % Pow2(p)
  {
    Octets();
    Pow2Sum(p, 7 - p);
    var low := if x < 128 then x else x - 128;
    AddMultiple(low, Pow2(p), Pow2(7 - p));
    ParityKept(x, Pow2(p - 1));
    ParityKept(Flipped(x, false), Pow2(p - 1));
  }

  lemma {:induction false} TopBit(x: nat, n: nat)
    requires n > 0 && x < Pow2(n - 1)
    ensures BitString(x, n)[0] != BitString(x + Pow2(n - 1), n)[0]
  {
    if n > 1 {
      TopBit(x / 2, n - 1);
      assert (x + Pow2(n - 1)) / 2 == x / 2 + Pow2(n - 2);
    }
  }

  lemma FlippedBits(x: byte, p: nat)
    requires 0 < p < 8
    ensures OctetBits(Flipped(x, true))[0] != OctetBits(x)[0]
    ensures OctetBits(Flipped(x, false))[..p] == OctetBits(x)[..p]
  {
    Octets();
    TopBit(if x < 128 then x else x - 128, 8);
    var y := Flipped(x, false);
    assert y / 2 == x / 2;
    assert OctetBits(x)[..p] == BitString(x / 2, 7)[..p];
    assert OctetBits(y)[..p] == BitString(y / 2, 7)[..p];
  }

  /** Changing the split octet's top bit fools the low-bit reading, changing its bottom bit the other. */
  lemma {:induction false} FlippedSplits(a: seq<byte>, p: nat, high: bool)
    requires p <= 8 * |a| && p % 8 != 0
    ensures var b := a[p / 8 := Flipped(a[p / 8], high)];
      LowAgree(a, b, p) == high && PrefixAgree(a, b, p) == !high
  {
    var b := a[p / 8 := Flipped(a[p / 8], high)];
    if p < 8 {
      FlippedLow(a[0], p);
      FlippedBits(a[0], p);
      assert AddressBits(a)[..p] == OctetBits(a[0])[..p];
      assert AddressBits(b)[..p] == OctetBits(b[0])[..p];
      assert AddressBits(a)[..p][0] == OctetBits(a[0])[0] && AddressBits(b)[..p][0] == OctetBits(b[0])[0];
    } else {
      PrefixStep(a, b, p);
      FlippedSplits(a[1..], p - 8, high);
      assert b[1..] == a[1..][(p - 8) / 8 := Flipped(a[1..][(p - 8) / 8], high)];
    }
  }

  // ----- the low-bit reading as arithmetic

  lemma {:induction false} LowAgreeIsRemainder(a: seq<byte>, b: seq<byte>, p: nat)
    requires |a| == |b| && p <= 8 * |a|
    ensures LowAgree(a, b, p) <==> Value(a) % Pow2(p) == Value(b) % Pow2(p)
  {
    Octets();
    if 0 < p < 8 {
      LowOctet(a, p);
      LowOctet(b, p);
    } else if p >= 8 {
      Pow2Sum(8, p - 8);
      LowAgreeIsRemainder(a[1..], b[1..], p - 8);
      OctetSplit(a[0], Value(a[1..]), Pow2(p - 8));
      OctetSplit(b[0], Value(b[1..]), Pow2(p - 8));
    }
  }

  lemma {:induction false} LowOctet(a: seq<byte>, p: nat)
    requires a != [] && p < 8
    ensures Value(a) % Pow2(p) == a[0] % Pow2(p)
  {
    assert 256 == Pow2(p) * Pow2(8 - p) by {
      Octets();
      Pow2Sum(p, 8 - p);
    }
    MultipleOfFactor(a[0], Pow2(p), Pow2(8 - p), Value(a[1..]));
  }

  lemma {:induction false} MultipleOfFactor(x: nat, m: nat, c: nat, v: nat)
    requires m > 0
    ensures (x + m * c * v) % m == x % m
  {
    assert m * c * v == m * (c * v);
    AddMultiple(x, m, c * v);
  }

  lemma OctetSplit(x: byte, v: nat, m: nat)
    requires m > 0
    ensures (x + 256 * v) % (256 * m) == x + 256 * (v % m)
  {
    assert v == (v / m) * m + v % m;
    assert x + 256 * v == (v / m) * (256 * m) + (x + 256 * (v % m));
    Remainder(x + 256 * v, v / m, 256 * m, x + 256 * (v % m));
  }

  // ----- IPv4

  function Joined(a: nat, b: nat, c: nat, d: nat): nat {
    a * 0x100_0000 + b * 0x1_0000 + c * 0x100 + d
  }

  /** The address as the network stack reports it, in host order. */
  function HostOrder(o: seq<byte>): nat
    requires |o| == 4
  {
    Joined(o[0], o[1], o[2], o[3])
  }

  function Htonl(x: nat): nat {
    x / 0x100_0000 % 0x100 + x / 0x1_0000 % 0x100 * 0x100 + x / 0x100 % 0x100 * 0x1_0000 + x % 0x100 * 0x100_0000
  }

  lemma HtonlSwaps(a: byte, b: byte, c: byte, d: byte)
    ensures Htonl(Joined(a, b, c, d)) == Joined(d, c, b, a)
  {
    var x := Joined(a, b, c, d);
    var cd: nat := c * 0x100 + d;
    var bcd: nat := b * 0x1_0000 + cd;
    Remainder(x, a, 0x100_0000, bcd);
    Remainder(x, a * 0x100 + b, 0x1_0000, cd);
    Remainder(x, a * 0x1_0000 + b * 0x100 + c, 0x100, d);
    Remainder(a * 0x100 + b, a, 0x100, b);
    Remainder(a * 0x1_0000 + b * 0x100 + c, a * 0x100 + b, 0x100, c);
  }

  /** Swapping the host-order address gives the little-endian number the rules are compiled to. */
  lemma HtonlOfAddress(o: seq<byte>)
    requires |o| == 4
    ensures Htonl(HostOrder(o)) == Value(o)
    ensures HostOrder(o) == 0 <==> Value(o) == 0
  {
    HtonlSwaps(o[0], o[1], o[2], o[3]);
    assert Value(o) == o[0] + 256 * Value(o[1..]);
    assert Value(o[1..]) == o[1] + 256 * Value(o[2..]);
    assert Value(o[2..]) == o[2] + 256 * Value(o[3..]);
    assert Value(o[3..]) == o[3] + 256 * Value(o[4..]);
  }

  /** An all-ones mask shifted right until `suffix` bits are left; shifts of 32 and more leave none. */
  function MaskFor(suffix: int): nat
    requires suffix <= 32
  {
    if suffix <= 0 then 0 else 0xFFFF_FFFF / Pow2(32 - suffix)
  }

  /** The agent's compiled form: subnet in the high half, mask in the low; a suffix above 32 panics. */
  function ParseIpv4(octets: seq<byte>, suffix: int): Option<nat>
    requires |octets| == 4
  {
    if suffix > 32 then None else
      Some(And(Value(octets), MaskFor(suffix)) * 0x1_0000_0000 + MaskFor(suffix))
  }

  /** The driver's reading of the eight bytes. */
  function MaskOf(data: seq<byte>): nat
    requires |data| >= 8
  {
    Value(data[0..4])
  }

  function SubnetOf(data: seq<byte>): nat
    requires |data| >= 8
  {
    Value(data[4..8])
  }

  lemma {:induction false} MaskIsLow(s: nat)
    requires 1 <= s <= 32
    ensures MaskFor(s) == Pow2(s) - 1 < 0x1_0000_0000
  {
    assert Pow2(32) == 0x1_0000_0000 by {
      Octets();
    }
    Pow2Sum(s, 32 - s);
    AllOnesShifted(0x1_0000_0000, Pow2(s), Pow2(32 - s));
  }

  lemma {:induction false} AllOnesShifted(whole: nat, a: nat, b: nat)
    requires a > 0 && b > 0 && whole == a * b
    ensures (whole - 1) / b == a - 1 && a <= whole
  {
    assert whole - 1 == (a - 1) * b + (b - 1);
    Remainder(whole - 1, a - 1, b, b - 1);
    assert a * b >= a;
  }

  lemma HalvesSurvive(n: nat, subnet: nat, mask: nat)
    requires subnet < 0x1_0000_0000 && mask < 0x1_0000_0000
    requires n == subnet * 0x1_0000_0000 + mask
    ensures MaskOf(Little(n, 8)) == mask && SubnetOf(Little(n, 8)) == subnet
  {
    Powers();
    var data := Little(n, 8);
    ValueOfLittle(n, 8);
    ValueSplit(data, 4);
    ValueBound(data[..4]);
    assert data[0..4] == data[..4] && data[4..8] == data[4..];
    Remainder(n, subnet, 0x1_0000_0000, mask);
    Remainder(n, Value(data[4..]), 0x1_0000_0000, Value(data[..4]));
  }

  /** The compiled address survives the byte string. */
  lemma Ipv4Survives(octets: seq<byte>, s: nat)
    requires |octets| == 4 && 1 <= s <= 32
    ensures ParseIpv4(octets, s).Some?
    ensures var data := Little(ParseIpv4(octets, s).value, 8);
      MaskOf(data) == Pow2(s) - 1 && SubnetOf(data) == Value(octets) % Pow2(s)
  {
    var address, mask := Value(octets), MaskFor(s);
    MaskIsLow(s);
    AndBound(address, mask);
    var subnet := And(address, mask);
    assert subnet == address % Pow2(s) by {
      AndLowMask(address, s);
    }
    HalvesSurvive(ParseIpv4(octets, s).value, subnet, mask);
  }

  predicate Ipv4Holds(mask: nat, subnet: nat, toMatch: nat, littleEndian: bool) {
    toMatch != 0 && And(if littleEndian then Htonl(toMatch) else toMatch, mask) == subnet
  }

  /** Mask and subnet are what a rule on these octets and suffix compiles to. */
  ghost predicate CompiledFrom(octets: seq<byte>, s: nat, mask: nat, subnet: nat) {
    && |octets| == 4 && 1 <= s <= 32
    && mask == Pow2(s) - 1 && subnet == Value(octets) % Pow2(s)
  }

  /**
   How a network event's IPv4 address reaches the check. The connection layers store it as the
   network stack reports it, and the check swaps its bytes, or they swap it and the check does
   not. The resource-assignment layer swaps it and the check swaps it again.
   */
  datatype Route = AsReceived | Swapped | SwappedTwice

  /** The number the callback stores. */
  function Reported(address: seq<byte>, route: Route): nat
    requires |address| == 4
  {
    if route.AsReceived? then HostOrder(address) else Htonl(HostOrder(address))
  }

  /** Whether the callback asks the check to swap. */
  predicate Swaps(route: Route) {
    !route.Swapped?
  }

  ghost predicate ReportedAs(address: seq<byte>, route: Route, toMatch: nat, littleEndian: bool) {
    |address| == 4 && toMatch == Reported(address, route) && littleEndian == Swaps(route)
  }

  function Reversed(o: seq<byte>): (r: seq<byte>)
    requires |o| == 4
    ensures |r| == 4
  {
    [o[3], o[2], o[1], o[0]]
  }

  /** The octets the check compares with the rule's, in the rule's order. */
  function Compared(address: seq<byte>, route: Route): (o: seq<byte>)
    requires |address| == 4
    ensures |o| == 4
  {
    if route.SwappedTwice? then Reversed(address) else address
  }

  /** What the check sees of an address is the number of the octets it compares. */
  lemma ComparedNumber(address: seq<byte>, route: Route)
    requires |address| == 4
    ensures (if Swaps(route) then Htonl(Reported(address, route)) else Reported(address, route))
      == Value(Compared(address, route))
    ensures Reported(address, route) == 0 <==> Value(address) == 0
  {
    HtonlOfAddress(address);
    if route.SwappedTwice? {
      HtonlOfAddress(Reversed(address));
      HtonlSwaps(address[0], address[1], address[2], address[3]);
    }
  }

  lemma ReportedZeroIff(address: seq<byte>, route: Route)
    requires |address| == 4
    ensures Reported(address, route) == 0 <==> Value(address) == 0
  {
    ComparedNumber(address, route);
  }

  lemma ZeroValue(address: seq<byte>)
    requires forall i :: 0 <= i < |address| ==> address[i] == 0
    ensures Value(address) == 0
  {
    ValueZeroExtended([], address);
    assert [] + address == address;
  }

  /** On a compiled rule and a reported address the mask test is agreement with the octets compared. */
  lemma CompiledHoldsIff(octets: seq<byte>, s: nat, address: seq<byte>, mask: nat, subnet: nat, route: Route)
    requires CompiledFrom(octets, s, mask, subnet) && |address| == 4
    ensures Ipv4Holds(mask, subnet, Reported(address, route), Swaps(route))
      <==> Value(address) != 0 && LowAgree(octets, Compared(address, route), s)
  {
    ComparedNumber(address, route);
    AndLowMask(Value(Compared(address, route)), s);
    LowAgreeIsRemainder(octets, Compared(address, route), s);
  }

  /**
   CheckIpv4. Whatever rule the mask and subnet were compiled from and whatever address the
   number reports by whatever route, one is added exactly when the address is not 0.0.0.0 and
   the octets compared agree with the rule's on the low-bit reading of its suffix.
   */
  method CheckIpv4(mask: nat, subnet: nat, toMatch: nat, littleEndian: bool, matches: nat) returns (after: nat)
    ensures matches <= after <= matches + 1
    ensures after == matches + 1 <==> Ipv4Holds(mask, subnet, toMatch, littleEndian)
    ensures forall octets: seq<byte>, s: nat, address: seq<byte>, route ::
      CompiledFrom(octets, s, mask, subnet) && ReportedAs(address, route, toMatch, littleEndian) ==>
      (after == matches + 1 <==> Value(address) != 0 && LowAgree(octets, Compared(address, route), s))
  {
    forall octets: seq<byte>, s: nat, address: seq<byte>, route
      | CompiledFrom(octets, s, mask, subnet) && ReportedAs(address, route, toMatch, littleEndian)
      ensures Ipv4Holds(mask, subnet, toMatch, littleEndian)
        <==> Value(address) != 0 && LowAgree(octets, Compared(address, route), s)
    {
      CompiledHoldsIff(octets, s, address, mask, subnet, route);
    }
    if toMatch == 0 {
      return matches;
    }
    var address := toMatch;
    if littleEndian {
      address := Htonl(address);
    }
    after := matches;
    if And(address, mask) == subnet {
      after := after + 1;
    }
  }

  /** The check on a rule as compiled and stored, for an address that came by this route. */
  predicate Accepts(octets: seq<byte>, s: nat, address: seq<byte>, route: Route)
    requires |octets| == 4 == |address| && s <= 32
  {
    var data := Little(ParseIpv4(octets, s).value, 8);
    Ipv4Holds(MaskOf(data), SubnetOf(data), Reported(address, route), Swaps(route))
  }

  /**
   Compiled, stored and checked on any route, a rule accepts an address if and only if it is
   not 0.0.0.0 and the octets compared agree on the low-bit reading of the suffix.
   */
  lemma Ipv4EndToEnd(octets: seq<byte>, s: nat, address: seq<byte>, route: Route)
    requires |octets| == 4 == |address| && 1 <= s <= 32
    ensures Accepts(octets, s, address, route) <==> Value(address) != 0 && LowAgree(octets, Compared(address, route), s)
  {
    Ipv4Survives(octets, s);
    var data := Little(ParseIpv4(octets, s).value, 8);
    CompiledHoldsIff(octets, s, address, MaskOf(data), SubnetOf(data), route);
  }

  lemma AgreementsDiffer(octets: seq<byte>, s: nat) returns (address: seq<byte>)
    requires |octets| == 4 && 1 <= s <= 32 && s % 8 != 0
    ensures |address| == 4 && Value(address) != 0
    ensures LowAgree(octets, address, s) != PrefixAgree(octets, address, s)
  {
    FlippedSplits(octets, s, true);
    FlippedSplits(octets, s, false);
    var k := s / 8;
    var x, y := octets[k := Flipped(octets[k], true)], octets[k := Flipped(octets[k], false)];
    address := if Value(x) != 0 then x else y;
    ZeroOctets(x);
    ZeroOctets(y);
    assert x[k] != y[k];
  }

  lemma {:induction false} AllBitsAgree(a: seq<byte>, b: seq<byte>)
    requires |a| == |b|
    ensures LowAgree(a, b, 8 * |a|) <==> a == b
  {
    if a != [] {
      AllBitsAgree(a[1..], b[1..]);
      assert a == [a[0]] + a[1..] && b == [b[0]] + b[1..];
    }
  }

  /** Agreement includes the bottom bits of the first octets. */
  lemma BottomBitsAgree(a: seq<byte>, b: seq<byte>, p: nat)
    requires a != [] && |a| == |b| && 1 <= p <= 8 * |a| && LowAgree(a, b, p)
    ensures a[0] % 2 == b[0] % 2
  {
    if p < 8 {
      ParityKept(a[0], Pow2(p - 1));
      ParityKept(b[0], Pow2(p - 1));
    }
  }

  lemma PrefixShorter(a: seq<byte>, b: seq<byte>, p: nat, q: nat)
    requires |a| == |b| && p <= q <= 8 * |a| && PrefixAgree(a, b, q)
    ensures PrefixAgree(a, b, p)
  {
    assert AddressBits(a)[..p] == AddressBits(a)[..q][..p];
    assert AddressBits(b)[..p] == AddressBits(b)[..q][..p];
  }

  /** With octets compared in reverse, an address of the subnet whose last octet has another bottom bit is rejected. */
  lemma ReversedDiffers(octets: seq<byte>, s: nat) returns (address: seq<byte>)
    requires |octets| == 4 && 1 <= s < 32
    ensures |address| == 4 && Value(address) != 0
    ensures PrefixAgree(octets, address, s) && !LowAgree(octets, Reversed(address), s)
  {
    var flipped := octets[3 := Flipped(octets[3], false)];
    FlippedSplits(octets, 31, false);
    address := if octets[3] % 2 != octets[0] % 2 then octets else flipped;
    PrefixShorter(octets, address, s, 31);
    assert Reversed(address)[0] % 2 != octets[0] % 2;
    if LowAgree(octets, Reversed(address), s) {
      BottomBitsAgree(octets, Reversed(address), s);
    }
    ZeroOctets(address);
    assert address[0] != 0 || address[3] != 0;
  }

  /** When the octets compared on a route give the subnet match: a condition on the rule alone. */
  predicate RouteExact(octets: seq<byte>, s: nat, route: Route)
    requires |octets| == 4
  {
    if route.SwappedTwice? then s == 32 && octets == Reversed(octets) else s % 8 == 0
  }

  lemma ExactAgrees(octets: seq<byte>, s: nat, address: seq<byte>, route: Route)
    requires |octets| == 4 == |address| && 1 <= s <= 32 && RouteExact(octets, s, route)
    ensures LowAgree(octets, Compared(address, route), s) <==> PrefixAgree(octets, address, s)
  {
    WholeOctetsAgree(octets, address, s);
    if route.SwappedTwice? {
      AllBitsAgree(octets, address);
      AllBitsAgree(octets, Reversed(address));
      assert Reversed(Reversed(address)) == address;
    }
  }

  lemma InexactDiffers(octets: seq<byte>, s: nat, route: Route) returns (address: seq<byte>)
    requires |octets| == 4 && 1 <= s <= 32 && !RouteExact(octets, s, route)
    ensures |address| == 4 && Value(address) != 0
    ensures LowAgree(octets, Compared(address, route), s) != PrefixAgree(octets, address, s)
  {
    if !route.SwappedTwice? {
      address := AgreementsDiffer(octets, s);
    } else if s < 32 {
      address := ReversedDiffers(octets, s);
    } else {
      address := octets;
      AllBitsAgree(octets, Reversed(octets));
      ZeroOctets(octets);
      assert octets != [0, 0, 0, 0];
    }
  }

  /**
   For a rule address the check on the compiled rule is, on a connection layer's route, the
   subnet match of RFC 4632 section 3.1 on every non-zero address if and only if the suffix is a
   whole number of octets; on the resource-assignment layer's, if and only if the rule names one
   address that reads the same backwards.
   */
  lemma Ipv4IsSubnetMatchIff(octets: seq<byte>, s: nat, route: Route)
    requires |octets| == 4 && 1 <= s <= 32
    ensures (forall address: seq<byte> :: |address| == 4 && Value(address) != 0 ==>
        (Accepts(octets, s, address, route) <==> PrefixAgree(octets, address, s)))
      <==> RouteExact(octets, s, route)
  {
    if RouteExact(octets, s, route) {
      forall address: seq<byte> | |address| == 4 && Value(address) != 0
        ensures Accepts(octets, s, address, route) <==> PrefixAgree(octets, address, s)
      {
        Ipv4EndToEnd(octets, s, address, route);
        ExactAgrees(octets, s, address, route);
      }
    } else {
      var address := InexactDiffers(octets, s, route);
      Ipv4EndToEnd(octets, s, address, route);
    }
  }

  lemma {:induction false} ZeroOctets(a: seq<byte>)
    ensures Value(a) == 0 ==> forall i :: 0 <= i < |a| ==> a[i] == 0
  {
    if a != [] {
      ZeroOctets(a[1..]);
      assert forall i :: 1 <= i < |a| ==> a[i] == a[1..][i - 1];
    }
  }

  // ----- IPv6

  function ParseIpv6(octets: seq<byte>, prefix: int): Option<seq<byte>>
    requires |octets| == 16
  {
    if prefix < 1 || prefix > 128 then None else Some(octets + [prefix])
  }

  lemma ShiftKeepsLowBits(x: byte, y: byte, r: nat)
    requires r < 8
    ensures x * Pow2(8 - r) % 256 == y * Pow2(8 - r) % 256 <==> x % Pow2(r) == y % Pow2(r)
  {
    var m, c := Pow2(r), Pow2(8 - r);
    assert 256 == m * c by {
      Octets();
      Pow2Sum(r, 8 - r);
    }
    Scaled(x, m, c);
    Scaled(y, m, c);
    ScaledEqual(x % m, y % m, c);
  }

  lemma {:induction false} ScaledEqual(x: nat, y: nat, c: nat)
    requires c > 0
    ensures x * c == y * c <==> x == y
  {
    assert (x - y) * c == x * c - y * c;
    Multiple(x - y, c);
  }

  predicate Ipv6Holds(subnet: seq<byte>, prefix: byte, address: seq<byte>)
    requires |subnet| == 16 == |address|
  {
    prefix <= 128 && LowAgree(subnet, address, prefix)
  }

  /** The octet loop, for every prefix byte a rule can carry. */
  method CheckIpv6(subnet: seq<byte>, prefix: byte, address: seq<byte>, matches: nat) returns (after: nat)
    requires |subnet| == 16 == |address|
    ensures after == matches + if Ipv6Holds(subnet, prefix, address) then 1 else 0
  {
    var subnetMatch := false;
    var bitsLeft: nat, matchingBits: nat := prefix, 0;
    var i := 0;
    while i < 16
      invariant i <= 16 && !subnetMatch
      invariant matchingBits == 8 * i && matchingBits + bitsLeft == prefix
      invariant bitsLeft > 0 || i == 0
      invariant prefix <= 128 ==>
        (LowAgree(subnet, address, prefix) <==> LowAgree(subnet[i..], address[i..], bitsLeft))
    {
      if bitsLeft >= 8 {
        if address[i] != subnet[i] {
          break;
        }
        assert subnet[i..][1..] == subnet[i + 1..] && address[i..][1..] == address[i + 1..];
        matchingBits := matchingBits + 8;
        bitsLeft := bitsLeft - 8;
        if bitsLeft == 0 {
          if matchingBits == prefix {
            subnetMatch := true;
          }
          break;
        }
      } else {
        var lastByte := address[i] * Pow2(8 - bitsLeft) % 256;
        var lastEntryByte := subnet[i] * Pow2(8 - bitsLeft) % 256;
        ShiftKeepsLowBits(address[i], subnet[i], bitsLeft);
        if lastByte == lastEntryByte {
          subnetMatch := true;
        }
        break;
      }
      i := i + 1;
    }
    after := matches;
    if subnetMatch {
      after := after + 1;
    }
  }

  /**
   For a rule address the check is the prefix match of RFC 4291 section 2.3 on every address
   if and only if the prefix is a whole number of octets.
   */
  lemma Ipv6IsPrefixMatchIff(octets: seq<byte>, prefix: nat)
    requires |octets| == 16 && 1 <= prefix <= 128
    ensures (forall address: seq<byte> :: |address| == 16 ==>
        (Ipv6Holds(octets, prefix, address) <==> PrefixAgree(octets, address, prefix)))
      <==> prefix % 8 == 0
  {
    if prefix % 8 == 0 {
      forall address: seq<byte> | |address| == 16
        ensures Ipv6Holds(octets, prefix, address) <==> PrefixAgree(octets, address, prefix)
      {
        WholeOctetsAgree(octets, address, prefix);
      }
    } else {
      FlippedSplits(octets, prefix, true);
      var address := octets[prefix / 8 := Flipped(octets[prefix / 8], true)];
      assert |address| == 16 && Ipv6Holds(octets, prefix, address) != PrefixAgree(octets, address, prefix);
    }
  }
}
