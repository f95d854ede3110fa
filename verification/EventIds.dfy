/** The counter that names events, and when two events get the same name. */
module EventIds {
  const TWO63: int := 0x8000_0000_0000_0000
  const TWO64: int := 0x1_0000_0000_0000_0000

  /** Names in use before the counter is set back to zero. */
  const PERIOD: nat := TWO64 - 16

  /** Conversion of a 64-bit pattern to a signed LONG64. */
  function Long64(x: int): int {
    if x >= TWO63 then x - TWO64 else x
  }

  /** The bit pattern of a LONG64 as an unsigned number. */
  function Unsigned(x: int): int {
    if x < 0 then x + TWO64 else x
  }

  class Globals {
    var id: int

    /** The driver starts at a random ULONG. */
    constructor (seed: nat)
      requires seed < 0x1_0000_0000
      ensures id == Long64(Issued(seed))
    {
      id := seed;
    }

    /** `calls` says how often the counter has been used; the state then has this closed form. */
    method NextId(ghost seed: nat, ghost calls: nat) returns (newid: int)
      requires id == Long64(Issued(seed + calls))
      modifies this
      ensures Unsigned(newid) == Name(seed + calls)
      ensures id == Long64(Issued(seed + calls + 1))
    {
      IssuedNext(seed + calls);
      id := Long64(id + 1);
      newid := id;
      if Unsigned(newid) - Unsigned(newid) % 16 >= 0xFFFF_FFFF_FFFF_FFF0 {
        id := 0;
      }
    }
  }

  /** The counter `n` uses after it stood at zero. */
  function Issued(n: nat): nat {
    n % PERIOD
  }

  lemma IssuedNext(n: nat)
    ensures Issued(n) < PERIOD
    ensures Issued(n + 1) == if Issued(n) == PERIOD - 1 then 0 else Issued(n) + 1
  {
    var q := n / PERIOD;
    assert n == q * PERIOD + n % PERIOD;
    if n % PERIOD == PERIOD - 1 {
      assert n + 1 == (q + 1) * PERIOD;
    }
  }

  /** The name handed out by use `n`; a counter that starts at a seed begins with that use. */
  function Name(n: nat): nat {
    n % PERIOD + 1
  }

  /** Two uses get the same name exactly when they lie a whole number of periods apart. */
  lemma NamesRepeatIff(i: nat, j: nat)
    requires i <= j
    ensures Name(i) == Name(j) <==> (j - i) % PERIOD == 0
  {
    var a, b := i / PERIOD, j / PERIOD;
    assert i == a * PERIOD + i % PERIOD && j == b * PERIOD + j % PERIOD;
    if Name(i) == Name(j) {
      assert j - i == (b - a) * PERIOD;
    }
  }

  /** Of as many uses in a row as the counter has names, every one gets a name of its own. */
  lemma NamesDistinct(seed: nat, i: nat, j: nat)
    requires i < PERIOD && j < PERIOD
    ensures Name(seed + i) == Name(seed + j) <==> i == j
  {
    NamesRepeatIff(seed + if i <= j then i else j, seed + if i <= j then j else i);
  }
}
