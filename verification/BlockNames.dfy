/** The symbols of the JIT (tests/Main.cpp): block names are decimal renderings of addresses. */
module BlockNames {
  import opened Words

  function Digit(d: nat): char
    requires d < 10
  {
    "0123456789"[d]
  }

  /** `std::to_string` of an unsigned number. */
  function Decimal(n: nat): (s: string)
    ensures |s| >= 1
  {
    if n < 10 then [Digit(n)] else Decimal(n / 10) + [Digit(n % 10)]
  }

  function DigitValue(c: char): nat {
    if '0' <= c <= '9' then c as nat - '0' as nat else 0
  }

  lemma ValueOfDigit(d: nat)
    requires d < 10
    ensures DigitValue(Digit(d)) == d
  {
  }

  function Number(s: string): nat {
    if s == [] then 0 else 10 * Number(s[..|s| - 1]) + DigitValue(s[|s| - 1])
  }

  /** A rendering reads back as the number it was made from. */
  lemma {:induction false} NumberOfDecimal(n: nat)
    ensures Number(Decimal(n)) == n
  {
    hide Digit, DigitValue;
    ValueOfDigit(n % 10);
    if n < 10 {
      assert [Digit(n)][..0] == [];
    } else {
      NumberOfDecimal(n / 10);
      assert Decimal(n)[..|Decimal(n)| - 1] == Decimal(n / 10);
    }
  }

  /** A rendering consists of digits and has no leading zero, so it is the only such one. */
  lemma {:induction false} DecimalIsCanonical(n: nat)
    ensures forall i :: 0 <= i < |Decimal(n)| ==> '0' <= Decimal(n)[i] <= '9'
    ensures Decimal(n)[0] == '0' <==> n == 0
  {
    if n >= 10 {
      DecimalIsCanonical(n / 10);
    }
  }

  function BlockName(pc: Word): string {
    "block_" + Decimal(pc)
  }

  /** What Memory.ll defines. */
  const MEMORY_FUNCTIONS: set<string> := {"read8", "read16", "read32", "write8", "write16", "write32"}

  /** Different addresses have different block names, and none is the name of a memory function. */
  lemma BlockNamesDistinct(p: Word, q: Word)
    ensures BlockName(p) == BlockName(q) ==> p == q
    ensures BlockName(p) !in MEMORY_FUNCTIONS
    ensures "block_" <= BlockName(p) && Number(BlockName(p)[6..]) == p
  {
    assert BlockName(p)[6..] == Decimal(p) && BlockName(q)[6..] == Decimal(q);
    NumberOfDecimal(p);
    NumberOfDecimal(q);
    assert BlockName(p)[0] == 'b';
    assert forall name :: name in MEMORY_FUNCTIONS ==> name[0] != 'b';
  }
}
