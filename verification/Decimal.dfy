/** Decimal text, as printf's %PRIu64 and %PRIu32 write it. */
module Decimal {
  import opened Basics

  const SPACE: byte := 32
  const NEWLINE: byte := 10

  function Digits(n: nat): (r: Bytes) {
    if n < 10 then [48 + n] else Digits(n / 10) + [48 + n % 10]
  }

  predicate IsDigit(b: byte) { 48 <= b <= 57 }

  /** The number a string of digits denotes. */
  function Denotes(s: Bytes): int {
    if s == [] then 0 else Denotes(s[..|s| - 1]) * 10 + (s[|s| - 1] as int - 48)
  }

  lemma {:induction false} DigitsDenote(n: nat)
    ensures Digits(n) != []
    ensures forall i :: 0 <= i < |Digits(n)| ==> IsDigit(Digits(n)[i])
    ensures Denotes(Digits(n)) == n
  {
    if n >= 10 {
      DigitsDenote(n / 10);
      assert Digits(n)[..|Digits(n)| - 1] == Digits(n / 10);
    } else {
      assert Digits(n)[..0] == [];
    }
  }

  lemma {:induction false} DigitsLength(n: nat, k: nat)
    requires k > 0 && n < Pow(10, k)
    ensures |Digits(n)| <= k
    decreases k
  {
    assert Pow(10, k) == 10 * Pow(10, k - 1);
    if n >= 10 {
      DigitsLength(n / 10, k - 1);
    }
  }

  lemma PowersOfTen()
    ensures Pow(10, 10) == 10000000000
    ensures Pow(10, 20) == 100000000000000000000
  {
    assert Pow(10, 5) == 100000 by {
      assert Pow(10, 3) == 10 * Pow(10, 2) == 10 * (10 * Pow(10, 1));
      assert Pow(10, 5) == 10 * Pow(10, 4) == 10 * (10 * Pow(10, 3));
    }
    assert Pow(10, 10) == 10000000000 by {
      assert Pow(10, 7) == 10 * Pow(10, 6) == 10 * (10 * Pow(10, 5));
      assert Pow(10, 9) == 10 * Pow(10, 8) == 10 * (10 * Pow(10, 7));
    }
    assert Pow(10, 15) == 1000000000000000 by {
      assert Pow(10, 12) == 10 * Pow(10, 11) == 10 * (10 * Pow(10, 10));
      assert Pow(10, 14) == 10 * Pow(10, 13) == 10 * (10 * Pow(10, 12));
    }
    assert Pow(10, 20) == 100000000000000000000 by {
      assert Pow(10, 17) == 10 * Pow(10, 16) == 10 * (10 * Pow(10, 15));
      assert Pow(10, 19) == 10 * Pow(10, 18) == 10 * (10 * Pow(10, 17));
    }
  }

  lemma DecimalWidths(v: u64, t: u32)
    ensures |Digits(v)| <= 20
    ensures |Digits(t)| <= 10
  {
    PowersOfTen();
    DigitsLength(v, 20);
    DigitsLength(t, 10);
  }

  /** "<key> <value> <time>\n" */
  function Line(key: Bytes, value: u64, time: u32): Bytes {
    key + [SPACE] + Digits(value) + [SPACE] + Digits(time) + [NEWLINE]
  }
}
