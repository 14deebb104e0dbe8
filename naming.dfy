/**
 * Small value rules of the collection: the name given to a resource added without
 * one, and the Java narrowing of a 64-bit document id to a 32-bit resource id.
 */
module Naming {

  function Digit(d: nat): (c: char)
    requires d < 10
    ensures '0' <= c <= '9'
  {
    "0123456789"[d]
  }

  /** The decimal spelling of `n`, without leading zeros. */
  function DecimalString(n: nat): (s: string)
    ensures |s| >= 1 && (n >= 10 ==> |s| >= 2)
    ensures forall i :: 0 <= i < |s| ==> '0' <= s[i] <= '9'
    ensures s[|s| - 1] == Digit(n % 10)
  {
    if n < 10 then [Digit(n)] else DecimalString(n / 10) + [Digit(n % 10)]
  }

  lemma DigitInjective(a: nat, b: nat)
    requires a < 10 && b < 10 && Digit(a) == Digit(b)
    ensures a == b
  {
  }

  /** Different numbers are spelled differently. */
  lemma {:induction false} DecimalStringInjective(a: nat, b: nat)
    requires DecimalString(a) == DecimalString(b)
    ensures a == b
  {
    if a < 10 || b < 10 {
      SingleDigitSpelling(a, b);
    } else {
      DecimalStringPrefix(a);
      DecimalStringPrefix(b);
      DecimalStringInjective(a / 10, b / 10);
      DigitInjective(a % 10, b % 10);
      QuotientAndDigitDetermine(a, b);
    }
  }

  /** A number spelled with one digit is spelled differently from every other number. */
  lemma SingleDigitSpelling(a: nat, b: nat)
    requires a < 10 || b < 10
    requires DecimalString(a) == DecimalString(b)
    ensures a == b
  {
    assert |DecimalString(a)| == |DecimalString(b)| == 1;
    DigitInjective(a % 10, b % 10);
  }

  /** Dropping the last digit of a number's spelling spells its quotient by ten. */
  lemma DecimalStringPrefix(n: nat)
    requires n >= 10
    ensures var s := DecimalString(n); s[..|s| - 1] == DecimalString(n / 10)
  {
    var s := DecimalString(n);
    assert s == DecimalString(n / 10) + [Digit(n % 10)];
  }

  lemma QuotientAndDigitDetermine(a: nat, b: nat)
    requires a / 10 == b / 10 && a % 10 == b % 10
    ensures a == b
  {
    assert a == 10 * (a / 10) + a % 10;
    assert b == 10 * (b / 10) + b % 10;
  }

  /** The name `add` gives a new resource when the collection already holds `count`. */
  function NewResourceName(count: nat): (name: string)
    ensures |name| > 8 && name[..8] == "resource"
    ensures forall i :: 8 <= i < |name| ==> '0' <= name[i] <= '9'
  {
    "resource" + DecimalString(count + 1)
  }

  /** Resource names built from different counts differ. */
  lemma NewResourceNameInjective(a: nat, b: nat)
    ensures NewResourceName(a) == NewResourceName(b) ==> a == b
  {
    if NewResourceName(a) == NewResourceName(b) {
      var da, db := DecimalString(a + 1), DecimalString(b + 1);
      assert NewResourceName(a)[8..] == ("resource" + da)[8..] == da;
      assert NewResourceName(b)[8..] == ("resource" + db)[8..] == db;
      DecimalStringInjective(a + 1, b + 1);
    }
  }

  /**
   * The name is derived from the count alone, so once a resource has been removed the
   * next name can be one still in use: with "resource2" the only resource left, the
   * name chosen for the next one is "resource2" again.
   */
  lemma NewResourceNameMayBeTaken(names: seq<string>)
    requires names == ["resource2"]
    ensures NewResourceName(|names|) in names
  {
    assert Digit(2) == '2';
    assert DecimalString(2) == "2";
    assert NewResourceName(|names|) == "resource" + "2" == names[0];
  }

  const TwoTo31: int := 0x8000_0000
  const TwoTo32: int := 0x1_0000_0000

  /** Java's (int) cast of a long: keep the low 32 bits, read them as two's complement. */
  function ToInt32(x: int): (r: int)
    ensures -TwoTo31 <= r < TwoTo31
    ensures (r - x) % TwoTo32 == 0
    ensures -TwoTo31 <= x < TwoTo31 ==> r == x
  {
    var low := x % TwoTo32;
    if low >= TwoTo31 then low - TwoTo32 else low
  }

  /** A non-negative id of 2^32 or more reaches the same resource id as a smaller one. */
  lemma ToInt32Aliases(k: int)
    requires 0 <= k < TwoTo31
    ensures ToInt32(k + TwoTo32) == k
  {
  }
}
