/** Decimal conversion as the address parser uses it: Go's `strconv.Atoi`
    (on a 64-bit platform) and, for rendering canonical addresses, its
    inverse on natural numbers. */
module Strconv {
  import opened Wrappers

  /** The smallest and largest values of Go's 64-bit `int`. */
  const MinInt: int := -0x8000_0000_0000_0000
  const MaxInt: int := 0x7fff_ffff_ffff_ffff

  predicate IsDigit(c: char) {
    '0' <= c <= '9'
  }

  predicate AllDigits(s: string) {
    forall i | 0 <= i < |s| :: IsDigit(s[i])
  }

  function DigitValue(c: char): (d: nat)
    requires IsDigit(c)
    ensures d < 10
  {
    c as int - '0' as int
  }

  function DigitChar(d: nat): (c: char)
    requires d < 10
    ensures IsDigit(c) && DigitValue(c) == d
  {
    ('0' as int + d) as char
  }

  /** The value of a string of decimal digits, most significant first. */
  function DecimalValue(s: string): nat
    requires AllDigits(s)
  {
    if s == [] then 0 else DecimalValue(s[..|s| - 1]) * 10 + DigitValue(s[|s| - 1])
  }

  /** `strconv.Atoi`: an optional `+` or `-`, then one or more ASCII digits,
      and the value must fit Go's 64-bit `int`; anything else is a syntax or
      range error. */
  function Atoi(s: string): (r: Option<int>)
    ensures r.Some? ==> MinInt <= r.value <= MaxInt
    ensures r.Some? ==> |s| > 0 && (IsDigit(s[0]) || s[0] == '+' || s[0] == '-')
    ensures |s| > 0 && IsDigit(s[0]) && r.Some? ==> AllDigits(s) && r.value == DecimalValue(s)
    ensures r.Some? && |s| > 0 && (s[0] == '+' || s[0] == '-') ==>
      |s| > 1 && AllDigits(s[1..]) && r.value == if s[0] == '-' then -(DecimalValue(s[1..]) as int) else DecimalValue(s[1..]) as int
    ensures |s| > 0 && AllDigits(s) && DecimalValue(s) <= MaxInt ==> r == Some(DecimalValue(s))
  {
    var signed := |s| > 0 && (s[0] == '+' || s[0] == '-');
    var digits := if signed then s[1..] else s;
    if digits == [] || !AllDigits(digits) then None
    else
      var n: int := DecimalValue(digits);
      var v: int := if signed && s[0] == '-' then -n else n;
      if MinInt <= v <= MaxInt then Some(v) else None
  }

  /** The shortest decimal rendering of `n` (what `strconv.Itoa` prints for a
      non-negative number). */
  function Itoa(n: nat): (s: string)
    ensures |s| > 0 && AllDigits(s) && DecimalValue(s) == n
    ensures IsDigit(s[0])
    decreases n
  {
    if n < 10 then [DigitChar(n)]
    else
      var prefix := Itoa(n / 10);
      var s := prefix + [DigitChar(n % 10)];
      assert s[..|s| - 1] == prefix;
      s
  }

  /** Reading back a rendered number gives the number. */
  lemma AtoiItoa(n: nat)
    requires n <= MaxInt
    ensures Atoi(Itoa(n)) == Some(n)
  {
  }

  function Pow10(k: nat): (p: nat)
    ensures p > 0
  {
    if k == 0 then 1 else 10 * Pow10(k - 1)
  }

  /** The rendering has at most `k` digits exactly below `10^k`. */
  lemma {:induction false} ItoaLength(n: nat, k: nat)
    requires k > 0
    ensures |Itoa(n)| <= k <==> n < Pow10(k)
    decreases n
  {
    if n >= 10 {
      if k == 1 {
        assert |Itoa(n)| == |Itoa(n / 10)| + 1;
      } else {
        ItoaLength(n / 10, k - 1);
        assert |Itoa(n)| == |Itoa(n / 10)| + 1;
        assert n / 10 < Pow10(k - 1) <==> n < 10 * Pow10(k - 1);
      }
    } else {
      assert Pow10(k) >= 10 by { Pow10AtLeastTen(k); }
    }
  }

  lemma {:induction false} Pow10AtLeastTen(k: nat)
    requires k > 0
    ensures Pow10(k) >= 10
  {
    if k > 1 {
      Pow10AtLeastTen(k - 1);
    }
  }

  /** A sign is accepted, and a negative result is kept as such. */
  lemma AtoiSigned()
    ensures Atoi("-1") == Some(-1)
    ensures Atoi("+7") == Some(7)
    ensures Atoi("-") == None && Atoi("") == None && Atoi("4x") == None
  {
    assert DecimalValue("1") == 1;
    assert DecimalValue("7") == 7;
  }
}
