/** Numbers written out in decimal, and read back as atoi does. */
module Decimals {
  predicate IsDigit(c: char) {
    '0' <= c <= '9'
  }

  function Decimal(n: nat): (r: string)
    ensures r != [] && forall i :: 0 <= i < |r| ==> IsDigit(r[i])
  {
    (if n < 10 then [] else Decimal(n / 10)) + [('0' as int + n % 10) as char]
  }

  /** The loop of atoi over the digits at the front. */
  function Atoi(s: string, sofar: nat): nat {
    if s == [] || !IsDigit(s[0]) then sofar else Atoi(s[1..], 10 * sofar + (s[0] as int - '0' as int))
  }

  lemma {:induction false} AtoiOfDecimal(n: nat, rest: string)
    ensures Atoi(Decimal(n) + rest, 0) == Atoi(rest, n)
  {
    var digit := [('0' as int + n % 10) as char];
    if n < 10 {
      assert (digit + rest)[1..] == rest && Decimal(n) == digit;
    } else {
      AtoiOfDecimal(n / 10, digit + rest);
      assert Decimal(n) + rest == Decimal(n / 10) + (digit + rest);
      assert (digit + rest)[1..] == rest;
    }
  }

  lemma DecimalInjective(m: nat, n: nat)
    requires Decimal(m) == Decimal(n)
    ensures m == n
  {
    AtoiOfDecimal(m, []);
    AtoiOfDecimal(n, []);
  }
}
