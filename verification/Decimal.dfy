/** Decimal text of unsigned integers, as `to_string` writes it. */
module Decimal {
  function Digit(n: int): char
    requires 0 <= n < 10
  {
    ('0' as int + n) as char
  }

  function ToText(n: nat): (s: string)
    ensures s != []
  {
    if n < 10 then [Digit(n)] else ToText(n / 10) + [Digit(n % 10)]
  }

  /** The number a digit string stands for: each digit times its power of ten. */
  function Value(s: string): int {
    if s == [] then 0 else (s[0] as int - '0' as int) * Power(|s| - 1) + Value(s[1..])
  }

  function Power(n: nat): nat {
    if n == 0 then 1 else 10 * Power(n - 1)
  }

  lemma {:induction false} ValueSnoc(s: string, c: char)
    ensures Value(s + [c]) == 10 * Value(s) + (c as int - '0' as int)
  {
    if s == [] {
      assert Value([c]) == (c as int - '0' as int) * Power(0) + Value([]);
    } else {
      assert (s + [c])[1..] == s[1..] + [c];
      ValueSnoc(s[1..], c);
    }
  }

  /** The text stands for the number, without leading zeros. */
  lemma {:induction false} ReadBack(n: nat)
    ensures Value(ToText(n)) == n
    ensures n > 0 ==> ToText(n)[0] != '0'
  {
    if n >= 10 {
      ReadBack(n / 10);
      ValueSnoc(ToText(n / 10), Digit(n % 10));
    }
  }

  /** Amount texts match exactly when the amounts do. */
  lemma Injective(m: nat, n: nat)
    ensures ToText(m) == ToText(n) <==> m == n
  {
    ReadBack(m);
    ReadBack(n);
  }
}
