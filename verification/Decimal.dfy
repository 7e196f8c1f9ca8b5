/** Decimal rendering of numbers, as `format!("{n}")` produces it. */
module Decimal {
  function Digit(d: nat): char
    requires d < 10
  {
    "0123456789"[d]
  }

  predicate IsDigit(c: char) {
    '0' <= c <= '9'
  }

  function Show(n: nat): (s: string)
    ensures s != "" && forall i | 0 <= i < |s| :: IsDigit(s[i])
  {
    if n < 10 then [Digit(n)] else Show(n / 10) + [Digit(n % 10)]
  }

  function Read(s: string): int {
    if s == "" then 0 else Read(s[..|s| - 1]) * 10 + (s[|s| - 1] as int - '0' as int)
  }

  lemma {:induction false} ReadShow(n: nat)
    ensures Read(Show(n)) == n
  {
    if n < 10 {
      assert Show(n)[..0] == "";
    } else {
      ReadShow(n / 10);
      assert Show(n)[..|Show(n)| - 1] == Show(n / 10);
    }
  }

  lemma ShowInjective(m: nat, n: nat)
    ensures Show(m) == Show(n) <==> m == n
  {
    ReadShow(m);
    ReadShow(n);
  }

  lemma ShowExample()
    ensures Show(2) == "2" && Show(10) == "10" && Show(3000) == "3000" && Show(8080) == "8080"
  {
    assert Show(30) == "30" && Show(80) == "80";
    assert Show(300) == "300" && Show(808) == "808";
  }

  lemma {:induction false} ShowLengthGrows(m: nat, n: nat)
    requires m <= n
    ensures |Show(m)| <= |Show(n)|
  {
    if m >= 10 {
      ShowLengthGrows(m / 10, n / 10);
    }
  }
}
