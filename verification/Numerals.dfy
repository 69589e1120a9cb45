/** Natural numbers as the decimal strings stored in snapshot files. */
module Numerals {

  predicate IsDigit(c: char) {
    '0' <= c <= '9'
  }

  predicate IsNumeral(s: string) {
    s != [] && forall i :: 0 <= i < |s| ==> IsDigit(s[i])
  }

  function Str(n: nat): (s: string)
    ensures IsNumeral(s)
  {
    if n < 10 then [('0' as int + n) as char] else Str(n / 10) + [('0' as int + n % 10) as char]
  }

  function Int(s: string): nat
    requires IsNumeral(s)
  {
    var last := s[|s| - 1] as int - '0' as int;
    if |s| == 1 then last else Int(s[..|s| - 1]) * 10 + last
  }

  /** Reading a printed number gives it back. */
  lemma {:induction false} IntOfStr(n: nat)
    ensures Int(Str(n)) == n
  {
    if n >= 10 {
      IntOfStr(n / 10);
      assert Str(n)[..|Str(n)| - 1] == Str(n / 10);
    }
  }
}
