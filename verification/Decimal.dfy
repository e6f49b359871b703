// Decimal numerals as template strings print them, and a reader for them.
module Decimal {
  import opened Wrappers

  function Digit(d: nat): char
    requires d < 10
  {
    "0123456789"[d]
  }

  predicate IsDigit(c: char) { '0' <= c <= '9' }

  function DigitValue(c: char): nat
    requires IsDigit(c)
  {
    c as int - '0' as int
  }

  function Show(n: nat): string {
    if n < 10 then [Digit(n)] else Show(n / 10) + [Digit(n % 10)]
  }

  // Reads digits greedily, continuing from the value read so far.
  function ReadOn(s: string, sofar: nat): (nat, string) {
    if s != [] && IsDigit(s[0]) then ReadOn(s[1..], 10 * sofar + DigitValue(s[0])) else (sofar, s)
  }

  // A number and what follows it; none where the text does not start with a digit.
  function Read(s: string): Option<(nat, string)> {
    if s != [] && IsDigit(s[0]) then Some(ReadOn(s, 0)) else None
  }

  lemma {:induction false} ShowDigits(n: nat)
    ensures Show(n) != [] && forall i | 0 <= i < |Show(n)| :: IsDigit(Show(n)[i])
  {
    if n >= 10 { ShowDigits(n / 10); }
  }

  lemma Horner(scale: nat, sofar: nat, n: nat)
    ensures 10 * (scale * sofar + n / 10) + n % 10 == (10 * scale) * sofar + n
  {
    assert 10 * (scale * sofar) == (10 * scale) * sofar;
  }

  lemma {:induction false} ReadOnShow(n: nat, rest: string, sofar: nat) returns (scale: nat)
    ensures ReadOn(Show(n) + rest, sofar) == ReadOn(rest, scale * sofar + n)
  {
    if n < 10 {
      scale := 10;
      assert (Show(n) + rest)[1..] == rest;
    } else {
      var tail := [Digit(n % 10)] + rest;
      var s := ReadOnShow(n / 10, tail, sofar);
      assert Show(n) + rest == Show(n / 10) + tail;
      assert tail[1..] == rest;
      scale := 10 * s;
      Horner(s, sofar, n);
    }
  }

  // Reading undoes showing, whatever follows the number, as long as that is no digit.
  lemma ReadShow(n: nat, rest: string)
    requires rest == [] || !IsDigit(rest[0])
    ensures Read(Show(n) + rest) == Some((n, rest))
  {
    ShowDigits(n);
    var _ := ReadOnShow(n, rest, 0);
    assert (Show(n) + rest)[0] == Show(n)[0];
  }
}
