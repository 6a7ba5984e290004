// Decimal digit strings and the numbers they name.
module Digits {
  import opened Arithmetic

  predicate IsDigit(c: char) {
    '0' <= c <= '9'
  }

  function Value(c: char): (d: nat)
    requires IsDigit(c)
    ensures d < 10
  {
    c as int - '0' as int
  }

  function Digit(d: nat): (c: char)
    requires d < 10
    ensures IsDigit(c) && Value(c) == d
  {
    ('0' as int + d) as char
  }

  predicate AllDigits(s: string) {
    forall i :: 0 <= i < |s| ==> IsDigit(s[i])
  }

  function Number(s: string): nat
    requires AllDigits(s)
  {
    if s == "" then 0 else 10 * Number(s[..|s| - 1]) + Value(s[|s| - 1])
  }

  // n in decimal, without leading zeros.
  function Print(n: nat): (s: string)
    ensures AllDigits(s) && s != ""
  {
    if n < 10 then [Digit(n)] else Print(n / 10) + [Digit(n % 10)]
  }

  // The low `width` digits of n, leading zeros included.
  function Padded(width: nat, n: nat): (s: string)
    ensures AllDigits(s) && |s| == width
  {
    if width == 0 then "" else Padded(width - 1, n / 10) + [Digit(n % 10)]
  }

  function Strip(s: string): (r: string)
    ensures |r| <= |s| && r == s[..|r|]
    ensures AllDigits(s) ==> AllDigits(r)
    ensures r != "" ==> r[|r| - 1] != '0'
  {
    if s != "" && s[|s| - 1] == '0' then Strip(s[..|s| - 1]) else s
  }

  function Zeros(n: nat): (s: string)
    ensures |s| == n && AllDigits(s)
  {
    seq(n, i => '0')
  }

  lemma NumberSnoc(s: string, c: char)
    requires AllDigits(s) && IsDigit(c)
    ensures AllDigits(s + [c]) && Number(s + [c]) == 10 * Number(s) + Value(c)
  {
    assert (s + [c])[..|s|] == s;
  }

  lemma {:induction false} NumberOfPrint(n: nat)
    ensures Number(Print(n)) == n && (n > 0 ==> Print(n)[0] != '0')
    ensures n == 0 ==> Print(n) == "0"
  {
    if n >= 10 {
      NumberOfPrint(n / 10);
      NumberSnoc(Print(n / 10), Digit(n % 10));
    } else {
      NumberSnoc("", Digit(n));
    }
  }

  lemma {:induction false} PrintOfNumber(s: string)
    requires AllDigits(s) && s != "" && (s[0] != '0' || |s| == 1)
    ensures Print(Number(s)) == s
  {
    var s0, c := s[..|s| - 1], s[|s| - 1];
    assert s == s0 + [c] && Digit(Value(c)) == c;
    if |s| > 1 {
      PrintOfNumber(s0);
      NumberPositive(s0);
    }
  }

  lemma {:induction false} NumberPositive(s: string)
    requires AllDigits(s) && s != "" && s[0] != '0'
    ensures Number(s) > 0
  {
    if |s| > 1 {
      NumberPositive(s[..|s| - 1]);
    }
  }

  lemma {:induction false} NumberBelow(s: string)
    requires AllDigits(s)
    ensures Number(s) < Pow(10, |s|)
  {
    if s != "" {
      NumberBelow(s[..|s| - 1]);
    }
  }

  lemma {:induction false} NumberAtLeast(s: string)
    requires AllDigits(s) && s != "" && s[0] != '0'
    ensures Number(s) >= Pow(10, |s| - 1)
  {
    if |s| > 1 {
      NumberAtLeast(s[..|s| - 1]);
      assert Pow(10, |s| - 1) == 10 * Pow(10, |s| - 2);
    } else {
      NumberPositive(s);
    }
  }

  lemma {:induction false} NumberOfPadded(width: nat, n: nat)
    requires n < Pow(10, width)
    ensures Number(Padded(width, n)) == n
  {
    if width > 0 {
      NumberOfPadded(width - 1, n / 10);
      NumberSnoc(Padded(width - 1, n / 10), Digit(n % 10));
    }
  }

  lemma {:induction false} PaddedOfNumber(s: string)
    requires AllDigits(s)
    ensures Padded(|s|, Number(s)) == s
  {
    if s != "" {
      var s0, c := s[..|s| - 1], s[|s| - 1];
      PaddedOfNumber(s0);
      var n, d := Number(s0), Value(c);
      assert s == s0 + [c] && Digit(d) == c;
      assert Number(s) == 10 * n + d;
      QuotientUnique(10 * n + d, 10, n);
    }
  }

  lemma {:induction false} NumberOfZeros(s: string, n: nat)
    requires AllDigits(s)
    ensures AllDigits(s + Zeros(n)) && Number(s + Zeros(n)) == Number(s) * Pow(10, n)
  {
    if n > 0 {
      NumberOfZeros(s, n - 1);
      assert s + Zeros(n) == s + Zeros(n - 1) + ['0'];
      NumberSnoc(s + Zeros(n - 1), '0');
      SplitFactor(Number(s), Pow(10, n), 10, Pow(10, n - 1));
    } else {
      assert s + Zeros(0) == s;
    }
  }

  lemma {:induction false} StripZeros(s: string)
    ensures s == Strip(s) + Zeros(|s| - |Strip(s)|)
  {
    if s != "" && s[|s| - 1] == '0' {
      StripZeros(s[..|s| - 1]);
      var z := |s| - 1 - |Strip(s)|;
      assert Zeros(z + 1) == Zeros(z) + ['0'];
      assert s == s[..|s| - 1] + ['0'];
    } else {
      assert Zeros(0) == "";
    }
  }

  lemma {:induction false} StripPadded(s: string, n: nat)
    requires s != "" && s[|s| - 1] != '0'
    ensures Strip(s + Zeros(n)) == s
  {
    if n > 0 {
      StripPadded(s, n - 1);
      var t := s + Zeros(n);
      assert t[..|t| - 1] == s + Zeros(n - 1) && t[|t| - 1] == '0';
    } else {
      assert s + Zeros(0) == s;
    }
  }
}
