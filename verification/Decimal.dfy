/** Numbers as JavaScript prints and reads them, and the order of strings by code unit. */
module Decimal {
  import opened Rows

  predicate IsDigit(c: char) {
    '0' <= c <= '9'
  }

  predicate AllDigits(s: string) {
    forall i :: 0 <= i < |s| ==> IsDigit(s[i])
  }

  function Digit(n: nat): (c: char)
    requires n < 10
    ensures IsDigit(c) && c as int - '0' as int == n
  {
    '0' + n as char
  }

  /** The number a string of digits stands for; none stand for 0, as in `Number('')`. */
  function Value(s: string): nat
    requires AllDigits(s)
  {
    if s == "" then 0 else 10 * Value(s[..|s| - 1]) + (s[|s| - 1] as int - '0' as int)
  }

  /** `String(n)` for a natural number. */
  function Digits(n: nat): (s: string)
    ensures s != "" && AllDigits(s)
    ensures |s| == 1 <==> n < 10
  {
    if n < 10 then [Digit(n)] else Digits(n / 10) + [Digit(n % 10)]
  }

  /** `String(n)`. */
  function Text(n: int): string {
    if n < 0 then "-" + Digits(-n) else Digits(n)
  }

  /** `padStart(2, '0')`. */
  function Pad2(s: string): string {
    if |s| == 0 then "00" else if |s| == 1 then "0" + s else s
  }

  /** `Number(s)` for digits with an optional minus sign; other spellings are None. */
  function Number(s: string): Option<int> {
    if AllDigits(s) then Some(Value(s))
    else if s[0] == '-' && |s| > 1 && AllDigits(s[1..]) then Some(0 - Value(s[1..]) as int)
    else None
  }

  lemma {:induction false} ValueOfDigits(n: nat)
    ensures Value(Digits(n)) == n
  {
    if n >= 10 {
      var s := Digits(n);
      assert s[..|s| - 1] == Digits(n / 10);
      ValueOfDigits(n / 10);
    }
  }

  lemma {:induction false} LeadingZero(s: string)
    requires AllDigits(s)
    ensures AllDigits("0" + s) && Value("0" + s) == Value(s)
  {
    if s != "" {
      assert ("0" + s)[..|s|] == "0" + s[..|s| - 1];
      LeadingZero(s[..|s| - 1]);
    }
  }

  lemma PaddedDigits(s: string)
    requires AllDigits(s) && s != ""
    ensures AllDigits(Pad2(s)) && Value(Pad2(s)) == Value(s)
  {
    LeadingZero(s);
  }

  lemma NumberOfMinus(digits: string)
    requires AllDigits(digits) && digits != ""
    ensures Number("-" + digits) == Some(0 - Value(digits))
  {
    var s := "-" + digits;
    assert s[1..] == digits && s[0] == '-' && !IsDigit(s[0]);
  }

  /** Reading back what was printed and padded. */
  lemma NumberOfText(n: int)
    ensures Number(Pad2(Text(n))) == Some(n)
  {
    if n < 0 {
      ValueOfDigits(-n);
      NumberOfMinus(Digits(-n));
      assert Pad2(Text(n)) == "-" + Digits(-n);
    } else {
      ValueOfDigits(n);
      PaddedDigits(Digits(n));
    }
  }

  lemma TwoDigits(s: string)
    requires |s| == 2 && AllDigits(s)
    ensures Value(s) == 10 * (s[0] as int - '0' as int) + (s[1] as int - '0' as int)
  {
    assert s[..1][..0] == "";
    assert Value(s[..1]) == s[0] as int - '0' as int;
  }

  /** Printing a number below 100 on two places gives back the two digits it was read from. */
  lemma Pad2OfTwoDigits(s: string)
    requires |s| == 2 && AllDigits(s)
    ensures Value(s) < 100 && Pad2(Text(Value(s))) == s
  {
    TwoDigits(s);
    var n := Value(s);
    if n < 10 {
      assert Pad2(Text(n)) == "0" + [Digit(n)];
    } else {
      assert Digits(n) == Digits(n / 10) + [Digit(n % 10)];
      assert Digits(n / 10) == [Digit(n / 10)];
    }
  }

  lemma TwoDigitText(n: nat)
    requires n < 100
    ensures |Pad2(Text(n))| == 2 && AllDigits(Pad2(Text(n))) && Value(Pad2(Text(n))) == n
  {
    NumberOfText(n);
    if n >= 10 {
      assert |Digits(n / 10)| == 1;
    }
  }

  lemma FourDigitLength(n: nat)
    ensures |Digits(n)| == 4 <==> 1000 <= n < 10000
  {
    if n >= 10 {
      assert |Digits(n)| == |Digits(n / 10)| + 1;
      if n >= 100 {
        assert |Digits(n / 10)| == |Digits(n / 100)| + 1 by {
          assert n / 10 / 10 == n / 100;
        }
        if n >= 1000 {
          assert |Digits(n / 100)| == |Digits(n / 1000)| + 1 by {
            assert n / 100 / 10 == n / 1000;
          }
        }
      }
    }
  }

  /** Digit strings of one length are told apart, and ordered, by their numbers. */
  lemma {:induction false} OrderOfDigits(a: string, b: string)
    requires |a| == |b| && AllDigits(a) && AllDigits(b)
    ensures a == b <==> Value(a) == Value(b)
    ensures Less(a, b) <==> Value(a) < Value(b)
  {
    if a != "" {
      var n := |a| - 1;
      OrderOfDigits(a[..n], b[..n]);
      assert a == a[..n] + [a[n]] && b == b[..n] + [b[n]];
      LessConcat(a[..n], [a[n]], b[..n], [b[n]]);
    }
  }

  /** The `<` of JavaScript strings. */
  predicate Less(a: string, b: string) {
    if a == "" || b == "" then a == "" && b != ""
    else a[0] < b[0] || (a[0] == b[0] && Less(a[1..], b[1..]))
  }

  lemma {:induction false} LessConcat(a: string, x: string, b: string, y: string)
    requires |a| == |b|
    ensures Less(a + x, b + y) <==> Less(a, b) || (a == b && Less(x, y))
  {
    if a == "" {
      assert a + x == x && b + y == y;
    } else {
      assert (a + x)[1..] == a[1..] + x && (b + y)[1..] == b[1..] + y;
      assert a == [a[0]] + a[1..] && b == [b[0]] + b[1..];
      LessConcat(a[1..], x, b[1..], y);
    }
  }
}
