/** `formatTime` of the Dobble page: milliseconds shown as seconds and
    hundredths, `S.dd`, with JavaScript's integer-to-decimal conversion. */
module TimeFormat {
  import opened ModArith

  predicate IsDigit(c: char)
  {
    '0' <= c <= '9'
  }

  predicate IsDigits(s: string)
  {
    forall i :: 0 <= i < |s| ==> IsDigit(s[i])
  }

  function DigitChar(d: int): (c: char)
    requires 0 <= d < 10
    ensures IsDigit(c)
  {
    ('0' as int + d) as char
  }

  function DigitValue(c: char): (d: int)
    requires IsDigit(c)
    ensures 0 <= d < 10 && DigitChar(d) == c
  {
    c as int - '0' as int
  }

  /** The decimal numeral of `n`, without leading zeros. */
  function NatToString(n: nat): (s: string)
    ensures |s| >= 1 && IsDigits(s)
    ensures s[0] == '0' ==> n == 0
    decreases n
  {
    if n < 10 then [DigitChar(n)] else NatToString(n / 10) + [DigitChar(n % 10)]
  }

  /** The value of a decimal numeral. */
  function ParseDigits(s: string): nat
    requires IsDigits(s)
    decreases |s|
  {
    if |s| == 0 then 0 else ParseDigits(s[..|s| - 1]) * 10 + DigitValue(s[|s| - 1])
  }

  /** Reading a numeral back gives the number it was written from. */
  lemma {:induction false} ParseNatToString(n: nat)
    ensures ParseDigits(NatToString(n)) == n
    decreases n
  {
    if n >= 10 {
      ParseNatToString(n / 10);
      var s := NatToString(n);
      assert s[..|s| - 1] == NatToString(n / 10);
    }
  }

  /** `String(i)` for an integer `i`: a minus sign before negative values. */
  function IntToString(i: int): (s: string)
    ensures i >= 0 ==> s == NatToString(i)
    ensures i < 0 ==> s == "-" + NatToString(-i)
  {
    if i < 0 then "-" + NatToString(-i) else NatToString(i)
  }

  /** The printed integer reads back: an optional minus sign, then the
      numeral of the magnitude, without leading zeros. */
  lemma IntToStringReadsBack(i: int)
    ensures var s := IntToString(i);
            && (i >= 0 ==> IsDigits(s) && ParseDigits(s) == i)
            && (i < 0 ==> |s| >= 2 && s[0] == '-' && s[1] != '0' &&
                          IsDigits(s[1..]) && ParseDigits(s[1..]) == -i)
  {
    if i >= 0 {
      ParseNatToString(i);
    } else {
      ParseNatToString(-i);
      assert IntToString(i)[1..] == NatToString(-i);
    }
  }

  /** `formatTime(milliseconds)`: whole seconds (`Math.floor`), a point, a
      padding `0` when the truncated remainder is below 100, then the
      remainder's tens (`Math.floor(ms / 10)`). For a non-negative reading it
      is the seconds, a point and exactly two digits of hundredths. */
  function FormatTime(milliseconds: int): (s: string)
    ensures milliseconds >= 0 ==>
              var c := (milliseconds % 1000) / 10;
              s == NatToString(milliseconds / 1000) + "." + [DigitChar(c / 10), DigitChar(c % 10)]
  {
    var seconds := milliseconds / 1000;
    var ms := JsRem(milliseconds, 1000);
    TwoDigits(milliseconds, ms);
    IntToString(seconds) + "." + (if ms < 100 then "0" else "") + IntToString(ms / 10)
  }

  lemma TwoDigits(milliseconds: int, ms: int)
    requires ms == JsRem(milliseconds, 1000)
    ensures milliseconds >= 0 ==>
              var c := (milliseconds % 1000) / 10;
              (if ms < 100 then "0" else "") + IntToString(ms / 10) == [DigitChar(c / 10), DigitChar(c % 10)]
  {
    if milliseconds < 0 {
      return;
    }
    CongSmallEq(ms, milliseconds % 1000, 1000) by {
      ModIsCong(milliseconds, 1000);
      CongTrans(ms, milliseconds, milliseconds % 1000, 1000) by {
        CongSymm(milliseconds, ms, 1000);
        CongSymm(milliseconds % 1000, milliseconds, 1000);
      }
    }
    var c := ms / 10;
    if c >= 10 {
      assert NatToString(c) == NatToString(c / 10) + [DigitChar(c % 10)];
    }
  }

  /** The formatted time reads back: the numeral before the point is the
      whole seconds and the two digits after it are the hundredths. */
  lemma FormatTimeReadsBack(milliseconds: int)
    requires milliseconds >= 0
    ensures var s := FormatTime(milliseconds);
            && |s| >= 4 && s[|s| - 3] == '.'
            && IsDigits(s[..|s| - 3]) && ParseDigits(s[..|s| - 3]) == milliseconds / 1000
            && IsDigits(s[|s| - 2..]) && ParseDigits(s[|s| - 2..]) == (milliseconds % 1000) / 10
  {
    var c := (milliseconds % 1000) / 10;
    var head := NatToString(milliseconds / 1000);
    var tail := [DigitChar(c / 10), DigitChar(c % 10)];
    ParseNatToString(milliseconds / 1000);
    ParseTwoDigits(c);
    Pieces(head, tail);
  }

  lemma ParseTwoDigits(c: int)
    requires 0 <= c < 100
    ensures ParseDigits([DigitChar(c / 10), DigitChar(c % 10)]) == c
  {
    var tail := [DigitChar(c / 10), DigitChar(c % 10)];
    var first := [DigitChar(c / 10)];
    assert tail[..1] == first && first[..0] == [];
    assert ParseDigits(first) == ParseDigits([]) * 10 + DigitValue(first[0]);
    assert ParseDigits(tail) == ParseDigits(first) * 10 + DigitValue(tail[1]);
    assert DigitValue(DigitChar(c / 10)) == c / 10;
    assert DigitValue(DigitChar(c % 10)) == c % 10;
  }

  lemma Pieces(head: string, tail: string)
    requires |head| >= 1 && |tail| == 2
    ensures var s := head + "." + tail;
            && |s| >= 4 && s[|s| - 3] == '.'
            && s[..|s| - 3] == head && s[|s| - 2..] == tail
  {
  }
}
