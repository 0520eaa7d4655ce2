/**
 * Decimal text conversions used by the packet codecs: Go's `strconv.Itoa`,
 * the zero padding of `fmt.Sprintf("%0*s", w, s)` and `strconv.Atoi`.
 */
module Decimal {
  import opened Wrappers

  predicate IsDigit(c: char) { '0' <= c <= '9' }

  predicate AllDigits(s: string) { forall i :: 0 <= i < |s| ==> IsDigit(s[i]) }

  function DigitChar(d: int): (c: char)
    requires 0 <= d < 10
    ensures IsDigit(c)
  {
    ('0' as int + d) as char
  }

  function DigitValue(c: char): int
    requires IsDigit(c)
  {
    c as int - '0' as int
  }

  function Pow10(k: nat): nat
  {
    if k == 0 then 1 else 10 * Pow10(k - 1)
  }

  /** The shortest decimal spelling of a natural number, most significant digit first. */
  function NatDigits(n: nat): (s: string)
    ensures |s| >= 1 && AllDigits(s)
  {
    if n < 10 then [DigitChar(n)] else NatDigits(n / 10) + [DigitChar(n % 10)]
  }

  /** `strconv.Itoa`: a minus sign for negative numbers, then the digits. */
  function Itoa(n: int): string
  {
    if n < 0 then "-" + NatDigits(-n) else NatDigits(n)
  }

  function Zeros(k: nat): (z: string)
    ensures |z| == k && forall i :: 0 <= i < k ==> z[i] == '0'
  {
    seq(k, _ => '0')
  }

  /**
   * `fmt.Sprintf("%0*s", width, s)`: the string left-padded with '0' up to
   * `width` characters; a longer string is kept whole.
   */
  function PadZero(s: string, width: int): string
  {
    if |s| >= width then s else Zeros(width - |s|) + s
  }

  /** The value of a string of digits, most significant first. */
  function DigitsValue(s: string): nat
    requires AllDigits(s)
  {
    if s == [] then 0 else DigitsValue(s[..|s| - 1]) * 10 + DigitValue(s[|s| - 1])
  }

  datatype NumError = SyntaxError

  /**
   * `strconv.Atoi` on a string shorter than 19 characters (Go's fast path,
   * where no overflow can occur): an optional '+' or '-', then at least one
   * digit and nothing else.
   */
  function Atoi(s: string): Result<int, NumError>
    requires |s| < 19
  {
    if |s| == 0 then Failure(SyntaxError)
    else
      var body := if s[0] == '-' || s[0] == '+' then s[1..] else s;
      if |body| == 0 || !AllDigits(body) then Failure(SyntaxError)
      else
        var magnitude: int := DigitsValue(body);
        Success(if s[0] == '-' then -magnitude else magnitude)
  }

  /** The five-character wire spelling of a header field: `%0*s` with width 5 of `Itoa(v)`. */
  function Field(v: int): string
  {
    PadZero(Itoa(v), 5)
  }

  predicate FitsField(v: int) { 0 <= v <= 99999 }

  lemma {:induction false} DigitsValueOfNatDigits(n: nat)
    ensures DigitsValue(NatDigits(n)) == n
  {
    var s := NatDigits(n);
    if n >= 10 {
      DigitsValueOfNatDigits(n / 10);
      assert s[..|s| - 1] == NatDigits(n / 10);
    }
  }

  lemma {:induction false} NatDigitsLength(n: nat, k: nat)
    requires k >= 1
    ensures |NatDigits(n)| <= k <==> n < Pow10(k)
  {
    if n >= 10 {
      if k == 1 {
        assert Pow10(1) == 10;
      } else {
        NatDigitsLength(n / 10, k - 1);
      }
    } else {
      assert Pow10(k) >= 10 by { Pow10AtLeastTen(k); }
    }
  }

  lemma {:induction false} Pow10AtLeastTen(k: nat)
    requires k >= 1
    ensures Pow10(k) >= 10
  {
    if k > 1 { Pow10AtLeastTen(k - 1); }
  }

  /** Leading zeros do not change the value of a digit string. */
  lemma {:induction false} LeadingZeros(k: nat, s: string)
    requires AllDigits(s)
    ensures AllDigits(Zeros(k) + s) && DigitsValue(Zeros(k) + s) == DigitsValue(s)
  {
    var t := Zeros(k) + s;
    if s == [] {
      assert t == Zeros(k);
      AllZeros(k);
    } else {
      var s' := s[..|s| - 1];
      LeadingZeros(k, s');
      assert t[..|t| - 1] == Zeros(k) + s';
    }
  }

  lemma {:induction false} AllZeros(k: nat)
    ensures AllDigits(Zeros(k)) && DigitsValue(Zeros(k)) == 0
  {
    if k > 0 {
      AllZeros(k - 1);
      assert Zeros(k)[..k - 1] == Zeros(k - 1);
    }
  }

  /** A field value in 0..99999 takes exactly five characters on the wire, and `Atoi` reads it back. */
  lemma FieldRoundTrip(v: int)
    requires FitsField(v)
    ensures |Field(v)| == 5 && AllDigits(Field(v))
    ensures Atoi(Field(v)) == Success(v)
  {
    var d := NatDigits(v);
    NatDigitsLength(v, 5);
    assert Pow10(5) == 100000;
    assert Field(v) == Zeros(5 - |d|) + d;
    assert |Field(v)| == 5;
    LeadingZeros(5 - |d|, d);
    DigitsValueOfNatDigits(v);
  }

  /** `%0*s` with width 5 never produces fewer than five characters. */
  lemma FieldAtLeastFive(v: int)
    ensures |Field(v)| >= 5
  {
    var d := Itoa(v);
    if |d| < 5 {
      assert Field(v) == Zeros(5 - |d|) + d;
    }
  }

  /** Any value whose decimal spelling is at most five characters is encoded in exactly five. */
  lemma FieldWidth(v: int)
    requires -9999 <= v <= 99999
    ensures |Field(v)| == 5
  {
    if v < 0 {
      NatDigitsLength(-v, 4);
      assert Pow10(4) == 10000;
    } else {
      NatDigitsLength(v, 5);
      assert Pow10(5) == 100000;
    }
  }

  /** `strconv.Atoi` reads back whatever `strconv.Itoa` writes, sign included. */
  lemma ItoaRoundTrip(n: int)
    requires |Itoa(n)| < 19
    ensures Atoi(Itoa(n)) == Success(n)
  {
    if n < 0 {
      assert Itoa(n)[1..] == NatDigits(-n);
      DigitsValueOfNatDigits(-n);
    } else {
      DigitsValueOfNatDigits(n);
    }
  }

  /**
   * The decimal spelling takes at most five characters exactly for
   * -9999 .. 99999, and exactly five for the five-digit naturals and the
   * four-digit negatives.
   */
  lemma ItoaWidth(n: int)
    ensures |Itoa(n)| <= 5 <==> -9999 <= n <= 99999
    ensures |Itoa(n)| == 5 <==> 10000 <= n <= 99999 || -9999 <= n <= -1000
  {
    assert Pow10(3) == 1000 && Pow10(4) == 10000 && Pow10(5) == 100000;
    if n < 0 {
      NatDigitsLength(-n, 3);
      NatDigitsLength(-n, 4);
    } else {
      NatDigitsLength(n, 4);
      NatDigitsLength(n, 5);
    }
  }
}
