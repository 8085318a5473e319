/**
 * ExtractNumber: the number embedded in a file name. Every decimal digit of
 * the name is kept, left to right, across any non-digit gaps, and the digits
 * collected are handed to `int.Parse`. Only the ASCII digits '0'..'9' are
 * digits here.
 */
module DigitKey {
  import opened Wrappers
  import Int32

  /** Why `int.Parse` rejects the collected digits. */
  datatype ParseError =
    | NoDigits   // the name had no digit: int.Parse("") raises a FormatException
    | Overflow   // the digits spell a number above int.MaxValue: an OverflowException

  predicate IsDigit(c: char) {
    '0' <= c <= '9'
  }

  predicate AllDigits(s: string) {
    forall i :: 0 <= i < |s| ==> IsDigit(s[i])
  }

  predicate NoDigit(s: string) {
    forall i :: 0 <= i < |s| ==> !IsDigit(s[i])
  }

  function DigitValue(c: char): (d: nat)
    requires IsDigit(c)
    ensures d < 10
  {
    c as int - '0' as int
  }

  function DigitChar(d: nat): (c: char)
    requires d < 10
    ensures IsDigit(c) && DigitValue(c) == d
  {
    ('0' as int + d) as char
  }

  /** The digit characters of `s`, in the order they occur. */
  function Digits(s: string): (d: string)
    ensures AllDigits(d)
    ensures |d| <= |s|
    decreases |s|
  {
    if s == [] then []
    else Digits(s[..|s| - 1]) + (if IsDigit(s[|s| - 1]) then [s[|s| - 1]] else [])
  }

  /** The number a string of decimal digits spells, most significant digit first. */
  function Value(ds: string): nat
    requires AllDigits(ds)
    decreases |ds|
  {
    if ds == [] then 0 else 10 * Value(ds[..|ds| - 1]) + DigitValue(ds[|ds| - 1])
  }

  /** `int.Parse` on a string made only of ASCII digits. */
  function ParseInt32(ds: string): Result<int, ParseError>
    requires AllDigits(ds)
  {
    if ds == [] then Err(NoDigits)
    else if Value(ds) > Int32.MAX then Err(Overflow)
    else Ok(Value(ds))
  }

  /** What ExtractNumber returns, or the exception it raises, for `s`. */
  function ExtractedNumber(s: string): Result<int, ParseError> {
    ParseInt32(Digits(s))
  }

  /** The loop of ExtractNumber: append every digit to `number`, then parse it. */
  method ExtractNumber(s: string) returns (r: Result<int, ParseError>)
    ensures r == ExtractedNumber(s)
  {
    var number := "";
    for i := 0 to |s|
      invariant number == Digits(s[..i])
    {
      assert s[..i + 1][..i] == s[..i];
      if IsDigit(s[i]) {
        number := number + [s[i]];
      }
    }
    assert s[..|s|] == s;
    r := ParseInt32(number);
  }

  /** The canonical decimal spelling of `n`: no leading zero except for 0 itself. */
  function ToDecimal(n: nat): (s: string)
    ensures AllDigits(s) && s != []
    ensures s[0] == '0' <==> n == 0
    decreases n
  {
    if n < 10 then [DigitChar(n)] else ToDecimal(n / 10) + [DigitChar(n % 10)]
  }

  lemma {:induction false} DigitsAppend(a: string, b: string)
    ensures Digits(a + b) == Digits(a) + Digits(b)
    decreases |b|
  {
    if b == [] {
      assert a + b == a;
    } else {
      var b' := b[..|b| - 1];
      assert (a + b)[..|a + b| - 1] == a + b';
      DigitsAppend(a, b');
    }
  }

  lemma {:induction false} DigitsOfDigits(s: string)
    requires AllDigits(s)
    ensures Digits(s) == s
    decreases |s|
  {
    if s != [] {
      DigitsOfDigits(s[..|s| - 1]);
    }
  }

  lemma {:induction false} DigitsEmpty(s: string)
    ensures Digits(s) == [] <==> NoDigit(s)
    decreases |s|
  {
    if s != [] {
      var p := s[..|s| - 1];
      DigitsEmpty(p);
      if NoDigit(s) {
        assert NoDigit(p);
      } else if Digits(s) == [] {
        assert Digits(p) == [] && !IsDigit(s[|s| - 1]);
        assert NoDigit(s) by {
          forall i | 0 <= i < |s| ensures !IsDigit(s[i]) {
            if i < |s| - 1 { assert s[i] == p[i]; }
          }
        }
      }
    }
  }

  /**
   * The three outcomes of ExtractNumber: a FormatException exactly when the
   * name has no digit, an OverflowException exactly when the digits spell a
   * number beyond int.MaxValue, and otherwise that number, which is never
   * negative.
   */
  lemma ExtractedNumberCases(s: string)
    ensures ExtractedNumber(s) == Err(NoDigits) <==> NoDigit(s)
    ensures ExtractedNumber(s) == Err(Overflow) <==> !NoDigit(s) && Value(Digits(s)) > Int32.MAX
    ensures ExtractedNumber(s).Ok? <==> !NoDigit(s) && Value(Digits(s)) <= Int32.MAX
    ensures ExtractedNumber(s).Ok? ==>
              ExtractedNumber(s).value == Value(Digits(s)) && 0 <= ExtractedNumber(s).value <= Int32.MAX
  {
    DigitsEmpty(s);
  }

  /** Inserting a non-digit character anywhere never changes the key. */
  lemma NonDigitIgnored(s: string, k: nat, c: char)
    requires k <= |s|
    requires !IsDigit(c)
    ensures ExtractedNumber(s[..k] + [c] + s[k..]) == ExtractedNumber(s)
  {
    assert Digits([c]) == [] by {
      assert [c][..0] == [];
    }
    DigitsAppend(s[..k], [c]);
    assert Digits(s[..k] + [c]) == Digits(s[..k]);
    DigitsAppend(s[..k] + [c], s[k..]);
    DigitsAppend(s[..k], s[k..]);
    assert s[..k] + s[k..] == s;
    assert Digits(s[..k] + [c] + s[k..]) == Digits(s);
  }

  /** The key depends on the digits alone: the digit string by itself gives the same key. */
  lemma OnlyDigitsMatter(s: string)
    ensures ExtractedNumber(Digits(s)) == ExtractedNumber(s)
  {
    DigitsOfDigits(Digits(s));
  }

  lemma {:induction false} ValueOfDecimal(n: nat)
    ensures Value(ToDecimal(n)) == n
    decreases n
  {
    if n >= 10 {
      var s := ToDecimal(n);
      assert s[..|s| - 1] == ToDecimal(n / 10);
      ValueOfDecimal(n / 10);
    }
  }

  /** Two numbers with the same decimal spelling are equal. */
  lemma DecimalInjective(m: nat, n: nat)
    requires ToDecimal(m) == ToDecimal(n)
    ensures m == n
  {
    ValueOfDecimal(m);
    ValueOfDecimal(n);
  }

  /**
   * A name whose only digits are the decimal spelling of `n` has key `n`,
   * whatever non-digit text surrounds them.
   */
  lemma SpelledNumber(prefix: string, n: nat, suffix: string)
    requires NoDigit(prefix) && NoDigit(suffix)
    requires n <= Int32.MAX
    ensures ExtractedNumber(prefix + ToDecimal(n) + suffix) == Ok(n)
  {
    var t := ToDecimal(n);
    DigitsEmpty(prefix);
    DigitsEmpty(suffix);
    DigitsOfDigits(t);
    DigitsAppend(prefix, t);
    assert Digits(prefix + t) == t;
    DigitsAppend(prefix + t, suffix);
    assert Digits(prefix + t + suffix) == t;
    ValueOfDecimal(n);
  }

  /** `int.Parse` ignores leading zeros, so "img007" and "img7" share key 7. */
  lemma {:induction false} LeadingZeroIgnored(ds: string)
    requires AllDigits(ds)
    ensures Value("0" + ds) == Value(ds)
    decreases |ds|
  {
    if ds != [] {
      var p := ds[..|ds| - 1];
      assert ("0" + ds)[..|"0" + ds| - 1] == "0" + p;
      LeadingZeroIgnored(p);
    }
  }

  /**
   * Digits are gathered across gaps: a name spelled letter, digit, letter,
   * digit ("a1b2") has the two-digit key (12), not either digit alone.
   */
  lemma GatheredAcrossGaps(x: char, d: char, y: char, e: char)
    requires !IsDigit(x) && IsDigit(d) && !IsDigit(y) && IsDigit(e)
    ensures ExtractedNumber([x, d, y, e]) == Ok(10 * DigitValue(d) + DigitValue(e))
  {
    DigitsAcrossGaps(x, d, y, e);
    ValueOfTwo(d, e);
  }

  lemma DigitsAcrossGaps(x: char, d: char, y: char, e: char)
    requires !IsDigit(x) && IsDigit(d) && !IsDigit(y) && IsDigit(e)
    ensures Digits([x, d, y, e]) == [d, e]
  {
    assert [x][..0] == [];
    assert Digits([x]) == [];
    assert [x, d][..1] == [x];
    assert Digits([x, d]) == [d];
    assert [x, d, y][..2] == [x, d];
    assert Digits([x, d, y]) == [d];
    assert [x, d, y, e][..3] == [x, d, y];
  }

  lemma ValueOfTwo(d: char, e: char)
    requires IsDigit(d) && IsDigit(e)
    ensures Value([d, e]) == 10 * DigitValue(d) + DigitValue(e)
  {
    assert [d][..0] == [];
    assert Value([d]) == DigitValue(d);
    assert [d, e][..1] == [d];
  }

}
