/** Decimal text and integers: Go's `strconv.Atoi`, `strconv.Itoa`, and the
    zero padding that `time.Format` applies to date fields. */
module Decimal {
  import opened Wrappers
  import opened Text

  function DigitValue(c: char): nat
    requires IsDigit(c)
  {
    c as int - '0' as int
  }

  function DigitChar(d: nat): (c: char)
    requires d < 10
    ensures IsDigit(c) && DigitValue(c) == d
  {
    ('0' as int + d) as char
  }

  /** The value of a string of decimal digits (leading zeros allowed). */
  function ParseDigits(s: string): nat
    requires AllDigits(s)
    decreases |s|
  {
    if |s| == 0 then 0 else ParseDigits(s[..|s| - 1]) * 10 + DigitValue(s[|s| - 1])
  }

  /** Go's `strconv.Itoa` for a non-negative value: shortest decimal form. */
  function Show(n: nat): (s: string)
    ensures |s| >= 1 && AllDigits(s)
    ensures |s| > 1 ==> s[0] != '0'
    decreases n
  {
    if n < 10 then [DigitChar(n)] else Show(n / 10) + [DigitChar(n % 10)]
  }

  /** Reading back what `Show` wrote gives the number. */
  lemma {:induction false} ParseShow(n: nat)
    ensures ParseDigits(Show(n)) == n
    decreases n
  {
    if n >= 10 {
      ParseShow(n / 10);
      var s := Show(n);
      assert s[..|s| - 1] == Show(n / 10);
    }
  }

  /** `Show` is injective: distinct numbers print differently. */
  lemma ShowInjective(a: nat, b: nat)
    requires Show(a) == Show(b)
    ensures a == b
  {
    ParseShow(a);
    ParseShow(b);
  }

  /** Go's `strconv.Atoi` on text that fits: an optional sign, then one or more digits,
      and nothing else.  Any other text is a syntax error (`None`). */
  function Atoi(s: string): (r: Option<int>)
    ensures r.Some? <==> IsInteger(s)
  {
    if |s| >= 2 && (s[0] == '+' || s[0] == '-') && AllDigits(s[1..]) then
      var v: int := ParseDigits(s[1..]);
      Some(if s[0] == '-' then -v else v)
    else if |s| >= 1 && AllDigits(s) then Some(ParseDigits(s))
    else None
  }

  /** A plain run of digits reads as its value. */
  lemma AtoiDigits(s: string)
    requires |s| >= 1 && AllDigits(s)
    ensures Atoi(s) == Some(ParseDigits(s))
  {
  }

  /** The text `strconv.Atoi` accepts. */
  predicate IsInteger(s: string) {
    || (|s| >= 1 && AllDigits(s))
    || (|s| >= 2 && (s[0] == '+' || s[0] == '-') && AllDigits(s[1..]))
  }

  /** `Atoi` reads back what `Itoa` wrote, for either sign. */
  lemma AtoiShow(n: nat)
    ensures Atoi(Show(n)) == Some(n)
    ensures Atoi("-" + Show(n)) == Some(-(n as int))
  {
    ParseShow(n);
    assert ("-" + Show(n))[1..] == Show(n);
  }

  /** Go's `appendInt(b, x, width)`: the magnitude is zero padded to at least `width`
      digits and a minus sign is put in front of a negative value. */
  function Padded(x: int, width: nat): (s: string)
    ensures |s| >= width
  {
    if x < 0 then "-" + ZeroPad(Show(-x), width) else ZeroPad(Show(x), width)
  }

  function ZeroPad(s: string, width: nat): (r: string)
    ensures |r| == if |s| >= width then |s| else width
    ensures r[|r| - |s|..] == s
    ensures forall i | 0 <= i < |r| - |s| :: r[i] == '0'
  {
    if |s| >= width then s else seq(width - |s|, _ => '0') + s
  }

  /** A padded non-negative number still reads back as itself. */
  lemma {:induction false} ParseZeroPad(s: string, width: nat)
    requires AllDigits(s)
    ensures AllDigits(ZeroPad(s, width))
    ensures ParseDigits(ZeroPad(s, width)) == ParseDigits(s)
    decreases width
  {
    if |s| < width {
      var r := ZeroPad(s, width);
      assert r == ['0'] + ZeroPad(s, width - 1) by {
        assert ZeroPad(s, width - 1) == r[1..];
      }
      ParseZeroPad(s, width - 1);
      LeadingZero(ZeroPad(s, width - 1));
    }
  }

  lemma {:induction false} LeadingZero(s: string)
    requires AllDigits(s)
    ensures AllDigits(['0'] + s) && ParseDigits(['0'] + s) == ParseDigits(s)
    decreases |s|
  {
    if |s| > 0 {
      var t := ['0'] + s;
      assert t[..|t| - 1] == ['0'] + s[..|s| - 1];
      LeadingZero(s[..|s| - 1]);
    }
  }

  function Pow10(w: nat): nat {
    if w == 0 then 1 else 10 * Pow10(w - 1)
  }

  /** A number below `10^w` prints in at most `w` digits. */
  lemma {:induction false} ShowAtMost(n: nat, w: nat)
    requires w >= 1 && n < Pow10(w)
    ensures |Show(n)| <= w
    decreases w
  {
    if n >= 10 {
      assert Pow10(1) == 10;
      ShowAtMost(n / 10, w - 1);
    }
  }

  /** A non-negative number below `10^width`, padded to `width`, is exactly `width` digits
      that read back as the number. */
  lemma PaddedReadBack(x: int, width: nat)
    requires 0 <= x && width >= 1 && x < Pow10(width)
    ensures var s := Padded(x, width);
      |s| == width && AllDigits(s) && ParseDigits(s) == x
  {
    ShowAtMost(x, width);
    ParseShow(x);
    ParseZeroPad(Show(x), width);
  }

  /** The text `s[i..j]` is all digits and reads as `v`. */
  predicate Reads(s: string, i: nat, j: nat, v: int) {
    i <= j <= |s| && AllDigits(s[i..j]) && ParseDigits(s[i..j]) == v
  }
}
