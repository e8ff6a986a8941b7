/** Integer to text and back, as JavaScript does it: Number.prototype.toString
    with a radix, and the global parseInt. */
module Numerals {
  import opened Optional
  import opened Strings

  /** The value of a digit of a radix up to 36 ('0' to '9', then 'a' to 'z'
      or 'A' to 'Z'); 36 for every other character. */
  function DigitValue(c: char): (d: nat)
    ensures d <= 36
  {
    if '0' <= c <= '9' then c as int - '0' as int
    else if 'a' <= c <= 'z' then c as int - 'a' as int + 10
    else if 'A' <= c <= 'Z' then c as int - 'A' as int + 10
    else 36
  }

  /** The lower-case digit that Number.prototype.toString writes for d. */
  function DigitChar(d: nat): (c: char)
    requires d < 36
    ensures DigitValue(c) == d
    ensures '0' <= c <= '9' || 'a' <= c <= 'z'
  {
    if d < 10 then ('0' as int + d) as char else ('a' as int + d - 10) as char
  }

  lemma DivMod(n: nat, radix: nat)
    requires 2 <= radix
    ensures n / radix * radix + n % radix == n && 0 <= n % radix < radix
    ensures n >= radix ==> 0 < n / radix < n
  {
  }

  /** Number.prototype.toString(radix) for a non-negative integer: its digits,
      most significant first, with no leading zero. */
  function ToRadix(n: nat, radix: nat): (r: string)
    requires 2 <= radix <= 36
    ensures |r| > 0
    ensures forall i :: 0 <= i < |r| ==> DigitValue(r[i]) < radix
    ensures forall i :: 0 <= i < |r| ==> '0' <= r[i] <= '9' || 'a' <= r[i] <= 'z'
    decreases n
  {
    if n < radix then [DigitChar(n)]
    else
      DivMod(n, radix);
      var high := ToRadix(n / radix, radix);
      var low := DigitChar(n % radix);
      assert forall i :: 0 <= i < |high| + 1 ==> (high + [low])[i] == if i < |high| then high[i] else low;
      high + [low]
  }

  /** The number a string of digits denotes in the radix. */
  function FromRadix(s: string, radix: nat): nat
  {
    if s == [] then 0 else FromRadix(s[..|s| - 1], radix) * radix + DigitValue(s[|s| - 1])
  }

  lemma FromRadixSnoc(s: string, c: char, radix: nat)
    ensures FromRadix(s + [c], radix) == FromRadix(s, radix) * radix + DigitValue(c)
  {
    assert (s + [c])[..|s|] == s;
  }

  lemma ToRadixStep(n: nat, radix: nat)
    requires 2 <= radix <= 36 && n >= radix
    ensures ToRadix(n, radix) == ToRadix(n / radix, radix) + [DigitChar(n % radix)]
  {
  }

  /** Reading back the digits ToRadix writes gives the number. */
  lemma {:induction false} FromToRadix(n: nat, radix: nat)
    requires 2 <= radix <= 36
    ensures FromRadix(ToRadix(n, radix), radix) == n
    decreases n
  {
    if n >= radix {
      DivMod(n, radix);
      var q, m := n / radix, n % radix;
      var high, low := ToRadix(q, radix), DigitChar(m);
      calc {
        FromRadix(ToRadix(n, radix), radix);
        == { ToRadixStep(n, radix); }
        FromRadix(high + [low], radix);
        == { FromRadixSnoc(high, low, radix); }
        FromRadix(high, radix) * radix + DigitValue(low);
        == { FromToRadix(q, radix); }
        q * radix + m;
        n;
      }
    } else {
      var c := DigitChar(n);
      assert ToRadix(n, radix) == [c];
      calc {
        FromRadix([c], radix);
        == { assert [c][..0] == []; }
        FromRadix([], radix) * radix + DigitValue(c);
        n;
      }
    }
  }

  /** A leading zero does not change the number. */
  lemma {:induction false} FromRadixLeadingZero(s: string, radix: nat)
    ensures FromRadix("0" + s, radix) == FromRadix(s, radix)
    decreases |s|
  {
    if s != [] {
      var t := "0" + s;
      assert t[..|t| - 1] == "0" + s[..|s| - 1];
      FromRadixLeadingZero(s[..|s| - 1], radix);
    }
  }

  /** An integer a JavaScript number holds exactly and JSON.parse keeps. */
  predicate SafeInteger(n: int)
  {
    -0x20_0000_0000_0000 < n < 0x20_0000_0000_0000
  }

  /** Number.prototype.toString() for a safe integer; for larger magnitudes
      JavaScript writes the rounded value, in exponent form from 10^21. */
  function IntToString(n: int): (r: string)
  {
    if n < 0 then "-" + ToRadix(-n, 10) else ToRadix(n, 10)
  }

  /** The digits of the radix at the start of s, as many as there are. */
  function LeadingDigits(s: string, radix: nat): (r: string)
    ensures IsPrefix(r, s)
    ensures forall i :: 0 <= i < |r| ==> DigitValue(r[i]) < radix
    ensures |r| == |s| || DigitValue(s[|r|]) >= radix
  {
    if s != [] && DigitValue(s[0]) < radix then [s[0]] + LeadingDigits(s[1..], radix) else []
  }

  /** A string made of digits only is its own digit prefix. */
  lemma {:induction false} LeadingDigitsAll(s: string, radix: nat)
    requires forall i :: 0 <= i < |s| ==> DigitValue(s[i]) < radix
    ensures LeadingDigits(s, radix) == s
  {
    if s != [] {
      LeadingDigitsAll(s[1..], radix);
    }
  }

  /** The number the longest digit prefix of s denotes; None when s does
      not start with a digit of the radix. */
  function ParseDigits(s: string, radix: nat): (r: Option<nat>)
    ensures r.None? <==> (s == [] || DigitValue(s[0]) >= radix)
  {
    var digits := LeadingDigits(s, radix);
    if digits == [] then None else Some(FromRadix(digits, radix))
  }

  /** parseInt after the sign: a "0x" or "0X" prefix selects radix 16,
      otherwise the digits are decimal. */
  function ParseUnsigned(u: string): Option<nat>
  {
    if |u| >= 2 && u[0] == '0' && (u[1] == 'x' || u[1] == 'X') then ParseDigits(u[2..], 16)
    else ParseDigits(u, 10)
  }

  /** JavaScript's parseInt(s) without a radix argument; None stands for NaN.
      Leading whitespace is skipped, one sign is read, a "0x" or "0X" prefix
      selects radix 16, and the longest run of digits that follows is the
      number. A zero read with a minus sign is the number zero here (-0 is
      falsy in JavaScript exactly like 0). */
  function ParseInt(s: string): (r: Option<int>)
  {
    var t := TrimStart(s);
    var negative := t != [] && t[0] == '-';
    var unsigned := if t != [] && (t[0] == '-' || t[0] == '+') then t[1..] else t;
    match ParseUnsigned(unsigned)
    case None => None
    case Some(v) => Some(if negative then -(v as int) else v as int)
  }

  /** parseInt reads back every integer that IntToString writes. */
  lemma ParseIntOfIntToString(n: int)
    ensures ParseInt(IntToString(n)) == Some(n)
  {
    var m: nat := if n < 0 then -n else n;
    var d := ToRadix(m, 10);
    FromToRadix(m, 10);
    ParseUnsignedDecimal(d);
    if n < 0 {
      ParseMinus(d, m);
    } else {
      ParsePlain(d, m);
    }
  }

  /** A decimal digit is not whitespace, a sign or an 'x'. */
  lemma DecimalDigitChar(c: char)
    requires DigitValue(c) < 10
    ensures '0' <= c <= '9'
    ensures !IsSpace(c) && c != '-' && c != '+' && c != 'x' && c != 'X'
  {
  }

  /** parseInt of unsigned digits is their value. */
  lemma ParsePlain(d: string, v: nat)
    requires d != [] && DigitValue(d[0]) < 10
    requires ParseUnsigned(d) == Some(v)
    ensures ParseInt(d) == Some(v as int)
  {
    DecimalDigitChar(d[0]);
    assert TrimStart(d) == d;
  }

  /** parseInt of a minus sign and unsigned digits is minus their value. */
  lemma ParseMinus(d: string, v: nat)
    requires ParseUnsigned(d) == Some(v)
    ensures ParseInt("-" + d) == Some(-(v as int))
  {
    var s := "-" + d;
    MinusUntrimmed(d);
    assert s[0] == '-' && s[1..] == d;
  }

  lemma MinusUntrimmed(d: string)
    ensures TrimStart("-" + d) == "-" + d
  {
    var s := "-" + d;
    assert s != [] && s[0] == '-';
    assert !IsSpace(s[0]);
  }

  /** parseInt of a run of decimal digits is the number they denote. */
  lemma ParseUnsignedDecimal(d: string)
    requires d != []
    requires forall i :: 0 <= i < |d| ==> DigitValue(d[i]) < 10
    ensures ParseUnsigned(d) == Some(FromRadix(d, 10))
  {
    if |d| >= 2 {
      DecimalDigitChar(d[1]);
    }
    assert ParseUnsigned(d) == ParseDigits(d, 10);
    LeadingDigitsAll(d, 10);
    assert LeadingDigits(d, 10) == d;
  }
}
