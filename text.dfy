/**
 * The string operations the disassembler's output and label rewrite rely
 * on: str() of an integer, hex(), Python's int() of a decimal string, and
 * str.rsplit(',', 1).
 */
module Text {
  import opened Base

  predicate IsDigit(c: char) { '0' <= c <= '9' }

  function DigitChar(d: nat): (c: char)
    requires d < 10
    ensures IsDigit(c)
  {
    "0123456789"[d]
  }

  function DigitValue(c: char): (d: nat)
    requires IsDigit(c)
    ensures d < 10
  {
    (c as int) - ('0' as int)
  }

  /** The decimal digits of n without leading zeros, as str(n) prints them. */
  function Digits(n: nat): (s: string)
    ensures |s| >= 1 && forall i | 0 <= i < |s| :: IsDigit(s[i])
  {
    if n < 10 then [DigitChar(n)] else Digits(n / 10) + [DigitChar(n % 10)]
  }

  /** str(n) for any integer. */
  function Dec(n: int): (s: string)
    ensures |s| >= 1
  {
    if n < 0 then "-" + Digits(-n) else Digits(n)
  }

  /** The value of a non-empty string of decimal digits. */
  function DigitsValue(s: string): (n: nat)
    requires forall i | 0 <= i < |s| :: IsDigit(s[i])
  {
    if |s| == 0 then 0 else 10 * DigitsValue(s[..|s| - 1]) + DigitValue(s[|s| - 1])
  }

  predicate AllDigits(s: string) { |s| >= 1 && forall i | 0 <= i < |s| :: IsDigit(s[i]) }

  /**
   * Python's int(s) in base 10 on the strings the disassembler produces: an
   * optional sign followed by decimal digits. None stands for the ValueError.
   */
  function ParseDecimal(s: string): (r: Option<int>)
    ensures r.Some? ==> |s| >= 1 && (IsDigit(s[0]) || s[0] == '-' || s[0] == '+')
  {
    if |s| >= 1 && (s[0] == '-' || s[0] == '+') then
      if AllDigits(s[1..]) then
        var v := DigitsValue(s[1..]);
        Some(if s[0] == '-' then -(v as int) else v)
      else None
    else if AllDigits(s) then Some(DigitsValue(s))
    else None
  }

  lemma {:induction false} DigitsValueOfDigits(n: nat)
    ensures DigitsValue(Digits(n)) == n
  {
    var s := Digits(n);
    if n >= 10 {
      DigitsValueOfDigits(n / 10);
      assert s[..|s| - 1] == Digits(n / 10);
    }
  }

  /** str() is undone by int(): the label rewrite reads back the very numbers the decoder printed. */
  lemma ParseDecimalOfDec(n: int)
    ensures ParseDecimal(Dec(n)) == Some(n)
  {
    if n < 0 {
      ParseDecimalOfNegative(n);
    } else {
      ParseDecimalOfDigits(n);
    }
  }

  lemma ParseDecimalOfDigits(n: int)
    requires n >= 0
    ensures ParseDecimal(Dec(n)) == Some(n)
  {
    var s := Digits(n);
    assert Dec(n) == s;
    assert IsDigit(s[0]) && AllDigits(s);
    DigitsValueOfDigits(n);
  }

  lemma ParseDecimalOfNegative(n: int)
    requires n < 0
    ensures ParseDecimal(Dec(n)) == Some(n)
  {
    var m: nat := -n;
    assert Dec(n) == "-" + Digits(m);
    ParseDecimalOfMinus(m);
  }

  lemma ParseDecimalOfMinus(m: nat)
    ensures ParseDecimal("-" + Digits(m)) == Some(-(m as int))
  {
    var s := "-" + Digits(m);
    assert s[0] == '-' && s[1..] == Digits(m);
    assert AllDigits(s[1..]);
    DigitsValueOfDigits(m);
  }

  function HexChar(d: nat): (c: char)
    requires d < 16
  {
    "0123456789abcdef"[d]
  }

  /** The digits hex(n) prints after its "0x" prefix. */
  function HexDigits(n: nat): (s: string)
    ensures |s| >= 1 && forall i | 0 <= i < |s| :: s[i] in "0123456789abcdef"
  {
    if n < 16 then [HexChar(n)] else HexDigits(n / 16) + [HexChar(n % 16)]
  }

  /** hex(n) */
  function Hex(n: nat): string
  {
    "0x" + HexDigits(n)
  }

  /** The index of the last ',' in s, if any. */
  function LastComma(s: string): (r: Option<nat>)
    ensures r.None? <==> ',' !in s
    ensures r.Some? ==> r.value < |s| && s[r.value] == ',' && ',' !in s[r.value + 1..]
  {
    if |s| == 0 then None
    else if s[|s| - 1] == ',' then Some(|s| - 1)
    else
      var r := LastComma(s[..|s| - 1]);
      assert s == s[..|s| - 1] + [s[|s| - 1]];
      if r.Some? then
        assert s[r.value + 1..] == s[..|s| - 1][r.value + 1..] + [s[|s| - 1]];
        r
      else r
  }

  /** s.rsplit(',', 1) for a string that holds a comma: the text before and after its last comma. */
  function RSplitComma(s: string): (parts: (string, string))
    requires ',' in s
    ensures s == parts.0 + "," + parts.1 && ',' !in parts.1
  {
    var i := LastComma(s).value;
    assert s == s[..i] + "," + s[i + 1..];
    (s[..i], s[i + 1..])
  }

  /** Splitting at the last comma finds the comma that precedes a comma-free tail. */
  lemma RSplitCommaOfJoin(a: string, b: string)
    requires ',' !in b
    ensures ',' in a + "," + b
    ensures RSplitComma(a + "," + b) == (a, b)
  {
    var s := a + "," + b;
    assert s[|a|] == ',';
    var (p, q) := RSplitComma(s);
    assert s == p + "," + q;
    assert p == a;
  }

  /** str() of an integer holds no comma. */
  lemma NoCommaInDec(n: int)
    ensures ',' !in Dec(n)
  {
    if n < 0 {
      assert Dec(n) == "-" + Digits(-n);
      assert forall i | 1 <= i < |Dec(n)| :: Dec(n)[i] == Digits(-n)[i - 1];
    }
  }

  /** int() rejects a string with a character other than a digit after its first. */
  lemma ParseDecimalRejects(s: string, i: nat)
    requires 1 <= i < |s| && !IsDigit(s[i])
    ensures ParseDecimal(s) == None
  {
    if |s| >= 1 && (s[0] == '-' || s[0] == '+') {
      assert s[1..][i - 1] == s[i];
    }
  }
}
