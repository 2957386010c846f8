/** Type affinity: how SQLite reads a text that is stored in an INTEGER column. A text that spells a number
    becomes that number; numbers are exact here. */
module Affinities {
  import opened Wrappers
  import opened Text

  predicate IsBlank(c: char)
  {
    c == ' ' || '\t' <= c <= '\r'
  }

  /** The text without the white space around it. */
  function Trimmed(s: string): string
    decreases |s|
  {
    if s != [] && IsBlank(s[0]) then Trimmed(s[1..])
    else if s != [] && IsBlank(s[|s| - 1]) then Trimmed(s[..|s| - 1])
    else s
  }

  predicate IsSigned(s: string)
  {
    s != [] && (s[0] == '-' || s[0] == '+')
  }

  function Unsigned(s: string): string
  {
    if IsSigned(s) then s[1..] else s
  }

  /** Optional sign and digits. */
  function ParseInteger(s: string): Option<int>
  {
    match ParseDigits(Unsigned(s))
    case None => None
    case Some(n) => Some(if IsSigned(s) && s[0] == '-' then -(n as int) else n)
  }

  /** The exponent behind the digits, if there is one; the text must end with it. */
  function ParseExponent(s: string): Option<int>
  {
    if s == [] then Some(0)
    else if s[0] != 'e' && s[0] != 'E' then None
    else ParseInteger(s[1..])
  }

  function Scaled(digits: nat, exponent: int): real
  {
    if exponent >= 0 then (digits * Pow10(exponent)) as real else digits as real / Pow10(-exponent) as real
  }

  /** Digits with an optional point among them, then an optional exponent. */
  function ParseMagnitude(s: string): Option<real>
  {
    var whole := LeadingDigits(s);
    var pointed := whole < |s| && s[whole] == '.';
    var start := if pointed then whole + 1 else whole;
    var places := if pointed then LeadingDigits(s[start..]) else 0;
    match (ParseDigits(s[..whole] + s[start..start + places]), ParseExponent(s[start + places..]))
    case (Some(digits), Some(exponent)) => Some(Scaled(digits, exponent - places))
    case _ => None
  }

  /** The number that a text spells. */
  function ParseNumber(s: string): Option<real>
  {
    var t := Trimmed(s);
    match ParseMagnitude(Unsigned(t))
    case None => None
    case Some(x) => Some(if IsSigned(t) && t[0] == '-' then -x else x)
  }

  function SignedDecimal(n: int): string
  {
    if n < 0 then "-" + Decimal(-n) else Decimal(n)
  }

  lemma DigitsReadBack(n: nat)
    ensures ParseMagnitude(Decimal(n)) == Some(n as real)
  {
    hide Decimal, ParseDigits;
    var s := Decimal(n);
    DecimalReadsBack(n);
    LeadingDigitsStop(s, []);
    assert s + [] == s && s[..|s|] + s[|s|..|s|] == s && s[|s|..] == [];
    assert Pow10(0) == 1;
  }

  /** A written integer is read back. */
  lemma IntegerReadsBack(n: int)
    ensures ParseNumber(SignedDecimal(n)) == Some(n as real)
  {
    hide Decimal, ParseMagnitude;
    var m: nat := if n < 0 then -n else n;
    var s := SignedDecimal(n);
    DecimalReadsBack(m);
    DigitsReadBack(m);
    assert !IsBlank(s[0]) && !IsBlank(s[|s| - 1]) && Trimmed(s) == s;
    assert Unsigned(s) == Decimal(m);
  }

  /** A word stays text. */
  lemma WordIsNoNumber()
    ensures ParseNumber("abc") == None
  {
  }

  /** A fraction becomes a number. */
  lemma HalfIsNumber()
    ensures ParseNumber("7.5") == Some(7.5)
  {
    var s := "7.5";
    assert LeadingDigits(s) == 1 && s[2..] == "5" && LeadingDigits(s[2..]) == 1;
    assert s[..1] + s[2..3] == "75" && s[3..] == "" && "75"[..1] == "7" && ParseDigits("75") == Some(75);
    assert Scaled(75, -1) == 7.5 by { assert Pow10(1) == 10 * Pow10(0); }
    assert Trimmed(s) == s && Unsigned(s) == s;
  }
}
