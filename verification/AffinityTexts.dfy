/** The texts that become numbers in an INTEGER column: white space, sign, point and exponent. */
module AffinityTexts {
  import opened Wrappers
  import opened Text
  import opened Affinities
  import opened Instants

  /** Space, tab, line feed, vertical tab, form feed and carriage return. */
  const BLANKS: string := " \t\n\U{0B}\U{0C}\r"

  lemma BlanksAreListed(c: char)
    ensures IsBlank(c) <==> c in BLANKS
  {
    assert BLANKS[0] == ' ' && BLANKS[1] == '\t' && BLANKS[2] == '\n' && BLANKS[3] == '\U{0B}';
    assert BLANKS[4] == '\U{0C}' && BLANKS[5] == '\r' && |BLANKS| == 6;
  }

  predicate AllBlank(s: string)
  {
    forall i :: 0 <= i < |s| ==> s[i] in BLANKS
  }

  lemma {:induction false} BlanksGo(a: string, s: string, b: string)
    requires AllBlank(a) && AllBlank(b) && s != [] && !IsBlank(s[0]) && !IsBlank(s[|s| - 1])
    ensures Trimmed(a + s + b) == s
    decreases |a| + |b|
  {
    var t := a + s + b;
    if a != [] {
      BlanksAreListed(a[0]);
      assert t[1..] == a[1..] + s + b;
      BlanksGo(a[1..], s, b);
    } else if b != [] {
      BlanksAreListed(b[|b| - 1]);
      assert t[..|t| - 1] == a + s + b[..|b| - 1];
      BlanksGo(a, s, b[..|b| - 1]);
    } else {
      assert t == s;
    }
    hide IsBlank;
  }

  /** An integer is read back from its text with any white space around it, and from its digits behind a plus sign. */
  lemma PaddedIntegerReadsBack(a: string, n: int, b: string)
    requires AllBlank(a) && AllBlank(b)
    ensures ParseNumber(a + SignedDecimal(n) + b) == Some(n as real)
    ensures n >= 0 ==> ParseNumber(a + "+" + SignedDecimal(n) + b) == Some(n as real)
  {
    hide ParseMagnitude, Decimal;
    var m: nat := if n < 0 then -n else n;
    DecimalReadsBack(m);
    DigitsReadBack(m);
    var s := SignedDecimal(n);
    BlanksGo(a, s, b);
    assert Unsigned(s) == Decimal(m);
    if n >= 0 {
      BlanksGo(a, "+" + s, b);
      assert a + ("+" + s) + b == a + "+" + s + b && Unsigned("+" + s) == s;
    }
  }

  // ---------------------------------------------------------------------------
  // Point and exponent
  // ---------------------------------------------------------------------------

  /** `x` is `v` with its point moved `k` places to the right, or to the left if `k` is negative. */
  predicate IsMoved(x: real, v: nat, k: int)
  {
    if k >= 0 then x == (v * Pow10(k)) as real else x * Pow10(-k) as real == v as real
  }

  lemma ScaledIsMoved(v: nat, k: int)
    ensures IsMoved(Scaled(v, k), v, k)
  {
    hide Pow10;
  }

  /** An exponent: nothing, or a letter and a number with or without a sign. */
  function ExponentText(letter: char, plus: bool, x: int): string
  {
    [letter] + (if plus && x >= 0 then "+" else "") + SignedDecimal(x)
  }

  lemma SignedIsRead(x: int)
    ensures ParseInteger(SignedDecimal(x)) == Some(x)
  {
    var m: nat := if x < 0 then -x else x;
    DecimalReadsBack(m);
    hide Decimal, ParseDigits;
    assert IsDigit(Decimal(m)[0]) && Unsigned(SignedDecimal(x)) == Decimal(m);
  }

  lemma PlusIsRead(n: nat)
    ensures ParseInteger("+" + Decimal(n)) == Some(n)
  {
    DecimalReadsBack(n);
    hide Decimal, ParseDigits;
    assert Unsigned("+" + Decimal(n)) == Decimal(n);
  }

  lemma ExponentIsRead(letter: char, plus: bool, x: int)
    requires letter == 'e' || letter == 'E'
    ensures ParseExponent(ExponentText(letter, plus, x)) == Some(x)
  {
    SignedIsRead(x);
    if plus && x >= 0 {
      PlusIsRead(x);
    }
    var s := ExponentText(letter, plus, x);
    assert s[1..] == (if plus && x >= 0 then "+" else "") + SignedDecimal(x);
    assert "" + SignedDecimal(x) == SignedDecimal(x);
    hide ParseInteger, Decimal;
  }

  lemma FourPieces(d: string, f: string, e: string)
    ensures var s := d + "." + f + e;
      && s == d + ("." + f + e) && |s| == |d| + 1 + |f| + |e| && s[|d|] == '.'
      && s[..|d|] == d && s[|d| + 1..] == f + e && s[|d| + 1..|d| + 1 + |f|] == f && s[|d| + 1 + |f|..] == e
  {
  }

  /** Digits with a point among them and an exponent are the number they spell. */
  lemma MagnitudeIsRead(d: string, f: string, exponent: string, x: int)
    requires AllDigits(d) && AllDigits(f) && d + f != []
    requires ParseExponent(exponent) == Some(x) && (exponent != [] ==> !IsDigit(exponent[0]))
    ensures ParseDigits(d + f).Some?
    ensures ParseMagnitude(d + "." + f + exponent) == Some(Scaled(ParseDigits(d + f).value, x - |f|))
  {
    FourPieces(d, f, exponent);
    LeadingDigitsStop(d, "." + f + exponent);
    LeadingDigitsStop(f, exponent);
    OnlyDigitsParse(d + f);
    assert AllDigits(d + f);
    hide ParseDigits, ParseExponent, Scaled, LeadingDigits, AllDigits;
  }

  lemma NoBlanks(a: string, b: string)
    requires a != [] && !IsBlank(a[0]) && b != [] && !IsBlank(b[|b| - 1])
    ensures Trimmed(a + b) == a + b
  {
    assert (a + b)[0] == a[0] && (a + b)[|a + b| - 1] == b[|b| - 1];
  }

  /** So with an exponent behind it, a decimal fraction is read as what it spells. */
  lemma DecimalFractionIsRead(d: string, f: string, letter: char, plus: bool, x: int)
    requires AllDigits(d) && AllDigits(f) && d != [] && f != [] && (letter == 'e' || letter == 'E')
    ensures ParseDigits(d + f).Some?
    ensures var r := ParseNumber(d + "." + f); r.Some? && IsMoved(r.value, ParseDigits(d + f).value, -|f|)
    ensures var r := ParseNumber(d + "." + f + ExponentText(letter, plus, x));
      r.Some? && IsMoved(r.value, ParseDigits(d + f).value, x - |f|)
  {
    hide *;
    NoExponent();
    ExponentIsRead(letter, plus, x);
    LastOfExponent(letter, plus, x);
    FractionIsRead(d, f, "", 0);
    FractionIsRead(d, f, ExponentText(letter, plus, x), x);
    assert d + "." + f + "" == d + "." + f;
  }

  lemma NoExponent()
    ensures ParseExponent("") == Some(0)
  {
  }

  lemma FractionIsRead(d: string, f: string, e: string, x: int)
    requires AllDigits(d) && AllDigits(f) && d != [] && f != []
    requires ParseExponent(e) == Some(x) && (e != [] ==> !IsDigit(e[0]) && IsDigit(e[|e| - 1]))
    ensures ParseDigits(d + f).Some?
    ensures var r := ParseNumber(d + "." + f + e); r.Some? && IsMoved(r.value, ParseDigits(d + f).value, x - |f|)
  {
    hide *;
    EndsInDigit(f, e);
    FourPieces(d, f, e);
    NumberOfMagnitude(d, "." + f + e);
    MagnitudeIsRead(d, f, e, x);
    ScaledIsMoved(ParseDigits(d + f).value, x - |f|);
  }

  lemma EndsInDigit(f: string, e: string)
    requires f != [] && AllDigits(f) && (e != [] ==> IsDigit(e[|e| - 1]))
    ensures var rest := "." + f + e; rest != [] && IsDigit(rest[|rest| - 1])
  {
    var rest := "." + f + e;
    assert rest[|rest| - 1] == if e == [] then f[|f| - 1] else e[|e| - 1];
  }

  lemma LastOfExponent(letter: char, plus: bool, x: int)
    requires letter == 'e' || letter == 'E'
    ensures var e := ExponentText(letter, plus, x); e != [] && !IsDigit(e[0]) && IsDigit(e[|e| - 1])
  {
    var m: nat := if x < 0 then -x else x;
    DecimalReadsBack(m);
    hide Decimal;
  }

  /** Digits in front and a digit at the end: there is nothing to trim and no sign. */
  lemma NumberOfMagnitude(d: string, rest: string)
    requires d != [] && AllDigits(d) && rest != [] && IsDigit(rest[|rest| - 1])
    ensures ParseNumber(d + rest) == ParseMagnitude(d + rest)
  {
    assert (d + rest)[0] == d[0] && IsDigit(d[0]);
    NoBlanks(d, rest);
    hide ParseMagnitude, Trimmed;
  }

  // ---------------------------------------------------------------------------
  // Other texts
  // ---------------------------------------------------------------------------

  predicate IsNumeral(c: char)
  {
    IsDigit(c) || c == '.' || c == 'e' || c == 'E' || c == '+' || c == '-'
  }

  predicate AllNumerals(s: string)
  {
    forall i :: 0 <= i < |s| ==> IsNumeral(s[i])
  }

  lemma {:induction false} TrimmedKeeps(s: string, i: nat)
    requires i < |s| && !IsBlank(s[i])
    ensures s[i] in Trimmed(s)
    decreases |s|
  {
    hide IsBlank;
    if IsBlank(s[0]) {
      TrimmedKeeps(s[1..], i - 1);
    } else if IsBlank(s[|s| - 1]) {
      TrimmedKeeps(s[..|s| - 1], i);
    }
  }

  lemma SignAndRest(s: string)
    requires AllNumerals(Unsigned(s))
    ensures AllNumerals(s)
  {
    hide IsNumeral;
    if IsSigned(s) {
      assert IsNumeral(s[0]) by { SignIsNumeral(); }
      forall i | 0 < i < |s| ensures IsNumeral(s[i]) {
        assert s[i] == s[1..][i - 1];
      }
    }
  }

  lemma SignIsNumeral()
    ensures IsNumeral('-') && IsNumeral('+') && IsNumeral('.') && IsNumeral('e') && IsNumeral('E')
  {
  }

  lemma ExponentIsNumeral(s: string)
    requires ParseExponent(s).Some?
    ensures AllNumerals(s)
  {
    if s != [] {
      OnlyDigitsParse(Unsigned(s[1..]));
      assert AllNumerals(Unsigned(s[1..]));
      SignAndRest(s[1..]);
      SignIsNumeral();
      hide IsNumeral, Unsigned, ParseDigits;
      forall i | 0 <= i < |s| ensures IsNumeral(s[i]) {
        if i > 0 {
          assert s[i] == s[1..][i - 1];
        }
      }
    }
  }

  lemma DigitsAreNumerals(s: string)
    requires AllDigits(s)
    ensures AllNumerals(s)
  {
  }

  lemma NumeralsAppend(a: string, b: string)
    requires AllNumerals(a) && AllNumerals(b)
    ensures AllNumerals(a + b)
  {
    hide IsNumeral;
  }

  lemma MagnitudeParts(s: string)
    returns (d: string, point: string, f: string, e: string)
    requires ParseMagnitude(s).Some?
    ensures s == d + (point + (f + e)) && (point == "" || point == ".")
    ensures AllDigits(d) && AllDigits(f) && ParseExponent(e).Some?
  {
    hide ParseExponent, ParseDigits, LeadingDigits, AllDigits, Scaled;
    var whole := LeadingDigits(s);
    d := s[..whole];
    if whole < |s| && s[whole] == '.' {
      var places := LeadingDigits(s[whole + 1..]);
      point, f, e := ".", s[whole + 1..][..places], s[whole + 1 + places..];
      assert s[whole + 1..][places..] == e;
      assert s == d + ([s[whole]] + s[whole + 1..]);
    } else {
      point, f, e := "", "", s[whole..];
      NothingIsDigits();
      assert s[whole + 0..] == e;
    }
  }

  lemma NothingIsDigits()
    ensures AllDigits("")
  {
  }

  lemma MagnitudeIsNumeral(s: string)
    requires ParseMagnitude(s).Some?
    ensures AllNumerals(s)
  {
    hide *;
    var d, point, f, e := MagnitudeParts(s);
    ExponentIsNumeral(e);
    DigitsAreNumerals(d);
    DigitsAreNumerals(f);
    NumeralsAppend(f, e);
    PointIsNumeral(point);
    NumeralsAppend(point, f + e);
    NumeralsAppend(d, point + (f + e));
  }

  lemma PointIsNumeral(point: string)
    requires point == "" || point == "."
    ensures AllNumerals(point)
  {
  }

  /** A text with any other character stays text. */
  lemma OtherTextIsNoNumber(s: string, i: nat)
    requires i < |s| && s[i] !in BLANKS && !IsNumeral(s[i])
    ensures ParseNumber(s) == None
  {
    BlanksAreListed(s[i]);
    TrimmedKeeps(s, i);
    hide ParseMagnitude, Trimmed, IsBlank, IsNumeral;
    if ParseNumber(s).Some? {
      MagnitudeIsNumeral(Unsigned(Trimmed(s)));
      SignAndRest(Trimmed(s));
    }
  }
}
