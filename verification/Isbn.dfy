/** ISBN arithmetic: check digits, validation and conversion between ISBN-10 and ISBN-13. */
module Isbns {
  import opened Wrappers
  import opened Text

  datatype Isbn = Isbn10(text: string) | Isbn13(text: string)

  /** `to_digit(10).unwrap_or(0)`. */
  function DigitOrZero(c: char): (n: nat)
    ensures n < 10
  {
    if IsDigit(c) then DigitValue(c) else 0
  }

  function Symbol(c: char): (n: nat)
    ensures n <= 10
  {
    if c == 'X' then 10 else DigitOrZero(c)
  }

  predicate IsSymbol(c: char)
  {
    IsDigit(c) || c == 'X'
  }

  predicate AllSymbols(s: string)
  {
    forall i :: 0 <= i < |s| ==> IsSymbol(s[i])
  }

  /** The sum of the symbols, the first with weight ten, the next with nine, and so on. */
  function Sum10(s: string): int
  {
    if s == [] then 0 else Sum10(s[..|s| - 1]) + Symbol(s[|s| - 1]) * (11 - |s|)
  }

  /** The sum of the digits with weights one and three in turn. */
  function Sum13(s: string): nat
  {
    if s == [] then 0 else Sum13(s[..|s| - 1]) + DigitOrZero(s[|s| - 1]) * Weight13(|s| - 1)
  }

  function Weight13(i: nat): nat
  {
    if i % 2 == 0 then 1 else 3
  }

  predicate Valid10(s: string)
  {
    |s| == 10 && Sum10(s) % 11 == 0
  }

  predicate Valid13(s: string)
  {
    |s| == 13 && AllDigits(s) && Sum13(s) % 10 == 0
  }

  function Check13(first12: string): char
  {
    Digit((10 - Sum13(first12) % 10) % 10)
  }

  /** The check symbol of nine symbols; a letter among them counts as zero. */
  function Check10(first9: string): char
  {
    var check := (11 - SumOfDigits10(first9) % 11) % 11;
    if check == 10 then 'X' else Digit(check)
  }

  function SumOfDigits10(s: string): int
  {
    if s == [] then 0 else SumOfDigits10(s[..|s| - 1]) + DigitOrZero(s[|s| - 1]) * (11 - |s|)
  }

  /** Keeps digits and capital X. */
  function Cleaned(s: string): (r: string)
    ensures AllSymbols(r)
  {
    if s == [] then [] else (if IsSymbol(s[0]) then [s[0]] else []) + Cleaned(s[1..])
  }

  /** `Isbn::parse`. */
  function Parse(input: string): Option<Isbn>
  {
    var s := Cleaned(input);
    if |s| == 10 then (if Valid10(s) then Some(Isbn10(s)) else None)
    else if |s| == 13 then (if Valid13(s) then Some(Isbn13(s)) else None)
    else None
  }

  function ToIsbn13(isbn: Isbn): string
    requires isbn.Isbn10? ==> |isbn.text| == 10
  {
    match isbn
    case Isbn13(s) => s
    case Isbn10(s) => "978" + s[..9] + [Check13("978" + s[..9])]
  }

  function ToIsbn10(isbn: Isbn): Option<string>
    requires isbn.Isbn13? ==> |isbn.text| == 13
  {
    match isbn
    case Isbn10(s) => Some(s)
    case Isbn13(s) => if s[..3] != "978" then None else Some(s[3..12] + [Check10(s[3..12])])
  }

  // ---------------------------------------------------------------------------
  // Parsing
  // ---------------------------------------------------------------------------

  lemma {:induction false} CleanText(s: string)
    requires AllSymbols(s)
    ensures Cleaned(s) == s
  {
    if s != [] {
      CleanText(s[1..]);
    }
  }

  predicate IsValidIsbn(isbn: Isbn)
  {
    && AllSymbols(isbn.text)
    && if isbn.Isbn10? then Valid10(isbn.text) else Valid13(isbn.text)
  }

  /** Parsing yields exactly the valid codes, and a code's own text reads back as the code. */
  lemma ParseIsExact(input: string, isbn: Isbn)
    ensures Parse(input) == Some(isbn) <==> IsValidIsbn(isbn) && Cleaned(input) == isbn.text
    ensures IsValidIsbn(isbn) ==> Parse(isbn.text) == Some(isbn)
  {
    if IsValidIsbn(isbn) {
      CleanText(isbn.text);
    }
  }

  // ---------------------------------------------------------------------------
  // Check digits
  // ---------------------------------------------------------------------------

  /** Exactly one symbol completes nine digits to a valid ISBN-10. */
  lemma CheckCompletes10(first9: string, c: char)
    requires |first9| == 9 && AllDigits(first9) && IsSymbol(c)
    ensures Valid10(first9 + [c]) <==> c == Check10(first9)
  {
    DigitSums(first9);
    assert (first9 + [c])[..9] == first9;
    assert Sum10(first9 + [c]) == Sum10(first9) + Symbol(c);
  }

  lemma {:induction false} DigitSums(s: string)
    requires AllDigits(s)
    ensures SumOfDigits10(s) == Sum10(s)
  {
    if s != [] {
      DigitSums(s[..|s| - 1]);
    }
  }

  /** Exactly one digit completes twelve digits to a valid ISBN-13. */
  lemma CheckCompletes13(first12: string, c: char)
    requires |first12| == 12 && AllDigits(first12) && IsDigit(c)
    ensures Valid13(first12 + [c]) <==> c == Check13(first12)
  {
    assert (first12 + [c])[..12] == first12;
    assert Sum13(first12 + [c]) == Sum13(first12) + DigitOrZero(c);
    assert AllDigits(first12 + [c]);
    DigitIsDigit((10 - Sum13(first12) % 10) % 10);
    if DigitValue(c) == (10 - Sum13(first12) % 10) % 10 {
      assert c == Check13(first12);
    }
  }

  lemma DigitIsDigit(n: nat)
    requires n < 10
    ensures IsDigit(Digit(n)) && DigitValue(Digit(n)) == n
  {
  }

  // ---------------------------------------------------------------------------
  // Conversion
  // ---------------------------------------------------------------------------

  /** The converted code is valid exactly when no letter stands among the first nine symbols. */
  lemma ConvertedIsValid(s: string)
    requires AllSymbols(s) && Valid10(s)
    ensures Valid13(ToIsbn13(Isbn10(s))) <==> AllDigits(s[..9])
  {
    var base := "978" + s[..9];
    assert base[3..] == s[..9];
    if AllDigits(s[..9]) {
      DigitIsDigit((10 - Sum13(base) % 10) % 10);
      CheckCompletes13(base, Check13(base));
    }
    if AllDigits(base + [Check13(base)]) {
      assert forall i :: 0 <= i < 9 ==> s[..9][i] == (base + [Check13(base)])[i + 3];
    }
  }

  /** From ISBN-10 to ISBN-13 and back. */
  lemma TenToThirteenAndBack(s: string)
    requires AllSymbols(s) && Valid10(s) && AllDigits(s[..9])
    ensures ToIsbn10(Isbn13(ToIsbn13(Isbn10(s)))) == Some(s)
  {
    var t := ToIsbn13(Isbn10(s));
    assert t[..3] == "978" && t[3..12] == s[..9];
    assert s == s[..9] + [s[9]];
    CheckCompletes10(s[..9], s[9]);
  }

  /** From a 978 ISBN-13 to ISBN-10 and back. */
  lemma ThirteenToTenAndBack(s: string)
    requires Valid13(s) && s[..3] == "978"
    ensures var t := ToIsbn10(Isbn13(s)).value;
      AllSymbols(t) && Valid10(t) && AllDigits(t[..9]) && ToIsbn13(Isbn10(t)) == s
  {
    var core := s[3..12];
    var t := core + [Check10(core)];
    CheckSymbol(core);
    CheckCompletes10(core, Check10(core));
    assert t[..9] == core;
    assert "978" + core == s[..12] && s == s[..12] + [s[12]];
    CheckCompletes13(s[..12], s[12]);
  }

  lemma CheckSymbol(first9: string)
    ensures IsSymbol(Check10(first9))
  {
  }

  // ---------------------------------------------------------------------------
  // Error detection
  // ---------------------------------------------------------------------------

  lemma Distribute(a: int, b: int, w: int)
    ensures a * w - b * w == (a - b) * w
  {
  }

  lemma {:induction false} Change10(s: string, i: nat, c: char)
    requires i < |s|
    ensures Sum10(s[i := c]) == Sum10(s) + (Symbol(c) - Symbol(s[i])) * (10 - i)
  {
    hide Symbol;
    var n := |s| - 1;
    if i < n {
      Change10(s[..n], i, c);
      assert s[i := c][..n] == s[..n][i := c];
    } else {
      assert s[i := c][..n] == s[..n];
      Distribute(Symbol(c), Symbol(s[i]), 10 - i);
    }
  }

  lemma {:induction false} Change13(s: string, i: nat, c: char)
    requires i < |s|
    ensures Sum13(s[i := c]) == Sum13(s) + (DigitOrZero(c) - DigitOrZero(s[i])) * Weight13(i)
  {
    hide DigitOrZero, Weight13;
    var n := |s| - 1;
    if i < n {
      Change13(s[..n], i, c);
      assert s[i := c][..n] == s[..n][i := c];
    } else {
      assert s[i := c][..n] == s[..n];
      Distribute(DigitOrZero(c), DigitOrZero(s[i]), Weight13(i));
    }
  }

  lemma SymbolsDiffer(a: char, b: char)
    requires IsSymbol(a) && IsSymbol(b)
    ensures Symbol(a) == Symbol(b) <==> a == b
  {
  }

  /** Eleven is prime: it does not divide the product of two smaller numbers. */
  lemma NotDivisibleBy11(a: int, b: int)
    requires 1 <= a <= 10 && -10 <= b <= 10 && b != 0
    ensures (b * a) % 11 != 0
  {
    match a
    case 1 => case 2 => case 3 => case 4 => case 5 => case 6 => case 7 => case 8 => case 9 => case 10 =>
  }

  lemma Difference11(a: int, b: int)
    requires b % 11 == 0
    ensures a % 11 == 0 <==> (a - b) % 11 == 0
  {
    assert b == 11 * (b / 11);
    if a % 11 == 0 {
      assert a - b == 11 * (a / 11 - b / 11);
    }
    if (a - b) % 11 == 0 {
      assert a == 11 * ((a - b) / 11 + b / 11);
    }
  }

  lemma Difference10(a: int, b: int)
    requires b % 10 == 0
    ensures a % 10 == 0 <==> (a - b) % 10 == 0
  {
    assert b == 10 * (b / 10);
    if a % 10 == 0 {
      assert a - b == 10 * (a / 10 - b / 10);
    }
    if (a - b) % 10 == 0 {
      assert a == 10 * ((a - b) / 10 + b / 10);
    }
  }

  /** Changing any one symbol of a valid ISBN-10 makes it invalid. */
  lemma OneError10(s: string, i: nat, c: char)
    requires AllSymbols(s) && Valid10(s) && i < 10 && IsSymbol(c) && c != s[i]
    ensures !Valid10(s[i := c])
  {
    hide Sum10, Symbol;
    Change10(s, i, c);
    SymbolsDiffer(c, s[i]);
    NotDivisibleBy11(10 - i, Symbol(c) - Symbol(s[i]));
    Difference11(Sum10(s[i := c]), Sum10(s));
  }

  lemma DigitsDiffer(a: char, b: char)
    requires IsDigit(a) && IsDigit(b) && a != b
    ensures DigitOrZero(a) != DigitOrZero(b)
  {
  }

  /** Changing any one digit of a valid ISBN-13 makes it invalid. */
  lemma OneError13(s: string, i: nat, c: char)
    requires Valid13(s) && i < 13 && c != s[i]
    ensures !Valid13(s[i := c])
  {
    hide Sum13, DigitOrZero;
    Change13(s, i, c);
    if IsDigit(c) {
      var d := DigitOrZero(c) - DigitOrZero(s[i]);
      DigitsDiffer(c, s[i]);
      assert (d * Weight13(i)) % 10 != 0 by { assert Weight13(i) == 1 || Weight13(i) == 3; }
      Difference10(Sum13(s[i := c]), Sum13(s));
    } else {
      assert s[i := c][i] == c;
    }
  }

  lemma SwapChange(a: int, b: int, i: int, j: int)
    ensures (b - a) * (10 - i) + (a - b) * (10 - j) == (b - a) * (j - i)
  {
  }

  /** Swapping any two different symbols of a valid ISBN-10 makes it invalid. */
  lemma Swap10(s: string, i: nat, j: nat)
    requires AllSymbols(s) && Valid10(s) && i < j < 10 && s[i] != s[j]
    ensures !Valid10(s[i := s[j]][j := s[i]])
  {
    hide Sum10, Symbol;
    var t := s[i := s[j]];
    Change10(s, i, s[j]);
    Change10(t, j, s[i]);
    SymbolsDiffer(s[i], s[j]);
    SwapChange(Symbol(s[i]), Symbol(s[j]), i, j);
    NotDivisibleBy11(j - i, Symbol(s[j]) - Symbol(s[i]));
    Difference11(Sum10(t[j := s[i]]), Sum10(s));
  }

  lemma NeighbourChange(a: nat, b: nat, i: nat)
    requires a < 10 && b < 10 && a != b
    ensures ((b - a) * Weight13(i) + (a - b) * Weight13(i + 1)) % 10 == 0 <==> a - b == 5 || b - a == 5
  {
    assert (Weight13(i) == 1 && Weight13(i + 1) == 3) || (Weight13(i) == 3 && Weight13(i + 1) == 1);
  }

  /** An ISBN-13 does not catch every swap of neighbours: it misses exactly those whose digits differ by five. */
  lemma NeighbourSwap13(s: string, i: nat)
    requires Valid13(s) && i < 12 && s[i] != s[i + 1]
    ensures Valid13(s[i := s[i + 1]][i + 1 := s[i]]) <==>
      DigitOrZero(s[i]) - DigitOrZero(s[i + 1]) == 5 || DigitOrZero(s[i + 1]) - DigitOrZero(s[i]) == 5
  {
    hide Sum13, DigitOrZero, Weight13;
    var t := s[i := s[i + 1]];
    var u := t[i + 1 := s[i]];
    Change13(s, i, s[i + 1]);
    Change13(t, i + 1, s[i]);
    DigitsDiffer(s[i], s[i + 1]);
    NeighbourChange(DigitOrZero(s[i]), DigitOrZero(s[i + 1]), i);
    assert AllDigits(u);
    Difference10(Sum13(u), Sum13(s));
  }
}
