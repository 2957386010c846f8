/** The ISBN rules against the standard's own sums, and on known codes. */
module IsbnCodes {
  import opened Wrappers
  import opened Text
  import opened Isbns

  // ---------------------------------------------------------------------------
  // The standard's sums, written out
  // ---------------------------------------------------------------------------

  /** What a digit stands for. */
  function Worth(c: char): int
  {
    c as int - '0' as int
  }

  function WorthX(c: char): int
  {
    if c == 'X' then 10 else Worth(c)
  }

  /** ISO 2108 for twelve digits or more: weights one and three in turn. */
  function Ean12(s: string): int
    requires |s| >= 12
  {
    Worth(s[0]) + 3 * Worth(s[1]) + Worth(s[2]) + 3 * Worth(s[3]) + Worth(s[4]) + 3 * Worth(s[5]) + Worth(s[6])
    + 3 * Worth(s[7]) + Worth(s[8]) + 3 * Worth(s[9]) + Worth(s[10]) + 3 * Worth(s[11])
  }

  /** The older sum for nine symbols or more: weights from ten down to two. */
  function Weighted9(s: string): int
    requires |s| >= 9
  {
    10 * WorthX(s[0]) + 9 * WorthX(s[1]) + 8 * WorthX(s[2]) + 7 * WorthX(s[3]) + 6 * WorthX(s[4]) + 5 * WorthX(s[5])
    + 4 * WorthX(s[6]) + 3 * WorthX(s[7]) + 2 * WorthX(s[8])
  }

  lemma OneMore13(s: string, n: nat)
    requires n < |s| && AllDigits(s)
    ensures Sum13(s[..n + 1]) == Sum13(s[..n]) + Worth(s[n]) * (if n % 2 == 0 then 1 else 3)
  {
    assert s[..n + 1][..n] == s[..n];
  }

  lemma Sum13OfTwelve(s: string)
    requires |s| >= 12 && AllDigits(s)
    ensures Sum13(s[..12]) == Ean12(s)
  {
    hide Sum13, Worth;
    assert Sum13(s[..0]) == 0 by { NoSums(); assert s[..0] == ""; }
    OneMore13(s, 0);
    OneMore13(s, 1);
    OneMore13(s, 2);
    OneMore13(s, 3);
    OneMore13(s, 4);
    OneMore13(s, 5);
    OneMore13(s, 6);
    OneMore13(s, 7);
    OneMore13(s, 8);
    OneMore13(s, 9);
    OneMore13(s, 10);
    OneMore13(s, 11);
  }

  lemma NoSums()
    ensures Sum13("") == 0 && Sum10("") == 0 && SumOfDigits10("") == 0
  {
  }

  lemma OneMore10(s: string, n: nat)
    requires n < |s| && AllSymbols(s)
    ensures Sum10(s[..n + 1]) == Sum10(s[..n]) + WorthX(s[n]) * (10 - n)
  {
    assert s[..n + 1][..n] == s[..n];
  }

  lemma Sum10OfNine(s: string)
    requires |s| >= 9 && AllSymbols(s)
    ensures Sum10(s[..9]) == Weighted9(s)
  {
    hide Sum10, WorthX;
    assert Sum10(s[..0]) == 0 by { NoSums(); assert s[..0] == ""; }
    OneMore10(s, 0);
    OneMore10(s, 1);
    OneMore10(s, 2);
    OneMore10(s, 3);
    OneMore10(s, 4);
    OneMore10(s, 5);
    OneMore10(s, 6);
    OneMore10(s, 7);
    OneMore10(s, 8);
  }

  /** Thirteen digits are a valid code exactly when the standard's sum is divisible by ten. */
  lemma Valid13IsStandard(s: string)
    requires |s| == 13 && forall i :: 0 <= i < 13 ==> '0' <= s[i] <= '9'
    ensures Parse(s) == Some(Isbn13(s)) <==> (Ean12(s) + Worth(s[12])) % 10 == 0
  {
    hide Sum13, Worth;
    CleanText(s);
    Sum13OfTwelve(s);
    OneMore13(s, 12);
    assert s[..13] == s;
  }

  /** Ten symbols are a valid code exactly when the older sum is divisible by eleven. */
  lemma Valid10IsStandard(s: string)
    requires |s| == 10 && forall i :: 0 <= i < 10 ==> '0' <= s[i] <= '9' || s[i] == 'X'
    ensures Parse(s) == Some(Isbn10(s)) <==> (Weighted9(s) + WorthX(s[9])) % 11 == 0
  {
    hide Sum10, WorthX;
    CleanText(s);
    Sum10OfNine(s);
    OneMore10(s, 9);
    assert s[..10] == s;
  }

  /** The check digit makes up for the rest of the standard's sum. */
  lemma Check13IsStandard(first12: string)
    requires |first12| == 12 && AllDigits(first12)
    ensures IsDigit(Check13(first12)) && Worth(Check13(first12)) == (10 - Ean12(first12) % 10) % 10
  {
    hide Sum13;
    Sum13OfTwelve(first12);
    assert first12[..12] == first12;
  }

  lemma Check10IsStandard(first9: string)
    requires |first9| == 9 && AllDigits(first9)
    ensures IsSymbol(Check10(first9)) && WorthX(Check10(first9)) == (11 - Weighted9(first9) % 11) % 11
  {
    hide Sum10, SumOfDigits10;
    Sum10OfNine(first9);
    DigitSums(first9);
    assert first9[..9] == first9;
  }

  /** The codes of one book: both are valid, hyphens do not matter, and a letter may be the check symbol. */
  lemma CodesOfDune()
    ensures Parse("9780441013593") == Some(Isbn13("9780441013593"))
    ensures Parse("978-0-441-01359-3") == Some(Isbn13("9780441013593"))
    ensures Parse("0441013597") == Some(Isbn10("0441013597"))
    ensures Parse("080442957X") == Some(Isbn10("080442957X"))
  {
    hide Parse;
    Dune13();
    Dune10();
    LetterCode();
    HyphensAreDropped();
    SameWhenCleaned("978-0-441-01359-3", "9780441013593");
  }

  lemma Dune13()
    ensures Parse("9780441013593") == Some(Isbn13("9780441013593"))
  {
    hide Parse;
    Valid13IsStandard("9780441013593");
  }

  lemma Dune10()
    ensures Parse("0441013597") == Some(Isbn10("0441013597"))
  {
    hide Parse;
    Valid10IsStandard("0441013597");
  }

  lemma LetterCode()
    ensures Parse("080442957X") == Some(Isbn10("080442957X"))
  {
    hide Parse;
    Valid10IsStandard("080442957X");
  }

  lemma SameWhenCleaned(input: string, code: string)
    requires Cleaned(input) == code && AllSymbols(code)
    ensures Parse(input) == Parse(code)
  {
    hide Cleaned;
    CleanText(code);
  }

  /** A wrong last digit is refused, and so is another number of digits. */
  lemma WrongCodes()
    ensures Parse("9780441013590") == None && Parse("12345") == None
  {
    hide Sum13, Sum10, Cleaned, Worth;
    CleanText("9780441013590");
    CleanText("12345");
    assert Parse("9780441013590") != Some(Isbn13("9780441013590")) by {
      hide Parse;
      Valid13IsStandard("9780441013590");
      assert (Ean12("9780441013590") + Worth('0')) % 10 == 7 by { SumOfDune(); }
    }
  }

  lemma SumOfDune()
    ensures Ean12("9780441013590") + Worth('0') == 97
  {
  }

  /** Each converts to the other. A 979 code has no ISBN-10. */
  lemma ConversionsOfDune()
    ensures ToIsbn13(Isbn10("0441013597")) == "9780441013593"
    ensures ToIsbn10(Isbn13("9780441013593")) == Some("0441013597")
    ensures ToIsbn10(Isbn13("9791032305690")) == None
  {
    hide Check10, Check13;
    ChecksOfDune();
    assert "978" + "0441013597"[..9] == "978044101359";
    assert "9780441013593"[3..12] == "044101359" && "9780441013593"[..3] == "978" && "9791032305690"[..3] == "979";
    assert "978044101359" + ['3'] == "9780441013593" && "044101359" + ['7'] == "0441013597";
  }

  lemma ChecksOfDune()
    ensures Check13("978044101359") == '3' && Check10("044101359") == '7'
  {
    hide Check10, Check13;
    Check13IsStandard("978044101359");
    Check10IsStandard("044101359");
    OnlyDigitWorth(Check13("978044101359"), '3');
    OnlyDigitWorth(Check10("044101359"), '7');
  }

  lemma OnlyDigitWorth(c: char, d: char)
    requires IsSymbol(c) && IsDigit(d) && WorthX(c) == Worth(d)
    ensures c == d
  {
  }

  lemma {:induction false} CleanAppend(a: string, b: string)
    ensures Cleaned(a + b) == Cleaned(a) + Cleaned(b)
  {
    if a == [] {
      assert a + b == b;
    } else {
      assert (a + b)[1..] == a[1..] + b;
      CleanAppend(a[1..], b);
    }
  }

  lemma HyphensAreDropped()
    ensures Cleaned("978-0-441-01359-3") == "9780441013593"
  {
    hide Cleaned;
    assert "978-0-441-01359-3" == "978" + ("-" + ("0" + ("-" + ("441" + ("-" + ("01359" + ("-" + "3")))))));
    CleanText("978");
    CleanText("0");
    CleanText("441");
    CleanText("01359");
    CleanText("3");
    assert Cleaned("-") == "" by { OneHyphen(); }
    CleanAppend("-", "3");
    CleanAppend("01359", "-" + "3");
    CleanAppend("-", "01359" + ("-" + "3"));
    CleanAppend("441", "-" + ("01359" + ("-" + "3")));
    CleanAppend("-", "441" + ("-" + ("01359" + ("-" + "3"))));
    CleanAppend("0", "-" + ("441" + ("-" + ("01359" + ("-" + "3")))));
    CleanAppend("-", "0" + ("-" + ("441" + ("-" + ("01359" + ("-" + "3"))))));
    CleanAppend("978", "-" + ("0" + ("-" + ("441" + ("-" + ("01359" + ("-" + "3")))))));
  }

  lemma OneHyphen()
    ensures Cleaned("-") == ""
  {
    assert "-"[1..] == "";
  }
}
