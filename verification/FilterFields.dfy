/** Which field takes which operator and value, stated on the texts a user types. */
module FilterFields {
  import opened Wrappers
  import opened Text
  import opened Filters
  import opened FilterTokens
  import opened FilterTheorem
  import opened FilterExact

  /** A word that is no operator, no quote and no parenthesis, and holds no white space. */
  predicate IsPlainWord(w: string)
  {
    && w != [] && w[0] != '<' && w[0] != '>' && w[0] != '=' && w[0] != '"'
    && forall i :: 0 <= i < |w| ==> !IsSpace(w[i]) && w[i] != '(' && w[i] != ')'
  }

  /** One condition as it is typed. */
  function Typed(f: FilterField, op: FilterOp, w: string): string
  {
    FieldText(f) + ":" + OpText(op) + w
  }

  /** The text is read as that condition. */
  predicate Accepted(f: FilterField, op: FilterOp, w: string)
  {
    ParseFilter(Typed(f, op, w)) == Some(Condition(FilterCondition(f, op, w)))
  }

  predicate Refused(f: FilterField, op: FilterOp, w: string)
  {
    ParseFilter(Typed(f, op, w)) == None
  }

  // ---------------------------------------------------------------------------
  // One token
  // ---------------------------------------------------------------------------

  lemma WordIsPlain(f: FilterField, op: FilterOp, w: string)
    requires IsPlainWord(w)
    ensures IsPlain(FilterCondition(f, op, w)) && Typed(f, op, w) == ConditionText(FilterCondition(f, op, w))
  {
  }

  /** A list of one token that is no condition is no expression. */
  lemma NoCondition(ts: seq<string>)
    requires |ts| == 1 && ts[0] != "(" && ParseCondition(ts, 0) == None
    ensures ParseOr(ts, 0) == None
  {
    hide ParseCondition, IsWord;
    assert ParseAtom(ts, 0) == None;
    assert AndOperands(ts, 0, []) == None;
    assert ParseAnd(ts, 0) == None;
    assert OrOperands(ts, 0, []) == None;
  }

  lemma WordCondition(f: FilterField, op: FilterOp, w: string)
    requires IsPlainWord(w)
    ensures var s := Typed(f, op, w);
      s != "(" && Tokens(s) == Some([s]) && ParseCondition([s], 0) == Checked(f, op, w, 1)
  {
    hide IsValid, SplitOp, FieldText, ParseField, IndexOfColon, HasEndOfWord, ConditionText, Tokens, StripQuotes;
    var c, s := FilterCondition(f, op, w), Typed(f, op, w);
    WordIsPlain(f, op, w);
    ConditionIsToken(c, "");
    EmptyText();
    assert s + "" == s && [s] + [] == [s];
    ConditionParts(c);
    FieldReadsBack(f);
    OpReadsBack(c);
  }

  /** A condition is accepted or refused by its field, operator and value alone. */
  lemma DecidedByValue(f: FilterField, op: FilterOp, w: string)
    requires IsPlainWord(w)
    ensures if IsValid(FilterCondition(f, op, w)) then Accepted(f, op, w) else Refused(f, op, w)
  {
    hide IsValid, Typed, Tokens, ParseOr, ParseCondition, IsPlainWord;
    var c, s := FilterCondition(f, op, w), Typed(f, op, w);
    WordCondition(f, op, w);
    if IsValid(c) {
      ConditionAlone([s], c);
    } else {
      NoCondition([s]);
    }
  }

  lemma DigitsArePlain(ds: string)
    requires ds != [] && AllDigits(ds)
    ensures IsPlainWord(ds) && IsPlainWord("-" + ds) && IsPlainWord("+" + ds)
  {
    assert forall i :: 0 <= i < |ds| ==> IsDigit(ds[i]);
  }

  // ---------------------------------------------------------------------------
  // Numbers
  // ---------------------------------------------------------------------------

  lemma NumberText(n: nat)
    ensures IsI64Text(Decimal(n)) <==> n < 0x8000_0000_0000_0000
    ensures IsI64Text("-" + Decimal(n)) <==> n <= 0x8000_0000_0000_0000
  {
    hide Decimal, ParseDigits;
    DecimalReadsBack(n);
    assert ("-" + Decimal(n))[1..] == Decimal(n);
    assert IsDigit(Decimal(n)[0]);
  }

  /** Rating and pages take every 64-bit number, with every operator. */
  lemma NumbersAccepted(f: FilterField, op: FilterOp, n: nat)
    requires f == Rating || f == Pages
    ensures if n < 0x8000_0000_0000_0000 then Accepted(f, op, Decimal(n)) else Refused(f, op, Decimal(n))
    ensures if n <= 0x8000_0000_0000_0000 then Accepted(f, op, "-" + Decimal(n)) else Refused(f, op, "-" + Decimal(n))
  {
    hide Accepted, Refused, Decimal, IsI64Text, IsPlainWord;
    DecimalReadsBack(n);
    DigitsArePlain(Decimal(n));
    NumberText(n);
    DecidedByValue(f, op, Decimal(n));
    DecidedByValue(f, op, "-" + Decimal(n));
  }

  lemma {:induction false} OtherCharacter(s: string, i: nat)
    requires i < |s| && !IsDigit(s[i])
    ensures ParseDigits(s).None?
  {
    if i < |s| - 1 {
      OtherCharacter(s[..|s| - 1], i);
    }
  }

  /** They refuse a word with any other character than digits and a sign in front, and a sign alone. */
  lemma OtherWordsRefused(f: FilterField, op: FilterOp, w: string, i: nat)
    requires (f == Rating || f == Pages) && IsPlainWord(w)
    requires w == "-" || w == "+" || (i < |w| && !IsDigit(w[i]) && (i == 0 ==> w[0] != '-' && w[0] != '+'))
    ensures Refused(f, op, w)
  {
    hide Accepted, Refused, ParseDigits;
    DecidedByValue(f, op, w);
    if w == "-" || w == "+" {
      assert w[1..] == "" && |w| == 1;
      OtherCharacter(w, 0);
      NoDigits();
    } else {
      OtherCharacter(w, i);
      if i > 0 {
        OtherCharacter(w[1..], i - 1);
      }
    }
  }

  lemma NoDigits()
    ensures ParseDigits("") == None
  {
  }

  // ---------------------------------------------------------------------------
  // Words
  // ---------------------------------------------------------------------------

  /** The other fields take any word, and no comparison. */
  lemma WordsAccepted(f: FilterField, op: FilterOp, w: string)
    requires f in [Status, Tag, Mood, Pace, Author, Format, Shelf] && IsPlainWord(w)
    ensures if op == Eq then Accepted(f, op, w) else Refused(f, op, w)
  {
    hide Accepted, Refused, IsPlainWord;
    DecidedByValue(f, op, w);
    assert w != [] by { PlainIsNonempty(w); }
  }

  lemma PlainIsNonempty(w: string)
    requires IsPlainWord(w)
    ensures w != []
  {
  }

  // ---------------------------------------------------------------------------
  // Dates
  // ---------------------------------------------------------------------------

  lemma PartIsUnsigned(n: nat, w: nat, limit: nat)
    requires 1 <= w && n < Pow10(w) && n < limit
    ensures |Pad(n, w)| == w && ParseUnsigned(Pad(n, w), limit) == Some(n)
    ensures AllDigits(Pad(n, w))
  {
    hide Pad, ParseDigits, Pow10;
    PadWidth(n, w);
    PadReadsBack(n, w);
    assert IsDigit(Pad(n, w)[0]);
  }

  lemma SmallPowers()
    ensures Pow10(2) == 100 && Pow10(4) == 10_000
  {
    assert Pow10(1) == 10 && Pow10(3) == 1000;
  }

  function DayText(y: nat, m: nat, d: nat): string
  {
    Pad(y, 4) + ("-" + (Pad(m, 2) + ("-" + Pad(d, 2))))
  }

  lemma DayParts(y: nat, m: nat, d: nat)
    requires y <= 9999 && m < 100 && d < 100
    ensures IsDateText(Pad(y, 4)) && IsPlainWord(Pad(y, 4))
    ensures IsDateText(DayText(y, m, d)) && IsPlainWord(DayText(y, m, d))
  {
    hide Pad, ParseUnsigned, Pow10;
    SmallPowers();
    PartIsUnsigned(y, 4, 65536);
    PartIsUnsigned(m, 2, 256);
    PartIsUnsigned(d, 2, 256);
    DigitsArePlain(Pad(y, 4));
    var s := DayText(y, m, d);
    assert s[..4] == Pad(y, 4) && s[5..7] == Pad(m, 2) && s[8..] == Pad(d, 2) && s[4] == '-' && s[7] == '-';
    forall i | 0 <= i < |s| ensures IsDigit(s[i]) || s[i] == '-' {
      if i < 4 {
        assert s[i] == Pad(y, 4)[i];
      } else if 5 <= i < 7 {
        assert s[i] == Pad(m, 2)[i - 5];
      } else if i >= 8 {
        assert s[i] == Pad(d, 2)[i - 8];
      }
    }
  }

  /** The date fields take every four-digit year and every date of three numbers, with every operator; the program
      does not look at the calendar. */
  lemma DatesAccepted(f: FilterField, op: FilterOp, y: nat, m: nat, d: nat)
    requires (f == PubDate || f == DateAdded) && y <= 9999 && m < 100 && d < 100
    ensures Accepted(f, op, Pad(y, 4)) && Accepted(f, op, DayText(y, m, d))
  {
    hide Accepted, Refused, Pad, IsDateText, DayText, IsPlainWord;
    DayParts(y, m, d);
    PlainIsNonempty(Pad(y, 4));
    PlainIsNonempty(DayText(y, m, d));
    DecidedByValue(f, op, Pad(y, 4));
    DecidedByValue(f, op, DayText(y, m, d));
  }

  /** They refuse a word of any other length, with another character in the year, or without its two hyphens. */
  lemma OtherDatesRefused(f: FilterField, op: FilterOp, w: string, i: nat)
    requires (f == PubDate || f == DateAdded) && IsPlainWord(w)
    requires (|w| != 4 && |w| != 10) || (0 < i < 4 && i < |w| && !IsDigit(w[i]))
      || (|w| == 10 && (w[4] != '-' || w[7] != '-'))
    ensures Refused(f, op, w)
  {
    hide Accepted, Refused, ParseDigits, IsPlainWord;
    DecidedByValue(f, op, w);
    if 0 < i < 4 && i < |w| && !IsDigit(w[i]) {
      OtherCharacter(w, i);
      OtherCharacter(w[1..], i - 1);
      if |w| == 10 {
        OtherCharacter(w[..4], i);
        OtherCharacter(w[..4][1..], i - 1);
      }
    }
  }

  // ---------------------------------------------------------------------------
  // Texts
  // ---------------------------------------------------------------------------

  /** Known texts: numbers. */
  lemma KnownNumbers()
    ensures ParseFilter("pages:>400") == Some(Condition(FilterCondition(Pages, Gt, "400")))
    ensures ParseFilter("rating:>=9") == Some(Condition(FilterCondition(Rating, Gte, "9")))
  {
    hide ParseFilter, Decimal;
    TwoNumbers();
    NumbersAccepted(Pages, Gt, 400);
    NumbersAccepted(Rating, Gte, 9);
    assert Typed(Pages, Gt, "400") == "pages:>400" && Typed(Rating, Gte, "9") == "rating:>=9";
  }

  lemma TwoNumbers()
    ensures Decimal(400) == "400" && Decimal(9) == "9"
  {
    assert Decimal(40) == Decimal(4) + "0";
    assert Decimal(400) == Decimal(40) + "0";
  }

  /** Words. */
  lemma KnownWords()
    ensures ParseFilter("status:want_to_read") == Some(Condition(FilterCondition(Status, Eq, "want_to_read")))
    ensures ParseFilter("pages:abc") == None && ParseFilter("tag:>fantasy") == None
  {
    hide ParseFilter, IsPlainWord;
    assert Typed(Status, Eq, "want_to_read") == "status:want_to_read";
    assert Typed(Pages, Eq, "abc") == "pages:abc";
    assert Typed(Tag, Gt, "fantasy") == "tag:>fantasy";
    assert !IsDigit("abc"[0]) && "abc"[0] == 'a' && |"abc"| == 3;
    hide Typed, Accepted, Refused;
    PlainWords();
    KnownWord();
    WordsAccepted(Tag, Gt, "fantasy");
    OtherWordsRefused(Pages, Eq, "abc", 0);
    assert Refused(Pages, Eq, "abc") && Refused(Tag, Gt, "fantasy");
    RefusedText(Pages, Eq, "abc");
    RefusedText(Tag, Gt, "fantasy");
  }

  lemma RefusedText(f: FilterField, op: FilterOp, w: string)
    requires Refused(f, op, w)
    ensures ParseFilter(Typed(f, op, w)) == None
  {
    hide ParseFilter;
  }

  lemma KnownWord()
    ensures ParseFilter(Typed(Status, Eq, "want_to_read")) ==
      Some(Condition(FilterCondition(Status, Eq, "want_to_read")))
  {
    hide ParseFilter;
    PlainWords();
    WordsAccepted(Status, Eq, "want_to_read");
  }

  lemma PlainWords()
    ensures IsPlainWord("want_to_read") && IsPlainWord("abc") && IsPlainWord("fantasy")
  {
  }

  /** The names by which a field is known. */
  function Names(f: FilterField): seq<string>
  {
    match f
    case Status => ["status"]
    case Tag => ["tag"]
    case Mood => ["mood"]
    case Pace => ["pace"]
    case Rating => ["rating"]
    case Pages => ["pages", "page_count"]
    case Author => ["author"]
    case Format => ["format"]
    case Shelf => ["shelf"]
    case PubDate => ["pub_date", "published"]
    case DateAdded => ["date_added", "added", "created"]
  }

  /** In small or capital letters, these and no others. */
  lemma FieldNames(s: string, f: FilterField)
    ensures ParseField(s) == Some(f) <==> LowerCase(s) in Names(f)
  {
    hide LowerCase;
    NameOf(LowerCase(s), f);
  }

  /** No name stands for two fields. */
  lemma NameOf(t: string, f: FilterField)
    ensures t in Names(f) ==> forall g :: t in Names(g) ==> f == g
  {
    if t in Names(f) {
      forall g | t in Names(g) ensures f == g {
        SameName(t, f, g);
      }
    }
  }

  lemma SameName(t: string, f: FilterField, g: FilterField)
    requires t in Names(f) && t in Names(g)
    ensures f == g
  {
  }

  /** `AND` binds tighter than `OR`, and parentheses group. */
  lemma KnownExpressions(a: string, b: string, c: string)
    requires IsPlainWord(a) && IsPlainWord(b) && IsPlainWord(c)
    ensures ParseFilter("tag:" + a + " AND " + ("tag:" + b) + " OR " + ("tag:" + c)) ==
      Some(Or([And([TagIs(a), TagIs(b)]), TagIs(c)]))
    ensures ParseFilter("tag:" + a + " AND " + ("(" + ("tag:" + b + " OR " + ("tag:" + c)) + ")")) ==
      Some(And([TagIs(a), Or([TagIs(b), TagIs(c)])]))
  {
    hide ParseFilter, IsPlainWord, Printable, Flatten;
    var x, y, z := TagIs(a), TagIs(b), TagIs(c);
    var ab, bc := And([x, y]), Or([y, z]);
    TagsPrint(a);
    TagsPrint(b);
    TagsPrint(c);
    TwoPrint(x, y);
    TwoPrint(y, z);
    TwoPrint(ab, z);
    TwoPrint(x, bc);
    TagsFlatten(x, y, z);
    PrintedFilterParses(Or([ab, z]));
    PrintedFilterParses(And([x, bc]));
    hide Print, TagIs;
  }

  function TagIs(w: string): FilterExpr
  {
    Condition(FilterCondition(Tag, Eq, w))
  }

  lemma TagsPrint(w: string)
    requires IsPlainWord(w)
    ensures Print(TagIs(w)) == "tag:" + w && Printable(TagIs(w), 1) && !TagIs(w).Or? && !TagIs(w).And?
  {
    hide IsPlainWord;
    WordIsPlain(Tag, Eq, w);
    PlainIsNonempty(w);
    hide IsPlain;
    assert "tag" + ":" + "" + w == "tag:" + w;
  }

  lemma TwoPrint(e: FilterExpr, f: FilterExpr)
    ensures Print(And([e, f])) == PrintOperand(e) + " AND " + PrintOperand(f)
    ensures Print(Or([e, f])) == Print(e) + " OR " + Print(f)
    ensures Printable(e, 1) && Printable(f, 1) ==> Printable(And([e, f]), 1) && Printable(Or([e, f]), 1)
  {
    var es := [e, f];
    assert es[1..] == [f] && [f][1..] == [];
    assert PrintAnd([f]) == PrintOperand(f) && PrintOr([f]) == Print(f);
    assert PrintAnd(es) == PrintOperand(es[0]) + " AND " + PrintAnd(es[1..]);
    assert PrintOr(es) == Print(es[0]) + " OR " + PrintOr(es[1..]);
    if Printable(e, 1) && Printable(f, 1) {
      assert AllPrintable([], 1);
      assert AllPrintable([f], 1);
      assert AllPrintable(es, 1);
    }
  }

  lemma TagsFlatten(x: FilterExpr, y: FilterExpr, z: FilterExpr)
    requires x.Condition? && y.Condition? && z.Condition?
    ensures Flatten(Or([And([x, y]), z])) == Or([And([x, y]), z])
    ensures Flatten(And([x, Or([y, z])])) == And([x, Or([y, z])])
  {
    TwoParts(x, y);
    TwoParts(y, z);
    assert Flatten(x) == x && Flatten(y) == y && Flatten(z) == z;
    assert AndParts([x, y]) == [x, y] && OrParts([y, z]) == [y, z];
    var xy, yz := And([x, y]), Or([y, z]);
    assert Flatten(xy) == xy && Flatten(yz) == yz;
    TwoParts(xy, z);
    TwoParts(x, yz);
    assert OrParts([xy, z]) == [xy, z] && AndParts([x, yz]) == [x, yz];
  }

  lemma TwoParts(e: FilterExpr, f: FilterExpr)
    ensures AndParts([e, f]) == AndPart(e) + AndPart(f) && OrParts([e, f]) == OrPart(e) + OrPart(f)
  {
    var es := [e, f];
    assert es[1..] == [f] && [f][1..] == [];
    assert AndParts([f]) == AndPart(f) + [] && OrParts([f]) == OrPart(f) + [];
    assert AndParts(es) == AndPart(es[0]) + AndParts(es[1..]) && OrParts(es) == OrPart(es[0]) + OrParts(es[1..]);
  }
}
