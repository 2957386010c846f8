/** White space and keywords in the texts a user types. */
module FilterWords {
  import opened Wrappers
  import opened Text
  import opened Filters
  import opened FilterTokens
  import opened FilterTheorem
  import opened FilterExact
  import opened FilterFields

  /** The characters with Unicode's White_Space property. */
  const WHITE_SPACE: seq<int> :=
    [0x09, 0x0A, 0x0B, 0x0C, 0x0D, 0x20, 0x85, 0xA0, 0x1680, 0x2000, 0x2001, 0x2002, 0x2003, 0x2004, 0x2005, 0x2006,
     0x2007, 0x2008, 0x2009, 0x200A, 0x2028, 0x2029, 0x202F, 0x205F, 0x3000]

  lemma SpacesAreListed(c: char)
    ensures IsSpace(c) <==> c as int in WHITE_SPACE
  {
  }

  /** The value of a condition typed as a word of its own, after any white space: a keyword is no value. */
  lemma ValueMayStandApart(f: FilterField, c: char, w: string)
    requires f in [Status, Tag, Mood, Pace, Author, Format, Shelf] && IsPlainWord(w) && c as int in WHITE_SPACE
    ensures ParseFilter(FieldText(f) + ":" + ([c] + w)) ==
      if LowerCase(w) in ["and", "or"] then None else Some(Condition(FilterCondition(f, Eq, w)))
  {
    var s := FieldText(f) + ":";
    SpacesAreListed(c);
    ApartTokens(f, c, w);
    ApartCondition(f, w);
    PlainIsNonempty(w);
    hide Tokens, ParseCondition, IsPlainWord, FieldText, LowerCase, ParseOr;
    if LowerCase(w) in ["and", "or"] {
      NoFirstCondition([s, w]);
    } else {
      ConditionAlone([s, w], FilterCondition(f, Eq, w));
    }
  }

  lemma ApartTokens(f: FilterField, c: char, w: string)
    requires IsPlainWord(w) && IsSpace(c)
    ensures Tokens(FieldText(f) + ":" + ([c] + w)) == Some([FieldText(f) + ":", w])
    ensures FieldText(f) + ":" != "("
  {
    var s := FieldText(f) + ":";
    FieldReadsBack(f);
    hide FieldText, ParseField;
    assert !HasEndOfWord(s) && s[0] != '"';
    WordIsToken(s, [c] + w);
    assert ([c] + w)[1..] == w && w + "" == w;
    WordIsToken(w, "");
    NoTokens();
    Filters.SpaceIsSkipped([c] + w);
    PrependTwice([s], [w], Some([]));
    hide Tokens, IsSpace, HasEndOfWord;
    assert [s] + [w] == [s, w] && [s, w] + [] == [s, w];
  }

  lemma ApartCondition(f: FilterField, w: string)
    requires f in [Status, Tag, Mood, Pace, Author, Format, Shelf] && IsPlainWord(w)
    ensures ParseCondition([FieldText(f) + ":", w], 0) ==
      if LowerCase(w) in ["and", "or"] then None else Some((Condition(FilterCondition(f, Eq, w)), 2))
  {
    var s := FieldText(f) + ":";
    FieldReadsBack(f);
    hide FieldText, ParseField, LowerCase, IndexOfColon;
    ColonAt(FieldText(f), "");
    assert FieldText(f) + ":" + "" == s;
    assert s[..|FieldText(f)|] == FieldText(f) && s[|FieldText(f)| + 1..] == "";
    assert StripQuotes(w) == w && w != "(" && w != ")";
  }

  /** A list of tokens that starts with no condition is no expression. */
  lemma NoFirstCondition(ts: seq<string>)
    requires ts != [] && ts[0] != "(" && ParseCondition(ts, 0) == None
    ensures ParseOr(ts, 0) == None
  {
    hide ParseCondition, IsWord;
    assert ParseAtom(ts, 0) == None;
    assert AndOperands(ts, 0, []) == None;
    assert ParseAnd(ts, 0) == None;
    assert OrOperands(ts, 0, []) == None;
  }

  /** Nor is a parenthesis a value, and nor is nothing. */
  lemma NoValue(f: FilterField, rest: string)
    requires rest in ["", " ", " (", " )"]
    ensures ParseFilter(FieldText(f) + ":" + rest) == None
  {
    var s := FieldText(f) + ":";
    FieldReadsBack(f);
    hide FieldText, ParseField;
    assert s + "" == s && !HasEndOfWord(s) && s[0] != '"';
    hide HasEndOfWord;
    WordIsToken(s, rest);
    RestTokens(rest);
    hide Tokens;
    NothingToRead(f, Tokens(s + rest).value);
    hide ParseCondition, ParseOr;
    NoFirstCondition(Tokens(s + rest).value);
  }

  lemma NothingToRead(f: FilterField, ts: seq<string>)
    requires ts != [] && ts[0] == FieldText(f) + ":" && (|ts| > 1 ==> ts[1] == "(" || ts[1] == ")")
    ensures ParseCondition(ts, 0) == None
  {
    FieldReadsBack(f);
    ColonAt(FieldText(f), "");
    hide FieldText, ParseField, IndexOfColon;
    assert FieldText(f) + ":" + "" == ts[0] && ts[0][|FieldText(f)| + 1..] == "";
  }

  lemma RestTokens(rest: string)
    requires rest in ["", " ", " (", " )"]
    ensures Tokens(rest) == if |rest| < 2 then Some([]) else Some([rest[1..]])
  {
    NoTokens();
    if rest == " " {
      assert rest[1..] == "";
    } else if |rest| == 2 {
      assert rest[1..] == if rest == " (" then "(" else ")";
      ParenIsToken(rest[1..], "");
      assert rest[1..] + "" == rest[1..] && [rest[1..]] + [] == [rest[1..]];
    }
  }

  /** They also refuse a month or a day with another character than a digit, or than a plus sign in front. */
  lemma OtherDaysRefused(f: FilterField, op: FilterOp, w: string, i: nat)
    requires (f == PubDate || f == DateAdded) && IsPlainWord(w) && |w| == 10
    requires i in [5, 6, 8, 9] && !IsDigit(w[i]) && ((i == 5 || i == 8) ==> w[i] != '+')
    ensures Refused(f, op, w)
  {
    hide Accepted, Refused, IsPlainWord;
    DecidedByValue(f, op, w);
    var part := if i < 7 then w[5..7] else w[8..];
    var k := if i < 7 then i - 5 else i - 8;
    assert part[k] == w[i] && |part| == 2;
    OtherCharacter(part, k);
    if k == 1 {
      OtherCharacter(part[1..], 0);
    }
    hide ParseDigits;
  }

  // ---------------------------------------------------------------------------
  // One word
  // ---------------------------------------------------------------------------

  /** A word that is no quote and no parenthesis, and holds no white space. */
  predicate IsOneWord(s: string)
  {
    s != [] && s[0] != '"' && forall i :: 0 <= i < |s| ==> !IsSpace(s[i]) && s[i] != '(' && s[i] != ')'
  }

  lemma OneToken(s: string)
    requires IsOneWord(s)
    ensures Tokens(s) == Some([s]) && s != "("
  {
    assert s + "" == s && [s] + [] == [s];
    WordIsToken(s, "");
    NoTokens();
    hide Tokens;
  }

  lemma OneWordDecides(s: string)
    requires IsOneWord(s)
    ensures ParseCondition([s], 0) == None ==> ParseFilter(s) == None
    ensures forall c :: ParseCondition([s], 0) == Some((Condition(c), 1)) ==> ParseFilter(s) == Some(Condition(c))
  {
    OneToken(s);
    hide Tokens, ParseCondition, IsOneWord, ParseOr;
    if ParseCondition([s], 0) == None {
      NoFirstCondition([s]);
    } else if c :| ParseCondition([s], 0) == Some((Condition(c), 1)) {
      ConditionAlone([s], c);
    }
  }

  /** A word without a colon is no filter, and nor is one whose name before the colon is no field's. */
  lemma UnknownFieldRefused(name: string, rest: string)
    requires forall i :: 0 <= i < |name| ==> name[i] != ':'
    ensures IsOneWord(name) ==> ParseFilter(name) == None
    ensures IsOneWord(name + ":" + rest) && (forall f :: LowerCase(name) !in Names(f)) ==>
      ParseFilter(name + ":" + rest) == None
  {
    hide ParseFilter, IsOneWord, LowerCase, Names, ParseField;
    if IsOneWord(name) {
      OneWordDecides(name);
    }
    if IsOneWord(name + ":" + rest) && forall f :: LowerCase(name) !in Names(f) {
      ColonAt(name, rest);
      assert (name + ":" + rest)[..|name|] == name;
      if ParseField(name).Some? {
        FieldNames(name, ParseField(name).value);
      }
      OneWordDecides(name + ":" + rest);
    }
  }

  /** An equals sign in front of the value changes nothing. */
  lemma EqualsSignIsDropped(f: FilterField, w: string)
    requires IsPlainWord(w)
    ensures ParseFilter(FieldText(f) + ":=" + w) == ParseFilter(Typed(f, Eq, w))
  {
    var s := FieldText(f) + ":=" + w;
    WordCondition(f, Eq, w);
    DecidedByValue(f, Eq, w);
    EqualsCondition(f, w);
    hide ParseFilter, ParseCondition, IsPlainWord, IsOneWord, Typed, IsValid, Tokens;
    OneWordDecides(s);
  }

  lemma EqualsCondition(f: FilterField, w: string)
    requires IsPlainWord(w)
    ensures IsOneWord(FieldText(f) + ":=" + w)
    ensures ParseCondition([FieldText(f) + ":=" + w], 0) == Checked(f, Eq, w, 1)
  {
    hide *;
    FieldReadsBack(f);
    EqualsSplits(w);
    WordIsUnquoted(w);
    EqualsInWord(w);
    OneWordOf(FieldText(f), ":=" + w);
    SameText(FieldText(f), w);
    TokenCondition(f, "=" + w, Eq, w);
  }

  lemma SameText(a: string, w: string)
    ensures a + ":=" + w == a + ":" + ("=" + w) == a + (":=" + w)
  {
  }

  lemma EqualsInWord(w: string)
    requires IsPlainWord(w)
    ensures var b := ":=" + w; forall i :: 0 <= i < |b| ==> !IsSpace(b[i]) && b[i] != '(' && b[i] != ')'
  {
    var b := ":=" + w;
    assert forall i :: 2 <= i < |b| ==> b[i] == w[i - 2];
  }

  lemma TokenCondition(f: FilterField, rest: string, op: FilterOp, text: string)
    requires SplitOp(rest) == (op, text) && text != []
    ensures ParseCondition([FieldText(f) + ":" + rest], 0) == Checked(f, op, StripQuotes(text), 1)
  {
    var s := FieldText(f) + ":" + rest;
    FieldReadsBack(f);
    ColonAt(FieldText(f), rest);
    hide FieldText, ParseField, IndexOfColon, IsValid, HasEndOfWord, SplitOp, StripQuotes;
    assert s[..|FieldText(f)|] == FieldText(f) && s[|FieldText(f)| + 1..] == rest;
  }

  lemma WordIsUnquoted(w: string)
    requires IsPlainWord(w)
    ensures StripQuotes(w) == w && w != []
  {
  }

  lemma EqualsSplits(w: string)
    ensures SplitOp("=" + w) == (Eq, w)
  {
    assert ("=" + w)[0] == '=' && ("=" + w)[1..] == w;
  }

  lemma OneWordOf(a: string, b: string)
    requires a != [] && a[0] != '"' && !HasEndOfWord(a)
    requires forall i :: 0 <= i < |b| ==> !IsSpace(b[i]) && b[i] != '(' && b[i] != ')'
    ensures IsOneWord(a + b)
  {
    hide IsSpace;
    forall i | 0 <= i < |a + b| ensures !EndsWord((a + b)[i]) {
      if i < |a| {
        assert (a + b)[i] == a[i];
      }
    }
  }

  /** A number may have a plus sign. */
  lemma PlusNumbersAccepted(f: FilterField, op: FilterOp, n: nat)
    requires f == Rating || f == Pages
    ensures if n < 0x8000_0000_0000_0000 then Accepted(f, op, "+" + Decimal(n)) else Refused(f, op, "+" + Decimal(n))
  {
    var w := "+" + Decimal(n);
    DecimalReadsBack(n);
    DigitsArePlain(Decimal(n));
    hide Accepted, Refused, Decimal, ParseDigits, IsPlainWord;
    assert w[1..] == Decimal(n);
    DecidedByValue(f, op, w);
  }

  /** A field is printed by its first name. */
  lemma PrintedName(c: FilterCondition)
    ensures ConditionText(c) == Names(c.field)[0] + ":" + OpText(c.op) + c.value
  {
    hide OpText;
  }

  // ---------------------------------------------------------------------------
  // Parentheses
  // ---------------------------------------------------------------------------

  /** A parenthesis without its other half is refused. */
  lemma LoneParenRefused(e: FilterExpr)
    requires Printable(e, 1)
    ensures ParseFilter("(" + Print(e)) == None && ParseFilter(Print(e) + ")") == None
  {
    var ts := TokensOf(e);
    PrintTokenizes(e, "");
    PrintTokenizes(e, ")");
    ParenIsToken("(", Print(e));
    ParenIsToken(")", "");
    EmptyText();
    hide Tokens, Print, TokensOf, Printable, ParseOr;
    assert Print(e) + "" == Print(e) && ")" + "" == ")" && ts + [] == ts && [")"] + [] == [")"];
    OpenGroup(e, ["("] + ts);
    ClosedTwice(e, ts + [")"]);
  }

  lemma OpenGroup(e: FilterExpr, ts: seq<string>)
    requires Printable(e, 1) && ts == ["("] + TokensOf(e)
    ensures ParseOr(ts, 0) == None
  {
    hide TokensOf, Printable, Flatten, ParseOr;
    assert ts[1..1 + |TokensOf(e)|] == TokensOf(e);
    ReadExpression(e, ts, 1);
    NoAtom(ts);
  }

  lemma NoAtom(ts: seq<string>)
    requires ParseAtom(ts, 0) == None
    ensures ParseOr(ts, 0) == None
  {
    hide ParseAtom;
    assert AndOperands(ts, 0, []) == None;
    assert ParseAnd(ts, 0) == None;
    assert OrOperands(ts, 0, []) == None;
  }

  lemma ClosedTwice(e: FilterExpr, ts: seq<string>)
    requires Printable(e, 1) && ts == TokensOf(e) + [")"]
    ensures ParseOr(ts, 0) == Some((Flatten(e), |ts| - 1))
  {
    assert ts[0..|TokensOf(e)|] == TokensOf(e) && ts[|TokensOf(e)|] == ")";
    assert !IsWord(")", "and") && !IsWord(")", "or");
    hide TokensOf, Printable, Flatten, ParseOr, IsWord;
    ReadExpression(e, ts, 0);
  }
}
