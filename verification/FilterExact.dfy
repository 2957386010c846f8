/** Exactly which conditions survive printing, and what that means for filters a user has typed. */
module FilterExact {
  import opened Wrappers
  import opened Text
  import opened Filters
  import opened FilterTokens
  import opened FilterTheorem

  // ---------------------------------------------------------------------------
  // What the parser produces
  // ---------------------------------------------------------------------------

  /** Every node has at least two operands and every condition is valid. */
  predicate IsProper(e: FilterExpr)
    decreases e, 0
  {
    match e
    case Condition(c) => IsValid(c)
    case And(es) => |es| >= 2 && AllProper(es)
    case Or(es) => |es| >= 2 && AllProper(es)
  }

  predicate AllProper(es: seq<FilterExpr>)
    decreases es, 1
  {
    forall i :: 0 <= i < |es| ==> IsProper(es[i])
  }

  lemma MadeIsProper(es: seq<FilterExpr>)
    requires es != [] && AllProper(es)
    ensures IsProper(MakeAnd(es)) && IsProper(MakeOr(es))
  {
  }

  lemma {:induction false} ParsedOrIsProper(ts: seq<string>, pos: nat)
    requires pos <= |ts| && ParseOr(ts, pos).Some?
    ensures IsProper(ParseOr(ts, pos).value.0)
    decreases |ts| - pos, 3
  {
    hide IsProper;
    ParsedAlternativesAreProper(ts, pos, []);
    MadeIsProper(OrOperands(ts, pos, []).value.0);
  }

  lemma {:induction false} ParsedAlternativesAreProper(ts: seq<string>, pos: nat, before: seq<FilterExpr>)
    requires pos <= |ts| && AllProper(before) && OrOperands(ts, pos, before).Some?
    ensures |OrOperands(ts, pos, before).value.0| > |before| && AllProper(OrOperands(ts, pos, before).value.0)
    decreases |ts| - pos, 2
  {
    hide IsProper, ParseAnd;
    ParsedAndIsProper(ts, pos);
    var (e, next) := ParseAnd(ts, pos).value;
    if next < |ts| && IsWord(ts[next], "or") {
      ParsedAlternativesAreProper(ts, next + 1, before + [e]);
    }
  }

  lemma {:induction false} ParsedAndIsProper(ts: seq<string>, pos: nat)
    requires pos <= |ts| && ParseAnd(ts, pos).Some?
    ensures IsProper(ParseAnd(ts, pos).value.0)
    decreases |ts| - pos, 1
  {
    hide IsProper;
    ParsedOperandsAreProper(ts, pos, []);
    MadeIsProper(AndOperands(ts, pos, []).value.0);
  }

  lemma {:induction false} ParsedOperandsAreProper(ts: seq<string>, pos: nat, before: seq<FilterExpr>)
    requires pos <= |ts| && AllProper(before) && AndOperands(ts, pos, before).Some?
    ensures |AndOperands(ts, pos, before).value.0| > |before| && AllProper(AndOperands(ts, pos, before).value.0)
    decreases |ts| - pos, 0, 1
  {
    hide IsProper, ParseAtom;
    ParsedAtomIsProper(ts, pos);
    var (e, next) := ParseAtom(ts, pos).value;
    if next < |ts| && IsWord(ts[next], "and") {
      ParsedOperandsAreProper(ts, next + 1, before + [e]);
    }
  }

  lemma {:induction false} ParsedAtomIsProper(ts: seq<string>, pos: nat)
    requires pos <= |ts| && ParseAtom(ts, pos).Some?
    ensures IsProper(ParseAtom(ts, pos).value.0)
    decreases |ts| - pos, 0, 0
  {
    hide ParseOr;
    if ts[pos] == "(" {
      hide IsProper;
      ParsedOrIsProper(ts, pos + 1);
    } else {
      hide IsValid;
    }
  }

  /** Every condition's value is plain. */
  predicate HasPlainValues(e: FilterExpr)
    decreases e, 0
  {
    match e
    case Condition(c) => IsPlain(c)
    case And(es) => AllPlainValues(es)
    case Or(es) => AllPlainValues(es)
  }

  predicate AllPlainValues(es: seq<FilterExpr>)
    decreases es, 1
  {
    forall i :: 0 <= i < |es| ==> HasPlainValues(es[i])
  }

  lemma {:induction false} ProperAndPlain(e: FilterExpr)
    requires IsProper(e) && HasPlainValues(e)
    ensures Printable(e, 2)
    decreases e, 0
  {
    if !e.Condition? {
      AllProperAndPlain(e.exprs);
    }
  }

  lemma {:induction false} AllProperAndPlain(es: seq<FilterExpr>)
    requires AllProper(es) && AllPlainValues(es)
    ensures AllPrintable(es, 2)
    decreases es, 1
  {
    if es != [] {
      ProperAndPlain(es[0]);
      assert forall i :: 0 <= i < |es[1..]| ==> es[1..][i] == es[i + 1];
      AllProperAndPlain(es[1..]);
    }
  }

  /** Whatever a user types: a filter that parses, and whose values are plain, can be printed and read
      back without changing which books it selects or how it prints. */
  lemma TypedFilterSurvives(input: string, e: FilterExpr, holds: FilterCondition -> bool)
    requires ParseFilter(input) == Some(e) && HasPlainValues(e)
    ensures ParseFilter(Print(e)) == Some(Flatten(e))
    ensures Eval(Flatten(e), holds) == Eval(e, holds) && Print(Flatten(e)) == Print(e)
  {
    hide ParseOr, Tokens, Print, Flatten, Eval, HasPlainValues;
    ParsedOrIsProper(Tokens(input).value, 0);
    ProperAndPlain(e);
    FilterRoundTrip(e, holds);
  }

  // ---------------------------------------------------------------------------
  // One condition, exactly
  // ---------------------------------------------------------------------------

  /** A condition can only come from the first token, and uses up the whole list. */
  lemma OnlyConditionParses(ts: seq<string>, c: FilterCondition)
    requires ts != [] && ts[0] != "(" && ParseOr(ts, 0) == Some((Condition(c), |ts|))
    ensures ParseCondition(ts, 0) == Some((Condition(c), |ts|))
  {
    hide IsWord;
    OnlyAlternative(ts, c);
    OnlyOperand(ts, c);
    assert ParseAtom(ts, 0) == ParseCondition(ts, 0);
  }

  lemma OnlyAlternative(ts: seq<string>, c: FilterCondition)
    requires ts != [] && ParseOr(ts, 0) == Some((Condition(c), |ts|))
    ensures ParseAnd(ts, 0) == Some((Condition(c), |ts|))
  {
    hide ParseAnd, IsWord;
    assert |OrOperands(ts, 0, []).value.0| == 1;
    var (e, next) := ParseAnd(ts, 0).value;
    var start: seq<FilterExpr> := [];
    assert start + [e] == [e];
    assert OrOperands(ts, 0, start) == MoreOrOperands(ts, next, [e]);
    if next < |ts| && IsWord(ts[next], "or") {
      assert MoreOrOperands(ts, next, [e]) == OrOperands(ts, next + 1, [e]);
      MoreAlternatives(ts, next + 1, [e]);
    }
  }

  lemma OnlyOperand(ts: seq<string>, c: FilterCondition)
    requires ts != [] && ParseAnd(ts, 0) == Some((Condition(c), |ts|))
    ensures ParseAtom(ts, 0) == Some((Condition(c), |ts|))
  {
    hide ParseAtom, IsWord;
    assert |AndOperands(ts, 0, []).value.0| == 1;
    var (e, next) := ParseAtom(ts, 0).value;
    var start: seq<FilterExpr> := [];
    assert start + [e] == [e];
    assert AndOperands(ts, 0, start) == MoreAndOperands(ts, next, [e]);
    if next < |ts| && IsWord(ts[next], "and") {
      assert MoreAndOperands(ts, next, [e]) == AndOperands(ts, next + 1, [e]);
      MoreOperands(ts, next + 1, [e]);
    }
  }

  lemma {:induction false} MoreAlternatives(ts: seq<string>, pos: nat, before: seq<FilterExpr>)
    requires pos <= |ts| && OrOperands(ts, pos, before).Some?
    ensures |OrOperands(ts, pos, before).value.0| > |before|
    decreases |ts| - pos
  {
    hide ParseAnd;
    var (e, next) := ParseAnd(ts, pos).value;
    if next < |ts| && IsWord(ts[next], "or") {
      MoreAlternatives(ts, next + 1, before + [e]);
    }
  }

  lemma {:induction false} MoreOperands(ts: seq<string>, pos: nat, before: seq<FilterExpr>)
    requires pos <= |ts| && AndOperands(ts, pos, before).Some?
    ensures |AndOperands(ts, pos, before).value.0| > |before|
    decreases |ts| - pos
  {
    hide ParseAtom;
    var (e, next) := ParseAtom(ts, pos).value;
    if next < |ts| && IsWord(ts[next], "and") {
      MoreOperands(ts, next + 1, before + [e]);
    }
  }

  lemma {:induction false} FirstTokenFits(s: string)
    requires Tokens(s).Some? && Tokens(s).value != []
    ensures s != [] && |Tokens(s).value[0]| <= |s|
    decreases |s|
  {
    if IsSpace(s[0]) {
      FirstTokenFits(s[1..]);
    }
  }

  lemma SplitShortens(rest: string)
    ensures var (op, text) := SplitOp(rest);
      |text| + |OpText(op)| <= |rest| && (|text| + |OpText(op)| == |rest| ==> rest == OpText(op) + text)
  {
    var (op, text) := SplitOp(rest);
    match op
    case Eq =>
    case Gt => assert rest == ">" + text;
    case Lt => assert rest == "<" + text;
    case Gte => assert rest == ">=" + text;
    case Lte => assert rest == "<=" + text;
  }

  lemma StripShortens(s: string)
    ensures |StripQuotes(s)| <= |s| && (|StripQuotes(s)| == |s| ==> StripQuotes(s) == s)
  {
  }

  /** The first token of a printed condition is the field, the colon and what of the rest is one word. */
  lemma FirstTokenOfCondition(c: FilterCondition)
    ensures var s := ConditionText(c); var n := WordLength(s);
      && |FieldText(c.field)| < n <= |s| && Tokens(s) == Prepend([s[..n]], Tokens(s[n..]))
      && IndexOfColon(s[..n]) == |FieldText(c.field)| && s[..n][..|FieldText(c.field)|] == FieldText(c.field)
  {
    var s, f := ConditionText(c), FieldText(c.field);
    var n := WordLength(s);
    ConditionParts(c);
    FieldReadsBack(c.field);
    hide FieldText, HasEndOfWord, IndexOfColon;
    forall i | 0 <= i <= |f| ensures !EndsWord(s[i]) {
      if i < |f| {
        assert s[i] == f[i];
        assert !EndsWord(f[i]) by { NotInside(f, i); }
      } else {
        assert s[i] == ':';
      }
    }
    assert n > |f|;
    assert s[..n] == f + ":" + s[|f| + 1..n];
    ColonAt(f, s[|f| + 1..n]);
  }

  lemma NotInside(s: string, i: nat)
    requires !HasEndOfWord(s) && i < |s|
    ensures !EndsWord(s[i])
  {
  }

  /** If the printed condition reads back as itself, it is one word, with a clear start and no quotes. */
  lemma SurvivorIsPlain(c: FilterCondition)
    requires ParseFilter(ConditionText(c)) == Some(Condition(c))
    ensures IsPlain(c)
  {
    hide Tokens, WordLength, IndexOfColon, SplitOp, StripQuotes, FieldText, ParseField, IsValid, ParseOr, HasEndOfWord;
    hide OpText, IsKeyword;
    var s, f := ConditionText(c), |FieldText(c.field)|;
    var n, ts := WordLength(s), Tokens(s).value;
    FirstTokenOfCondition(c);
    ConditionParts(c);
    assert ts[0] == s[..n] && ts[0] != "(" by { assert s[..n][0] == s[0]; assert s[0] != '(' by { NoParen(s); } }
    OnlyConditionParses(ts, c);
    var rest := s[..n][f + 1..];
    assert rest == (OpText(c.op) + c.value)[..n - f - 1];
    SplitShortens(rest);
    var (op, text) := SplitOp(rest);
    StripShortens(text);
    if text == [] {
      SecondTokenIsShort(s, n, ts);
      StripShortens(ts[1]);
      assert false;
    }
    assert n == |s|;
    assert rest == OpText(c.op) + c.value && text == c.value;
    OpReadsBack(c);
    assert !HasEndOfWord(s) by { WholeWord(s); }
    assert !HasEndOfWord(c.value) by { SuffixOfWord(s, c.value); }
  }

  lemma NoParen(s: string)
    requires s != [] && !EndsWord(s[0])
    ensures s[0] != '('
  {
  }

  lemma WholeWord(s: string)
    requires WordLength(s) == |s|
    ensures !HasEndOfWord(s)
  {
  }

  lemma SuffixOfWord(s: string, v: string)
    requires !HasEndOfWord(s) && |v| <= |s| && s[|s| - |v|..] == v
    ensures !HasEndOfWord(v)
  {
    assert forall i :: 0 <= i < |v| ==> v[i] == s[|s| - |v| + i];
  }

  lemma SecondTokenIsShort(s: string, n: nat, ts: seq<string>)
    requires n <= |s| && Tokens(s) == Some(ts) && Tokens(s) == Prepend([s[..n]], Tokens(s[n..])) && n == WordLength(s)
    requires |ts| >= 2 && ts[1] != "(" && ts[1] != ")"
    ensures |ts[1]| < |s| - n
  {
    var tail := Tokens(s[n..]).value;
    assert ts == [s[..n]] + tail && ts[1] == tail[0];
    FirstTokenFits(s[n..]);
    assert s[n..][0] == s[n] && EndsWord(s[n]);
    if IsSpace(s[n]) {
      FirstTokenFits(s[n..][1..]);
    }
  }

  /** A condition is read back from its printed text exactly when it is valid and plain: its value is one
      word without parentheses, does not start like an operator and is not wrapped in quotes. */
  lemma ConditionSurvivesExactly(c: FilterCondition)
    ensures ParseFilter(ConditionText(c)) == Some(Condition(c)) <==> IsValid(c) && IsPlain(c)
  {
    hide IsPlain, IsValid, ConditionText, ParseOr, Tokens;
    if IsValid(c) && IsPlain(c) {
      PrintedFilterParses(Condition(c));
    }
    if ParseFilter(ConditionText(c)) == Some(Condition(c)) {
      SurvivorIsPlain(c);
      ParsedOrIsProper(Tokens(ConditionText(c)).value, 0);
    }
  }

  // ---------------------------------------------------------------------------
  // Quotes are lost
  // ---------------------------------------------------------------------------

  lemma QuotedToken(text: string)
    requires forall i :: 0 <= i < |text| ==> text[i] != '"'
    ensures Tokens("\"" + text + "\"") == Some(["\"" + text + "\""])
  {
    hide Tokens;
    var q := "\"" + text + "\"";
    assert q[1..] == text + "\"";
    assert forall i :: 0 <= i < |text| ==> q[1..][i] == text[i];
    assert q[1..][|text|] == '"';
    NextToken(q, |q|);
    assert q[..|q|] == q && q[|q|..] == "";
    EmptyText();
    assert [q] + [] == [q];
  }

  /** A whole token list that is one condition parses as that condition. */
  lemma ConditionAlone(ts: seq<string>, c: FilterCondition)
    requires ts != [] && ts[0] != "(" && ParseCondition(ts, 0) == Some((Condition(c), |ts|))
    ensures ParseOr(ts, 0) == Some((Condition(c), |ts|))
  {
    hide ParseCondition, IsWord;
    assert ParseAtom(ts, 0) == Some((Condition(c), |ts|));
    var start: seq<FilterExpr> := [];
    assert start + [Condition(c)] == [Condition(c)];
    assert AndOperands(ts, 0, start) == Some(([Condition(c)], |ts|));
    assert OrOperands(ts, 0, start) == Some(([Condition(c)], |ts|));
  }

  lemma QuotedTagTokens(text: string)
    requires forall i :: 0 <= i < |text| ==> text[i] != '"'
    ensures Tokens("tag: " + ("\"" + text + "\"")) == Some(["tag:", "\"" + text + "\""])
  {
    hide *;
    QuotedToken(text);
    TagIsWord();
    WordThenToken("tag:", "\"" + text + "\"");
    assert "tag: " == "tag:" + " ";
  }

  lemma TagIsWord()
    ensures !HasEndOfWord("tag:")
  {
  }

  lemma WordThenToken(w: string, q: string)
    requires w != [] && !HasEndOfWord(w) && w[0] != '"' && Tokens(q) == Some([q])
    ensures Tokens(w + " " + q) == Some([w, q])
  {
    hide HasEndOfWord, Tokens;
    assert w + " " + q == w + (" " + q);
    SpaceIsSkipped(q);
    assert EndsWord((" " + q)[0]);
    WordIsToken(w, " " + q);
    assert [w] + [q] == [w, q];
  }

  lemma SpaceIsSkipped(s: string)
    ensures Tokens(" " + s) == Tokens(s)
  {
    assert (" " + s)[1..] == s;
  }

  lemma QuotedTagCondition(q: string, text: string)
    requires text != [] && q == "\"" + text + "\""
    ensures ParseCondition(["tag:", q], 0) == Some((Condition(FilterCondition(Tag, Eq, text)), 2))
  {
    FieldReadsBack(Tag);
    assert "tag:" == "tag" + ":" + "";
    ColonAt("tag", "");
    assert "tag:"[..3] == "tag" && "tag:"[4..] == "";
    assert StripQuotes(q) == text;
    assert !IsKeyword(q) by { assert LowerCase(q)[0] == '"'; }
    hide IndexOfColon, StripQuotes, IsKeyword, ParseField;
  }

  /** A quoted value after `tag: ` becomes the value, quotes removed. */
  lemma QuotedTagParses(text: string)
    requires text != [] && forall i :: 0 <= i < |text| ==> text[i] != '"'
    ensures ParseFilter("tag: " + ("\"" + text + "\"")) == Some(Condition(FilterCondition(Tag, Eq, text)))
  {
    hide Tokens, ParseCondition, ParseOr;
    var q := "\"" + text + "\"";
    QuotedTagTokens(text);
    QuotedTagCondition(q, text);
    ConditionAlone(["tag:", q], FilterCondition(Tag, Eq, text));
  }

  /** Any quoted tag with a space or a parenthesis is parsed, but its printed text has lost the quotes
      and no longer reads back as the filter. */
  lemma QuotesAreLost(text: string)
    requires text != [] && forall i :: 0 <= i < |text| ==> text[i] != '"'
    ensures var c := Condition(FilterCondition(Tag, Eq, text));
      && ParseFilter("tag: " + ("\"" + text + "\"")) == Some(c)
      && (HasEndOfWord(text) ==> ParseFilter(Print(c)) != Some(c))
  {
    hide ParseFilter;
    QuotedTagParses(text);
    ConditionSurvivesExactly(FilterCondition(Tag, Eq, text));
  }
}
