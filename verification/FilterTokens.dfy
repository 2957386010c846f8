/** The tokens of a printed filter, character by character. */
module FilterTokens {
  import opened Wrappers
  import opened Text
  import opened Filters

  // ---------------------------------------------------------------------------
  // One condition
  // ---------------------------------------------------------------------------

  predicate HasEndOfWord(s: string)
  {
    exists i :: 0 <= i < |s| && EndsWord(s[i])
  }

  /** The value would not be taken for (a longer) operator. */
  predicate StartsClear(c: FilterCondition)
  {
    c.value != [] ==>
      match c.op
      case Eq => c.value[0] != '<' && c.value[0] != '>' && c.value[0] != '='
      case Gt => c.value[0] != '='
      case Lt => c.value[0] != '='
      case _ => true
  }

  /** The value as text is one word that reads back as itself. */
  predicate IsPlain(c: FilterCondition)
  {
    !HasEndOfWord(c.value) && StartsClear(c) && StripQuotes(c.value) == c.value
  }

  predicate IsFieldChar(c: char)
  {
    c == '_' || 'a' <= c <= 'z'
  }

  lemma FieldCharsAreLower(f: FilterField)
    ensures FieldText(f) != [] && forall i :: 0 <= i < |FieldText(f)| ==> IsFieldChar(FieldText(f)[i])
    ensures LowerCase(FieldText(f)) == FieldText(f)
  {
    var s := FieldText(f);
    assert forall i :: 0 <= i < |s| ==> IsFieldChar(s[i]);
    assert LowerCase(s) == s;
  }

  lemma FieldReadsBack(f: FilterField)
    ensures ParseField(FieldText(f)) == Some(f)
    ensures FieldText(f) != [] && !HasEndOfWord(FieldText(f)) && FieldText(f)[0] != '"'
    ensures forall i :: 0 <= i < |FieldText(f)| ==> FieldText(f)[i] != ':'
  {
    FieldCharsAreLower(f);
    hide LowerCase;
    FieldIsKnown(f);
    hide FieldText;
    assert forall i :: 0 <= i < |FieldText(f)| ==> IsFieldChar(FieldText(f)[i]) && !EndsWord(FieldText(f)[i]);
  }

  lemma FieldIsKnown(f: FilterField)
    requires LowerCase(FieldText(f)) == FieldText(f)
    ensures ParseField(FieldText(f)) == Some(f)
  {
    hide LowerCase;
    match f
    case Status => case Tag => case Mood => case Pace => case Rating =>
    case Pages => case Author => case Format => case Shelf =>
    case PubDate => assert FieldText(f)[1] == 'u';
    case DateAdded => assert FieldText(f)[1] == 'a';
  }

  lemma ColonAt(front: string, back: string)
    requires forall i :: 0 <= i < |front| ==> front[i] != ':'
    ensures IndexOfColon(front + ":" + back) == |front|
  {
    var s := front + ":" + back;
    assert s[|front|] == ':';
    assert forall i :: 0 <= i < |front| ==> s[i] == front[i];
  }

  lemma OpReadsBack(c: FilterCondition)
    requires c.value != []
    ensures SplitOp(OpText(c.op) + c.value) == (c.op, c.value) <==> StartsClear(c)
  {
    var rest := OpText(c.op) + c.value;
    match c.op
    case Eq => assert rest == c.value;
    case Gt => assert rest[1..] == c.value; assert |rest| >= 2 ==> rest[2..] == c.value[1..];
    case Lt => assert rest[1..] == c.value; assert |rest| >= 2 ==> rest[2..] == c.value[1..];
    case Gte => assert rest[2..] == c.value;
    case Lte => assert rest[2..] == c.value;
  }

  lemma ConditionParts(c: FilterCondition)
    ensures var s, n := ConditionText(c), |FieldText(c.field)|;
      IndexOfColon(s) == n && n < |s| && s[..n] == FieldText(c.field) && s[n + 1..] == OpText(c.op) + c.value
    ensures ConditionText(c) != [] && !EndsWord(ConditionText(c)[0])
    ensures ConditionText(c)[0] != '"' && ConditionText(c) != "("
  {
    var s, f, rest := ConditionText(c), FieldText(c.field), OpText(c.op) + c.value;
    FieldReadsBack(c.field);
    assert s == f + ":" + rest;
    ColonAt(f, rest);
    assert s[0] == f[0];
  }

  /** A plain and valid condition is read back from its token, whatever follows. */
  lemma ConditionTokenParses(c: FilterCondition, ts: seq<string>, pos: nat)
    requires pos < |ts| && ts[pos] == ConditionText(c) && IsPlain(c) && IsValid(c)
    ensures ParseCondition(ts, pos) == Some((Condition(c), pos + 1))
    ensures ParseAtom(ts, pos) == Some((Condition(c), pos + 1))
  {
    hide IsValid, SplitOp, FieldText, ParseField, IndexOfColon, HasEndOfWord, ConditionText;
    ConditionParts(c);
    FieldReadsBack(c.field);
    ValidIsNonempty(c);
    OpReadsBack(c);
  }

  lemma ValidIsNonempty(c: FilterCondition)
    requires IsValid(c)
    ensures c.value != []
  {
  }

  // ---------------------------------------------------------------------------
  // Words in a text
  // ---------------------------------------------------------------------------

  lemma WordLengthOf(w: string, rest: string)
    requires !HasEndOfWord(w) && (rest == [] || EndsWord(rest[0]))
    ensures WordLength(w + rest) == |w|
  {
    assert forall i :: 0 <= i < |w| ==> (w + rest)[i] == w[i] && !EndsWord(w[i]);
    assert rest != [] ==> (w + rest)[|w|] == rest[0];
  }

  /** A word followed by the end of a word is one token. */
  lemma WordIsToken(w: string, rest: string)
    requires w != [] && !HasEndOfWord(w) && w[0] != '"' && (rest == [] || EndsWord(rest[0]))
    ensures Tokens(w + rest) == Prepend([w], Tokens(rest))
  {
    WordLengthOf(w, rest);
    assert !EndsWord(w[0]);
    assert (w + rest)[..|w|] == w && (w + rest)[|w|..] == rest;
  }

  lemma ParenIsToken(p: string, rest: string)
    requires p == "(" || p == ")"
    ensures Tokens(p + rest) == Prepend([p], Tokens(rest))
  {
    assert (p + rest)[..1] == p && (p + rest)[1..] == rest;
  }

  /** A keyword between two spaces. */
  lemma SeparatorIsToken(word: string, rest: string)
    requires word == "AND" || word == "OR"
    ensures Tokens(" " + word + " " + rest) == Prepend([word], Tokens(rest))
  {
    var s := " " + word + " " + rest;
    assert s[1..] == word + (" " + rest);
    assert (" " + rest)[1..] == rest;
    assert !HasEndOfWord(word);
    WordIsToken(word, " " + rest);
  }

  // ---------------------------------------------------------------------------
  // The tokens of an expression
  // ---------------------------------------------------------------------------

  function TokensOf(e: FilterExpr): seq<string>
    decreases e, 0
  {
    match e
    case Condition(c) => [ConditionText(c)]
    case And(es) => TokensOfAnd(es)
    case Or(es) => TokensOfOr(es)
  }

  function TokensOfOperand(e: FilterExpr): seq<string>
    decreases e, 1
  {
    if e.Or? then ["("] + TokensOf(e) + [")"] else TokensOf(e)
  }

  function TokensOfAnd(es: seq<FilterExpr>): seq<string>
    decreases es, 2
  {
    if es == [] then []
    else if |es| == 1 then TokensOfOperand(es[0])
    else TokensOfOperand(es[0]) + ["AND"] + TokensOfAnd(es[1..])
  }

  function TokensOfOr(es: seq<FilterExpr>): seq<string>
    decreases es, 2
  {
    if es == [] then []
    else if |es| == 1 then TokensOf(es[0])
    else TokensOf(es[0]) + ["OR"] + TokensOfOr(es[1..])
  }

  /** Every node has at least `least` operands and every condition is valid and plain. */
  predicate Printable(e: FilterExpr, least: nat)
    decreases e, 0
  {
    match e
    case Condition(c) => IsValid(c) && IsPlain(c)
    case And(es) => |es| >= least && AllPrintable(es, least)
    case Or(es) => |es| >= least && AllPrintable(es, least)
  }

  predicate AllPrintable(es: seq<FilterExpr>, least: nat)
    decreases es, 1
  {
    es != [] ==> Printable(es[0], least) && AllPrintable(es[1..], least)
  }

  predicate EndsToken(rest: string)
  {
    rest == [] || EndsWord(rest[0])
  }

  lemma ConditionIsToken(c: FilterCondition, rest: string)
    requires IsPlain(c) && EndsToken(rest)
    ensures Tokens(ConditionText(c) + rest) == Prepend([ConditionText(c)], Tokens(rest))
  {
    hide Tokens;
    ConditionParts(c);
    var s := ConditionText(c);
    FieldReadsBack(c.field);
    forall i | 0 <= i < |s| ensures !EndsWord(s[i]) {
      var f, o := |FieldText(c.field)|, |OpText(c.op)|;
      if i < f {
        assert s[i] == FieldText(c.field)[i];
      } else if i > f + o {
        assert s[i] == c.value[i - f - 1 - o];
      } else {
        assert s[i] == ':' || s[i] == '<' || s[i] == '>' || s[i] == '=';
      }
    }
    WordIsToken(s, rest);
  }

  /** The printed text of an expression tokenizes to its tokens, whatever comes after it. */
  lemma {:induction false} PrintTokenizes(e: FilterExpr, rest: string)
    requires Printable(e, 1) && EndsToken(rest)
    ensures Tokens(Print(e) + rest) == Prepend(TokensOf(e), Tokens(rest))
    decreases e, 0
  {
    match e
    case Condition(c) => ConditionIsToken(c, rest);
    case And(es) => PrintAndTokenizes(es, rest);
    case Or(es) => PrintOrTokenizes(es, rest);
  }

  lemma {:induction false} PrintOperandTokenizes(e: FilterExpr, rest: string)
    requires Printable(e, 1) && EndsToken(rest)
    ensures Tokens(PrintOperand(e) + rest) == Prepend(TokensOfOperand(e), Tokens(rest))
    decreases e, 1
  {
    if e.Or? {
      hide Tokens, Printable;
      var s := Print(e);
      assert PrintOperand(e) + rest == "(" + (s + (")" + rest));
      ParenIsToken("(", s + (")" + rest));
      PrintTokenizes(e, ")" + rest);
      ParenIsToken(")", rest);
      PrependTwice(TokensOf(e), [")"], Tokens(rest));
      PrependTwice(["("], TokensOf(e) + [")"], Tokens(rest));
      assert ["("] + (TokensOf(e) + [")"]) == TokensOfOperand(e);
    } else {
      PrintTokenizes(e, rest);
    }
  }

  lemma {:induction false} PrintAndTokenizes(es: seq<FilterExpr>, rest: string)
    requires es != [] && AllPrintable(es, 1) && EndsToken(rest)
    ensures Tokens(PrintAnd(es) + rest) == Prepend(TokensOfAnd(es), Tokens(rest))
    decreases es, 2
  {
    hide Tokens, Printable;
    if |es| == 1 {
      PrintOperandTokenizes(es[0], rest);
    } else {
      var more := PrintAnd(es[1..]) + rest;
      assert PrintAnd(es) + rest == PrintOperand(es[0]) + (" AND " + more);
      assert " AND " + more == " " + "AND" + " " + more;
      PrintOperandTokenizes(es[0], " AND " + more);
      SeparatorIsToken("AND", more);
      PrintAndTokenizes(es[1..], rest);
      PrependTwice(["AND"], TokensOfAnd(es[1..]), Tokens(rest));
      PrependTwice(TokensOfOperand(es[0]), ["AND"] + TokensOfAnd(es[1..]), Tokens(rest));
      assert TokensOfOperand(es[0]) + (["AND"] + TokensOfAnd(es[1..])) == TokensOfAnd(es);
    }
  }

  lemma {:induction false} PrintOrTokenizes(es: seq<FilterExpr>, rest: string)
    requires es != [] && AllPrintable(es, 1) && EndsToken(rest)
    ensures Tokens(PrintOr(es) + rest) == Prepend(TokensOfOr(es), Tokens(rest))
    decreases es, 2
  {
    hide Tokens, Printable;
    if |es| == 1 {
      PrintTokenizes(es[0], rest);
    } else {
      var more := PrintOr(es[1..]) + rest;
      assert PrintOr(es) + rest == Print(es[0]) + (" OR " + more);
      assert " OR " + more == " " + "OR" + " " + more;
      PrintTokenizes(es[0], " OR " + more);
      SeparatorIsToken("OR", more);
      PrintOrTokenizes(es[1..], rest);
      PrependTwice(["OR"], TokensOfOr(es[1..]), Tokens(rest));
      PrependTwice(TokensOf(es[0]), ["OR"] + TokensOfOr(es[1..]), Tokens(rest));
      assert TokensOf(es[0]) + (["OR"] + TokensOfOr(es[1..])) == TokensOfOr(es);
    }
  }
}
