/** The round-trip theorem of the filter language: printing and reading back gives the same filter with
    nested operators of one kind flattened, which means the same and prints the same. */
module FilterTheorem {
  import opened Wrappers
  import opened Text
  import opened Filters
  import opened FilterTokens

  // ---------------------------------------------------------------------------
  // Flattening
  // ---------------------------------------------------------------------------

  /** What the parser makes of the printed text: an `And` inside an `And` and an `Or` inside an `Or`
      have no parentheses and merge with it; a node with one operand is that operand. */
  function Flatten(e: FilterExpr): FilterExpr
    decreases e, 0
  {
    match e
    case Condition(_) => e
    case And(es) => MakeAnd(AndParts(es))
    case Or(es) => MakeOr(OrParts(es))
  }

  /** The operands that one operand of an `And` contributes. */
  function AndPart(e: FilterExpr): seq<FilterExpr>
    decreases e, 1
  {
    if e.And? then AndParts(e.exprs) else [Flatten(e)]
  }

  function AndParts(es: seq<FilterExpr>): seq<FilterExpr>
    decreases es, 2
  {
    if es == [] then [] else AndPart(es[0]) + AndParts(es[1..])
  }

  function OrPart(e: FilterExpr): seq<FilterExpr>
    decreases e, 1
  {
    if e.Or? then OrParts(e.exprs) else [Flatten(e)]
  }

  function OrParts(es: seq<FilterExpr>): seq<FilterExpr>
    decreases es, 2
  {
    if es == [] then [] else OrPart(es[0]) + OrParts(es[1..])
  }

  // ---------------------------------------------------------------------------
  // Parsing the tokens
  // ---------------------------------------------------------------------------

  /** The tokens `sub` stand in `ts` at `pos`. */
  predicate At(ts: seq<string>, pos: nat, sub: seq<string>)
  {
    pos + |sub| <= |ts| && ts[pos..pos + |sub|] == sub
  }

  lemma AtSplit(ts: seq<string>, pos: nat, a: seq<string>, b: seq<string>)
    ensures At(ts, pos, a + b) <==> At(ts, pos, a) && At(ts, pos + |a|, b)
  {
    if At(ts, pos, a + b) {
      assert ts[pos..pos + |a|] == (a + b)[..|a|] == a;
      assert ts[pos + |a|..pos + |a| + |b|] == (a + b)[|a|..] == b;
    }
    if At(ts, pos, a) && At(ts, pos + |a|, b) {
      assert ts[pos..pos + |a| + |b|] == ts[pos..pos + |a|] + ts[pos + |a|..pos + |a| + |b|];
    }
  }

  lemma TokenAt(ts: seq<string>, pos: nat, token: string)
    requires At(ts, pos, [token])
    ensures pos < |ts| && ts[pos] == token
  {
    assert ts[pos..pos + 1][0] == ts[pos];
  }

  predicate NoWordAt(ts: seq<string>, pos: nat, word: string)
  {
    pos < |ts| ==> !IsWord(ts[pos], word)
  }

  lemma Keywords()
    ensures IsWord("AND", "and") && IsWord("OR", "or") && !IsWord("AND", "or") && !IsWord("OR", "and")
    ensures !IsWord(")", "and") && !IsWord(")", "or")
  {
    assert LowerCase("AND") == "and" && LowerCase("OR") == "or" && LowerCase(")") == ")";
  }

  /** A condition's token is not a parenthesis, so it is read as an atom. */
  lemma ReadCondition(c: FilterCondition, ts: seq<string>, pos: nat, before: seq<FilterExpr>)
    requires IsValid(c) && IsPlain(c) && At(ts, pos, [ConditionText(c)])
    ensures AndOperands(ts, pos, before) == MoreAndOperands(ts, pos + 1, before + [Condition(c)])
  {
    hide ParseAtom, ConditionText, IsValid, IsPlain;
    TokenAt(ts, pos, ConditionText(c));
    ConditionTokenParses(c, ts, pos);
  }

  /** Reading the tokens of an operand of an `And` adds its parts to the operands read so far. */
  lemma {:induction false} ReadOperand(e: FilterExpr, ts: seq<string>, pos: nat, before: seq<FilterExpr>)
    requires Printable(e, 1) && At(ts, pos, TokensOfOperand(e))
    ensures AndOperands(ts, pos, before) == MoreAndOperands(ts, pos + |TokensOfOperand(e)|, before + AndPart(e))
    decreases e, 3
  {
    hide AndOperands, MoreAndOperands, IsValid, IsPlain;
    match e
    case Condition(c) =>
      assert TokensOfOperand(e) == TokensOf(e) == [ConditionText(c)];
      ReadCondition(c, ts, pos, before);
    case And(es) =>
      assert TokensOfOperand(e) == TokensOf(e) == TokensOfAnd(es);
      ReadOperands(es, ts, pos, before);
    case Or(es) => ReadGroup(e, ts, pos, before);
  }

  /** A parenthesised group is one operand. */
  lemma {:induction false} ReadGroup(e: FilterExpr, ts: seq<string>, pos: nat, before: seq<FilterExpr>)
    requires e.Or? && Printable(e, 1) && At(ts, pos, TokensOfOperand(e))
    ensures AndOperands(ts, pos, before) == MoreAndOperands(ts, pos + |TokensOfOperand(e)|, before + AndPart(e))
    decreases e, 2
  {
    hide ParseOr, MoreAndOperands, Printable;
    var sub := TokensOf(e);
    assert TokensOfOperand(e) == ["("] + (sub + [")"]);
    AtSplit(ts, pos, ["("], sub + [")"]);
    AtSplit(ts, pos + 1, sub, [")"]);
    TokenAt(ts, pos, "(");
    TokenAt(ts, pos + 1 + |sub|, ")");
    Keywords();
    ReadExpression(e, ts, pos + 1);
  }

  lemma {:induction false} ReadOperands(es: seq<FilterExpr>, ts: seq<string>, pos: nat, before: seq<FilterExpr>)
    requires es != [] && AllPrintable(es, 1) && At(ts, pos, TokensOfAnd(es))
    ensures AndOperands(ts, pos, before) == MoreAndOperands(ts, pos + |TokensOfAnd(es)|, before + AndParts(es))
    decreases es, 2
  {
    hide Printable, AndOperands, TokensOfOperand, AndPart, At, IsWord;
    if |es| == 1 {
      assert AndParts(es) == AndPart(es[0]) + [] == AndPart(es[0]);
      ReadOperand(es[0], ts, pos, before);
    } else {
      var head, tail := TokensOfOperand(es[0]), TokensOfAnd(es[1..]);
      assert TokensOfAnd(es) == head + (["AND"] + tail);
      AtSplit(ts, pos, head, ["AND"] + tail);
      AtSplit(ts, pos + |head|, ["AND"], tail);
      TokenAt(ts, pos + |head|, "AND");
      Keywords();
      ReadOperand(es[0], ts, pos, before);
      ReadOperands(es[1..], ts, pos + |head| + 1, before + AndPart(es[0]));
      assert before + AndPart(es[0]) + AndParts(es[1..]) == before + AndParts(es);
    }
  }

  /** Reading the tokens of an operand of an `Or` adds its parts, unless an `AND` follows. */
  lemma {:induction false} ReadAlternative(e: FilterExpr, ts: seq<string>, pos: nat, before: seq<FilterExpr>)
    requires Printable(e, 1) && At(ts, pos, TokensOf(e)) && NoWordAt(ts, pos + |TokensOf(e)|, "and")
    ensures OrOperands(ts, pos, before) == MoreOrOperands(ts, pos + |TokensOf(e)|, before + OrPart(e))
    decreases e, 0
  {
    hide AndOperands, MoreOrOperands, IsValid, IsPlain, OrParts, AndParts;
    match e
    case Or(es) =>
      hide OrOperands;
      ReadAlternatives(es, ts, pos, before);
    case Condition(c) =>
      ReadCondition(c, ts, pos, []);
      assert [] + [Condition(c)] == [Condition(c)];
    case And(es) =>
      ReadOperands(es, ts, pos, []);
      assert [] + AndParts(es) == AndParts(es);
  }

  lemma {:induction false} ReadAlternatives(es: seq<FilterExpr>, ts: seq<string>, pos: nat, before: seq<FilterExpr>)
    requires es != [] && AllPrintable(es, 1) && At(ts, pos, TokensOfOr(es))
    requires NoWordAt(ts, pos + |TokensOfOr(es)|, "and")
    ensures OrOperands(ts, pos, before) == MoreOrOperands(ts, pos + |TokensOfOr(es)|, before + OrParts(es))
    decreases es, 2
  {
    hide Printable, OrOperands, TokensOf, OrPart, At, IsWord;
    if |es| == 1 {
      assert OrParts(es) == OrPart(es[0]) + [] == OrPart(es[0]);
      ReadAlternative(es[0], ts, pos, before);
    } else {
      var head, tail := TokensOf(es[0]), TokensOfOr(es[1..]);
      assert TokensOfOr(es) == head + (["OR"] + tail);
      AtSplit(ts, pos, head, ["OR"] + tail);
      AtSplit(ts, pos + |head|, ["OR"], tail);
      TokenAt(ts, pos + |head|, "OR");
      Keywords();
      ReadAlternative(es[0], ts, pos, before);
      ReadAlternatives(es[1..], ts, pos + |head| + 1, before + OrPart(es[0]));
      assert before + OrPart(es[0]) + OrParts(es[1..]) == before + OrParts(es);
    }
  }

  /** The tokens of an expression parse to its flattening when no keyword follows. */
  lemma {:induction false} ReadExpression(e: FilterExpr, ts: seq<string>, pos: nat)
    requires Printable(e, 1) && At(ts, pos, TokensOf(e))
    requires NoWordAt(ts, pos + |TokensOf(e)|, "and") && NoWordAt(ts, pos + |TokensOf(e)|, "or")
    ensures ParseOr(ts, pos) == Some((Flatten(e), pos + |TokensOf(e)|))
    decreases e, 1
  {
    hide OrOperands, Printable, TokensOf;
    ReadAlternative(e, ts, pos, []);
    assert [] + OrPart(e) == OrPart(e);
  }

  /** The round trip on characters: for every expression whose nodes have an operand and whose
      conditions are valid and plain, the printed text parses, and to the flattened expression. */
  lemma PrintedFilterParses(e: FilterExpr)
    requires Printable(e, 1)
    ensures ParseFilter(Print(e)) == Some(Flatten(e))
  {
    hide ParseOr, Tokens, Flatten, Print, TokensOf, Printable;
    assert Print(e) + "" == Print(e);
    PrintTokenizes(e, "");
    assert Tokens("") == Some([]) by { EmptyText(); }
    var ts := TokensOf(e);
    assert ts + [] == ts && ts[0..0 + |ts|] == ts;
    ReadExpression(e, ts, 0);
  }

  lemma EmptyText()
    ensures Tokens("") == Some([])
  {
  }

  // ---------------------------------------------------------------------------
  // Meaning and text are kept
  // ---------------------------------------------------------------------------

  /** The books a filter selects, given which conditions hold of a book. */
  predicate Eval(e: FilterExpr, holds: FilterCondition -> bool)
    decreases e, 0
  {
    match e
    case Condition(c) => holds(c)
    case And(es) => EvalAll(es, holds)
    case Or(es) => EvalAny(es, holds)
  }

  predicate EvalAll(es: seq<FilterExpr>, holds: FilterCondition -> bool)
    decreases es, 1
  {
    es == [] || (Eval(es[0], holds) && EvalAll(es[1..], holds))
  }

  predicate EvalAny(es: seq<FilterExpr>, holds: FilterCondition -> bool)
    decreases es, 1
  {
    es != [] && (Eval(es[0], holds) || EvalAny(es[1..], holds))
  }

  lemma {:induction false} EvalAppend(es: seq<FilterExpr>, fs: seq<FilterExpr>, holds: FilterCondition -> bool)
    ensures EvalAll(es + fs, holds) == (EvalAll(es, holds) && EvalAll(fs, holds))
    ensures EvalAny(es + fs, holds) == (EvalAny(es, holds) || EvalAny(fs, holds))
    decreases |es|
  {
    if es == [] {
      assert es + fs == fs;
    } else {
      assert (es + fs)[1..] == es[1..] + fs;
      EvalAppend(es[1..], fs, holds);
    }
  }

  lemma EvalOne(e: FilterExpr, holds: FilterCondition -> bool)
    ensures EvalAll([e], holds) == EvalAny([e], holds) == Eval(e, holds)
  {
    assert [e][1..] == [];
  }

  lemma EvalMade(es: seq<FilterExpr>, holds: FilterCondition -> bool)
    ensures Eval(MakeAnd(es), holds) == EvalAll(es, holds)
    ensures Eval(MakeOr(es), holds) == EvalAny(es, holds)
  {
    if |es| == 1 {
      EvalOne(es[0], holds);
      assert es == [es[0]];
    }
  }

  /** A flattened filter selects the same books. */
  lemma {:induction false} FlattenKeepsMeaning(e: FilterExpr, holds: FilterCondition -> bool)
    ensures Eval(Flatten(e), holds) == Eval(e, holds)
    decreases e, 0
  {
    match e
    case Condition(_) =>
    case And(es) =>
      PartsKeepMeaning(es, holds);
      EvalMade(AndParts(es), holds);
    case Or(es) =>
      PartsKeepMeaning(es, holds);
      EvalMade(OrParts(es), holds);
  }

  lemma {:induction false} PartsKeepMeaning(es: seq<FilterExpr>, holds: FilterCondition -> bool)
    ensures EvalAll(AndParts(es), holds) == EvalAll(es, holds)
    ensures EvalAny(OrParts(es), holds) == EvalAny(es, holds)
    decreases es, 1
  {
    if es != [] {
      var e := es[0];
      PartsKeepMeaning(es[1..], holds);
      FlattenKeepsMeaning(e, holds);
      EvalOne(Flatten(e), holds);
      if !e.Condition? {
        PartsKeepMeaning(e.exprs, holds);
      }
      EvalAppend(AndPart(e), AndParts(es[1..]), holds);
      EvalAppend(OrPart(e), OrParts(es[1..]), holds);
    }
  }

  lemma {:induction false} PrintAppend(es: seq<FilterExpr>, fs: seq<FilterExpr>)
    requires es != [] && fs != []
    ensures PrintAnd(es + fs) == PrintAnd(es) + " AND " + PrintAnd(fs)
    ensures PrintOr(es + fs) == PrintOr(es) + " OR " + PrintOr(fs)
    decreases |es|
  {
    hide Print, PrintOperand;
    assert (es + fs)[1..] == es[1..] + fs;
    if |es| == 1 {
      assert es[1..] + fs == fs;
    } else {
      PrintAppend(es[1..], fs);
      assert PrintAnd(es + fs) == PrintOperand(es[0]) + " AND " + (PrintAnd(es[1..]) + " AND " + PrintAnd(fs));
      assert PrintAnd(es + fs) == PrintAnd(es) + " AND " + PrintAnd(fs);
      assert PrintOr(es + fs) == Print(es[0]) + " OR " + (PrintOr(es[1..]) + " OR " + PrintOr(fs));
      assert PrintOr(es + fs) == PrintOr(es) + " OR " + PrintOr(fs);
    }
  }

  /** Where every node has at least two operands, a flattened filter prints the same text. */
  lemma {:induction false} FlattenKeepsText(e: FilterExpr)
    requires Printable(e, 2)
    ensures Print(Flatten(e)) == Print(e)
    ensures Flatten(e).And? <==> e.And?
    ensures Flatten(e).Or? <==> e.Or?
    decreases e, 0
  {
    match e
    case Condition(_) =>
    case And(es) => PartsKeepText(es);
    case Or(es) => PartsKeepText(es);
  }

  lemma {:induction false} PartsKeepText(es: seq<FilterExpr>)
    requires es != [] && AllPrintable(es, 2)
    ensures |AndParts(es)| >= |es| && PrintAnd(AndParts(es)) == PrintAnd(es)
    ensures |OrParts(es)| >= |es| && PrintOr(OrParts(es)) == PrintOr(es)
    decreases es, 1
  {
    hide IsValid, IsPlain;
    var e := es[0];
    PartKeepsText(e);
    if |es| == 1 {
      assert AndParts(es) == AndPart(e) + [] == AndPart(e);
      assert OrParts(es) == OrPart(e) + [] == OrPart(e);
    } else {
      PartsKeepText(es[1..]);
      PrintAppend(AndPart(e), AndParts(es[1..]));
      PrintAppend(OrPart(e), OrParts(es[1..]));
    }
  }

  lemma {:induction false} PartKeepsText(e: FilterExpr)
    requires Printable(e, 2)
    ensures AndPart(e) != [] && PrintAnd(AndPart(e)) == PrintOperand(e)
    ensures OrPart(e) != [] && PrintOr(OrPart(e)) == Print(e)
    decreases e, 1
  {
    hide IsValid, IsPlain;
    FlattenKeepsText(e);
    match e
    case Condition(_) =>
    case And(es) => PartsKeepText(es);
    case Or(es) => PartsKeepText(es);
  }

  /** For filters with at least two operands per node: reading the printed text gives a filter that
      selects the same books, prints the same text, and from then on reads back as itself. */
  lemma FilterRoundTrip(e: FilterExpr, holds: FilterCondition -> bool)
    requires Printable(e, 2)
    ensures ParseFilter(Print(e)) == Some(Flatten(e))
    ensures Eval(Flatten(e), holds) == Eval(e, holds)
    ensures Print(Flatten(e)) == Print(e)
    ensures ParseFilter(Print(Flatten(e))) == Some(Flatten(e))
  {
    hide ParseFilter, Print, Flatten, Eval;
    PrintableFewer(e);
    PrintedFilterParses(e);
    FlattenKeepsMeaning(e, holds);
    FlattenKeepsText(e);
  }

  lemma {:induction false} PrintableFewer(e: FilterExpr)
    requires Printable(e, 2)
    ensures Printable(e, 1)
    decreases e, 0
  {
    if !e.Condition? {
      AllPrintableFewer(e.exprs);
    }
  }

  lemma {:induction false} AllPrintableFewer(es: seq<FilterExpr>)
    requires AllPrintable(es, 2)
    ensures AllPrintable(es, 1)
    decreases es, 1
  {
    if es != [] {
      PrintableFewer(es[0]);
      AllPrintableFewer(es[1..]);
    }
  }
}
