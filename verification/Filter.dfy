/** The smart-shelf filter language: tokenizer, recursive-descent parser and printer. */
module Filters {
  import opened Wrappers
  import opened Text

  datatype FilterField = Status | Tag | Mood | Pace | Rating | Pages | Author | Format | Shelf | PubDate | DateAdded

  datatype FilterOp = Eq | Gt | Gte | Lt | Lte

  datatype FilterCondition = FilterCondition(field: FilterField, op: FilterOp, value: string)

  datatype FilterExpr = And(exprs: seq<FilterExpr>) | Or(exprs: seq<FilterExpr>) | Condition(condition: FilterCondition)

  // ---------------------------------------------------------------------------
  // Fields, operators, values
  // ---------------------------------------------------------------------------

  function FieldText(f: FilterField): string
  {
    match f
    case Status => "status"
    case Tag => "tag"
    case Mood => "mood"
    case Pace => "pace"
    case Rating => "rating"
    case Pages => "pages"
    case Author => "author"
    case Format => "format"
    case Shelf => "shelf"
    case PubDate => "pub_date"
    case DateAdded => "date_added"
  }

  /** `from_str_loose`. */
  function ParseField(s: string): Option<FilterField>
  {
    var t := LowerCase(s);
    if t == "status" then Some(Status)
    else if t == "tag" then Some(Tag)
    else if t == "mood" then Some(Mood)
    else if t == "pace" then Some(Pace)
    else if t == "rating" then Some(Rating)
    else if t == "pages" || t == "page_count" then Some(Pages)
    else if t == "author" then Some(Author)
    else if t == "format" then Some(Format)
    else if t == "shelf" then Some(Shelf)
    else if t == "pub_date" || t == "published" then Some(PubDate)
    else if t == "date_added" || t == "added" || t == "created" then Some(DateAdded)
    else None
  }

  predicate IsNumeric(f: FilterField)
  {
    f.Rating? || f.Pages?
  }

  predicate IsDate(f: FilterField)
  {
    f.PubDate? || f.DateAdded?
  }

  function OpText(op: FilterOp): string
  {
    match op
    case Eq => ""
    case Gt => ">"
    case Gte => ">="
    case Lt => "<"
    case Lte => "<="
  }

  /** Splits an operator prefix off a text. */
  function SplitOp(rest: string): (FilterOp, string)
  {
    if ">=" <= rest then (Gte, rest[2..])
    else if "<=" <= rest then (Lte, rest[2..])
    else if ">" <= rest then (Gt, rest[1..])
    else if "<" <= rest then (Lt, rest[1..])
    else if "=" <= rest then (Eq, rest[1..])
    else (Eq, rest)
  }

  function StripQuotes(s: string): string
  {
    if |s| >= 2 && s[0] == '"' && s[|s| - 1] == '"' then s[1..|s| - 1] else s
  }

  /** `parse::<i64>`. */
  predicate IsI64Text(s: string)
  {
    if s != [] && s[0] == '-' then ParseDigits(s[1..]).Some? && ParseDigits(s[1..]).value <= 0x8000_0000_0000_0000
    else ParseUnsigned(s, 0x8000_0000_0000_0000).Some?
  }

  /** YYYY or YYYY-MM-DD, as far as the program looks: the parts are numbers of their width. */
  predicate IsDateText(s: string)
  {
    || (|s| == 4 && ParseUnsigned(s, 65536).Some?)
    || (|s| == 10 && s[4] == '-' && s[7] == '-' && ParseUnsigned(s[..4], 65536).Some? &&
        ParseUnsigned(s[5..7], 256).Some? && ParseUnsigned(s[8..], 256).Some?)
  }

  /** What the parser accepts. */
  predicate IsValid(c: FilterCondition)
  {
    && c.value != []
    && (c.op != Eq ==> IsNumeric(c.field) || IsDate(c.field))
    && (IsNumeric(c.field) ==> IsI64Text(c.value))
    && (IsDate(c.field) ==> IsDateText(c.value))
  }

  // ---------------------------------------------------------------------------
  // Printing
  // ---------------------------------------------------------------------------

  function ConditionText(c: FilterCondition): string
  {
    FieldText(c.field) + ":" + OpText(c.op) + c.value
  }

  function Print(e: FilterExpr): string
    decreases e, 0
  {
    match e
    case Condition(c) => ConditionText(c)
    case And(es) => PrintAnd(es)
    case Or(es) => PrintOr(es)
  }

  /** An `Or` inside an `And` needs parentheses. */
  function PrintOperand(e: FilterExpr): string
    decreases e, 1
  {
    if e.Or? then "(" + Print(e) + ")" else Print(e)
  }

  function PrintAnd(es: seq<FilterExpr>): string
    decreases es, 2
  {
    if es == [] then ""
    else if |es| == 1 then PrintOperand(es[0])
    else PrintOperand(es[0]) + " AND " + PrintAnd(es[1..])
  }

  function PrintOr(es: seq<FilterExpr>): string
    decreases es, 2
  {
    if es == [] then ""
    else if |es| == 1 then Print(es[0])
    else Print(es[0]) + " OR " + PrintOr(es[1..])
  }

  // ---------------------------------------------------------------------------
  // Tokens
  // ---------------------------------------------------------------------------

  /** Unicode's White_Space property. */
  predicate IsSpace(c: char)
  {
    var n := c as int;
    9 <= n <= 13 || n == 0x20 || n == 0x85 || n == 0xA0 || n == 0x1680 || 0x2000 <= n <= 0x200A ||
    n == 0x2028 || n == 0x2029 || n == 0x202F || n == 0x205F || n == 0x3000
  }

  predicate IsParen(c: char)
  {
    c == '(' || c == ')'
  }

  predicate EndsWord(c: char)
  {
    IsSpace(c) || IsParen(c)
  }

  /** The length of the word at the front. */
  function WordLength(s: string): (n: nat)
    ensures n <= |s|
    ensures n < |s| ==> EndsWord(s[n])
    ensures forall i :: 0 <= i < n ==> !EndsWord(s[i])
  {
    if s == [] || EndsWord(s[0]) then 0 else 1 + WordLength(s[1..])
  }

  /** The number of characters before the first quote. */
  function QuoteLength(s: string): (n: nat)
    ensures n <= |s|
    ensures n < |s| ==> s[n] == '"'
    ensures forall i :: 0 <= i < n ==> s[i] != '"'
  {
    if s == [] || s[0] == '"' then 0 else 1 + QuoteLength(s[1..])
  }

  function Prepend(ts: seq<string>, more: Option<seq<string>>): Option<seq<string>>
  {
    if more.Some? then Some(ts + more.value) else None
  }

  /** The tokens of a text; none when a quoted token does not end. */
  function Tokens(s: string): Option<seq<string>>
    decreases |s|
  {
    if s == [] then Some([])
    else if IsSpace(s[0]) then Tokens(s[1..])
    else if IsParen(s[0]) then Prepend([s[..1]], Tokens(s[1..]))
    else if s[0] == '"' then
      var n := QuoteLength(s[1..]);
      if n == |s| - 1 then None else Prepend([s[..n + 2]], Tokens(s[n + 2..]))
    else
      var n := WordLength(s);
      Prepend([s[..n]], Tokens(s[n..]))
  }

  lemma PrependTwice(ts: seq<string>, us: seq<string>, more: Option<seq<string>>)
    ensures Prepend(ts, Prepend(us, more)) == Prepend(ts + us, more)
    ensures Prepend([], more) == more
  {
    if more.Some? {
      assert ts + (us + more.value) == ts + us + more.value;
      assert [] + more.value == more.value;
    }
  }

  lemma NoTokens()
    ensures Tokens([]) == Some([])
  {
  }

  lemma SpaceIsSkipped(s: string)
    requires s != [] && IsSpace(s[0])
    ensures Tokens(s) == Tokens(s[1..])
  {
  }

  /** The inner loop over a quoted token: stops after the closing quote. */
  method ScanQuoted(input: string, start: nat) returns (end: Option<nat>)
    requires start < |input| && input[start] == '"'
    ensures var n := QuoteLength(input[start + 1..]);
      end == if n == |input| - start - 1 then None else Some(start + n + 2)
  {
    var i := start + 1;
    while i < |input| && input[i] != '"'
      invariant start < i <= |input|
      invariant i - start - 1 + QuoteLength(input[i..]) == QuoteLength(input[start + 1..])
    {
      assert input[i..][1..] == input[i + 1..];
      i := i + 1;
    }
    end := if i >= |input| then None else Some(i + 1);
  }

  /** The inner loop over a word. */
  method ScanWord(input: string, start: nat) returns (i: nat)
    requires start < |input|
    ensures i == start + WordLength(input[start..])
  {
    i := start;
    while i < |input| && !IsSpace(input[i]) && input[i] != '(' && input[i] != ')'
      invariant start <= i <= |input|
      invariant i - start + WordLength(input[i..]) == WordLength(input[start..])
    {
      assert input[i..][1..] == input[i + 1..];
      i := i + 1;
    }
  }

  /** What the next token of a text is and where the text after it starts. */
  lemma NextToken(s: string, n: nat)
    requires s != [] && !IsSpace(s[0])
    requires n == if IsParen(s[0]) then 1 else if s[0] == '"' then QuoteLength(s[1..]) + 2 else WordLength(s)
    ensures s[0] == '"' && n == |s| + 1 ==> Tokens(s) == None
    ensures n <= |s| ==> 0 < n && Tokens(s) == Prepend([s[..n]], Tokens(s[n..]))
  {
  }

  /** `tokenize`. */
  method Tokenize(input: string) returns (tokens: Option<seq<string>>)
    ensures tokens == Tokens(input)
  {
    hide QuoteLength, WordLength, IsSpace, Prepend, Tokens;
    var found: seq<string> := [];
    NoTokens();
    var i := 0;
    assert input[0..] == input;
    PrependTwice([], [], Tokens(input));
    while i < |input|
      invariant 0 <= i <= |input|
      invariant Tokens(input) == Prepend(found, Tokens(input[i..]))
    {
      var start := i;
      if IsSpace(input[i]) {
        assert input[i..][1..] == input[i + 1..];
        SpaceIsSkipped(input[i..]);
        i := i + 1;
        continue;
      }
      if IsParen(input[i]) {
        i := i + 1;
      } else if input[i] == '"' {
        var end := ScanQuoted(input, i);
        assert input[start..][1..] == input[start + 1..];
        if end.None? {
          NextToken(input[start..], QuoteLength(input[start..][1..]) + 2);
          NothingToPrepend(found);
          return None;
        }
        i := end.value;
      } else {
        i := ScanWord(input, i);
      }
      assert input[start..][1..] == input[start + 1..];
      NextToken(input[start..], i - start);
      assert input[start..][..i - start] == input[start..i] && input[start..][i - start..] == input[i..];
      PrependTwice(found, [input[start..i]], Tokens(input[i..]));
      found := found + [input[start..i]];
    }
    assert input[i..] == [];
    NothingToPrepend(found);
    tokens := Some(found);
  }

  lemma NothingToPrepend(ts: seq<string>)
    ensures Prepend(ts, None) == None && Prepend(ts, Some([])) == Some(ts)
  {
    assert ts + [] == ts;
  }

  // ---------------------------------------------------------------------------
  // Parsing
  // ---------------------------------------------------------------------------

  /** An expression and the position after it. */
  type Parsed = Option<(FilterExpr, nat)>

  predicate IsWord(token: string, word: string)
  {
    LowerCase(token) == word
  }

  predicate IsKeyword(token: string)
  {
    IsWord(token, "and") || IsWord(token, "or")
  }

  function IndexOfColon(s: string): (i: nat)
    ensures i <= |s|
    ensures i < |s| ==> s[i] == ':'
    ensures forall k :: 0 <= k < i ==> s[k] != ':'
  {
    if s == [] || s[0] == ':' then 0 else 1 + IndexOfColon(s[1..])
  }

  /** `field:op?value`. An empty value is looked for in the next token. */
  function ParseCondition(ts: seq<string>, pos: nat): (r: Parsed)
    requires pos < |ts|
    ensures r.Some? ==> pos < r.value.1 <= |ts|
  {
    var colon := IndexOfColon(ts[pos]);
    if colon == |ts[pos]| then None else
    var field := ParseField(ts[pos][..colon]);
    if field.None? then None else
    var (op, text) := SplitOp(ts[pos][colon + 1..]);
    if text != [] then Checked(field.value, op, StripQuotes(text), pos + 1)
    else if pos + 1 < |ts| && !IsKeyword(ts[pos + 1]) && ts[pos + 1] != "(" && ts[pos + 1] != ")"
    then Checked(field.value, op, StripQuotes(ts[pos + 1]), pos + 2)
    else None
  }

  function Checked(field: FilterField, op: FilterOp, value: string, next: nat): Parsed
  {
    var c := FilterCondition(field, op, value);
    if IsValid(c) then Some((Condition(c), next)) else None
  }

  /** One operand alone stands for itself. */
  function MakeAnd(es: seq<FilterExpr>): FilterExpr
  {
    if |es| == 1 then es[0] else And(es)
  }

  function MakeOr(es: seq<FilterExpr>): FilterExpr
  {
    if |es| == 1 then es[0] else Or(es)
  }

  function ParseOr(ts: seq<string>, pos: nat): (r: Parsed)
    requires pos <= |ts|
    ensures r.Some? ==> pos < r.value.1 <= |ts|
    decreases |ts| - pos, 3
  {
    match OrOperands(ts, pos, [])
    case Some((es, next)) => Some((MakeOr(es), next))
    case None => None
  }

  /** Reads an operand and, after each `OR`, another one. */
  function OrOperands(ts: seq<string>, pos: nat, before: seq<FilterExpr>): (r: Option<(seq<FilterExpr>, nat)>)
    requires pos <= |ts|
    ensures r.Some? ==> pos < r.value.1 <= |ts|
    decreases |ts| - pos, 2
  {
    match ParseAnd(ts, pos)
    case None => None
    case Some((e, next)) => MoreOrOperands(ts, next, before + [e])
  }

  function MoreOrOperands(ts: seq<string>, pos: nat, es: seq<FilterExpr>): (r: Option<(seq<FilterExpr>, nat)>)
    requires pos <= |ts|
    ensures r.Some? ==> pos <= r.value.1 <= |ts|
    decreases |ts| - pos, 4
  {
    if pos < |ts| && IsWord(ts[pos], "or") then OrOperands(ts, pos + 1, es) else Some((es, pos))
  }

  function ParseAnd(ts: seq<string>, pos: nat): (r: Parsed)
    requires pos <= |ts|
    ensures r.Some? ==> pos < r.value.1 <= |ts|
    decreases |ts| - pos, 1
  {
    match AndOperands(ts, pos, [])
    case Some((es, next)) => Some((MakeAnd(es), next))
    case None => None
  }

  function AndOperands(ts: seq<string>, pos: nat, before: seq<FilterExpr>): (r: Option<(seq<FilterExpr>, nat)>)
    requires pos <= |ts|
    ensures r.Some? ==> pos < r.value.1 <= |ts|
    decreases |ts| - pos, 0, 1
  {
    match ParseAtom(ts, pos)
    case None => None
    case Some((e, next)) => MoreAndOperands(ts, next, before + [e])
  }

  function MoreAndOperands(ts: seq<string>, pos: nat, es: seq<FilterExpr>): (r: Option<(seq<FilterExpr>, nat)>)
    requires pos <= |ts|
    ensures r.Some? ==> pos <= r.value.1 <= |ts|
    decreases |ts| - pos, 4
  {
    if pos < |ts| && IsWord(ts[pos], "and") then AndOperands(ts, pos + 1, es) else Some((es, pos))
  }

  function ParseAtom(ts: seq<string>, pos: nat): (r: Parsed)
    requires pos <= |ts|
    ensures r.Some? ==> pos < r.value.1 <= |ts|
    decreases |ts| - pos, 0, 0
  {
    if pos == |ts| then None
    else if ts[pos] == "(" then
      match ParseOr(ts, pos + 1)
      case None => None
      case Some((e, next)) => if next < |ts| && ts[next] == ")" then Some((e, next + 1)) else None
    else ParseCondition(ts, pos)
  }

  /** `SmartFilter::parse`: the whole text must be one expression. */
  function ParseFilter(input: string): Option<FilterExpr>
  {
    match Tokens(input)
    case None => None
    case Some(ts) =>
      match ParseOr(ts, 0)
      case Some((e, next)) => if next == |ts| then Some(e) else None
      case None => None
  }

  lemma OrStarts(ts: seq<string>, pos: nat)
    requires pos <= |ts|
    ensures var r := OrOperands(ts, pos, []);
      ParseOr(ts, pos) == if r.None? then None else Some((MakeOr(r.value.0), r.value.1))
    ensures var r := ParseAnd(ts, pos);
      OrOperands(ts, pos, []) == if r.None? then None else MoreOrOperands(ts, r.value.1, [] + [r.value.0])
  {
    hide ParseAnd, MoreOrOperands;
  }

  lemma OrGoesOn(ts: seq<string>, pos: nat, es: seq<FilterExpr>)
    requires pos <= |ts|
    ensures MoreOrOperands(ts, pos, es) ==
      if !(pos < |ts| && IsWord(ts[pos], "or")) then Some((es, pos)) else
      var r := ParseAnd(ts, pos + 1);
      if r.None? then None else MoreOrOperands(ts, r.value.1, es + [r.value.0])
  {
    hide ParseAnd, IsWord;
  }

  lemma AndStarts(ts: seq<string>, pos: nat)
    requires pos <= |ts|
    ensures var r := AndOperands(ts, pos, []);
      ParseAnd(ts, pos) == if r.None? then None else Some((MakeAnd(r.value.0), r.value.1))
    ensures var r := ParseAtom(ts, pos);
      AndOperands(ts, pos, []) == if r.None? then None else MoreAndOperands(ts, r.value.1, [] + [r.value.0])
  {
    hide ParseAtom, MoreAndOperands;
  }

  lemma AndGoesOn(ts: seq<string>, pos: nat, es: seq<FilterExpr>)
    requires pos <= |ts|
    ensures MoreAndOperands(ts, pos, es) ==
      if !(pos < |ts| && IsWord(ts[pos], "and")) then Some((es, pos)) else
      var r := ParseAtom(ts, pos + 1);
      if r.None? then None else MoreAndOperands(ts, r.value.1, es + [r.value.0])
  {
    hide ParseAtom, IsWord;
  }

  /** `parse_or_expr`. */
  method ParseOrExpr(ts: seq<string>, pos: nat) returns (r: Parsed)
    requires pos <= |ts|
    ensures r == ParseOr(ts, pos)
    decreases |ts| - pos, 3
  {
    hide ParseOr, ParseAnd, OrOperands, MoreOrOperands, IsWord;
    OrStarts(ts, pos);
    var first := ParseAndExpr(ts, pos);
    if first.None? {
      return None;
    }
    var exprs, next := [first.value.0], first.value.1;
    assert [] + [first.value.0] == exprs;
    while next < |ts| && IsWord(ts[next], "or")
      invariant pos < next <= |ts|
      invariant OrOperands(ts, pos, []) == MoreOrOperands(ts, next, exprs)
      decreases |ts| - next
    {
      OrGoesOn(ts, next, exprs);
      var e := ParseAndExpr(ts, next + 1);
      if e.None? {
        return None;
      }
      exprs, next := exprs + [e.value.0], e.value.1;
    }
    OrGoesOn(ts, next, exprs);
    r := Some((MakeOr(exprs), next));
  }

  /** `parse_and_expr`. */
  method ParseAndExpr(ts: seq<string>, pos: nat) returns (r: Parsed)
    requires pos <= |ts|
    ensures r == ParseAnd(ts, pos)
    decreases |ts| - pos, 2
  {
    hide ParseAnd, ParseAtom, AndOperands, MoreAndOperands, IsWord;
    AndStarts(ts, pos);
    var first := ParseAtomExpr(ts, pos);
    if first.None? {
      return None;
    }
    var exprs, next := [first.value.0], first.value.1;
    assert [] + [first.value.0] == exprs;
    while next < |ts| && IsWord(ts[next], "and")
      invariant pos < next <= |ts|
      invariant AndOperands(ts, pos, []) == MoreAndOperands(ts, next, exprs)
      decreases |ts| - next
    {
      AndGoesOn(ts, next, exprs);
      var e := ParseAtomExpr(ts, next + 1);
      if e.None? {
        return None;
      }
      exprs, next := exprs + [e.value.0], e.value.1;
    }
    AndGoesOn(ts, next, exprs);
    r := Some((MakeAnd(exprs), next));
  }

  /** `parse_atom`. */
  method ParseAtomExpr(ts: seq<string>, pos: nat) returns (r: Parsed)
    requires pos <= |ts|
    ensures r == ParseAtom(ts, pos)
    decreases |ts| - pos, 1
  {
    if pos == |ts| {
      return None;
    }
    if ts[pos] == "(" {
      r := ParseOrExpr(ts, pos + 1);
      if r.Some? {
        r := if r.value.1 < |ts| && ts[r.value.1] == ")" then Some((r.value.0, r.value.1 + 1)) else None;
      }
    } else {
      r := ParseCondition(ts, pos);
    }
  }

  /** `SmartFilter::parse`. */
  method Parse(input: string) returns (filter: Option<FilterExpr>)
    ensures filter == ParseFilter(input)
  {
    var tokens := Tokenize(input);
    if tokens.None? {
      return None;
    }
    var parsed := ParseOrExpr(tokens.value, 0);
    if parsed.None? || parsed.value.1 < |tokens.value| {
      return None;
    }
    filter := Some(parsed.value.0);
  }
}
