/** Instants as text: the writer of the canonical form and of RFC 3339, and the RFC 3339 parser, as the
    `chrono` library has them. Instants count nanoseconds from the first midnight of year 0. */
module Instants {
  import opened Wrappers
  import opened Text
  import opened Calendar

  const NANOS_PER_MILLI: nat := 1_000_000

  const NANOS_PER_SECOND: nat := 1_000_000_000

  // ---------------------------------------------------------------------------
  // Fixed-width text
  // ---------------------------------------------------------------------------

  /** One number of the text, with its width and the text that follows it. */
  datatype Part = Part(value: nat, width: nat, mark: string)

  /** The text of the parts from `i` on. */
  function Render(ps: seq<Part>, i: nat := 0): string
    requires i <= |ps|
    decreases |ps| - i
  {
    if i == |ps| then "" else Pad(ps[i].value, ps[i].width) + (ps[i].mark + Render(ps, i + 1))
  }

  predicate Fits(ps: seq<Part>)
  {
    forall i :: 0 <= i < |ps| ==> ps[i].width >= 1 && ps[i].value < Pow10(ps[i].width)
  }

  predicate SameShape(ps: seq<Part>, qs: seq<Part>)
  {
    |ps| == |qs| && forall i :: 0 <= i < |ps| ==> ps[i].width == qs[i].width && ps[i].mark == qs[i].mark
  }

  predicate PartsLess(ps: seq<Part>, qs: seq<Part>, i: nat := 0)
    requires i <= |ps| == |qs|
    decreases |ps| - i
  {
    i < |ps| &&
    (ps[i].value < qs[i].value || (ps[i].value == qs[i].value && PartsLess(ps, qs, i + 1)))
  }

  lemma {:induction false} RenderOrder(ps: seq<Part>, qs: seq<Part>, i: nat)
    requires Fits(ps) && Fits(qs) && SameShape(ps, qs) && i <= |ps|
    ensures |Render(ps, i)| == |Render(qs, i)|
    ensures Less(Render(ps, i), Render(qs, i)) <==> PartsLess(ps, qs, i)
    ensures Render(ps, i) == Render(qs, i) <==> ps[i..] == qs[i..]
    decreases |ps| - i
  {
    hide Less, Pad, Pow10;
    if i < |ps| {
      RenderOrder(ps, qs, i + 1);
      PadOrder(ps[i].value, qs[i].value, ps[i].width);
      MarkedOrder(Pad(ps[i].value, ps[i].width), Pad(qs[i].value, qs[i].width), ps[i].mark, Render(ps, i + 1),
                  Render(qs, i + 1));
      assert ps[i..] == [ps[i]] + ps[i + 1..] && qs[i..] == [qs[i]] + qs[i + 1..];
    } else {
      LessTrichotomy("", "");
    }
  }

  /** Texts of one length before the same mark decide unless they are equal. */
  lemma MarkedOrder(p: string, q: string, mark: string, r: string, s: string)
    requires |p| == |q| && |r| == |s|
    ensures |p + (mark + r)| == |q + (mark + s)|
    ensures Less(p + (mark + r), q + (mark + s)) <==> Less(p, q) || (p == q && Less(r, s))
    ensures p + (mark + r) == q + (mark + s) <==> p == q && r == s
  {
    hide Less;
    LessTrichotomy(mark, mark);
    LessAppend(mark, r, mark, s);
    LessAppend(p, mark + r, q, mark + s);
    SameFront(p, mark + r, q, mark + s);
    SameFront(mark, r, mark, s);
  }

  lemma SameFront(a: string, b: string, c: string, d: string)
    requires |a| == |c|
    ensures a + b == c + d <==> a == c && b == d
  {
    if a + b == c + d {
      assert a == (a + b)[..|a|] && c == (c + d)[..|c|];
      assert b == (a + b)[|a|..] && d == (c + d)[|c|..];
    }
  }

  /** The width and the following text of each expected number. */
  type Shape = seq<(nat, string)>

  /** A date and a time may also be parted by a small `t` or a space. */
  predicate Matches(mark: string, text: string)
  {
    text == mark || (mark == "T" && (text == "t" || text == " "))
  }

  /** Reads the numbers of a shape, from its `i`th entry on, off the front of a text. */
  function Scan(s: string, shape: Shape, i: nat := 0): Option<(seq<nat>, string)>
    requires i <= |shape|
    decreases |shape| - i
  {
    if i == |shape| then Some(([], s)) else
    var (w, mark) := shape[i];
    if |s| < w + |mark| || !Matches(mark, s[w..w + |mark|]) then None else
    match (ParseDigits(s[..w]), Scan(s[w + |mark|..], shape, i + 1))
    case (Some(n), Some((ns, rest))) => Some(([n] + ns, rest))
    case _ => None
  }

  predicate HasShape(ps: seq<Part>, shape: Shape)
  {
    |ps| == |shape| && forall i :: 0 <= i < |ps| ==> shape[i] == (ps[i].width, ps[i].mark)
  }

  function Values(ps: seq<Part>, i: nat := 0): seq<nat>
    requires i <= |ps|
    decreases |ps| - i
  {
    if i == |ps| then [] else [ps[i].value] + Values(ps, i + 1)
  }

  lemma {:induction false} ScanRender(ps: seq<Part>, shape: Shape, i: nat, rest: string)
    requires Fits(ps) && HasShape(ps, shape) && i <= |ps|
    ensures Scan(Render(ps, i) + rest, shape, i) == Some((Values(ps, i), rest))
    decreases |ps| - i
  {
    hide Pad, ParseDigits, Pow10;
    if i < |ps| {
      ScanRender(ps, shape, i + 1, rest);
      var p, m, tail := Pad(ps[i].value, ps[i].width), ps[i].mark, Render(ps, i + 1);
      PadWidth(ps[i].value, ps[i].width);
      PadReadsBack(ps[i].value, ps[i].width);
      assert (p + (m + tail)) + rest == p + (m + (tail + rest));
      ThreePieces(p, m, tail + rest);
      assert shape[i] == (|p|, m);
    } else {
      assert Render(ps, i) + rest == rest;
    }
  }

  lemma ThreePieces(p: string, m: string, r: string)
    ensures var s := p + (m + r);
      |s| == |p| + |m| + |r| && s[..|p|] == p && s[|p|..|p| + |m|] == m && s[|p| + |m|..] == r
  {
  }

  // ---------------------------------------------------------------------------
  // Writing
  // ---------------------------------------------------------------------------

  function SecondParts(t: Moment): seq<Part>
  {
    [Part(t.date.year, 4, "-"), Part(t.date.month, 2, "-"), Part(t.date.day, 2, "T"),
     Part(t.hour, 2, ":"), Part(t.minute, 2, ":"), Part(t.second, 2, "")]
  }

  /** Date and time down to seconds. A year beyond four digits is written with a sign. */
  function DateTimeText(t: Moment): string
  {
    (if t.date.year > 9999 then "+" else "") + Render(SecondParts(t))
  }

  /** `%Y-%m-%dT%H:%M:%S%.3fZ`. */
  function FormatInstant(ms: nat): string
  {
    DateTimeText(MomentOf(ms)) + ("." + (Pad(MomentOf(ms).milli, 3) + "Z"))
  }

  /** None, three, six or nine digits, as many as needed. */
  function FractionText(nanos: nat): string
  {
    if nanos == 0 then ""
    else if nanos % 1_000_000 == 0 then "." + Pad(nanos / 1_000_000, 3)
    else if nanos % 1000 == 0 then "." + Pad(nanos / 1000, 6)
    else "." + Pad(nanos, 9)
  }

  /** `to_rfc3339` in UTC. */
  function FormatRfc3339(at: nat): string
  {
    DateTimeText(MomentOf(at / NANOS_PER_MILLI)) + (FractionText(at % NANOS_PER_SECOND) + "+00:00")
  }

  predicate FourDigitMillis(ms: nat)
  {
    MomentOf(ms).date.year <= 9999
  }

  lemma PowersOfTen()
    ensures Pow10(0) == 1 && Pow10(1) == 10 && Pow10(2) == 100 && Pow10(3) == 1000 && Pow10(4) == 10_000
    ensures Pow10(5) == 100_000
    ensures Pow10(6) == 1_000_000 && Pow10(9) == 1_000_000_000
  {
    assert Pow10(2) == 100;
    assert Pow10(3) == 1000;
    assert Pow10(4) == 10_000;
    assert Pow10(6) == 1_000_000;
    assert Pow10(8) == 100_000_000;
  }

  lemma SecondPartsFit(t: Moment)
    requires ValidMoment(t) && t.date.year <= 9999
    ensures Fits(SecondParts(t))
  {
    PowersOfTen();
  }

  predicate SecondLess(a: Moment, b: Moment)
  {
    MomentLess(a.(milli := 0), b.(milli := 0))
  }

  lemma SecondPartsOrder(s: Moment, t: Moment)
    ensures SameShape(SecondParts(s), SecondParts(t))
    ensures PartsLess(SecondParts(s), SecondParts(t)) <==> SecondLess(s, t)
    ensures SecondParts(s) == SecondParts(t) <==> s.(milli := 0) == t.(milli := 0)
  {
    var p, q := SecondParts(s), SecondParts(t);
    assert p[0] == Part(s.date.year, 4, "-") && q[0] == Part(t.date.year, 4, "-");
    assert p[1] == Part(s.date.month, 2, "-") && q[1] == Part(t.date.month, 2, "-");
    assert p[2] == Part(s.date.day, 2, "T") && q[2] == Part(t.date.day, 2, "T");
    assert p[3] == Part(s.hour, 2, ":") && q[3] == Part(t.hour, 2, ":");
    assert p[4] == Part(s.minute, 2, ":") && q[4] == Part(t.minute, 2, ":");
    assert p[5] == Part(s.second, 2, "") && q[5] == Part(t.second, 2, "");
    assert PartsLess(p, q, 5) <==> s.second < t.second;
    assert PartsLess(p, q, 3) <==> s.hour < t.hour || (s.hour == t.hour && PartsLess(p, q, 4));
    assert PartsLess(p, q, 1) <==> s.date.month < t.date.month || (s.date.month == t.date.month && PartsLess(p, q, 2));
  }

  lemma MilliOrder(a: nat, b: nat)
    requires a < 1000 && b < 1000
    ensures |"." + (Pad(a, 3) + "Z")| == |"." + (Pad(b, 3) + "Z")|
    ensures Less("." + (Pad(a, 3) + "Z"), "." + (Pad(b, 3) + "Z")) <==> a < b
    ensures "." + (Pad(a, 3) + "Z") == "." + (Pad(b, 3) + "Z") <==> a == b
  {
    hide Pad, Less;
    PowersOfTen();
    PadOrder(a, b, 3);
    LessTrichotomy(".", ".");
    LessTrichotomy("Z", "Z");
    LessAppend(Pad(a, 3), "Z", Pad(b, 3), "Z");
    LessAppend(".", Pad(a, 3) + "Z", ".", Pad(b, 3) + "Z");
    SameFront(".", Pad(a, 3) + "Z", ".", Pad(b, 3) + "Z");
    SameFront(Pad(a, 3), "Z", Pad(b, 3), "Z");
  }

  lemma SecondTextOrder(s: Moment, t: Moment)
    requires ValidMoment(s) && ValidMoment(t) && s.date.year <= 9999 && t.date.year <= 9999
    ensures |DateTimeText(s)| == |DateTimeText(t)|
    ensures Less(DateTimeText(s), DateTimeText(t)) <==> SecondLess(s, t)
    ensures DateTimeText(s) == DateTimeText(t) <==> s.(milli := 0) == t.(milli := 0)
  {
    hide ValidMoment, Render, PartsLess, SecondLess, Less, Fits, SecondParts;
    SecondPartsFit(s);
    SecondPartsFit(t);
    SecondPartsOrder(s, t);
    RenderOrder(SecondParts(s), SecondParts(t), 0);
    assert SecondParts(s)[0..] == SecondParts(s) && SecondParts(t)[0..] == SecondParts(t);
    assert DateTimeText(s) == Render(SecondParts(s)) && DateTimeText(t) == Render(SecondParts(t));
  }

  /** The canonical date text is an order embedding of milliseconds. */
  lemma InstantOrder(a: nat, b: nat)
    requires FourDigitMillis(a) && FourDigitMillis(b)
    ensures |FormatInstant(a)| == |FormatInstant(b)|
    ensures Less(FormatInstant(a), FormatInstant(b)) <==> a < b
    ensures FormatInstant(a) == FormatInstant(b) <==> a == b
  {
    hide MomentOf, Less, DateTimeText, Pad;
    var s, t := MomentOf(a), MomentOf(b);
    MomentOfMillis(a);
    MomentOfMillis(b);
    SecondTextOrder(s, t);
    MilliOrder(s.milli, t.milli);
    LessAppend(DateTimeText(s), "." + (Pad(s.milli, 3) + "Z"), DateTimeText(t), "." + (Pad(t.milli, 3) + "Z"));
    SameFront(DateTimeText(s), "." + (Pad(s.milli, 3) + "Z"), DateTimeText(t), "." + (Pad(t.milli, 3) + "Z"));
    MomentOrder(a, b);
    assert MomentLess(s, t) <==> SecondLess(s, t) || (s.(milli := 0) == t.(milli := 0) && s.milli < t.milli);
  }

  // ---------------------------------------------------------------------------
  // Reading
  // ---------------------------------------------------------------------------

  const DATE_TIME: Shape := [(4, "-"), (2, "-"), (2, "T"), (2, ":"), (2, ":"), (2, "")]

  function MomentFrom(ns: seq<nat>): Moment
    requires |ns| == 6
  {
    Moment(Date(ns[0], ns[1], ns[2]), ns[3], ns[4], ns[5], 0)
  }

  /** The nanoseconds of a fraction, if there is one, and the text behind it. Nine digits count; more are
      skipped. */
  function ParseFraction(s: string): Option<(nat, string)>
  {
    if s == [] || s[0] != '.' then Some((0, s)) else
    var n := LeadingDigits(s[1..]);
    var k := if n < 9 then n else 9;
    match ParseDigits(s[1..1 + k])
    case None => None
    case Some(v) => Some((v * Pow10(9 - k), s[1 + n..]))
  }

  /** The minutes of an offset from UTC. The true minus sign is allowed beside the hyphen. */
  function ParseOffset(s: string): Option<int>
  {
    if s == "Z" || s == "z" then Some(0)
    else if |s| != 6 || s[3] != ':' || (s[0] != '+' && s[0] != '-' && s[0] != '\U{2212}') then None
    else
      match (ParseDigits(s[1..3]), ParseDigits(s[4..6]))
      case (Some(h), Some(m)) =>
        var minutes: int := 60 * h + m;
        if h > 23 || m > 59 then None else Some(if s[0] == '+' then minutes else -minutes)
      case _ => None
  }

  /** `parse_from_rfc3339`, moved to UTC. */
  function ParseInstant(s: string): Option<nat>
  {
    match Scan(s, DATE_TIME)
    case None => None
    case Some((ns, rest)) =>
      if |ns| != 6 || !ValidMoment(MomentFrom(ns)) then None else
      match ParseFraction(rest)
      case None => None
      case Some((nanos, zone)) =>
        match ParseOffset(zone)
        case None => None
        case Some(minutes) => InstantAt(MomentFrom(ns), nanos, minutes)
  }

  function InstantAt(t: Moment, nanos: nat, offset: int): Option<nat>
    requires ValidMoment(t)
  {
    var at := MillisOf(t) * NANOS_PER_MILLI + nanos - 60 * offset * NANOS_PER_SECOND;
    if at < 0 then None else Some(at)
  }

  lemma SecondPartsValues(t: Moment)
    ensures |Values(SecondParts(t))| == 6 && MomentFrom(Values(SecondParts(t))) == t.(milli := 0)
  {
    var p := SecondParts(t);
    assert Values(p, 5) == [t.second];
    assert Values(p, 4) == [t.minute, t.second];
    assert Values(p, 3) == [t.hour, t.minute, t.second];
    assert Values(p, 2) == [t.date.day, t.hour, t.minute, t.second];
    assert Values(p, 1) == [t.date.month, t.date.day, t.hour, t.minute, t.second];
  }

  /** The parser sees a written date and time as it is, whatever follows. */
  lemma ScanDateTime(t: Moment, rest: string)
    requires ValidMoment(t) && t.date.year <= 9999
    ensures var r := Scan(DateTimeText(t) + rest, DATE_TIME);
      r.Some? && |r.value.0| == 6 && MomentFrom(r.value.0) == t.(milli := 0) && r.value.1 == rest
  {
    hide Render, Scan, Fits, Values;
    SecondPartsFit(t);
    ScanRender(SecondParts(t), DATE_TIME, 0, rest);
    SecondPartsValues(t);
    assert DateTimeText(t) == Render(SecondParts(t));
  }

  /** A written fraction of up to nine digits counts in full. */
  lemma FractionReadsBack(v: nat, w: nat, rest: string)
    requires 1 <= w <= 9 && v < Pow10(w) && (rest != [] ==> !IsDigit(rest[0]))
    ensures ParseFraction("." + (Pad(v, w) + rest)) == Some((v * Pow10(9 - w), rest))
  {
    hide Pad, LeadingDigits, Pow10;
    var s := "." + (Pad(v, w) + rest);
    PadWidth(v, w);
    PadReadsBack(v, w);
    assert s[1..] == Pad(v, w) + rest;
    LeadingDigitsStop(Pad(v, w), rest);
    assert s[1..1 + w] == Pad(v, w) && s[1 + w..] == rest;
  }

  lemma FractionTextReadsBack(nanos: nat, rest: string)
    requires nanos < NANOS_PER_SECOND && rest != [] && !IsDigit(rest[0]) && rest[0] != '.'
    ensures ParseFraction(FractionText(nanos) + rest) == Some((nanos, rest))
  {
    hide Pad, ParseFraction;
    PowersOfTen();
    if nanos == 0 {
      assert "" + rest == rest;
      assert ParseFraction(rest) == Some((0, rest)) by { NoFraction(rest); }
    } else {
      var w := if nanos % 1_000_000 == 0 then 3 else if nanos % 1000 == 0 then 6 else 9;
      var v := if w == 3 then nanos / 1_000_000 else if w == 6 then nanos / 1000 else nanos;
      FractionReadsBack(v, w, rest);
      assert ("." + Pad(v, w)) + rest == "." + (Pad(v, w) + rest);
    }
  }

  lemma NoFraction(s: string)
    requires s != [] && s[0] != '.'
    ensures ParseFraction(s) == Some((0, s))
  {
  }

  lemma ZeroOffsets()
    ensures ParseOffset("Z") == Some(0) && ParseOffset("+00:00") == Some(0)
  {
    var s := "+00:00";
    assert s[1..3] == "00" && s[4..6] == "00";
    assert "00"[..1] == "0";
  }

  /** A leading sign, as written before a long year, is not read. */
  lemma SignedYearFails(s: string)
    requires s != [] && s[0] == '+'
    ensures ParseInstant(s) == None
  {
    hide ParseDigits, Matches;
    if |s| >= 4 {
      OnlyDigitsParse(s[..4]);
    }
    assert DATE_TIME[0] == (4, "-");
  }

  lemma {:induction false} OnlyDigitsParse(s: string)
    ensures ParseDigits(s).Some? <==> s != [] && AllDigits(s)
  {
    if |s| > 1 {
      OnlyDigitsParse(s[..|s| - 1]);
      assert AllDigits(s) <==> AllDigits(s[..|s| - 1]) && IsDigit(s[|s| - 1]);
    }
  }

  /** Reading the canonical form gives the milliseconds back, except beyond year 9999. */
  lemma CanonicalInstantReadsBack(ms: nat)
    ensures ParseInstant(FormatInstant(ms)) == if FourDigitMillis(ms) then Some(ms * NANOS_PER_MILLI) else None
  {
    hide MomentOf, ValidMoment, Scan, MillisOf, DateTimeText, ParseFraction, Pad, ParseOffset;
    var t := MomentOf(ms);
    MomentOfMillis(ms);
    if FourDigitMillis(ms) {
      var rest := "." + (Pad(t.milli, 3) + "Z");
      ScanDateTime(t, rest);
      PowersOfTen();
      FractionReadsBack(t.milli, 3, "Z");
      ZeroOffsets();
      MillisApart(t);
    } else {
      SignedYearFails(FormatInstant(ms)) by { LongYearIsSigned(t); }
    }
  }

  lemma LongYearIsSigned(t: Moment)
    requires t.date.year > 9999
    ensures DateTimeText(t) != [] && DateTimeText(t)[0] == '+'
  {
  }

  lemma MillisApart(t: Moment)
    requires ValidMoment(t)
    ensures ValidMoment(t.(milli := 0)) && MillisOf(t.(milli := 0)) + t.milli == MillisOf(t)
  {
  }

  /** Reading the RFC 3339 form gives the instant back to the nanosecond, except beyond year 9999. */
  lemma Rfc3339ReadsBack(at: nat)
    ensures ParseInstant(FormatRfc3339(at)) == if FourDigitMillis(at / NANOS_PER_MILLI) then Some(at) else None
  {
    hide MomentOf, ValidMoment, Scan, MillisOf, DateTimeText, ParseFraction, FractionText, ParseOffset;
    var ms, nanos := at / NANOS_PER_MILLI, at % NANOS_PER_SECOND;
    var t := MomentOf(ms);
    MomentOfMillis(ms);
    if FourDigitMillis(ms) {
      ScanDateTime(t, FractionText(nanos) + "+00:00");
      FractionTextReadsBack(nanos, "+00:00");
      ZeroOffsets();
      MillisApart(t);
      SecondsAndNanos(at);
    } else {
      SignedYearFails(FormatRfc3339(at)) by { LongYearIsSigned(t); }
    }
  }

  lemma SecondsAndNanos(at: nat)
    ensures var ms := at / NANOS_PER_MILLI; MomentOf(ms).milli == ms % 1000
    ensures var ms := at / NANOS_PER_MILLI; (ms - ms % 1000) * NANOS_PER_MILLI + at % NANOS_PER_SECOND == at
  {
    hide MomentOf;
    MilliOfMoment(at / NANOS_PER_MILLI);
    var ms := at / NANOS_PER_MILLI;
    SplitNanos(ms / 1000, ms % 1000, at % NANOS_PER_MILLI, at);
  }

  /** Seconds, milliseconds and nanoseconds make up an instant. */
  lemma SplitNanos(s: nat, ms: nat, ns: nat, at: nat)
    requires ms < 1000 && ns < NANOS_PER_MILLI && at == (1000 * s + ms) * NANOS_PER_MILLI + ns
    ensures at % NANOS_PER_SECOND == ms * NANOS_PER_MILLI + ns
    ensures 1000 * s * NANOS_PER_MILLI + at % NANOS_PER_SECOND == at
  {
    var low := ms * NANOS_PER_MILLI + ns;
    assert at == s * NANOS_PER_SECOND + low;
    RemainderIs(s, low, at);
  }

  lemma RemainderIs(q: nat, r: nat, x: nat)
    requires r < NANOS_PER_SECOND && x == q * NANOS_PER_SECOND + r
    ensures x % NANOS_PER_SECOND == r
  {
  }

  lemma MilliOfMoment(ms: nat)
    ensures MomentOf(ms).milli == ms % 1000
  {
    hide DateOf;
    var days := ms / MILLIS_PER_DAY;
    assert ms == days * 86_400 * 1000 + ms % MILLIS_PER_DAY;
  }

  // ---------------------------------------------------------------------------
  // Which fractions keep to milliseconds
  // ---------------------------------------------------------------------------

  lemma {:induction false} DigitsSplit(a: string, b: string)
    requires AllDigits(a) && AllDigits(b) && a != [] && b != []
    ensures ParseDigits(a).Some? && ParseDigits(b).Some?
    ensures ParseDigits(a + b) == Some(ParseDigits(a).value * Pow10(|b|) + ParseDigits(b).value)
  {
    OnlyDigitsParse(a);
    OnlyDigitsParse(b);
    var n := |b| - 1;
    assert (a + b)[..|a + b| - 1] == a + b[..n];
    if n == 0 {
      assert a + b[..n] == a;
      assert Pow10(1) == 10;
    } else {
      hide AllDigits;
      DigitsSplit(a, b[..n]);
      DigitShift(ParseDigits(a).value, n, ParseDigits(b[..n]).value);
    }
  }

  lemma DigitShift(high: nat, n: nat, low: nat)
    ensures 10 * (high * Pow10(n) + low) == high * Pow10(n + 1) + 10 * low
  {
  }

  lemma {:induction false} OnlyZerosMakeZero(s: string)
    requires AllDigits(s) && s != []
    ensures ParseDigits(s).Some? && (ParseDigits(s).value == 0 <==> forall i :: 0 <= i < |s| ==> s[i] == '0')
  {
    OnlyDigitsParse(s);
    if |s| > 1 {
      OnlyZerosMakeZero(s[..|s| - 1]);
      assert s[..|s| - 1] + [s[|s| - 1]] == s;
    }
  }

  lemma {:induction false} DigitsBound(s: string)
    requires AllDigits(s) && s != []
    ensures ParseDigits(s).Some? && ParseDigits(s).value < Pow10(|s|)
  {
    OnlyDigitsParse(s);
    if |s| > 1 {
      DigitsBound(s[..|s| - 1]);
    } else {
      assert Pow10(1) == 10;
    }
  }

  /** The digits of the fraction that count, from the fourth on, are zeros. */
  predicate KeepsToMillis(s: string)
  {
    s != [] && s[0] == '.' ==> forall i :: 4 <= i < 10 && i <= LeadingDigits(s[1..]) ==> s[i] == '0'
  }

  lemma FractionKeepsToMillis(s: string)
    requires ParseFraction(s).Some?
    ensures ParseFraction(s).value.0 < NANOS_PER_SECOND
    ensures ParseFraction(s).value.0 % NANOS_PER_MILLI == 0 <==> KeepsToMillis(s)
  {
    hide LeadingDigits, ParseDigits, Pow10;
    PowersOfTen();
    if s != [] && s[0] == '.' {
      var n := LeadingDigits(s[1..]);
      var k := if n < 9 then n else 9;
      var ds := s[1..1 + k];
      OnlyDigitsParse(ds);
      DigitsBound(ds);
      assert AllDigits(ds);
      assert forall i :: 0 <= i < k ==> ds[i] == s[1 + i];
      if k <= 3 {
        ShortFraction(ParseDigits(ds).value, k);
      } else {
        LongFraction(ds);
        assert (forall i :: 3 <= i < |ds| ==> ds[i] == '0') <==>
          (forall i :: 4 <= i < 10 && i <= n ==> s[i] == '0') by {
          assert forall i :: 1 <= i <= k ==> s[i] == ds[i - 1];
        }
      }
    }
  }

  lemma ShortFraction(v: nat, k: nat)
    requires 1 <= k <= 3 && v < Pow10(k)
    ensures v * Pow10(9 - k) < NANOS_PER_SECOND && v * Pow10(9 - k) % NANOS_PER_MILLI == 0
  {
    hide Pow10;
    PowersOfTen();
    assert Pow10(8) == 100_000_000 && Pow10(7) == 10_000_000 by { PowersSevenAndEight(); }
    if k == 1 {
      assert v * Pow10(9 - k) == v * 100 * NANOS_PER_MILLI;
    } else if k == 2 {
      assert v * Pow10(9 - k) == v * 10 * NANOS_PER_MILLI;
    } else {
      assert v * Pow10(9 - k) == v * NANOS_PER_MILLI;
    }
  }

  lemma PowersSevenAndEight()
    ensures Pow10(7) == 10_000_000 && Pow10(8) == 100_000_000
  {
    PowersOfTen();
  }

  lemma {:induction false} PowersAdd(m: nat, n: nat)
    ensures Pow10(m + n) == Pow10(m) * Pow10(n)
  {
    if m > 0 {
      PowersAdd(m - 1, n);
      assert 10 * (Pow10(m - 1) * Pow10(n)) == 10 * Pow10(m - 1) * Pow10(n);
    }
  }

  lemma LongFraction(ds: string)
    requires AllDigits(ds) && 3 < |ds| <= 9
    ensures ParseDigits(ds).Some? && ParseDigits(ds).value * Pow10(9 - |ds|) < NANOS_PER_SECOND
    ensures ParseDigits(ds).value * Pow10(9 - |ds|) % NANOS_PER_MILLI == 0 <==>
      forall i :: 3 <= i < |ds| ==> ds[i] == '0'
  {
    hide ParseDigits, Pow10;
    var a, b := ds[..3], ds[3..];
    assert ds == a + b;
    DigitsSplit(a, b);
    DigitsBound(a);
    DigitsBound(b);
    OnlyZerosMakeZero(b);
    PowersOfTen();
    PowersAdd(|b|, 9 - |ds|);
    ScaledSum(ParseDigits(a).value, ParseDigits(b).value, Pow10(|b|), Pow10(9 - |ds|));
    assert (forall i :: 0 <= i < |b| ==> b[i] == '0') <==> (forall i :: 3 <= i < |ds| ==> ds[i] == '0') by {
      assert forall i :: 3 <= i < |ds| ==> ds[i] == b[i - 3];
    }
  }

  /** Whole milliseconds are the multiples of a million nanoseconds. */
  lemma ScaledSum(high: nat, low: nat, p: nat, q: nat)
    requires high < 1000 && low < p && p * q == NANOS_PER_MILLI
    ensures (high * p + low) * q < NANOS_PER_SECOND
    ensures (high * p + low) * q % NANOS_PER_MILLI == 0 <==> low == 0
  {
    assert (high * p + low) * q == high * NANOS_PER_MILLI + low * q by {
      assert (high * p + low) * q == high * (p * q) + low * q;
    }
    assert low * q < p * q;
    assert low * q == 0 <==> low == 0;
    RemainderOfSum(high, low * q);
  }

  lemma RemainderOfSum(high: nat, low: nat)
    requires high < 1000 && low < NANOS_PER_MILLI
    ensures high * NANOS_PER_MILLI + low < NANOS_PER_SECOND
    ensures (high * NANOS_PER_MILLI + low) % NANOS_PER_MILLI == low
  {
  }

  function ShapeWidth(shape: Shape, i: nat := 0): nat
    requires i <= |shape|
    decreases |shape| - i
  {
    if i == |shape| then 0 else shape[i].0 + |shape[i].1| + ShapeWidth(shape, i + 1)
  }

  lemma {:induction false} ScanRest(s: string, shape: Shape, i: nat)
    requires i <= |shape| && Scan(s, shape, i).Some?
    ensures ShapeWidth(shape, i) <= |s| && Scan(s, shape, i).value.1 == s[ShapeWidth(shape, i)..]
    decreases |shape| - i
  {
    hide ParseDigits, Matches;
    if i < |shape| {
      var w := shape[i].0 + |shape[i].1|;
      ScanRest(s[w..], shape, i + 1);
    }
  }

  lemma DateTimeWidth()
    ensures ShapeWidth(DATE_TIME) == 19
  {
    assert ShapeWidth(DATE_TIME, 4) == 5;
    assert ShapeWidth(DATE_TIME, 2) == 11;
  }

  /** An instant before year 10000. */
  lemma YearTenThousand(ms: nat)
    ensures FourDigitMillis(ms) <==> ms < DaysBeforeYear(10_000) * MILLIS_PER_DAY
  {
    hide DateOf, DaysBeforeYear, DaysBeforeMonth;
    var day := ms / MILLIS_PER_DAY;
    DateOfDay(day);
    var first := Date(10_000, 1, 1);
    assert DayNumber(first) == DaysBeforeYear(10_000) by { FirstOfYear(10_000); }
    DayOrder(DateOf(day), first);
  }

  lemma FirstOfYear(y: nat)
    ensures DayNumber(Date(y, 1, 1)) == DaysBeforeYear(y) && ValidDate(Date(y, 1, 1))
  {
  }

  /** The date and time that a text starts with. */
  function WrittenMoment(s: string): (t: Moment)
    requires ParseInstant(s).Some?
    ensures ValidMoment(t)
  {
    MomentFrom(Scan(s, DATE_TIME).value.0)
  }

  /** A time on the last day of year 9999 that its offset moves beyond midnight. */
  predicate LeavesYear9999(t: Moment, offset: int)
  {
    t.date == Date(9999, 12, 31) && 60 * t.hour + t.minute - offset >= 24 * 60
  }

  /** A parsed instant is on a whole millisecond exactly when the fraction keeps to milliseconds, and
      before year 10000 exactly unless its offset moves it there. */
  lemma ParsedInstant(s: string)
    requires ParseInstant(s).Some?
    ensures |s| >= 19
    ensures ParseInstant(s).value % NANOS_PER_MILLI == 0 <==> KeepsToMillis(s[19..])
    ensures ParseFraction(s[19..]).Some? && ParseOffset(ParseFraction(s[19..]).value.1).Some?
    ensures FourDigitMillis(ParseInstant(s).value / NANOS_PER_MILLI) <==>
      !LeavesYear9999(WrittenMoment(s), ParseOffset(ParseFraction(s[19..]).value.1).value)
  {
    hide Scan, ValidMoment, MillisOf, ParseFraction, ParseOffset, KeepsToMillis, FourDigitMillis, LeavesYear9999;
    hide DaysBeforeYear;
    ScanRest(s, DATE_TIME, 0);
    DateTimeWidth();
    var ns, rest := Scan(s, DATE_TIME).value.0, s[19..];
    FractionKeepsToMillis(rest);
    var nanos, offset := ParseFraction(rest).value.0, ParseOffset(ParseFraction(rest).value.1).value;
    var ms := MillisOf(MomentFrom(ns));
    assert ParseInstant(s).value == ms * NANOS_PER_MILLI + nanos - 60 * offset * NANOS_PER_SECOND;
    OffsetKeepsMillis(ms, nanos, offset);
    ScannedYear(s);
    OffsetBound(ParseFraction(rest).value.1);
    MovedBeyond(MomentFrom(ns), offset, nanos / NANOS_PER_MILLI);
    YearTenThousand(ParseInstant(s).value / NANOS_PER_MILLI);
  }

  lemma OffsetBound(s: string)
    requires ParseOffset(s).Some?
    ensures -1440 < ParseOffset(s).value < 1440
  {
    hide ParseDigits;
  }

  /** In milliseconds, with any part of a second on top. */
  lemma MovedBeyond(t: Moment, offset: int, extra: nat)
    requires ValidMoment(t) && t.date.year <= 9999 && t.milli == 0 && -1440 < offset < 1440 && extra < 1000
    ensures MillisOf(t) - 60_000 * offset + extra >= DaysBeforeYear(10_000) * MILLIS_PER_DAY <==>
      LeavesYear9999(t, offset)
  {
    hide DaysBeforeYear, DaysBeforeMonth, DayNumber;
    var last := Date(9999, 12, 31);
    LastDay();
    DayOrder(last, t.date);
    DayOrder(t.date, last);
    var day, minutes := DayNumber(t.date), 60 * t.hour + t.minute - offset;
    var total := MillisOf(t) - 60_000 * offset + extra;
    assert total == day * MILLIS_PER_DAY + minutes * 60_000 + t.second * 1000 + extra;
    if t.date == last {
      assert DaysBeforeYear(10_000) == day + 1;
    } else {
      assert day < DayNumber(last);
    }
  }

  lemma OffsetKeepsMillis(ms: nat, nanos: nat, offset: int)
    requires nanos < NANOS_PER_SECOND && ms * NANOS_PER_MILLI + nanos - 60 * offset * NANOS_PER_SECOND >= 0
    ensures (ms * NANOS_PER_MILLI + nanos - 60 * offset * NANOS_PER_SECOND) % NANOS_PER_MILLI == nanos % NANOS_PER_MILLI
    ensures (ms * NANOS_PER_MILLI + nanos - 60 * offset * NANOS_PER_SECOND) / NANOS_PER_MILLI ==
      ms - 60_000 * offset + nanos / NANOS_PER_MILLI
  {
    var q := ms + nanos / NANOS_PER_MILLI - 60_000 * offset;
    assert ms * NANOS_PER_MILLI + nanos - 60 * offset * NANOS_PER_SECOND ==
      q * NANOS_PER_MILLI + nanos % NANOS_PER_MILLI;
  }

  lemma ScannedYear(s: string)
    requires Scan(s, DATE_TIME).Some? && |Scan(s, DATE_TIME).value.0| == 6
    ensures Scan(s, DATE_TIME).value.0[0] <= 9999
  {
    hide ParseDigits, Matches;
    OnlyDigitsParse(s[..4]);
    DigitsBound(s[..4]);
    PowersOfTen();
  }

  // ---------------------------------------------------------------------------
  // Two texts
  // ---------------------------------------------------------------------------

  lemma ShortPads()
    ensures Pad(6, 2) == "06" && Pad(10, 2) == "10" && Pad(12, 2) == "12" && Pad(15, 2) == "15"
    ensures Pad(0, 2) == "00" && Pad(23, 2) == "23" && Pad(30, 2) == "30" && Pad(31, 2) == "31"
  {
  }

  lemma CounterPad()
    ensures Pad(1, 4) == "0001"
  {
    assert Pad(0, 2) == "00";
    assert Pad(0, 3) == "000";
  }

  lemma YearPads()
    ensures Pad(2026, 4) == "2026" && Pad(9999, 4) == "9999"
  {
    assert Pad(20, 2) == "20" && Pad(99, 2) == "99";
    assert Pad(202, 3) == "202" && Pad(999, 3) == "999";
  }

  lemma SmallPads()
    ensures Pad(0, 2) == "00" && Pad(1, 4) == "0001" && Pad(6, 2) == "06" && Pad(10, 2) == "10" && Pad(12, 2) == "12"
    ensures Pad(15, 2) == "15" && Pad(23, 2) == "23" && Pad(30, 2) == "30" && Pad(31, 2) == "31"
    ensures Pad(2026, 4) == "2026" && Pad(9999, 4) == "9999"
  {
    hide Pad;
    ShortPads();
    CounterPad();
    YearPads();
  }

  /** A fraction finer than a millisecond is read in full. */
  lemma FineText()
    ensures ParseInstant("2026-06-15T10:30:00.0001Z").Some?
    ensures ParseInstant("2026-06-15T10:30:00.0001Z").value % NANOS_PER_MILLI == 100_000
  {
    hide Pad, ParseFraction, ParseOffset, MillisOf, Scan, Render;
    var t := Moment(Date(2026, 6, 15), 10, 30, 0, 0);
    SmallPads();
    assert DateTimeText(t) == "2026-06-15T10:30:00" by { DateTimeByParts(t); }
    ScanDateTime(t, ".0001Z");
    PowersOfTen();
    FractionReadsBack(1, 4, "Z");
    assert "." + (Pad(1, 4) + "Z") == ".0001Z";
    ZeroOffsets();
    assert "2026-06-15T10:30:00" + ".0001Z" == "2026-06-15T10:30:00.0001Z";
  }

  lemma LateTextParses()
    ensures ParseInstant("9999-12-31T23:30:00-01:00") == InstantAt(Moment(Date(9999, 12, 31), 23, 30, 0, 0), 0, -60)
  {
    hide Pad, ParseFraction, ParseOffset, Scan, Render, FourDigitMillis, MillisOf;
    var t := Moment(Date(9999, 12, 31), 23, 30, 0, 0);
    SmallPads();
    assert DateTimeText(t) == "9999-12-31T23:30:00" by { DateTimeByParts(t); }
    ScanDateTime(t, "-01:00");
    NoFraction("-01:00");
    HourBack();
    assert "9999-12-31T23:30:00" + "-01:00" == "9999-12-31T23:30:00-01:00";
  }

  /** A negative offset can move the last day of year 9999 on. */
  lemma LateText()
    ensures ParseInstant("9999-12-31T23:30:00-01:00").Some?
    ensures !FourDigitMillis(ParseInstant("9999-12-31T23:30:00-01:00").value / NANOS_PER_MILLI)
  {
    hide ParseInstant, FourDigitMillis, DaysBeforeYear, DaysBeforeMonth, DayNumber;
    LateTextParses();
    LastDay();
    YearTenThousand(ParseInstant("9999-12-31T23:30:00-01:00").value / NANOS_PER_MILLI);
  }

  lemma HourBack()
    ensures ParseOffset("-01:00") == Some(-60)
  {
    var s := "-01:00";
    assert s[1..3] == "01" && s[4..6] == "00";
    assert "00"[..1] == "0" && "01"[..1] == "0";
  }

  lemma LastDay()
    ensures ValidDate(Date(9999, 12, 31)) && DayNumber(Date(9999, 12, 31)) == DaysBeforeYear(10_000) - 1
  {
    YearIsItsMonths(9999);
  }

  lemma RenderStep(ps: seq<Part>, i: nat)
    requires i < |ps|
    ensures Render(ps, i) == Pad(ps[i].value, ps[i].width) + ps[i].mark + Render(ps, i + 1)
  {
    hide Pad;
  }

  lemma TimeByParts(t: Moment)
    ensures Render(SecondParts(t), 3) == Pad(t.hour, 2) + ":" + Pad(t.minute, 2) + ":" + Pad(t.second, 2)
  {
    hide Pad, Render;
    var p := SecondParts(t);
    RenderStep(p, 3);
    RenderStep(p, 4);
    RenderStep(p, 5);
    assert Render(p, 6) == "" by { RenderEnd(p); }
  }

  lemma RenderEnd(ps: seq<Part>)
    ensures Render(ps, |ps|) == ""
  {
  }

  lemma DateTimeByParts(t: Moment)
    requires t.date.year <= 9999
    ensures DateTimeText(t) ==
      Pad(t.date.year, 4) + "-" + Pad(t.date.month, 2) + "-" + Pad(t.date.day, 2) + "T" +
      (Pad(t.hour, 2) + ":" + Pad(t.minute, 2) + ":" + Pad(t.second, 2))
  {
    hide Pad, Render;
    var p := SecondParts(t);
    TimeByParts(t);
    RenderStep(p, 0);
    RenderStep(p, 1);
    RenderStep(p, 2);
  }
}
