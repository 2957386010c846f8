/** Hybrid logical clock timestamps and their canonical text. `Ord`, SQL `MAX(hlc)` and every merge
    comparison work on the text, so the text has to carry the causal order. */
module Hlc {
  import opened Wrappers
  import opened Text
  import opened Calendar
  import opened Instants

  type U16 = n: nat | n < 65536

  /** `physical` counts nanoseconds from the first midnight of year 0. */
  datatype HlcTimestamp = HlcTimestamp(physical: nat, counter: U16, devicePrefix: string)

  function Millis(t: HlcTimestamp): nat
  {
    t.physical / NANOS_PER_MILLI
  }

  // ---------------------------------------------------------------------------
  // Canonical text
  // ---------------------------------------------------------------------------

  function ToCanonical(t: HlcTimestamp): string
  {
    FormatInstant(Millis(t)) + ("-" + (Pad(t.counter, 4) + ("-" + t.devicePrefix)))
  }

  predicate FourDigitYear(t: HlcTimestamp)
  {
    FourDigitMillis(Millis(t))
  }

  /** Causal order: milliseconds, then counter, then device prefix. */
  predicate Before(a: HlcTimestamp, b: HlcTimestamp)
  {
    Millis(a) < Millis(b) ||
    (Millis(a) == Millis(b) && (a.counter < b.counter ||
    (a.counter == b.counter && Less(a.devicePrefix, b.devicePrefix))))
  }

  lemma TailOrder(a: HlcTimestamp, b: HlcTimestamp, w: nat)
    requires w >= 1 && a.counter < Pow10(w) && b.counter < Pow10(w)
    ensures var s, t := Pad(a.counter, w) + ("-" + a.devicePrefix), Pad(b.counter, w) + ("-" + b.devicePrefix);
      (Less(s, t) <==> a.counter < b.counter || (a.counter == b.counter && Less(a.devicePrefix, b.devicePrefix)))
  {
    PadOrder(a.counter, b.counter, w);
    LessTrichotomy("-", "-");
    LessAppend("-", a.devicePrefix, "-", b.devicePrefix);
    LessAppend(Pad(a.counter, w), "-" + a.devicePrefix, Pad(b.counter, w), "-" + b.devicePrefix);
  }

  lemma StampOrder(a: HlcTimestamp, b: HlcTimestamp)
    requires FourDigitYear(a) && FourDigitYear(b)
    ensures Less(ToCanonical(a), ToCanonical(b)) <==>
      Millis(a) < Millis(b) ||
      (Millis(a) == Millis(b) &&
       Less(Pad(a.counter, 4) + ("-" + a.devicePrefix), Pad(b.counter, 4) + ("-" + b.devicePrefix)))
  {
    InstantOrder(Millis(a), Millis(b));
    var s, t := Pad(a.counter, 4) + ("-" + a.devicePrefix), Pad(b.counter, 4) + ("-" + b.devicePrefix);
    LessTrichotomy("-", "-");
    LessAppend("-", s, "-", t);
    LessAppend(FormatInstant(Millis(a)), "-" + s, FormatInstant(Millis(b)), "-" + t);
  }

  /** Text order is causal order for four-digit years and counters up to 9999, whatever the
      prefixes are. */
  lemma CanonicalOrder(a: HlcTimestamp, b: HlcTimestamp)
    requires FourDigitYear(a) && FourDigitYear(b)
    requires a.counter <= 9999 && b.counter <= 9999
    ensures Less(ToCanonical(a), ToCanonical(b)) <==> Before(a, b)
  {
    StampOrder(a, b);
    PowersOfTen();
    TailOrder(a, b, 4);
  }

  /** Two counters one apart keep their order in the text except at the step from 9999 to 10000,
      where the unpadded fifth digit reverses it. */
  lemma SuccessorOrder(a: HlcTimestamp, b: HlcTimestamp)
    requires FourDigitYear(a) && FourDigitYear(b)
    requires Millis(a) == Millis(b) && b.counter == a.counter + 1
    ensures Less(ToCanonical(a), ToCanonical(b)) <==> a.counter != 9999
    ensures Less(ToCanonical(b), ToCanonical(a)) <==> a.counter == 9999
  {
    hide ToCanonical, MomentOf, Pad, Less, Pow10;
    StampOrder(a, b);
    StampOrder(b, a);
    PowersOfTen();
    if a.counter < 9999 {
      TailOrder(a, b, 4);
      TailOrder(b, a, 4);
    } else if a.counter == 9999 {
      TailReverses(a.devicePrefix, b.devicePrefix);
    } else {
      PadOverflows(a.counter, 4);
      PadOverflows(b.counter, 4);
      TailOrder(a, b, 5);
      TailOrder(b, a, 5);
    }
  }

  lemma TailReverses(a: string, b: string)
    ensures Less(Pad(10000, 4) + ("-" + b), Pad(9999, 4) + ("-" + a))
    ensures !Less(Pad(9999, 4) + ("-" + a), Pad(10000, 4) + ("-" + b))
  {
    assert Pad(9999, 4) == "9999" && Pad(10000, 4) == "10000" by {
      assert Pad(999, 3) == "999" by { assert Pad(99, 2) == "99"; }
      assert Pad(1000, 3) == "1000" by { assert Pad(100, 2) == "100"; }
    }
    hide Pad;
    assert Less("10000" + ("-" + b), "9999" + ("-" + a));
    LessTrichotomy("10000" + ("-" + b), "9999" + ("-" + a));
  }

  // ---------------------------------------------------------------------------
  // Parsing
  // ---------------------------------------------------------------------------

  function LastHyphen(s: string): (i: int)
    ensures -1 <= i < |s|
    ensures i >= 0 ==> s[i] == '-'
    ensures forall k :: i < k < |s| ==> s[k] != '-'
  {
    if s == [] then -1
    else if s[|s| - 1] == '-' then |s| - 1
    else LastHyphen(s[..|s| - 1])
  }

  function ParseU16(s: string): Option<U16>
  {
    match ParseUnsigned(s, 65536)
    case Some(n) => Some(n)
    case None => None
  }

  function FromStr(s: string): Option<HlcTimestamp>
  {
    var i := LastHyphen(s);
    if i < 0 then None else
    var j := LastHyphen(s[..i]);
    if j < 0 then None else
    if ByteLength(s[i + 1..]) != 12 then None else
    match (ParseU16(s[j + 1..i]), ParseInstant(s[..j]))
    case (Some(counter), Some(at)) => Some(HlcTimestamp(at, counter, s[i + 1..]))
    case _ => None
  }

  /** A text splits at its last hyphen. */
  lemma LastHyphenAt(front: string, back: string)
    requires forall k :: 0 <= k < |back| ==> back[k] != '-'
    ensures LastHyphen(front + "-" + back) == |front|
  {
    hide LastHyphen;
    var s := front + "-" + back;
    assert s[|front|] == '-';
    assert s[|front| + 1..] == back;
    assert forall k :: |front| < k < |s| ==> s[k] == s[|front| + 1..][k - |front| - 1];
  }

  predicate HyphenFree(s: string)
  {
    forall k :: 0 <= k < |s| ==> s[k] != '-'
  }

  /** What a stamp needs for its text to be read back as itself. */
  predicate Portable(t: HlcTimestamp)
  {
    && FourDigitYear(t)
    && t.physical % NANOS_PER_MILLI == 0
    && ByteLength(t.devicePrefix) == 12
    && HyphenFree(t.devicePrefix)
  }

  /** The parser cuts a text at its last two hyphens. */
  lemma FromStrAt(stamp: string, count: string, prefix: string)
    requires HyphenFree(count) && HyphenFree(prefix)
    ensures FromStr(stamp + ("-" + (count + ("-" + prefix)))) ==
      if ByteLength(prefix) != 12 || ParseU16(count).None? || ParseInstant(stamp).None? then None
      else Some(HlcTimestamp(ParseInstant(stamp).value, ParseU16(count).value, prefix))
  {
    hide ParseInstant, ParseU16, ByteLength;
    var s := stamp + ("-" + (count + ("-" + prefix)));
    assert s == (stamp + "-" + count) + "-" + prefix;
    LastHyphenAt(stamp + "-" + count, prefix);
    var i := |stamp| + 1 + |count|;
    assert s[..i] == stamp + "-" + count;
    LastHyphenAt(stamp, count);
    assert s[|stamp| + 1..i] == count && s[..|stamp|] == stamp && s[i + 1..] == prefix;
  }

  lemma CounterReadsBack(n: U16)
    ensures HyphenFree(Pad(n, 4)) && ParseU16(Pad(n, 4)) == Some(n)
  {
    hide Pad, ParseDigits;
    PadReadsBack(n, 4);
    assert IsDigit(Pad(n, 4)[0]);
  }

  /** What reading a written stamp gives: the stamp cut to milliseconds, if its year has four digits and
      its prefix twelve bytes. */
  lemma CanonicalReadsBack(t: HlcTimestamp)
    requires HyphenFree(t.devicePrefix)
    ensures FromStr(ToCanonical(t)) ==
      if FourDigitYear(t) && ByteLength(t.devicePrefix) == 12 then Some(t.(physical := Millis(t) * NANOS_PER_MILLI))
        else None
  {
    hide FormatInstant, Pad, ParseInstant, ParseU16, FromStr, ByteLength;
    CounterReadsBack(t.counter);
    FromStrAt(FormatInstant(Millis(t)), Pad(t.counter, 4), t.devicePrefix);
    CanonicalInstantReadsBack(Millis(t));
  }

  lemma ParsedPrefix(s: string)
    requires FromStr(s).Some?
    ensures HyphenFree(FromStr(s).value.devicePrefix) && ByteLength(FromStr(s).value.devicePrefix) == 12
  {
    hide ParseInstant, ParseU16, ByteLength;
  }

  /** Parsing inverts writing on exactly the portable stamps, for every counter. */
  lemma CanonicalRoundTrip(t: HlcTimestamp)
    ensures FromStr(ToCanonical(t)) == Some(t) <==> Portable(t)
  {
    hide FromStr, ToCanonical, ByteLength;
    if Portable(t) {
      CanonicalReadsBack(t);
    } else if FromStr(ToCanonical(t)) == Some(t) {
      ParsedPrefix(ToCanonical(t));
      CanonicalReadsBack(t);
    }
  }

  /** The date part of a stamp's text: all before its last two hyphens. */
  function DatePart(s: string): string
    requires FromStr(s).Some?
  {
    s[..LastHyphen(s[..LastHyphen(s)])]
  }

  /** A parsed stamp can be written and read again exactly when the digits of its fraction from the fourth
      to the ninth are zeros, and its offset does not move a time on the last day of year 9999 beyond
      midnight. */
  lemma ParsedIsPortable(s: string)
    requires FromStr(s).Some?
    ensures |DatePart(s)| >= 19
    ensures ParseInstant(DatePart(s)).Some?
    ensures ParseFraction(DatePart(s)[19..]).Some? && ParseOffset(ParseFraction(DatePart(s)[19..]).value.1).Some?
    ensures Portable(FromStr(s).value) <==>
      KeepsToMillis(DatePart(s)[19..]) &&
      !LeavesYear9999(WrittenMoment(DatePart(s)), ParseOffset(ParseFraction(DatePart(s)[19..]).value.1).value)
  {
    hide ParseInstant, ParseU16, ByteLength, KeepsToMillis, ParseFraction, ParseOffset, LeavesYear9999, WrittenMoment;
    ParsedPrefix(s);
    ParsedInstant(DatePart(s));
  }

  /** A stamp with tenths of milliseconds parses, and reading its canonical text gives another stamp. */
  lemma FineFractionIsLost()
    ensures var s := "2026-06-15T10:30:00.0001Z-0001-019726a3abcd";
      && FromStr(s).Some? && FromStr(s).value.physical % NANOS_PER_MILLI == 100_000
      && FromStr(ToCanonical(FromStr(s).value)) ==
        Some(FromStr(s).value.(physical := FromStr(s).value.physical - 100_000))
  {
    hide ParseInstant, FromStr, ToCanonical, ByteLength, ParseU16;
    var stamp, count, prefix := "2026-06-15T10:30:00.0001Z", "0001", "019726a3abcd";
    var s := "2026-06-15T10:30:00.0001Z-0001-019726a3abcd";
    assert s == stamp + ("-" + (count + ("-" + prefix)));
    SmallPads();
    CounterReadsBack(1);
    SamplePrefix();
    FromStrAt(stamp, count, prefix);
    FineText();
    var t := FromStr(s).value;
    assert FourDigitYear(t) by {
      ParsedInstant(stamp);
      FineZone();
    }
    CanonicalReadsBack(t);
    assert t.physical == Millis(t) * NANOS_PER_MILLI + t.physical % NANOS_PER_MILLI;
  }

  lemma SamplePrefix()
    ensures HyphenFree("019726a3abcd") && ByteLength("019726a3abcd") == 12
  {
    hide ByteLength;
    AsciiLength("019726a3abcd");
  }

  lemma FineZone()
    ensures var s :=
      "2026-06-15T10:30:00.0001Z"; ParseFraction(s[19..]) == Some((100_000, "Z")) && ParseOffset("Z") == Some(0)
  {
    hide Pad, ParseFraction;
    SmallPads();
    PowersOfTen();
    FractionReadsBack(1, 4, "Z");
    ZeroOffsets();
    assert "2026-06-15T10:30:00.0001Z"[19..] == "." + (Pad(1, 4) + "Z");
  }

  /** So does one that a negative offset moves to year 10000, and its canonical text does not parse. */
  lemma LateStampIsLost()
    ensures var s := "9999-12-31T23:30:00-01:00-0001-019726a3abcd";
      FromStr(s).Some? && FromStr(ToCanonical(FromStr(s).value)) == None
  {
    hide ParseInstant, FromStr, ToCanonical, ByteLength, ParseU16;
    var stamp, count, prefix := "9999-12-31T23:30:00-01:00", "0001", "019726a3abcd";
    var s := "9999-12-31T23:30:00-01:00-0001-019726a3abcd";
    assert s == stamp + ("-" + (count + ("-" + prefix)));
    SmallPads();
    CounterReadsBack(1);
    SamplePrefix();
    FromStrAt(stamp, count, prefix);
    LateText();
    CanonicalReadsBack(FromStr(s).value);
  }
}
