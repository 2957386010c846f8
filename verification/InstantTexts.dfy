/** Which texts are read as instants, and as which: date, time, fraction and zone, each in any of its spellings. */
module InstantTexts {
  import opened Wrappers
  import opened Text
  import opened Calendar
  import opened Instants

  // ---------------------------------------------------------------------------
  // Date and time
  // ---------------------------------------------------------------------------

  function PartsWith(t: Moment, sep: string): seq<Part>
  {
    [Part(t.date.year, 4, "-"), Part(t.date.month, 2, "-"), Part(t.date.day, 2, sep),
     Part(t.hour, 2, ":"), Part(t.minute, 2, ":"), Part(t.second, 2, "")]
  }

  /** Date and time with the given text between them, to the second. */
  function DateTimeWith(t: Moment, sep: string): string
  {
    Render(PartsWith(t, sep))
  }

  /** Every number has no more digits than its place, whether or not there is such a date. */
  predicate FitsItsPlace(t: Moment)
  {
    t.date.year <= 9999 && t.date.month <= 99 && t.date.day <= 99 && t.hour <= 99 && t.minute <= 99 && t.second <= 99
  }

  predicate IsSeparator(sep: string)
  {
    sep == "T" || sep == "t" || sep == " "
  }

  predicate HasLikeShape(ps: seq<Part>, shape: Shape)
  {
    && |ps| == |shape|
    && forall i :: 0 <= i < |ps| ==>
      shape[i].0 == ps[i].width && |shape[i].1| == |ps[i].mark| && Matches(shape[i].1, ps[i].mark)
  }

  lemma {:induction false} ScanLike(ps: seq<Part>, shape: Shape, i: nat, rest: string)
    requires Fits(ps) && HasLikeShape(ps, shape) && i <= |ps|
    ensures Scan(Render(ps, i) + rest, shape, i) == Some((Values(ps, i), rest))
    decreases |ps| - i
  {
    hide Pad, ParseDigits, Pow10, Matches;
    if i < |ps| {
      ScanLike(ps, shape, i + 1, rest);
      var p, m, tail := Pad(ps[i].value, ps[i].width), ps[i].mark, Render(ps, i + 1);
      PadWidth(ps[i].value, ps[i].width);
      PadReadsBack(ps[i].value, ps[i].width);
      assert (p + (m + tail)) + rest == p + (m + (tail + rest));
      ThreePieces(p, m, tail + rest);
    } else {
      assert Render(ps, i) + rest == rest;
    }
  }

  lemma PlacesFit(t: Moment, sep: string)
    requires FitsItsPlace(t) && IsSeparator(sep)
    ensures Fits(PartsWith(t, sep)) && HasLikeShape(PartsWith(t, sep), DATE_TIME)
  {
    PowersOfTen();
  }

  lemma ValuesOf(t: Moment, sep: string)
    ensures Values(PartsWith(t, sep)) == [t.date.year, t.date.month, t.date.day, t.hour, t.minute, t.second]
  {
    var p := PartsWith(t, sep);
    assert Values(p, 5) == [t.second];
    assert Values(p, 4) == [t.minute, t.second];
    assert Values(p, 3) == [t.hour, t.minute, t.second];
    assert Values(p, 2) == [t.date.day, t.hour, t.minute, t.second];
    assert Values(p, 1) == [t.date.month, t.date.day, t.hour, t.minute, t.second];
  }

  lemma DateTimeIsRead(t: Moment, sep: string, rest: string)
    requires FitsItsPlace(t) && IsSeparator(sep)
    ensures var r := Scan(DateTimeWith(t, sep) + rest, DATE_TIME);
      r.Some? && |r.value.0| == 6 && MomentFrom(r.value.0) == t.(milli := 0) && r.value.1 == rest
  {
    PlacesFit(t, sep);
    ScanLike(PartsWith(t, sep), DATE_TIME, 0, rest);
    ValuesOf(t, sep);
    hide Render, Scan, Fits, Values, PartsWith, HasLikeShape;
  }

  // ---------------------------------------------------------------------------
  // Fraction
  // ---------------------------------------------------------------------------

  function Fraction(ds: string): string
  {
    if ds == [] then "" else "." + ds
  }

  const NINE_ZEROS: string := "000000000"

  /** The nanoseconds of a fraction: its first nine digits, filled up with zeros. */
  function Nanos(ds: string): nat
    requires AllDigits(ds)
  {
    OnlyDigitsParse((ds + NINE_ZEROS)[..9]);
    ParseDigits((ds + NINE_ZEROS)[..9]).value
  }

  lemma FilledUp(ds: string)
    requires AllDigits(ds) && 1 <= |ds| <= 9
    ensures ParseDigits(ds).Some? && ParseDigits(ds).value * Pow10(9 - |ds|) == Nanos(ds)
  {
    hide ParseDigits, Pow10;
    OnlyDigitsParse(ds);
    var zeros := NINE_ZEROS[..9 - |ds|];
    assert (ds + NINE_ZEROS)[..9] == ds + zeros;
    if zeros == [] {
      PowersOfTen();
      assert ds + zeros == ds;
    } else {
      assert AllDigits(zeros) && forall i :: 0 <= i < |zeros| ==> zeros[i] == '0';
      OnlyZerosMakeZero(zeros);
      DigitsSplit(ds, zeros);
    }
  }

  lemma FractionIsRead(ds: string, rest: string)
    requires AllDigits(ds) && rest != [] && !IsDigit(rest[0]) && rest[0] != '.'
    ensures ParseFraction(Fraction(ds) + rest) == Some((Nanos(ds), rest))
  {
    hide ParseDigits, LeadingDigits, Pow10, Nanos;
    if ds == [] {
      assert Fraction(ds) + rest == rest;
      NoNanos();
    } else {
      var s, k := "." + ds + rest, if |ds| < 9 then |ds| else 9;
      assert s[1..] == ds + rest;
      LeadingDigitsStop(ds, rest);
      assert s[1..1 + k] == ds[..k] && s[1 + |ds|..] == rest;
      FilledUp(ds[..k]);
      FirstNine(ds, k);
    }
  }

  lemma NoNanos()
    ensures Nanos("") == 0
  {
    assert ("" + NINE_ZEROS)[..9] == NINE_ZEROS;
    OnlyZerosMakeZero(NINE_ZEROS);
    hide ParseDigits;
  }

  lemma FirstNine(ds: string, k: nat)
    requires AllDigits(ds) && k <= |ds| && k == if |ds| < 9 then |ds| else 9
    ensures Nanos(ds[..k]) == Nanos(ds)
  {
    assert (ds[..k] + NINE_ZEROS)[..9] == (ds + NINE_ZEROS)[..9];
    hide ParseDigits;
  }

  // ---------------------------------------------------------------------------
  // Zone
  // ---------------------------------------------------------------------------

  datatype Zone = Utc(letter: char) | Offset(sign: char, hours: nat, minutes: nat)

  /** A sign is a plus, a hyphen or the true minus. */
  predicate IsZone(z: Zone)
  {
    match z
    case Utc(letter) => letter == 'Z' || letter == 'z'
    case Offset(sign, h, m) => (sign == '+' || sign == '-' || sign == '\U{2212}') && h <= 99 && m <= 99
  }

  function ZoneText(z: Zone): string
  {
    match z
    case Utc(letter) => [letter]
    case Offset(sign, h, m) => [sign] + (Pad(h, 2) + (":" + Pad(m, 2)))
  }

  /** At most a day, and minutes below sixty. */
  predicate InDay(z: Zone)
  {
    z.Offset? ==> z.hours <= 23 && z.minutes <= 59
  }

  function ZoneMinutes(z: Zone): int
  {
    match z
    case Utc(_) => 0
    case Offset(sign, h, m) => if sign == '+' then 60 * h + m else -(60 * h + m)
  }

  lemma ZoneIsRead(z: Zone)
    requires IsZone(z)
    ensures ParseOffset(ZoneText(z)) == if InDay(z) then Some(ZoneMinutes(z)) else None
    ensures ZoneText(z) != [] && !IsDigit(ZoneText(z)[0]) && ZoneText(z)[0] != '.'
  {
    hide Pad, ParseDigits;
    if z.Offset? {
      var p, q := Pad(z.hours, 2), Pad(z.minutes, 2);
      TwoDigits(z.hours);
      TwoDigits(z.minutes);
      var s := ZoneText(z);
      assert s == [z.sign] + (p + (":" + q));
      assert |s| == 6 && s[3] == ':' && s[1..3] == p && s[4..6] == q;
    }
  }

  lemma TwoDigits(n: nat)
    requires n <= 99
    ensures |Pad(n, 2)| == 2 && ParseDigits(Pad(n, 2)) == Some(n)
  {
    PowersOfTen();
    PadWidth(n, 2);
    PadReadsBack(n, 2);
    hide Pad, ParseDigits, Pow10;
  }

  // ---------------------------------------------------------------------------
  // The whole text
  // ---------------------------------------------------------------------------

  /** The instant of a date, time, fraction and zone, in UTC, if there is one. */
  function InstantOf(t: Moment, ds: string, z: Zone): Option<nat>
    requires t.milli == 0 && AllDigits(ds)
  {
    if !ValidMoment(t) || !InDay(z) then None else
    var at := MillisOf(t) * 1_000_000 + Nanos(ds) - ZoneMinutes(z) * 60_000_000_000;
    if at < 0 then None else Some(at)
  }

  lemma PartsDecide(s: string, t: Moment, rest: string, nanos: nat, zone: string)
    requires Scan(s, DATE_TIME).Some? && |Scan(s, DATE_TIME).value.0| == 6
    requires MomentFrom(Scan(s, DATE_TIME).value.0) == t && Scan(s, DATE_TIME).value.1 == rest
    requires ParseFraction(rest) == Some((nanos, zone))
    ensures ParseInstant(s) ==
      if !ValidMoment(t) || ParseOffset(zone).None? then None else InstantAt(t, nanos, ParseOffset(zone).value)
  {
    hide Scan, ParseFraction, ParseOffset, ValidMoment, InstantAt, MomentFrom;
  }

  lemma ShiftedInstant(t: Moment, nanos: nat, minutes: int)
    requires ValidMoment(t)
    ensures var at := MillisOf(t) * 1_000_000 + nanos - minutes * 60_000_000_000;
      InstantAt(t, nanos, minutes) == if at < 0 then None else Some(at)
  {
    hide MillisOf, ValidMoment;
  }

  lemma InstantByParts(t: Moment, ds: string, z: Zone)
    requires t.milli == 0 && AllDigits(ds)
    ensures InstantOf(t, ds, z) ==
      if !ValidMoment(t) || !InDay(z) then None else InstantAt(t, Nanos(ds), ZoneMinutes(z))
  {
    if ValidMoment(t) {
      ShiftedInstant(t, Nanos(ds), ZoneMinutes(z));
    }
    hide ValidMoment, InDay, MillisOf, Nanos, ZoneMinutes, InstantAt, AllDigits;
  }

  /** A text is read exactly when there is such a date, time and offset, as the instant in UTC down to the nanosecond;
      what lies before year 0 is not. The second 60 is not part of this model. */
  lemma InstantIsRead(t: Moment, sep: string, ds: string, z: Zone)
    requires FitsItsPlace(t) && t.milli == 0 && t.second != 60 && IsSeparator(sep) && AllDigits(ds) && IsZone(z)
    ensures ParseInstant(DateTimeWith(t, sep) + (Fraction(ds) + ZoneText(z))) == InstantOf(t, ds, z)
  {
    ZoneIsRead(z);
    FractionIsRead(ds, ZoneText(z));
    DateTimeIsRead(t, sep, Fraction(ds) + ZoneText(z));
    assert t.(milli := 0) == t;
    var rest, zone, nanos := Fraction(ds) + ZoneText(z), ZoneText(z), Nanos(ds);
    hide *;
    PartsDecide(DateTimeWith(t, sep) + rest, t, rest, nanos, zone);
    InstantByParts(t, ds, z);
  }
}
