/** Which texts are read as stamps, and as which; and how times are written. */
module StampTexts {
  import opened Wrappers
  import opened Text
  import opened Calendar
  import opened Instants
  import opened InstantTexts
  import opened Hlc
  import opened HybridClocks

  lemma CountIsRead(sign: string, n: nat, w: nat)
    requires sign == "" || sign == "+"
    ensures HyphenFree(sign + Pad(n, w))
    ensures ParseU16(sign + Pad(n, w)) == if n < 65536 then Some(n) else None
  {
    PadReadsBack(n, w);
    hide Pad, ParseDigits;
    var s := sign + Pad(n, w);
    assert IsDigit(Pad(n, w)[0]);
    assert if sign == "" then s == Pad(n, w) else s[1..] == Pad(n, w);
  }

  /** A stamp is read exactly when its instant can be read, its counter fits 16 bits, in any number of digits and also
      with a plus sign, and its last part is twelve bytes long. */
  lemma StampIsRead(t: Moment, sep: string, ds: string, z: Zone, sign: string, n: nat, w: nat, prefix: string)
    requires FitsItsPlace(t) && t.milli == 0 && t.second != 60 && IsSeparator(sep) && AllDigits(ds) && IsZone(z)
    requires (sign == "" || sign == "+") && HyphenFree(prefix)
    ensures var s := DateTimeWith(t, sep) + (Fraction(ds) + ZoneText(z)) + ("-" + (sign + Pad(n, w) + ("-" + prefix)));
      FromStr(s) ==
      if InstantOf(t, ds, z).None? || n >= 65536 || ByteLength(prefix) != 12 then None
      else Some(HlcTimestamp(InstantOf(t, ds, z).value, n, prefix))
  {
    hide *;
    InstantIsRead(t, sep, ds, z);
    CountIsRead(sign, n, w);
    FromStrAt(DateTimeWith(t, sep) + (Fraction(ds) + ZoneText(z)), sign + Pad(n, w), prefix);
  }

  /** A text with fewer than two hyphens is no stamp. */
  lemma FewHyphens(a: string, b: string)
    requires HyphenFree(a) && HyphenFree(b)
    ensures FromStr(a) == None && FromStr(a + "-" + b) == None
  {
    LastHyphenAt(a, b);
    assert (a + "-" + b)[..|a|] == a;
    hide ParseInstant, ParseU16, ByteLength;
  }

  /** A time is written with a zero offset. */
  lemma WrittenInUtc(at: nat)
    ensures var s := FormatRfc3339(at); |s| >= 6 && s[|s| - 6..] == "+00:00"
  {
    EndsWithOffset(DateTimeText(MomentOf(at / NANOS_PER_MILLI)), FractionText(at % NANOS_PER_SECOND));
    hide FractionText, DateTimeText, MomentOf;
  }

  /** Of its fraction, the fewest of three, six or nine digits that tell it are written, or none. */
  lemma FractionLength(n: nat)
    requires n < NANOS_PER_SECOND
    ensures |FractionText(n)| ==
      if n == 0 then 0 else if n % 1_000_000 == 0 then 4 else if n % 1000 == 0 then 7 else 10
  {
    PowersOfTen();
    if n % 1_000_000 == 0 {
      PadWidth(n / 1_000_000, 3);
    } else if n % 1000 == 0 {
      PadWidth(n / 1000, 6);
    } else {
      PadWidth(n, 9);
    }
    hide Pad, Pow10;
  }

  lemma EndsWithOffset(a: string, b: string)
    ensures var s := a + (b + "+00:00"); |s| >= 6 && s[|s| - 6..] == "+00:00"
  {
  }

  /** The epoch as it is written. */
  lemma EpochInUtc()
    ensures FormatRfc3339(UNIX_EPOCH) == "1970-01-01T00:00:00+00:00"
  {
    hide Pad, MomentOf, DateTimeText;
    EpochMoment();
    EpochPads();
    SmallPads();
    DateTimeByParts(Moment(Date(1970, 1, 1), 0, 0, 0, 0));
    assert UNIX_EPOCH / NANOS_PER_MILLI == 719_528 * MILLIS_PER_DAY && UNIX_EPOCH % NANOS_PER_SECOND == 0;
    assert "1970" + "-" + "01" + "-" + "01" + "T" + ("00" + ":" + "00" + ":" + "00") == "1970-01-01T00:00:00";
    assert "1970-01-01T00:00:00" + ("" + "+00:00") == "1970-01-01T00:00:00+00:00";
  }
}
