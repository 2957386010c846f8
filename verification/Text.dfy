/** Text as the program compares, writes and reads it: the byte order shared by Rust's `String`
    and SQLite's default collation, zero-padded decimals, and digit parsing. */
module Text {
  import opened Wrappers

  /** Strict lexicographic order. */
  predicate Less(a: string, b: string)
  {
    b != [] && (a == [] || a[0] < b[0] || (a[0] == b[0] && Less(a[1..], b[1..])))
  }

  lemma {:induction false} LessTransitive(a: string, b: string, c: string)
    requires Less(a, b) && Less(b, c)
    ensures Less(a, c)
  {
    if a != [] && a[0] == b[0] && b[0] == c[0] {
      LessTransitive(a[1..], b[1..], c[1..]);
    }
  }

  /** Exactly one of "before", "equal" and "after" holds. */
  lemma {:induction false} LessTrichotomy(a: string, b: string)
    ensures Less(a, b) || a == b || Less(b, a)
    ensures !(Less(a, b) && Less(b, a))
    ensures a == b ==> !Less(a, b)
  {
    if a != [] && b != [] && a[0] == b[0] {
      LessTrichotomy(a[1..], b[1..]);
      assert a == [a[0]] + a[1..] && b == [b[0]] + b[1..];
    }
  }

  /** Behind a common-length front, the back decides only ties. */
  lemma {:induction false} LessAppend(a: string, b: string, c: string, d: string)
    requires |a| == |c|
    ensures Less(a + b, c + d) <==> Less(a, c) || (a == c && Less(b, d))
  {
    if a == [] {
      assert a + b == b && c + d == d;
    } else {
      LessAppend(a[1..], b, c[1..], d);
      assert (a + b)[1..] == a[1..] + b && (c + d)[1..] == c[1..] + d;
      assert a == [a[0]] + a[1..] && c == [c[0]] + c[1..];
    }
  }

  // ---------------------------------------------------------------------------
  // Decimals
  // ---------------------------------------------------------------------------

  function Digit(n: nat): char
    requires n < 10
  {
    '0' + n as char
  }

  predicate IsDigit(c: char)
  {
    '0' <= c <= '9'
  }

  function DigitValue(c: char): (n: nat)
    requires IsDigit(c)
    ensures n < 10 && Digit(n) == c
  {
    (c - '0') as nat
  }

  function Decimal(n: nat): (s: string)
    ensures s != []
  {
    if n < 10 then [Digit(n)] else Decimal(n / 10) + [Digit(n % 10)]
  }

  /** `{:0w}`: at least `w` digits. The width pads and never cuts. */
  function Pad(n: nat, w: nat): (s: string)
    ensures s != []
    decreases w
  {
    if w <= 1 then Decimal(n) else Pad(n / 10, w - 1) + [Digit(n % 10)]
  }

  function Pow10(w: nat): (p: nat)
    ensures p >= 1
  {
    if w == 0 then 1 else 10 * Pow10(w - 1)
  }

  function ParseDigits(s: string): Option<nat>
  {
    if s == [] || !IsDigit(s[|s| - 1]) then None
    else if |s| == 1 then Some(DigitValue(s[0]))
    else match ParseDigits(s[..|s| - 1])
      case None => None
      case Some(high) => Some(10 * high + DigitValue(s[|s| - 1]))
  }

  /** Rust's `parse` for an unsigned type: an optional plus sign, at least one digit, below the limit. */
  function ParseUnsigned(s: string, limit: nat): (r: Option<nat>)
    ensures r.Some? ==> r.value < limit
  {
    match ParseDigits(if |s| > 1 && s[0] == '+' then s[1..] else s)
    case Some(n) => if n < limit then Some(n) else None
    case None => None
  }

  predicate AllDigits(s: string)
  {
    forall i :: 0 <= i < |s| ==> IsDigit(s[i])
  }

  function LeadingDigits(s: string): (n: nat)
    ensures n <= |s| && AllDigits(s[..n]) && (n < |s| ==> !IsDigit(s[n]))
  {
    if s == [] || !IsDigit(s[0]) then 0 else 1 + LeadingDigits(s[1..])
  }

  lemma {:induction false} LeadingDigitsStop(ds: string, rest: string)
    requires AllDigits(ds) && (rest != [] ==> !IsDigit(rest[0]))
    ensures LeadingDigits(ds + rest) == |ds|
  {
    if ds == [] {
      assert ds + rest == rest;
    } else {
      assert (ds + rest)[1..] == ds[1..] + rest;
      LeadingDigitsStop(ds[1..], rest);
    }
  }

  lemma {:induction false} DecimalReadsBack(n: nat)
    ensures ParseDigits(Decimal(n)) == Some(n)
    ensures AllDigits(Decimal(n))
  {
    if n >= 10 {
      DecimalReadsBack(n / 10);
      assert Decimal(n)[..|Decimal(n)| - 1] == Decimal(n / 10);
    }
  }

  lemma {:induction false} PadReadsBack(n: nat, w: nat)
    ensures ParseDigits(Pad(n, w)) == Some(n)
    ensures AllDigits(Pad(n, w))
    decreases w
  {
    if w <= 1 {
      DecimalReadsBack(n);
    } else {
      PadReadsBack(n / 10, w - 1);
      assert Pad(n, w)[..|Pad(n, w)| - 1] == Pad(n / 10, w - 1);
    }
  }

  lemma {:induction false} PadWidth(n: nat, w: nat)
    requires w >= 1 && n < Pow10(w)
    ensures |Pad(n, w)| == w
    decreases w
  {
    if w > 1 {
      PadWidth(n / 10, w - 1);
    }
  }

  /** Numbers that fit the width are ordered by their padded text. */
  lemma {:induction false} PadOrder(m: nat, n: nat, w: nat)
    requires w >= 1 && m < Pow10(w) && n < Pow10(w)
    ensures |Pad(m, w)| == |Pad(n, w)| == w
    ensures Less(Pad(m, w), Pad(n, w)) <==> m < n
    ensures Pad(m, w) == Pad(n, w) <==> m == n
    decreases w
  {
    PadWidth(m, w);
    PadWidth(n, w);
    PadReadsBack(m, w);
    PadReadsBack(n, w);
    if w > 1 {
      PadOrder(m / 10, n / 10, w - 1);
      LessAppend(Pad(m / 10, w - 1), [Digit(m % 10)], Pad(n / 10, w - 1), [Digit(n % 10)]);
    }
  }

  /** A number too long for its width is written as if the width were its own length. */
  lemma {:induction false} PadOverflows(n: nat, w: nat)
    requires w >= 1 && Pow10(w) <= n
    ensures Pad(n, w) == Pad(n, w + 1)
    decreases w
  {
    if w > 1 {
      PadOverflows(n / 10, w - 1);
    } else {
      assert Decimal(n) == Decimal(n / 10) + [Digit(n % 10)];
    }
  }

  // ---------------------------------------------------------------------------
  // Bytes
  // ---------------------------------------------------------------------------

  /** The length of a character in UTF-8. */
  function CharBytes(c: char): (n: nat)
    ensures 1 <= n <= 4
  {
    if c < '\U{0080}' then 1 else if c < '\U{0800}' then 2 else if c < '\U{10000}' then 3 else 4
  }

  /** `len`: the length of a text in bytes. */
  function ByteLength(s: string): (n: nat)
    ensures |s| <= n <= 4 * |s|
  {
    if s == [] then 0 else CharBytes(s[0]) + ByteLength(s[1..])
  }

  lemma {:induction false} AsciiLength(s: string)
    requires forall i :: 0 <= i < |s| ==> s[i] < '\U{0080}'
    ensures ByteLength(s) == |s|
  {
    if s != [] {
      AsciiLength(s[1..]);
    }
  }

  lemma {:induction false} ByteLengthAppend(a: string, b: string)
    ensures ByteLength(a + b) == ByteLength(a) + ByteLength(b)
  {
    if a == [] {
      assert a + b == b;
    } else {
      assert (a + b)[1..] == a[1..] + b;
      ByteLengthAppend(a[1..], b);
    }
  }

  // ---------------------------------------------------------------------------
  // ASCII case
  // ---------------------------------------------------------------------------

  function Lower(c: char): char
  {
    if 'A' <= c <= 'Z' then 'a' + (c - 'A') else c
  }

  function LowerCase(s: string): (t: string)
    ensures |t| == |s| && forall i :: 0 <= i < |s| ==> t[i] == Lower(s[i])
  {
    if s == [] then [] else [Lower(s[0])] + LowerCase(s[1..])
  }
}
