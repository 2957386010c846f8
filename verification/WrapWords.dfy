/** Which words a text has, and how long they are. */
module WrapWords {
  import opened Text
  import opened Filters
  import opened FilterWords
  import Wraps

  /** White space of any kind parts the words of a text: those before it are followed by those after it. */
  lemma {:induction false} WordsArePartedBySpace(a: string, c: char, b: string)
    requires c as int in WHITE_SPACE
    ensures Wraps.Words(a + ([c] + b)) == Wraps.Words(a) + Wraps.Words(b)
    decreases |a|
  {
    SpacesAreListed(c);
    hide IsSpace;
    var s := a + ([c] + b);
    if a == [] {
      assert s == [c] + b && s[1..] == b;
    } else if IsSpace(a[0]) {
      assert s[1..] == a[1..] + ([c] + b);
      WordsArePartedBySpace(a[1..], c, b);
    } else {
      var n := Wraps.WordSpan(a);
      var w, rest := a[..n], a[n..];
      assert a == w + rest;
      assert n > 0;
      Wraps.WordThenRest(w, rest + ([c] + b));
      Wraps.WordThenRest(w, rest);
      assert s == w + (rest + ([c] + b));
      WordsArePartedBySpace(rest, c, b);
    }
  }

  /** A text without white space is one word, or none if it is empty. */
  lemma OneWordOrNone(w: string)
    requires forall i :: 0 <= i < |w| ==> w[i] as int !in WHITE_SPACE
    ensures Wraps.Words(w) == if w == "" then [] else [w]
  {
    forall i | 0 <= i < |w| ensures !IsSpace(w[i]) {
      SpacesAreListed(w[i]);
    }
    Wraps.NoWords();
    if w != "" {
      Wraps.WordThenRest(w, "");
      assert w + "" == w;
    }
  }

  /** UTF-8: a character of `k` bytes has 7, 11, 16 or 21 bits. */
  lemma CharBytesByBits(c: char)
    ensures CharBytes(c) <= 1 <==> (c as int) < Pow2(7)
    ensures CharBytes(c) <= 2 <==> (c as int) < Pow2(11)
    ensures CharBytes(c) <= 3 <==> (c as int) < Pow2(16)
    ensures CharBytes(c) <= 4 && (c as int) < Pow2(21)
  {
    SomePowers();
    hide Pow2;
  }

  function Pow2(n: nat): nat
  {
    if n == 0 then 1 else 2 * Pow2(n - 1)
  }

  lemma SomePowers()
    ensures Pow2(7) == 128 && Pow2(11) == 2048 && Pow2(16) == 65536 && Pow2(21) == 2_097_152
  {
    assert Pow2(4) == 16;
    assert Pow2(7) == 128;
    assert Pow2(9) == 512;
    assert Pow2(11) == 2048;
    assert Pow2(13) == 8192;
    assert Pow2(15) == 32768;
    assert Pow2(18) == 262_144;
  }
}
