/** Greedy word wrap: it keeps the words, respects the limit, and no wrapping needs fewer lines. Lengths count
    bytes. */
module Wraps {
  import opened Text
  import opened Filters

  /** The length of the text before the first white space. */
  function WordSpan(s: string): (n: nat)
    ensures n <= |s|
    ensures n < |s| ==> IsSpace(s[n])
    ensures forall i :: 0 <= i < n ==> !IsSpace(s[i])
  {
    if s == [] || IsSpace(s[0]) then 0 else 1 + WordSpan(s[1..])
  }

  /** `split_whitespace`. */
  function Words(s: string): (ws: seq<string>)
    ensures forall i :: 0 <= i < |ws| ==> IsOneWord(ws[i])
    decreases |s|
  {
    if s == [] then []
    else if IsSpace(s[0]) then Words(s[1..])
    else [s[..WordSpan(s)]] + Words(s[WordSpan(s)..])
  }

  predicate IsOneWord(w: string)
  {
    w != [] && forall i :: 0 <= i < |w| ==> !IsSpace(w[i])
  }

  /** A line: words with single spaces between them. */
  function Join(ws: seq<string>): string
  {
    if ws == [] then ""
    else if |ws| == 1 then ws[0]
    else Join(ws[..|ws| - 1]) + " " + ws[|ws| - 1]
  }

  /** A group of words goes on one line if it is within the limit or a single word. */
  predicate Fits(ws: seq<string>, limit: nat)
  {
    ByteLength(Join(ws)) <= limit || |ws| <= 1
  }

  /** How many words the next line takes, having taken `n` already. */
  function Take(ws: seq<string>, limit: nat, n: nat): (m: nat)
    requires 1 <= n <= |ws|
    ensures n <= m <= |ws|
    decreases |ws| - n
  {
    if n < |ws| && ByteLength(Join(ws[..n])) + 1 + ByteLength(ws[n]) <= limit then Take(ws, limit, n + 1) else n
  }

  /** The lines as groups of words. */
  function Greedy(ws: seq<string>, limit: nat): seq<seq<string>>
    decreases |ws|
  {
    if ws == [] then [] else
    var n := Take(ws, limit, 1);
    [ws[..n]] + Greedy(ws[n..], limit)
  }

  function Lines(groups: seq<seq<string>>): (r: seq<string>)
    ensures |r| == |groups| && forall i :: 0 <= i < |groups| ==> r[i] == Join(groups[i])
  {
    seq(|groups|, i requires 0 <= i < |groups| => Join(groups[i]))
  }

  function Concat(groups: seq<seq<string>>): seq<string>
  {
    if groups == [] then [] else groups[0] + Concat(groups[1..])
  }

  /** The line `words[start..i]` takes the next word, or is complete. */
  lemma NextWord(words: seq<string>, limit: nat, start: nat, i: nat)
    requires start <= i < |words|
    ensures Join(words[start..i + 1]) == if start == i then words[i] else Join(words[start..i]) + " " + words[i]
    ensures start < i ==>
      Take(words[start..], limit, i - start) ==
        if ByteLength(Join(words[start..i])) + 1 + ByteLength(words[i]) <= limit
          then Take(words[start..], limit, i + 1 - start) else i - start
  {
    assert words[start..i + 1][..i - start] == words[start..i];
    assert words[start..][..i - start] == words[start..i];
  }

  /** A complete line is the first of the lines that are left. */
  lemma CompleteLine(words: seq<string>, limit: nat, start: nat, i: nat)
    requires start < i <= |words| && Take(words[start..], limit, 1) == i - start
    ensures Greedy(words[start..], limit) == [words[start..i]] + Greedy(words[i..], limit)
  {
    assert words[start..][..i - start] == words[start..i] && words[start..][i - start..] == words[i..];
  }

  lemma OneMoreLine(groups: seq<seq<string>>, group: seq<string>)
    ensures Lines(groups + [group]) == Lines(groups) + [Join(group)]
  {
  }

  /** `wrap_text`. */
  method WrapText(text: string, maxChars: nat) returns (lines: seq<string>)
    ensures lines == Lines(Greedy(Words(text), maxChars))
  {
    hide Take, Greedy, Join, Lines, Words;
    var words := Words(text);
    lines := [];
    var current := "";
    ghost var start: nat, groups: seq<seq<string>> := 0, [];
    assert words[0..] == words && Lines(groups) == [] && [] + Greedy(words, maxChars) == Greedy(words, maxChars);
    assert Join([]) == "" by { JoinLength([]); }
    for i := 0 to |words|
      invariant start <= i && (start == i <==> current == "") && (start == i ==> i == 0)
      invariant current == Join(words[start..i])
      invariant lines == Lines(groups)
      invariant Greedy(words, maxChars) == groups + Greedy(words[start..], maxChars)
      invariant start < i ==> Take(words[start..], maxChars, i - start) == Take(words[start..], maxChars, 1)
    {
      var word := words[i];
      assert IsOneWord(word);
      NextWord(words, maxChars, start, i);
      if current == "" {
        current := current + word;
      } else if ByteLength(current) + 1 + ByteLength(word) <= maxChars {
        current := current + " " + word;
      } else {
        CompleteLine(words, maxChars, start, i);
        OneMoreLine(groups, words[start..i]);
        NextWord(words, maxChars, i, i);
        lines := lines + [current];
        groups, start := groups + [words[start..i]], i;
        current := word;
      }
    }
    if current != "" {
      LastLine(words, maxChars, start);
      OneMoreLine(groups, words[start..]);
      assert words[start..|words|] == words[start..];
      lines := lines + [current];
      groups := groups + [words[start..]];
    } else {
      assert Greedy(words[start..], maxChars) == [] by { NoLines(maxChars); }
    }
    assert groups + [] == groups;
  }

  lemma LastLine(words: seq<string>, limit: nat, start: nat)
    requires start < |words| && Take(words[start..], limit, |words| - start) == Take(words[start..], limit, 1)
    ensures Greedy(words[start..], limit) == [words[start..]]
  {
    assert Take(words[start..], limit, |words| - start) == |words| - start;
    CompleteLine(words, limit, start, |words|);
    assert words[start..|words|] == words[start..] && words[|words|..] == [];
  }

  lemma NoLines(limit: nat)
    ensures Greedy([], limit) == []
  {
  }

  // ---------------------------------------------------------------------------
  // The words are kept
  // ---------------------------------------------------------------------------

  lemma WordThenRest(w: string, rest: string)
    requires IsOneWord(w) && (rest == [] || IsSpace(rest[0]))
    ensures Words(w + rest) == [w] + Words(rest)
  {
    assert forall i :: 0 <= i < |w| ==> (w + rest)[i] == w[i];
    assert rest != [] ==> (w + rest)[|w|] == rest[0];
    assert WordSpan(w + rest) == |w|;
    assert (w + rest)[..|w|] == w && (w + rest)[|w|..] == rest;
  }

  predicate AllWords(ws: seq<string>)
  {
    forall i :: 0 <= i < |ws| ==> IsOneWord(ws[i])
  }

  /** The words of a line are the words it was joined from. */
  lemma {:induction false} JoinedWords(ws: seq<string>, rest: string)
    requires AllWords(ws) && (rest == [] || IsSpace(rest[0]))
    ensures ws != [] ==> Words(Join(ws) + rest) == ws + Words(rest)
  {
    hide Words, IsOneWord;
    if |ws| == 1 {
      WordThenRest(ws[0], rest);
    } else if ws != [] {
      var init, last := ws[..|ws| - 1], ws[|ws| - 1];
      assert Join(ws) + rest == Join(init) + (" " + (last + rest));
      SpaceFirst(last + rest);
      JoinedWords(init, " " + (last + rest));
      WordThenRest(last, rest);
      assert init + ([last] + Words(rest)) == ws + Words(rest);
    }
  }

  lemma SpaceFirst(s: string)
    ensures Words(" " + s) == Words(s) && IsSpace((" " + s)[0])
  {
    assert (" " + s)[1..] == s;
  }

  lemma {:induction false} GreedyCovers(ws: seq<string>, limit: nat)
    ensures Concat(Greedy(ws, limit)) == ws
    ensures forall i :: 0 <= i < |Greedy(ws, limit)| ==> Greedy(ws, limit)[i] != []
    decreases |ws|
  {
    if ws != [] {
      var n := Take(ws, limit, 1);
      GreedyCovers(ws[n..], limit);
      assert Greedy(ws, limit)[1..] == Greedy(ws[n..], limit);
      assert ws[..n] + ws[n..] == ws;
    }
  }

  function WordsOfLines(lines: seq<string>): seq<seq<string>>
  {
    seq(|lines|, i requires 0 <= i < |lines| => Words(lines[i]))
  }

  lemma {:induction false} PartsAreWords(groups: seq<seq<string>>)
    requires AllWords(Concat(groups))
    ensures forall i :: 0 <= i < |groups| ==> AllWords(groups[i])
  {
    if groups != [] {
      assert forall i :: 0 <= i < |groups[0]| ==> groups[0][i] == Concat(groups)[i];
      assert forall i :: 0 <= i < |Concat(groups[1..])| ==> Concat(groups[1..])[i] == Concat(groups)[|groups[0]| + i];
      PartsAreWords(groups[1..]);
      assert forall i :: 0 < i < |groups| ==> groups[i] == groups[1..][i - 1];
    }
  }

  /** Wrapping only moves line breaks: read line by line, the words are those of the text. */
  lemma WrapKeepsWords(text: string, limit: nat)
    ensures Concat(WordsOfLines(Lines(Greedy(Words(text), limit)))) == Words(text)
  {
    var groups := Greedy(Words(text), limit);
    GreedyCovers(Words(text), limit);
    assert AllWords(Words(text));
    PartsAreWords(groups);
    forall i | 0 <= i < |groups| ensures Words(Join(groups[i])) == groups[i] {
      assert Join(groups[i]) + "" == Join(groups[i]);
      JoinedWords(groups[i], "");
      assert groups[i] + [] == groups[i];
    }
    assert WordsOfLines(Lines(groups)) == groups;
  }

  // ---------------------------------------------------------------------------
  // The limit
  // ---------------------------------------------------------------------------

  lemma {:induction false} TakeFits(ws: seq<string>, limit: nat, n: nat)
    requires 1 <= n <= |ws| && Fits(ws[..n], limit)
    ensures Fits(ws[..Take(ws, limit, n)], limit)
    decreases |ws| - n
  {
    if n < |ws| && ByteLength(Join(ws[..n])) + 1 + ByteLength(ws[n]) <= limit {
      JoinOneMore(ws, n);
      TakeFits(ws, limit, n + 1);
    }
  }

  /** Every line is within the limit, unless it is one word that is too long by itself. */
  lemma {:induction false} WrapFits(ws: seq<string>, limit: nat)
    ensures forall i :: 0 <= i < |Greedy(ws, limit)| ==> Fits(Greedy(ws, limit)[i], limit)
    decreases |ws|
  {
    if ws != [] {
      TakeFits(ws, limit, 1);
      WrapFits(ws[Take(ws, limit, 1)..], limit);
    }
  }

  // ---------------------------------------------------------------------------
  // No wrapping is shorter
  // ---------------------------------------------------------------------------

  function Letters(ws: seq<string>): nat
  {
    if ws == [] then 0 else Letters(ws[..|ws| - 1]) + ByteLength(ws[|ws| - 1])
  }

  lemma {:induction false} JoinLength(ws: seq<string>)
    ensures ByteLength(Join(ws)) == Letters(ws) + (if ws == [] then 0 else |ws| - 1)
  {
    if |ws| == 1 {
      assert Letters(ws[..0]) == 0;
    } else if |ws| > 1 {
      var init, last := ws[..|ws| - 1], ws[|ws| - 1];
      JoinLength(init);
      SpaceBytes();
      ByteLengthAppend(Join(init) + " ", last);
      ByteLengthAppend(Join(init), " ");
    }
  }

  lemma SpaceBytes()
    ensures ByteLength(" ") == 1
  {
  }

  lemma {:induction false} LettersAppend(a: seq<string>, b: seq<string>)
    ensures Letters(a + b) == Letters(a) + Letters(b)
  {
    if b == [] {
      assert a + b == a;
    } else {
      assert (a + b)[..|a + b| - 1] == a + b[..|b| - 1];
      LettersAppend(a, b[..|b| - 1]);
    }
  }

  /** Part of a line is no longer than the line. */
  lemma PartIsShorter(ws: seq<string>, i: nat, j: nat)
    requires i <= j <= |ws|
    ensures ByteLength(Join(ws[i..j])) <= ByteLength(Join(ws))
  {
    hide Join, Letters, ByteLength;
    JoinLength(ws);
    JoinLength(ws[i..j]);
    PartLetters(ws, i, j);
  }

  lemma PartLetters(ws: seq<string>, i: nat, j: nat)
    requires i <= j <= |ws|
    ensures Letters(ws[i..j]) <= Letters(ws)
  {
    hide Letters;
    LettersAppend(ws[..j], ws[j..]);
    assert ws[..j] + ws[j..] == ws;
    LettersAppend(ws[..i], ws[i..j]);
    assert ws[..i] + ws[i..j] == ws[..j];
  }

  lemma JoinOneMore(ws: seq<string>, n: nat)
    requires 1 <= n < |ws|
    ensures ByteLength(Join(ws[..n + 1])) == ByteLength(Join(ws[..n])) + 1 + ByteLength(ws[n])
  {
    assert ws[..n + 1][..n] == ws[..n];
    JoinLength(ws[..n]);
    JoinLength(ws[..n + 1]);
  }

  /** A greedy line takes at least as many words as any line that fits. */
  lemma {:induction false} TakeIsMost(ws: seq<string>, limit: nat, n: nat, m: nat)
    requires 1 <= n <= m <= |ws| && Fits(ws[..m], limit)
    ensures Take(ws, limit, n) >= m
    decreases |ws| - n
  {
    if n < m {
      assert ws[..n + 1] == ws[..m][0..n + 1];
      PartIsShorter(ws[..m], 0, n + 1);
      assert ws[..n + 1][..n] == ws[..n];
      JoinOneMore(ws, n);
      TakeIsMost(ws, limit, n + 1, m);
    }
  }

  /** The greedy wrapping of what is left after `skip` words needs no more lines than any wrapping of the whole. */
  lemma {:induction false} GreedyStaysAhead(ws: seq<string>, limit: nat, skip: nat, groups: seq<seq<string>>)
    requires Concat(groups) == ws && skip <= |ws|
    requires forall i :: 0 <= i < |groups| ==> Fits(groups[i], limit)
    ensures |Greedy(ws[skip..], limit)| <= |groups|
    decreases |groups|
  {
    hide Join, ByteLength, Take;
    if groups != [] && skip < |ws| {
      var first, others := groups[0], groups[1..];
      var rest := Concat(others);
      assert forall i :: 0 <= i < |others| ==> others[i] == groups[i + 1];
      if skip >= |first| {
        assert ws[skip..] == rest[skip - |first|..];
        GreedyStaysAhead(rest, limit, skip - |first|, others);
      } else {
        var left, m := ws[skip..], |first| - skip;
        assert left[..m] == first[skip..|first|];
        PartIsShorter(first, skip, |first|);
        TakeIsMost(left, limit, 1, m);
        var n := Take(left, limit, 1);
        assert left[n..] == rest[skip + n - |first|..];
        GreedyStaysAhead(rest, limit, skip + n - |first|, others);
      }
    } else {
      assert ws[skip..] == [];
    }
  }

  lemma {:induction false} WordsShorten(s: string)
    ensures ByteLength(Join(Words(s))) <= ByteLength(s)
    ensures s != [] && IsSpace(s[0]) && Words(s) != [] ==> ByteLength(Join(Words(s))) < ByteLength(s)
    decreases |s|
  {
    hide Join, Letters;
    if s == [] {
      JoinLength([]);
      assert Letters([]) == 0 by { NoLetters(); }
    } else if IsSpace(s[0]) {
      WordsShorten(s[1..]);
    } else {
      var n := WordSpan(s);
      var more := Words(s[n..]);
      WordsShorten(s[n..]);
      JoinLength([s[..n]] + more);
      JoinLength(more);
      LettersAppend([s[..n]], more);
      OneWordLetters(s[..n]);
      assert s == s[..n] + s[n..];
      ByteLengthAppend(s[..n], s[n..]);
    }
  }

  lemma NoLetters()
    ensures Letters([]) == 0
  {
  }

  lemma OneWordLetters(w: string)
    ensures Letters([w]) == ByteLength(w)
  {
    assert [w][..0] == [];
  }

  /** No lines with the same words and within the same limit are fewer. */
  lemma WrapIsShortest(text: string, limit: nat, lines: seq<string>)
    requires Concat(WordsOfLines(lines)) == Words(text)
    requires forall i :: 0 <= i < |lines| ==> ByteLength(lines[i]) <= limit || |Words(lines[i])| <= 1
    ensures |Lines(Greedy(Words(text), limit))| <= |lines|
  {
    forall i | 0 <= i < |lines| ensures Fits(WordsOfLines(lines)[i], limit) {
      WordsShorten(lines[i]);
    }
    assert Words(text)[0..] == Words(text);
    GreedyStaysAhead(Words(text), limit, 0, WordsOfLines(lines));
  }

  // ---------------------------------------------------------------------------
  // Bytes and characters
  // ---------------------------------------------------------------------------

  predicate IsAscii(s: string)
  {
    forall i :: 0 <= i < |s| ==> s[i] < '\U{0080}'
  }

  /** The limit as documented: in characters. */
  predicate FitsInChars(ws: seq<string>, limit: nat)
  {
    |Join(ws)| <= limit || |ws| <= 1
  }

  lemma {:induction false} AsciiJoin(ws: seq<string>)
    requires forall i :: 0 <= i < |ws| ==> IsAscii(ws[i])
    ensures IsAscii(Join(ws))
  {
    if |ws| > 1 {
      AsciiJoin(ws[..|ws| - 1]);
    }
  }

  lemma AsciiFits(ws: seq<string>, limit: nat)
    requires forall i :: 0 <= i < |ws| ==> IsAscii(ws[i])
    ensures Fits(ws, limit) <==> FitsInChars(ws, limit)
  {
    AsciiJoin(ws);
    AsciiLength(Join(ws));
  }

  lemma {:induction false} PartsAreAscii(groups: seq<seq<string>>)
    requires forall i :: 0 <= i < |Concat(groups)| ==> IsAscii(Concat(groups)[i])
    ensures forall i, j :: 0 <= i < |groups| && 0 <= j < |groups[i]| ==> IsAscii(groups[i][j])
  {
    hide IsAscii;
    if groups != [] {
      assert forall i :: 0 <= i < |groups[0]| ==> groups[0][i] == Concat(groups)[i];
      assert forall i :: 0 <= i < |Concat(groups[1..])| ==> Concat(groups[1..])[i] == Concat(groups)[|groups[0]| + i];
      PartsAreAscii(groups[1..]);
      assert forall i :: 0 < i < |groups| ==> groups[i] == groups[1..][i - 1];
    }
  }

  /** For words in ASCII the two readings agree: every line is within the limit in characters, and no grouping
      of the words into such lines has fewer. */
  lemma AsciiWrapCountsChars(ws: seq<string>, limit: nat, groups: seq<seq<string>>)
    requires forall i :: 0 <= i < |ws| ==> IsAscii(ws[i])
    requires Concat(groups) == ws && forall i :: 0 <= i < |groups| ==> FitsInChars(groups[i], limit)
    ensures forall i :: 0 <= i < |Greedy(ws, limit)| ==> FitsInChars(Greedy(ws, limit)[i], limit)
    ensures |Greedy(ws, limit)| <= |groups|
  {
    hide IsAscii, Greedy, Fits, FitsInChars;
    GreedyCovers(ws, limit);
    WrapFits(ws, limit);
    PartsAreAscii(Greedy(ws, limit));
    PartsAreAscii(groups);
    forall i | 0 <= i < |Greedy(ws, limit)| ensures FitsInChars(Greedy(ws, limit)[i], limit) {
      AsciiFits(Greedy(ws, limit)[i], limit);
    }
    forall i | 0 <= i < |groups| ensures Fits(groups[i], limit) {
      AsciiFits(groups[i], limit);
    }
    assert ws[0..] == ws;
    GreedyStaysAhead(ws, limit, 0, groups);
  }

  /** Two words that share a line by characters are broken apart exactly when their bytes exceed the limit. */
  lemma BytesBreakLine(w: string, v: string, limit: nat)
    requires IsOneWord(w) && IsOneWord(v) && |w + " " + v| <= limit
    ensures Words(w + " " + v) == [w, v] && FitsInChars([w, v], limit)
    ensures Lines(Greedy([w, v], limit)) ==
      if ByteLength(w) + 1 + ByteLength(v) <= limit then [w + " " + v] else [w, v]
  {
    hide Words, ByteLength, IsOneWord;
    var ws := [w, v];
    assert Join([w]) == w && Join([v]) == v;
    assert ws[..1] == [w] && ws[1..] == [v] && ws[..2] == ws && ws[2..] == [];
    assert Join(ws) == Join(ws[..1]) + " " + v;
    assert AllWords(ws);
    JoinedWords(ws, "");
    assert Join(ws) + "" == Join(ws) && ws + Words("") == ws by { NoWords(); }
    assert Greedy([v], limit) == [[v]] by { assert [v][..1] == [v] && [v][1..] == []; }
    var n := Take(ws, limit, 1);
    assert n == if ByteLength(w) + 1 + ByteLength(v) <= limit then 2 else 1;
    assert Greedy(ws, limit) == if n == 2 then [[w, v]] else [[w], [v]];
  }

  lemma NoWords()
    ensures Words("") == []
  {
  }

  /** An example: five characters in nine bytes take two lines of five. */
  lemma AccentsBreakLine()
    ensures |"\U{E9}\U{E9} \U{E9}\U{E9}"| == 5
    ensures Lines(Greedy(Words("\U{E9}\U{E9} \U{E9}\U{E9}"), 5)) == ["\U{E9}\U{E9}", "\U{E9}\U{E9}"]
  {
    var w := "\U{E9}\U{E9}";
    assert "\U{E9}\U{E9} \U{E9}\U{E9}" == w + " " + w;
    assert ByteLength(w) == 4 by {
      assert w[1..] == "\U{E9}" && w[1..][1..] == "";
    }
    BytesBreakLine(w, w, 5);
  }
}
