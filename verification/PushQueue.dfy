/** The push queue of any log, and the device's part of a clock. */
module PushQueues {
  import opened Text
  import opened Hlc
  import opened Library
  import opened SyncLog

  predicate NotDescending(ops: seq<Op>)
  {
    forall i, j :: 0 <= i < j < |ops| ==> !Less(ops[j].hlc, ops[i].hlc)
  }

  lemma NotLessTransitive(a: string, b: string, c: string)
    requires !Less(b, a) && !Less(c, b)
    ensures !Less(c, a)
  {
    LessTrichotomy(a, b);
    LessTrichotomy(b, c);
    LessTrichotomy(a, c);
    if Less(a, b) && Less(b, c) {
      LessTransitive(a, b, c);
    }
  }

  lemma {:induction false} InsertKeepsOrder(op: Op, sorted: seq<Op>)
    requires NotDescending(sorted)
    ensures NotDescending(InsertByHlc(op, sorted))
    ensures multiset(InsertByHlc(op, sorted)) == multiset(sorted) + multiset{op}
  {
    if sorted == [] {
    } else {
      var init, last := sorted[..|sorted| - 1], sorted[|sorted| - 1];
      assert sorted == init + [last];
      if Less(op.hlc, last.hlc) {
        InsertKeepsOrder(op, init);
        var r := InsertByHlc(op, init);
        forall i | 0 <= i < |r| ensures !Less(last.hlc, r[i].hlc) {
          InsertedAt(op, init, i);
          LessTrichotomy(op.hlc, last.hlc);
        }
      } else {
        forall i | 0 <= i < |sorted| ensures !Less(op.hlc, sorted[i].hlc) {
          if i < |init| {
            NotLessTransitive(sorted[i].hlc, last.hlc, op.hlc);
          }
        }
      }
    }
  }

  lemma InsertedAt(op: Op, sorted: seq<Op>, i: nat)
    requires multiset(InsertByHlc(op, sorted)) == multiset(sorted) + multiset{op}
    requires i < |InsertByHlc(op, sorted)|
    ensures InsertByHlc(op, sorted)[i] == op || InsertByHlc(op, sorted)[i] in sorted
  {
    assert InsertByHlc(op, sorted)[i] in multiset(InsertByHlc(op, sorted));
  }

  /** Sorting gives the same ops, and none after one with a greater clock. */
  lemma {:induction false} SortedByHlc(ops: seq<Op>)
    ensures NotDescending(SortByHlc(ops))
    ensures multiset(SortByHlc(ops)) == multiset(ops)
  {
    if ops != [] {
      var init, last := ops[..|ops| - 1], ops[|ops| - 1];
      assert ops == init + [last];
      SortedByHlc(init);
      InsertKeepsOrder(last, SortByHlc(init));
    }
  }

  /** The queue of any log: the ops not yet pushed, and no others, by ascending clock. */
  lemma QueueIsSorted(log: Log)
    ensures NotDescending(SortByHlc(Unpushed(log)))
    ensures forall op :: op in SortByHlc(Unpushed(log)) <==> LogRow(op, false) in log
  {
    var queue := SortByHlc(Unpushed(log));
    SortedByHlc(Unpushed(log));
    forall op ensures op in queue <==> LogRow(op, false) in log {
      UnpushedExactly(log, op);
      assert op in queue <==> op in multiset(queue);
      assert op in Unpushed(log) <==> op in multiset(Unpushed(log));
    }
    hide SortByHlc, Unpushed, NotDescending;
  }

  lemma {:induction false} UnpushedExactly(log: Log, op: Op)
    ensures op in Unpushed(log) <==> LogRow(op, false) in log
  {
    if log != [] {
      UnpushedExactly(log[..|log| - 1], op);
      assert log == log[..|log| - 1] + [log[|log| - 1]];
    }
  }

  lemma {:induction false} HyphensGo(a: string, rest: string)
    requires HyphenFree(a)
    ensures WithoutHyphens(a + "-" + rest) == a + WithoutHyphens(rest)
    ensures WithoutHyphens(a) == a
  {
    if a == [] {
      assert a + "-" + rest == "-" + rest && ("-" + rest)[1..] == rest;
    } else {
      assert (a + "-" + rest)[1..] == a[1..] + "-" + rest;
      HyphensGo(a[1..], rest);
      assert a == [a[0]] + a[1..];
    }
  }

  /** The device's part of a clock is the first two groups of its UUID. */
  lemma PrefixOfUuid(a: string, b: string, rest: string)
    requires HyphenFree(a) && HyphenFree(b) && |a| == 8 && |b| == 4
    ensures DevicePrefix(a + "-" + b + "-" + rest) == a + b
  {
    assert a + "-" + b + "-" + rest == a + "-" + (b + "-" + rest);
    HyphensGo(a, b + "-" + rest);
    HyphensGo(b, rest);
    assert (a + (b + WithoutHyphens(rest)))[..12] == a + b;
    hide WithoutHyphens;
  }
}
