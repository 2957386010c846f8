/** Last-write-wins slots: what a value with a clock holds after any sequence of writes. */
module Lww {
  import opened Wrappers
  import opened Text
  import opened Library
  import opened MergeRules

  datatype Slot<V> = Slot(value: V, clock: Option<string>)

  datatype Write<V> = Write(hlc: string, value: V)

  function Put<V>(s: Slot<V>, w: Write<V>): Slot<V>
  {
    if Newer(w.hlc, s.clock) then Slot(w.value, Some(w.hlc)) else s
  }

  function PutAll<V>(s: Slot<V>, ws: seq<Write<V>>): Slot<V>
    decreases |ws|
  {
    if ws == [] then s else PutAll(Put(s, ws[0]), ws[1..])
  }

  lemma {:induction false} PutAllAppend<V>(s: Slot<V>, ws: seq<Write<V>>, vs: seq<Write<V>>)
    ensures PutAll(s, ws + vs) == PutAll(PutAll(s, ws), vs)
    decreases |ws|
  {
    if ws == [] {
      assert ws + vs == vs;
    } else {
      assert (ws + vs)[1..] == ws[1..] + vs;
      PutAllAppend(Put(s, ws[0]), ws[1..], vs);
    }
  }

  /** `r` holds the write with the greatest clock, or the start value when no write is newer than it. */
  ghost predicate Latest<V(!new)>(start: Slot<V>, ws: seq<Write<V>>, r: Slot<V>)
  {
    && (r == start || exists w :: w in ws && r == Slot(w.value, Some(w.hlc)) && Newer(w.hlc, start.clock))
    && forall w :: w in ws ==> !Newer(w.hlc, r.clock)
  }

  lemma {:induction false} PutAllIsLatest<V(!new)>(start: Slot<V>, ws: seq<Write<V>>)
    ensures Latest(start, ws, PutAll(start, ws))
    decreases |ws|
  {
    if ws != [] {
      var next, r := Put(start, ws[0]), PutAll(start, ws);
      PutAllIsLatest(next, ws[1..]);
      if r != next {
        var w :| w in ws[1..] && r == Slot(w.value, Some(w.hlc)) && Newer(w.hlc, next.clock);
        assert w in ws;
        ClockPasses(start.clock, ws[0].hlc, w.hlc);
      }
      LessTrichotomy(ws[0].hlc, ws[0].hlc);
      forall w | w in ws ensures !Newer(w.hlc, r.clock) {
        if w == ws[0] {
          if r != next {
            LessTrichotomy(r.clock.value, ws[0].hlc);
            ClockPasses(start.clock, ws[0].hlc, r.clock.value);
          }
        } else {
          assert w in ws[1..];
        }
      }
    }
  }

  /** A clock newer than a slot is newer than the slot was before a write it has accepted or refused. */
  lemma ClockPasses(start: Option<string>, first: string, later: string)
    requires Newer(later, if Newer(first, start) then Some(first) else start)
    ensures Newer(later, start)
    ensures Less(first, later)
  {
    if start.Some? {
      LessTrichotomy(start.value, first);
      if Less(start.value, first) {
        LessTransitive(start.value, first, later);
      } else if first != start.value {
        LessTransitive(first, start.value, later);
      }
    }
  }

  /** Distinct writes have distinct clocks. */
  ghost predicate DistinctClocks<V(!new)>(ws: seq<Write<V>>)
  {
    forall w, v :: w in ws && v in ws && w.hlc == v.hlc ==> w == v
  }

  /** The latest value does not depend on the order of the writes, nor on how often each arrives. */
  lemma LatestIsUnique<V(!new)>(start: Slot<V>, ws: seq<Write<V>>, vs: seq<Write<V>>, r: Slot<V>, q: Slot<V>)
    requires forall w :: w in ws <==> w in vs
    requires DistinctClocks(ws)
    requires Latest(start, ws, r) && Latest(start, vs, q)
    ensures r == q
  {
    if r != start && q != start {
      var w :| w in ws && r == Slot(w.value, Some(w.hlc)) && Newer(w.hlc, start.clock);
      var v :| v in vs && q == Slot(v.value, Some(v.hlc)) && Newer(v.hlc, start.clock);
      assert !Newer(v.hlc, r.clock) && !Newer(w.hlc, q.clock);
      LessTrichotomy(v.hlc, w.hlc);
    }
  }

  lemma WritesConverge<V(!new)>(start: Slot<V>, ws: seq<Write<V>>, vs: seq<Write<V>>)
    requires forall w :: w in ws <==> w in vs
    requires DistinctClocks(ws)
    ensures PutAll(start, ws) == PutAll(start, vs)
  {
    PutAllIsLatest(start, ws);
    PutAllIsLatest(start, vs);
    LatestIsUnique(start, ws, vs, PutAll(start, ws), PutAll(start, vs));
  }

  // ---------------------------------------------------------------------------
  // Runs that write one slot
  // ---------------------------------------------------------------------------

  /** The writes a run delivers to a slot, in order; `writer` gives those of one op. */
  function Writes<V>(ds: seq<Delivery>, writer: Op -> seq<Write<V>>): seq<Write<V>>
  {
    if ds == [] then [] else writer(ds[0].op) + Writes(ds[1..], writer)
  }

  /** An op writes at most once, with its own clock. */
  ghost predicate WritesOnce<V(!new)>(writer: Op -> seq<Write<V>>)
  {
    forall op, w :: w in writer(op) ==> writer(op) == [w] && w.hlc == op.hlc
  }

  /** Ops that write to the slot with equal clocks are one and the same op. */
  predicate DistinctHlcs<V>(ops: set<Op>, writer: Op -> seq<Write<V>>)
  {
    forall o, p :: o in ops && p in ops && writer(o) != [] && writer(p) != [] && o.hlc == p.hlc ==> o == p
  }

  lemma {:induction false} WritesComeFromOps<V(!new)>(ds: seq<Delivery>, writer: Op -> seq<Write<V>>, w: Write<V>)
    ensures w in Writes(ds, writer) <==> exists op :: op in Ops(ds) && w in writer(op)
    decreases |ds|
  {
    if ds != [] {
      WritesComeFromOps(ds[1..], writer, w);
      assert Ops(ds) == {ds[0].op} + Ops(ds[1..]) by {
        assert ds == [ds[0]] + ds[1..];
      }
    }
  }

  lemma DistinctOpsDistinctClocks<V(!new)>(ds: seq<Delivery>, writer: Op -> seq<Write<V>>)
    requires WritesOnce(writer) && DistinctHlcs(Ops(ds), writer)
    ensures DistinctClocks(Writes(ds, writer))
  {
    forall w, v | w in Writes(ds, writer) && v in Writes(ds, writer) && w.hlc == v.hlc ensures w == v {
      WritesComeFromOps(ds, writer, w);
      WritesComeFromOps(ds, writer, v);
    }
  }

  /** The slot is there, and every op of the set keeps it there and makes exactly its writes. */
  ghost predicate Tracks<V(!new)>(ops: set<Op>, live: Tables -> bool, slot: Tables -> Slot<V>,
                           writer: Op -> seq<Write<V>>)
  {
    forall t, op, newId | live(t) && op in ops ::
      live(Step(t, op, newId)) && slot(Step(t, op, newId)) == PutAll(slot(t), writer(op))
  }

  lemma {:induction false} RunPutsWrites<V(!new)>(t: Tables, ds: seq<Delivery>, ops: set<Op>, live: Tables -> bool,
                                           slot: Tables -> Slot<V>,
                                                  writer: Op -> seq<Write<V>>)
    requires live(t) && Tracks(ops, live, slot, writer) && Ops(ds) <= ops
    ensures live(Run(t, ds)) && slot(Run(t, ds)) == PutAll(slot(t), Writes(ds, writer))
    decreases |ds|
  {
    hide Step;
    if ds != [] {
      assert ds[0].op in Ops(ds) && Ops(ds[1..]) <= Ops(ds);
      RunPutsWrites(Step(t, ds[0].op, ds[0].newId), ds[1..], ops, live, slot, writer);
      PutAllAppend(slot(t), writer(ds[0].op), Writes(ds[1..], writer));
    }
  }

  /** Convergence of one slot: two runs that deliver the same ops, in any order and any number of times,
      leave it with the write of the greatest clock, or as it was. */
  lemma RunsConverge<V(!new)>(t: Tables, ds: seq<Delivery>, es: seq<Delivery>, live: Tables -> bool,
                       slot: Tables -> Slot<V>,
                              writer: Op -> seq<Write<V>>)
    requires live(t) && Ops(ds) == Ops(es) && Tracks(Ops(ds), live, slot, writer)
    requires WritesOnce(writer) && DistinctHlcs(Ops(ds), writer)
    ensures live(Run(t, ds)) && live(Run(t, es)) && slot(Run(t, ds)) == slot(Run(t, es))
    ensures Latest(slot(t), Writes(ds, writer), slot(Run(t, ds)))
  {
    hide Run, Tracks, WritesOnce, DistinctHlcs, Latest;
    RunPutsWrites(t, ds, Ops(ds), live, slot, writer);
    RunPutsWrites(t, es, Ops(ds), live, slot, writer);
    forall w ensures w in Writes(ds, writer) <==> w in Writes(es, writer) {
      WritesComeFromOps(ds, writer, w);
      WritesComeFromOps(es, writer, w);
    }
    DistinctOpsDistinctClocks(ds, writer);
    WritesConverge(slot(t), Writes(ds, writer), Writes(es, writer));
    PutAllIsLatest(slot(t), Writes(ds, writer));
  }
}
