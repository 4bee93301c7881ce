/** What the decoder's stages compute, as the source writes them: stage 1
    and stage 2 overwrite entries (the last write wins, unreached states keep
    cost 0 and no trace), later stages take the first cheapest reverse
    transition, and the backtrace yields one bit per symbol along a walk that
    starts and ends in S0. */
module DecoderProps {
  import opened Trellis
  import opened Metrics
  import opened Graphs
  import opened Encoder
  import opened DecoderSpec

  /** `j` is the last transition among `es` that enters `s`. */
  ghost predicate IsLastEdgeTo(es: seq<Edge>, s: State, j: int)
  {
    0 <= j < |es| && es[j].next == s && forall j' :: j < j' < |es| ==> es[j'].next != s
  }

  /** The entry of `s` in `c` is the general-stage recurrence: the minimum
      candidate cost over the reverse transitions into `s`, traced to the
      first transition that attains it. */
  ghost predicate IsBestEntry(g: Graph, s: State, prev: Row<nat>, sym: seq<Bit>, c: Column)
  {
    var preds := Predecessors(g, s);
    var xs := Candidates(preds, prev, sym);
    exists k :: IsFirstMin(xs, k) && c.cost.Get(s) == xs[k] && c.trace.Get(s) == Some(preds[k].0)
  }

  /** An overwriting pass aborts exactly when some symbol has the wrong width. */
  lemma {:induction false} OverwriteOk(p: State, es: seq<Edge>, prev: Row<nat>, sym: seq<Bit>, col: Column)
    ensures OverwriteFrom(p, es, prev, sym, col).Ok? <==> forall j :: 0 <= j < |es| ==> |es[j].out| == |sym|
    ensures OverwriteFrom(p, es, prev, sym, col).Err? ==> OverwriteFrom(p, es, prev, sym, col).error == LengthMismatch
  {
    if es != [] && |es[0].out| == |sym| {
      var c := Column(col.cost.Set(es[0].next, prev.Get(p) + Dist(es[0].out, sym)), col.trace.Set(es[0].next, Some(p)));
      OverwriteOk(p, es[1..], prev, sym, c);
      assert forall j :: 1 <= j < |es| ==> es[j] == es[1..][j - 1];
    }
  }

  /** An overwriting pass: a state no transition enters keeps its entry; a
      state some transition enters takes the values of the LAST such one. */
  lemma {:induction false} OverwriteEffect(p: State, es: seq<Edge>, prev: Row<nat>, sym: seq<Bit>, col: Column, c: Column)
    requires OverwriteFrom(p, es, prev, sym, col) == Ok(c)
    ensures forall s :: (forall j :: 0 <= j < |es| ==> es[j].next != s) ==>
      c.cost.Get(s) == col.cost.Get(s) && c.trace.Get(s) == col.trace.Get(s)
    ensures forall s, j :: IsLastEdgeTo(es, s, j) ==>
      c.cost.Get(s) == prev.Get(p) + Dist(es[j].out, sym) && c.trace.Get(s) == Some(p)
  {
    if es != [] {
      var c' := Column(col.cost.Set(es[0].next, prev.Get(p) + Dist(es[0].out, sym)), col.trace.Set(es[0].next, Some(p)));
      OverwriteEffect(p, es[1..], prev, sym, c', c);
      forall s, j | IsLastEdgeTo(es, s, j)
        ensures c.cost.Get(s) == prev.Get(p) + Dist(es[j].out, sym) && c.trace.Get(s) == Some(p)
      {
        if j > 0 {
          assert IsLastEdgeTo(es[1..], s, j - 1);
        } else {
          assert forall j' :: 0 <= j' < |es[1..]| ==> es[1..][j'].next != s;
        }
      }
      forall s | forall j :: 0 <= j < |es| ==> es[j].next != s
        ensures c.cost.Get(s) == col.cost.Get(s) && c.trace.Get(s) == col.trace.Get(s)
      {
        assert forall j' :: 0 <= j' < |es[1..]| ==> es[1..][j'].next != s;
      }
    }
  }

  /** Stage 1 aborts exactly on a first symbol of the wrong width. */
  lemma StageOneOk(g: Graph, sym: seq<Bit>)
    requires WellFormed(g)
    ensures StageOne(g, sym).Ok? <==> |sym| == SymbolWidth
  {
    OverwriteOk(S0, g.adj.Get(S0), ZeroCosts, sym, Column(ZeroCosts, NoTraces));
  }

  /** Stage 1 only touches S0's successors: each is traced to S0 at the
      distance of the last transition into it; every other state keeps cost
      0 and no trace. */
  lemma StageOneEffect(g: Graph, sym: seq<Bit>, c: Column)
    requires WellFormed(g) && StageOne(g, sym) == Ok(c)
    ensures forall s :: s !in NextStates(g, S0) ==> c.cost.Get(s) == 0 && c.trace.Get(s) == None
    ensures forall s, j :: IsLastEdgeTo(g.adj.Get(S0), s, j) ==>
      c.cost.Get(s) == Dist(g.adj.Get(S0)[j].out, sym) && c.trace.Get(s) == Some(S0)
    ensures forall s :: c.trace.Get(s) == None || c.trace.Get(s) == Some(S0)
  {
    var es := g.adj.Get(S0);
    OverwriteEffect(S0, es, ZeroCosts, sym, Column(ZeroCosts, NoTraces), c);
    forall s | s !in NextStates(g, S0)
      ensures c.cost.Get(s) == 0 && c.trace.Get(s) == None
    {
      NextStatesMembers(g, S0, s);
    }
    forall s | s in NextStates(g, S0)
      ensures c.trace.Get(s) == Some(S0)
    {
      NextStatesMembers(g, S0, s);
      var i :| 0 <= i < |es| && es[i].next == s;
      if es[1].next == s {
        assert IsLastEdgeTo(es, s, 1);
      } else {
        assert IsLastEdgeTo(es, s, 0);
      }
    }
  }

  /** Stage 2's outer loop succeeds only if every transition of every
      listed source has the symbol's width. */
  lemma {:induction false} SecondStageFromWidths(g: Graph, ps: seq<State>, prev: Row<nat>, sym: seq<Bit>, col: Column, c: Column)
    requires SecondStageFrom(g, ps, prev, sym, col) == Ok(c)
    ensures forall k, j :: 0 <= k < |ps| && 0 <= j < |g.adj.Get(ps[k])| ==> |g.adj.Get(ps[k])[j].out| == |sym|
  {
    if ps != [] {
      var es := g.adj.Get(ps[0]);
      OverwriteOk(ps[0], es, prev, sym, col);
      var c0 := OverwriteFrom(ps[0], es, prev, sym, col).value;
      SecondStageFromWidths(g, ps[1..], prev, sym, c0, c);
      forall k, j | 0 <= k < |ps| && 0 <= j < |g.adj.Get(ps[k])|
        ensures |g.adj.Get(ps[k])[j].out| == |sym|
      {
        if k > 0 {
          assert ps[1..][k - 1] == ps[k];
        }
      }
    }
  }

  /** Stage 2's outer loop keeps the entry of a state no listed source enters. */
  lemma {:induction false} SecondStageFromUntouched(g: Graph, ps: seq<State>, prev: Row<nat>, sym: seq<Bit>, col: Column, c: Column, s: State)
    requires SecondStageFrom(g, ps, prev, sym, col) == Ok(c)
    requires forall k :: 0 <= k < |ps| ==> s !in NextStates(g, ps[k])
    ensures c.cost.Get(s) == col.cost.Get(s) && c.trace.Get(s) == col.trace.Get(s)
  {
    if ps != [] {
      var es := g.adj.Get(ps[0]);
      OverwriteOk(ps[0], es, prev, sym, col);
      var c0 := OverwriteFrom(ps[0], es, prev, sym, col).value;
      OverwriteEffect(ps[0], es, prev, sym, col, c0);
      assert s !in NextStates(g, ps[0]);
      assert forall j :: 0 <= j < |es| ==> es[j].next == NextStates(g, ps[0])[j];
      assert forall k :: 0 <= k < |ps[1..]| ==> ps[1..][k] == ps[k + 1];
      SecondStageFromUntouched(g, ps[1..], prev, sym, c0, c, s);
    }
  }

  /** Stage 2's outer loop: the last source (in list order) entering a
      state, through its last transition into it, decides the entry. No
      minimum is taken. */
  lemma {:induction false} SecondStageFromLastWrite(g: Graph, ps: seq<State>, prev: Row<nat>, sym: seq<Bit>, col: Column, c: Column, s: State, k: nat, j: nat)
    requires SecondStageFrom(g, ps, prev, sym, col) == Ok(c)
    requires k < |ps| && IsLastEdgeTo(g.adj.Get(ps[k]), s, j)
    requires forall k' :: k < k' < |ps| ==> s !in NextStates(g, ps[k'])
    ensures c.cost.Get(s) == prev.Get(ps[k]) + Dist(g.adj.Get(ps[k])[j].out, sym) && c.trace.Get(s) == Some(ps[k])
  {
    var es := g.adj.Get(ps[0]);
    OverwriteOk(ps[0], es, prev, sym, col);
    var c0 := OverwriteFrom(ps[0], es, prev, sym, col).value;
    assert forall k' :: 0 <= k' < |ps[1..]| ==> ps[1..][k'] == ps[k' + 1];
    if k > 0 {
      SecondStageFromLastWrite(g, ps[1..], prev, sym, c0, c, s, k - 1, j);
    } else {
      OverwriteEffect(ps[0], es, prev, sym, col, c0);
      SecondStageFromUntouched(g, ps[1..], prev, sym, c0, c, s);
    }
  }

  /** Stage 2 as written: over a copy of stage 1's column, the transitions
      out of S0's successors overwrite entries in list order, so an entry is
      the LAST write into it (not the cheapest); states none of them enters
      keep their stage-1 entry. A stage-2 column exists only for a symbol of
      the right width. */
  lemma StageTwoLastWriteWins(g: Graph, first: Column, sym: seq<Bit>, c: Column)
    requires WellFormed(g) && StageTwo(g, first, sym) == Ok(c)
    ensures |sym| == SymbolWidth
    ensures forall s :: (forall k :: 0 <= k < |NextStates(g, S0)| ==> s !in NextStates(g, NextStates(g, S0)[k])) ==>
      c.cost.Get(s) == first.cost.Get(s) && c.trace.Get(s) == first.trace.Get(s)
    ensures forall s, k, j ::
      var ps := NextStates(g, S0);
      && 0 <= k < |ps|
      && IsLastEdgeTo(g.adj.Get(ps[k]), s, j)
      && (forall k' :: k < k' < |ps| ==> s !in NextStates(g, ps[k']))
      ==> c.cost.Get(s) == first.cost.Get(ps[k]) + Dist(g.adj.Get(ps[k])[j].out, sym) && c.trace.Get(s) == Some(ps[k])
  {
    var ps := NextStates(g, S0);
    SecondStageFromWidths(g, ps, first.cost, sym, first, c);
    assert |g.adj.Get(ps[0])[0].out| == |sym|;
    forall s | forall k :: 0 <= k < |ps| ==> s !in NextStates(g, ps[k])
      ensures c.cost.Get(s) == first.cost.Get(s) && c.trace.Get(s) == first.trace.Get(s)
    {
      SecondStageFromUntouched(g, ps, first.cost, sym, first, c, s);
    }
    forall s, k, j |
      && 0 <= k < |ps|
      && IsLastEdgeTo(g.adj.Get(ps[k]), s, j)
      && (forall k' :: k < k' < |ps| ==> s !in NextStates(g, ps[k']))
      ensures c.cost.Get(s) == first.cost.Get(ps[k]) + Dist(g.adj.Get(ps[k])[j].out, sym) && c.trace.Get(s) == Some(ps[k])
    {
      SecondStageFromLastWrite(g, ps, first.cost, sym, first, c, s, k, j);
    }
  }

  /** A general stage's loop: every state it visits gets the recurrence's
      entry, and its reverse transitions are nonempty and of the symbol's
      width; every other state keeps its entry. */
  lemma {:induction false} LaterStageFromEffect(g: Graph, ss: seq<State>, prev: Row<nat>, sym: seq<Bit>, col: Column, c: Column)
    requires LaterStageFrom(g, ss, prev, sym, col) == Ok(c)
    ensures forall s :: s in ss ==> Predecessors(g, s) != []
    ensures forall s, j :: s in ss && 0 <= j < |Predecessors(g, s)| ==> |Predecessors(g, s)[j].1| == |sym|
    ensures forall s :: s in ss ==> IsBestEntry(g, s, prev, sym, c)
    ensures forall s :: s !in ss ==> c.cost.Get(s) == col.cost.Get(s) && c.trace.Get(s) == col.trace.Get(s)
  {
    if ss != [] {
      var s0 := ss[0];
      var preds := Predecessors(g, s0);
      var xs := Candidates(preds, prev, sym);
      assert CandidateCosts(preds, prev, sym) == Ok(xs);
      var k := FirstMinIndex(xs);
      var c' := Column(col.cost.Set(s0, xs[k]), col.trace.Set(s0, Some(preds[k].0)));
      LaterStageFromEffect(g, ss[1..], prev, sym, c', c);
      assert ss == [s0] + ss[1..];
      if s0 !in ss[1..] {
        assert IsFirstMin(xs, k);
      }
    }
  }

  /** A general stage succeeds exactly when the symbol has the right width
      and every state has a reverse transition (otherwise `min` of an empty
      list aborts); it then gives every state the recurrence's entry. */
  lemma LaterStageRecurrence(g: Graph, prev: Row<nat>, sym: seq<Bit>)
    requires WellFormed(g)
    ensures LaterStage(g, prev, sym).Ok? <==> |sym| == SymbolWidth && forall s :: Predecessors(g, s) != []
    ensures LaterStage(g, prev, sym).Ok? ==> forall s :: IsBestEntry(g, s, prev, sym, LaterStage(g, prev, sym).value)
  {
    if LaterStage(g, prev, sym).Ok? {
      LaterStageFromEffect(g, g.order, prev, sym, Column(ZeroCosts, NoTraces), LaterStage(g, prev, sym).value);
      PredecessorOutputsFit(g, S0);
      assert |Predecessors(g, S0)[0].1| == |sym|;
    } else if |sym| == SymbolWidth && forall s :: Predecessors(g, s) != [] {
      LaterStageFromOk(g, g.order, prev, sym, Column(ZeroCosts, NoTraces));
    }
  }

  lemma {:induction false} LaterStageFromOk(g: Graph, ss: seq<State>, prev: Row<nat>, sym: seq<Bit>, col: Column)
    requires WellFormed(g) && |sym| == SymbolWidth && forall s :: Predecessors(g, s) != []
    ensures LaterStageFrom(g, ss, prev, sym, col).Ok?
  {
    if ss != [] {
      var preds := Predecessors(g, ss[0]);
      PredecessorOutputsFit(g, ss[0]);
      var xs := Candidates(preds, prev, sym);
      assert CandidateCosts(preds, prev, sym) == Ok(xs);
      var k := FirstMinIndex(xs);
      LaterStageFromOk(g, ss[1..], prev, sym, Column(col.cost.Set(ss[0], xs[k]), col.trace.Set(ss[0], Some(preds[k].0))));
    }
  }

  lemma {:induction false} LaterStagesShape(g: Graph, syms: seq<seq<Bit>>, table0: seq<Column>, table: seq<Column>)
    requires 0 < |table0| <= |syms|
    requires LaterStages(g, syms, table0) == Ok(table)
    ensures |table| == |syms| && table[..|table0|] == table0
    ensures forall t :: |table0| <= t < |syms| ==> LaterStage(g, table[t - 1].cost, syms[t]) == Ok(table[t])
    decreases |syms| - |table0|
  {
    if |table0| < |syms| {
      var c := LaterStage(g, table0[|table0| - 1].cost, syms[|table0|]).value;
      LaterStagesShape(g, syms, table0 + [c], table);
      assert table[..|table0| + 1][..|table0|] == table[..|table0|];
    }
  }

  /** The table has one column per symbol and at least two: column 1 is
      stage 1, column 2 is stage 2 over a copy of column 1, and every later
      column is the general stage over the previous column's costs. */
  lemma TrellisShape(g: Graph, syms: seq<seq<Bit>>, table: seq<Column>)
    requires TrellisOf(g, syms) == Ok(table)
    ensures |table| == |syms| >= 2
    ensures StageOne(g, syms[0]) == Ok(table[0])
    ensures StageTwo(g, table[0], syms[1]) == Ok(table[1])
    ensures forall t :: 2 <= t < |syms| ==> LaterStage(g, table[t - 1].cost, syms[t]) == Ok(table[t])
  {
    var first := StageOne(g, syms[0]).value;
    var second := StageTwo(g, first, syms[1]).value;
    LaterStagesShape(g, syms, [first, second], table);
    assert table[..2] == [first, second];
    assert table[0] == table[..2][0] && table[1] == table[..2][1];
  }

  /** One step of the backtrace: the entry of `cur` in column i is set, the
      bit recovered from it moves that state to `cur`, and the rest of the
      backtrace continues from it. */
  lemma TraceBackStep(g: Graph, table: seq<Column>, i: nat, cur: State, bits: seq<Bit>, out: seq<Bit>)
    requires WellFormed(g) && 1 <= i <= |table|
    requires TraceBackFrom(g, table, i, cur, bits) == Ok(out)
    ensures table[i - 1].trace.Get(cur).Some?
    ensures var p := table[i - 1].trace.Get(cur).value;
      && BitFor(g, p, cur).Ok?
      && g.adj.Get(p)[BitFor(g, p, cur).value].next == cur
      && TraceBackFrom(g, table, i - 1, p, bits + [BitFor(g, p, cur).value]) == Ok(out)
  {
    var p := table[i - 1].trace.Get(cur).value;
    BitForRecoversEdge(g, p, cur);
  }

  /** The backtrace over i columns appends exactly i bits. */
  lemma {:induction false} TraceBackLength(g: Graph, table: seq<Column>, i: nat, cur: State, bits: seq<Bit>, out: seq<Bit>)
    requires WellFormed(g) && i <= |table|
    requires TraceBackFrom(g, table, i, cur, bits) == Ok(out)
    ensures |out| == |bits| + i && out[..|bits|] == bits
  {
    if i > 0 {
      TraceBackStep(g, table, i, cur, bits, out);
      var p := table[i - 1].trace.Get(cur).value;
      var b := BitFor(g, p, cur).value;
      TraceBackLength(g, table, i - 1, p, bits + [b], out);
      assert out[..|bits|] == (bits + [b])[..|bits|];
    }
  }

  /** The backtrace from `cur` over i >= 1 columns, when stage 1's traces are
      unset or S0, emits i bits that, reversed, drive the encoder from S0 to `cur`. */
  lemma {:induction false} TraceBackWalk(g: Graph, table: seq<Column>, i: nat, cur: State, bits: seq<Bit>, out: seq<Bit>)
    requires WellFormed(g) && 1 <= i <= |table|
    requires forall s :: table[0].trace.Get(s) == None || table[0].trace.Get(s) == Some(S0)
    requires TraceBackFrom(g, table, i, cur, bits) == Ok(out)
    ensures |out| == |bits| + i && out[..|bits|] == bits
    ensures FinalState(g, S0, Reversed(out[|bits|..])) == cur
  {
    TraceBackLength(g, table, i, cur, bits, out);
    TraceBackStep(g, table, i, cur, bits, out);
    var p := table[i - 1].trace.Get(cur).value;
    var b := BitFor(g, p, cur).value;
    TraceBackLength(g, table, i - 1, p, bits + [b], out);
    var tail := out[|bits| + 1..];
    assert out[|bits|..] == [b] + tail;
    if i == 1 {
      assert tail == [];
      assert Reversed<Bit>([]) == [];
      FinalStateSnoc(g, S0, [], b);
    } else {
      TraceBackWalk(g, table, i - 1, p, bits + [b], out);
      ReversedCons(b, tail);
      FinalStateSnoc(g, S0, Reversed(tail), b);
    }
  }

  lemma ReversedCons<T>(x: T, s: seq<T>)
    ensures Reversed([x] + s) == Reversed(s) + [x]
  {
    assert ([x] + s)[1..] == s;
  }

  /** The backtrace over a whole table emits one bit per column, and the
      bits, reversed, drive the encoder from S0 back to S0. */
  lemma TraceBackOfTable(g: Graph, syms: seq<seq<Bit>>, table: seq<Column>)
    requires WellFormed(g) && TrellisOf(g, syms) == Ok(table)
    requires TraceBackFrom(g, table, |table|, S0, []).Ok?
    ensures |TraceBackFrom(g, table, |table|, S0, []).value| == |table|
    ensures FinalState(g, S0, Reversed(TraceBackFrom(g, table, |table|, S0, []).value)) == S0
  {
    TrellisShape(g, syms, table);
    StageOneEffect(g, syms[0], table[0]);
    var out := TraceBackFrom(g, table, |table|, S0, []).value;
    TraceBackWalk(g, table, |table|, S0, [], out);
    assert out[0..] == out;
  }

  /** Whatever was received, a decoded message drives the encoder from S0
      back to S0: the backtrace starts at S0 at the last stage and ends at
      S0, the only state stage 1 traces to. */
  lemma DecodedWalkReturnsToS0(g: Graph, received: seq<Bit>)
    requires WellFormed(g) && Decoding(g, received).Ok?
    ensures FinalState(g, S0, Decoding(g, received).value) == S0
  {
    var table := TrellisOf(g, Segment(received)).value;
    TraceBackOfTable(g, Segment(received), table);
  }

  /** A table exists only when its last symbol has full width. */
  lemma LastSymbolFull(g: Graph, syms: seq<seq<Bit>>, table: seq<Column>)
    requires WellFormed(g) && TrellisOf(g, syms) == Ok(table)
    ensures |syms| >= 2 && |syms[|syms| - 1]| == SymbolWidth
  {
    TrellisShape(g, syms, table);
    var n := |syms|;
    if n == 2 {
      StageTwoLastWriteWins(g, table[0], syms[1], table[1]);
    } else {
      LaterStageRecurrence(g, table[n - 2].cost, syms[n - 1]);
    }
  }

  lemma WholeMultiple(len: nat, n: nat)
    requires len == SymbolWidth * n
    ensures len % SymbolWidth == 0 && len / SymbolWidth == n
  {
  }

  /** When the last symbol is full, the received string is whole symbols. */
  lemma WholeSymbols(r: seq<Bit>)
    requires |Segment(r)| > 0 && |Segment(r)[|Segment(r)| - 1]| == SymbolWidth
    ensures |r| == SymbolWidth * |Segment(r)|
    ensures |r| % SymbolWidth == 0 && |r| / SymbolWidth == |Segment(r)|
  {
    var n := |Segment(r)|;
    assert Segment(r)[n - 1] == r[3 * (n - 1) .. Min(3 * (n - 1) + 3, |r|)];
    WholeMultiple(|r|, n);
  }

  /** A decoded message has one bit per symbol; a decode succeeds only on a
      received string of at least two whole symbols. */
  lemma DecodedLength(g: Graph, received: seq<Bit>)
    requires WellFormed(g) && Decoding(g, received).Ok?
    ensures |received| % SymbolWidth == 0 && |received| >= 2 * SymbolWidth
    ensures |Decoding(g, received).value| == |received| / SymbolWidth
  {
    var syms := Segment(received);
    var table := TrellisOf(g, syms).value;
    LastSymbolFull(g, syms, table);
    WholeSymbols(received);
    TrellisShape(g, syms, table);
    TraceBackOfTable(g, syms, table);
  }

  /** A message that decodes back from its own encoding has at least two
      bits and its walk from S0 returns to S0. */
  lemma DecodedOwnEncoding(g: Graph, m: seq<Bit>)
    requires WellFormed(g) && Decoding(g, Encoding(g, S0, m)) == Ok(m)
    ensures |m| >= 2 && FinalState(g, S0, m) == S0
  {
    var r := Encoding(g, S0, m);
    EncodingLength(g, S0, m);
    DecodedLength(g, r);
    WholeMultiple(|r|, |m|);
    DecodedWalkReturnsToS0(g, r);
  }
}
