/** Noise-free decoding, for any graph whose first two stages follow the
    encoder's walk: from stage 3 on the walk's state is the only one of cost
    0 and is traced to the walk's previous state, so the backtrace from S0
    retraces the walk and recovers the message. */
module RoundTrip {
  import opened Trellis
  import opened Metrics
  import opened Graphs
  import opened Encoder
  import opened DecoderSpec
  import opened DecoderProps

  /** The two symbols a state can emit differ. */
  ghost predicate DistinctOutputs(g: Graph)
    requires WellFormed(g)
  {
    forall s: State :: g.adj.Get(s)[0].out != g.adj.Get(s)[1].out
  }

  /** The two transitions out of a state lead to different states. */
  ghost predicate DistinctNext(g: Graph)
    requires WellFormed(g)
  {
    forall s: State :: g.adj.Get(s)[0].next != g.adj.Get(s)[1].next
  }

  /** Every state has a reverse transition. */
  ghost predicate EveryStateEntered(g: Graph)
  {
    forall s: State :: Predecessors(g, s) != []
  }

  /** The state the encoder is in after the first t bits of `m`. */
  ghost function Walk(g: Graph, m: seq<Bit>, t: nat): State
    requires WellFormed(g) && t <= |m|
  {
    FinalState(g, S0, m[..t])
  }

  /** `s` is the only state of cost 0. */
  ghost predicate UniqueZero(cost: Row<nat>, s: State)
  {
    cost.Get(s) == 0 && forall s' :: s' != s ==> cost.Get(s') > 0
  }

  /** Stages 1 and 2 on the noise-free symbols of bits b0, b1 trace the
      walk, and stage 2 leaves its state as the only one of cost 0. */
  ghost predicate FirstStagesFollowPath(g: Graph, b0: Bit, b1: Bit)
    requires WellFormed(g)
  {
    var s1 := g.adj.Get(S0)[b0].next;
    var s2 := g.adj.Get(s1)[b1].next;
    var first := StageOne(g, g.adj.Get(S0)[b0].out);
    && first.Ok?
    && first.value.trace.Get(s1) == Some(S0)
    && var second := StageTwo(g, first.value, g.adj.Get(s1)[b1].out);
    && second.Ok?
    && UniqueZero(second.value.cost, s2)
    && second.value.trace.Get(s2) == Some(s1)
  }

  /** In a column built by the recurrence from costs where only p is 0,
      the state p's noise-free symbol leads to gets cost 0, traced to p. */
  lemma PathStateEntry(g: Graph, prev: Row<nat>, p: State, b: Bit, c: Column)
    requires WellFormed(g) && UniqueZero(prev, p)
    requires IsBestEntry(g, g.adj.Get(p)[b].next, prev, g.adj.Get(p)[b].out, c)
    ensures c.cost.Get(g.adj.Get(p)[b].next) == 0 && c.trace.Get(g.adj.Get(p)[b].next) == Some(p)
  {
    var sym := g.adj.Get(p)[b].out;
    var s := g.adj.Get(p)[b].next;
    var preds := Predecessors(g, s);
    var xs := Candidates(preds, prev, sym);
    var k :| IsFirstMin(xs, k) && c.cost.Get(s) == xs[k] && c.trace.Get(s) == Some(preds[k].0);
    PredecessorsExactly(g, s, p, sym);
    var j :| 0 <= j < |preds| && preds[j] == (p, sym);
    DistZeroIffEqual(sym, sym);
    assert xs[j] == 0;
  }

  /** ... and every other state gets a positive cost, because the two
      symbols p can emit differ. */
  lemma OffPathEntry(g: Graph, prev: Row<nat>, p: State, b: Bit, s: State, c: Column)
    requires WellFormed(g) && DistinctOutputs(g) && UniqueZero(prev, p)
    requires s != g.adj.Get(p)[b].next
    requires IsBestEntry(g, s, prev, g.adj.Get(p)[b].out, c)
    ensures c.cost.Get(s) > 0
  {
    var sym := g.adj.Get(p)[b].out;
    var preds := Predecessors(g, s);
    var xs := Candidates(preds, prev, sym);
    var k :| IsFirstMin(xs, k) && c.cost.Get(s) == xs[k] && c.trace.Get(s) == Some(preds[k].0);
    var (q, out) := preds[k];
    assert preds[k] in preds;
    if q == p {
      PredecessorsExactly(g, s, q, out);
      var i :| 0 <= i < |g.adj.Get(q)| && g.adj.Get(q)[i] == Edge(s, out);
      assert i != b;
      assert out != sym;
      DistZeroIffEqual(out, sym);
    }
  }

  /** A general stage on the noise-free symbol of bit b from the only
      cost-0 state p keeps the walk: its successor becomes the only cost-0
      state, traced to p. */
  lemma LaterStageFollowsPath(g: Graph, prev: Row<nat>, p: State, b: Bit)
    requires WellFormed(g) && DistinctOutputs(g) && EveryStateEntered(g)
    requires UniqueZero(prev, p)
    ensures LaterStage(g, prev, g.adj.Get(p)[b].out).Ok?
    ensures UniqueZero(LaterStage(g, prev, g.adj.Get(p)[b].out).value.cost, g.adj.Get(p)[b].next)
    ensures LaterStage(g, prev, g.adj.Get(p)[b].out).value.trace.Get(g.adj.Get(p)[b].next) == Some(p)
  {
    var sym := g.adj.Get(p)[b].out;
    LaterStageRecurrence(g, prev, sym);
    var c := LaterStage(g, prev, sym).value;
    PathStateEntry(g, prev, p, b, c);
    forall s | s != g.adj.Get(p)[b].next
      ensures c.cost.Get(s) > 0
    {
      OffPathEntry(g, prev, p, b, s, c);
    }
  }

  /** The general stages, run on the noise-free symbols of `m` from a table
      whose last column has the walk's state as its only cost-0 state,
      succeed and trace the whole walk. */
  lemma {:induction false} LaterStagesFollowPath(g: Graph, m: seq<Bit>, syms: seq<seq<Bit>>, table0: seq<Column>)
    requires WellFormed(g) && DistinctOutputs(g) && EveryStateEntered(g)
    requires 2 <= |table0| <= |syms| == |m|
    requires forall t :: 0 <= t < |m| ==> syms[t] == g.adj.Get(Walk(g, m, t))[m[t]].out
    requires UniqueZero(table0[|table0| - 1].cost, Walk(g, m, |table0|))
    requires forall t :: 0 <= t < |table0| ==> table0[t].trace.Get(Walk(g, m, t + 1)) == Some(Walk(g, m, t))
    ensures LaterStages(g, syms, table0).Ok?
    ensures |LaterStages(g, syms, table0).value| == |m|
    ensures forall t :: 0 <= t < |m| ==>
      LaterStages(g, syms, table0).value[t].trace.Get(Walk(g, m, t + 1)) == Some(Walk(g, m, t))
    decreases |syms| - |table0|
  {
    var i := |table0|;
    if i < |syms| {
      FinalStateStep(g, S0, m, i);
      LaterStageFollowsPath(g, table0[i - 1].cost, Walk(g, m, i), m[i]);
      var c := LaterStage(g, table0[i - 1].cost, syms[i]).value;
      LaterStagesFollowPath(g, m, syms, table0 + [c]);
    }
  }

  lemma ReversedSnoc<T>(s: seq<T>, x: T)
    ensures Reversed(s + [x]) == [x] + Reversed(s)
  {
    assert forall k :: 0 <= k < |s| + 1 ==> Reversed(s + [x])[k] == ([x] + Reversed(s))[k];
  }

  /** Reversing twice gives the sequence back. */
  lemma ReversedTwice<T>(s: seq<T>)
    ensures Reversed(Reversed(s)) == s
  {
    assert forall k :: 0 <= k < |s| ==> Reversed(Reversed(s))[k] == s[k];
  }

  /** On a graph whose transitions out of a state lead to different
      states, the bit recovered from two consecutive states of the walk is
      the message bit between them. */
  lemma PathBit(g: Graph, m: seq<Bit>, i: nat)
    requires WellFormed(g) && DistinctNext(g)
    requires 1 <= i <= |m|
    ensures BitFor(g, Walk(g, m, i - 1), Walk(g, m, i)) == Ok(m[i - 1])
  {
    var p := Walk(g, m, i - 1);
    var s := Walk(g, m, i);
    FinalStateStep(g, S0, m, i - 1);
    BitForRecoversEdge(g, p, s);
    assert NextStates(g, p)[m[i - 1]] == s;
  }

  /** When every column traces the walk's state to the previous one and the
      two transitions out of a state differ in destination, the backtrace
      over i columns from the walk's i-th state emits the first i bits of
      `m`, latest first. */
  lemma {:induction false} TraceBackAlongPath(g: Graph, table: seq<Column>, m: seq<Bit>, i: nat, bits: seq<Bit>)
    requires WellFormed(g) && DistinctNext(g)
    requires i <= |table| && i <= |m|
    requires forall t :: 0 <= t < i ==> table[t].trace.Get(Walk(g, m, t + 1)) == Some(Walk(g, m, t))
    ensures TraceBackFrom(g, table, i, Walk(g, m, i), bits) == Ok(bits + Reversed(m[..i]))
  {
    if i == 0 {
      assert m[..0] == [];
      assert bits + Reversed(m[..0]) == bits;
    } else {
      var p := Walk(g, m, i - 1);
      var s := Walk(g, m, i);
      PathBit(g, m, i);
      assert table[i - 1].trace.Get(s) == Some(p);
      assert TraceBackFrom(g, table, i, s, bits) == TraceBackFrom(g, table, i - 1, p, bits + [m[i - 1]]);
      TraceBackAlongPath(g, table, m, i - 1, bits + [m[i - 1]]);
      assert m[..i] == m[..i - 1] + [m[i - 1]];
      ReversedSnoc(m[..i - 1], m[i - 1]);
      assert (bits + [m[i - 1]]) + Reversed(m[..i - 1]) == bits + ([m[i - 1]] + Reversed(m[..i - 1]));
    }
  }

  /** The noise-free received string splits into the walk's symbols, one per bit. */
  lemma EncodedSymbols(g: Graph, m: seq<Bit>)
    requires WellFormed(g)
    ensures |Segment(Encoding(g, S0, m))| == |m|
    ensures forall t :: 0 <= t < |m| ==> Segment(Encoding(g, S0, m))[t] == g.adj.Get(Walk(g, m, t))[m[t]].out
  {
    var r := Encoding(g, S0, m);
    EncodingLength(g, S0, m);
    var syms := Segment(r);
    forall t | 0 <= t < |m|
      ensures syms[t] == g.adj.Get(Walk(g, m, t))[m[t]].out
    {
      EncodingSymbol(g, S0, m, t);
      assert syms[t] == r[3 * t .. Min(3 * t + 3, |r|)];
    }
  }

  /** On the noise-free symbols, stages 1 and 2 trace the walk's first two
      steps and leave its state after two bits as the only one of cost 0. */
  lemma FirstColumnsFollowPath(g: Graph, m: seq<Bit>, syms: seq<seq<Bit>>)
    requires WellFormed(g)
    requires forall b0: Bit, b1: Bit :: FirstStagesFollowPath(g, b0, b1)
    requires |m| >= 2 && |syms| == |m|
    requires forall t :: 0 <= t < |m| ==> syms[t] == g.adj.Get(Walk(g, m, t))[m[t]].out
    ensures StageOne(g, syms[0]).Ok?
    ensures StageTwo(g, StageOne(g, syms[0]).value, syms[1]).Ok?
    ensures var first := StageOne(g, syms[0]).value;
      var second := StageTwo(g, first, syms[1]).value;
      && UniqueZero(second.cost, Walk(g, m, 2))
      && first.trace.Get(Walk(g, m, 1)) == Some(Walk(g, m, 0))
      && second.trace.Get(Walk(g, m, 2)) == Some(Walk(g, m, 1))
  {
    FinalStateStep(g, S0, m, 0);
    FinalStateStep(g, S0, m, 1);
    assert m[..0] == [];
    assert Walk(g, m, 0) == S0;
    assert FirstStagesFollowPath(g, m[0], m[1]);
  }

  /** On the noise-free symbols, the whole table traces the walk. */
  lemma TrellisFollowsPath(g: Graph, m: seq<Bit>, syms: seq<seq<Bit>>)
    requires WellFormed(g) && DistinctOutputs(g) && EveryStateEntered(g)
    requires forall b0: Bit, b1: Bit :: FirstStagesFollowPath(g, b0, b1)
    requires |m| >= 2 && |syms| == |m|
    requires forall t :: 0 <= t < |m| ==> syms[t] == g.adj.Get(Walk(g, m, t))[m[t]].out
    ensures TrellisOf(g, syms).Ok?
    ensures |TrellisOf(g, syms).value| == |m|
    ensures forall t :: 0 <= t < |m| ==> TrellisOf(g, syms).value[t].trace.Get(Walk(g, m, t + 1)) == Some(Walk(g, m, t))
  {
    FirstColumnsFollowPath(g, m, syms);
    var first := StageOne(g, syms[0]).value;
    var second := StageTwo(g, first, syms[1]).value;
    var table0 := [first, second];
    assert forall t :: 0 <= t < |table0| ==> table0[t].trace.Get(Walk(g, m, t + 1)) == Some(Walk(g, m, t));
    assert TrellisOf(g, syms) == LaterStages(g, syms, table0);
    LaterStagesFollowPath(g, m, syms, table0);
  }

  /** A table tracing the walk of `m`, when that walk returns to S0, is
      traced back from S0 to `m` reversed. */
  lemma TraceBackOfPathTable(g: Graph, table: seq<Column>, m: seq<Bit>)
    requires WellFormed(g) && DistinctNext(g)
    requires |table| == |m| && FinalState(g, S0, m) == S0
    requires forall t :: 0 <= t < |m| ==> table[t].trace.Get(Walk(g, m, t + 1)) == Some(Walk(g, m, t))
    ensures TraceBackFrom(g, table, |table|, S0, []) == Ok(Reversed(m))
  {
    assert m[..|m|] == m;
    TraceBackAlongPath(g, table, m, |m|, []);
    assert [] + Reversed(m) == Reversed(m);
  }

  /** A received string whose symbols are the outputs along the walk of
      `m`, when that walk returns to S0, is decoded as `m`. */
  lemma DecodeAlongPath(g: Graph, m: seq<Bit>, r: seq<Bit>)
    requires WellFormed(g) && DistinctOutputs(g) && DistinctNext(g) && EveryStateEntered(g)
    requires forall b0: Bit, b1: Bit :: FirstStagesFollowPath(g, b0, b1)
    requires |m| >= 2 && FinalState(g, S0, m) == S0
    requires |Segment(r)| == |m|
    requires forall t :: 0 <= t < |m| ==> Segment(r)[t] == g.adj.Get(Walk(g, m, t))[m[t]].out
    ensures Decoding(g, r) == Ok(m)
  {
    var syms := Segment(r);
    TrellisFollowsPath(g, m, syms);
    TraceBackOfPathTable(g, TrellisOf(g, syms).value, m);
    ReversedTwice(m);
  }

  /** The noise-free round trip: on such a graph, a message of at least two
      bits whose walk ends in S0 is decoded from its encoding unchanged. */
  lemma DecodeEncoded(g: Graph, m: seq<Bit>)
    requires WellFormed(g) && DistinctOutputs(g) && DistinctNext(g) && EveryStateEntered(g)
    requires forall b0: Bit, b1: Bit :: FirstStagesFollowPath(g, b0, b1)
    requires |m| >= 2 && FinalState(g, S0, m) == S0
    ensures Decoding(g, Encoding(g, S0, m)) == Ok(m)
  {
    EncodedSymbols(g, m);
    DecodeAlongPath(g, m, Encoding(g, S0, m));
  }
}
