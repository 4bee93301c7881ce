/** The rate-1/3, four-state graph the simulation script builds its
    `Viterbi` from, and the noise-free round trip on it. */
module MainGraph {
  import opened Trellis
  import opened Metrics
  import opened Graphs
  import opened Encoder
  import opened DecoderSpec
  import opened DecoderProps
  import opened RoundTrip

  /** Bit 0 and bit 1 out of S0, S1, S2, S3, keys in that order. */
  const G: Graph := Graph([S0, S1, S2, S3], Row(
    [Edge(S0, [0, 0, 0]), Edge(S1, [1, 1, 1])],
    [Edge(S2, [1, 0, 1]), Edge(S3, [0, 1, 0])],
    [Edge(S0, [0, 1, 1]), Edge(S1, [1, 0, 0])],
    [Edge(S2, [1, 1, 0]), Edge(S3, [0, 0, 1])]))

  lemma MainGraphWellFormed()
    ensures WellFormed(G)
  {
    forall s: State
      ensures s in G.order
    {
      match s
      case S0 => assert G.order[0] == s;
      case S1 => assert G.order[1] == s;
      case S2 => assert G.order[2] == s;
      case S3 => assert G.order[3] == s;
    }
  }

  /** The reverse transitions that leave `p` and enter `s`, in bit order. */
  function Into(p: State, s: State): seq<(State, seq<Bit>)>
  {
    var es := G.adj.Get(p);
    (if es[0].next == s then [(p, es[0].out)] else []) + (if es[1].next == s then [(p, es[1].out)] else [])
  }

  lemma EdgesIntoIsInto(p: State, s: State)
    ensures EdgesInto(p, G.adj.Get(p), s) == Into(p, s)
  {
    var es := G.adj.Get(p);
    assert es[1..] == [es[1]] && es[1..][1..] == [];
    assert EdgesInto(p, es[1..], s) == (if es[1].next == s then [(p, es[1].out)] else []) + EdgesInto(p, es[1..][1..], s);
  }

  lemma PredecessorsByKey(s: State)
    ensures Predecessors(G, s) == Into(S0, s) + (Into(S1, s) + (Into(S2, s) + Into(S3, s)))
  {
    var o := G.order;
    assert o[0..] == o && o[4..] == [];
    PredecessorsInStep(G, o, 3, s);
    EdgesIntoIsInto(S3, s);
    assert PredecessorsIn(G, o[3..], s) == Into(S3, s) + [];
    assert Into(S3, s) + [] == Into(S3, s);
    PredecessorsInStep(G, o, 2, s);
    EdgesIntoIsInto(S2, s);
    PredecessorsInStep(G, o, 1, s);
    EdgesIntoIsInto(S1, s);
    PredecessorsInStep(G, o, 0, s);
    EdgesIntoIsInto(S0, s);
  }

  /** The reverse transitions of each state as this graph defines them. */
  function ReverseTable(s: State): seq<(State, seq<Bit>)>
  {
    match s
    case S0 => [(S0, [0, 0, 0]), (S2, [0, 1, 1])]
    case S1 => [(S0, [1, 1, 1]), (S2, [1, 0, 0])]
    case S2 => [(S1, [1, 0, 1]), (S3, [1, 1, 0])]
    case S3 => [(S1, [0, 1, 0]), (S3, [0, 0, 1])]
  }

  /** The decoder lists each state's reverse transitions as in the table:
      key order, then bit order. */
  lemma MainGraphReverseTransitions(s: State)
    ensures Predecessors(G, s) == ReverseTable(s)
  {
    match s
    case S0 => ReverseTransitionsIntoS0();
    case S1 => ReverseTransitionsIntoS1();
    case S2 => ReverseTransitionsIntoS2();
    case S3 => ReverseTransitionsIntoS3();
  }

  lemma ReverseTransitionsIntoS0()
    ensures Predecessors(G, S0) == ReverseTable(S0)
  {
    PredecessorsByKey(S0);
    assert Into(S0, S0) == [(S0, [0, 0, 0])] && Into(S1, S0) == [] && Into(S2, S0) == [(S2, [0, 1, 1])] && Into(S3, S0) == [];
  }

  lemma ReverseTransitionsIntoS1()
    ensures Predecessors(G, S1) == ReverseTable(S1)
  {
    PredecessorsByKey(S1);
    assert Into(S0, S1) == [(S0, [1, 1, 1])] && Into(S1, S1) == [] && Into(S2, S1) == [(S2, [1, 0, 0])] && Into(S3, S1) == [];
  }

  lemma ReverseTransitionsIntoS2()
    ensures Predecessors(G, S2) == ReverseTable(S2)
  {
    PredecessorsByKey(S2);
    assert Into(S0, S2) == [] && Into(S1, S2) == [(S1, [1, 0, 1])] && Into(S2, S2) == [] && Into(S3, S2) == [(S3, [1, 1, 0])];
  }

  lemma ReverseTransitionsIntoS3()
    ensures Predecessors(G, S3) == ReverseTable(S3)
  {
    PredecessorsByKey(S3);
    assert Into(S0, S3) == [] && Into(S1, S3) == [(S1, [0, 1, 0])] && Into(S2, S3) == [] && Into(S3, S3) == [(S3, [0, 0, 1])];
  }

  /** Every state can be entered. */
  lemma MainGraphEntered()
    ensures EveryStateEntered(G)
  {
    forall s: State
      ensures Predecessors(G, s) != []
    {
      MainGraphReverseTransitions(s);
    }
  }

  /** The two symbols, and the two successors, of every state differ, and
      every state can be entered. */
  lemma MainGraphDecodable()
    ensures WellFormed(G)
    ensures DistinctOutputs(G) && DistinctNext(G) && EveryStateEntered(G)
  {
    MainGraphWellFormed();
    MainGraphEntered();
    forall s: State
      ensures G.adj.Get(s)[0].out != G.adj.Get(s)[1].out
    {
      assert G.adj.Get(s)[0].out[0] != G.adj.Get(s)[1].out[0];
    }
  }

  /** The distance of two symbols, position by position. */
  lemma DistOfSymbols(a: seq<Bit>, b: seq<Bit>)
    requires |a| == 3 && |b| == 3
    ensures Dist(a, b) == (if a[0] != b[0] then 1 else 0) + (if a[1] != b[1] then 1 else 0) + (if a[2] != b[2] then 1 else 0)
  {
    var a1, b1 := a[1..], b[1..];
    var a2, b2 := a1[1..], b1[1..];
    var a3, b3 := a2[1..], b2[1..];
    assert a3 == [] && Dist(a3, b3) == 0;
    assert Dist(a2, b2) == (if a[2] != b[2] then 1 else 0) + Dist(a3, b3);
    assert Dist(a1, b1) == (if a[1] != b[1] then 1 else 0) + Dist(a2, b2);
  }

  /** An overwriting pass over two transitions into different states. */
  lemma OverwriteTwo(p: State, es: seq<Edge>, prev: Row<nat>, sym: seq<Bit>, col: Column)
    requires |es| == 2 && es[0].next != es[1].next
    requires |es[0].out| == |sym| && |es[1].out| == |sym|
    ensures OverwriteFrom(p, es, prev, sym, col).Ok?
    ensures var c := OverwriteFrom(p, es, prev, sym, col).value;
      && (forall j :: 0 <= j < 2 ==> c.cost.Get(es[j].next) == prev.Get(p) + Dist(es[j].out, sym) && c.trace.Get(es[j].next) == Some(p))
      && (forall s :: s != es[0].next && s != es[1].next ==> c.cost.Get(s) == col.cost.Get(s) && c.trace.Get(s) == col.trace.Get(s))
  {
    OverwriteOk(p, es, prev, sym, col);
    OverwriteEffect(p, es, prev, sym, col, OverwriteFrom(p, es, prev, sym, col).value);
    assert IsLastEdgeTo(es, es[0].next, 0);
    assert IsLastEdgeTo(es, es[1].next, 1);
  }

  /** Stage 1 on this graph: S0 and S1 are traced to S0 at the distances of
      "000" and "111" to the first symbol; S2 and S3 keep cost 0 and no trace. */
  lemma MainStageOne(sym: seq<Bit>)
    requires |sym| == SymbolWidth
    ensures StageOne(G, sym).Ok?
    ensures var c := StageOne(G, sym).value;
      && c.cost == Row(Dist([0, 0, 0], sym), Dist([1, 1, 1], sym), 0, 0)
      && c.trace == Row(Some(S0), Some(S0), None, None)
  {
    OverwriteTwo(S0, G.adj.Get(S0), ZeroCosts, sym, Column(ZeroCosts, NoTraces));
    var c := StageOne(G, sym).value;
    assert c.cost.Get(S0) == Dist([0, 0, 0], sym) && c.cost.Get(S1) == Dist([1, 1, 1], sym);
    assert c.cost.Get(S2) == 0 && c.cost.Get(S3) == 0;
    assert c.trace.Get(S2) == None && c.trace.Get(S3) == None;
  }

  /** The two passes of stage 2 on this graph, S0's transitions then S1's. */
  lemma MainStageTwoPasses(first: Column, sym: seq<Bit>)
    requires |sym| == SymbolWidth
    ensures OverwriteFrom(S0, G.adj.Get(S0), first.cost, sym, first).Ok?
    ensures var c1 := OverwriteFrom(S0, G.adj.Get(S0), first.cost, sym, first).value;
      && StageTwo(G, first, sym) == OverwriteFrom(S1, G.adj.Get(S1), first.cost, sym, c1)
  {
    var ps := NextStates(G, S0);
    assert ps == [S0, S1];
    assert ps[1..] == [S1] && ps[1..][1..] == [];
    OverwriteOk(S0, G.adj.Get(S0), first.cost, sym, first);
    var c1 := OverwriteFrom(S0, G.adj.Get(S0), first.cost, sym, first).value;
    assert SecondStageFrom(G, ps, first.cost, sym, first) == SecondStageFrom(G, ps[1..], first.cost, sym, c1);
    OverwriteOk(S1, G.adj.Get(S1), first.cost, sym, c1);
  }

  /** The entries of stage 2 on this graph, pass by pass. */
  lemma MainStageTwoEntries(first: Column, sym: seq<Bit>)
    requires |sym| == SymbolWidth
    ensures StageTwo(G, first, sym).Ok?
    ensures var c := StageTwo(G, first, sym).value;
      && c.cost.Get(S0) == first.cost.Get(S0) + Dist(G.adj.Get(S0)[0].out, sym)
      && c.cost.Get(S1) == first.cost.Get(S0) + Dist(G.adj.Get(S0)[1].out, sym)
      && c.cost.Get(S2) == first.cost.Get(S1) + Dist(G.adj.Get(S1)[0].out, sym)
      && c.cost.Get(S3) == first.cost.Get(S1) + Dist(G.adj.Get(S1)[1].out, sym)
      && c.trace.Get(S0) == Some(S0) && c.trace.Get(S1) == Some(S0)
      && c.trace.Get(S2) == Some(S1) && c.trace.Get(S3) == Some(S1)
  {
    MainStageTwoPasses(first, sym);
    var e0, e1 := G.adj.Get(S0), G.adj.Get(S1);
    OverwriteTwo(S0, e0, first.cost, sym, first);
    var c1 := OverwriteFrom(S0, e0, first.cost, sym, first).value;
    OverwriteTwo(S1, e1, first.cost, sym, c1);
  }

  /** Stage 2 on this graph: S0's transitions write S0 and S1, S1's write S2
      and S3, so each state is written once, from the stage-1 cost of its
      only candidate source among S0 and S1. */
  lemma MainStageTwo(first: Column, sym: seq<Bit>)
    requires |sym| == SymbolWidth
    ensures StageTwo(G, first, sym).Ok?
    ensures var c := StageTwo(G, first, sym).value;
      && c.cost == Row(first.cost.s0 + Dist([0, 0, 0], sym), first.cost.s0 + Dist([1, 1, 1], sym),
                       first.cost.s1 + Dist([1, 0, 1], sym), first.cost.s1 + Dist([0, 1, 0], sym))
      && c.trace == Row(Some(S0), Some(S0), Some(S1), Some(S1))
  {
    MainStageTwoEntries(first, sym);
    var c := StageTwo(G, first, sym).value;
    assert c.cost == Row(c.cost.Get(S0), c.cost.Get(S1), c.cost.Get(S2), c.cost.Get(S3));
    assert c.trace == Row(c.trace.Get(S0), c.trace.Get(S1), c.trace.Get(S2), c.trace.Get(S3));
  }

  /** Message bits 0, 0: after stage 2 only S0 costs 0, traced to S0. */
  lemma FirstStagesZeroZero()
    ensures WellFormed(G) && FirstStagesFollowPath(G, 0, 0)
  {
    MainGraphWellFormed();
    MainStageOne([0, 0, 0]);
    DistOfSymbols([0, 0, 0], [0, 0, 0]);
    DistOfSymbols([1, 1, 1], [0, 0, 0]);
    DistOfSymbols([1, 0, 1], [0, 0, 0]);
    DistOfSymbols([0, 1, 0], [0, 0, 0]);
    var first := StageOne(G, [0, 0, 0]).value;
    MainStageTwo(first, [0, 0, 0]);
    assert StageTwo(G, first, [0, 0, 0]).value.cost == Row(0, 3, 5, 4);
  }

  /** Message bits 0, 1: after stage 2 only S1 costs 0, traced to S0. */
  lemma FirstStagesZeroOne()
    ensures WellFormed(G) && FirstStagesFollowPath(G, 0, 1)
  {
    MainGraphWellFormed();
    MainStageOne([0, 0, 0]);
    DistOfSymbols([0, 0, 0], [0, 0, 0]);
    DistOfSymbols([1, 1, 1], [0, 0, 0]);
    DistOfSymbols([0, 0, 0], [1, 1, 1]);
    DistOfSymbols([1, 1, 1], [1, 1, 1]);
    DistOfSymbols([1, 0, 1], [1, 1, 1]);
    DistOfSymbols([0, 1, 0], [1, 1, 1]);
    var first := StageOne(G, [0, 0, 0]).value;
    MainStageTwo(first, [1, 1, 1]);
    assert StageTwo(G, first, [1, 1, 1]).value.cost == Row(3, 0, 4, 5);
  }

  /** Message bits 1, 0: after stage 2 only S2 costs 0, traced to S1. */
  lemma FirstStagesOneZero()
    ensures WellFormed(G) && FirstStagesFollowPath(G, 1, 0)
  {
    MainGraphWellFormed();
    MainStageOne([1, 1, 1]);
    DistOfSymbols([0, 0, 0], [1, 1, 1]);
    DistOfSymbols([1, 1, 1], [1, 1, 1]);
    DistOfSymbols([0, 0, 0], [1, 0, 1]);
    DistOfSymbols([1, 1, 1], [1, 0, 1]);
    DistOfSymbols([1, 0, 1], [1, 0, 1]);
    DistOfSymbols([0, 1, 0], [1, 0, 1]);
    var first := StageOne(G, [1, 1, 1]).value;
    MainStageTwo(first, [1, 0, 1]);
    assert StageTwo(G, first, [1, 0, 1]).value.cost == Row(5, 4, 0, 3);
  }

  /** Message bits 1, 1: after stage 2 only S3 costs 0, traced to S1. */
  lemma FirstStagesOneOne()
    ensures WellFormed(G) && FirstStagesFollowPath(G, 1, 1)
  {
    MainGraphWellFormed();
    MainStageOne([1, 1, 1]);
    DistOfSymbols([0, 0, 0], [1, 1, 1]);
    DistOfSymbols([1, 1, 1], [1, 1, 1]);
    DistOfSymbols([0, 0, 0], [0, 1, 0]);
    DistOfSymbols([1, 1, 1], [0, 1, 0]);
    DistOfSymbols([1, 0, 1], [0, 1, 0]);
    DistOfSymbols([0, 1, 0], [0, 1, 0]);
    var first := StageOne(G, [1, 1, 1]).value;
    MainStageTwo(first, [0, 1, 0]);
    assert StageTwo(G, first, [0, 1, 0]).value.cost == Row(4, 5, 3, 0);
  }

  /** Stages 1 and 2 follow the walk for every choice of the first two bits. */
  lemma MainGraphFirstStages()
    ensures WellFormed(G)
    ensures forall b0: Bit, b1: Bit :: FirstStagesFollowPath(G, b0, b1)
  {
    MainGraphWellFormed();
    FirstStagesZeroZero();
    FirstStagesZeroOne();
    FirstStagesOneZero();
    FirstStagesOneOne();
    forall b0: Bit, b1: Bit
      ensures FirstStagesFollowPath(G, b0, b1)
    {
      if b0 == 0 && b1 == 0 {
      } else if b0 == 0 {
      } else if b1 == 0 {
      } else {
      }
    }
  }

  /** Two 0 bits take every state back to S0. */
  lemma FlushReturnsToS0(m: seq<Bit>)
    ensures WellFormed(G)
    ensures FinalState(G, S0, m + [0, 0]) == S0
  {
    MainGraphWellFormed();
    FinalStateSnoc(G, S0, m, 0);
    FinalStateSnoc(G, S0, m + [0], 0);
    assert (m + [0]) + [0] == m + [0, 0];
  }

  /** The noise-free round trip on this graph: a message is decoded from
      its encoding unchanged exactly when it has at least two bits and its
      walk ends in S0. */
  lemma RoundTripIff(m: seq<Bit>)
    ensures WellFormed(G)
    ensures Decoding(G, Encoding(G, S0, m)) == Ok(m) <==> |m| >= 2 && FinalState(G, S0, m) == S0
  {
    MainGraphWellFormed();
    if |m| >= 2 && FinalState(G, S0, m) == S0 {
      MainGraphDecodable();
      MainGraphFirstStages();
      DecodeEncoded(G, m);
    }
    if Decoding(G, Encoding(G, S0, m)) == Ok(m) {
      DecodedOwnEncoding(G, m);
    }
  }

  /** The simulation's use: any message with the flush bits "000" appended
      is decoded from its noise-free encoding unchanged. */
  lemma FlushedMessageRoundTrip(msg: seq<Bit>)
    ensures WellFormed(G)
    ensures Decoding(G, Encoding(G, S0, msg + [0, 0, 0])) == Ok(msg + [0, 0, 0])
  {
    FlushReturnsToS0(msg + [0]);
    assert (msg + [0]) + [0, 0] == msg + [0, 0, 0];
    RoundTripIff(msg + [0, 0, 0]);
  }

  /** One step of the worked example: one more bit moves the walk along one
      transition and appends that transition's symbol. */
  lemma ExampleStep(msg: seq<Bit>, b: Bit, msg': seq<Bit>, st: State, st': State, e: seq<Bit>, e': seq<Bit>)
    requires WellFormed(G)
    requires FinalState(G, S0, msg) == st && Encoding(G, S0, msg) == e
    requires msg' == msg + [b] && st' == G.adj.Get(st)[b].next && e' == e + G.adj.Get(st)[b].out
    ensures FinalState(G, S0, msg') == st' && Encoding(G, S0, msg') == e'
  {
    FinalStateSnoc(G, S0, msg, b);
    EncodingSnoc(G, S0, msg, b);
  }

  /** The worked example's message bits 1011 lead to S3 and emit
      111 101 100 010. */
  lemma ExampleMessagePart()
    ensures WellFormed(G)
    ensures FinalState(G, S0, [1, 0, 1, 1]) == S3
    ensures Encoding(G, S0, [1, 0, 1, 1]) == [1, 1, 1, 1, 0, 1, 1, 0, 0, 0, 1, 0]
  {
    MainGraphWellFormed();
    ExampleStep([], 1, [1], S0, S1, [], [1, 1, 1]);
    ExampleStep([1], 0, [1, 0], S1, S2, [1, 1, 1], [1, 1, 1, 1, 0, 1]);
    ExampleStep([1, 0], 1, [1, 0, 1], S2, S1, [1, 1, 1, 1, 0, 1], [1, 1, 1, 1, 0, 1, 1, 0, 0]);
    ExampleStep([1, 0, 1], 1, [1, 0, 1, 1], S1, S3, [1, 1, 1, 1, 0, 1, 1, 0, 0], [1, 1, 1, 1, 0, 1, 1, 0, 0, 0, 1, 0]);
  }

  /** The worked example: message 1011 with its flush bits encodes to
      111 101 100 010 110 011 000. */
  lemma ExampleCodeword()
    ensures WellFormed(G)
    ensures Encoding(G, S0, [1, 0, 1, 1, 0, 0, 0])
         == [1, 1, 1, 1, 0, 1, 1, 0, 0, 0, 1, 0, 1, 1, 0, 0, 1, 1, 0, 0, 0]
  {
    ExampleMessagePart();
    ExampleStep([1, 0, 1, 1], 0, [1, 0, 1, 1, 0], S3, S2, [1, 1, 1, 1, 0, 1, 1, 0, 0, 0, 1, 0], [1, 1, 1, 1, 0, 1, 1, 0, 0, 0, 1, 0, 1, 1, 0]);
    ExampleStep([1, 0, 1, 1, 0], 0, [1, 0, 1, 1, 0, 0], S2, S0, [1, 1, 1, 1, 0, 1, 1, 0, 0, 0, 1, 0, 1, 1, 0], [1, 1, 1, 1, 0, 1, 1, 0, 0, 0, 1, 0, 1, 1, 0, 0, 1, 1]);
    ExampleStep([1, 0, 1, 1, 0, 0], 0, [1, 0, 1, 1, 0, 0, 0], S0, S0, [1, 1, 1, 1, 0, 1, 1, 0, 0, 0, 1, 0, 1, 1, 0, 0, 1, 1], [1, 1, 1, 1, 0, 1, 1, 0, 0, 0, 1, 0, 1, 1, 0, 0, 1, 1, 0, 0, 0]);
  }

  /** ... and that codeword is decoded back to the message. */
  lemma ExampleDecodes()
    ensures WellFormed(G)
    ensures Decoding(G, [1, 1, 1, 1, 0, 1, 1, 0, 0, 0, 1, 0, 1, 1, 0, 0, 1, 1, 0, 0, 0]) == Ok([1, 0, 1, 1, 0, 0, 0])
  {
    var m := [1, 0, 1, 1] + [0, 0, 0];
    assert m == [1, 0, 1, 1, 0, 0, 0];
    FlushedMessageRoundTrip([1, 0, 1, 1]);
    ExampleCodeword();
  }
}
