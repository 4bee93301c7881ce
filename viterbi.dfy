/** The `Viterbi` class: an encoder that walks the state-machine graph and
    a hard-decision decoder that runs the Viterbi recurrence over it, plus
    the bit-flipping of the noisy channel. Every method is proved to compute
    the function of DecoderSpec, Encoder, Graphs, Metrics or Channel that
    states what it does. */
module Codec {
  import opened Trellis
  import opened Metrics
  import opened Graphs
  import opened Encoder
  import opened Channel
  import opened DecoderSpec

  class Viterbi {
    /** The state-machine graph; set once, never changed. */
    const graph: Graph

    constructor (graph: Graph)
      requires WellFormed(graph)
      ensures this.graph == graph
    {
      this.graph := graph;
    }

    /** `encode`: walk the graph from S0, one transition per message bit,
        and concatenate the emitted symbols. */
    method Encode(msgBits: seq<Bit>) returns (encodedBits: seq<Bit>)
      requires WellFormed(graph)
      ensures encodedBits == Encoding(graph, S0, msgBits)
      ensures |encodedBits| == SymbolWidth * |msgBits|
    {
      var state := S0;
      encodedBits := [];
      for i := 0 to |msgBits|
        invariant state == FinalState(graph, S0, msgBits[..i])
        invariant encodedBits == Encoding(graph, S0, msgBits[..i])
      {
        assert msgBits[..i + 1][..i] == msgBits[..i];
        encodedBits := encodedBits + graph.adj.Get(state)[msgBits[i]].out;
        state := graph.adj.Get(state)[msgBits[i]].next;
      }
      assert msgBits[..|msgBits|] == msgBits;
      EncodingLength(graph, S0, msgBits);
    }

    /** `__hamming_distance`: aborts on strings of different lengths,
        otherwise counts the positions at which they differ. */
    method HammingDistance(code1: seq<Bit>, code2: seq<Bit>) returns (r: Result<nat>)
      ensures |code1| != |code2| ==> r == Err(LengthMismatch)
      ensures |code1| == |code2| ==> r == Ok(Dist(code1, code2))
    {
      if |code1| != |code2| {
        return Err(LengthMismatch);
      }
      var dist := 0;
      for i := 0 to |code1|
        invariant dist + Dist(code1[i..], code2[i..]) == Dist(code1, code2)
      {
        assert code1[i..][1..] == code1[i + 1..] && code2[i..][1..] == code2[i + 1..];
        if code1[i] != code2[i] {
          dist := dist + 1;
        }
      }
      return Ok(dist);
    }

    /** `__backward_connected_vertex`: collect, key by key and bit by bit,
        every transition that enters `currentState`. */
    method BackwardConnectedVertex(currentState: State) returns (v: seq<(State, seq<Bit>)>)
      ensures v == Predecessors(graph, currentState)
    {
      v := [];
      var keys := graph.order;
      ghost var all := Predecessors(graph, currentState);
      for k := 0 to |keys|
        invariant v + PredecessorsIn(graph, keys[k..], currentState) == all
      {
        var prevState := keys[k];
        var nextStateInfos := graph.adj.Get(prevState);
        ghost var rest := PredecessorsIn(graph, keys[k + 1..], currentState);
        CollectKey(graph, keys, k, currentState, v, all);
        for i := 0 to |nextStateInfos|
          invariant v + (EdgesInto(prevState, nextStateInfos[i..], currentState) + rest) == all
        {
          if nextStateInfos[i].next == currentState {
            CollectTake(prevState, nextStateInfos, i, currentState, v, rest, all);
            v := v + [(prevState, nextStateInfos[i].out)];
          } else {
            CollectSkip(prevState, nextStateInfos, i, currentState, v, rest, all);
          }
        }
        CollectDone(prevState, nextStateInfos, currentState, v, rest, all);
      }
      assert keys[|keys|..] == [];
    }

    /** `__msg_bit_extract`: the first bit whose transition takes
        `prevState` to `currentState`; aborts when there is none. */
    method MsgBitExtract(prevState: State, currentState: State) returns (r: Result<Bit>)
      requires WellFormed(graph)
      ensures r == BitFor(graph, prevState, currentState)
    {
      var stateInfos := graph.adj.Get(prevState);
      for i := 0 to |stateInfos|
        invariant forall j :: 0 <= j < i ==> stateInfos[j].next != currentState
      {
        if stateInfos[i].next == currentState {
          return Ok(i);
        }
      }
      return Err(BitNotDecoded);
    }

    /** The inner loop of the first two stages: every transition of `p`
        overwrites its destination's cost and trace. */
    method RelaxEdges(p: State, cost: Row<nat>, symbol: seq<Bit>, col: Column) returns (r: Result<Column>)
      ensures r == OverwriteFrom(p, graph.adj.Get(p), cost, symbol, col)
    {
      var costNew, traceNew := col.cost, col.trace;
      var edges := graph.adj.Get(p);
      for i := 0 to |edges|
        invariant OverwriteFrom(p, edges[i..], cost, symbol, Column(costNew, traceNew))
               == OverwriteFrom(p, edges, cost, symbol, col)
      {
        assert edges[i..][1..] == edges[i + 1..];
        var nextState := edges[i];
        var d := HammingDistance(nextState.out, symbol);
        if d.Err? {
          return Err(d.error);
        }
        costNew := costNew.Set(nextState.next, cost.Get(p) + d.value);
        traceNew := traceNew.Set(nextState.next, Some(p));
      }
      assert edges[|edges|..] == [];
      return Ok(Column(costNew, traceNew));
    }

    /** Stage 2: every successor of S0 relaxes its transitions over a copy
        of stage 1's column, the last write to an entry winning. */
    method SecondStage(first: Column, symbol: seq<Bit>) returns (r: Result<Column>)
      ensures r == StageTwo(graph, first, symbol)
    {
      var col := first;
      var successors := NextStates(graph, S0);
      for n := 0 to |successors|
        invariant SecondStageFrom(graph, successors[n..], first.cost, symbol, col) == StageTwo(graph, first, symbol)
      {
        assert successors[n..][1..] == successors[n + 1..];
        var res := RelaxEdges(successors[n], first.cost, symbol, col);
        if res.Err? {
          return Err(res.error);
        }
        col := res.value;
      }
      assert successors[|successors|..] == [];
      return Ok(col);
    }

    /** The candidate costs of a general stage: the cost of each reverse
        transition's source plus its symbol's distance to the received one. */
    method CostCandidates(preds: seq<(State, seq<Bit>)>, cost: Row<nat>, symbol: seq<Bit>) returns (r: Result<seq<nat>>)
      ensures r == CandidateCosts(preds, cost, symbol)
    {
      var costTemp: seq<nat> := [];
      for j := 0 to |preds|
        invariant |costTemp| == j
        invariant forall i :: 0 <= i < j ==> |preds[i].1| == |symbol|
        invariant forall i :: 0 <= i < j ==> costTemp[i] == cost.Get(preds[i].0) + Dist(preds[i].1, symbol)
      {
        var d := HammingDistance(preds[j].1, symbol);
        if d.Err? {
          return Err(d.error);
        }
        costTemp := costTemp + [cost.Get(preds[j].0) + d.value];
      }
      assert costTemp == Candidates(preds, cost, symbol);
      return Ok(costTemp);
    }

    /** A stage from the third on: every state takes the cheapest of its
        reverse transitions, the first in list order on a tie. */
    method GeneralStage(cost: Row<nat>, symbol: seq<Bit>) returns (r: Result<Column>)
      ensures r == LaterStage(graph, cost, symbol)
    {
      var costNew, traceNew := ZeroCosts, NoTraces;
      var keys := graph.order;
      for n := 0 to |keys|
        invariant LaterStageFrom(graph, keys[n..], cost, symbol, Column(costNew, traceNew))
               == LaterStage(graph, cost, symbol)
      {
        assert keys[n..][1..] == keys[n + 1..];
        var thisState := keys[n];
        var preds := BackwardConnectedVertex(thisState);
        var candidates := CostCandidates(preds, cost, symbol);
        if candidates.Err? {
          return Err(candidates.error);
        }
        var costTemp := candidates.value;
        if costTemp == [] {
          return Err(NoPredecessor);
        }
        var k := FirstMinIndex(costTemp);
        costNew := costNew.Set(thisState, costTemp[k]);
        traceNew := traceNew.Set(thisState, Some(preds[k].0));
      }
      assert keys[|keys|..] == [];
      return Ok(Column(costNew, traceNew));
    }

    /** The trace-back: from S0 at the last stage, follow the trace table
        back to stage 1, emitting the bit of each transition taken. */
    method TraceBack(table: seq<Column>) returns (r: Result<seq<Bit>>)
      requires WellFormed(graph)
      ensures r == TraceBackFrom(graph, table, |table|, S0, [])
    {
      var currentState := S0;
      var msgBits: seq<Bit> := [];
      var i := |table|;
      while i > 0
        invariant 0 <= i <= |table|
        invariant TraceBackFrom(graph, table, i, currentState, msgBits) == TraceBackFrom(graph, table, |table|, S0, [])
      {
        var prevState := table[i - 1].trace.Get(currentState);
        if prevState.None? {
          return Err(UnknownTrace);
        }
        var msgBit := MsgBitExtract(prevState.value, currentState);
        if msgBit.Err? {
          return Err(msgBit.error);
        }
        msgBits := msgBits + [msgBit.value];
        currentState := prevState.value;
        i := i - 1;
      }
      return Ok(msgBits);
    }

    /** `decode`: split into symbols, run stage 1 (zero-seeded), stage 2
        (overwriting) and the general stages, then trace back and reverse. */
    method Decode(receivedBits: seq<Bit>) returns (r: Result<seq<Bit>>)
      requires WellFormed(graph)
      ensures r == Decoding(graph, receivedBits)
    {
      var symbols := Segment(receivedBits);
      if |symbols| == 0 {
        return Err(SymbolMissing);
      }
      var first := RelaxEdges(S0, ZeroCosts, symbols[0], Column(ZeroCosts, NoTraces));
      if first.Err? {
        return Err(first.error);
      }
      if |symbols| == 1 {
        return Err(SymbolMissing);
      }
      var second := SecondStage(first.value, symbols[1]);
      if second.Err? {
        return Err(second.error);
      }
      var table := [first.value, second.value];
      for stage := 2 to |symbols|
        invariant |table| == stage
        invariant LaterStages(graph, symbols, table) == TrellisOf(graph, symbols)
      {
        var next := GeneralStage(table[stage - 1].cost, symbols[stage]);
        if next.Err? {
          return Err(next.error);
        }
        table := table + [next.value];
      }
      var msgBits := TraceBack(table);
      if msgBits.Err? {
        return Err(msgBits.error);
      }
      return Ok(Reversed(msgBits.value));
    }

    /** `add_noise` with its random flip mask given: invert the bits the
        mask selects; the mask is returned alongside. */
    method AddNoise(encodedBits: seq<Bit>, flipBits: seq<Bit>) returns (receivedBits: seq<Bit>, flips: seq<Bit>)
      requires |flipBits| == |encodedBits|
      ensures receivedBits == Flipped(encodedBits, flipBits)
      ensures flips == flipBits
    {
      receivedBits := [];
      for i := 0 to |encodedBits|
        invariant |receivedBits| == i
        invariant forall k :: 0 <= k < i ==>
          receivedBits[k] == if flipBits[k] == 1 then 1 - encodedBits[k] else encodedBits[k]
      {
        if flipBits[i] == 1 {
          if encodedBits[i] == 1 {
            receivedBits := receivedBits + [0];
          } else {
            receivedBits := receivedBits + [1];
          }
        } else {
          receivedBits := receivedBits + [encodedBits[i]];
        }
      }
      flips := flipBits;
    }
  }
}
