/** What `decode` computes, written stage by stage in the order the source
    runs it, aborts included. Each fold is stated on the work that remains,
    so that a loop over the same items keeps it as its invariant. */
module DecoderSpec {
  import opened Trellis
  import opened Metrics
  import opened Graphs

  /** One column of the cost table and of the trace table. */
  datatype Column = Column(cost: Row<nat>, trace: Row<Option<State>>)

  /** The costs every state starts from: 0, not infinity. */
  const ZeroCosts: Row<nat> := Row(0, 0, 0, 0)

  /** The trace entries every state starts from: unset (the empty string). */
  const NoTraces: Row<Option<State>> := Row(None, None, None, None)

  function Min(a: int, b: int): int
  {
    if a <= b then a else b
  }

  /** The symbols of `r[3..]` are those of `r` from the second on. */
  lemma SegmentShift(r: seq<Bit>, rest: seq<seq<Bit>>)
    requires |r| > 3 && |rest| == (|r| - 1) / 3
    requires forall k :: 0 <= k < |rest| ==> rest[k] == r[3..][3 * k .. Min(3 * k + 3, |r| - 3)]
    ensures forall k :: 1 <= k < 1 + |rest| ==> rest[k - 1] == r[3 * k .. Min(3 * k + 3, |r|)]
  {
    forall k | 1 <= k < 1 + |rest|
      ensures rest[k - 1] == r[3 * k .. Min(3 * k + 3, |r|)]
    {
      assert rest[k - 1] == r[3..][3 * (k - 1) .. Min(3 * (k - 1) + 3, |r| - 3)];
    }
  }

  /** The received bits split into consecutive symbols of three bits; the
      last one is shorter when the length is not a multiple of three. */
  function Segment(r: seq<Bit>): (syms: seq<seq<Bit>>)
    ensures |syms| == (|r| + 2) / 3
    ensures forall k :: 0 <= k < |syms| ==> syms[k] == r[3 * k .. Min(3 * k + 3, |r|)]
    decreases |r|
  {
    if |r| == 0 then []
    else if |r| <= 3 then [r]
    else
      var rest := Segment(r[3..]);
      SegmentShift(r, rest);
      [r[..3]] + rest
  }

  /** The inner loop of the first two stages: each transition of `p` in
      `es`, in bit order, overwrites its destination's entry with the cost
      of `p` plus the transition's distance to `sym` (no minimum is taken). */
  function OverwriteFrom(p: State, es: seq<Edge>, prev: Row<nat>, sym: seq<Bit>, col: Column): Result<Column>
  {
    if es == [] then Ok(col)
    else if |es[0].out| != |sym| then Err(LengthMismatch)
    else
      var c := Column(col.cost.Set(es[0].next, prev.Get(p) + Dist(es[0].out, sym)),
                      col.trace.Set(es[0].next, Some(p)));
      OverwriteFrom(p, es[1..], prev, sym, c)
  }

  /** Stage 1: only the transitions out of S0 are relaxed, from zero costs. */
  function StageOne(g: Graph, sym: seq<Bit>): Result<Column>
  {
    OverwriteFrom(S0, g.adj.Get(S0), ZeroCosts, sym, Column(ZeroCosts, NoTraces))
  }

  /** Stage 2's outer loop over the states `ps`. */
  function SecondStageFrom(g: Graph, ps: seq<State>, prev: Row<nat>, sym: seq<Bit>, col: Column): Result<Column>
  {
    if ps == [] then Ok(col)
    else match OverwriteFrom(ps[0], g.adj.Get(ps[0]), prev, sym, col)
      case Err(e) => Err(e)
      case Ok(c) => SecondStageFrom(g, ps[1..], prev, sym, c)
  }

  /** Stage 2: the transitions out of S0's successors overwrite a copy of
      stage 1's column, reading stage 1's costs. */
  function StageTwo(g: Graph, first: Column, sym: seq<Bit>): Result<Column>
  {
    SecondStageFrom(g, NextStates(g, S0), first.cost, sym, first)
  }

  /** The candidate costs of the reverse transitions `preds` into a state. */
  function Candidates(preds: seq<(State, seq<Bit>)>, prev: Row<nat>, sym: seq<Bit>): (xs: seq<nat>)
    ensures |xs| == |preds|
    ensures forall j :: 0 <= j < |preds| ==> xs[j] == prev.Get(preds[j].0) + Dist(preds[j].1, sym)
  {
    seq(|preds|, j requires 0 <= j < |preds| => prev.Get(preds[j].0) + Dist(preds[j].1, sym))
  }

  /** The candidate list as the source builds it: it aborts at the first
      symbol of the wrong width. */
  function CandidateCosts(preds: seq<(State, seq<Bit>)>, prev: Row<nat>, sym: seq<Bit>): Result<seq<nat>>
  {
    if exists j :: 0 <= j < |preds| && |preds[j].1| != |sym| then Err(LengthMismatch)
    else Ok(Candidates(preds, prev, sym))
  }

  /** `k` is the first position of the minimum of `xs`. */
  predicate IsFirstMin(xs: seq<nat>, k: int)
  {
    && 0 <= k < |xs|
    && (forall j :: 0 <= j < |xs| ==> xs[k] <= xs[j])
    && (forall j :: 0 <= j < k ==> xs[k] < xs[j])
  }

  /** `cost_temp.index(min(cost_temp))`: the first position of the minimum. */
  function FirstMinIndex(xs: seq<nat>): (k: nat)
    requires |xs| > 0
    ensures IsFirstMin(xs, k)
  {
    if |xs| == 1 then 0
    else
      var k := FirstMinIndex(xs[..|xs| - 1]);
      if xs[|xs| - 1] < xs[k] then |xs| - 1 else k
  }

  /** A general stage's loop over the states `ss`. */
  function LaterStageFrom(g: Graph, ss: seq<State>, prev: Row<nat>, sym: seq<Bit>, col: Column): Result<Column>
  {
    if ss == [] then Ok(col)
    else
      var preds := Predecessors(g, ss[0]);
      match CandidateCosts(preds, prev, sym)
      case Err(e) => Err(e)
      case Ok(xs) =>
        if xs == [] then Err(NoPredecessor)
        else
          var k := FirstMinIndex(xs);
          var c := Column(col.cost.Set(ss[0], xs[k]), col.trace.Set(ss[0], Some(preds[k].0)));
          LaterStageFrom(g, ss[1..], prev, sym, c)
  }

  /** A stage from the third on: every state, in key order, takes the
      cheapest reverse transition, the first one on a tie. The column
      starts empty; every state is a key, so every entry is filled. */
  function LaterStage(g: Graph, prev: Row<nat>, sym: seq<Bit>): Result<Column>
  {
    LaterStageFrom(g, g.order, prev, sym, Column(ZeroCosts, NoTraces))
  }

  /** The stages from |table| + 1 on, each appended to `table`. */
  function LaterStages(g: Graph, syms: seq<seq<Bit>>, table: seq<Column>): Result<seq<Column>>
    requires 0 < |table| <= |syms|
    decreases |syms| - |table|
  {
    if |table| == |syms| then Ok(table)
    else match LaterStage(g, table[|table| - 1].cost, syms[|table|])
      case Err(e) => Err(e)
      case Ok(c) => LaterStages(g, syms, table + [c])
  }

  /** The whole cost/trace table, one column per symbol. Stages 1 and 2 read
      symbols 0 and 1 whatever the input's length. */
  function TrellisOf(g: Graph, syms: seq<seq<Bit>>): Result<seq<Column>>
  {
    if |syms| == 0 then Err(SymbolMissing)
    else match StageOne(g, syms[0])
      case Err(e) => Err(e)
      case Ok(first) =>
        if |syms| == 1 then Err(SymbolMissing)
        else match StageTwo(g, first, syms[1])
          case Err(e) => Err(e)
          case Ok(second) => LaterStages(g, syms, [first, second])
  }

  /** The backtrace over the columns table[i-1], ..., table[0], from state
      `cur`; the recovered bits are appended to `bits` latest first. */
  function TraceBackFrom(g: Graph, table: seq<Column>, i: nat, cur: State, bits: seq<Bit>): Result<seq<Bit>>
    requires WellFormed(g) && i <= |table|
  {
    if i == 0 then Ok(bits)
    else match table[i - 1].trace.Get(cur)
      case None => Err(UnknownTrace)
      case Some(p) =>
        match BitFor(g, p, cur)
        case Err(e) => Err(e)
        case Ok(b) => TraceBackFrom(g, table, i - 1, p, bits + [b])
  }

  /** `s[::-1]`. */
  function Reversed<T>(s: seq<T>): (r: seq<T>)
    ensures |r| == |s|
    ensures forall k :: 0 <= k < |s| ==> r[k] == s[|s| - 1 - k]
  {
    if s == [] then [] else Reversed(s[1..]) + [s[0]]
  }

  /** `decode`: build the table, trace back from S0 at the last stage,
      and reverse the recovered bits. */
  function Decoding(g: Graph, received: seq<Bit>): Result<seq<Bit>>
    requires WellFormed(g)
  {
    match TrellisOf(g, Segment(received))
    case Err(e) => Err(e)
    case Ok(table) =>
      match TraceBackFrom(g, table, |table|, S0, [])
      case Err(e) => Err(e)
      case Ok(bits) => Ok(Reversed(bits))
  }
}
