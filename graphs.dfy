/** Queries on the state-machine graph: the transitions entering a state,
    the states a state leads to, and which input bit drives a transition. */
module Graphs {
  import opened Trellis

  /** The pairs (p, out) for the transitions among `es` (all leaving `p`)
      that enter `s`, in bit order. */
  function EdgesInto(p: State, es: seq<Edge>, s: State): seq<(State, seq<Bit>)>
  {
    if es == [] then []
    else (if es[0].next == s then [(p, es[0].out)] else []) + EdgesInto(p, es[1..], s)
  }

  /** One step of collecting the transitions into `s`, when the transition
      at `i` enters `s`: it moves from the pending part onto the collected
      part, and the whole stays the same. */
  lemma CollectTake(p: State, es: seq<Edge>, i: nat, s: State, done: seq<(State, seq<Bit>)>,
                    rest: seq<(State, seq<Bit>)>, all: seq<(State, seq<Bit>)>)
    requires i < |es| && es[i].next == s
    requires done + (EdgesInto(p, es[i..], s) + rest) == all
    ensures (done + [(p, es[i].out)]) + (EdgesInto(p, es[i + 1..], s) + rest) == all
  {
    var x := (p, es[i].out);
    var pending := EdgesInto(p, es[i + 1..], s);
    assert es[i..][1..] == es[i + 1..];
    assert EdgesInto(p, es[i..], s) == [x] + pending;
    assert done + (([x] + pending) + rest) == (done + [x]) + (pending + rest);
  }

  /** One step of collecting the transitions into `s`, when the transition
      at `i` enters some other state: it is dropped. */
  lemma CollectSkip(p: State, es: seq<Edge>, i: nat, s: State, done: seq<(State, seq<Bit>)>,
                    rest: seq<(State, seq<Bit>)>, all: seq<(State, seq<Bit>)>)
    requires i < |es| && es[i].next != s
    requires done + (EdgesInto(p, es[i..], s) + rest) == all
    ensures done + (EdgesInto(p, es[i + 1..], s) + rest) == all
  {
    assert es[i..][1..] == es[i + 1..];
    assert EdgesInto(p, es[i..], s) == EdgesInto(p, es[i + 1..], s);
  }

  /** Once every transition of the key is looked at, nothing is pending. */
  lemma CollectDone(p: State, es: seq<Edge>, s: State, done: seq<(State, seq<Bit>)>,
                    rest: seq<(State, seq<Bit>)>, all: seq<(State, seq<Bit>)>)
    requires done + (EdgesInto(p, es[|es|..], s) + rest) == all
    ensures done + rest == all
  {
    assert es[|es|..] == [];
    assert EdgesInto(p, [], s) + rest == rest;
  }

  /** The transitions entering `s` from the states `keys`, key by key. */
  function PredecessorsIn(g: Graph, keys: seq<State>, s: State): seq<(State, seq<Bit>)>
  {
    if keys == [] then []
    else EdgesInto(keys[0], g.adj.Get(keys[0]), s) + PredecessorsIn(g, keys[1..], s)
  }

  lemma PredecessorsInStep(g: Graph, keys: seq<State>, k: nat, s: State)
    requires k < |keys|
    ensures PredecessorsIn(g, keys[k..], s)
         == EdgesInto(keys[k], g.adj.Get(keys[k]), s) + PredecessorsIn(g, keys[k + 1..], s)
  {
    assert keys[k..][1..] == keys[k + 1..];
  }

  /** Starting on key `k`: its transitions become the pending part. */
  lemma CollectKey(g: Graph, keys: seq<State>, k: nat, s: State, done: seq<(State, seq<Bit>)>, all: seq<(State, seq<Bit>)>)
    requires k < |keys|
    requires done + PredecessorsIn(g, keys[k..], s) == all
    ensures done + (EdgesInto(keys[k], g.adj.Get(keys[k])[0..], s) + PredecessorsIn(g, keys[k + 1..], s)) == all
  {
    PredecessorsInStep(g, keys, k, s);
    assert g.adj.Get(keys[k])[0..] == g.adj.Get(keys[k]);
  }

  /** `__backward_connected_vertex`: every (previous state, output symbol)
      of a transition entering `s`, in key order and then in bit order. */
  function Predecessors(g: Graph, s: State): seq<(State, seq<Bit>)>
  {
    PredecessorsIn(g, g.order, s)
  }

  /** `__next_state`: the destinations of the transitions leaving `p`, in bit order. */
  function NextStates(g: Graph, p: State): seq<State>
  {
    seq(|g.adj.Get(p)|, i requires 0 <= i < |g.adj.Get(p)| => g.adj.Get(p)[i].next)
  }

  /** `s` is a next state of `p` exactly when one of `p`'s transitions enters it. */
  lemma NextStatesMembers(g: Graph, p: State, s: State)
    ensures |NextStates(g, p)| == |g.adj.Get(p)|
    ensures s in NextStates(g, p) <==> exists i :: 0 <= i < |g.adj.Get(p)| && g.adj.Get(p)[i].next == s
  {
    var es := g.adj.Get(p);
    if s in NextStates(g, p) {
      var i :| 0 <= i < |es| && NextStates(g, p)[i] == s;
      assert es[i].next == s;
    }
    if i :| 0 <= i < |es| && es[i].next == s {
      assert NextStates(g, p)[i] == s;
    }
  }

  lemma {:induction false} EdgesIntoExactly(p: State, es: seq<Edge>, s: State, x: (State, seq<Bit>))
    ensures x in EdgesInto(p, es, s) <==> x.0 == p && exists i :: 0 <= i < |es| && es[i] == Edge(s, x.1)
  {
    if es != [] {
      EdgesIntoExactly(p, es[1..], s, x);
      if x.0 == p && (exists i :: 0 <= i < |es| && es[i] == Edge(s, x.1)) {
        var i :| 0 <= i < |es| && es[i] == Edge(s, x.1);
        if i > 0 {
          assert es[1..][i - 1] == es[i];
        }
      }
      if x in EdgesInto(p, es[1..], s) {
        var i :| 0 <= i < |es[1..]| && es[1..][i] == Edge(s, x.1);
        assert es[i + 1] == Edge(s, x.1);
      }
    }
  }

  lemma {:induction false} PredecessorsInExactly(g: Graph, keys: seq<State>, s: State, x: (State, seq<Bit>))
    ensures x in PredecessorsIn(g, keys, s) <==>
      x.0 in keys && exists i :: 0 <= i < |g.adj.Get(x.0)| && g.adj.Get(x.0)[i] == Edge(s, x.1)
  {
    if keys != [] {
      EdgesIntoExactly(keys[0], g.adj.Get(keys[0]), s, x);
      PredecessorsInExactly(g, keys[1..], s, x);
      assert keys == [keys[0]] + keys[1..];
    }
  }

  /** The reverse transitions are exactly the transitions of the graph:
      (p, out) is listed for `s` iff some bit takes `p` to `s` emitting `out`. */
  lemma PredecessorsExactly(g: Graph, s: State, p: State, out: seq<Bit>)
    requires WellFormed(g)
    ensures (p, out) in Predecessors(g, s) <==>
      exists i :: 0 <= i < |g.adj.Get(p)| && g.adj.Get(p)[i] == Edge(s, out)
  {
    PredecessorsInExactly(g, g.order, s, (p, out));
  }

  /** Every listed reverse transition carries a full-width symbol. */
  lemma PredecessorOutputsFit(g: Graph, s: State)
    requires WellFormed(g)
    ensures forall j :: 0 <= j < |Predecessors(g, s)| ==> |Predecessors(g, s)[j].1| == SymbolWidth
  {
    forall j | 0 <= j < |Predecessors(g, s)|
      ensures |Predecessors(g, s)[j].1| == SymbolWidth
    {
      var x := Predecessors(g, s)[j];
      PredecessorsInExactly(g, g.order, s, x);
    }
  }

  /** `__next_state` and `__backward_connected_vertex` describe the same
      transitions from the two ends. */
  lemma NextStatesAreReverseTransitions(g: Graph, p: State, s: State)
    requires WellFormed(g)
    ensures s in NextStates(g, p) <==> exists out :: (p, out) in Predecessors(g, s)
  {
    var es := g.adj.Get(p);
    if s in NextStates(g, p) {
      var i :| 0 <= i < |es| && NextStates(g, p)[i] == s;
      PredecessorsExactly(g, s, p, es[i].out);
    }
    if exists out :: (p, out) in Predecessors(g, s) {
      var out :| (p, out) in Predecessors(g, s);
      PredecessorsExactly(g, s, p, out);
      var i :| 0 <= i < |es| && es[i] == Edge(s, out);
      assert NextStates(g, p)[i] == s;
    }
  }

  /** The first bit (index) whose transition leads to `s`, if any. */
  function FirstEdgeTo(es: seq<Edge>, s: State): (r: Option<nat>)
    ensures r.Some? ==> r.value < |es| && es[r.value].next == s
    ensures r.Some? ==> forall j :: 0 <= j < r.value ==> es[j].next != s
    ensures r.None? <==> forall j :: 0 <= j < |es| ==> es[j].next != s
  {
    if es == [] then None
    else if es[0].next == s then Some(0)
    else match FirstEdgeTo(es[1..], s)
      case None => None
      case Some(i) => Some(i + 1)
  }

  /** `__msg_bit_extract`: the input bit that moves `p` to `s`, or an abort
      when no transition of `p` leads to `s`. */
  function BitFor(g: Graph, p: State, s: State): (r: Result<Bit>)
    requires WellFormed(g)
  {
    match FirstEdgeTo(g.adj.Get(p), s)
    case None => Err(BitNotDecoded)
    case Some(i) => Ok(i)
  }

  /** The recovered bit is the smallest one whose transition from `p` reaches
      `s`; the abort happens exactly when there is none. */
  lemma BitForRecoversEdge(g: Graph, p: State, s: State)
    requires WellFormed(g)
    ensures BitFor(g, p, s).Ok? <==> s in NextStates(g, p)
    ensures BitFor(g, p, s).Err? ==> BitFor(g, p, s).error == BitNotDecoded
    ensures BitFor(g, p, s).Ok? ==>
      var b := BitFor(g, p, s).value;
      g.adj.Get(p)[b].next == s && forall j :: 0 <= j < b ==> g.adj.Get(p)[j].next != s
  {
    var es := g.adj.Get(p);
    NextStatesMembers(g, p, s);
    if s in NextStates(g, p) {
      var i :| 0 <= i < |es| && es[i].next == s;
      assert es[i].next == s;
    }
  }
}
