/** What the encoder computes: the walk through the state machine driven by
    the message bits, and the concatenation of the symbols it emits. */
module Encoder {
  import opened Trellis

  /** The state reached from `s` after the bits of `msg`. */
  function FinalState(g: Graph, s: State, msg: seq<Bit>): State
    requires WellFormed(g)
  {
    if msg == [] then s
    else g.adj.Get(FinalState(g, s, msg[..|msg| - 1]))[msg[|msg| - 1]].next
  }

  /** The symbols emitted on the walk from `s` driven by `msg`, concatenated. */
  function Encoding(g: Graph, s: State, msg: seq<Bit>): seq<Bit>
    requires WellFormed(g)
  {
    if msg == [] then []
    else Encoding(g, s, msg[..|msg| - 1]) + g.adj.Get(FinalState(g, s, msg[..|msg| - 1]))[msg[|msg| - 1]].out
  }

  /** Every message bit becomes one full-width symbol. */
  lemma {:induction false} EncodingLength(g: Graph, s: State, msg: seq<Bit>)
    requires WellFormed(g)
    ensures |Encoding(g, s, msg)| == SymbolWidth * |msg|
  {
    if msg != [] {
      EncodingLength(g, s, msg[..|msg| - 1]);
    }
  }

  /** A bit appended to a message moves its final state along one transition. */
  lemma FinalStateSnoc(g: Graph, s: State, msg: seq<Bit>, b: Bit)
    requires WellFormed(g)
    ensures FinalState(g, s, msg + [b]) == g.adj.Get(FinalState(g, s, msg))[b].next
  {
    assert (msg + [b])[..|msg|] == msg;
  }

  /** A bit appended to a message appends the symbol of its transition. */
  lemma EncodingSnoc(g: Graph, s: State, msg: seq<Bit>, b: Bit)
    requires WellFormed(g)
    ensures Encoding(g, s, msg + [b]) == Encoding(g, s, msg) + g.adj.Get(FinalState(g, s, msg))[b].out
  {
    assert (msg + [b])[..|msg|] == msg;
  }

  /** One more bit extends the walk by one transition. */
  lemma FinalStateStep(g: Graph, s: State, msg: seq<Bit>, k: nat)
    requires WellFormed(g) && k < |msg|
    ensures FinalState(g, s, msg[..k + 1]) == g.adj.Get(FinalState(g, s, msg[..k]))[msg[k]].next
  {
    assert msg[..k + 1][..k] == msg[..k];
  }

  /** The first k symbols of an encoding are the encoding of the first k bits. */
  lemma {:induction false} EncodingPrefix(g: Graph, s: State, msg: seq<Bit>, k: nat)
    requires WellFormed(g) && k <= |msg|
    ensures SymbolWidth * k <= |Encoding(g, s, msg)|
    ensures Encoding(g, s, msg)[..SymbolWidth * k] == Encoding(g, s, msg[..k])
    decreases |msg|
  {
    EncodingLength(g, s, msg);
    if k < |msg| {
      var init := msg[..|msg| - 1];
      EncodingLength(g, s, init);
      EncodingPrefix(g, s, init, k);
      assert init[..k] == msg[..k];
      assert Encoding(g, s, msg)[..SymbolWidth * k] == Encoding(g, s, init)[..SymbolWidth * k];
    } else {
      assert msg[..k] == msg;
    }
  }

  /** The encoding is the concatenation of the symbols on the walk: its
      t-th symbol is the one emitted by bit t from the state the first t
      bits lead to. */
  lemma EncodingSymbol(g: Graph, s: State, msg: seq<Bit>, t: nat)
    requires WellFormed(g) && t < |msg|
    ensures SymbolWidth * t + SymbolWidth <= |Encoding(g, s, msg)|
    ensures Encoding(g, s, msg)[SymbolWidth * t .. SymbolWidth * t + SymbolWidth]
         == g.adj.Get(FinalState(g, s, msg[..t]))[msg[t]].out
  {
    EncodingPrefix(g, s, msg, t + 1);
    EncodingLength(g, s, msg[..t]);
    var p := msg[..t + 1];
    assert p[..|p| - 1] == msg[..t];
    var e := Encoding(g, s, msg);
    assert e[SymbolWidth * t .. SymbolWidth * t + SymbolWidth] == e[..SymbolWidth * (t + 1)][SymbolWidth * t ..];
  }
}
