/** The vocabulary shared by the encoder and the decoder: the four states of
    the convolutional code's state machine, bits, transitions, the graph
    itself, per-state tables, and the ways a call can fail. */
module Trellis {

  /** The decoder hard-codes exactly these four state names. */
  datatype State = S0 | S1 | S2 | S3

  /** One bit of a message, of a code word or of a flip mask. */
  type Bit = b: int | 0 <= b <= 1

  /** Width of every output symbol: the code has rate 1/3. */
  const SymbolWidth: nat := 3

  /** A transition: the state it leads to and the symbol it emits. */
  datatype Edge = Edge(next: State, out: seq<Bit>)

  /** A dictionary keyed by the four state names, one entry per state. */
  datatype Row<T> = Row(s0: T, s1: T, s2: T, s3: T)
  {
    function Get(s: State): T
    {
      match s
      case S0 => s0
      case S1 => s1
      case S2 => s2
      case S3 => s3
    }

    /** The same dictionary with the entry of `s` replaced by `v`. */
    function Set(s: State, v: T): (r: Row<T>)
      ensures r.Get(s) == v
      ensures forall t :: t != s ==> r.Get(t) == Get(t)
    {
      match s
      case S0 => this.(s0 := v)
      case S1 => this.(s1 := v)
      case S2 => this.(s2 := v)
      case S3 => this.(s3 := v)
    }
  }

  /** The state-machine graph: `adj.Get(s)[b]` is the transition taken from
      `s` on input bit `b`; `order` is the order in which the dictionary's
      keys are iterated (its insertion order). */
  datatype Graph = Graph(order: seq<State>, adj: Row<seq<Edge>>)

  /** A graph the encoder and the decoder can run on: every state is a key,
      listed once; every state has one transition per bit; every symbol
      has the width the decoder splits its input into. */
  predicate WellFormed(g: Graph)
  {
    && |g.order| == 4
    && (forall s: State :: s in g.order)
    && (forall i, j :: 0 <= i < j < |g.order| ==> g.order[i] != g.order[j])
    && (forall s: State :: |g.adj.Get(s)| == 2)
    && (forall s: State, i :: 0 <= i < |g.adj.Get(s)| ==> |g.adj.Get(s)[i].out| == SymbolWidth)
  }

  /** Why a call aborts: `sys.exit` in the Hamming distance (LengthMismatch),
      an index past the last received symbol (SymbolMissing), `min` of an
      empty candidate list (NoPredecessor), an unset trace entry looked up
      as a state (UnknownTrace), the bit-recovery exit (BitNotDecoded), and
      division by a zero length (ZeroLength). */
  datatype Error =
    | LengthMismatch
    | SymbolMissing
    | NoPredecessor
    | UnknownTrace
    | BitNotDecoded
    | ZeroLength

  datatype Result<T> = Ok(value: T) | Err(error: Error)

  datatype Option<T> = None | Some(value: T)
}
