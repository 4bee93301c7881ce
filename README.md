# Viterbi encoder/decoder for a rate-1/3 convolutional code

This project models the `Viterbi` class of `Code/viterbi.py` in Dafny. That class simulates a convolutional error-correcting code over a binary symmetric channel. It pairs a state-machine encoder with a hard-decision Viterbi decoder:

- **Encoder.** It walks the state machine from `S0`. Each message bit picks one of the current state's two transitions, and that transition's 3-bit symbol is appended to the code word.
- **Decoder.** It splits the received bits into 3-bit symbols and fills a cost/trace table stage by stage:
  - stage 1 is seeded with zero costs;
  - stage 2 overwrites entries, the last write winning;
  - every later stage takes the minimum over reverse transitions, the first one in list order on a tie.

  It then traces back from `S0` at the last stage and reverses the recovered bits.
- **Channel.** It inverts the bits a flip mask selects.

The model is organised as follows:

- **`Trellis`**: the shared vocabulary.
  - The four states are a datatype. Bits are `0..1`.
  - A state-keyed dictionary is the record `Row`.
  - The graph is the key order plus one transition list per state.
  - Every way a call can abort is an `Error`.
- **`Codec.Viterbi`**: a class whose methods keep the source's loops. Each method is proved to compute a specification function.
- **Specification functions and their properties:**
  - `Encoder`: the walk and the code word.
  - `Metrics`: the Hamming distance and the error rate.
  - `Graphs`: reverse transitions, next states and bit recovery.
  - `DecoderSpec`: segmentation, the three kinds of stage, the table, the backtrace and the decoding.
  - `Channel`: flipping.
  - `DecoderProps`: what each stage, the table and the backtrace guarantee.
- **`RoundTrip`**: the noise-free round trip on any graph with the right shape.
- **`MainGraph`**: the concrete graph of `Code/main.py:8-12`.
  - It shows that the general conditions hold for that graph.
  - It proves that every message flushed with `000` (`Code/main.py:34`) decodes from its encoding unchanged.

The model follows the code as written, not the textbook Viterbi decoder:

- Costs are seeded with 0 for every state (`Code/viterbi.py:82`), not infinity.
- Stages 1 and 2 are special cases without a minimum.
- The backtrace always starts at `S0`; it does not start from the cheapest final state.

On the graph of `main.py`, the zero seeding has no visible effect: stage 2 writes every state, and it reads only the costs stage 1 actually wrote.

## Model

| member | source | states |
|---|---|---|
| Codec.Viterbi.constructor | Code/viterbi.py:12-14 | the decoder keeps the graph it is given |
| Codec.Viterbi.Encode | Code/viterbi.py:16-24 | the loop returns the walk's code word, 3 bits per message bit |
| Encoder.EncodingLength | Code/viterbi.py:16-24 | the encoding of n bits has 3n bits |
| Encoder.EncodingPrefix | Code/viterbi.py:16-24 | the first 3k bits of an encoding are the encoding of the first k message bits |
| Encoder.EncodingSymbol | Code/viterbi.py:16-24 | symbol t of the encoding is the output of bit t from the state the first t bits lead to |
| Encoder.EncodingSnoc | Code/viterbi.py:20-23 | one more bit appends the symbol of the transition it takes |
| Encoder.FinalStateSnoc | Code/viterbi.py:20-23 | one more bit moves the walk along its transition |
| Codec.Viterbi.HammingDistance | Code/viterbi.py:26-36 | different lengths abort with LengthMismatch; otherwise the loop's count is the distance |
| Metrics.DistCountsDifferences | Code/viterbi.py:32-36 | the distance is the number of positions where the strings differ |
| Metrics.DistZeroIffEqual | Code/viterbi.py:26-36 | equal-length strings are at distance 0 exactly when they are equal |
| Metrics.DistSymmetric | Code/viterbi.py:33-36 | the distance does not depend on argument order |
| Metrics.DistBounded | Code/viterbi.py:33-36 | the distance is at most either length |
| Metrics.ErrorRateBounds | Code/viterbi.py:152-153 | the error rate lies in [0, 1]; it is 0 exactly when the strings are equal; different lengths give LengthMismatch |
| Codec.Viterbi.BackwardConnectedVertex | Code/viterbi.py:38-49 | the nested loops build exactly the reverse-transition list, key order then bit order |
| Graphs.EdgesIntoExactly | Code/viterbi.py:44-48 | a pair is collected from one key exactly when one of that key's transitions enters the state with that symbol |
| Graphs.PredecessorsInExactly | Code/viterbi.py:42-48 | over any key list, a pair is collected exactly when its key is listed and has such a transition |
| Graphs.PredecessorsExactly | Code/viterbi.py:38-49 | (p, out) is a reverse transition of s exactly when some transition of p is (s, out) |
| Graphs.PredecessorOutputsFit | Code/viterbi.py:48 | every collected symbol has width 3 |
| Graphs.NextStatesMembers | Code/viterbi.py:51-53 | there is one next state per transition of p, and s is among them exactly when some transition of p enters s |
| Graphs.NextStatesAreReverseTransitions | Code/viterbi.py:51-53 | s is a next state of p exactly when p appears among s's reverse transitions |
| Graphs.FirstEdgeTo | Code/viterbi.py:57-60 | returns the smallest index whose transition enters the state; None exactly when there is none |
| Codec.Viterbi.MsgBitExtract | Code/viterbi.py:55-64 | the loop returns the first bit leading from p to s; otherwise it aborts |
| Graphs.BitForRecoversEdge | Code/viterbi.py:55-64 | a bit is recovered exactly when s is a next state of p; it leads there and is the first that does; otherwise the result is BitNotDecoded |
| DecoderSpec.Segment | Code/viterbi.py:71 | symbol k is bits 3k to 3k+3, cut short at the end; there are ceil(len/3) symbols |
| Codec.Viterbi.RelaxEdges | Code/viterbi.py:90-93 | the inner loop of stages 1 and 2 computes the overwrite of every transition of one state |
| DecoderProps.OverwriteOk | Code/viterbi.py:90-92 | the overwrite succeeds exactly when every output has the symbol's width; a failure is LengthMismatch |
| DecoderProps.OverwriteEffect | Code/viterbi.py:90-93 | an untouched state keeps its entry; the last transition into a state sets its cost and trace |
| DecoderProps.StageOneOk | Code/viterbi.py:85-98 | stage 1 succeeds exactly when the first symbol is full width |
| DecoderProps.StageOneEffect | Code/viterbi.py:82-98 | non-successors of S0 keep cost 0 and no trace; successors get the distance of the last transition into them; every trace is S0 or none |
| Codec.Viterbi.SecondStage | Code/viterbi.py:100-112 | the loop over S0's successors computes stage 2 |
| DecoderProps.StageTwoLastWriteWins | Code/viterbi.py:100-112 | in stage 2 the symbol is full width; states no successor of S0 enters keep stage 1's entry; otherwise the last write wins, with stage-1 cost plus distance |
| Codec.Viterbi.CostCandidates | Code/viterbi.py:122-125 | the loop builds the candidate list, or aborts on a width mismatch |
| DecoderSpec.FirstMinIndex | Code/viterbi.py:127-128 | the index is a minimum and strictly below every earlier entry, i.e. the first minimum |
| Codec.Viterbi.GeneralStage | Code/viterbi.py:114-133 | the loop over states computes the general stage |
| DecoderProps.LaterStageFromEffect | Code/viterbi.py:121-128 | every processed state gets its best entry; the others are unchanged |
| DecoderProps.LaterStageRecurrence | Code/viterbi.py:119-128 | a general stage succeeds exactly when the symbol is full width and every state has a predecessor; each cost is the minimum candidate and the trace is the first predecessor attaining it |
| DecoderProps.LaterStagesShape | Code/viterbi.py:115-133 | every further column is the general stage of the previous one |
| DecoderProps.TrellisShape | Code/viterbi.py:85-133 | the table has one column per symbol (at least 2): stage 1, stage 2, then general stages |
| DecoderProps.LastSymbolFull | Code/viterbi.py:115-128 | a table exists only when the last symbol has width 3 |
| Codec.Viterbi.TraceBack | Code/viterbi.py:139-148 | the backward loop computes the backtrace from S0 |
| DecoderProps.TraceBackStep | Code/viterbi.py:143-148 | each step follows a recorded trace along a real transition and emits its bit |
| DecoderProps.TraceBackLength | Code/viterbi.py:143-148 | the backtrace over i columns emits exactly i bits after those already collected |
| DecoderProps.TraceBackWalk | Code/viterbi.py:139-150 | the emitted bits, reversed, drive the encoder from S0 to the state the backtrace started from |
| DecoderProps.TraceBackOfTable | Code/viterbi.py:139-150 | over a decoder table, the backtrace has one bit per column and its reversal returns to S0 |
| DecoderSpec.Reversed | Code/viterbi.py:150 | element k of the result is element len-1-k of the input |
| Codec.Viterbi.Decode | Code/viterbi.py:67-150 | the method computes the decoding, including every abort |
| DecoderProps.DecodedLength | Code/viterbi.py:71-150 | a successful decode needs a multiple of 3 bits, at least 6, and returns len/3 bits |
| DecoderProps.DecodedWalkReturnsToS0 | Code/viterbi.py:139-150 | a decoded message's walk from S0 ends in S0 |
| DecoderProps.DecodedOwnEncoding | Code/viterbi.py:67-150 | a message that decodes from its own encoding has at least 2 bits and returns to S0 |
| RoundTrip.PathStateEntry | Code/viterbi.py:121-128 | when only p has cost 0, the state the true bit leads to gets cost 0 and trace p |
| RoundTrip.OffPathEntry | Code/viterbi.py:121-128 | when only p has cost 0 and outputs differ, every other state gets positive cost |
| RoundTrip.LaterStageFollowsPath | Code/viterbi.py:119-128 | a noise-free general stage keeps exactly one zero-cost state, the true one, traced to its predecessor |
| RoundTrip.LaterStagesFollowPath | Code/viterbi.py:114-133 | all later columns trace the true walk |
| RoundTrip.EncodedSymbols | Code/viterbi.py:16-24 | the symbols of an encoding are the outputs along the walk |
| RoundTrip.FirstColumnsFollowPath | Code/viterbi.py:85-112 | given the graph condition on stages 1-2, both columns trace the walk and only the true state has cost 0 |
| RoundTrip.TrellisFollowsPath | Code/viterbi.py:85-133 | on noise-free symbols, every column traces the walk |
| RoundTrip.PathBit | Code/viterbi.py:55-64 | between consecutive walk states the recovered bit is the message bit |
| RoundTrip.TraceBackAlongPath | Code/viterbi.py:139-148 | along a table tracing the walk, the backtrace emits the message reversed |
| RoundTrip.TraceBackOfPathTable | Code/viterbi.py:139-150 | from S0, a walk that returns to S0 is recovered in full |
| RoundTrip.DecodeAlongPath | Code/viterbi.py:67-150 | received symbols equal to the walk's outputs decode to the message |
| RoundTrip.DecodeEncoded | Code/viterbi.py:67-150 | on a graph with distinct outputs and destinations, every state entered, and stages 1-2 following the path, decode(encode(m)) == m for \|m\| >= 2 ending in S0 |
| RoundTrip.ReversedTwice | Code/viterbi.py:150 | reversing twice is the identity |
| MainGraph.MainGraphWellFormed | Code/main.py:8-12 | the simulation's graph has four keys, two transitions each, 3-bit symbols |
| MainGraph.MainGraphReverseTransitions | Code/main.py:8-12 | each state's reverse-transition list, in the decoder's order, is the listed table |
| MainGraph.MainGraphDecodable | Code/main.py:8-12 | each state's two symbols differ, its two destinations differ, and every state can be entered |
| MainGraph.MainStageOne | Code/viterbi.py:85-98 | on this graph stage 1 costs are (d(000), d(111), 0, 0) with traces (S0, S0, none, none) |
| MainGraph.MainStageTwoEntries | Code/viterbi.py:100-112 | on this graph stage 2 writes every state once, from S0 or from S1 |
| MainGraph.MainStageTwo | Code/viterbi.py:100-112 | stage 2's costs and traces on this graph, in closed form |
| MainGraph.MainGraphFirstStages | Code/viterbi.py:85-112 | for every pair of first bits, stages 1-2 on this graph follow the true path |
| MainGraph.FlushReturnsToS0 | Code/main.py:34 | two trailing 0 bits bring any walk back to S0 |
| MainGraph.RoundTripIff | Code/viterbi.py:67-150 | on this graph, decode(encode(m)) == m exactly when \|m\| >= 2 and the walk ends in S0 |
| MainGraph.FlushedMessageRoundTrip | Code/main.py:34-44 | any message with "000" appended decodes from its noise-free encoding unchanged |
| MainGraph.ExampleCodeword | Code/main.py:8-12 | 1011000 encodes to 111 101 100 010 110 011 000 |
| MainGraph.ExampleDecodes | Code/main.py:34-44 | that code word decodes to 1011000 |
| Codec.Viterbi.AddNoise | Code/viterbi.py:155-169 | the loop inverts exactly the bits the mask selects and returns the mask |
| Channel.FlipDistance | Code/viterbi.py:160-169 | the received string has the same length, differs exactly where the mask is 1, and its distance to the input is the number of 1s |
| Channel.FlipTwice | Code/viterbi.py:160-169 | applying the same mask twice restores the input |
| Channel.FlipExtremes | Code/viterbi.py:155-169 | an all-0 mask changes nothing; an all-1 mask inverts every bit |

## Left out

- Drawing the flip mask with `np.random.choice` (`Code/viterbi.py:158`) is randomness through a foreign library. `AddNoise` takes the mask as a parameter instead.
- `print` and `sys.exit` become an `Err` result:
  - a length mismatch in the Hamming distance is `LengthMismatch`;
  - an undecodable transition is `BitNotDecoded`.
- Python exceptions also become an `Err`:
  - `IndexError` on a missing symbol is `SymbolMissing`;
  - `min` of an empty list is `NoPredecessor`;
  - `KeyError` on an empty trace entry is `UnknownTrace`.

  No output is modelled.
- The pandas tables and `copy.deepcopy` are plain values. The table is a sequence of columns; a column is a cost row and a trace row. The DataFrame's column labels and printing are not modelled.
- `error` works on floating point. `ErrorRate` works on exact reals, and a zero-length original is `ZeroLength` instead of a `ZeroDivisionError`.
- The `Code/main.py` driver is not part of this model: random messages, the sweep over channel error rates, averaging and plotting. Only its graph and its "000" flush are used.
- The general stage calls `__backward_connected_vertex` twice per state. `GeneralStage` calls `BackwardConnectedVertex` once and reuses the list. The two calls return the same list, so the result is unchanged.
- `__next_state` is a list comprehension; it is the function `Graphs.NextStates`, not a method.
- Codec.Viterbi.Encode: requires a well-formed graph (four keys, two transitions per state, 3-bit symbols). `MsgBitExtract`, `TraceBack` and `Decode` share this requirement. On other graphs the source raises `KeyError` or `IndexError`, or accepts symbols of other widths; those paths are not modelled.
- RoundTrip.DecodeEncoded: the round trip is proved for graphs that satisfy its stated conditions. Among concrete graphs, only `Code/main.py:8-12` is shown to satisfy them.
- The round trip with channel noise (single-bit error correction) is not stated. It would need a free-distance argument over the code's paths, taken path by path.
