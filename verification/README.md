# Toric-code decoding core in Dafny

This project models the decoding core of a toric-code error-correction
simulator and proves properties of it:

- **Lattice geometry** (`code.py`, module `Toric` in `toric.dfy`). An L x L
  torus carries n = 2L² qubits. The horizontal edge (x, y) is qubit
  `(y mod L)·L + (x mod L)` and the vertical edge is L² further on. Each
  cell contributes one plaquette (X-type) stabilizer and one vertex (Z-type)
  stabilizer of four qubits. The model also has the four logical supports
  and conjugates, and the check matrices HZ and HX. The central theorem is
  that every X stabilizer and every Z stabilizer overlap on an even number
  of qubits, so every row of HX has zero mod-2 product with every row of HZ.
- **GF(2) solver** (`ge_initialize_given_syndrome`, module `Elimination`).
  Gauss–Jordan elimination on `[H | s]` runs as a recursion over columns:
  - a pivot search finds the first row at or below the current row;
  - the pivot row is swapped into place, and the pivot column is cleared
    from every other row;
  - the loop stops when every row has a pivot;
  - back-substitution sets every free variable to 0.

  Each row operation preserves the solution set. If some vector has
  syndrome s, the result has syndrome s.
- **Pauli conversions** (`utils.py`, module `Pauli`). These are the
  letter-list encoder and decoder for (X part, Z part) vector pairs, with
  both round trips, the error for an unknown letter, and the weight.
- **Metropolis–Hastings coset sampler** (`MH_sampler.py`, module `Sampler`).
  The chain is a deterministic fold. It is driven by the sequence of drawn
  stabilizer indices and the sequence of accept/reject outcomes.
  `log(q/(1-q))` is an abstract real constant. The model states:
  - the incrementally tracked weight and log-probability;
  - the recorded snapshots and the burn-in slice;
  - the majority-vote `e_map`, and `best_sample` as the first argmax;
  - that every state stays in the stabilizer coset of the initial vector,
    so it keeps that vector's syndrome.
- **Decoders** (`decoder.py`, module `Decoders`). This is the matching, GE
  and MH decoders, with the initial-guess dispatch and the cross-wiring:
  - the X correction comes from HZ and the Z syndrome, and is refined with
    rows of HX;
  - the Z correction comes from HX and the X syndrome, and is refined with
    rows of HZ.

  End to end, each returned correction reproduces the syndrome of its
  initial guess. On the elimination path that is the observed syndrome
  when the syndrome is achievable.

Supporting modules: `Bits` (`bits.dfy`) has GF(2) vectors with the XOR,
weight, mod-2 inner product and syndrome. `Results` (`results.dfy`) has
`Option` and `Result`.

Bits are `bool` (`true` is 1). Python's `%` with a positive modulus agrees
with Dafny's Euclidean `%`, so the index maps use `%` directly. Errors that
the Python code raises are `Failure` values.

## Model

| member | source | states |
|---|---|---|
| Bits.XorInvolution | MH_sampler.py:33 | flipping the same stabilizer vector twice restores the error vector, so every accepted move can be undone |
| Bits.SyndromeLinear | MH_sampler.py:33 | the syndrome of e XOR v is the XOR of the syndromes of e and v, which is why flipping an invisible vector in place keeps the syndrome |
| Bits.DotParity | code.py:54-64 | the mod-2 product of two 0/1 rows is 1 exactly when their common support has odd size |
| Bits.SyndromeInvariant | MH_sampler.py:33 | adding a vector that has even overlap with every row of H leaves the syndrome under H unchanged |
| Bits.WeightIsSupportSize | MH_sampler.py:9 | the Hamming weight equals the number of positions holding a 1 |
| Toric.HorizontalEdge | code.py:12-13 | for every integer x and y, the horizontal index lies in [0, L²) |
| Toric.VerticalEdge | code.py:15-16 | for every integer x and y, the vertical index lies in [L², 2L²) |
| Toric.EdgeEquality | code.py:12-16 | two edges of one orientation get the same qubit exactly when their coordinates agree mod L |
| Toric.EdgePeriodic | code.py:12-16 | both index maps are L-periodic in x and in y |
| Toric.HorizontalBijection | code.py:12-13 | on 0 <= x, y < L the horizontal map is a bijection onto [0, L²), with inverse k -> (k mod L, k div L) |
| Toric.VerticalBijection | code.py:15-16 | on 0 <= x, y < L the vertical map is a bijection onto [L², 2L²) |
| Toric.Stabilizer | code.py:18-39 | each plaquette or vertex stabilizer lists 4 indices, all below n |
| Toric.Stabilizers | code.py:18-40 | each family has exactly L² stabilizers of 4 in-range indices |
| Toric.StabilizerLayout | code.py:20-21 | the stabilizer of cell (x, y) is entry y·L + x, the row-major order of the two loops |
| Toric.BuildStabilizers | code.py:18-28 | the nested loops build exactly the row-major list of all L² stabilizers (the same loop serves _build_Zs) |
| Toric.LogicalZSupport | code.py:42-43 | L distinct vertical-edge indices; InLogicalZSupport and LogicalsCommute give its exact membership and its even overlap with every vertex |
| Toric.LogicalXSupport | code.py:45-46 | L distinct horizontal-edge indices; InLogicalXSupport and LogicalsCommute give its exact membership and its even overlap with every vertex |
| Toric.LogicalXConjugate | code.py:48-49 | L distinct vertical-edge indices; InLogicalXConjugate and LogicalsCommute give its exact membership and its even overlap with every plaquette |
| Toric.LogicalZConjugate | code.py:51-52 | L distinct horizontal-edge indices; InLogicalZConjugate and LogicalsCommute give its exact membership and its even overlap with every plaquette |
| Toric.SharedHorizontal | code.py:18-39 | a horizontal qubit is in both a plaquette and a vertex exactly when the two cells touch and it is edge H(x, y') |
| Toric.SharedVertical | code.py:18-39 | a vertical qubit is in both a plaquette and a vertex exactly when the two cells touch and it is edge V(x', y) |
| Toric.StabilizersCommute | code.py:18-39 | every X stabilizer and every Z stabilizer overlap evenly: their indicator rows have mod-2 product 0 |
| Toric.InLogicalZSupport | code.py:42-43 | a qubit is in logical_Z_support exactly when it is a vertical edge of column 0 |
| Toric.InLogicalXSupport | code.py:45-46 | a qubit is in logical_X_support exactly when it is a horizontal edge of row 0 |
| Toric.InLogicalXConjugate | code.py:48-49 | a qubit is in logical_X_conjugate exactly when it is a vertical edge of row 0 |
| Toric.InLogicalZConjugate | code.py:51-52 | a qubit is in logical_Z_conjugate exactly when it is a horizontal edge of column 0 |
| Toric.PlaquetteMeetsZConjugate | code.py:18-27 | for L >= 2 every plaquette meets logical_Z_conjugate in both of its horizontal edges or in none |
| Toric.PlaquetteMeetsXConjugate | code.py:18-27 | for L >= 2 every plaquette meets logical_X_conjugate in both of its vertical edges or in none |
| Toric.VertexMeetsXSupport | code.py:30-39 | for L >= 2 every vertex meets logical_X_support in both of its horizontal edges or in none |
| Toric.VertexMeetsZSupport | code.py:30-39 | for L >= 2 every vertex meets logical_Z_support in both of its vertical edges or in none |
| Toric.LogicalsCommute | code.py:42-52 | for L >= 2 and every cell, the logical lists are unaffected by stabilizer flips: each plaquette has even overlap with both conjugate lists, each vertex with both support lists |
| Toric.LogicalPairsOverlapOnce | code.py:42-52 | logical_X_support meets logical_Z_conjugate exactly in qubit 0, and logical_Z_support meets logical_X_conjugate exactly in qubit L², so each pair has odd overlap |
| Toric.HorizontalCross | code.py:45-46 | row 0 and column 0 of the horizontal edges share only qubit 0 |
| Toric.VerticalCross | code.py:42-43 | column 0 and row 0 of the vertical edges share only qubit L² |
| Toric.SingleCellOddOverlap | code.py:18-27 | at L = 1 a plaquette meets logical_Z_conjugate in one qubit, so LogicalsCommute needs L >= 2 |
| Toric.StabilizerMatrices | code.py:54-64 | HZ and HX are L² x n, HZ[i][j] is 1 iff j is in Z stabilizer i (likewise HX), and every HX row is orthogonal to every HZ row |
| Elimination.AugmentSolves | utils.py:71-72 | x satisfies the augmented system exactly when H·x = s (mod 2) |
| Elimination.FindPivot | utils.py:78-83 | the first row at or below r with a 1 in column c, or none when no such row exists |
| Elimination.SwapPreserves | utils.py:80 | swapping two rows keeps the solution set |
| Elimination.EliminatePreserves | utils.py:86-88 | XOR-ing the pivot row into every other row holding a 1 in the pivot column keeps the solution set |
| Elimination.PivotPreserves | utils.py:78-88 | a swap followed by clearing the pivot column keeps exactly the same solutions |
| Elimination.PivotStep | utils.py:76-91 | one pivot step keeps the invariant: earlier pivot columns are unit columns, pivots increase, and rows below r are 0 on the columns already passed |
| Elimination.SkipStep | utils.py:78-83 | a column with no 1 at or below row r is passed over (the `else: continue`) with the loop state intact |
| Elimination.ReduceFrom | utils.py:74-91 | the column loop ends in reduced form: rows below the pivot count are 0 on every coefficient column, and each pivot column is a unit column |
| Elimination.ReducePreserves | utils.py:74-91 | the whole column loop keeps the solution set |
| Elimination.ReduceKeepsZeroRhs | utils.py:74-91 | a zero right-hand side stays zero through elimination |
| Elimination.PivotKeepsZeroRhs | utils.py:80-88 | one swap and one round of row sums keep every right-hand side 0 |
| Elimination.Reduce | utils.py:73-91 | elimination from column 0 and row 0 yields the reduced form |
| Elimination.AssignPivots | utils.py:93-97 | the result holds row i's right-hand side at pivot column i and 0 at every other column |
| Elimination.PivotRowSolved | utils.py:93-97 | in reduced form, with each pivot variable set to its row's right-hand side and every free variable 0, each pivot row's equation holds |
| Elimination.PivotShape | utils.py:76-98 | there are at most min(m, n) pivots, strictly increasing, each a unit column of the reduced matrix with its 1 in its own row |
| Elimination.ReducedSolved | utils.py:93-98 | back-substitution solves a reduced system whose zero rows have right-hand side 0 |
| Elimination.Solve | utils.py:69-98 | the result has n entries: the right-hand side of pivot row i at pivot column i and 0 at every free column; when some e has H·e = s (mod 2) the result x has H·x = s (mod 2); a zero syndrome gives the zero vector |
| Elimination.BackSubstitutionSolves | utils.py:69-98 | when s is achievable, back substitution on the reduced augmented system reproduces s |
| Elimination.BackSubstitutionZero | utils.py:69-98 | a zero syndrome keeps every right-hand side 0, so back substitution gives the zero vector |
| Pauli.LetterBits | utils.py:37-47 | a letter has components exactly when it is I, X, Z or Y, and those components are 0/1 |
| Pauli.LetterRoundTrip | utils.py:21-47 | on one position, letter-to-bits and bits-to-letter are inverse |
| Pauli.BinaryPairToPauli | utils.py:21-32 | at most one letter per zipped position, and exactly one for equal-length 0/1 vectors |
| Pauli.PauliToBinaryPair | utils.py:34-48 | on success both vectors have one 0/1 entry per list element |
| Pauli.PauliWeight | utils.py:18-19 | the weight never exceeds the number of letters |
| Pauli.BinaryPairRoundTrip | utils.py:21-48 | decoding the letters of an equal-length 0/1 pair returns the pair |
| Pauli.PauliRoundTrip | utils.py:21-48 | encoding the decoded pair of a list over {I, X, Y, Z} returns the list |
| Pauli.DecodeFailsIff | utils.py:34-47 | decoding raises exactly when some element is not one of the strings I, X, Y, Z ("" and "XY" included) |
| Pauli.DecodeFirstError | utils.py:46-47 | the error message is "unknown pauli " followed by the first element that is not I, X, Y or Z |
| Pauli.WeightOfPair | utils.py:18-32 | the weight of a pair's letter list is the number of positions where eX or eZ is 1 |
| Sampler.Start | MH_sampler.py:8-13 | the chain starts at init_e with its own weight and log-probability |
| Sampler.FlipDelta | MH_sampler.py:21-28 | delta is the weight of the flipped vector minus the weight of the current one |
| Sampler.Step | MH_sampler.py:28-35 | an accepted step XORs the move in, a rejected step changes nothing, and consistency of weight and log-probability is kept |
| Sampler.StepReversible | MH_sampler.py:28-35 | the proposal is symmetric: accepting the same stabilizer twice returns a consistent chain to exactly its earlier state (vector, weight and log-probability) |
| Sampler.Run | MH_sampler.py:18-38 | n_samples iterations record n_samples states, all of the initial length |
| Sampler.RunConsistent | MH_sampler.py:9-35 | every recorded weight is the Hamming weight of its vector and every log-probability is weight · log_odds |
| Sampler.RunPrefix | MH_sampler.py:37-38 | recorded states are snapshots: a longer run begins with the records of a shorter one |
| Sampler.RunAt | MH_sampler.py:18-38 | record k is the state left after k + 1 iterations |
| Sampler.Accepted | MH_sampler.py:19-33 | the accepted moves are drawn indices below the number of stabilizer vectors, at most one per iteration |
| Sampler.ApplyMoves | MH_sampler.py:33 | applying moves keeps the vector length |
| Sampler.RunInCoset | MH_sampler.py:18-38 | the current state is init_e XOR the accepted stabilizer vectors |
| Sampler.RecordIsAccepted | MH_sampler.py:18-38 | record k of samples is init_e XOR the stabilizer vectors accepted in the first k + 1 iterations |
| Sampler.BestInCoset | MH_sampler.py:44-47 | best_sample is a visited state, so it is init_e XOR a list of the stabilizer vectors |
| Sampler.CosetStep | MH_sampler.py:28-35 | one iteration keeps the current state equal to init_e XOR the accepted vectors: acceptance adds the proposal on both sides, rejection changes neither |
| Sampler.MovesKeepSyndrome | MH_sampler.py:33 | XOR-ing in vectors orthogonal to H keeps the syndrome under H |
| Sampler.RunKeepsSyndrome | MH_sampler.py:33-38 | with moves orthogonal to H, every recorded state has the syndrome of init_e |
| Sampler.ArgMax | MH_sampler.py:45-46 | the index of a largest trace value, with every earlier value strictly smaller |
| Sampler.MajorityVote | MH_sampler.py:40-42 | bit i is set exactly when more than half of the samples have bit i set, counted as the size of the set of voting samples |
| Sampler.ColumnCountIsVoters | MH_sampler.py:41 | the running column count equals the number of samples with the bit set |
| Sampler.MajorityUnanimous | MH_sampler.py:41-42 | a bit set in every post-burn-in sample is set in e_map, and a bit clear in all of them is clear |
| Sampler.Summarize | MH_sampler.py:37-47 | trace_logp has one entry per iteration, samples is the records from burn_in on, e_map[i] holds iff more than half the samples set bit i, and best is the record at the first argmax of the whole trace |
| Sampler.MetropolisHastings | MH_sampler.py:4-55 | fails exactly when q is 0 or 1, or when there are no moves; otherwise returns the summary of the run and keeps the syndrome for orthogonal moves |
| Sampler.SummaryKeepsSyndrome | MH_sampler.py:33-47 | with orthogonal moves, best_sample and every post-burn-in sample have the syndrome of init_e |
| Sampler.TraceIsLogProb | MH_sampler.py:13-37 | each trace entry equals the Hamming weight of its state times log_odds |
| Sampler.BestIsLightest | MH_sampler.py:44-47 | for q < 1/2, best_sample is a lightest recorded state and every earlier state is strictly heavier |
| Sampler.SummaryBestIsLightest | MH_sampler.py:44-47 | when every recorded log-probability is `weight * log_odds` with log_odds < 0, the best vector belongs to the first lightest state |
| Sampler.FirstMaxIsLightest | MH_sampler.py:45-46 | with log_odds < 0 the first largest log-probability is held by the first smallest weight |
| Sampler.ScaleReverses | MH_sampler.py:13 | multiplying weights by a negative log-odds reverses their order, both strictly and non-strictly |
| Decoders.FromCode | decoder.py:39 | the decoder's matrices are the code's HZ and HX: n columns, L² rows each, commuting |
| Decoders.MovesInvisible | decoder.py:42-43 | every row of HX is orthogonal to HZ and every row of HZ is orthogonal to HX |
| Decoders.MwpmInitialize | utils.py:56-67 | with the matcher the result is its output; without it the result is the elimination solution, which reproduces an achievable syndrome |
| Decoders.GeDecode | decoder.py:83-86 | each estimate reproduces its achievable syndrome, and a zero syndrome gives the zero estimate |
| Decoders.MwpmDecode | decoder.py:22-29 | returns (matcher(HZ, syndZ), matcher(HX, syndX)), or the elimination decoder's result without a matcher |
| Decoders.GeDecodeExplainsErrors | decoder.py:83-86 | for the syndromes of any actual error pair, elimination decoding reproduces both syndromes |
| Decoders.NewMhDecoder | decoder.py:32-43 | the move lists are the rows of HX and HZ (L² each), X moves are orthogonal to HZ and Z moves to HX; n_samples and burn_in default to 2000 and 500 |
| Decoders.InitialGuess | decoder.py:47-52 | 'MWPM' uses the matching initializer and every other string uses elimination; without a matcher the guess reproduces every achievable syndrome |
| Decoders.Refine | decoder.py:54-63 | one chain fails exactly as the sampler does; otherwise it returns the best_sample of the chain started at init, which lies in the coset init XOR moves, keeps init's syndrome when the moves are invisible to H, and for logOdds < 0 is the first lightest recorded state |
| Decoders.RefinePair | decoder.py:54-76 | fails exactly when q is 0 or 1 or a move list is empty; otherwise returns the X chain's best_sample (eX under HZ with the rows of HX) and the Z chain's (eZ under HX with the rows of HZ), each in its start's coset with its start's syndrome, and the first lightest recorded state for logOdds < 0 |
| Decoders.MhDecode | decoder.py:45-76 | fails exactly as the sampler does; otherwise returns the two chains' best samples started from the initial guesses, which keep the guesses' syndromes and so reproduce achievable syndromes on the elimination path |

## Left out

- The pymatching call (utils.py:58-63) is not part of this model. It is the
  uninterpreted `matcher` parameter, whose output length is a precondition.
  Whether pymatching imported is the flag `haveMatching`.
- Decoders.MwpmInitialize: nothing is stated about the syndrome of the
  matcher's output, because that library is not modelled.
- Sampler.MetropolisHastings: the draws of `random.randrange` and the
  outcomes of `random.random() < accept_prob` are input sequences. The
  acceptance probability `min(1, exp(new_logp - cur_logp))` is not modelled.
  The statements hold for every accept/reject sequence.
- Sampler.MetropolisHastings: `log(q / (1 - q))` is the abstract real
  `logOdds`. Floating-point rounding of `weight * log_odds` and NaN are not
  modelled.
- Sampler.Summarize: the float `marginal` is not returned. `e_map` is
  stated on integer counts (2·count > number of samples). This agrees with
  `count / N > 0.5` for any realistic N.
- Sampler.MetropolisHastings requires n_samples >= 1, because `np.argmax`
  fails on an empty trace. It also requires burn_in < n_samples, because a
  later burn_in gives an empty sample array with a NaN mean. A negative
  burn_in does not arise: it is a `nat`.
- Sampler.MetropolisHastings: the unused `code` argument is dropped.
  `H_stab` is kept only to state syndrome preservation.
- Elimination.Solve: nothing is stated about H·x for an unachievable
  syndrome, where the solver silently ignores leftover rows with
  right-hand side 1. The pivot and free-column description of the result
  still holds there.
- Mismatched dimensions (a syndrome not of length m, ragged rows) are
  preconditions. numpy would raise or broadcast on them.
- Toric.LogicalsCommute: stated for L >= 2 only. At L = 1 a plaquette's
  two horizontal edges are the same qubit, and its overlap with
  logical_Z_conjugate is odd (Toric.SingleCellOddOverlap).
- L = 0: only the two edge-index maps (code.py:12-16) divide by zero, so
  HorizontalEdge, VerticalEdge, Stabilizer and the lemmas about one cell
  require L >= 1. The stabilizer lists, the logical lists, the check
  matrices and the decoders built from them are modelled for every L. At
  L = 0 they are empty, as in Python, where the loops run zero times.
- Pauli.PauliToBinaryPair: list elements are strings of any length. An
  element that is not a string is not modelled. Python compares it unequal
  to every letter, then fails with a TypeError while building the
  message.
- Pauli entries outside {0, 1} are modelled as Python treats them: no letter
  is emitted for that position.
- `pauli_list_to_sparseop` and `pauli_list_to_matrix` (utils.py:10-16) are
  qiskit wrappers and are not modelled.
- The base class `Decoder.decode` only raises NotImplementedError, so it is
  not modelled.
- `simulation.py`, `main.py`, `threshold.py`, `mh_diagnostics.py` and
  `plot_lattice.py` are not part of this model. They cover noise
  generation, orchestration, plotting and float-valued drawing helpers.
