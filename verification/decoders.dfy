/** The three decoders (decoder.py) and the matching-based initial guess
    (utils.py).

    A decoder receives the Z-stabilizer syndrome `syndZ`, which detects X
    errors, and the X-stabilizer syndrome `syndX`, which detects Z errors.
    It returns an X correction explaining `syndZ` under HZ and a Z
    correction explaining `syndX` under HX.

    pymatching is not part of this model. Whether it imported is the flag
    `haveMatching`, and its decoder is the function `matcher`, about which
    nothing but the length of its output is assumed. */
module Decoders {
  import opened Bits
  import opened Results
  import Toric
  import Elimination
  import Sampler

  /** A minimum-weight perfect matching decoder for a check matrix. */
  type Matcher = (Matrix, Bits) -> Bits

  /** The `init_method` string that selects the matching-based guess. */
  const Mwpm: string := "MWPM"

  /** The default `n_samples` and `burn_in` of `MHDecoder`, the default
      arguments of NewMhDecoder. */
  const DefaultSamples: nat := 2000
  const DefaultBurnIn: nat := 500

  /** The check matrices a decoder keeps over n qubits: HZ, one row per
      Z-type (vertex) stabilizer, and HX, one row per X-type (plaquette)
      stabilizer. */
  datatype Checks = Checks(n: nat, hz: Matrix, hx: Matrix)

  /** Both matrices have n columns and every X-type row meets every Z-type
      row evenly: the stabilizers commute. */
  predicate WellFormed(c: Checks) {
    && HasColumns(c.hz, c.n) && HasColumns(c.hx, c.n)
    && forall i, j :: 0 <= i < |c.hx| && 0 <= j < |c.hz| ==> !Dot(c.hx[i], c.hz[j])
  }

  /** The check matrices HZ and HX a decoder takes from the code's
      `stabilizer_matrices`; all three constructors do this. */
  function FromCode(L: nat): (c: Checks)
    ensures WellFormed(c)
    ensures c.n == Toric.QubitCount(L) && |c.hz| == L * L && |c.hx| == L * L
    ensures forall i, j :: 0 <= i < L * L && 0 <= j < c.n ==>
              (c.hz[i][j] <==> j in Toric.Stabilizers(L, Toric.ZFamily)[i])
              && (c.hx[i][j] <==> j in Toric.Stabilizers(L, Toric.XFamily)[i])
  {
    var m := Toric.StabilizerMatrices(L);
    Checks(Toric.QubitCount(L), m.0, m.1)
  }

  /** Rows of HX are invisible to HZ and rows of HZ are invisible to HX, so
      an X-type stabilizer never changes the Z syndrome and vice versa. */
  lemma MovesInvisible(c: Checks)
    requires WellFormed(c)
    ensures forall i :: 0 <= i < |c.hx| ==> |c.hx[i]| == c.n && Orthogonal(c.hz, c.hx[i])
    ensures forall j :: 0 <= j < |c.hz| ==> |c.hz[j]| == c.n && Orthogonal(c.hx, c.hz[j])
  {
    forall i, j | 0 <= i < |c.hx| && 0 <= j < |c.hz| ensures !Dot(c.hz[j], c.hx[i]) {
      DotSymmetric(c.hx[i], c.hz[j]);
    }
  }

  /** `mwpm_initialize_e_given_syndrome(H, syndrome)`: the matcher when
      pymatching is available, Gaussian elimination otherwise. */
  function MwpmInitialize(H: Matrix, s: Bits, n: nat, haveMatching: bool, matcher: Matcher): (e: Bits)
    requires |s| == |H| && HasColumns(H, n)
    requires haveMatching ==> |matcher(H, s)| == n
    ensures |e| == n
    ensures haveMatching ==> e == matcher(H, s)
    ensures !haveMatching ==> e == Elimination.Solve(H, s, n)
    ensures !haveMatching && Achievable(H, s, n) ==> Syndrome(H, e) == s
    ensures !haveMatching && s == Zeros(|H|) ==> IsZero(e)
  {
    if haveMatching then matcher(H, s)
    else Elimination.Solve(H, s, n)
  }

  /** A decoding result is sound when each correction reproduces the
      syndrome it was computed from. */
  ghost predicate Explains(c: Checks, syndZ: Bits, syndX: Bits, eX: Bits, eZ: Bits)
    requires HasColumns(c.hz, c.n) && HasColumns(c.hx, c.n)
  {
    && |eX| == c.n && |eZ| == c.n
    && Syndrome(c.hz, eX) == syndZ && Syndrome(c.hx, eZ) == syndX
  }

  /** `GEDecoder.decode`: Gaussian elimination on each syndrome. */
  function GeDecode(c: Checks, syndZ: Bits, syndX: Bits): (r: (Bits, Bits))
    requires WellFormed(c) && |syndZ| == |c.hz| && |syndX| == |c.hx|
    ensures |r.0| == c.n && |r.1| == c.n
    ensures Achievable(c.hz, syndZ, c.n) ==> Syndrome(c.hz, r.0) == syndZ
    ensures Achievable(c.hx, syndX, c.n) ==> Syndrome(c.hx, r.1) == syndX
    ensures syndZ == Zeros(|c.hz|) ==> IsZero(r.0)
    ensures syndX == Zeros(|c.hx|) ==> IsZero(r.1)
  {
    (Elimination.Solve(c.hz, syndZ, c.n), Elimination.Solve(c.hx, syndX, c.n))
  }

  /** `MWPMDecoder.decode`: HZ with the Z syndrome gives the X estimate and
      HX with the X syndrome gives the Z estimate. */
  function MwpmDecode(c: Checks, syndZ: Bits, syndX: Bits, haveMatching: bool, matcher: Matcher): (r: (Bits, Bits))
    requires WellFormed(c) && |syndZ| == |c.hz| && |syndX| == |c.hx|
    requires haveMatching ==> |matcher(c.hz, syndZ)| == c.n && |matcher(c.hx, syndX)| == c.n
    ensures |r.0| == c.n && |r.1| == c.n
    ensures haveMatching ==> r == (matcher(c.hz, syndZ), matcher(c.hx, syndX))
    ensures !haveMatching ==> r == GeDecode(c, syndZ, syndX)
  {
    (MwpmInitialize(c.hz, syndZ, c.n, haveMatching, matcher),
     MwpmInitialize(c.hx, syndX, c.n, haveMatching, matcher))
  }

  /** The syndromes of a real error are always achievable, so Gaussian
      elimination explains them: the estimate differs from the error by an
      element of the kernel of the check matrix. */
  lemma {:induction false} GeDecodeExplainsErrors(c: Checks, eX: Bits, eZ: Bits)
    requires WellFormed(c) && |eX| == c.n && |eZ| == c.n
    ensures var syndZ := Syndrome(c.hz, eX);
            var syndX := Syndrome(c.hx, eZ);
            var r := GeDecode(c, syndZ, syndX);
            Explains(c, syndZ, syndX, r.0, r.1)
  {
    assert Achievable(c.hz, Syndrome(c.hz, eX), c.n);
    assert Achievable(c.hx, Syndrome(c.hx, eZ), c.n);
  }

  /** `MHDecoder`: the checks, the sampler settings, and the move lists
      `Zstab_vecs` (rows of HZ) and `Xstab_vecs` (rows of HX). */
  datatype MhDecoder = MhDecoder(checks: Checks, q: real, nSamples: nat, burnIn: nat,
                                 zStabVecs: seq<Bits>, xStabVecs: seq<Bits>)

  /** A decoder whose move lists are the rows of its check matrices and
      whose sampler settings are usable. */
  predicate MhReady(d: MhDecoder) {
    && WellFormed(d.checks)
    && d.zStabVecs == d.checks.hz && d.xStabVecs == d.checks.hx
    && 1 <= d.nSamples && d.burnIn < d.nSamples
  }

  /** `MHDecoder(code, q_error, n_samples, burn_in)`. */
  function NewMhDecoder(L: nat, q: real, nSamples: nat := DefaultSamples, burnIn: nat := DefaultBurnIn): (d: MhDecoder)
    ensures d.checks == FromCode(L) && d.q == q && d.nSamples == nSamples && d.burnIn == burnIn
    ensures d.xStabVecs == d.checks.hx && d.zStabVecs == d.checks.hz
    ensures |d.xStabVecs| == L * L && |d.zStabVecs| == L * L
    ensures forall i :: 0 <= i < |d.xStabVecs| ==>
              |d.xStabVecs[i]| == d.checks.n && Orthogonal(d.checks.hz, d.xStabVecs[i])
    ensures forall j :: 0 <= j < |d.zStabVecs| ==>
              |d.zStabVecs[j]| == d.checks.n && Orthogonal(d.checks.hx, d.zStabVecs[j])
    ensures 1 <= nSamples && burnIn < nSamples ==> MhReady(d)
  {
    var c := FromCode(L);
    MovesInvisible(c);
    MhDecoder(c, q, nSamples, burnIn,
              seq(|c.hz|, i requires 0 <= i < |c.hz| => c.hz[i]),
              seq(|c.hx|, i requires 0 <= i < |c.hx| => c.hx[i]))
  }

  /** The initial guess of `MHDecoder.decode`: the matching-based guess for
      `init_method == 'MWPM'`, Gaussian elimination for any other string. */
  function InitialGuess(H: Matrix, s: Bits, n: nat, initMethod: string, haveMatching: bool, matcher: Matcher)
    : (e: Bits)
    requires |s| == |H| && HasColumns(H, n)
    requires initMethod == Mwpm && haveMatching ==> |matcher(H, s)| == n
    ensures |e| == n
    ensures initMethod == Mwpm && haveMatching ==> e == matcher(H, s)
    ensures initMethod != Mwpm || !haveMatching ==> e == Elimination.Solve(H, s, n)
    ensures (initMethod != Mwpm || !haveMatching) && Achievable(H, s, n) ==> Syndrome(H, e) == s
  {
    if initMethod == Mwpm then MwpmInitialize(H, s, n, haveMatching, matcher)
    else Elimination.Solve(H, s, n)
  }

  /** One refinement chain of `MHDecoder.decode`: the sampler's
      `best_sample` started from `init` with the given moves. Moves
      invisible to H keep the syndrome of the starting vector. */
  function Refine(H: Matrix, init: Bits, moves: seq<Bits>, q: real, logOdds: real,
                  nSamples: nat, burnIn: nat, draws: seq<nat>, accepts: seq<bool>)
    : (r: Result<Bits, Sampler.SamplerError>)
    requires 1 <= nSamples && burnIn < nSamples
    requires |draws| == nSamples && |accepts| == nSamples
    requires HasColumns(H, |init|) && Sampler.Moves(moves, |init|)
    requires forall j :: 0 <= j < |moves| ==> Orthogonal(H, moves[j])
    requires |moves| > 0 ==> forall k :: 0 <= k < |draws| ==> draws[k] < |moves|
    ensures r.Failure? <==> q == 0.0 || q == 1.0 || |moves| == 0
    ensures r.Failure? ==>
              r.error == (if q == 0.0 || q == 1.0 then Sampler.DegenerateErrorRate else Sampler.EmptyRange)
    ensures r.Success? ==> |r.value| == |init| && Syndrome(H, r.value) == Syndrome(H, init)
    ensures r.Success? ==>
              r.value == Sampler.Summarize(Sampler.Run(Sampler.Start(init, logOdds), moves, draws, accepts, logOdds, nSamples),
                                           |init|, burnIn).best
    ensures r.Success? ==> Sampler.InCoset(r.value, init, moves)
    ensures r.Success? && logOdds < 0.0 ==>
              Sampler.IsFirstLightest(r.value, Sampler.Run(Sampler.Start(init, logOdds), moves, draws, accepts, logOdds, nSamples))
  {
    match Sampler.MetropolisHastings(H, init, moves, q, logOdds, nSamples, burnIn, draws, accepts)
    case Failure(e) => Failure(e)
    case Success(out) =>
      Sampler.BestInCoset(H, init, moves, q, logOdds, nSamples, burnIn, draws, accepts);
      if logOdds < 0.0 then
        Sampler.BestIsLightest(H, init, moves, q, logOdds, nSamples, burnIn, draws, accepts);
        Success(out.best)
      else
        Success(out.best)
  }

  /** The two chains of `MHDecoder.decode` from given initial vectors: the
      X chain walks eX under HZ with the rows of HX, the Z chain walks eZ
      under HX with the rows of HZ. */
  function RefinePair(d: MhDecoder, eX: Bits, eZ: Bits, logOdds: real,
                      drawsX: seq<nat>, acceptsX: seq<bool>, drawsZ: seq<nat>, acceptsZ: seq<bool>)
    : (r: Result<(Bits, Bits), Sampler.SamplerError>)
    requires MhReady(d) && |eX| == d.checks.n && |eZ| == d.checks.n
    requires |drawsX| == d.nSamples && |acceptsX| == d.nSamples
    requires |drawsZ| == d.nSamples && |acceptsZ| == d.nSamples
    requires |d.xStabVecs| > 0 ==> forall k :: 0 <= k < |drawsX| ==> drawsX[k] < |d.xStabVecs|
    requires |d.zStabVecs| > 0 ==> forall k :: 0 <= k < |drawsZ| ==> drawsZ[k] < |d.zStabVecs|
    ensures r.Failure? <==> d.q == 0.0 || d.q == 1.0 || |d.checks.hx| == 0 || |d.checks.hz| == 0
    ensures r.Failure? ==>
              r.error == (if d.q == 0.0 || d.q == 1.0 then Sampler.DegenerateErrorRate else Sampler.EmptyRange)
    ensures r.Success? ==> |r.value.0| == d.checks.n && |r.value.1| == d.checks.n
    ensures r.Success? ==> Syndrome(d.checks.hz, r.value.0) == Syndrome(d.checks.hz, eX)
    ensures r.Success? ==> Syndrome(d.checks.hx, r.value.1) == Syndrome(d.checks.hx, eZ)
    ensures r.Success? ==>
              && r.value.0 == Sampler.MetropolisHastings(d.checks.hz, eX, d.xStabVecs, d.q, logOdds,
                                                         d.nSamples, d.burnIn, drawsX, acceptsX).value.best
              && r.value.1 == Sampler.MetropolisHastings(d.checks.hx, eZ, d.zStabVecs, d.q, logOdds,
                                                         d.nSamples, d.burnIn, drawsZ, acceptsZ).value.best
    ensures r.Success? ==>
              Sampler.InCoset(r.value.0, eX, d.xStabVecs) && Sampler.InCoset(r.value.1, eZ, d.zStabVecs)
    ensures r.Success? && logOdds < 0.0 ==>
              && Sampler.IsFirstLightest(r.value.0, Sampler.Run(Sampler.Start(eX, logOdds), d.xStabVecs,
                                                                drawsX, acceptsX, logOdds, d.nSamples))
              && Sampler.IsFirstLightest(r.value.1, Sampler.Run(Sampler.Start(eZ, logOdds), d.zStabVecs,
                                                                drawsZ, acceptsZ, logOdds, d.nSamples))
  {
    var c := d.checks;
    MovesInvisible(c);
    var outX := Refine(c.hz, eX, d.xStabVecs, d.q, logOdds, d.nSamples, d.burnIn, drawsX, acceptsX);
    var outZ := Refine(c.hx, eZ, d.zStabVecs, d.q, logOdds, d.nSamples, d.burnIn, drawsZ, acceptsZ);
    if outX.Failure? then Failure(outX.error)
    else if outZ.Failure? then Failure(outZ.error)
    else Success((outX.value, outZ.value))
  }

  /** `MHDecoder.decode(syndZ, syndX, init_method)`: an initial guess per
      error type, each refined by a Metropolis-Hastings chain that flips
      stabilizers of the other type, returning both chains' best samples.
      `logOdds` stands for `log(q / (1 - q))`, and the draws and acceptance
      outcomes of the two chains are inputs. */
  function MhDecode(d: MhDecoder, syndZ: Bits, syndX: Bits, initMethod: string := Mwpm,
                    haveMatching: bool, matcher: Matcher, logOdds: real,
                    drawsX: seq<nat>, acceptsX: seq<bool>, drawsZ: seq<nat>, acceptsZ: seq<bool>)
    : (r: Result<(Bits, Bits), Sampler.SamplerError>)
    requires MhReady(d) && |syndZ| == |d.checks.hz| && |syndX| == |d.checks.hx|
    requires initMethod == Mwpm && haveMatching ==>
               |matcher(d.checks.hz, syndZ)| == d.checks.n && |matcher(d.checks.hx, syndX)| == d.checks.n
    requires |drawsX| == d.nSamples && |acceptsX| == d.nSamples
    requires |drawsZ| == d.nSamples && |acceptsZ| == d.nSamples
    requires |d.xStabVecs| > 0 ==> forall k :: 0 <= k < |drawsX| ==> drawsX[k] < |d.xStabVecs|
    requires |d.zStabVecs| > 0 ==> forall k :: 0 <= k < |drawsZ| ==> drawsZ[k] < |d.zStabVecs|
    ensures r.Failure? <==> d.q == 0.0 || d.q == 1.0 || |d.checks.hx| == 0 || |d.checks.hz| == 0
    ensures r.Failure? ==>
              r.error == (if d.q == 0.0 || d.q == 1.0 then Sampler.DegenerateErrorRate else Sampler.EmptyRange)
    ensures r.Success? ==> |r.value.0| == d.checks.n && |r.value.1| == d.checks.n
    ensures r.Success? ==>
              && Syndrome(d.checks.hz, r.value.0)
                 == Syndrome(d.checks.hz, InitialGuess(d.checks.hz, syndZ, d.checks.n, initMethod, haveMatching, matcher))
              && Syndrome(d.checks.hx, r.value.1)
                 == Syndrome(d.checks.hx, InitialGuess(d.checks.hx, syndX, d.checks.n, initMethod, haveMatching, matcher))
    ensures r.Success? && (initMethod != Mwpm || !haveMatching) ==>
              && (Achievable(d.checks.hz, syndZ, d.checks.n) ==> Syndrome(d.checks.hz, r.value.0) == syndZ)
              && (Achievable(d.checks.hx, syndX, d.checks.n) ==> Syndrome(d.checks.hx, r.value.1) == syndX)
    ensures r.Success? ==>
              r.value == RefinePair(d, InitialGuess(d.checks.hz, syndZ, d.checks.n, initMethod, haveMatching, matcher),
                                    InitialGuess(d.checks.hx, syndX, d.checks.n, initMethod, haveMatching, matcher),
                                    logOdds, drawsX, acceptsX, drawsZ, acceptsZ).value
  {
    var c := d.checks;
    var eX := InitialGuess(c.hz, syndZ, c.n, initMethod, haveMatching, matcher);
    var eZ := InitialGuess(c.hx, syndX, c.n, initMethod, haveMatching, matcher);
    RefinePair(d, eX, eZ, logOdds, drawsX, acceptsX, drawsZ, acceptsZ)
  }
}
