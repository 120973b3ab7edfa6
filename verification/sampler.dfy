/** Metropolis-Hastings walk over a stabilizer coset (MH_sampler.py).

    The two random draws of each iteration are inputs: `draws[t]` is the
    stabilizer index drawn uniformly in iteration t, and `accepts[t]` says
    whether the uniform draw of that iteration fell below the acceptance
    probability. The log-odds of q is the real number `logOdds`, so the
    tracked log-probability of a state of weight w is exactly w * logOdds. */
module Sampler {
  import opened Bits
  import opened Results

  /** The running state: current error vector, tracked weight and tracked
      log-probability. */
  datatype Chain = Chain(e: Bits, weight: int, logp: real)

  /** The unnormalised log-probability `w * log_odds` of a weight-w error. */
  function LogProb(w: int, logOdds: real): (lp: real) {
    (w as real) * logOdds
  }

  /** The tracked numbers agree with a recomputation from the vector. */
  ghost predicate Consistent(st: Chain, logOdds: real) {
    st.weight == Weight(st.e) && st.logp == LogProb(st.weight, logOdds)
  }

  /** Every proposal vector has the length of the error vector. */
  predicate Moves(stabs: seq<Bits>, n: nat) {
    forall j :: 0 <= j < |stabs| ==> |stabs[j]| == n
  }

  /** The chain's starting state: the initial vector with its weight and
      the log-probability of that weight. */
  function Start(init: Bits, logOdds: real): (st: Chain)
    ensures st.e == init && Consistent(st, logOdds)
  {
    var w := Weight(init);
    Chain(init, w, LogProb(w, logOdds))
  }

  /** The loop over `flip_indices`: -1 for each flipped 1, +1 for each
      flipped 0. It is the weight change the flip causes. */
  function FlipDelta(e: Bits, svec: Bits): (d: int)
    requires |e| == |svec|
    ensures d == Weight(Xor(e, svec)) - Weight(e)
  {
    if |e| == 0 then 0
    else
      var k := |e| - 1;
      XorPrefix(e, svec, k);
      FlipDelta(e[..k], svec[..k]) + (if svec[k] then (if e[k] then -1 else 1) else 0)
  }

  /** One iteration: propose flipping `svec`; if accepted, XOR it in and
      take the proposed weight and log-probability, otherwise keep
      everything. */
  function Step(st: Chain, svec: Bits, accept: bool, logOdds: real): (st': Chain)
    requires |svec| == |st.e|
    ensures |st'.e| == |st.e|
    ensures st'.e == (if accept then Xor(st.e, svec) else st.e)
    ensures !accept ==> st' == st
    ensures Consistent(st, logOdds) ==> Consistent(st', logOdds)
  {
    var newWeight := st.weight + FlipDelta(st.e, svec);
    var newLogp := LogProb(newWeight, logOdds);
    if accept then Chain(Xor(st.e, svec), newWeight, newLogp) else st
  }

  /** The proposal is symmetric: accepting the same stabilizer vector twice
      returns a consistent chain to exactly the state it left. */
  lemma StepReversible(st: Chain, svec: Bits, logOdds: real)
    requires |svec| == |st.e| && Consistent(st, logOdds)
    ensures Step(Step(st, svec, true, logOdds), svec, true, logOdds) == st
  {
    XorInvolution(st.e, svec);
  }

  /** The state the next iteration starts from. */
  function Last(init: Chain, states: seq<Chain>): (st: Chain) {
    if |states| == 0 then init else states[|states| - 1]
  }

  /** The states recorded by the first t iterations (`samples` and
      `trace_logp` are their vectors and log-probabilities). */
  function Run(init: Chain, stabs: seq<Bits>, draws: seq<nat>, accepts: seq<bool>,
               logOdds: real, t: nat): (states: seq<Chain>)
    requires t <= |draws| && t <= |accepts| && Moves(stabs, |init.e|)
    requires forall k :: 0 <= k < t ==> draws[k] < |stabs|
    ensures |states| == t
    ensures forall k :: 0 <= k < t ==> |states[k].e| == |init.e|
    decreases t
  {
    if t == 0 then []
    else
      var prev := Run(init, stabs, draws, accepts, logOdds, t - 1);
      prev + [Step(Last(init, prev), stabs[draws[t - 1]], accepts[t - 1], logOdds)]
  }

  /** A chain started consistent stays consistent: the incrementally
      tracked weight and log-probability of every recorded state are those
      of its vector. */
  lemma {:induction false} RunConsistent(init: Chain, stabs: seq<Bits>, draws: seq<nat>, accepts: seq<bool>,
                                         logOdds: real, t: nat)
    requires t <= |draws| && t <= |accepts| && Moves(stabs, |init.e|)
    requires forall k :: 0 <= k < t ==> draws[k] < |stabs|
    requires Consistent(init, logOdds)
    ensures forall k :: 0 <= k < t ==> Consistent(Run(init, stabs, draws, accepts, logOdds, t)[k], logOdds)
    decreases t
  {
    if t > 0 {
      RunConsistent(init, stabs, draws, accepts, logOdds, t - 1);
      var prev := Run(init, stabs, draws, accepts, logOdds, t - 1);
      assert Consistent(Last(init, prev), logOdds);
      var states := Run(init, stabs, draws, accepts, logOdds, t);
      forall k | 0 <= k < t ensures Consistent(states[k], logOdds) {
        if k < t - 1 {
          assert states[k] == prev[k];
        }
      }
    }
  }

  /** Recorded samples are snapshots: running longer only appends, so the
      first t' records of a longer run are those of the shorter one. */
  lemma {:induction false} RunPrefix(init: Chain, stabs: seq<Bits>, draws: seq<nat>, accepts: seq<bool>,
                                     logOdds: real, t: nat, t': nat)
    requires t <= |draws| && t <= |accepts| && Moves(stabs, |init.e|)
    requires forall k :: 0 <= k < t ==> draws[k] < |stabs|
    requires t' <= t
    ensures Run(init, stabs, draws, accepts, logOdds, t)[..t'] == Run(init, stabs, draws, accepts, logOdds, t')
    decreases t
  {
    if t' < t {
      var prev := Run(init, stabs, draws, accepts, logOdds, t - 1);
      var next := Step(Last(init, prev), stabs[draws[t - 1]], accepts[t - 1], logOdds);
      assert Run(init, stabs, draws, accepts, logOdds, t) == prev + [next];
      RunPrefix(init, stabs, draws, accepts, logOdds, t - 1, t');
      PrefixOfSnoc(prev, next, t');
    } else {
      FullPrefix(Run(init, stabs, draws, accepts, logOdds, t));
    }
  }

  lemma PrefixOfSnoc<T>(a: seq<T>, x: T, j: nat)
    requires j <= |a|
    ensures (a + [x])[..j] == a[..j]
  {
  }

  lemma PrefixIndex<T>(a: seq<T>, j: nat, k: nat)
    requires k < j <= |a|
    ensures a[..j][k] == a[k]
  {
  }

  lemma FullPrefix<T>(a: seq<T>)
    ensures a[..|a|] == a
  {
  }

  /** Record k of any longer run is step k applied to the state left by
      the first k iterations. */
  lemma RunAt(init: Chain, stabs: seq<Bits>, draws: seq<nat>, accepts: seq<bool>,
              logOdds: real, t: nat, k: nat)
    requires t <= |draws| && t <= |accepts| && Moves(stabs, |init.e|)
    requires forall k :: 0 <= k < t ==> draws[k] < |stabs|
    requires k < t
    ensures Run(init, stabs, draws, accepts, logOdds, t)[k] == Last(init, Run(init, stabs, draws, accepts, logOdds, k + 1))
  {
    var long := Run(init, stabs, draws, accepts, logOdds, t);
    var short := Run(init, stabs, draws, accepts, logOdds, k + 1);
    RunPrefix(init, stabs, draws, accepts, logOdds, t, k + 1);
    assert Last(init, short) == short[k];
    PrefixIndex(long, k + 1, k);
  }

  // ---------------------------------------------------------------------
  // The coset walked by the chain

  /** The indices of the accepted proposals among the first t iterations;
      like the draws, they are below the number m of proposal vectors. */
  function Accepted(draws: seq<nat>, accepts: seq<bool>, t: nat, m: nat): (js: seq<nat>)
    requires t <= |draws| && t <= |accepts|
    requires forall k :: 0 <= k < t ==> draws[k] < m
    ensures |js| <= t
    ensures forall i :: 0 <= i < |js| ==> js[i] < m
  {
    if t == 0 then []
    else Accepted(draws, accepts, t - 1, m) + (if accepts[t - 1] then [draws[t - 1]] else [])
  }

  /** `e` XOR the stabilizer vectors listed in js, in order. */
  function ApplyMoves(e: Bits, stabs: seq<Bits>, js: seq<nat>): (e': Bits)
    requires Moves(stabs, |e|)
    requires forall i :: 0 <= i < |js| ==> js[i] < |stabs|
    ensures |e'| == |e|
  {
    if |js| == 0 then e
    else Xor(ApplyMoves(e, stabs, js[..|js| - 1]), stabs[js[|js| - 1]])
  }

  /** Every recorded state is the initial vector XOR the stabilizer vectors
      of the proposals accepted so far. */
  lemma {:induction false} RunInCoset(init: Chain, stabs: seq<Bits>, draws: seq<nat>, accepts: seq<bool>,
                                      logOdds: real, t: nat)
    requires t <= |draws| && t <= |accepts| && Moves(stabs, |init.e|)
    requires forall k :: 0 <= k < t ==> draws[k] < |stabs|
    ensures Last(init, Run(init, stabs, draws, accepts, logOdds, t)).e
            == ApplyMoves(init.e, stabs, Accepted(draws, accepts, t, |stabs|))
    decreases t
  {
    if t > 0 {
      RunInCoset(init, stabs, draws, accepts, logOdds, t - 1);
      CosetStep(init, stabs, draws, accepts, logOdds, t);
    } else {
      assert Run(init, stabs, draws, accepts, logOdds, t) == [];
      assert Accepted(draws, accepts, t, |stabs|) == [];
    }
  }

  /** One iteration keeps the current vector equal to the initial vector
      XOR the accepted moves: an accepted proposal adds its vector on both
      sides, a rejected one changes neither. */
  lemma CosetStep(init: Chain, stabs: seq<Bits>, draws: seq<nat>, accepts: seq<bool>, logOdds: real, t: nat)
    requires 0 < t <= |draws| && t <= |accepts| && Moves(stabs, |init.e|)
    requires forall k :: 0 <= k < t ==> draws[k] < |stabs|
    requires Last(init, Run(init, stabs, draws, accepts, logOdds, t - 1)).e
             == ApplyMoves(init.e, stabs, Accepted(draws, accepts, t - 1, |stabs|))
    ensures Last(init, Run(init, stabs, draws, accepts, logOdds, t)).e
            == ApplyMoves(init.e, stabs, Accepted(draws, accepts, t, |stabs|))
  {
    var js := Accepted(draws, accepts, t - 1, |stabs|);
    RunLast(init, stabs, draws, accepts, logOdds, t);
    if accepts[t - 1] {
      assert Accepted(draws, accepts, t, |stabs|) == js + [draws[t - 1]];
      ApplyMovesSnoc(init.e, stabs, js, draws[t - 1]);
    } else {
      assert Accepted(draws, accepts, t, |stabs|) == js;
    }
  }

  /** The state after t iterations is step t applied to the state after
      t - 1 iterations. */
  lemma RunLast(init: Chain, stabs: seq<Bits>, draws: seq<nat>, accepts: seq<bool>, logOdds: real, t: nat)
    requires 0 < t <= |draws| && t <= |accepts| && Moves(stabs, |init.e|)
    requires forall k :: 0 <= k < t ==> draws[k] < |stabs|
    ensures Last(init, Run(init, stabs, draws, accepts, logOdds, t))
            == Step(Last(init, Run(init, stabs, draws, accepts, logOdds, t - 1)), stabs[draws[t - 1]], accepts[t - 1], logOdds)
  {
  }

  lemma ApplyMovesSnoc(e: Bits, stabs: seq<Bits>, js: seq<nat>, j: nat)
    requires Moves(stabs, |e|) && j < |stabs|
    requires forall i :: 0 <= i < |js| ==> js[i] < |stabs|
    ensures ApplyMoves(e, stabs, js + [j]) == Xor(ApplyMoves(e, stabs, js), stabs[j])
  {
    assert (js + [j])[..|js|] == js;
  }

  /** Flipping stabilizer vectors that every row of H sees evenly never
      changes the syndrome under H. */
  lemma {:induction false} MovesKeepSyndrome(H: Matrix, e: Bits, stabs: seq<Bits>, js: seq<nat>)
    requires Moves(stabs, |e|) && HasColumns(H, |e|)
    requires forall j :: 0 <= j < |stabs| ==> Orthogonal(H, stabs[j])
    requires forall i :: 0 <= i < |js| ==> js[i] < |stabs|
    ensures Syndrome(H, ApplyMoves(e, stabs, js)) == Syndrome(H, e)
    decreases |js|
  {
    if |js| > 0 {
      var js' := js[..|js| - 1];
      MovesKeepSyndrome(H, e, stabs, js');
      SyndromeInvariant(H, ApplyMoves(e, stabs, js'), stabs[js[|js| - 1]]);
    }
  }

  /** Every recorded state has the syndrome of the initial vector, whenever
      every proposal vector is invisible to H. */
  lemma RunKeepsSyndrome(H: Matrix, init: Chain, stabs: seq<Bits>, draws: seq<nat>, accepts: seq<bool>,
                         logOdds: real, t: nat)
    requires t <= |draws| && t <= |accepts| && Moves(stabs, |init.e|) && HasColumns(H, |init.e|)
    requires forall k :: 0 <= k < t ==> draws[k] < |stabs|
    requires forall j :: 0 <= j < |stabs| ==> Orthogonal(H, stabs[j])
    ensures forall k :: 0 <= k < t ==>
              Syndrome(H, Run(init, stabs, draws, accepts, logOdds, t)[k].e) == Syndrome(H, init.e)
  {
    var states := Run(init, stabs, draws, accepts, logOdds, t);
    forall k | 0 <= k < t
      ensures Syndrome(H, states[k].e) == Syndrome(H, init.e)
    {
      RunAt(init, stabs, draws, accepts, logOdds, t, k);
      RunInCoset(init, stabs, draws, accepts, logOdds, k + 1);
      MovesKeepSyndrome(H, init.e, stabs, Accepted(draws, accepts, k + 1, |stabs|));
    }
  }

  // ---------------------------------------------------------------------
  // Summaries of the recorded samples

  /** `np.argmax`: the first index holding the largest value. */
  function ArgMax(xs: seq<real>): (i: nat)
    requires |xs| > 0
    ensures i < |xs|
    ensures forall k :: 0 <= k < |xs| ==> xs[k] <= xs[i]
    ensures forall k :: 0 <= k < i ==> xs[k] < xs[i]
  {
    if |xs| == 1 then 0
    else
      var j := ArgMax(xs[..|xs| - 1]);
      if xs[|xs| - 1] > xs[j] then |xs| - 1 else j
  }

  /** The number of samples with bit i set. */
  function ColumnCount(samples: seq<Bits>, i: nat): (c: nat)
    requires forall t :: 0 <= t < |samples| ==> i < |samples[t]|
    ensures c <= |samples|
  {
    if |samples| == 0 then 0
    else ColumnCount(samples[..|samples| - 1], i) + (if samples[|samples| - 1][i] then 1 else 0)
  }

  /** The positions of the samples with bit i set. */
  ghost function Voters(samples: seq<Bits>, i: nat): (ts: set<nat>)
    requires forall t :: 0 <= t < |samples| ==> i < |samples[t]|
  {
    set t: nat | t < |samples| && samples[t][i]
  }

  /** ColumnCount counts exactly the samples that vote for bit i. */
  lemma {:induction false} ColumnCountIsVoters(samples: seq<Bits>, i: nat)
    requires forall t :: 0 <= t < |samples| ==> i < |samples[t]|
    ensures ColumnCount(samples, i) == |Voters(samples, i)|
    decreases |samples|
  {
    if |samples| > 0 {
      var k := |samples| - 1;
      var p := samples[..k];
      ColumnCountIsVoters(p, i);
      var rest := if samples[k][i] then {k} else {};
      assert Voters(samples, i) == Voters(p, i) + rest;
      assert k !in Voters(p, i);
    } else {
      assert Voters(samples, i) == {};
    }
  }

  /** The majority vote `e_map`: bit i is set iff more than half of the
      samples have bit i set, the column mean exceeding one half. */
  function MajorityVote(samples: seq<Bits>, n: nat): (v: Bits)
    requires forall t :: 0 <= t < |samples| ==> |samples[t]| == n
    ensures |v| == n
    ensures forall i :: 0 <= i < n ==> (v[i] <==> 2 * |Voters(samples, i)| > |samples|)
  {
    var v := seq(n, i requires 0 <= i < n => 2 * ColumnCount(samples, i) > |samples|);
    assert forall i :: 0 <= i < n ==> ColumnCount(samples, i) == |Voters(samples, i)| by {
      forall i | 0 <= i < n ensures ColumnCount(samples, i) == |Voters(samples, i)| {
        ColumnCountIsVoters(samples, i);
      }
    }
    v
  }

  /** A column on which all samples agree is voted that way. */
  lemma {:induction false} MajorityUnanimous(samples: seq<Bits>, n: nat, i: nat)
    requires forall t :: 0 <= t < |samples| ==> |samples[t]| == n
    requires |samples| > 0 && i < n
    ensures (forall t :: 0 <= t < |samples| ==> samples[t][i]) ==> MajorityVote(samples, n)[i]
    ensures (forall t :: 0 <= t < |samples| ==> !samples[t][i]) ==> !MajorityVote(samples, n)[i]
  {
    ColumnCountExtremes(samples, i);
  }

  lemma {:induction false} ColumnCountExtremes(samples: seq<Bits>, i: nat)
    requires forall t :: 0 <= t < |samples| ==> i < |samples[t]|
    ensures (forall t :: 0 <= t < |samples| ==> samples[t][i]) ==> ColumnCount(samples, i) == |samples|
    ensures (forall t :: 0 <= t < |samples| ==> !samples[t][i]) ==> ColumnCount(samples, i) == 0
    decreases |samples|
  {
    if |samples| > 0 {
      ColumnCountExtremes(samples[..|samples| - 1], i);
    }
  }

  // ---------------------------------------------------------------------
  // The sampler

  /** The ValueErrors the sampler can raise. */
  datatype SamplerError =
    | DegenerateErrorRate  // q_error is 0 or 1
    | EmptyRange           // an index drawn from an empty list of stabilizer vectors

  /** The sampler's returned dictionary, without the float `marginal`. */
  datatype Output = Output(traceLogp: seq<real>, eMap: Bits, samples: seq<Bits>, best: Bits)

  /** The best index of the trace: the first one holding the largest
      log-probability. */
  ghost predicate FirstMax(trace: seq<real>, k: int) {
    0 <= k < |trace|
    && (forall t :: 0 <= t < |trace| ==> trace[t] <= trace[k])
    && (forall t :: 0 <= t < k ==> trace[t] < trace[k])
  }

  /** The best vector is that of the first state holding the largest
      log-probability. */
  ghost predicate BestIsFirstMax(out: Output, states: seq<Chain>) {
    exists k :: FirstMax(out.traceLogp, k) && k < |states| && out.best == states[k].e
  }

  /** The dictionary built from the recorded states: `trace_logp`, the
      post-burn-in `samples`, `e_map` and the highest-probability `best_e`. */
  function Summarize(states: seq<Chain>, n: nat, burnIn: nat): (out: Output)
    requires burnIn < |states|
    requires forall k :: 0 <= k < |states| ==> |states[k].e| == n
    ensures |out.traceLogp| == |states| && |out.samples| == |states| - burnIn
    ensures |out.best| == n && |out.eMap| == n
    ensures forall k :: 0 <= k < |states| ==> out.traceLogp[k] == states[k].logp
    ensures forall k :: 0 <= k < |states| - burnIn ==> out.samples[k] == states[burnIn + k].e
    ensures forall i :: 0 <= i < n ==> (out.eMap[i] <==> 2 * ColumnCount(out.samples, i) > |states| - burnIn)
    ensures BestIsFirstMax(out, states)
  {
    var trace := seq(|states|, k requires 0 <= k < |states| => states[k].logp);
    var post := seq(|states| - burnIn, k requires 0 <= k < |states| - burnIn => states[burnIn + k].e);
    var best := ArgMax(trace);
    assert FirstMax(trace, best);
    Output(trace, MajorityVote(post, n), post, states[best].e)
  }

  /** `metropolis_hastings_on_stabilizers(code, H_stab, init_e,
      stabilizer_vectors, q_error, n_samples, burn_in)`; the unused `code`
      argument is dropped. */
  function MetropolisHastings(hStab: Matrix, init: Bits, stabs: seq<Bits>, q: real, logOdds: real,
                              nSamples: nat, burnIn: nat, draws: seq<nat>, accepts: seq<bool>)
    : (r: Result<Output, SamplerError>)
    requires 1 <= nSamples && burnIn < nSamples
    requires |draws| == nSamples && |accepts| == nSamples
    requires Moves(stabs, |init|)
    requires |stabs| > 0 ==> forall k :: 0 <= k < |draws| ==> draws[k] < |stabs|
    ensures r.Failure? <==> q == 0.0 || q == 1.0 || |stabs| == 0
    ensures r.Failure? ==> r.error == (if q == 0.0 || q == 1.0 then DegenerateErrorRate else EmptyRange)
    ensures r.Success? ==>
              r.value == Summarize(Run(Start(init, logOdds), stabs, draws, accepts, logOdds, nSamples),
                                   |init|, burnIn)
    ensures r.Success? && HasColumns(hStab, |init|) && (forall j :: 0 <= j < |stabs| ==> Orthogonal(hStab, stabs[j])) ==>
              && Syndrome(hStab, r.value.best) == Syndrome(hStab, init)
              && forall k :: 0 <= k < |r.value.samples| ==> Syndrome(hStab, r.value.samples[k]) == Syndrome(hStab, init)
  {
    if q == 0.0 || q == 1.0 then Failure(DegenerateErrorRate)
    else if |stabs| == 0 then Failure(EmptyRange)
    else
      var states := Run(Start(init, logOdds), stabs, draws, accepts, logOdds, nSamples);
      var out := Summarize(states, |init|, burnIn);
      SummaryKeepsSyndrome(hStab, init, stabs, logOdds, nSamples, burnIn, draws, accepts);
      Success(out)
  }

  /** With proposals invisible to H, the best state and all the samples
      keep the syndrome of the initial vector. */
  lemma SummaryKeepsSyndrome(hStab: Matrix, init: Bits, stabs: seq<Bits>, logOdds: real,
                             nSamples: nat, burnIn: nat, draws: seq<nat>, accepts: seq<bool>)
    requires 1 <= nSamples && burnIn < nSamples
    requires |draws| == nSamples && |accepts| == nSamples
    requires Moves(stabs, |init|)
    requires forall k :: 0 <= k < |draws| ==> draws[k] < |stabs|
    ensures var out := Summarize(Run(Start(init, logOdds), stabs, draws, accepts, logOdds, nSamples),
                                 |init|, burnIn);
            HasColumns(hStab, |init|) && (forall j :: 0 <= j < |stabs| ==> Orthogonal(hStab, stabs[j])) ==>
              && Syndrome(hStab, out.best) == Syndrome(hStab, init)
              && forall k :: 0 <= k < |out.samples| ==> Syndrome(hStab, out.samples[k]) == Syndrome(hStab, init)
  {
    var states := Run(Start(init, logOdds), stabs, draws, accepts, logOdds, nSamples);
    var out := Summarize(states, |init|, burnIn);
    if HasColumns(hStab, |init|) && (forall j :: 0 <= j < |stabs| ==> Orthogonal(hStab, stabs[j])) {
      RunKeepsSyndrome(hStab, Start(init, logOdds), stabs, draws, accepts, logOdds, nSamples);
      var k :| FirstMax(out.traceLogp, k) && k < |states| && out.best == states[k].e;
    }
  }

  /** The recorded log-probabilities are those of the recorded vectors:
      the incremental bookkeeping never drifts from `w * log_odds`. */
  lemma TraceIsLogProb(hStab: Matrix, init: Bits, stabs: seq<Bits>, q: real, logOdds: real,
                       nSamples: nat, burnIn: nat, draws: seq<nat>, accepts: seq<bool>)
    requires 1 <= nSamples && burnIn < nSamples
    requires |draws| == nSamples && |accepts| == nSamples
    requires Moves(stabs, |init|)
    requires |stabs| > 0 ==> forall k :: 0 <= k < |draws| ==> draws[k] < |stabs|
    ensures var r := MetropolisHastings(hStab, init, stabs, q, logOdds, nSamples, burnIn, draws, accepts);
            r.Success? ==>
              var states := Run(Start(init, logOdds), stabs, draws, accepts, logOdds, nSamples);
              forall k :: 0 <= k < nSamples ==> r.value.traceLogp[k] == LogProb(Weight(states[k].e), logOdds)
  {
    var r := MetropolisHastings(hStab, init, stabs, q, logOdds, nSamples, burnIn, draws, accepts);
    if r.Success? {
      RunConsistent(Start(init, logOdds), stabs, draws, accepts, logOdds, nSamples);
    }
  }

  /** State k is a lightest recorded state, and the first one: every
      earlier state is strictly heavier. */
  ghost predicate FirstLightest(states: seq<Chain>, k: int) {
    && 0 <= k < |states|
    && (forall t :: 0 <= t < |states| ==> Weight(states[k].e) <= Weight(states[t].e))
    && (forall t :: 0 <= t < k ==> Weight(states[k].e) < Weight(states[t].e))
  }

  /** e is the vector of the first recorded state of least weight. */
  ghost predicate IsFirstLightest(e: Bits, states: seq<Chain>) {
    exists k :: FirstLightest(states, k) && e == states[k].e
  }

  /** For q < 1/2 (logOdds < 0) the best sample is the first lightest
      recorded state. */
  lemma BestIsLightest(hStab: Matrix, init: Bits, stabs: seq<Bits>, q: real, logOdds: real,
                       nSamples: nat, burnIn: nat, draws: seq<nat>, accepts: seq<bool>)
    requires 1 <= nSamples && burnIn < nSamples
    requires |draws| == nSamples && |accepts| == nSamples
    requires Moves(stabs, |init|)
    requires |stabs| > 0 ==> forall k :: 0 <= k < |draws| ==> draws[k] < |stabs|
    requires logOdds < 0.0
    ensures var r := MetropolisHastings(hStab, init, stabs, q, logOdds, nSamples, burnIn, draws, accepts);
            r.Success? ==>
              IsFirstLightest(r.value.best, Run(Start(init, logOdds), stabs, draws, accepts, logOdds, nSamples))
  {
    var r := MetropolisHastings(hStab, init, stabs, q, logOdds, nSamples, burnIn, draws, accepts);
    if r.Success? {
      var states := Run(Start(init, logOdds), stabs, draws, accepts, logOdds, nSamples);
      assert forall t :: 0 <= t < |states| ==> Consistent(states[t], logOdds) by {
        RunConsistent(Start(init, logOdds), stabs, draws, accepts, logOdds, nSamples);
      }
      SummaryBestIsLightest(states, |init|, burnIn, logOdds);
    }
  }

  /** On a run whose bookkeeping is consistent and with logOdds < 0, the
      summary's best vector is the first lightest recorded state. */
  lemma SummaryBestIsLightest(states: seq<Chain>, n: nat, burnIn: nat, logOdds: real)
    requires burnIn < |states| && logOdds < 0.0
    requires forall t :: 0 <= t < |states| ==> |states[t].e| == n
    requires forall t :: 0 <= t < |states| ==> Consistent(states[t], logOdds)
    ensures IsFirstLightest(Summarize(states, n, burnIn).best, states)
  {
    var out := Summarize(states, n, burnIn);
    var k :| FirstMax(out.traceLogp, k) && k < |states| && out.best == states[k].e;
    FirstMaxIsLightest(states, out.traceLogp, k, logOdds);
  }

  /** With a negative log-odds, the first maximum of the log-probabilities
      is the first minimum of the weights. */
  lemma FirstMaxIsLightest(states: seq<Chain>, trace: seq<real>, k: int, logOdds: real)
    requires |trace| == |states| && logOdds < 0.0
    requires forall t :: 0 <= t < |states| ==> trace[t] == LogProb(Weight(states[t].e), logOdds)
    requires FirstMax(trace, k)
    ensures FirstLightest(states, k)
  {
    forall t | 0 <= t < |states| ensures Weight(states[k].e) <= Weight(states[t].e) {
      ScaleReverses(Weight(states[k].e), Weight(states[t].e), logOdds);
    }
    forall t | 0 <= t < k ensures Weight(states[k].e) < Weight(states[t].e) {
      ScaleReverses(Weight(states[k].e), Weight(states[t].e), logOdds);
    }
  }

  /** Multiplying by a negative constant reverses the order of weights. */
  lemma ScaleReverses(a: nat, b: nat, c: real)
    requires c < 0.0
    ensures LogProb(a, c) >= LogProb(b, c) <==> a <= b
    ensures LogProb(a, c) > LogProb(b, c) <==> a < b
  {
    if a <= b {
      assert (b as real) * c - (a as real) * c == ((b - a) as real) * c;
    } else {
      assert (a as real) * c - (b as real) * c == ((a - b) as real) * c;
    }
  }

  // ---------------------------------------------------------------------
  // The best sample lies in the coset of the initial vector

  /** e is the initial vector XOR some list of the stabilizer vectors. */
  ghost predicate InCoset(e: Bits, init: Bits, stabs: seq<Bits>)
    requires Moves(stabs, |init|)
  {
    exists js: seq<nat> :: (forall i :: 0 <= i < |js| ==> js[i] < |stabs|) && e == ApplyMoves(init, stabs, js)
  }

  /** Every recorded state is the initial vector XOR the stabilizer
      vectors accepted up to its own iteration. */
  lemma RecordIsAccepted(init: Chain, stabs: seq<Bits>, draws: seq<nat>, accepts: seq<bool>,
                         logOdds: real, t: nat, k: nat)
    requires t <= |draws| && t <= |accepts| && Moves(stabs, |init.e|)
    requires forall j :: 0 <= j < t ==> draws[j] < |stabs|
    requires k < t
    ensures Run(init, stabs, draws, accepts, logOdds, t)[k].e
            == ApplyMoves(init.e, stabs, Accepted(draws, accepts, k + 1, |stabs|))
  {
    RunAt(init, stabs, draws, accepts, logOdds, t, k);
    RunInCoset(init, stabs, draws, accepts, logOdds, k + 1);
  }

  /** `best_sample` is a state the chain visited, so it differs from
      `init_e` by the stabilizer vectors accepted up to that iteration. */
  lemma BestInCoset(hStab: Matrix, init: Bits, stabs: seq<Bits>, q: real, logOdds: real,
                    nSamples: nat, burnIn: nat, draws: seq<nat>, accepts: seq<bool>)
    requires 1 <= nSamples && burnIn < nSamples
    requires |draws| == nSamples && |accepts| == nSamples
    requires Moves(stabs, |init|)
    requires |stabs| > 0 ==> forall k :: 0 <= k < |draws| ==> draws[k] < |stabs|
    ensures var r := MetropolisHastings(hStab, init, stabs, q, logOdds, nSamples, burnIn, draws, accepts);
            r.Success? ==> InCoset(r.value.best, init, stabs)
  {
    var r := MetropolisHastings(hStab, init, stabs, q, logOdds, nSamples, burnIn, draws, accepts);
    if r.Success? {
      var states := Run(Start(init, logOdds), stabs, draws, accepts, logOdds, nSamples);
      var out := Summarize(states, |init|, burnIn);
      assert r.value == out;
      var k :| FirstMax(out.traceLogp, k) && k < |states| && out.best == states[k].e;
      RecordIsAccepted(Start(init, logOdds), stabs, draws, accepts, logOdds, nSamples, k);
      var js := Accepted(draws, accepts, k + 1, |stabs|);
      assert out.best == ApplyMoves(init, stabs, js);
    }
  }
}
