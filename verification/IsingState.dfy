/**
 The mutable half of src/bin/bio_quantum_record.rs: the cached state, the flip
 that updates every cache in place, and the anneal and polish loops.
 Random draws are inputs: the caller supplies the starting spins and, per
 step, the candidate sites and the uphill threshold.
 */
module IsingState {
  import opened IsingSolver
  import opened PackedSpins
  import opened RealTools

  // ---- State ----------------------------------------------------------------

  /** `2 alpha / n`, `k` times. */
  function Overshoot(alpha: real, n: nat, k: nat): real
    requires n != 0
  {
    2.0 * alpha * (k as real) / (n as real)
  }

  lemma OvershootStep(p: Problem, k: nat)
    requires p.n != 0
    ensures Overshoot(p.alpha, p.n, 0) == 0.0
    ensures Overshoot(p.alpha, p.n, k + 1) == Overshoot(p.alpha, p.n, k) + Excess(p)
  {
    var c := Excess(p);
    assert 2.0 * p.alpha * (k as real) / (p.n as real) == c * (k as real);
    assert 2.0 * p.alpha * ((k + 1) as real) / (p.n as real) == c * ((k + 1) as real);
  }

  lemma ExcessSign(p: Problem)
    requires p.n != 0
    ensures p.alpha >= 0.0 ==> Excess(p) >= 0.0
    ensures Excess(p) == 0.0 <==> p.alpha == 0.0
  {
    assert Excess(p) * (p.n as real) == 2.0 * p.alpha;
  }

  lemma OvershootSign(alpha: real, n: nat, k: nat)
    requires n != 0
    ensures Overshoot(alpha, n, k) == 0.0 <==> alpha == 0.0 || k == 0
  {
    var x, y := k as real, n as real;
    assert Overshoot(alpha, n, k) * y == 2.0 * (alpha * x);
    assert alpha * x == 0.0 <==> alpha == 0.0 || x == 0.0;
  }

  lemma DoubledFlip(spin: int, r: int, w: real)
    requires spin == 1 || spin == -1
    ensures (-spin - spin) * r == -2 * spin * r
    ensures w * ((-spin - spin) as real) == -2.0 * Signed(spin, w)
  {
  }

  lemma PairProduct(w: real, a: int, b: int)
    requires (a == 1 || a == -1) && (b == 1 || b == -1)
    ensures w * (a as real) * (b as real) == Signed(a, Signed(b, w))
  {
  }

  /** One annealing step's random draws. */
  datatype Proposal = Proposal(candidates: seq<nat>, threshold: real)

  ghost predicate ProposalsValid(p: Problem, proposals: seq<Proposal>) {
    forall t :: 0 <= t < |proposals| ==> CandidatesValid(p, proposals[t].candidates)
  }

  /** No step accepts an uphill move. */
  ghost predicate Cold(proposals: seq<Proposal>) {
    forall t :: 0 <= t < |proposals| ==> proposals[t].threshold <= 0.0
  }

  ghost predicate CandidatesValid(p: Problem, candidates: seq<nat>) {
    candidates != [] && forall c :: 0 <= c < |candidates| ==> candidates[c] < p.n
  }

  /** What one annealing step did. */
  datatype StepTaken = StepTaken(dE: real, accepted: bool)

  function RunningEnergy(start: real, log: seq<StepTaken>): real {
    if log == [] then start
    else
      var last := log[|log| - 1];
      RunningEnergy(start, log[..|log| - 1]) + (if last.accepted then last.dE else 0.0)
  }

  function BestRunning(start: real, log: seq<StepTaken>): real {
    if log == [] then start
    else
      var best, e := BestRunning(start, log[..|log| - 1]), RunningEnergy(start, log);
      if e < best then e else best
  }

  /** Steps since the running energy last beat every earlier one. */
  function StepsSinceBest(start: real, log: seq<StepTaken>): nat {
    if log == [] then 0
    else if RunningEnergy(start, log) < BestRunning(start, log[..|log| - 1]) then 0
    else StepsSinceBest(start, log[..|log| - 1]) + 1
  }

  function Accepted(log: seq<StepTaken>): nat {
    if log == [] then 0
    else Accepted(log[..|log| - 1]) + (if log[|log| - 1].accepted then 1 else 0)
  }

  predicate Plateau(start: real, log: seq<StepTaken>, limit: nat, baseline: bool) {
    !baseline && StepsSinceBest(start, log) >= limit
  }

  /** The run did not pass a plateau before its last step. */
  ghost predicate NoEarlierPlateau(start: real, log: seq<StepTaken>, limit: nat, baseline: bool) {
    forall t :: 0 < t < |log| ==> !Plateau(start, log[..t], limit, baseline)
  }

  lemma LogStep(start: real, log: seq<StepTaken>, step: StepTaken, limit: nat, baseline: bool)
    ensures var after := log + [step];
            var e := RunningEnergy(start, log) + (if step.accepted then step.dE else 0.0);
            var best := BestRunning(start, log);
      && RunningEnergy(start, after) == e
      && BestRunning(start, after) == (if e < best then e else best)
      && StepsSinceBest(start, after) == (if e < best then 0 else StepsSinceBest(start, log) + 1)
      && Accepted(after) == Accepted(log) + (if step.accepted then 1 else 0)
      && (NoEarlierPlateau(start, log, limit, baseline) && (log == [] || !Plateau(start, log, limit, baseline))
          ==> NoEarlierPlateau(start, after, limit, baseline))
  {
    var after := log + [step];
    assert after[..|log|] == log;
    assert forall t :: 0 <= t <= |log| ==> after[..t] == log[..t];
  }

  lemma {:induction false} BestNeverRises(start: real, log: seq<StepTaken>)
    ensures BestRunning(start, log) <= RunningEnergy(start, log)
  {
    if log != [] {
      BestNeverRises(start, log[..|log| - 1]);
    }
  }

  /** `BestRunning` is the least running energy of the whole run. */
  lemma {:induction false} BestIsLeast(start: real, log: seq<StepTaken>)
    ensures forall t :: 0 <= t <= |log| ==> BestRunning(start, log) <= RunningEnergy(start, log[..t])
    ensures exists t :: 0 <= t <= |log| && BestRunning(start, log) == RunningEnergy(start, log[..t])
  {
    if log == [] {
      assert log[..0] == log;
    } else {
      var rest := log[..|log| - 1];
      BestIsLeast(start, rest);
      assert log[..|log|] == log;
      assert forall t :: 0 <= t <= |rest| ==> log[..t] == rest[..t];
      var t :| 0 <= t <= |rest| && BestRunning(start, rest) == RunningEnergy(start, rest[..t]);
      assert log[..t] == rest[..t];
    }
  }

  class State {
    var s: seq<int>
    var packed: seq<Word>
    var sparseLocal: seq<real>
    var mRef: int

    /** Every cache equals its full recomputation from the spins. */
    ghost predicate Valid(p: Problem)
      reads this
    {
      && p.Valid() && Spins(p, s)
      && FieldsAccurate(p, s, sparseLocal)
      && mRef == Overlap(p, s, p.n)
      && Mirrors(packed, s)
    }

    constructor (p: Problem, spins: seq<int>)
      requires p.Valid() && Spins(p, spins)
      ensures Valid(p) && s == spins
    {
      s := spins;
      var fields := p.h;
      var m := 0;
      for i := 0 to p.n
        invariant |fields| == p.n
        invariant forall j :: 0 <= j < i ==> fields[j] == SparseField(p, spins, j)
        invariant forall j :: i <= j < p.n ==> fields[j] == p.h[j]
        invariant m == Overlap(p, spins, i)
      {
        var acc := fields[i];
        for k := p.rowPtr[i] to p.rowPtr[i + 1]
          invariant acc == p.h[i] + RowSum(p, spins, p.rowPtr[i], k)
        {
          SignedIsProduct(spins[p.colIdx[k]], p.w[k]);
          acc := acc + p.w[k] * (spins[p.colIdx[k]] as real);
        }
        fields := fields[i := acc];
        m := m + spins[i] * p.refSpin[i];
      }
      sparseLocal := fields;
      mRef := m;
      var bits := PackSpins(spins);
      packed := bits;
    }

    function Field(p: Problem, i: nat): real
      requires i < |p.refSpin| && i < |sparseLocal| && p.n != 0
      reads this
    {
      LowRankAt(p, mRef, i) + sparseLocal[i]
    }

    /** The cached field is the field recomputed from scratch. */
    lemma FieldAccurate(p: Problem, i: nat)
      requires Valid(p) && i < p.n
      ensures Field(p, i) == LocalField(p, s, i)
    {
    }

    /** `(st.s[i] as f32) * local_field(p, st, i)` on the caches. */
    function CachedMargin(p: Problem, i: nat): real
      requires i < |s| && i < |p.refSpin| && i < |sparseLocal| && p.n != 0
      reads this
    {
      (s[i] as real) * Field(p, i)
    }

    lemma MarginAccurate(p: Problem, i: nat)
      requires Valid(p) && i < p.n
      ensures CachedMargin(p, i) == Margin(p, s, i)
    {
      FieldAccurate(p, i);
      SignedIsProduct(s[i], Field(p, i));
    }

    /** The pair loop of `energy`. */
    method SparseEnergy(p: Problem) returns (sparse: real)
      requires p.Valid() && Spins(p, s)
      ensures sparse == PairEnergy(p, s, p.n)
    {
      sparse := 0.0;
      for i := 0 to p.n
        invariant sparse == PairEnergy(p, s, i)
      {
        for k := p.rowPtr[i] to p.rowPtr[i + 1]
          invariant sparse == PairEnergy(p, s, i) + Signed(s[i], UpperRow(p, s, i, p.rowPtr[i], k))
        {
          var j := p.colIdx[k];
          if j > i {
            PairProduct(p.w[k], s[i], s[j]);
            sparse := sparse + p.w[k] * (s[i] as real) * (s[j] as real);
          }
        }
      }
    }

    method Energy(p: Problem) returns (e: real)
      requires Valid(p)
      ensures e == EnergyOf(p, s)
    {
      var m := mRef as real;
      e := -0.5 * p.alpha * (m * m) / (p.n as real);
      for i := 0 to p.n
        invariant e == QuadraticEnergy(p, mRef) - BiasEnergy(p, s, i)
      {
        SignedIsProduct(s[i], p.h[i]);
        e := e - p.h[i] * (s[i] as real);
      }
      var sparse := SparseEnergy(p);
      e := e - sparse;
    }

    /** The neighbour loop of `apply_flip`, for a spin that was `before`. */
    method PushToNeighbours(p: Problem, i: nat, before: int)
      requires p.Valid() && i < p.n && |sparseLocal| == p.n && (before == 1 || before == -1)
      modifies this`sparseLocal
      ensures Pushed(p, i, before, old(sparseLocal), sparseLocal)
    {
      var delta := -before - before; // +-2
      for k := p.rowPtr[i] to p.rowPtr[i + 1]
        invariant |sparseLocal| == p.n
        invariant forall j :: 0 <= j < p.n ==>
                    sparseLocal[j] == old(sparseLocal)[j] - 2.0 * Signed(before, RowWeight(p, p.rowPtr[i], k, j))
      {
        var j := p.colIdx[k];
        var step := p.w[k] * (delta as real);
        DoubledFlip(before, 1, p.w[k]);
        sparseLocal := sparseLocal[j := sparseLocal[j] + step];
      }
    }

    /** The spin, its bit and the overlap: the part of `apply_flip` above its loop. */
    method FlipSpin(p: Problem, i: nat)
      requires p.Valid() && Spins(p, s) && i < p.n && mRef == Overlap(p, s, p.n) && Mirrors(packed, s)
      modifies this`s, this`packed, this`mRef
      ensures s == Flipped(old(s), i) && Spins(p, s)
      ensures Mirrors(packed, s) && mRef == Overlap(p, s, p.n)
    {
      var before := s[i];
      var after := -before;
      var delta := after - before; // +-2
      s := s[i := after];
      ToggleMirrors(packed, old(s), i);
      packed := Toggle(packed, i);
      OverlapFlip(p, old(s), p.n, i);
      DoubledFlip(before, p.refSpin[i], 0.0);
      mRef := mRef + delta * p.refSpin[i];
    }

    /**
     Flips site `i` and patches every cache. The bits and the overlap are always
     right afterwards; the fields are right exactly when row and column `i` agree.
     */
    method ApplyFlip(p: Problem, i: nat)
      requires Valid(p) && i < p.n
      modifies this
      ensures s == Flipped(old(s), i) && Spins(p, s)
      ensures Mirrors(packed, s) && mRef == Overlap(p, s, p.n)
      ensures FieldsAccurate(p, s, sparseLocal) <==> p.SymmetricAt(i)
      ensures Pushed(p, i, old(s)[i], old(sparseLocal), sparseLocal)
    {
      var before := s[i];
      FlipSpin(p, i);
      PushToNeighbours(p, i, before);
      FieldUpdateIff(p, old(s), i, old(sparseLocal), sparseLocal);
    }

    /** The candidate with the strongest field; the earliest one on ties. */
    method Shortlist(p: Problem, candidates: seq<nat>) returns (best: nat)
      requires Valid(p) && CandidatesValid(p, candidates)
      ensures exists b :: 0 <= b < |candidates| && best == candidates[b]
                && (forall c :: 0 <= c < |candidates| ==>
                      Abs(LocalField(p, s, candidates[c])) <= Abs(LocalField(p, s, best)))
                && (forall c :: 0 <= c < b ==>
                      Abs(LocalField(p, s, candidates[c])) < Abs(LocalField(p, s, best)))
    {
      var at := 0;
      best := candidates[0];
      FieldAccurate(p, best);
      var bestScore := Abs(Field(p, best));
      for c := 1 to |candidates|
        invariant 0 <= at < c && best == candidates[at]
        invariant bestScore == Abs(LocalField(p, s, best))
        invariant forall d :: 0 <= d < c ==> Abs(LocalField(p, s, candidates[d])) <= bestScore
        invariant forall d :: 0 <= d < at ==> Abs(LocalField(p, s, candidates[d])) < bestScore
      {
        FieldAccurate(p, candidates[c]);
        var score := Abs(Field(p, candidates[c]));
        if score > bestScore {
          bestScore := score;
          best := candidates[c];
          at := c;
        }
      }
    }

    /** One accept-or-reject step at site `i`, and what it really does to the energy. */
    method TryFlip(p: Problem, i: nat, threshold: real) returns (dE: real, accepted: bool)
      requires Valid(p) && i < p.n && p.Symmetric()
      modifies this
      ensures Valid(p)
      ensures dE == 2.0 * Margin(p, old(s), i)
      ensures accepted <==> dE <= 0.0 || dE < threshold
      ensures s == if accepted then Flipped(old(s), i) else old(s)
      ensures EnergyOf(p, s) == EnergyOf(p, old(s)) + (if accepted then dE - Excess(p) else 0.0)
    {
      MarginAccurate(p, i);
      dE := 2.0 * CachedMargin(p, i);
      accepted := dE <= 0.0 || dE < threshold;
      if accepted {
        assert p.SymmetricAt(i);
        FlipEnergy(p, s, i);
        ApplyFlip(p, i);
      }
    }

    /** Picks a site and tries it: what the loop below needs to know of one step. */
    method Propose(p: Problem, proposal: Proposal) returns (dE: real, accepted: bool)
      requires Valid(p) && p.Symmetric() && CandidatesValid(p, proposal.candidates)
      modifies this
      ensures Valid(p)
      ensures accepted <==> dE <= 0.0 || dE < proposal.threshold
      ensures EnergyOf(p, s) == EnergyOf(p, old(s)) + (if accepted then dE - Excess(p) else 0.0)
    {
      var i := Shortlist(p, proposal.candidates);
      dE, accepted := TryFlip(p, i, proposal.threshold);
    }

    /**
     The annealing loop. Its running energy `e` is not the energy: it is too high
     by exactly `2 alpha / n` for every accepted flip. `log` is what each step did.
     The loop runs out of proposals or stops at the first full plateau.
     */
    method Anneal(p: Problem, proposals: seq<Proposal>, plateauLimit: nat, baseline: bool)
      returns (e: real, bestE: real, ghost log: seq<StepTaken>)
      requires Valid(p) && p.Symmetric() && ProposalsValid(p, proposals)
      modifies this
      ensures Valid(p)
      ensures |log| <= |proposals|
      ensures e == RunningEnergy(EnergyOf(p, old(s)), log)
      ensures e == EnergyOf(p, s) + Overshoot(p.alpha, p.n, Accepted(log))
      ensures bestE == BestRunning(EnergyOf(p, old(s)), log)
      ensures NoEarlierPlateau(EnergyOf(p, old(s)), log, plateauLimit, baseline)
      ensures |log| < |proposals| ==> Plateau(EnergyOf(p, old(s)), log, plateauLimit, baseline)
      ensures p.alpha >= 0.0 && Cold(proposals) ==> EnergyOf(p, s) <= EnergyOf(p, old(s))
    {
      e := Energy(p);
      bestE := e;
      log := [];
      ExcessSign(p);
      OvershootStep(p, 0);
      ghost var start := e;
      var noImprovement := 0;
      var t := 0;
      while t < |proposals|
        invariant 0 <= t <= |proposals| && |log| == t
        invariant Valid(p)
        invariant e == RunningEnergy(start, log) == EnergyOf(p, s) + Overshoot(p.alpha, p.n, Accepted(log))
        invariant bestE == BestRunning(start, log)
        invariant noImprovement == StepsSinceBest(start, log)
        invariant NoEarlierPlateau(start, log, plateauLimit, baseline)
        invariant t > 0 ==> !Plateau(start, log, plateauLimit, baseline)
        invariant p.alpha >= 0.0 && Cold(proposals) ==> EnergyOf(p, s) <= EnergyOf(p, old(s))
      {
        var dE, accepted := Propose(p, proposals[t]);
        LogStep(start, log, StepTaken(dE, accepted), plateauLimit, baseline);
        BestNeverRises(start, log);
        OvershootStep(p, Accepted(log));
        log := log + [StepTaken(dE, accepted)];
        if accepted {
          e := e + dE;
          if e < bestE {
            bestE := e;
            noImprovement := 0;
          } else {
            noImprovement := noImprovement + 1;
          }
        } else {
          noImprovement := noImprovement + 1;
        }
        t := t + 1;
        if !baseline && noImprovement >= plateauLimit {
          break;
        }
      }
    }

    /** The first site of least margin, if any margin is negative. */
    method WorstSite(p: Problem) returns (found: bool, worst: nat)
      requires Valid(p)
      ensures found ==> worst < p.n && Margin(p, s, worst) < 0.0
      ensures found ==> forall j :: 0 <= j < p.n ==>
                Margin(p, s, worst) <= Margin(p, s, j)
      ensures !found ==> forall j :: 0 <= j < p.n ==> 0.0 <= Margin(p, s, j)
    {
      found, worst := false, 0;
      var worstMargin := 0.0;
      for i := 0 to p.n
        invariant worstMargin <= 0.0 && (!found ==> worstMargin == 0.0)
        invariant found ==> worst < i && worstMargin == Margin(p, s, worst) < 0.0
        invariant forall j :: 0 <= j < i ==> worstMargin <= Margin(p, s, j)
      {
        MarginAccurate(p, i);
        var margin := CachedMargin(p, i);
        if margin < worstMargin {
          worstMargin := margin;
          found, worst := true, i;
        }
      }
    }

    /**
     The polish loop. With `alpha >= 0` every flip strictly lowers the energy; if
     it stops before its bound, no single flip lowers it by more than `2 alpha / n`.
     */
    method Polish(p: Problem) returns (ghost energies: seq<real>, settled: bool)
      requires Valid(p) && p.Symmetric()
      modifies this
      ensures Valid(p)
      ensures 1 <= |energies| <= p.n + 1
      ensures energies[0] == EnergyOf(p, old(s)) && energies[|energies| - 1] == EnergyOf(p, s)
      ensures p.alpha >= 0.0 ==> forall t :: 0 <= t < |energies| - 1 ==> energies[t + 1] < energies[t]
      ensures !settled ==> |energies| == p.n + 1
      ensures settled ==> forall j :: 0 <= j < p.n ==>
                EnergyOf(p, Flipped(s, j)) >= EnergyOf(p, s) - Excess(p)
    {
      energies := [EnergyOf(p, s)];
      settled := false;
      ExcessSign(p);
      var round := 0;
      while round < p.n
        invariant 0 <= round <= p.n && |energies| == round + 1
        invariant Valid(p)
        invariant energies[0] == EnergyOf(p, old(s)) && energies[round] == EnergyOf(p, s)
        invariant p.alpha >= 0.0 ==> forall t :: 0 <= t < round ==> energies[t + 1] < energies[t]
      {
        var found, i := WorstSite(p);
        if found {
          assert p.SymmetricAt(i);
          FlipEnergy(p, s, i);
          ApplyFlip(p, i);
          energies := energies + [EnergyOf(p, s)];
        } else {
          settled := true;
          forall j | 0 <= j < p.n
            ensures EnergyOf(p, Flipped(s, j)) >= EnergyOf(p, s) - Excess(p)
          {
            assert p.SymmetricAt(j);
            FlipEnergy(p, s, j);
          }
          break;
        }
        round := round + 1;
      }
    }
  }

  /** Sites that agree with the reference minus sites that do not. */
  function Agreement(s: seq<int>, refSpin: seq<int>, k: nat): int
    requires k <= |s| && k <= |refSpin|
  {
    if k == 0 then 0 else Agreement(s, refSpin, k - 1) + (if s[k - 1] == refSpin[k - 1] then 1 else -1)
  }

  lemma {:induction false} AgreementIsOverlap(p: Problem, s: seq<int>, k: nat)
    requires p.Valid() && Spins(p, s) && k <= p.n
    ensures Agreement(s, p.refSpin, k) == Overlap(p, s, k)
  {
    if k > 0 {
      AgreementIsOverlap(p, s, k - 1);
    }
  }

  /** `overlap_ref`. */
  method OverlapRef(p: Problem, s: seq<int>) returns (overlap: real)
    requires p.Valid() && Spins(p, s)
    ensures overlap == Abs(Overlap(p, s, p.n) as real) / (p.n as real)
  {
    var sum := 0;
    for i := 0 to p.n
      invariant sum == Agreement(s, p.refSpin, i)
    {
      sum := sum + (if s[i] == p.refSpin[i] then 1 else -1);
    }
    AgreementIsOverlap(p, s, p.n);
    overlap := Abs(sum as real) / (p.n as real);
  }

  /** One start of `run_solver`: the reported energy is recomputed, so free of the drift. */
  method RunStart(p: Problem, spins: seq<int>, proposals: seq<Proposal>, plateauLimit: nat, baseline: bool)
    returns (energy: real, overlap: real, final: seq<int>)
    requires p.Valid() && p.Symmetric() && Spins(p, spins) && ProposalsValid(p, proposals)
    ensures Spins(p, final)
    ensures energy == EnergyOf(p, final)
    ensures overlap == Abs(Overlap(p, final, p.n) as real) / (p.n as real)
    ensures p.alpha >= 0.0 && Cold(proposals) ==> energy <= EnergyOf(p, spins)
  {
    var st := new State(p, spins);
    var e, bestE, log := st.Anneal(p, proposals, plateauLimit, baseline);
    if !baseline {
      var energies, settled := st.Polish(p);
      Falling(energies, |energies| - 1);
    }
    energy := st.Energy(p);
    final := st.s;
    overlap := OverlapRef(p, final);
  }

  lemma {:induction false} Falling(energies: seq<real>, k: nat)
    requires k < |energies|
    ensures (forall t :: 0 <= t < |energies| - 1 ==> energies[t + 1] < energies[t]) ==> energies[k] <= energies[0]
  {
    if k > 0 {
      Falling(energies, k - 1);
      if forall t :: 0 <= t < |energies| - 1 ==> energies[t + 1] < energies[t] {
        assert energies[(k - 1) + 1] < energies[k - 1];
      }
    }
  }

  // ---- Runs of flips --------------------------------------------------------

  function FlipAll(s: seq<int>, sites: seq<nat>): (r: seq<int>)
    requires forall t :: 0 <= t < |sites| ==> sites[t] < |s|
    ensures |r| == |s|
    decreases |sites|
  {
    if sites == [] then s else Flipped(FlipAll(s, sites[..|sites| - 1]), sites[|sites| - 1])
  }

  ghost function DeltaSum(p: Problem, s: seq<int>, sites: seq<nat>): real
    requires p.Valid() && Spins(p, s)
    requires forall t :: 0 <= t < |sites| ==> sites[t] < p.n
    decreases |sites|
  {
    if sites == [] then 0.0
    else
      var rest, i := sites[..|sites| - 1], sites[|sites| - 1];
      var mid := FlipAll(s, rest);
      FlipAllSpins(p, s, rest);
      DeltaSum(p, s, rest) + 2.0 * Margin(p, mid, i)
  }

  lemma {:induction false} FlipAllSpins(p: Problem, s: seq<int>, sites: seq<nat>)
    requires Spins(p, s)
    requires forall t :: 0 <= t < |sites| ==> sites[t] < p.n
    ensures Spins(p, FlipAll(s, sites))
    decreases |sites|
  {
    if sites != [] {
      FlipAllSpins(p, s, sites[..|sites| - 1]);
    }
  }

  /**
   Over any sequence of flips, adding up the solver's own `d_e` overshoots the
   energy by `2 alpha / n` per flip, whatever the sites are.
   */
  lemma {:induction false} RunningEnergyDrift(p: Problem, s: seq<int>, sites: seq<nat>)
    requires p.Valid() && p.Symmetric() && Spins(p, s)
    requires forall t :: 0 <= t < |sites| ==> sites[t] < p.n
    ensures Spins(p, FlipAll(s, sites))
    ensures EnergyOf(p, s) + DeltaSum(p, s, sites)
         == EnergyOf(p, FlipAll(s, sites)) + Overshoot(p.alpha, p.n, |sites|)
    decreases |sites|
  {
    FlipAllSpins(p, s, sites);
    if sites == [] {
      OvershootStep(p, 0);
    } else {
      var rest, i := sites[..|sites| - 1], sites[|sites| - 1];
      RunningEnergyDrift(p, s, rest);
      var mid := FlipAll(s, rest);
      assert p.SymmetricAt(i);
      FlipEnergy(p, mid, i);
      OvershootStep(p, |rest|);
    }
  }

  /** The running energy is exact precisely for a zero coupling or an unflipped start. */
  lemma RunningEnergyExactIff(p: Problem, s: seq<int>, sites: seq<nat>)
    requires p.Valid() && p.Symmetric() && Spins(p, s)
    requires forall t :: 0 <= t < |sites| ==> sites[t] < p.n
    ensures Spins(p, FlipAll(s, sites))
    ensures EnergyOf(p, s) + DeltaSum(p, s, sites) == EnergyOf(p, FlipAll(s, sites))
            <==> p.alpha == 0.0 || sites == []
  {
    RunningEnergyDrift(p, s, sites);
    OvershootSign(p.alpha, p.n, |sites|);
  }

  /** The running energy after `t` steps is below that of every earlier moment. */
  ghost predicate Record(start: real, log: seq<StepTaken>, t: nat)
    requires t <= |log|
  {
    t > 0 ==> RunningEnergy(start, log[..t]) < BestRunning(start, log[..t - 1])
  }

  /** What the plateau counts: the steps since the last one that set a record, or since the start. */
  lemma {:induction false} LastRecord(start: real, log: seq<StepTaken>)
    ensures var since := StepsSinceBest(start, log);
      && since <= |log| && Record(start, log, |log| - since)
      && forall t :: |log| - since < t <= |log| ==> !Record(start, log, t)
  {
    assert log[..|log|] == log;
    if log != [] {
      var before := log[..|log| - 1];
      LastRecord(start, before);
      assert forall t :: 0 <= t < |log| ==> log[..t] == before[..t];
      assert forall t :: 0 <= t < |log| ==> (Record(start, log, t) <==> Record(start, before, t));
    }
  }
}
