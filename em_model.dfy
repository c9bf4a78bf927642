/**
 * The EM recurrence of plsa.py stated on values over exact reals: the
 * E-step (`expectation_step`), the M-step (`maximization_step`), the
 * log-likelihood (`calculate_likelihood`, with the logarithm a parameter),
 * the two initialisers and the iteration loop of `plsa`.
 *
 * Shapes: D documents, K topics, V vocabulary terms; Θ is D x K
 * (P(z | d)), Φ is K x V (P(w | z)), the posterior Z is D x K x V
 * (P(z | d, w)) and the counts C are D x V.
 */
module EmModel {
  import opened Sums
  import opened Results
  import opened Normalization

  type Counts = seq<seq<nat>>
  type Tensor = seq<seq<seq<real>>>

  predicate IsCounts(c: Counts, docs: nat, terms: nat)
  {
    |c| == docs && forall d :: 0 <= d < docs ==> |c[d]| == terms
  }

  predicate IsTensor(z: Tensor, docs: nat, topics: nat, terms: nat)
  {
    && |z| == docs
    && (forall d :: 0 <= d < docs ==> |z[d]| == topics)
    && (forall d, k :: 0 <= d < docs && 0 <= k < topics ==> |z[d][k]| == terms)
  }

  /** Θ is |theta| x K and Φ is K x terms, where K = |phi|. */
  predicate Tables(theta: Matrix, phi: Matrix, terms: nat)
  {
    IsMatrix(theta, |theta|, |phi|) && IsMatrix(phi, |phi|, terms)
  }

  /** The two probability tables the engine owns. */
  datatype Params = Params(theta: Matrix, phi: Matrix)

  /** Θ is docs x topics and Φ is topics x terms. */
  predicate Shaped(p: Params, docs: nat, topics: nat, terms: nat)
  {
    IsMatrix(p.theta, docs, topics) && IsMatrix(p.phi, topics, terms)
  }

  // -------------------------------------------------------- initialisation

  /**
   * `initialize_uniformly` and `initialize_randomly`: normalise the raw Θ
   * entries, then the raw Φ entries (all ones, or the random samples).
   */
  function Initialize(rawTheta: Matrix, rawPhi: Matrix): (r: Result<Params>)
    ensures r.Ok? ==> |r.value.theta| == |rawTheta| && |r.value.phi| == |rawPhi|
    ensures r.Ok? ==> forall i :: 0 <= i < |rawTheta| ==> |r.value.theta[i]| == |rawTheta[i]|
    ensures r.Ok? ==> forall i :: 0 <= i < |rawPhi| ==> |r.value.phi[i]| == |rawPhi[i]|
  {
    var theta :- Normalize(rawTheta);
    var phi :- Normalize(rawPhi);
    Ok(Params(theta, phi))
  }

  /** Initialisation fails exactly on a zero row of either raw table and otherwise keeps the shapes. */
  lemma InitializeSpec(rawTheta: Matrix, rawPhi: Matrix, docs: nat, topics: nat, terms: nat)
    requires IsMatrix(rawTheta, docs, topics) && IsMatrix(rawPhi, topics, terms)
    ensures Initialize(rawTheta, rawPhi).Err? <==> HasZeroRow(rawTheta) || HasZeroRow(rawPhi)
    ensures Initialize(rawTheta, rawPhi).Err? ==> Initialize(rawTheta, rawPhi).error == ZeroRowSum
    ensures Initialize(rawTheta, rawPhi).Ok? ==>
      var p := Initialize(rawTheta, rawPhi).value;
      && Shaped(p, docs, topics, terms)
      && (NonNegativeMatrix(rawTheta) && NonNegativeMatrix(rawPhi) ==> RowStochastic(p.theta) && RowStochastic(p.phi))
  {
    NormalizeSpec(rawTheta);
    NormalizeSpec(rawPhi);
  }

  /** The tables `initialize_uniformly` starts from: every entry 1. */
  function UniformInit(docs: nat, topics: nat, terms: nat): Result<Params>
  {
    Initialize(Const(docs, topics, 1.0), Const(topics, terms, 1.0))
  }

  /**
   * The uniform start gives Θ = 1/K and Φ = 1/V; it fails exactly when there
   * are documents but no topics, or topics but no terms.
   */
  lemma UniformInitValues(docs: nat, topics: nat, terms: nat)
    ensures UniformInit(docs, topics, terms).Err? <==> (docs >= 1 && topics == 0) || (topics >= 1 && terms == 0)
    ensures topics >= 1 && terms >= 1 ==>
      UniformInit(docs, topics, terms) ==
        Ok(Params(Const(docs, topics, 1.0 / topics as real), Const(topics, terms, 1.0 / terms as real)))
  {
    var ones := Const(docs, topics, 1.0);
    var onesPhi := Const(topics, terms, 1.0);
    if topics >= 1 {
      assert ConstantRows(ones, topics);
      NormalizeConstantRows(ones, topics);
    } else if docs >= 1 {
      NormalizeNoColumns(ones);
    } else {
      assert ones == [];
    }
    if terms >= 1 {
      assert ConstantRows(onesPhi, terms);
      NormalizeConstantRows(onesPhi, terms);
    } else if topics >= 1 {
      NormalizeNoColumns(onesPhi);
    } else {
      assert onesPhi == [];
    }
  }

  // ---------------------------------------------------------------- E-step

  /** u_k = Θ[d][k] · Φ[k][w], one weight per topic. */
  function TopicWeights(theta: Matrix, phi: Matrix, terms: nat, d: nat, w: nat): (u: seq<real>)
    requires Tables(theta, phi, terms) && d < |theta| && w < terms
    ensures |u| == |phi|
  {
    seq(|phi|, k requires 0 <= k < |phi| => theta[d][k] * phi[k][w])
  }

  /** The mixture Σ_k Θ[d][k] · Φ[k][w]. */
  function Mixture(theta: Matrix, phi: Matrix, terms: nat, d: nat, w: nat): real
    requires Tables(theta, phi, terms) && d < |theta| && w < terms
  {
    Sum(TopicWeights(theta, phi, terms, d, w))
  }

  /** Some (document, term) pair has zero mixture: the E-step stops there. */
  predicate ZeroMixture(theta: Matrix, phi: Matrix, terms: nat)
    requires Tables(theta, phi, terms)
  {
    exists d, w :: 0 <= d < |theta| && 0 <= w < terms && Mixture(theta, phi, terms, d, w) == 0.0
  }

  /** Z[d][k][w] = Θ[d][k] · Φ[k][w] / mixture. */
  function PosteriorCell(theta: Matrix, phi: Matrix, terms: nat, d: nat, k: nat, w: nat): real
    requires Tables(theta, phi, terms) && d < |theta| && k < |phi| && w < terms
    requires Mixture(theta, phi, terms, d, w) != 0.0
  {
    theta[d][k] * phi[k][w] / Mixture(theta, phi, terms, d, w)
  }

  /** The topic posterior of every (document, topic, term) triple. */
  function Posterior(theta: Matrix, phi: Matrix, terms: nat): (z: Tensor)
    requires Tables(theta, phi, terms) && !ZeroMixture(theta, phi, terms)
    ensures IsTensor(z, |theta|, |phi|, terms)
  {
    seq(|theta|, d requires 0 <= d < |theta| =>
      seq(|phi|, k requires 0 <= k < |phi| =>
        seq(terms, w requires 0 <= w < terms => PosteriorCell(theta, phi, terms, d, k, w))))
  }

  /** `expectation_step`: fails on a zero mixture, otherwise the topic posterior. */
  function EStep(theta: Matrix, phi: Matrix, terms: nat): (r: Result<Tensor>)
    requires Tables(theta, phi, terms)
    ensures r.Ok? ==> IsTensor(r.value, |theta|, |phi|, terms)
  {
    if ZeroMixture(theta, phi, terms) then Err(DegenerateEStep)
    else Ok(Posterior(theta, phi, terms))
  }

  /** The topic distribution of one (document, term) pair: Z[d][:][w]. */
  function Column(z: Tensor, d: nat, w: nat): (col: seq<real>)
    requires d < |z| && forall k :: 0 <= k < |z[d]| ==> w < |z[d][k]|
    ensures |col| == |z[d]|
  {
    seq(|z[d]|, k requires 0 <= k < |z[d]| => z[d][k][w])
  }

  /** The posterior of one (document, term) pair sums to 1 over the topics. */
  lemma PosteriorColumnSum(theta: Matrix, phi: Matrix, terms: nat, d: nat, w: nat)
    requires Tables(theta, phi, terms) && !ZeroMixture(theta, phi, terms)
    requires d < |theta| && w < terms
    ensures Sum(Column(Posterior(theta, phi, terms), d, w)) == 1.0
  {
    var z := Posterior(theta, phi, terms);
    var u := TopicWeights(theta, phi, terms, d, w);
    var s := Mixture(theta, phi, terms, d, w);
    assert s != 0.0;
    var col := Column(z, d, w);
    forall k | 0 <= k < |u| ensures col[k] == u[k] * (1.0 / s) {
      assert col[k] == u[k] / s;
    }
    SumScaled(u, col, 1.0 / s);
  }

  lemma QuotientNonNegative(a: real, b: real, s: real)
    requires a >= 0.0 && b >= 0.0 && s > 0.0
    ensures a * b / s >= 0.0
  {
  }

  /** Non-negative tables give non-negative posterior entries. */
  lemma PosteriorCellNonNegative(theta: Matrix, phi: Matrix, terms: nat, d: nat, k: nat, w: nat)
    requires Tables(theta, phi, terms) && !ZeroMixture(theta, phi, terms)
    requires NonNegativeMatrix(theta) && NonNegativeMatrix(phi)
    requires d < |theta| && k < |phi| && w < terms
    ensures PosteriorCell(theta, phi, terms, d, k, w) >= 0.0
  {
    var u := TopicWeights(theta, phi, terms, d, w);
    forall j | 0 <= j < |u| ensures u[j] >= 0.0 {
      assert theta[d][j] >= 0.0 && phi[j][w] >= 0.0;
      QuotientNonNegative(theta[d][j], phi[j][w], 1.0);
    }
    SumNonNegative(u);
    assert Mixture(theta, phi, terms, d, w) != 0.0;
    QuotientNonNegative(theta[d][k], phi[k][w], Mixture(theta, phi, terms, d, w));
  }

  /**
   * The E-step fails exactly on a zero mixture; otherwise every Z[d][k][w]
   * times the mixture is Θ[d][k] · Φ[k][w], the topics of every pair sum to 1,
   * and non-negative tables give a non-negative posterior.
   */
  lemma PosteriorIsDistribution(theta: Matrix, phi: Matrix, terms: nat)
    requires Tables(theta, phi, terms)
    ensures EStep(theta, phi, terms).Err? <==>
      exists d, w :: 0 <= d < |theta| && 0 <= w < terms && Mixture(theta, phi, terms, d, w) == 0.0
    ensures EStep(theta, phi, terms).Ok? ==>
      var z := EStep(theta, phi, terms).value;
      && (forall d, k, w :: 0 <= d < |theta| && 0 <= k < |phi| && 0 <= w < terms ==>
            z[d][k][w] * Mixture(theta, phi, terms, d, w) == theta[d][k] * phi[k][w])
      && (forall d, w :: 0 <= d < |theta| && 0 <= w < terms ==> Sum(Column(z, d, w)) == 1.0)
      && (NonNegativeMatrix(theta) && NonNegativeMatrix(phi) ==>
            forall d, k, w :: 0 <= d < |theta| && 0 <= k < |phi| && 0 <= w < terms ==> z[d][k][w] >= 0.0)
  {
    if !ZeroMixture(theta, phi, terms) {
      var z := Posterior(theta, phi, terms);
      assert EStep(theta, phi, terms) == Ok(z);
      PosteriorTimesMixture(theta, phi, terms);
      PosteriorColumnsSum(theta, phi, terms);
      if NonNegativeMatrix(theta) && NonNegativeMatrix(phi) {
        PosteriorNonNegative(theta, phi, terms);
      }
    }
  }

  lemma PosteriorTimesMixture(theta: Matrix, phi: Matrix, terms: nat)
    requires Tables(theta, phi, terms) && !ZeroMixture(theta, phi, terms)
    ensures var z := Posterior(theta, phi, terms);
      forall d, k, w :: 0 <= d < |theta| && 0 <= k < |phi| && 0 <= w < terms ==>
        z[d][k][w] * Mixture(theta, phi, terms, d, w) == theta[d][k] * phi[k][w]
  {
  }

  lemma PosteriorColumnsSum(theta: Matrix, phi: Matrix, terms: nat)
    requires Tables(theta, phi, terms) && !ZeroMixture(theta, phi, terms)
    ensures var z := Posterior(theta, phi, terms);
      forall d, w :: 0 <= d < |theta| && 0 <= w < terms ==> Sum(Column(z, d, w)) == 1.0
  {
    forall d, w | 0 <= d < |theta| && 0 <= w < terms
      ensures Sum(Column(Posterior(theta, phi, terms), d, w)) == 1.0
    {
      PosteriorColumnSum(theta, phi, terms, d, w);
    }
  }

  lemma PosteriorNonNegative(theta: Matrix, phi: Matrix, terms: nat)
    requires Tables(theta, phi, terms) && !ZeroMixture(theta, phi, terms)
    requires NonNegativeMatrix(theta) && NonNegativeMatrix(phi)
    ensures var z := Posterior(theta, phi, terms);
      forall d, k, w :: 0 <= d < |theta| && 0 <= k < |phi| && 0 <= w < terms ==> z[d][k][w] >= 0.0
  {
    forall d, k, w | 0 <= d < |theta| && 0 <= k < |phi| && 0 <= w < terms
      ensures Posterior(theta, phi, terms)[d][k][w] >= 0.0
    {
      PosteriorCellNonNegative(theta, phi, terms, d, k, w);
    }
  }

  // ---------------------------------------------------------------- M-step

  /** C is D x V and Z is D x K x V. */
  predicate Compatible(c: Counts, z: Tensor, topics: nat, terms: nat)
  {
    IsCounts(c, |c|, terms) && IsTensor(z, |c|, topics, terms)
  }

  /** C[d][w] · Z[d][t][w] for every document d. */
  function PhiTerms(c: Counts, z: Tensor, topics: nat, terms: nat, t: nat, w: nat): (s: seq<real>)
    requires Compatible(c, z, topics, terms) && t < topics && w < terms
    ensures |s| == |c|
  {
    seq(|c|, d requires 0 <= d < |c| => c[d][w] as real * z[d][t][w])
  }

  /** Φ before normalisation: Φ[t][w] = Σ_d C[d][w] · Z[d][t][w]. */
  function PhiNumerators(c: Counts, z: Tensor, topics: nat, terms: nat): (m: Matrix)
    requires Compatible(c, z, topics, terms)
    ensures IsMatrix(m, topics, terms)
  {
    seq(topics, t requires 0 <= t < topics =>
      seq(terms, w requires 0 <= w < terms => Sum(PhiTerms(c, z, topics, terms, t, w))))
  }

  /** C[d][w] · Z[d][t][w] for every term w. */
  function ThetaTerms(c: Counts, z: Tensor, topics: nat, terms: nat, d: nat, t: nat): (s: seq<real>)
    requires Compatible(c, z, topics, terms) && d < |c| && t < topics
    ensures |s| == terms
  {
    seq(terms, w requires 0 <= w < terms => c[d][w] as real * z[d][t][w])
  }

  /** Θ before normalisation: Θ[d][t] = Σ_w C[d][w] · Z[d][t][w]. */
  function ThetaNumerators(c: Counts, z: Tensor, topics: nat, terms: nat): (m: Matrix)
    requires Compatible(c, z, topics, terms)
    ensures IsMatrix(m, |c|, topics)
  {
    seq(|c|, d requires 0 <= d < |c| =>
      seq(topics, t requires 0 <= t < topics => Sum(ThetaTerms(c, z, topics, terms, d, t))))
  }

  /** `maximization_step`: re-estimate and normalise Φ, then Θ, from the same Z. */
  function MStep(c: Counts, z: Tensor, topics: nat, terms: nat): (r: Result<Params>)
    requires Compatible(c, z, topics, terms)
    ensures r.Ok? ==> IsMatrix(r.value.theta, |c|, topics) && IsMatrix(r.value.phi, topics, terms)
  {
    var phi :- Normalize(PhiNumerators(c, z, topics, terms));
    var theta :- Normalize(ThetaNumerators(c, z, topics, terms));
    Ok(Params(theta, phi))
  }

  predicate NonNegativeTensor(z: Tensor)
  {
    forall d, k, w :: 0 <= d < |z| && 0 <= k < |z[d]| && 0 <= w < |z[d][k]| ==> z[d][k][w] >= 0.0
  }

  /**
   * The M-step fails exactly when a numerator row of Φ or of Θ sums to
   * zero; otherwise each new entry is its numerator over the numerator
   * row's sum, and from a non-negative posterior both new tables are
   * row-stochastic.
   */
  lemma MStepSpec(c: Counts, z: Tensor, topics: nat, terms: nat)
    requires Compatible(c, z, topics, terms)
    ensures MStep(c, z, topics, terms).Err? <==>
      HasZeroRow(PhiNumerators(c, z, topics, terms)) || HasZeroRow(ThetaNumerators(c, z, topics, terms))
    ensures MStep(c, z, topics, terms).Ok? ==>
      var p := MStep(c, z, topics, terms).value;
      var np := PhiNumerators(c, z, topics, terms);
      var nt := ThetaNumerators(c, z, topics, terms);
      && (forall t, w :: 0 <= t < topics && 0 <= w < terms ==> p.phi[t][w] == np[t][w] / Sum(np[t]))
      && (forall d, t :: 0 <= d < |c| && 0 <= t < topics ==> p.theta[d][t] == nt[d][t] / Sum(nt[d]))
      && (NonNegativeTensor(z) ==> RowStochastic(p.phi) && RowStochastic(p.theta))
  {
    var np := PhiNumerators(c, z, topics, terms);
    var nt := ThetaNumerators(c, z, topics, terms);
    NormalizeSpec(np);
    NormalizeSpec(nt);
    if Normalize(np).Ok? && Normalize(nt).Ok? {
      assert MStep(c, z, topics, terms) == Ok(Params(Normalize(nt).value, Normalize(np).value));
      if NonNegativeTensor(z) {
        NumeratorsNonNegative(c, z, topics, terms);
      }
    }
  }

  /** A non-negative posterior gives non-negative numerators. */
  lemma NumeratorsNonNegative(c: Counts, z: Tensor, topics: nat, terms: nat)
    requires Compatible(c, z, topics, terms) && NonNegativeTensor(z)
    ensures NonNegativeMatrix(PhiNumerators(c, z, topics, terms))
    ensures NonNegativeMatrix(ThetaNumerators(c, z, topics, terms))
  {
    var np := PhiNumerators(c, z, topics, terms);
    var nt := ThetaNumerators(c, z, topics, terms);
    forall t, w | 0 <= t < topics && 0 <= w < terms ensures np[t][w] >= 0.0 {
      var s := PhiTerms(c, z, topics, terms, t, w);
      forall d | 0 <= d < |c| ensures s[d] >= 0.0 {
        assert z[d][t][w] >= 0.0;
        QuotientNonNegative(c[d][w] as real, z[d][t][w], 1.0);
      }
      SumNonNegative(s);
    }
    forall d, t | 0 <= d < |c| && 0 <= t < topics ensures nt[d][t] >= 0.0 {
      var s := ThetaTerms(c, z, topics, terms, d, t);
      forall w | 0 <= w < terms ensures s[w] >= 0.0 {
        assert z[d][t][w] >= 0.0;
        QuotientNonNegative(c[d][w] as real, z[d][t][w], 1.0);
      }
      SumNonNegative(s);
    }
  }

  /**
   * A document without words has Θ numerators that are all zero, so the
   * M-step fails whatever the posterior is.
   */
  lemma EmptyDocumentFailsMStep(c: Counts, z: Tensor, topics: nat, terms: nat, d: nat)
    requires Compatible(c, z, topics, terms) && d < |c| && topics >= 1
    requires forall w :: 0 <= w < terms ==> c[d][w] == 0
    ensures MStep(c, z, topics, terms).Err?
  {
    var nt := ThetaNumerators(c, z, topics, terms);
    var s := ThetaTerms(c, z, topics, terms, d, 0);
    assert forall w :: 0 <= w < terms ==> s[w] == 0.0;
    SumConst(s, 0.0);
    assert nt[d][0] == 0.0;
    assert forall t :: 0 <= t < topics ==> nt[d][t] == 0.0 by {
      forall t | 0 <= t < topics ensures nt[d][t] == 0.0 {
        var st := ThetaTerms(c, z, topics, terms, d, t);
        assert forall w :: 0 <= w < terms ==> st[w] == 0.0;
        SumConst(st, 0.0);
      }
    }
    SumConst(nt[d], 0.0);
    assert HasZeroRow(nt);
    MStepSpec(c, z, topics, terms);
  }

  // ------------------------------------------------------------ likelihood

  /** C[d][w] · log2(mixture) for every term w of document d. */
  function LogTerms(c: Counts, theta: Matrix, phi: Matrix, terms: nat, log2: real -> real, d: nat): (s: seq<real>)
    requires Tables(theta, phi, terms) && IsCounts(c, |theta|, terms) && d < |c|
    ensures |s| == terms
  {
    seq(terms, w requires 0 <= w < terms => c[d][w] as real * log2(Mixture(theta, phi, terms, d, w)))
  }

  /** The per-document totals of the log-likelihood. */
  function DocumentLogs(c: Counts, theta: Matrix, phi: Matrix, terms: nat, log2: real -> real): (s: seq<real>)
    requires Tables(theta, phi, terms) && IsCounts(c, |theta|, terms)
    ensures |s| == |c|
  {
    seq(|c|, d requires 0 <= d < |c| => Sum(LogTerms(c, theta, phi, terms, log2, d)))
  }

  /** Some mixture is outside the logarithm's domain. */
  predicate NonPositiveMixture(theta: Matrix, phi: Matrix, terms: nat)
    requires Tables(theta, phi, terms)
  {
    exists d, w :: 0 <= d < |theta| && 0 <= w < terms && Mixture(theta, phi, terms, d, w) <= 0.0
  }

  /** `calculate_likelihood`: Σ_d Σ_w C[d][w] · log2(Σ_k Θ[d][k] · Φ[k][w]). */
  function Likelihood(c: Counts, theta: Matrix, phi: Matrix, terms: nat, log2: real -> real): Result<real>
    requires Tables(theta, phi, terms) && IsCounts(c, |theta|, terms)
  {
    if NonPositiveMixture(theta, phi, terms) then Err(DegenerateLikelihood)
    else Ok(Sum(DocumentLogs(c, theta, phi, terms, log2)))
  }

  // ------------------------------------------------------------- iteration

  /** One pass of the loop body: E-step, M-step, then the likelihood of the new tables. */
  function Iterate(c: Counts, p: Params, terms: nat, log2: real -> real): (r: Result<(Params, real)>)
    requires Tables(p.theta, p.phi, terms) && IsCounts(c, |p.theta|, terms)
    ensures r.Ok? ==>
      && Tables(r.value.0.theta, r.value.0.phi, terms)
      && |r.value.0.theta| == |p.theta| && |r.value.0.phi| == |p.phi|
  {
    var z :- EStep(p.theta, p.phi, terms);
    var q :- MStep(c, z, |p.phi|, terms);
    var l :- Likelihood(c, q.theta, q.phi, terms, log2);
    Ok((q, l))
  }

  /** How the loop body ends, step by step: the first failing step decides the error. */
  lemma IterateCases(c: Counts, p: Params, terms: nat, log2: real -> real)
    requires Tables(p.theta, p.phi, terms) && IsCounts(c, |p.theta|, terms)
    ensures var e := EStep(p.theta, p.phi, terms);
      && (e.Err? ==> Iterate(c, p, terms, log2) == Err(DegenerateEStep))
      && (e.Ok? ==>
            var m := MStep(c, e.value, |p.phi|, terms);
            && (m.Err? ==> Iterate(c, p, terms, log2) == Err(ZeroRowSum))
            && (m.Ok? ==>
                  var l := Likelihood(c, m.value.theta, m.value.phi, terms, log2);
                  && (l.Err? ==> Iterate(c, p, terms, log2) == Err(DegenerateLikelihood))
                  && (l.Ok? ==> Iterate(c, p, terms, log2) == Ok((m.value, l.value)))))
  {
  }

  /** How a fitting run ended. */
  datatype Status = Converged | BudgetExhausted | Failed(error: Error)

  /** The tables, the likelihood trace and how the run ended. */
  datatype FitResult = FitResult(params: Params, likelihoods: seq<real>, status: Status)

  function Abs(x: real): real
  {
    if x < 0.0 then -x else x
  }

  /**
   * The `plsa` loop over the counts c from tables p, from `iteration` on,
   * with trace L so far: at most maxIter iterations of Iterate, each
   * appending one likelihood, stopping at the first failing iteration or
   * after the first iteration >= 1 whose likelihood differs from the one
   * before by less than epsilon.
   */
  function Run(c: Counts, p: Params, terms: nat, log2: real -> real,
               maxIter: nat, epsilon: real, L: seq<real>, iteration: nat): FitResult
    requires Tables(p.theta, p.phi, terms) && IsCounts(c, |p.theta|, terms)
    requires iteration <= maxIter && iteration <= |L|
    decreases maxIter - iteration, 1
  {
    if iteration == maxIter then FitResult(p, L, BudgetExhausted)
    else RunIteration(c, p, terms, log2, maxIter, epsilon, L, iteration)
  }

  /**
   * Iteration number `iteration` of the `plsa` loop and the run after it.
   * The stopping test reads the trace at the iteration's index, as the
   * source reads `self.likelihoods[iteration]`.
   */
  function RunIteration(c: Counts, p: Params, terms: nat, log2: real -> real,
                        maxIter: nat, epsilon: real, L: seq<real>, iteration: nat): FitResult
    requires Tables(p.theta, p.phi, terms) && IsCounts(c, |p.theta|, terms)
    requires iteration < maxIter && iteration <= |L|
    decreases maxIter - iteration, 0
  {
    var r := Iterate(c, p, terms, log2);
    if r.Err? then FitResult(p, L, Failed(r.error))
    else
      var L' := L + [r.value.1];
      if iteration >= 1 && Abs(L'[iteration] - L'[iteration - 1]) < epsilon then
        FitResult(r.value.0, L', Converged)
      else
        Run(c, r.value.0, terms, log2, maxIter, epsilon, L', iteration + 1)
  }

  /** A run whose budget is used up stops with the tables and trace it has. */
  lemma RunDone(c: Counts, p: Params, terms: nat, log2: real -> real,
                maxIter: nat, epsilon: real, L: seq<real>)
    requires Tables(p.theta, p.phi, terms) && IsCounts(c, |p.theta|, terms) && maxIter <= |L|
    ensures Run(c, p, terms, log2, maxIter, epsilon, L, maxIter) == FitResult(p, L, BudgetExhausted)
  {
  }

  /**
   * One iteration of the `plsa` loop: a failing body stops the run with the
   * tables it had; otherwise the likelihood is appended, and the run either
   * stops at the test or goes on from the new tables.
   */
  lemma RunStep(c: Counts, p: Params, terms: nat, log2: real -> real,
                maxIter: nat, epsilon: real, L: seq<real>, iteration: nat)
    requires Tables(p.theta, p.phi, terms) && IsCounts(c, |p.theta|, terms)
    requires iteration < maxIter && iteration <= |L|
    ensures Run(c, p, terms, log2, maxIter, epsilon, L, iteration) ==
      var r := Iterate(c, p, terms, log2);
      if r.Err? then FitResult(p, L, Failed(r.error))
      else
        var L' := L + [r.value.1];
        if iteration >= 1 && Abs(L'[iteration] - L'[iteration - 1]) < epsilon then FitResult(r.value.0, L', Converged)
        else Run(c, r.value.0, terms, log2, maxIter, epsilon, L', iteration + 1)
  {
  }

  /** An iteration that succeeds and does not meet the stopping test hands on to the next. */
  lemma RunContinues(c: Counts, p: Params, terms: nat, log2: real -> real,
                     maxIter: nat, epsilon: real, L: seq<real>, iteration: nat, q: Params, l: real)
    requires Tables(p.theta, p.phi, terms) && IsCounts(c, |p.theta|, terms)
    requires iteration < maxIter && iteration <= |L|
    requires Iterate(c, p, terms, log2) == Ok((q, l))
    requires !(iteration >= 1 && Abs((L + [l])[iteration] - (L + [l])[iteration - 1]) < epsilon)
    ensures Tables(q.theta, q.phi, terms) && IsCounts(c, |q.theta|, terms)
    ensures Run(c, p, terms, log2, maxIter, epsilon, L, iteration) ==
      Run(c, q, terms, log2, maxIter, epsilon, L + [l], iteration + 1)
  {
  }

  /** An iteration that succeeds and meets the stopping test ends the run. */
  lemma RunConverges(c: Counts, p: Params, terms: nat, log2: real -> real,
                     maxIter: nat, epsilon: real, L: seq<real>, iteration: nat, q: Params, l: real)
    requires Tables(p.theta, p.phi, terms) && IsCounts(c, |p.theta|, terms)
    requires iteration < maxIter && iteration <= |L|
    requires Iterate(c, p, terms, log2) == Ok((q, l))
    requires iteration >= 1 && Abs((L + [l])[iteration] - (L + [l])[iteration - 1]) < epsilon
    ensures Run(c, p, terms, log2, maxIter, epsilon, L, iteration) == FitResult(q, L + [l], Converged)
  {
  }

  /** No iteration in 1 .. n-1 met the stopping test. */
  predicate NoStopBefore(L: seq<real>, n: nat, epsilon: real)
    requires n <= |L|
  {
    forall i :: 1 <= i < n ==> Change(L, i) >= epsilon
  }

  /** How far the trace moved at index i. */
  function Change(L: seq<real>, i: nat): real
    requires 1 <= i < |L|
  {
    Abs(L[i] - L[i - 1])
  }

  /** The loop-control facts about a finished run whose trace started as L. */
  predicate Controlled(r: FitResult, L: seq<real>, maxIter: nat, epsilon: real)
  {
    && |L| <= |r.likelihoods| <= maxIter && r.likelihoods[..|L|] == L
    && (r.status == BudgetExhausted ==> |r.likelihoods| == maxIter && NoStopBefore(r.likelihoods, maxIter, epsilon))
    && (r.status.Failed? ==> |r.likelihoods| < maxIter && NoStopBefore(r.likelihoods, |r.likelihoods|, epsilon))
    && (r.status == Converged ==>
          var n := |r.likelihoods|;
          n >= 2 && Abs(r.likelihoods[n - 1] - r.likelihoods[n - 2]) < epsilon
          && NoStopBefore(r.likelihoods, n - 1, epsilon))
  }

  /** What holds of a run whose trace started as L + [l] holds of it as started from L. */
  lemma ControlledPrefix(r: FitResult, L: seq<real>, L': seq<real>, maxIter: nat, epsilon: real)
    requires |L'| == |L| + 1 && L'[..|L|] == L
    requires Controlled(r, L', maxIter, epsilon)
    ensures Controlled(r, L, maxIter, epsilon)
  {
  }

  /** A run that stops at the test just passed by the last of L' meets the loop-control facts. */
  lemma ControlledConverged(q: Params, L: seq<real>, L': seq<real>, maxIter: nat, epsilon: real)
    requires |L'| == |L| + 1 <= maxIter && L'[..|L|] == L && |L| >= 1
    requires NoStopBefore(L, |L|, epsilon) && Abs(L'[|L|] - L'[|L| - 1]) < epsilon
    ensures Controlled(FitResult(q, L', Converged), L, maxIter, epsilon)
  {
    assert L'[..|L'|] == L';
    forall i | 1 <= i < |L| ensures Change(L', i) == Change(L, i) {
      assert L'[i] == L[i] && L'[i - 1] == L[i - 1];
    }
  }

  /** A trace that did not stop keeps not stopping when its next value passes the test. */
  lemma NoStopExtended(L: seq<real>, l: real, epsilon: real)
    requires NoStopBefore(L, |L|, epsilon)
    requires !(|L| >= 1 && Abs((L + [l])[|L|] - (L + [l])[|L| - 1]) < epsilon)
    ensures NoStopBefore(L + [l], |L| + 1, epsilon)
  {
    var L' := L + [l];
    forall i | 1 <= i < |L'| ensures Change(L', i) >= epsilon {
      if i < |L| {
        assert Change(L', i) == Change(L, i);
      }
    }
  }

  /** Loop control of a run that has done `iteration` iterations so far. */
  lemma {:induction false} LoopControl(c: Counts, p: Params, terms: nat, log2: real -> real,
                                       maxIter: nat, epsilon: real, L: seq<real>, iteration: nat)
    requires Tables(p.theta, p.phi, terms) && IsCounts(c, |p.theta|, terms)
    requires iteration <= maxIter && iteration == |L| && NoStopBefore(L, |L|, epsilon)
    ensures Controlled(Run(c, p, terms, log2, maxIter, epsilon, L, iteration), L, maxIter, epsilon)
    decreases maxIter - iteration
  {
    if iteration == maxIter {
      assert L[..|L|] == L;
    } else {
      RunStep(c, p, terms, log2, maxIter, epsilon, L, iteration);
      assert L[..|L|] == L;
      var s := Iterate(c, p, terms, log2);
      if s.Ok? {
        var q, l := s.value.0, s.value.1;
        var L' := L + [l];
        assert L'[..|L|] == L;
        if iteration >= 1 && Abs(L'[iteration] - L'[iteration - 1]) < epsilon {
          ControlledConverged(q, L, L', maxIter, epsilon);
        } else {
          NoStopExtended(L, l, epsilon);
          LoopControl(c, q, terms, log2, maxIter, epsilon, L', iteration + 1);
          ControlledPrefix(Run(c, q, terms, log2, maxIter, epsilon, L', iteration + 1), L, L', maxIter, epsilon);
        }
      }
    }
  }

  /**
   * Loop control of `plsa` from an empty trace: at most maxIter iterations,
   * one likelihood per completed iteration; a run that converged stopped at
   * the first index >= 1 whose difference to the previous likelihood is below
   * epsilon; a run that exhausted its budget did maxIter iterations without
   * meeting that test; a failed run stopped before its budget; and epsilon
   * <= 0 never converges.
   */
  lemma RunControl(c: Counts, p: Params, terms: nat, log2: real -> real, maxIter: nat, epsilon: real)
    requires Tables(p.theta, p.phi, terms) && IsCounts(c, |p.theta|, terms)
    ensures var r := Run(c, p, terms, log2, maxIter, epsilon, [], 0);
      && Controlled(r, [], maxIter, epsilon)
      && (epsilon <= 0.0 ==> r.status != Converged)
  {
    LoopControl(c, p, terms, log2, maxIter, epsilon, [], 0);
  }

  // ------------------------------------------------------ stochastic tables

  /**
   * An iteration that succeeds from non-negative tables gives tables whose
   * rows are probability distributions: the E-step keeps Z non-negative and
   * the M-step normalises non-negative numerators.
   */
  lemma IterateKeepsStochastic(c: Counts, p: Params, terms: nat, log2: real -> real)
    requires Tables(p.theta, p.phi, terms) && IsCounts(c, |p.theta|, terms)
    requires NonNegativeMatrix(p.theta) && NonNegativeMatrix(p.phi)
    requires Iterate(c, p, terms, log2).Ok?
    ensures RowStochastic(Iterate(c, p, terms, log2).value.0.theta)
    ensures RowStochastic(Iterate(c, p, terms, log2).value.0.phi)
  {
    PosteriorIsDistribution(p.theta, p.phi, terms);
    var z := EStep(p.theta, p.phi, terms).value;
    assert NonNegativeTensor(z);
    MStepSpec(c, z, |p.phi|, terms);
  }

  /**
   * A run started from row-stochastic tables ends with row-stochastic
   * tables, however it ends: every iteration it completes keeps the rows
   * distributions, and a failing one leaves the tables it had.
   */
  lemma {:induction false} RunKeepsStochastic(c: Counts, p: Params, terms: nat, log2: real -> real,
                                              maxIter: nat, epsilon: real, L: seq<real>, iteration: nat)
    requires Tables(p.theta, p.phi, terms) && IsCounts(c, |p.theta|, terms)
    requires iteration <= maxIter && iteration <= |L|
    requires RowStochastic(p.theta) && RowStochastic(p.phi)
    ensures var r := Run(c, p, terms, log2, maxIter, epsilon, L, iteration);
      RowStochastic(r.params.theta) && RowStochastic(r.params.phi)
    decreases maxIter - iteration
  {
    if iteration < maxIter {
      RunStep(c, p, terms, log2, maxIter, epsilon, L, iteration);
      var s := Iterate(c, p, terms, log2);
      if s.Ok? {
        IterateKeepsStochastic(c, p, terms, log2);
        var L' := L + [s.value.1];
        if !(iteration >= 1 && Abs(L'[iteration] - L'[iteration - 1]) < epsilon) {
          RunKeepsStochastic(c, s.value.0, terms, log2, maxIter, epsilon, L', iteration + 1);
        }
      }
    }
  }
}
