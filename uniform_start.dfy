/**
 * What the EM recurrence does from the tables of `initialize_uniformly`
 * (Θ = 1/K, Φ = 1/V) on a corpus in which every document has a word and
 * every vocabulary term occurs: the posterior is 1/K everywhere, Θ stays at
 * 1/K, every row of Φ becomes the corpus-wide word-frequency proportions
 * (not 1/V, unless all terms are equally frequent), and from the second
 * iteration on nothing changes, so the loop stops after two iterations
 * whenever epsilon > 0 and never stops early when epsilon <= 0.
 */
module UniformStart {
  import opened Sums
  import opened Results
  import opened Normalization
  import opened EmModel

  /** The posterior 1/K for every (document, topic, term). */
  function UniformTensor(docs: nat, topics: nat, terms: nat): (z: Tensor)
    requires topics >= 1
    ensures IsTensor(z, docs, topics, terms)
    ensures forall d, k, w :: 0 <= d < docs && 0 <= k < topics && 0 <= w < terms ==> z[d][k][w] == 1.0 / topics as real
  {
    seq(docs, _ => Const(topics, terms, 1.0 / topics as real))
  }

  /** The counts of term w over all documents, as reals. */
  function TermColumn(c: Counts, terms: nat, w: nat): (s: seq<real>)
    requires IsCounts(c, |c|, terms) && w < terms
    ensures |s| == |c|
  {
    seq(|c|, d requires 0 <= d < |c| => c[d][w] as real)
  }

  /** How often each term occurs in the whole corpus. */
  function TermTotals(c: Counts, terms: nat): (s: seq<real>)
    requires IsCounts(c, |c|, terms)
    ensures |s| == terms
  {
    seq(terms, w requires 0 <= w < terms => Sum(TermColumn(c, terms, w)))
  }

  /** The counts of document d, as reals. */
  function DocumentRow(c: Counts, terms: nat, d: nat): (s: seq<real>)
    requires IsCounts(c, |c|, terms) && d < |c|
    ensures |s| == terms
  {
    seq(terms, w requires 0 <= w < terms => c[d][w] as real)
  }

  /** The number of words in the whole corpus. */
  function Total(c: Counts, terms: nat): real
    requires IsCounts(c, |c|, terms)
  {
    Sum(TermTotals(c, terms))
  }

  /** A non-empty corpus in which every document has a word and every term occurs somewhere. */
  predicate Covering(c: Counts, terms: nat)
  {
    && |c| >= 1 && terms >= 1 && IsCounts(c, |c|, terms)
    && (forall d :: 0 <= d < |c| ==> Sum(DocumentRow(c, terms, d)) > 0.0)
    && (forall w :: 0 <= w < terms ==> Sum(TermColumn(c, terms, w)) > 0.0)
  }

  lemma CountsNonNegative(s: seq<real>, c: Counts, terms: nat)
    requires IsCounts(c, |c|, terms)
    requires (exists w :: 0 <= w < terms && s == TermColumn(c, terms, w)) ||
             (exists d :: 0 <= d < |c| && s == DocumentRow(c, terms, d))
    ensures NonNegative(s)
  {
  }

  /** A covering corpus has a positive number of words. */
  lemma TotalPositive(c: Counts, terms: nat)
    requires Covering(c, terms)
    ensures Total(c, terms) > 0.0
  {
    var t := TermTotals(c, terms);
    forall w | 0 <= w < terms ensures t[w] >= 0.0 {
      CountsNonNegative(TermColumn(c, terms, w), c, terms);
      SumNonNegative(TermColumn(c, terms, w));
    }
    SumPositive(t, 0);
  }

  /** The corpus-wide proportion of each term. */
  function Frequencies(c: Counts, terms: nat): (f: seq<real>)
    requires Covering(c, terms)
    ensures |f| == terms
    ensures forall w :: 0 <= w < terms ==> f[w] > 0.0
  {
    TotalPositive(c, terms);
    seq(terms, w requires 0 <= w < terms => Sum(TermColumn(c, terms, w)) / Total(c, terms))
  }

  /** The tables `initialize_uniformly` produces. */
  function UniformTables(docs: nat, topics: nat, terms: nat): Params
    requires topics >= 1 && terms >= 1
  {
    Params(Const(docs, topics, 1.0 / topics as real), Const(topics, terms, 1.0 / terms as real))
  }

  /** The tables every iteration after the first produces from the uniform start. */
  function FixedTables(c: Counts, topics: nat, terms: nat): Params
    requires Covering(c, terms) && topics >= 1
  {
    Params(Const(|c|, topics, 1.0 / topics as real), Stack(topics, Frequencies(c, terms)))
  }

  /** The log-likelihood of the fixed tables: Σ_d Σ_w C[d][w] · log2(frequency of w). */
  function FixedLikelihood(c: Counts, terms: nat, log2: real -> real): real
    requires Covering(c, terms)
  {
    Sum(seq(|c|, d requires 0 <= d < |c| => Sum(FixedLogTerms(c, terms, log2, d))))
  }

  // ------------------------------------------------------------ arithmetic

  lemma SharesAddUp(k: nat, x: real)
    requires k >= 1
    ensures k as real * (1.0 / k as real * x) == x
  {
  }

  lemma ShareOfPart(k: nat, x: real)
    requires k >= 1 && x != 0.0
    ensures 1.0 / k as real * x / x == 1.0 / k as real
  {
  }

  lemma ScaledQuotient(a: real, b: real, k: nat)
    requires k >= 1 && b != 0.0
    ensures a * (1.0 / k as real) / (b * (1.0 / k as real)) == a / b
  {
  }

  // ---------------------------------------------------------------- E-step

  /** With Θ = 1/K and every row of Φ equal to q, the mixture of (d, w) is q[w]. */
  lemma SharedRowsMixture(docs: nat, topics: nat, q: seq<real>, d: nat, w: nat)
    requires topics >= 1 && d < docs && w < |q|
    ensures var theta := Const(docs, topics, 1.0 / topics as real);
      var phi := Stack(topics, q);
      Mixture(theta, phi, |q|, d, w) == q[w]
  {
    var theta := Const(docs, topics, 1.0 / topics as real);
    var phi := Stack(topics, q);
    var u := TopicWeights(theta, phi, |q|, d, w);
    assert forall k :: 0 <= k < |u| ==> u[k] == 1.0 / topics as real * q[w];
    SumConst(u, 1.0 / topics as real * q[w]);
    SharesAddUp(topics, q[w]);
  }

  /**
   * With Θ = 1/K and all rows of Φ equal to a positive row q, the E-step
   * succeeds and the posterior is 1/K everywhere.
   */
  lemma EStepSharedRows(docs: nat, topics: nat, q: seq<real>)
    requires topics >= 1 && forall w :: 0 <= w < |q| ==> q[w] > 0.0
    ensures EStep(Const(docs, topics, 1.0 / topics as real), Stack(topics, q), |q|) ==
      Ok(UniformTensor(docs, topics, |q|))
  {
    var theta := Const(docs, topics, 1.0 / topics as real);
    var phi := Stack(topics, q);
    var terms := |q|;
    forall d, w | 0 <= d < docs && 0 <= w < terms ensures Mixture(theta, phi, terms, d, w) == q[w] {
      SharedRowsMixture(docs, topics, q, d, w);
    }
    assert !ZeroMixture(theta, phi, terms);
    var z := Posterior(theta, phi, terms);
    var u := UniformTensor(docs, topics, terms);
    forall d | 0 <= d < docs ensures z[d] == u[d] {
      forall k | 0 <= k < topics ensures z[d][k] == u[d][k] {
        forall w | 0 <= w < terms ensures z[d][k][w] == u[d][k][w] {
          ShareOfPart(topics, q[w]);
        }
      }
    }
    assert z == u;
  }

  // ---------------------------------------------------------------- M-step

  /** The term totals shared out over K topics. */
  function TopicShares(c: Counts, topics: nat, terms: nat): (row: seq<real>)
    requires IsCounts(c, |c|, terms) && topics >= 1
    ensures |row| == terms
    ensures forall w :: 0 <= w < terms ==> row[w] == TermTotals(c, terms)[w] * (1.0 / topics as real)
  {
    seq(terms, w requires 0 <= w < terms => TermTotals(c, terms)[w] * (1.0 / topics as real))
  }

  /** From the 1/K posterior the Φ numerator of (t, w) is the total of w over K. */
  lemma PhiNumeratorOfUniform(c: Counts, topics: nat, terms: nat, t: nat, w: nat)
    requires IsCounts(c, |c|, terms) && topics >= 1 && t < topics && w < terms
    ensures PhiNumerators(c, UniformTensor(|c|, topics, terms), topics, terms)[t][w] ==
      TermTotals(c, terms)[w] * (1.0 / topics as real)
  {
    var z := UniformTensor(|c|, topics, terms);
    var s := PhiTerms(c, z, topics, terms, t, w);
    var col := TermColumn(c, terms, w);
    forall d | 0 <= d < |c| ensures s[d] == col[d] * (1.0 / topics as real) {
      assert z[d][t][w] == 1.0 / topics as real;
    }
    SumScaled(col, s, 1.0 / topics as real);
  }

  /** From the 1/K posterior every Φ numerator row is the term totals over K. */
  lemma PhiNumeratorsOfUniform(c: Counts, topics: nat, terms: nat)
    requires IsCounts(c, |c|, terms) && topics >= 1
    ensures PhiNumerators(c, UniformTensor(|c|, topics, terms), topics, terms) == Stack(topics, TopicShares(c, topics, terms))
  {
    var m := PhiNumerators(c, UniformTensor(|c|, topics, terms), topics, terms);
    var s := Stack(topics, TopicShares(c, topics, terms));
    forall t | 0 <= t < topics ensures m[t] == s[t] {
      forall w | 0 <= w < terms ensures m[t][w] == s[t][w] {
        PhiNumeratorOfUniform(c, topics, terms, t, w);
      }
    }
    assert m == s;
  }

  /** The shares sum to the corpus size over K and so are never all zero. */
  lemma TopicSharesSum(c: Counts, topics: nat, terms: nat)
    requires Covering(c, terms) && topics >= 1
    ensures Sum(TopicShares(c, topics, terms)) == Total(c, terms) * (1.0 / topics as real)
    ensures Sum(TopicShares(c, topics, terms)) != 0.0
  {
    SumScaled(TermTotals(c, terms), TopicShares(c, topics, terms), 1.0 / topics as real);
    TotalPositive(c, terms);
  }

  /** Those numerator rows normalise to the corpus-wide word frequencies. */
  lemma NormalizeTermTotals(c: Counts, topics: nat, terms: nat)
    requires Covering(c, terms) && topics >= 1
    ensures Normalize(Stack(topics, TopicShares(c, topics, terms))) == Ok(Stack(topics, Frequencies(c, terms)))
  {
    var row := TopicShares(c, topics, terms);
    var f := Frequencies(c, terms);
    TopicSharesSum(c, topics, terms);
    NormalizeStack(topics, row);
    var r := DivideRow(row, Sum(row));
    forall w | 0 <= w < terms ensures r[w] == f[w] {
      ScaledQuotient(TermTotals(c, terms)[w], Total(c, terms), topics);
    }
    assert r == f;
  }

  /** From the 1/K posterior the Θ numerators of a document are its length over K, for every topic. */
  lemma ThetaNumeratorsOfUniform(c: Counts, topics: nat, terms: nat)
    requires Covering(c, terms) && topics >= 1
    ensures ConstantRows(ThetaNumerators(c, UniformTensor(|c|, topics, terms), topics, terms), topics)
  {
    var z := UniformTensor(|c|, topics, terms);
    var m := ThetaNumerators(c, z, topics, terms);
    forall d | 0 <= d < |c| ensures forall t :: 0 <= t < topics ==> m[d][t] == Sum(DocumentRow(c, terms, d)) * (1.0 / topics as real) {
      forall t | 0 <= t < topics ensures m[d][t] == Sum(DocumentRow(c, terms, d)) * (1.0 / topics as real) {
        SumScaled(DocumentRow(c, terms, d), ThetaTerms(c, z, topics, terms, d, t), 1.0 / topics as real);
      }
    }
  }

  /** From the 1/K posterior the M-step gives Θ = 1/K and every row of Φ the word frequencies. */
  lemma MStepUniformPosterior(c: Counts, topics: nat, terms: nat)
    requires Covering(c, terms) && topics >= 1
    ensures MStep(c, UniformTensor(|c|, topics, terms), topics, terms) == Ok(FixedTables(c, topics, terms))
  {
    var z := UniformTensor(|c|, topics, terms);
    PhiNumeratorsOfUniform(c, topics, terms);
    NormalizeTermTotals(c, topics, terms);
    ThetaNumeratorsOfUniform(c, topics, terms);
    NormalizeConstantRows(ThetaNumerators(c, z, topics, terms), topics);
  }

  // ------------------------------------------------------------ likelihood

  /** C[d][w] · log2(frequency of w) for every term w. */
  function FixedLogTerms(c: Counts, terms: nat, log2: real -> real, d: nat): (s: seq<real>)
    requires Covering(c, terms) && d < |c|
    ensures |s| == terms
  {
    var f := Frequencies(c, terms);
    seq(terms, w requires 0 <= w < terms => c[d][w] as real * log2(f[w]))
  }

  /** The mixture of every pair under the fixed tables is the frequency of the term. */
  lemma FixedMixture(c: Counts, topics: nat, terms: nat, d: nat, w: nat)
    requires Covering(c, terms) && topics >= 1 && d < |c| && w < terms
    ensures var p := FixedTables(c, topics, terms);
      Mixture(p.theta, p.phi, terms, d, w) == Frequencies(c, terms)[w]
  {
    SharedRowsMixture(|c|, topics, Frequencies(c, terms), d, w);
  }

  /** Under the fixed tables each document's log terms are C[d][w] · log2(frequency of w). */
  lemma FixedDocumentLogs(c: Counts, topics: nat, terms: nat, log2: real -> real, d: nat)
    requires Covering(c, terms) && topics >= 1 && d < |c|
    ensures var p := FixedTables(c, topics, terms);
      LogTerms(c, p.theta, p.phi, terms, log2, d) == FixedLogTerms(c, terms, log2, d)
  {
    var p := FixedTables(c, topics, terms);
    var s := LogTerms(c, p.theta, p.phi, terms, log2, d);
    var t := FixedLogTerms(c, terms, log2, d);
    forall w | 0 <= w < terms ensures s[w] == t[w] {
      FixedMixture(c, topics, terms, d, w);
    }
    assert s == t;
  }

  /** The likelihood of the fixed tables is defined and equals FixedLikelihood. */
  lemma LikelihoodOfFixedTables(c: Counts, topics: nat, terms: nat, log2: real -> real)
    requires Covering(c, terms) && topics >= 1
    ensures var p := FixedTables(c, topics, terms);
      Likelihood(c, p.theta, p.phi, terms, log2) == Ok(FixedLikelihood(c, terms, log2))
  {
    var p := FixedTables(c, topics, terms);
    var f := Frequencies(c, terms);
    forall d, w | 0 <= d < |c| && 0 <= w < terms ensures Mixture(p.theta, p.phi, terms, d, w) > 0.0 {
      FixedMixture(c, topics, terms, d, w);
    }
    assert !NonPositiveMixture(p.theta, p.phi, terms);
    var logs := DocumentLogs(c, p.theta, p.phi, terms, log2);
    var expected := seq(|c|, d requires 0 <= d < |c| => Sum(FixedLogTerms(c, terms, log2, d)));
    forall d | 0 <= d < |c| ensures logs[d] == expected[d] {
      FixedDocumentLogs(c, topics, terms, log2, d);
    }
    assert logs == expected;
  }

  // ------------------------------------------------------------- iteration

  /** Uniform Φ is a stack of the row 1/V. */
  lemma UniformPhiIsStack(topics: nat, terms: nat)
    requires terms >= 1
    ensures Const(topics, terms, 1.0 / terms as real) == Stack(topics, seq(terms, _ => 1.0 / terms as real))
  {
  }

  /** The first iteration from the uniform tables reaches the fixed tables. */
  lemma FirstIteration(c: Counts, topics: nat, terms: nat, log2: real -> real)
    requires Covering(c, terms) && topics >= 1
    ensures Iterate(c, UniformTables(|c|, topics, terms), terms, log2) ==
      Ok((FixedTables(c, topics, terms), FixedLikelihood(c, terms, log2)))
  {
    var q := seq(terms, _ => 1.0 / terms as real);
    UniformPhiIsStack(topics, terms);
    EStepSharedRows(|c|, topics, q);
    MStepUniformPosterior(c, topics, terms);
    LikelihoodOfFixedTables(c, topics, terms, log2);
  }

  /** Every later iteration leaves the fixed tables and the likelihood where they are. */
  lemma LaterIteration(c: Counts, topics: nat, terms: nat, log2: real -> real)
    requires Covering(c, terms) && topics >= 1
    ensures Iterate(c, FixedTables(c, topics, terms), terms, log2) ==
      Ok((FixedTables(c, topics, terms), FixedLikelihood(c, terms, log2)))
  {
    EStepSharedRows(|c|, topics, Frequencies(c, terms));
    MStepUniformPosterior(c, topics, terms);
    LikelihoodOfFixedTables(c, topics, terms, log2);
  }

  /** n copies of the likelihood x. */
  function Repeat(n: nat, x: real): (s: seq<real>)
    ensures |s| == n && forall i :: 0 <= i < n ==> s[i] == x
  {
    seq(n, _ => x)
  }

  /**
   * At tables that one iteration maps to themselves, a trace of repeats of
   * their likelihood never moves, so with epsilon <= 0 the loop runs out its
   * budget there.
   */
  lemma {:induction false} FixedPointRunsOut(c: Counts, p: Params, terms: nat, log2: real -> real, l: real,
                                             maxIter: nat, epsilon: real, iteration: nat)
    requires Tables(p.theta, p.phi, terms) && IsCounts(c, |p.theta|, terms)
    requires Iterate(c, p, terms, log2) == Ok((p, l))
    requires epsilon <= 0.0 && 1 <= iteration <= maxIter
    ensures Run(c, p, terms, log2, maxIter, epsilon, Repeat(iteration, l), iteration)
      == FitResult(p, Repeat(maxIter, l), BudgetExhausted)
    decreases maxIter - iteration
  {
    if iteration < maxIter {
      FixedPointContinues(c, p, terms, log2, l, maxIter, epsilon, iteration);
      FixedPointRunsOut(c, p, terms, log2, l, maxIter, epsilon, iteration + 1);
    } else {
      RunDone(c, p, terms, log2, maxIter, epsilon, Repeat(iteration, l));
    }
  }

  /** At such tables an iteration after the first repeats the likelihood and goes on. */
  lemma FixedPointContinues(c: Counts, p: Params, terms: nat, log2: real -> real, l: real,
                            maxIter: nat, epsilon: real, iteration: nat)
    requires Tables(p.theta, p.phi, terms) && IsCounts(c, |p.theta|, terms)
    requires Iterate(c, p, terms, log2) == Ok((p, l))
    requires epsilon <= 0.0 && 1 <= iteration < maxIter
    ensures Run(c, p, terms, log2, maxIter, epsilon, Repeat(iteration, l), iteration)
      == Run(c, p, terms, log2, maxIter, epsilon, Repeat(iteration + 1, l), iteration + 1)
  {
    assert Repeat(iteration, l) + [l] == Repeat(iteration + 1, l);
    RunContinues(c, p, terms, log2, maxIter, epsilon, Repeat(iteration, l), iteration, p, l);
  }

  /** Once at the fixed tables with epsilon <= 0, the loop runs out its budget. */
  lemma FixedLoopRunsOut(c: Counts, topics: nat, terms: nat, log2: real -> real,
                         maxIter: nat, epsilon: real)
    requires Covering(c, terms) && topics >= 1
    requires epsilon <= 0.0 && 1 <= maxIter
    ensures Run(c, FixedTables(c, topics, terms), terms, log2, maxIter, epsilon,
                Repeat(1, FixedLikelihood(c, terms, log2)), 1)
      == FitResult(FixedTables(c, topics, terms), Repeat(maxIter, FixedLikelihood(c, terms, log2)), BudgetExhausted)
  {
    LaterIteration(c, topics, terms, log2);
    FixedPointRunsOut(c, FixedTables(c, topics, terms), terms, log2, FixedLikelihood(c, terms, log2), maxIter, epsilon, 1);
  }

  /** From the uniform tables the first iteration always goes on (or uses up a budget of 1). */
  lemma UniformRunFirst(c: Counts, topics: nat, terms: nat, log2: real -> real, maxIter: nat, epsilon: real)
    requires Covering(c, terms) && topics >= 1 && maxIter >= 1
    ensures Run(c, UniformTables(|c|, topics, terms), terms, log2, maxIter, epsilon, [], 0) ==
      Run(c, FixedTables(c, topics, terms), terms, log2, maxIter, epsilon, Repeat(1, FixedLikelihood(c, terms, log2)), 1)
  {
    var l := FixedLikelihood(c, terms, log2);
    FirstIteration(c, topics, terms, log2);
    assert [] + [l] == Repeat(1, l);
    RunContinues(c, UniformTables(|c|, topics, terms), terms, log2, maxIter, epsilon, [], 0,
                 FixedTables(c, topics, terms), l);
  }

  /** At the fixed tables the second iteration repeats the likelihood, so epsilon > 0 stops the run. */
  lemma UniformRunSecond(c: Counts, topics: nat, terms: nat, log2: real -> real, maxIter: nat, epsilon: real)
    requires Covering(c, terms) && topics >= 1 && maxIter >= 2 && epsilon > 0.0
    ensures var p := FixedTables(c, topics, terms);
      var l := FixedLikelihood(c, terms, log2);
      Run(c, p, terms, log2, maxIter, epsilon, Repeat(1, l), 1) == FitResult(p, [l, l], Converged)
  {
    var p := FixedTables(c, topics, terms);
    var l := FixedLikelihood(c, terms, log2);
    LaterIteration(c, topics, terms, log2);
    assert Repeat(1, l) + [l] == [l, l];
    RunConverges(c, p, terms, log2, maxIter, epsilon, Repeat(1, l), 1, p, l);
  }

  /**
   * The `plsa` loop from the uniform tables on a covering corpus: no
   * iteration for a budget of 0; otherwise the first iteration reaches the
   * fixed tables and every later one repeats its likelihood, so with
   * epsilon > 0 and a budget of at least 2 the loop converges after exactly
   * two iterations, and otherwise it uses up its budget.
   */
  lemma UniformRun(c: Counts, topics: nat, terms: nat, log2: real -> real, maxIter: nat, epsilon: real)
    requires Covering(c, terms) && topics >= 1
    ensures var s := UniformTables(|c|, topics, terms);
      var p := FixedTables(c, topics, terms);
      var l := FixedLikelihood(c, terms, log2);
      Run(c, s, terms, log2, maxIter, epsilon, [], 0) ==
        if maxIter == 0 then FitResult(s, [], BudgetExhausted)
        else if maxIter == 1 || epsilon <= 0.0 then FitResult(p, Repeat(maxIter, l), BudgetExhausted)
        else FitResult(p, [l, l], Converged)
  {
    var s := UniformTables(|c|, topics, terms);
    var p := FixedTables(c, topics, terms);
    var l := FixedLikelihood(c, terms, log2);
    if maxIter == 0 {
      RunDone(c, s, terms, log2, maxIter, epsilon, []);
    } else {
      UniformRunFirst(c, topics, terms, log2, maxIter, epsilon);
      if maxIter == 1 {
        RunDone(c, p, terms, log2, maxIter, epsilon, Repeat(1, l));
      } else if epsilon <= 0.0 {
        FixedLoopRunsOut(c, topics, terms, log2, maxIter, epsilon);
      } else {
        UniformRunSecond(c, topics, terms, log2, maxIter, epsilon);
      }
    }
  }
}
