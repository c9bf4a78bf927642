/**
 * The `Corpus` class of plsa.py: the documents, the vocabulary, the
 * term-document counts and the three probability tables, P(z | d) as an
 * array D x K, P(w | z) as an array K x V and P(z | d, w) as an array
 * D x K x V, updated in place by the fitting methods. Every method is proved
 * against the value-level recurrence of module EmModel.
 */
module Plsa {
  import opened Sums
  import opened Results
  import opened Normalization
  import opened Vocabulary
  import opened EmModel
  import opened UniformStart

  /** Entry (i, j) of a 2-d array, 0 outside it. */
  function At(a: array2<real>, i: int, j: int): real
    reads a
  {
    if 0 <= i < a.Length0 && 0 <= j < a.Length1 then a[i, j] else 0.0
  }

  /** The entries of a 2-d array, row by row. */
  function Rows(a: array2<real>): (m: Matrix)
    reads a
    ensures IsMatrix(m, a.Length0, a.Length1)
    ensures forall i, j :: 0 <= i < a.Length0 && 0 <= j < a.Length1 ==> m[i][j] == a[i, j]
  {
    seq(a.Length0, i reads a => seq(a.Length1, j reads a => At(a, i, j)))
  }

  /** Entry (i, j) of a 2-d count array, 0 outside it. */
  function CountAt(a: array2<nat>, i: int, j: int): nat
    reads a
  {
    if 0 <= i < a.Length0 && 0 <= j < a.Length1 then a[i, j] else 0
  }

  /** The entries of a 2-d count array, row by row. */
  function CountRows(a: array2<nat>): (m: Counts)
    reads a
    ensures IsCounts(m, a.Length0, a.Length1)
    ensures forall i, j :: 0 <= i < a.Length0 && 0 <= j < a.Length1 ==> m[i][j] == a[i, j]
  {
    seq(a.Length0, i reads a => seq(a.Length1, j reads a => CountAt(a, i, j)))
  }

  /** Entry (i, j, k) of a 3-d array, 0 outside it. */
  function At3(a: array3<real>, i: int, j: int, k: int): real
    reads a
  {
    if 0 <= i < a.Length0 && 0 <= j < a.Length1 && 0 <= k < a.Length2 then a[i, j, k] else 0.0
  }

  /** The entries of a 3-d array. */
  function Slices(a: array3<real>): (z: Tensor)
    reads a
    ensures IsTensor(z, a.Length0, a.Length1, a.Length2)
    ensures forall i, j, k :: 0 <= i < a.Length0 && 0 <= j < a.Length1 && 0 <= k < a.Length2 ==>
      z[i][j][k] == a[i, j, k]
  {
    seq(a.Length0, i reads a => seq(a.Length1, j reads a => seq(a.Length2, k reads a => At3(a, i, j, k))))
  }

  /** A fresh array holding the matrix m (a numpy array built from values). */
  method NewTable(m: Matrix, rows: nat, cols: nat) returns (a: array2<real>)
    requires IsMatrix(m, rows, cols)
    ensures fresh(a) && a.Length0 == rows && a.Length1 == cols && Rows(a) == m
  {
    a := new real[rows, cols]((i, j) requires 0 <= i < rows && 0 <= j < cols => m[i][j]);
    assert forall i :: 0 <= i < rows ==> Rows(a)[i] == m[i];
  }

  /** What `np.random.random_sample` produces: entries in [0, 1). */
  predicate Samples(m: Matrix)
  {
    forall i, j :: 0 <= i < |m| && 0 <= j < |m[i]| ==> 0.0 <= m[i][j] < 1.0
  }

  class Corpus {
    var documents: seq<seq<string>>
    var vocabulary: seq<string>
    var likelihoods: seq<real>
    var numberOfDocuments: nat
    var vocabularySize: nat
    /** The counts C, D x V. */
    var termDocMatrix: array2<nat>
    /** P(z | d), D x K. */
    var documentTopicProb: array2<real>
    /** P(w | z), K x V. */
    var topicWordProb: array2<real>
    /** P(z | d, w), D x K x V. */
    var topicProb: array3<real>

    /** The sizes agree with the documents and the vocabulary, and Θ and Φ are separate arrays. */
    ghost predicate Valid()
      reads this`documents, this`vocabulary, this`numberOfDocuments, this`vocabularySize, this`documentTopicProb, this`topicWordProb
    {
      && numberOfDocuments == |documents| && vocabularySize == |vocabulary|
      && documentTopicProb != topicWordProb
    }

    /** The number of topics, read from the shape of Φ. */
    function Topics(): nat
      reads this`topicWordProb
    {
      topicWordProb.Length0
    }

    /** C is D x V, Θ is D x K and Φ is K x V. */
    ghost predicate Shapes()
      reads this`documents, this`vocabulary, this`numberOfDocuments, this`vocabularySize, this`documentTopicProb, this`topicWordProb, this`termDocMatrix
    {
      && Valid()
      && termDocMatrix.Length0 == numberOfDocuments && termDocMatrix.Length1 == vocabularySize
      && documentTopicProb.Length0 == numberOfDocuments && documentTopicProb.Length1 == Topics()
      && topicWordProb.Length1 == vocabularySize
    }

    /** Θ is D x topics and Φ is topics x V. */
    ghost predicate TableShapes(topics: nat)
      reads this`numberOfDocuments, this`vocabularySize, this`documentTopicProb, this`topicWordProb
    {
      && documentTopicProb.Length0 == numberOfDocuments && documentTopicProb.Length1 == topics
      && topicWordProb.Length0 == topics && topicWordProb.Length1 == vocabularySize
    }

    /** The current Θ and Φ as values. */
    function Current(): Params
      reads this`documentTopicProb, this`topicWordProb, documentTopicProb, topicWordProb
    {
      Params(Rows(documentTopicProb), Rows(topicWordProb))
    }

    /**
     * `__init__` followed by the assignment of `build_corpus`: the documents
     * as token lists, empty vocabulary and trace, and no tables yet (arrays
     * of size 0 stand for `None`).
     */
    constructor (documents: seq<seq<string>>)
      ensures Valid()
      ensures this.documents == documents && numberOfDocuments == |documents|
      ensures vocabulary == [] && vocabularySize == 0 && likelihoods == []
    {
      this.documents := documents;
      vocabulary := [];
      likelihoods := [];
      numberOfDocuments := |documents|;
      vocabularySize := 0;
      termDocMatrix := new nat[0, 0];
      documentTopicProb := new real[0, 0];
      topicWordProb := new real[0, 0];
      topicProb := new real[0, 0, 0];
    }

    /** `build_vocabulary`: the distinct tokens of the corpus, and their number. */
    method BuildVocabulary()
      requires Valid()
      modifies this`vocabulary, this`vocabularySize
      ensures Valid()
      ensures IsVocabularyOf(vocabulary, documents) && vocabularySize == |vocabulary|
      ensures vocabulary == Vocabulary.BuildVocabulary(documents)
    {
      vocabulary := Vocabulary.BuildVocabulary(documents);
      vocabularySize := |vocabulary|;
    }

    /**
     * `build_term_doc_matrix`: a fresh D x V array, first all ones, then
     * entry [i, j] overwritten with the count of vocabulary[j] in document i.
     */
    method BuildTermDocMatrix()
      requires Valid()
      modifies this`termDocMatrix
      ensures Valid() && fresh(termDocMatrix)
      ensures termDocMatrix.Length0 == numberOfDocuments && termDocMatrix.Length1 == vocabularySize
      ensures CountRows(termDocMatrix) == CountMatrix(documents, vocabulary)
    {
      var num := numberOfDocuments;
      var size := vocabularySize;
      var matrix := new nat[num, size]((_, _) => 1);
      for i := 0 to num
        invariant forall i', j :: 0 <= i' < i && 0 <= j < size ==> matrix[i', j] == Count(documents[i'], vocabulary[j])
      {
        for j := 0 to size
          invariant forall i', j' :: 0 <= i' < i && 0 <= j' < size ==> matrix[i', j'] == Count(documents[i'], vocabulary[j'])
          invariant forall j' :: 0 <= j' < j ==> matrix[i, j'] == Count(documents[i], vocabulary[j'])
        {
          matrix[i, j] := Count(documents[i], vocabulary[j]);
        }
      }
      termDocMatrix := matrix;
      var m := CountMatrix(documents, vocabulary);
      assert forall i :: 0 <= i < num ==> CountRows(matrix)[i] == m[i];
    }

    /**
     * Store Θ from its raw entries and normalise it, then the same for Φ;
     * a zero row stops at that table with its raw entries stored.
     */
    method SetTables(rawTheta: Matrix, rawPhi: Matrix, topics: nat) returns (outcome: Outcome)
      requires Valid()
      requires IsMatrix(rawTheta, numberOfDocuments, topics) && IsMatrix(rawPhi, topics, |vocabulary|)
      modifies this`documentTopicProb, this`topicWordProb
      ensures Valid() && fresh(documentTopicProb)
      ensures outcome.Pass? <==> EmModel.Initialize(rawTheta, rawPhi).Ok?
      ensures outcome.Fail? ==> outcome.error == ZeroRowSum
      ensures outcome.Pass? ==> fresh(topicWordProb) && TableShapes(topics)
      ensures outcome.Pass? ==> Current() == EmModel.Initialize(rawTheta, rawPhi).value
      ensures Normalize(rawTheta).Err? ==> Rows(documentTopicProb) == rawTheta && topicWordProb == old(topicWordProb)
      ensures Normalize(rawTheta).Ok? && Normalize(rawPhi).Err? ==>
        fresh(topicWordProb) && Rows(documentTopicProb) == Normalize(rawTheta).value && Rows(topicWordProb) == rawPhi
    {
      documentTopicProb := NewTable(rawTheta, numberOfDocuments, topics);
      var theta := Normalize(rawTheta);
      if theta.Err? {
        return Fail(theta.error);
      }
      documentTopicProb := NewTable(theta.value, numberOfDocuments, topics);
      topicWordProb := NewTable(rawPhi, topics, |vocabulary|);
      var phi := Normalize(rawPhi);
      if phi.Err? {
        return Fail(phi.error);
      }
      topicWordProb := NewTable(phi.value, topics, |vocabulary|);
      outcome := Pass;
    }

    /** `initialize_uniformly`: all-ones tables, normalised: Θ = 1/K and Φ = 1/V. */
    method InitializeUniformly(numberOfTopics: nat) returns (outcome: Outcome)
      requires Valid()
      modifies this`documentTopicProb, this`topicWordProb
      ensures Valid() && fresh(documentTopicProb)
      ensures outcome.Pass? <==> UniformInit(numberOfDocuments, numberOfTopics, |vocabulary|).Ok?
      ensures outcome.Fail? ==> outcome.error == ZeroRowSum
      ensures outcome.Pass? ==>
        && fresh(topicWordProb) && TableShapes(numberOfTopics)
        && Current() == UniformInit(numberOfDocuments, numberOfTopics, |vocabulary|).value
    {
      outcome := SetTables(Const(numberOfDocuments, numberOfTopics, 1.0), Const(numberOfTopics, |vocabulary|, 1.0), numberOfTopics);
    }

    /** `initialize_randomly`, with the random samples given: normalised samples. */
    method InitializeRandomly(numberOfTopics: nat, thetaSamples: Matrix, phiSamples: Matrix) returns (outcome: Outcome)
      requires Valid()
      requires IsMatrix(thetaSamples, numberOfDocuments, numberOfTopics) && IsMatrix(phiSamples, numberOfTopics, |vocabulary|)
      requires Samples(thetaSamples) && Samples(phiSamples)
      modifies this`documentTopicProb, this`topicWordProb
      ensures Valid() && fresh(documentTopicProb)
      ensures outcome.Pass? <==> !HasZeroRow(thetaSamples) && !HasZeroRow(phiSamples)
      ensures outcome.Fail? ==> outcome.error == ZeroRowSum
      ensures outcome.Pass? ==>
        && fresh(topicWordProb) && TableShapes(numberOfTopics)
        && Current() == EmModel.Initialize(thetaSamples, phiSamples).value
        && RowStochastic(Current().theta) && RowStochastic(Current().phi)
    {
      InitializeSpec(thetaSamples, phiSamples, numberOfDocuments, numberOfTopics, |vocabulary|);
      outcome := SetTables(thetaSamples, phiSamples, numberOfTopics);
    }

    /** `initialize`: the random or the uniform initialiser. */
    method Initialize(numberOfTopics: nat, random: bool, thetaSamples: Matrix, phiSamples: Matrix) returns (outcome: Outcome)
      requires Valid()
      requires random ==> IsMatrix(thetaSamples, numberOfDocuments, numberOfTopics) && IsMatrix(phiSamples, numberOfTopics, |vocabulary|)
      requires random ==> Samples(thetaSamples) && Samples(phiSamples)
      modifies this`documentTopicProb, this`topicWordProb
      ensures Valid() && fresh(documentTopicProb)
      ensures outcome.Fail? ==> outcome.error == ZeroRowSum
      ensures outcome.Pass? ==> fresh(topicWordProb) && TableShapes(numberOfTopics)
      ensures random ==> (outcome.Pass? <==> EmModel.Initialize(thetaSamples, phiSamples).Ok?)
      ensures random && outcome.Pass? ==> Current() == EmModel.Initialize(thetaSamples, phiSamples).value
      ensures !random ==> (outcome.Pass? <==> UniformInit(numberOfDocuments, numberOfTopics, |vocabulary|).Ok?)
      ensures !random && outcome.Pass? ==> Current() == UniformInit(numberOfDocuments, numberOfTopics, |vocabulary|).value
    {
      if random {
        InitializeSpec(thetaSamples, phiSamples, numberOfDocuments, numberOfTopics, |vocabulary|);
        outcome := InitializeRandomly(numberOfTopics, thetaSamples, phiSamples);
      } else {
        outcome := InitializeUniformly(numberOfTopics);
      }
    }

    /** Z is D x K x V. */
    ghost predicate PosteriorShaped()
      reads this`numberOfDocuments, this`vocabularySize, this`topicWordProb, this`topicProb
    {
      topicProb.Length0 == numberOfDocuments && topicProb.Length1 == Topics() && topicProb.Length2 == vocabularySize
    }

    /**
     * `expectation_step`: a fresh D x K x V array of ones, filled one
     * (document, term) pair at a time; the source exits at the first pair
     * whose topic weights sum to zero, and so does this method, with
     * DegenerateEStep.
     */
    method ExpectationStep() returns (outcome: Outcome)
      requires Shapes()
      modifies this`topicProb
      ensures fresh(topicProb) && PosteriorShaped()
      ensures outcome.Pass? <==> EStep(Rows(documentTopicProb), Rows(topicWordProb), vocabularySize).Ok?
      ensures outcome.Fail? ==> outcome.error == DegenerateEStep
      ensures outcome.Pass? ==> Slices(topicProb) == EStep(Rows(documentTopicProb), Rows(topicWordProb), vocabularySize).value
    {
      topicProb := new real[numberOfDocuments, topicWordProb.Length0, vocabularySize]((_, _, _) => 1.0);
      var ok := FillPosterior(topicProb, documentTopicProb, topicWordProb);
      outcome := if ok then Pass else Fail(DegenerateEStep);
    }

    /**
     * `maximization_step`: the numerators of Φ written into Φ in place and
     * normalised, then the numerators of Θ written into Θ and normalised,
     * both from the same Z. A zero row stops the step with the numerators
     * of that table stored.
     */
    method MaximizationStep() returns (outcome: Outcome)
      requires Shapes() && PosteriorShaped()
      modifies this`documentTopicProb, this`topicWordProb, documentTopicProb, topicWordProb
      ensures Shapes() && PosteriorShaped()
      ensures documentTopicProb == old(documentTopicProb) || fresh(documentTopicProb)
      ensures topicWordProb == old(topicWordProb) || fresh(topicWordProb)
      ensures outcome.Pass? <==> MStep(CountRows(termDocMatrix), Slices(topicProb), Topics(), vocabularySize).Ok?
      ensures outcome.Pass? ==> Current() == MStep(CountRows(termDocMatrix), Slices(topicProb), Topics(), vocabularySize).value
      ensures outcome.Fail? ==> outcome.error == ZeroRowSum
      ensures outcome.Fail? ==>
        var np := PhiNumerators(CountRows(termDocMatrix), Slices(topicProb), Topics(), vocabularySize);
        var nt := ThetaNumerators(CountRows(termDocMatrix), Slices(topicProb), Topics(), vocabularySize);
        if HasZeroRow(np) then Rows(topicWordProb) == np && Rows(documentTopicProb) == old(Rows(documentTopicProb))
        else Rows(topicWordProb) == Normalize(np).value && Rows(documentTopicProb) == nt
    {
      var size, topics := vocabularySize, Topics();
      var counts, z, thetaArr, phiArr := termDocMatrix, topicProb, documentTopicProb, topicWordProb;
      FillPhiNumerators(counts, z, phiArr);
      var phi := Normalize(Rows(phiArr));
      if phi.Err? {
        return Fail(phi.error);
      }
      phiArr := NewTable(phi.value, topics, size);
      topicWordProb := phiArr;
      FillThetaNumerators(counts, z, thetaArr);
      var theta := Normalize(Rows(thetaArr));
      if theta.Err? {
        return Fail(theta.error);
      }
      documentTopicProb := NewTable(theta.value, numberOfDocuments, topics);
      outcome := Pass;
    }

    /**
     * `calculate_likelihood`: Σ_d Σ_w C[d][w] · log2(Σ_k Θ[d][k] · Φ[k][w])
     * appended to the trace; `math.log` refuses a mixture that is not
     * positive, and then the trace is left as it was.
     */
    method CalculateLikelihood(log2: real -> real) returns (outcome: Outcome)
      requires Shapes()
      modifies this`likelihoods
      ensures outcome.Pass? <==>
        Likelihood(CountRows(termDocMatrix), Rows(documentTopicProb), Rows(topicWordProb), vocabularySize, log2).Ok?
      ensures outcome.Pass? ==>
        likelihoods == old(likelihoods) + [Likelihood(CountRows(termDocMatrix), Rows(documentTopicProb), Rows(topicWordProb), vocabularySize, log2).value]
      ensures outcome.Fail? ==> outcome.error == DegenerateLikelihood && likelihoods == old(likelihoods)
    {
      var r := LogLikelihood(termDocMatrix, documentTopicProb, topicWordProb, log2);
      if r.Err? {
        return Fail(r.error);
      }
      var currLog := r.value;
      likelihoods := likelihoods + [currLog];
      outcome := Pass;
    }

    /**
     * The body of the loop of `plsa`: E-step, M-step and likelihood, as one
     * step of the EM recurrence; the first step that fails ends the round.
     */
    method Round(log2: real -> real) returns (outcome: Outcome)
      requires Shapes()
      modifies this`documentTopicProb, this`topicWordProb, this`likelihoods, this`topicProb, documentTopicProb, topicWordProb
      ensures Shapes() && Topics() == old(Topics())
      ensures documentTopicProb == old(documentTopicProb) || fresh(documentTopicProb)
      ensures topicWordProb == old(topicWordProb) || fresh(topicWordProb)
      ensures var r := Iterate(CountRows(termDocMatrix), old(Current()), vocabularySize, log2);
        && (outcome.Pass? <==> r.Ok?)
        && (outcome.Pass? ==> Current() == r.value.0 && likelihoods == old(likelihoods) + [r.value.1])
        && (outcome.Fail? ==> outcome.error == r.error && likelihoods == old(likelihoods))
    {
      ghost var c, p := CountRows(termDocMatrix), Current();
      IterateCases(c, p, vocabularySize, log2);
      outcome := ExpectationStep();
      if outcome.Pass? {
        outcome := MaximizationStep();
      }
      if outcome.Pass? {
        outcome := CalculateLikelihood(log2);
      }
    }

    /**
     * `plsa`: the count matrix, an all-zero Z (which the first E-step
     * replaces), the random initialiser (its samples given), then up to maxIter rounds of E-step, M-step and likelihood,
     * leaving the loop after a round, from the second on, whose likelihood
     * moved by less than epsilon from the one before it. The result says
     * how the loop ended.
     */
    method Plsa(numberOfTopics: nat, maxIter: nat, epsilon: real, thetaSamples: Matrix, phiSamples: Matrix,
                log2: real -> real) returns (status: Status)
      requires Valid()
      requires IsMatrix(thetaSamples, numberOfDocuments, numberOfTopics)
      requires IsMatrix(phiSamples, numberOfTopics, |vocabulary|)
      requires Samples(thetaSamples) && Samples(phiSamples)
      modifies this
      ensures Valid() && documents == old(documents) && vocabulary == old(vocabulary)
      ensures CountRows(termDocMatrix) == CountMatrix(documents, vocabulary)
      ensures EmModel.Initialize(thetaSamples, phiSamples).Ok? ==> Shapes()
      ensures EmModel.Initialize(thetaSamples, phiSamples).Err? ==>
        status == Failed(ZeroRowSum) && likelihoods == old(likelihoods)
      ensures EmModel.Initialize(thetaSamples, phiSamples).Ok? ==>
        var fit := Run(CountMatrix(documents, vocabulary), EmModel.Initialize(thetaSamples, phiSamples).value,
                       |vocabulary|, log2, maxIter, epsilon, old(likelihoods), 0);
        && status == fit.status && likelihoods == fit.likelihoods
        && (!status.Failed? ==> Current() == fit.params)
      ensures !status.Failed? ==> RowStochastic(Current().theta) && RowStochastic(Current().phi)
    {
      BuildTermDocMatrix();
      var zeros := new real[numberOfDocuments, numberOfTopics, vocabularySize]((_, _, _) => 0.0);
      topicProb := zeros;
      var init := Initialize(numberOfTopics, true, thetaSamples, phiSamples);
      if init.Fail? {
        return Failed(init.error);
      }
      InitializeSpec(thetaSamples, phiSamples, numberOfDocuments, numberOfTopics, |vocabulary|);
      RunKeepsStochastic(CountRows(termDocMatrix), Current(), vocabularySize, log2, maxIter, epsilon, likelihoods, 0);
      status := Fit(CountRows(termDocMatrix), Current(), maxIter, epsilon, log2);
    }

    /**
     * The loop of `plsa`: up to maxIter rounds, leaving after a round, from
     * the second on, whose likelihood moved by less than epsilon, or at the
     * first round that fails; proved to follow the recurrence Run.
     */
    method Fit(ghost c: Counts, ghost p0: Params, maxIter: nat, epsilon: real, log2: real -> real) returns (status: Status)
      requires Shapes() && c == CountRows(termDocMatrix) && p0 == Current()
      modifies this`documentTopicProb, this`topicWordProb, this`likelihoods, this`topicProb, documentTopicProb, topicWordProb
      ensures Shapes()
      ensures var fit := Run(c, p0, vocabularySize, log2, maxIter, epsilon, old(likelihoods), 0);
        && status == fit.status && likelihoods == fit.likelihoods
        && (!status.Failed? ==> Current() == fit.params)
    {
      ghost var p := p0;
      ghost var fit := Run(c, p, vocabularySize, log2, maxIter, epsilon, likelihoods, 0);
      var iteration := 0;
      while iteration < maxIter
        invariant Shapes() && c == CountRows(termDocMatrix) && p == Current()
        invariant documentTopicProb == old(documentTopicProb) || fresh(documentTopicProb)
        invariant topicWordProb == old(topicWordProb) || fresh(topicWordProb)
        invariant iteration <= maxIter && iteration <= |likelihoods|
        invariant Run(c, p, vocabularySize, log2, maxIter, epsilon, likelihoods, iteration) == fit
      {
        var done;
        done, status, p := Step(c, p, fit, maxIter, epsilon, log2, iteration);
        if done {
          return;
        }
        iteration := iteration + 1;
      }
      RunDone(c, p, vocabularySize, log2, maxIter, epsilon, likelihoods);
      status := BudgetExhausted;
    }

    /**
     * One pass of the loop of `plsa`: a round, then the decision to leave
     * (the round failed, or from the second round on the likelihood moved by
     * less than epsilon) or to go on; proved to take one step of Run.
     * `status` is how the loop ended, and is meaningful only when `done`.
     */
    method Step(ghost c: Counts, ghost p: Params, ghost fit: FitResult, maxIter: nat, epsilon: real, log2: real -> real, iteration: nat)
      returns (done: bool, status: Status, ghost q: Params)
      requires Shapes() && c == CountRows(termDocMatrix) && p == Current()
      requires iteration < maxIter && iteration <= |likelihoods|
      requires Run(c, p, vocabularySize, log2, maxIter, epsilon, likelihoods, iteration) == fit
      modifies this`documentTopicProb, this`topicWordProb, this`likelihoods, this`topicProb, documentTopicProb, topicWordProb
      ensures Shapes()
      ensures documentTopicProb == old(documentTopicProb) || fresh(documentTopicProb)
      ensures topicWordProb == old(topicWordProb) || fresh(topicWordProb)
      ensures iteration <= |likelihoods|
      ensures c == CountRows(termDocMatrix) && q == Current()
      ensures done ==> status == fit.status && likelihoods == fit.likelihoods && (!status.Failed? ==> q == fit.params)
      ensures !done ==>
        && iteration + 1 <= |likelihoods|
        && Run(c, q, vocabularySize, log2, maxIter, epsilon, likelihoods, iteration + 1) == fit
    {
      ghost var L := likelihoods;
      RunStep(c, p, vocabularySize, log2, maxIter, epsilon, L, iteration);
      var outcome := Round(log2);
      q := Current();
      if outcome.Fail? {
        done, status := true, Failed(outcome.error);
      } else {
        assert likelihoods == L + [likelihoods[|L|]];
        if iteration >= 1 && Abs(likelihoods[iteration] - likelihoods[iteration - 1]) < epsilon {
          done, status := true, Converged;
        } else {
          done, status := false, BudgetExhausted;
        }
      }
    }
  }

  /** The first loop nest of `maximization_step`: Φ[t, w] := Σ_d C[d][w] · Z[d][t][w], column by column. */
  method FillPhiNumerators(counts: array2<nat>, z: array3<real>, phiArr: array2<real>)
    requires z.Length0 == counts.Length0 && z.Length2 == counts.Length1
    requires phiArr.Length0 == z.Length1 && phiArr.Length1 == counts.Length1
    modifies phiArr
    ensures Rows(phiArr) == PhiNumerators(CountRows(counts), Slices(z), z.Length1, counts.Length1)
  {
    ghost var np := PhiNumerators(CountRows(counts), Slices(z), z.Length1, counts.Length1);
    for w := 0 to counts.Length1
      modifies phiArr
      invariant FilledByColumns(phiArr, np, w, 0)
    {
      for t := 0 to z.Length1
        modifies phiArr
        invariant FilledByColumns(phiArr, np, w, t)
      {
        var counter := PhiNumerator(counts, z, t, w);
        phiArr[t, w] := counter;
        FilledByColumnsStep(phiArr, np, w, t);
      }
      FilledByColumnsNext(phiArr, np, w);
    }
    FilledByColumnsAll(phiArr, np);
  }

  /** The second loop nest of `maximization_step`: Θ[d, t] := Σ_w C[d][w] · Z[d][t][w], column by column. */
  method FillThetaNumerators(counts: array2<nat>, z: array3<real>, thetaArr: array2<real>)
    requires z.Length0 == counts.Length0 && z.Length2 == counts.Length1
    requires thetaArr.Length0 == counts.Length0 && thetaArr.Length1 == z.Length1
    modifies thetaArr
    ensures Rows(thetaArr) == ThetaNumerators(CountRows(counts), Slices(z), z.Length1, counts.Length1)
  {
    ghost var nt := ThetaNumerators(CountRows(counts), Slices(z), z.Length1, counts.Length1);
    for t := 0 to z.Length1
      modifies thetaArr
      invariant FilledByColumns(thetaArr, nt, t, 0)
    {
      for d := 0 to counts.Length0
        modifies thetaArr
        invariant FilledByColumns(thetaArr, nt, t, d)
      {
        var counter := ThetaNumerator(counts, z, d, t);
        thetaArr[d, t] := counter;
        FilledByColumnsStep(thetaArr, nt, t, d);
      }
      FilledByColumnsNext(thetaArr, nt, t);
    }
    FilledByColumnsAll(thetaArr, nt);
  }

  /**
   * The loops of `calculate_likelihood`: the running total `currLog` over
   * every (document, term) pair, failing at the first pair whose mixture
   * `math.log` refuses.
   */
  method LogLikelihood(counts: array2<nat>, thetaArr: array2<real>, phiArr: array2<real>, log2: real -> real)
    returns (r: Result<real>)
    requires counts.Length0 == thetaArr.Length0 && thetaArr.Length1 == phiArr.Length0 && counts.Length1 == phiArr.Length1
    ensures r == Likelihood(CountRows(counts), Rows(thetaArr), Rows(phiArr), phiArr.Length1, log2)
  {
    ghost var c, theta, phi := CountRows(counts), Rows(thetaArr), Rows(phiArr);
    ghost var logs := DocumentLogs(c, theta, phi, phiArr.Length1, log2);
    var currLog := 0.0;
    for i := 0 to counts.Length0
      invariant currLog == Sum(logs[..i])
      invariant forall d, w :: 0 <= d < |theta| && 0 <= w < phiArr.Length1 && Before(d, w, i, 0) ==>
        Mixture(theta, phi, phiArr.Length1, d, w) > 0.0
    {
      var ok;
      ok, currLog := AddDocument(counts, thetaArr, phiArr, log2, i, currLog);
      if !ok {
        return Err(DegenerateLikelihood);
      }
      SumStep(logs, i);
    }
    assert logs[..counts.Length0] == logs;
    assert !NonPositiveMixture(theta, phi, phiArr.Length1) by {
      forall d, w | 0 <= d < |theta| && 0 <= w < phiArr.Length1 ensures Mixture(theta, phi, phiArr.Length1, d, w) > 0.0 {
        assert Before(d, w, |theta|, 0);
      }
    }
    r := Ok(currLog);
  }

  /**
   * The inner loops of `calculate_likelihood` for document i:
   * `currLog += C[i][j] * log2(counter)` for every term j, or false at the
   * first term whose mixture is not positive.
   */
  method AddDocument(counts: array2<nat>, thetaArr: array2<real>, phiArr: array2<real>, log2: real -> real,
                     i: nat, currLog0: real) returns (ok: bool, currLog: real)
    requires counts.Length0 == thetaArr.Length0 && thetaArr.Length1 == phiArr.Length0 && counts.Length1 == phiArr.Length1
    requires i < counts.Length0
    ensures var theta, phi := Rows(thetaArr), Rows(phiArr);
      ok <==> forall w :: 0 <= w < phiArr.Length1 ==> Mixture(theta, phi, phiArr.Length1, i, w) > 0.0
    ensures ok ==> currLog == currLog0 + Sum(LogTerms(CountRows(counts), Rows(thetaArr), Rows(phiArr), phiArr.Length1, log2, i))
  {
    ghost var c, theta, phi := CountRows(counts), Rows(thetaArr), Rows(phiArr);
    ghost var row := LogTerms(c, theta, phi, phiArr.Length1, log2, i);
    currLog := currLog0;
    for j := 0 to phiArr.Length1
      invariant currLog == currLog0 + Sum(row[..j])
      invariant PositiveUpTo(theta, phi, phiArr.Length1, i, j)
    {
      var positive, term := LogTerm(counts, thetaArr, phiArr, log2, i, j);
      if !positive {
        return false, currLog;
      }
      RunningTotal(currLog0, currLog, row, j, term);
      currLog := currLog + term;
    }
    assert row[..phiArr.Length1] == row;
    PositiveUpToAll(theta, phi, phiArr.Length1, i, phiArr.Length1);
    ok := true;
  }

  /** The mixtures of the first j terms of document d are positive. */
  predicate PositiveUpTo(theta: Matrix, phi: Matrix, terms: nat, d: nat, j: nat)
    requires Tables(theta, phi, terms) && d < |theta| && j <= terms
  {
    j == 0 || (PositiveUpTo(theta, phi, terms, d, j - 1) && Mixture(theta, phi, terms, d, j - 1) > 0.0)
  }

  lemma {:induction false} PositiveUpToAll(theta: Matrix, phi: Matrix, terms: nat, d: nat, j: nat)
    requires Tables(theta, phi, terms) && d < |theta| && j <= terms
    ensures PositiveUpTo(theta, phi, terms, d, j) <==> forall w :: 0 <= w < j ==> Mixture(theta, phi, terms, d, w) > 0.0
  {
    if j > 0 {
      PositiveUpToAll(theta, phi, terms, d, j - 1);
    }
  }

  /**
   * One term `C[i][j] * math.log(counter, 2)` of `calculate_likelihood`, or
   * false when the mixture `counter` is not positive.
   */
  method LogTerm(counts: array2<nat>, thetaArr: array2<real>, phiArr: array2<real>, log2: real -> real, i: nat, j: nat)
    returns (positive: bool, term: real)
    requires counts.Length0 == thetaArr.Length0 && thetaArr.Length1 == phiArr.Length0 && counts.Length1 == phiArr.Length1
    requires i < counts.Length0 && j < counts.Length1
    ensures positive <==> Mixture(Rows(thetaArr), Rows(phiArr), phiArr.Length1, i, j) > 0.0
    ensures positive ==> term == LogTerms(CountRows(counts), Rows(thetaArr), Rows(phiArr), phiArr.Length1, log2, i)[j]
  {
    var counter := MixtureAt(thetaArr, phiArr, i, j);
    if counter <= 0.0 {
      return false, 0.0;
    }
    positive, term := true, counts[i, j] as real * log2(counter);
  }

  /** A running total started at a, after one more element. */
  lemma RunningTotal(a: real, total: real, s: seq<real>, j: nat, x: real)
    requires j < |s| && total == a + Sum(s[..j]) && x == s[j]
    ensures total + x == a + Sum(s[..j + 1])
  {
    SumStep(s, j);
  }

  /** `for d in range(number_of_documents): counter += C[d][w] * Z[d][t][w]`: one numerator of Φ. */
  method PhiNumerator(counts: array2<nat>, z: array3<real>, t: nat, w: nat) returns (counter: real)
    requires z.Length0 == counts.Length0 && z.Length2 == counts.Length1 && t < z.Length1 && w < counts.Length1
    ensures counter == PhiNumerators(CountRows(counts), Slices(z), z.Length1, counts.Length1)[t][w]
  {
    ghost var s := PhiTerms(CountRows(counts), Slices(z), z.Length1, counts.Length1, t, w);
    counter := 0.0;
    for d := 0 to counts.Length0
      invariant counter == Sum(s[..d])
    {
      SumStep(s, d);
      var termDocV := counts[d, w];
      var topicProbV := z[d, t, w];
      counter := counter + termDocV as real * topicProbV;
    }
    assert s[..counts.Length0] == s;
  }

  /** `for w in range(vocabulary_size): counter += C[d][w] * Z[d][t][w]`: one numerator of Θ. */
  method ThetaNumerator(counts: array2<nat>, z: array3<real>, d: nat, t: nat) returns (counter: real)
    requires z.Length0 == counts.Length0 && z.Length2 == counts.Length1 && d < counts.Length0 && t < z.Length1
    ensures counter == ThetaNumerators(CountRows(counts), Slices(z), z.Length1, counts.Length1)[d][t]
  {
    ghost var s := ThetaTerms(CountRows(counts), Slices(z), z.Length1, counts.Length1, d, t);
    counter := 0.0;
    for w := 0 to counts.Length1
      invariant counter == Sum(s[..w])
    {
      SumStep(s, w);
      var termDocV := counts[d, w];
      var topicProbV := z[d, t, w];
      counter := counter + termDocV as real * topicProbV;
    }
    assert s[..counts.Length1] == s;
  }

  /** `for k in range(number_of_topics): counter += Θ[i][k] * Φ[k][j]`: the mixture of one pair. */
  method MixtureAt(thetaArr: array2<real>, phiArr: array2<real>, i: nat, j: nat) returns (counter: real)
    requires i < thetaArr.Length0 && thetaArr.Length1 == phiArr.Length0 && j < phiArr.Length1
    ensures counter == Mixture(Rows(thetaArr), Rows(phiArr), phiArr.Length1, i, j)
  {
    ghost var s := Weights(thetaArr, phiArr, i, j);
    counter := 0.0;
    for k := 0 to phiArr.Length0
      invariant counter == Sum(s[..k])
    {
      SumStep(s, k);
      counter := counter + thetaArr[i, k] * phiArr[k, j];
    }
    assert s[..phiArr.Length0] == s;
  }

  /** Every cell [r, c] of column c before col, or of column col before row, holds m[r][c]. */
  ghost predicate FilledByColumns(a: array2<real>, m: Matrix, col: nat, row: nat)
    reads a
  {
    && IsMatrix(m, a.Length0, a.Length1)
    && forall r, c :: 0 <= r < a.Length0 && 0 <= c < a.Length1 && Before(c, r, col, row) ==> a[r, c] == m[r][c]
  }

  lemma FilledByColumnsStep(a: array2<real>, m: Matrix, col: nat, row: nat)
    requires IsMatrix(m, a.Length0, a.Length1) && row < a.Length0 && col < a.Length1
    requires forall r, c :: 0 <= r < a.Length0 && 0 <= c < a.Length1 && Before(c, r, col, row) ==> a[r, c] == m[r][c]
    requires a[row, col] == m[row][col]
    ensures FilledByColumns(a, m, col, row + 1)
  {
  }

  lemma FilledByColumnsNext(a: array2<real>, m: Matrix, col: nat)
    requires FilledByColumns(a, m, col, a.Length0)
    ensures FilledByColumns(a, m, col + 1, 0)
  {
  }

  lemma FilledByColumnsAll(a: array2<real>, m: Matrix)
    requires FilledByColumns(a, m, a.Length1, 0)
    ensures Rows(a) == m
  {
    forall r | 0 <= r < a.Length0 ensures Rows(a)[r] == m[r] {
      forall c | 0 <= c < a.Length1 ensures Rows(a)[r][c] == m[r][c] {
        assert Before(c, r, a.Length1, 0);
      }
    }
  }

  /**
   * The loops of `expectation_step`: every (document, term) pair in turn,
   * stopping with false at the first pair whose weights sum to zero (the
   * source exits there); on success Z holds the posterior.
   */
  method FillPosterior(z: array3<real>, thetaArr: array2<real>, phiArr: array2<real>) returns (ok: bool)
    requires thetaArr.Length1 == phiArr.Length0
    requires z.Length0 == thetaArr.Length0 && z.Length1 == phiArr.Length0 && z.Length2 == phiArr.Length1
    modifies z
    ensures ok <==> !ZeroMixture(Rows(thetaArr), Rows(phiArr), phiArr.Length1)
    ensures ok ==> Slices(z) == Posterior(Rows(thetaArr), Rows(phiArr), phiArr.Length1)
  {
    var size := phiArr.Length1;
    ghost var theta := Rows(thetaArr);
    ghost var phi := Rows(phiArr);
    for i := 0 to thetaArr.Length0
      modifies z
      invariant Filled(z, theta, phi, size, i, 0)
    {
      for j := 0 to size
        modifies z
        invariant Filled(z, theta, phi, size, i, j)
      {
        ok := PosteriorPair(z, thetaArr, phiArr, i, j);
        if !ok {
          assert Mixture(theta, phi, size, i, j) == 0.0;
          return;
        }
        FilledStep(z, theta, phi, size, i, j);
      }
      FilledRow(z, theta, phi, size, i);
    }
    PosteriorSlices(z, theta, phi, size);
    ok := true;
  }

  /** `document_topic_prob[i,:] * topic_word_prob[:,j]`: the topic weights of one (document, term) pair. */
  function Weights(thetaArr: array2<real>, phiArr: array2<real>, i: nat, j: nat): (prob: seq<real>)
    reads thetaArr, phiArr
    requires i < thetaArr.Length0 && thetaArr.Length1 == phiArr.Length0 && j < phiArr.Length1
    ensures prob == TopicWeights(Rows(thetaArr), Rows(phiArr), phiArr.Length1, i, j)
  {
    var prob := seq(phiArr.Length0, k requires 0 <= k < phiArr.Length0 reads thetaArr, phiArr => thetaArr[i, k] * phiArr[k, j]);
    var theta, phi := Rows(thetaArr), Rows(phiArr);
    var u := TopicWeights(theta, phi, phiArr.Length1, i, j);
    assert forall k :: 0 <= k < |prob| ==> prob[k] == u[k];
    prob
  }

  /** `for p in prob: probSum += p`: the running total of a sequence. */
  method Accumulate(prob: seq<real>) returns (probSum: real)
    ensures probSum == Sum(prob)
  {
    probSum := 0.0;
    for k := 0 to |prob|
      invariant probSum == Sum(prob[..k])
    {
      SumStep(prob, k);
      probSum := probSum + prob[k];
    }
    assert prob[..|prob|] == prob;
  }

  /**
   * One (document, term) pair of `expectation_step`: false when the topic
   * weights sum to zero, otherwise Z[i, :, j] set to the weights over their
   * total; no other entry of Z changes.
   */
  method PosteriorPair(z: array3<real>, thetaArr: array2<real>, phiArr: array2<real>, i: nat, j: nat) returns (ok: bool)
    requires i < thetaArr.Length0 && thetaArr.Length1 == phiArr.Length0 && j < phiArr.Length1
    requires z.Length0 == thetaArr.Length0 && z.Length1 == phiArr.Length0 && z.Length2 == phiArr.Length1
    modifies z
    ensures ok <==> Mixture(Rows(thetaArr), Rows(phiArr), phiArr.Length1, i, j) != 0.0
    ensures ok ==> forall k :: 0 <= k < z.Length1 ==>
      z[i, k, j] == PosteriorCell(Rows(thetaArr), Rows(phiArr), phiArr.Length1, i, k, j)
    ensures forall i', k, j' :: 0 <= i' < z.Length0 && 0 <= k < z.Length1 && 0 <= j' < z.Length2 && (i' != i || j' != j) ==>
      z[i', k, j'] == old(z[i', k, j'])
  {
    var prob := Weights(thetaArr, phiArr, i, j);
    if Sum(prob) == 0.0 {
      return false;
    }
    var probSum := Accumulate(prob);
    forall k | 0 <= k < z.Length1 {
      z[i, k, j] := prob[k] / probSum;
    }
    ok := true;
  }

  /** The pair (d, w) comes before (i, j) in row-major order. */
  predicate Before(d: nat, w: nat, i: nat, j: nat)
  {
    d < i || (d == i && w < j)
  }

  /** Every pair before (i, j) in row-major order has a non-zero mixture and holds its posterior. */
  ghost predicate Filled(z: array3<real>, theta: Matrix, phi: Matrix, terms: nat, i: nat, j: nat)
    reads z
  {
    && Tables(theta, phi, terms)
    && z.Length0 == |theta| && z.Length1 == |phi| && z.Length2 == terms
    && (forall d, w :: 0 <= d < |theta| && 0 <= w < terms && Before(d, w, i, j) ==>
         Mixture(theta, phi, terms, d, w) != 0.0)
    && (forall d, k, w :: 0 <= d < |theta| && 0 <= k < |phi| && 0 <= w < terms && Before(d, w, i, j) ==>
         Mixture(theta, phi, terms, d, w) != 0.0 && z[d, k, w] == PosteriorCell(theta, phi, terms, d, k, w))
  }

  lemma FilledStep(z: array3<real>, theta: Matrix, phi: Matrix, terms: nat, i: nat, j: nat)
    requires Filled(z, theta, phi, terms, i, j) && i < |theta| && j < terms
    requires Mixture(theta, phi, terms, i, j) != 0.0
    requires forall k :: 0 <= k < |phi| ==> z[i, k, j] == PosteriorCell(theta, phi, terms, i, k, j)
    ensures Filled(z, theta, phi, terms, i, j + 1)
  {
  }

  lemma FilledRow(z: array3<real>, theta: Matrix, phi: Matrix, terms: nat, i: nat)
    requires Filled(z, theta, phi, terms, i, terms)
    ensures Filled(z, theta, phi, terms, i + 1, 0)
  {
  }

  /** An array holding every posterior cell holds the posterior. */
  lemma PosteriorSlices(z: array3<real>, theta: Matrix, phi: Matrix, terms: nat)
    requires Filled(z, theta, phi, terms, |theta|, 0)
    ensures !ZeroMixture(theta, phi, terms)
    ensures Slices(z) == Posterior(theta, phi, terms)
  {
    forall d, w | 0 <= d < |theta| && 0 <= w < terms ensures Mixture(theta, phi, terms, d, w) != 0.0 {
      assert Before(d, w, |theta|, 0);
    }
    var a := Slices(z);
    var b := Posterior(theta, phi, terms);
    forall i | 0 <= i < |theta| ensures a[i] == b[i] {
      forall k | 0 <= k < |phi| ensures a[i][k] == b[i][k] {
        forall j | 0 <= j < terms ensures a[i][k][j] == b[i][k][j] {
          assert Before(i, j, |theta|, 0);
        }
      }
    }
  }


  /**
   * A corpus of at least one document, none of them empty, counted over its
   * own vocabulary: every document row and every term column of the count
   * matrix has a positive total.
   */
  lemma CountsCover(docs: seq<seq<string>>, vocab: seq<string>)
    requires IsVocabularyOf(vocab, docs) && |docs| >= 1
    requires forall d :: 0 <= d < |docs| ==> docs[d] != []
    ensures Covering(CountMatrix(docs, vocab), |vocab|)
  {
    var c := CountMatrix(docs, vocab);
    assert docs[0][0] in docs[0];
    assert docs[0][0] in vocab;
    forall d | 0 <= d < |docs| ensures Sum(DocumentRow(c, |vocab|, d)) > 0.0 {
      assert DocumentRow(c, |vocab|, d) == CountRow(docs[d], vocab);
      assert forall x :: x in docs[d] ==> x in vocab;
      CountRowSum(docs[d], vocab);
    }
    forall w | 0 <= w < |vocab| ensures Sum(TermColumn(c, |vocab|, w)) > 0.0 {
      assert TermColumn(c, |vocab|, w) == CountColumn(docs, vocab[w]);
      CountColumnPositive(docs, vocab, w);
    }
  }

  /**
   * EM from the uniform start on a corpus of non-empty documents, over any
   * vocabulary of it (`build_vocabulary` may list the distinct words in any
   * order): the first round already reaches
   * the fixed point (Θ uniform, every row of Φ the corpus-wide term
   * frequencies), so with epsilon > 0 and at least two rounds allowed the
   * loop converges after the second.
   */
  lemma CorpusUniformRun(docs: seq<seq<string>>, vocab: seq<string>, topics: nat, log2: real -> real, maxIter: nat, epsilon: real)
    requires IsVocabularyOf(vocab, docs) && |docs| >= 1 && topics >= 1
    requires forall d :: 0 <= d < |docs| ==> docs[d] != []
    ensures var c := CountMatrix(docs, vocab);
      Covering(c, |vocab|) &&
      Run(c, UniformTables(|docs|, topics, |vocab|), |vocab|, log2, maxIter, epsilon, [], 0) ==
        if maxIter == 0 then FitResult(UniformTables(|docs|, topics, |vocab|), [], BudgetExhausted)
        else if maxIter == 1 || epsilon <= 0.0 then
          FitResult(FixedTables(c, topics, |vocab|), Repeat(maxIter, FixedLikelihood(c, |vocab|, log2)), BudgetExhausted)
        else FitResult(FixedTables(c, topics, |vocab|), [FixedLikelihood(c, |vocab|, log2), FixedLikelihood(c, |vocab|, log2)], Converged)
  {
    CountsCover(docs, vocab);
    UniformRun(CountMatrix(docs, vocab), topics, |vocab|, log2, maxIter, epsilon);
  }
}
