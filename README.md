# PLSA fitting engine in Dafny

This project models the `Corpus` class of `plsa.py`, which fits a
Probabilistic Latent Semantic Analysis topic model by
Expectation-Maximisation (EM).

Shapes: D documents, K topics, V vocabulary terms. Θ = P(z | d) is D x K,
Φ = P(w | z) is K x V, the posterior Z = P(z | d, w) is D x K x V, and the
term-document counts C are D x V.

What is modelled:

- the module-level `normalize`;
- the vocabulary built by `build_vocabulary`;
- the count matrix of `build_term_doc_matrix`;
- the two initialisers and `initialize`;
- the E-step, the M-step and the log-likelihood;
- the convergence-gated loop of `plsa`.

The arithmetic is over exact `real`s.

Modules:

- `Results` (results.dfy): the three ways a run can fail, and the
  `Result`/`Outcome` types that carry them.
  - `ZeroRowSum`: the exception `normalize` raises.
  - `DegenerateEStep`: the `exit(0)` of the E-step.
  - `DegenerateLikelihood`: `math.log` refusing a non-positive mixture.
- `Sums` (sums.dfy): left-to-right sums, as the source's loops accumulate
  them, and their algebra.
- `Normalization` (normalize.dfy): `normalize` as a pure function and its
  contract.
- `Vocabulary` (vocabulary.dfy):
  - the token list and its deduplication;
  - `list.count`;
  - the value of the count matrix.
- `EmModel` (em_model.dfy): the EM recurrence on values.
  - the initialisers;
  - the E-step and its posterior;
  - the M-step and its numerators;
  - the likelihood;
  - one iteration (`Iterate`);
  - the loop as the recurrence `Run`/`RunIteration`, with its loop-control
    properties.
- `UniformStart` (uniform_start.dfy): what the recurrence does from the
  uniform tables, on a corpus whose documents all have words.
- `Plsa` (corpus.dfy): the class `Corpus`.
  - Fields: the documents, the vocabulary, the likelihood trace, the
    counts as an `array2<nat>`, Θ and Φ as `array2<real>` and Z as an
    `array3<real>`.
  - Each method of the source (`BuildTermDocMatrix`, `ExpectationStep`,
    `MaximizationStep`, `CalculateLikelihood`, `Plsa`, …) updates them
    with the source's loops.
  - `BuildVocabulary` and `BuildTermDocMatrix` are proved to produce
    exactly what `Vocabulary` specifies; every other method is proved to
    produce exactly what `EmModel` specifies.

Some consequences of the code of plsa.py that are easy to miss:

- **Unless all terms are equally frequent, the uniform start is not a fixed point with Φ = 1/V.** The first E-step
  gives Z = 1/K. The first M-step then keeps Θ at 1/K but sets every row of
  Φ to the corpus-wide word-frequency proportions. From the second
  iteration on nothing changes (`UniformStart.UniformRun`).
  - With epsilon > 0 and a budget of at least two, the loop therefore
    converges after exactly two iterations.
  - The likelihood trace is constant from the first iteration on.
- **epsilon = 0 never converges.** The test is a strict
  `abs(...) < epsilon`, so with epsilon = 0 the loop always uses up its
  budget (`EmModel.RunControl`).
- **No argument checks.** `plsa` does not reject a topic count or budget of
  0, or a negative epsilon. The model accepts them as the code does:
  - a budget of 0 runs no iteration;
  - 0 topics fails in `normalize` when there is at least one document.
- **The test reads the trace by iteration number.** It reads
  `likelihoods[iteration]`, not the last element. A trace that was
  non-empty before the call is read as the code reads it
  (`EmModel.RunIteration`).
- **An empty document makes every M-step fail.** Its Θ numerator row is
  zero, so `normalize` refuses it (`EmModel.EmptyDocumentFailsMStep`). The
  uniform-start results therefore assume that every document has a word.

## Model

| member | source | states |
|---|---|---|
| Normalization.Normalize | plsa.py:6-17 | a successful result has the input's number of rows and each row's length |
| Normalization.NormalizeSpec | plsa.py:11-17 | fails (with ZeroRowSum) iff some row sums to zero; otherwise the same shape, entry [i][j] = m[i][j] / (row sum i), every row sums to 1, and a non-negative input gives a row-stochastic result |
| Normalization.DividedRowSumsToOne | plsa.py:16 | a row divided by its own non-zero sum sums to 1, and stays non-negative if it was |
| Normalization.NormalizeIdempotent | plsa.py:16-17 | normalising an already normalised matrix returns it unchanged |
| Normalization.NormalizeConstantRows | plsa.py:16-17 | rows of a repeated non-zero value normalise to the uniform 1/cols, whatever the value of each row |
| Normalization.NormalizeStack | plsa.py:16-17 | copies of one row with a non-zero sum normalise to copies of that row normalised |
| Normalization.NormalizeNoColumns | plsa.py:11-15 | a matrix with rows but no columns is refused with ZeroRowSum |
| Normalization.DivideRow | plsa.py:16 | each result entry times the divisor is the input entry |
| Vocabulary.Tokens | plsa.py:63 | a string is a token iff it occurs in some document |
| Vocabulary.Dedup | plsa.py:63 | the result has no duplicates and the same elements as the input |
| Vocabulary.BuildVocabulary | plsa.py:63-64 | the result has no duplicate and holds exactly the tokens that occur in some document |
| Vocabulary.VocabularyUniqueUpToOrder | plsa.py:63 | any two vocabularies of the same documents are permutations of each other (equal multisets, equal length), so only the order of `list(set(...))` is left open |
| Vocabulary.DistinctMultiplicity | plsa.py:63 | in a list without duplicates every element occurs exactly once |
| Vocabulary.CountIsMultiplicity | plsa.py:79 | `doc.count(term)` is the multiplicity of term in doc, positive iff term occurs in doc |
| Vocabulary.CountMatrix | plsa.py:74-80 | the count matrix is D x V |
| Vocabulary.IndicatorSum | plsa.py:79 | in a vocabulary without duplicates, a token matches at most one term: its indicator row sums to 1 if the token is in the vocabulary and to 0 otherwise |
| Vocabulary.CountRowSum | plsa.py:74-80 | when the vocabulary covers a document's tokens, that document's row of counts adds up to the document's length |
| Vocabulary.CountColumnPositive | plsa.py:63-80 | every term of a vocabulary built from the documents has a positive column total in the counts |
| EmModel.Initialize | plsa.py:92-96 | a successful initialisation keeps the number of rows and each row's length of both raw tables |
| EmModel.InitializeSpec | plsa.py:92-96 | initialisation fails (ZeroRowSum) iff a raw Θ or Φ row sums to zero; otherwise Θ is D x K and Φ is K x V, and non-negative raw tables give row-stochastic tables |
| EmModel.UniformInitValues | plsa.py:106-110 | the all-ones start fails iff there are documents but no topics, or topics but no terms; with K >= 1 and V >= 1 it gives Θ[d][k] = 1/K and Φ[k][w] = 1/V |
| EmModel.TopicWeights | plsa.py:132 | the product vector `Θ[i,:] * Φ[:,j]` has one entry per topic |
| EmModel.Posterior | plsa.py:129-142 | the posterior is a D x K x V tensor |
| EmModel.EStep | plsa.py:126-142 | a successful E-step gives a D x K x V tensor |
| EmModel.PosteriorIsDistribution | plsa.py:130-142 | the E-step fails iff some (document, term) mixture Σ_k Θ[d][k]·Φ[k][w] is zero; otherwise Z[d][k][w] times the mixture is Θ[d][k]·Φ[k][w], every Σ_k Z[d][k][w] is 1, and non-negative tables give a non-negative Z |
| EmModel.PosteriorColumnSum | plsa.py:137-142 | the posterior of one (document, term) pair sums to 1 over the topics |
| EmModel.PosteriorCellNonNegative | plsa.py:141 | non-negative tables give a non-negative posterior entry |
| EmModel.PosteriorTimesMixture | plsa.py:141-142 | every posterior entry times its pair's mixture is Θ[d][k]·Φ[k][w] |
| EmModel.PosteriorColumnsSum | plsa.py:137-142 | every (document, term) pair's posterior sums to 1 over the topics |
| EmModel.PosteriorNonNegative | plsa.py:141-142 | non-negative tables give a non-negative posterior |
| EmModel.PhiTerms | plsa.py:152-155 | one summand C[d][w]·Z[d][t][w] per document |
| EmModel.PhiNumerators | plsa.py:149-156 | the Φ numerators Σ_d C[d][w]·Z[d][t][w] form a K x V matrix |
| EmModel.ThetaTerms | plsa.py:164-167 | one summand C[d][w]·Z[d][t][w] per term |
| EmModel.ThetaNumerators | plsa.py:161-168 | the Θ numerators Σ_w C[d][w]·Z[d][t][w] form a D x K matrix |
| EmModel.MStep | plsa.py:149-170 | a successful M-step gives Θ of D x K and Φ of K x V |
| EmModel.MStepSpec | plsa.py:149-170 | the M-step fails iff a Φ numerator row or a Θ numerator row sums to zero; otherwise Φ[t][w] and Θ[d][t] are their numerators over their numerator row's sum, both read from the same Z, and a non-negative Z gives row-stochastic Φ and Θ |
| EmModel.NumeratorsNonNegative | plsa.py:149-168 | a non-negative posterior gives non-negative Φ and Θ numerators |
| EmModel.EmptyDocumentFailsMStep | plsa.py:161-170 | a document without words (with K >= 1) makes the M-step fail, whatever Z is |
| EmModel.LogTerms | plsa.py:183-187 | one log term C[d][w]·log2(mixture) per vocabulary term |
| EmModel.DocumentLogs | plsa.py:181-189 | one per-document total per document |
| EmModel.Iterate | plsa.py:216-218 | a successful loop body keeps the table shapes |
| EmModel.IterateCases | plsa.py:216-218 | unfolding lemma of Iterate: the loop body runs E-step, M-step, likelihood in that order; the first that fails decides the error (DegenerateEStep, ZeroRowSum, DegenerateLikelihood), otherwise it yields the M-step's tables and their likelihood |
| EmModel.RunDone | plsa.py:213 | unfolding lemma of Run: a run whose budget is used up stops with BudgetExhausted and the tables and trace it has |
| EmModel.RunStep | plsa.py:213-223 | unfolding lemma of Run: one iteration of the loop: a failing body stops with the tables from before the iteration and the old trace (see `EmModel.Run` under Left out), otherwise one likelihood is appended and the run stops at the test `iteration >= 1 and abs(L[iteration] - L[iteration-1]) < epsilon` or goes on |
| EmModel.RunContinues | plsa.py:220-223 | unfolding lemma of Run: an iteration that succeeds and misses the test hands on to the next iteration with the new tables and the extended trace |
| EmModel.IterateKeepsStochastic | plsa.py:216-218 | an iteration that succeeds from non-negative tables gives row-stochastic Θ and Φ |
| EmModel.RunKeepsStochastic | plsa.py:213-223 | a run started from row-stochastic tables ends with row-stochastic tables, however it ends (after a failure these are the tables of the last completed iteration) |
| EmModel.RunConverges | plsa.py:220-221 | unfolding lemma of Run: an iteration that succeeds and meets the test ends the run as Converged with the new tables |
| EmModel.ControlledPrefix | plsa.py:213-221 | the loop-control facts of a run whose trace started as L + [l] hold of it as started from L |
| EmModel.ControlledConverged | plsa.py:220-221 | a run that stops at the test just passed meets the loop-control facts |
| EmModel.NoStopExtended | plsa.py:220-223 | a trace that had not met the test still has not, after a value that misses it |
| EmModel.LoopControl | plsa.py:213-221 | a run that has done `iteration` iterations without stopping meets the loop-control facts |
| EmModel.RunControl | plsa.py:213-221 | from an empty trace: at most maxIter iterations with one likelihood each; Converged exactly at the first index >= 1 with a change below epsilon; BudgetExhausted after maxIter iterations none of which met the test; Failed before the budget; epsilon <= 0 never converges |
| UniformStart.UniformTensor | plsa.py:129-142 | the posterior 1/K everywhere |
| UniformStart.TotalPositive | plsa.py:74-80 | a corpus whose documents and terms all have counts has a positive number of words |
| UniformStart.Frequencies | plsa.py:149-158 | the corpus-wide proportion of every term is positive |
| UniformStart.TopicShares | plsa.py:149-156 | each term total shared out over K topics |
| UniformStart.SharedRowsMixture | plsa.py:132-134 | with Θ = 1/K and every row of Φ equal to q, the mixture of (d, w) is q[w] |
| UniformStart.EStepSharedRows | plsa.py:126-142 | from Θ = 1/K and identical positive Φ rows the E-step succeeds with Z = 1/K everywhere |
| UniformStart.PhiNumeratorOfUniform | plsa.py:151-156 | from Z = 1/K a Φ numerator is its term's corpus total over K |
| UniformStart.PhiNumeratorsOfUniform | plsa.py:149-156 | from Z = 1/K all Φ numerator rows are the same row of term totals over K |
| UniformStart.TopicSharesSum | plsa.py:149-158 | those shares add up to the corpus size over K, which is not zero |
| UniformStart.NormalizeTermTotals | plsa.py:158 | normalising those rows gives the corpus-wide word frequencies in every row of Φ |
| UniformStart.ThetaNumeratorsOfUniform | plsa.py:161-168 | from Z = 1/K the Θ numerators of a document are equal over the topics and not zero |
| UniformStart.MStepUniformPosterior | plsa.py:149-170 | from Z = 1/K the M-step gives Θ = 1/K and every row of Φ the word frequencies (which are 1/V only when all terms are equally frequent) |
| UniformStart.FixedMixture | plsa.py:184-186 | under those tables the mixture of every pair is the term's frequency |
| UniformStart.FixedDocumentLogs | plsa.py:182-187 | under those tables a document's log terms are C[d][w]·log2(frequency of w) |
| UniformStart.LikelihoodOfFixedTables | plsa.py:181-189 | the likelihood of those tables is defined and equals Σ_d Σ_w C[d][w]·log2(frequency of w) |
| UniformStart.UniformPhiIsStack | plsa.py:109-110 | uniform Φ is K copies of the row 1/V |
| UniformStart.FirstIteration | plsa.py:216-218 | the first iteration from the uniform tables reaches the fixed tables and their likelihood |
| UniformStart.LaterIteration | plsa.py:216-218 | an iteration from the fixed tables returns them with the same likelihood |
| UniformStart.Repeat | plsa.py:218 | a trace of n equal likelihoods |
| UniformStart.FixedPointRunsOut | plsa.py:213-223 | at tables that one iteration maps to themselves, with epsilon <= 0, the loop runs out its budget with a constant trace |
| UniformStart.FixedPointContinues | plsa.py:216-223 | at tables that one iteration maps to themselves, an iteration after the first appends the same likelihood, misses the test when epsilon <= 0 and goes on from the same tables |
| UniformStart.FixedLoopRunsOut | plsa.py:213-223 | from the fixed tables after the first iteration, with epsilon <= 0, the loop runs out its budget with a constant trace |
| UniformStart.UniformRunFirst | plsa.py:213-223 | from the uniform tables the first iteration never stops the loop |
| UniformStart.UniformRunSecond | plsa.py:220-221 | at the fixed tables the second iteration repeats the likelihood, so epsilon > 0 stops the loop as Converged with trace [l, l] |
| UniformStart.UniformRun | plsa.py:106-221 | the whole loop from the uniform tables on a covering corpus: no iterations for a budget of 0; BudgetExhausted at the fixed tables with a constant trace for a budget of 1 or epsilon <= 0; otherwise Converged after exactly two iterations |
| Plsa.Rows | plsa.py:35-36 | the matrix read from a 2-d array has its shape and its entries |
| Plsa.CountRows | plsa.py:34 | the count matrix read from a 2-d array has its shape and its entries |
| Plsa.Slices | plsa.py:37 | the tensor read from a 3-d array has its shape and its entries |
| Plsa.NewTable | plsa.py:93 | a fresh array of the given shape holding the given matrix |
| Plsa.Corpus.constructor | plsa.py:30-40 | the documents (as `build_corpus` leaves them, plsa.py:51-52) with their number, an empty vocabulary of size 0 and an empty trace |
| Plsa.Corpus.BuildVocabulary | plsa.py:63-64 | the vocabulary has no duplicate and holds exactly the corpus's tokens, and `vocabularySize` is its length |
| Plsa.Corpus.BuildTermDocMatrix | plsa.py:74-80 | a fresh D x V array, pre-filled with ones, in which every entry [i, j] ends as the count of vocabulary[j] in documents[i] |
| Plsa.Corpus.SetTables | plsa.py:92-96 | success iff neither raw table has a zero row; then Θ and Φ hold the normalised tables; a zero row leaves that table's raw entries stored |
| Plsa.Corpus.InitializeUniformly | plsa.py:106-110 | success iff the all-ones tables normalise; then the tables are those of UniformInit (Θ = 1/K, Φ = 1/V by EmModel.UniformInitValues) |
| Plsa.Corpus.InitializeRandomly | plsa.py:92-96 | with the samples given: success iff no sample row sums to zero; then Θ and Φ are the normalised samples and row-stochastic |
| Plsa.Corpus.Initialize | plsa.py:117-120 | the random or the uniform initialiser, with each one's outcome and tables |
| Plsa.Corpus.ExpectationStep | plsa.py:126-142 | a fresh D x K x V Z; success iff the value-level E-step succeeds, and then Z holds its posterior; failure is DegenerateEStep |
| Plsa.Corpus.MaximizationStep | plsa.py:149-170 | success iff the value-level M-step succeeds, and then Θ and Φ are its tables; on failure the Φ numerators are stored (or, when only Θ fails, Φ normalised and the Θ numerators stored) |
| Plsa.Corpus.CalculateLikelihood | plsa.py:181-189 | success iff every mixture is positive, and then exactly the likelihood of the current tables is appended to the trace; otherwise the trace is unchanged |
| Plsa.Corpus.Round | plsa.py:216-218 | the loop body matches one step of Iterate from the old tables: the same success, error, new tables and one appended likelihood |
| Plsa.Corpus.Step | plsa.py:214-223 | one pass of the loop takes one step of Run: it leaves with Run's final status, trace and tables, or goes on with Run from the next iteration (the status it returns is meaningful only when it leaves) |
| Plsa.Corpus.Fit | plsa.py:213-223 | the loop ends with the status, trace and (unless failed) tables of Run from the initial tables and trace |
| Plsa.Corpus.Plsa | plsa.py:199-223 | the counts of the documents over the vocabulary, then the random initialiser; an initialiser failure is Failed(ZeroRowSum) with the trace unchanged; otherwise the status, trace and tables are those of Run from the initialised tables, and unless the run failed Θ and Φ are row-stochastic |
| Plsa.FillPhiNumerators | plsa.py:149-156 | the Φ array holds exactly the Φ numerators of the counts and Z |
| Plsa.FillThetaNumerators | plsa.py:161-168 | the Θ array holds exactly the Θ numerators of the counts and Z |
| Plsa.PhiNumerator | plsa.py:151-155 | the running `counter` over the documents is the Φ numerator of (t, w) |
| Plsa.ThetaNumerator | plsa.py:163-167 | the running `counter` over the terms is the Θ numerator of (d, t) |
| Plsa.LogLikelihood | plsa.py:181-187 | the running `currLog` is the likelihood of the arrays, or DegenerateLikelihood when some mixture is not positive |
| Plsa.AddDocument | plsa.py:183-187 | succeeds iff every mixture of document i is positive, and then adds exactly the document's log terms |
| Plsa.LogTerm | plsa.py:184-187 | positive iff the mixture of (i, j) is, and then gives the log term C[i][j]·log2(mixture) |
| Plsa.MixtureAt | plsa.py:184-186 | the running `counter` over the topics is the mixture Σ_k Θ[i][k]·Φ[k][j] |
| Plsa.PositiveUpToAll | plsa.py:182-187 | the recursive "positive so far" predicate holds iff the first j mixtures of the document are positive |
| Plsa.RunningTotal | plsa.py:187 | the running total after one more term is the sum of the longer prefix |
| Plsa.FillPosterior | plsa.py:130-142 | success iff no (document, term) mixture is zero, and then the Z array holds the posterior |
| Plsa.Weights | plsa.py:132 | the product vector read from the arrays is the value-level topic weights |
| Plsa.Accumulate | plsa.py:137-139 | `probSum` is the sum of `prob` |
| Plsa.PosteriorPair | plsa.py:132-142 | success iff the pair's mixture is not zero, and then Z[i, :, j] holds its posterior; no other entry of Z changes |
| Plsa.FilledByColumnsAll | plsa.py:149-168 | an array filled column by column to the end holds the whole matrix |
| Plsa.PosteriorSlices | plsa.py:130-142 | an array filled pair by pair to the end holds the posterior, and no mixture was zero |
| Plsa.CountsCover | plsa.py:63-80 | for at least one document, none of them empty, every document row and every term column of its count matrix over its vocabulary has a positive total |
| Plsa.CorpusUniformRun | plsa.py:63-221 | EM from the uniform start over any vocabulary of the corpus, in whatever order `list(set(...))` gives: the first round reaches Θ = 1/K and Φ rows equal to the word frequencies; it converges after exactly two rounds when epsilon > 0 and the budget is at least 2, and otherwise uses up its budget |

## Left out

- File reading and tokenisation in `build_corpus` (plsa.py:49-51) and the `main` driver: these are I/O. The constructor takes the documents as a `seq<seq<string>>`.
- Every `print` call: output only.
- `documents_path`: the file is not read, so the path is not stored.
- `np.random.random_sample` in `initialize_randomly`: it is nondeterministic, so the samples are parameters, constrained to [0, 1).
- `math.log(counter, 2)`: Dafny has no logarithm. It is the parameter `log2: real -> real`. A mixture the logarithm refuses (not positive) is modelled as `DegenerateLikelihood`.
- Floating-point rounding and the `dtype=np.float` detail: the tables are exact `real`s.
- numpy broadcasting (`row_sums[:, np.newaxis]`, the vector product in the E-step): spelt out as explicit row and element operations.
- The order of `list(set(...))`: it is arbitrary. The model deduplicates in first-occurrence order, and `Vocabulary.VocabularyUniqueUpToOrder` shows that every vocabulary of the same documents is a permutation of it.
- `exit(0)` in `expectation_step` (plsa.py:135): it ends the process. It is modelled as the error `DegenerateEStep`, which ends the run. The entries of Z already written, and the fresh Z itself, are left in the object.
- The exception of `normalize`: modelled as the error `ZeroRowSum`, which propagates to the caller as the exception does.
- `None` in `__init__`: the tables and the counts start as arrays of size 0.
- The `number_of_topics` arguments of `maximization_step` and `calculate_likelihood` (plsa.py:150, 161, 185): these are read from the number of rows of Φ, which is what `plsa` passes.
- The all-zero Z allocated by `plsa` (plsa.py:205): it is modelled, but the first E-step replaces it with a fresh array, so nothing reads it.
- Plsa.Corpus.Plsa: returns the `Status` of the loop (how it ended), which the source does not return. The source returns `None`, and its state after the call is the same as the model's.
- Plsa.Corpus.Plsa: on an initialiser failure the source raises. The model returns `Failed(ZeroRowSum)` and states only the state the rest of the contract names.
- Plsa.Corpus.MaximizationStep, Plsa.Corpus.ExpectationStep and the other loop nests are split into helper methods (`FillPhiNumerators`, `PhiNumerator`, `FillPosterior`, `PosteriorPair`, …), one for each loop of the source, with the same loop order.
- Plsa.Corpus.Plsa: `maxIter` and `numberOfTopics` are `nat`, so negative values, which Python accepts, are not modelled: `range` of a negative budget runs no iteration, and a negative topic count makes numpy raise when the tables are allocated (plsa.py:205).
- EmModel.Run: a Failed result carries the tables of the last completed iteration, not the program's state. After a failure plsa.py leaves other tables: the Φ numerators when Φ's normalize fails (plsa.py:156-158), the normalised Φ and the Θ numerators when Θ's fails (plsa.py:168-170), and the new M-step tables when `math.log` raises (plsa.py:187). Only the E-step exit (plsa.py:135) leaves the old tables. `Plsa.Corpus.ExpectationStep`, `MaximizationStep` and `CalculateLikelihood` state what the object holds in each of these cases.
- Plsa.Corpus.Fit: on a failed run it does not state the tables. They hold whatever the failing step left there, as `ExpectationStep` and `MaximizationStep` state.
