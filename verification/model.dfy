/**
 The MarkovModel object: counts updated in place by `Train`, a normalised view and
 prior computed lazily by `CheckIfTrained`, and the readers `LogLikelihood`,
 `GenerateLetter` and `Simulate`. The logarithm and the random draws are parameters.
 */
module Model {
  import opened Chain
  import opened Normalize
  import opened Scoring
  import opened Sampling

  /** The failures of the model: the two ValueErrors and the TypeError of simulate. */
  datatype Error =
    | Untrained        // check_if_trained on a model with no counts
    | NoProbabilities  // min() over the probabilities of an empty table
    | NoLetterDrawn    // generate_letter fell through and returned None

  datatype Result<T> = Ok(value: T) | Err(error: Error)

  datatype Outcome = Done | Failed(error: Error)

  /** The prior of a model that has not been normalised yet. */
  const DefaultPrior: real := 0.001

  /**
   What holds of a model's fields between calls. The counts are well formed and the
   alphabet lists, once each, exactly the letters recorded as next letters. A model
   with no counts has no normalised view, and a model with no normalised view has the
   default prior. A normalised view is the normalisation of `snapshot`, the counts at
   the last normalisation, with the prior computed from it; counts only grow, so every
   letter of the snapshot is still recorded.
   */
  ghost predicate ModelInvariant(order: nat, chain: Counts, normed: Normed, prior: real,
                                 alphabet: seq<char>, snapshot: Counts)
  {
    && WellFormed(chain, order)
    && NoDup(alphabet)
    && (forall c :: c in alphabet <==> Occurs(chain, c))
    && (chain == map[] ==> normed == map[])
    && (normed == map[] ==> prior == DefaultPrior)
    && (normed != map[] ==>
          && WellFormed(snapshot, order)
          && snapshot != map[]
          && normed == NormalizeTransitionMatrix(snapshot)
          && RowsNonEmpty(normed)
          && prior == PriorOf(normed)
          && forall c :: Occurs(snapshot, c) ==> Occurs(chain, c))
  }

  /** A fresh model satisfies the invariant. */
  lemma FreshModel(order: nat)
    ensures ModelInvariant(order, map[], map[], DefaultPrior, [], map[])
  {
  }

  /** Training keeps the invariant and leaves the normalised view and the prior as they were. */
  lemma TrainKeepsInvariant(order: nat, chain: Counts, normed: Normed, prior: real, alphabet: seq<char>,
                            snapshot: Counts, s: string, count: int)
    requires ModelInvariant(order, chain, normed, prior, alphabet, snapshot) && count > 0
    ensures ModelInvariant(order, Trained(chain, s, order, count), normed, prior,
                           ExtendAlphabet(alphabet, s, order), snapshot)
  {
    var n := Positions(s, order);
    var chain' := Trained(chain, s, order, count);
    var alphabet' := ExtendAlphabet(alphabet, s, order);
    TrainedWellFormed(chain, s, order, count);
    ExtendAlphabetGrows(alphabet, s, order);
    TrainPrefixKeys(chain, s, order, count, n);
    forall d ensures d in alphabet' <==> Occurs(chain', d) {
      TrainPrefixOccurs(chain, s, order, count, n, d);
    }
    forall d | Occurs(chain, d) ensures Occurs(chain', d) {
      TrainPrefixOccurs(chain, s, order, count, n, d);
    }
  }

  /**
   Normalising a model with counts replaces its view by the normalisation of the current
   counts, its prior by the prior of that view and its alphabet by the sorted alphabet,
   and keeps the invariant.
   */
  lemma NormalizeKeepsInvariant(order: nat, chain: Counts, normed: Normed, prior: real, alphabet: seq<char>,
                                snapshot: Counts)
    requires ModelInvariant(order, chain, normed, prior, alphabet, snapshot) && chain != map[]
    ensures NormalizeTransitionMatrix(chain) != map[] && RowsNonEmpty(NormalizeTransitionMatrix(chain))
    ensures ModelInvariant(order, chain, NormalizeTransitionMatrix(chain), PriorOf(NormalizeTransitionMatrix(chain)),
                           SortChars(alphabet), chain)
  {
    PriorBounds(chain, order);
    SortedSameLetters(alphabet);
    SortCharsSpec(alphabet);
  }

  /** A model without counts has no normalised view and the default prior, and sorting its alphabet keeps the invariant. */
  lemma NoCountsNoView(order: nat, normed: Normed, prior: real, alphabet: seq<char>, snapshot: Counts)
    requires ModelInvariant(order, map[], normed, prior, alphabet, snapshot)
    ensures normed == map[] && prior == DefaultPrior
    ensures ModelInvariant(order, map[], map[], prior, SortChars(alphabet), snapshot)
  {
    SortedSameLetters(alphabet);
    SortCharsSpec(alphabet);
  }

  /** sorted() keeps the letters of the alphabet. */
  lemma SortedSameLetters(alphabet: seq<char>)
    ensures forall c :: c in SortChars(alphabet) <==> c in alphabet
  {
    var sorted := SortChars(alphabet);
    SortCharsSpec(alphabet);
    forall c ensures c in sorted <==> c in alphabet {
      assert c in sorted <==> c in multiset(sorted);
      assert c in alphabet <==> c in multiset(alphabet);
    }
  }

  /**
   What a normalised model offers its readers: every row is a distribution over next
   letters of a context of `order` letters, every stored probability is at least 100
   times the prior, every letter of the view is in the alphabet, and so the alphabet
   is not empty.
   */
  lemma NormalizedModel(order: nat, chain: Counts, normed: Normed, prior: real, alphabet: seq<char>,
                        snapshot: Counts)
    requires ModelInvariant(order, chain, normed, prior, alphabet, snapshot) && normed != map[]
    ensures NormalizedView(normed, prior)
    ensures forall ctx :: ctx in normed ==> |ctx| == order && IsDistribution(normed[ctx])
    ensures forall ctx, c :: ctx in normed && c in Letters(normed[ctx]) ==> c in alphabet
    ensures alphabet != []
  {
    NormalizedTableIsView(snapshot, order);
    NormalizedRowsAreDistributions(snapshot, order);
    forall ctx, c | ctx in normed && c in Letters(normed[ctx]) ensures c in alphabet {
      assert Occurs(snapshot, c);
    }
    var ctx :| ctx in normed;
    assert Letters(normed[ctx])[0] in alphabet;
  }

  /** The view of a table with non-empty rows of positive totals has the same contexts and non-empty rows. */
  lemma ViewShape(m: Counts)
    requires forall ctx :: ctx in m ==> m[ctx] != [] && RowTotal(m[ctx]) > 0
    ensures NormalizeTransitionMatrix(m) == map[] <==> m == map[]
    ensures RowsNonEmpty(NormalizeTransitionMatrix(m))
  {
    var normed := NormalizeTransitionMatrix(m);
    assert normed.Keys == m.Keys;
    forall ctx | ctx in normed ensures normed[ctx] != [] {
      assert |normed[ctx]| == |m[ctx]|;
    }
  }

  /** min() over every probability of a non-empty table with non-empty rows, context by context. */
  method MinProbability(normed: Normed) returns (m: real)
    requires normed != map[] && RowsNonEmpty(normed)
    ensures IsMinEntry(normed, m)
    ensures m == MinProb(normed)
  {
    var todo := normed.Keys;
    var found := false;
    m := 0.0;
    while todo != {}
      invariant todo <= normed.Keys
      invariant found <==> todo != normed.Keys
      invariant found ==>
        exists ctx, i :: ctx in normed && ctx !in todo && 0 <= i < |normed[ctx]| && normed[ctx][i].1 == m
      invariant found ==>
        forall ctx, i :: ctx in normed && ctx !in todo && 0 <= i < |normed[ctx]| ==> m <= normed[ctx][i].1
      decreases todo
    {
      var ctx :| ctx in todo;
      var here := RowMin(normed[ctx]);
      if !found || here < m {
        m := here;
      }
      found := true;
      todo := todo - {ctx};
    }
    MinEntryUnique(normed, m);
  }

  class MarkovModel {
    const order: nat
    var markovChain: Counts
    var normedChain: Normed
    var prior: real
    var alphabet: seq<char>
    /** The counts `normedChain` was computed from at the last normalisation. */
    ghost var snapshot: Counts

    ghost predicate Valid()
      reads this
    {
      ModelInvariant(order, markovChain, normedChain, prior, alphabet, snapshot)
    }

    /** A fresh model: no counts, no normalised view, prior 0.001, empty alphabet. */
    constructor(order: nat)
      ensures this.order == order
      ensures markovChain == map[] && normedChain == map[] && alphabet == []
      ensures prior == DefaultPrior
      ensures Valid()
    {
      this.order := order;
      markovChain := map[];
      normedChain := map[];
      prior := DefaultPrior;
      alphabet := [];
      snapshot := map[];
    }

    /**
     Adds `count` to the weight of every (context, next letter) window of `trainingData`
     and appends each new next letter to the alphabet. The normalised view and the prior
     are left as they were, even when they are now out of date.
     */
    method Train(trainingData: string, count: int)
      requires Valid() && count > 0
      modifies this
      ensures Valid()
      ensures markovChain == Trained(old(markovChain), trainingData, order, count)
      ensures alphabet == ExtendAlphabet(old(alphabet), trainingData, order)
      ensures normedChain == old(normedChain) && prior == old(prior) && snapshot == old(snapshot)
    {
      TrainKeepsInvariant(order, markovChain, normedChain, prior, alphabet, snapshot, trainingData, count);
      RecordWindows(trainingData, count);
    }

    /** The loop of `Train`: window by window, the count table and the alphabet are updated in place. */
    method RecordWindows(trainingData: string, count: int)
      modifies this
      ensures markovChain == Trained(old(markovChain), trainingData, order, count)
      ensures alphabet == ExtendAlphabet(old(alphabet), trainingData, order)
      ensures normedChain == old(normedChain) && prior == old(prior) && snapshot == old(snapshot)
    {
      var i := 0;
      while i < Positions(trainingData, order)
        invariant i <= Positions(trainingData, order)
        invariant markovChain == TrainPrefix(old(markovChain), trainingData, order, count, i)
        invariant alphabet == AlphabetPrefix(old(alphabet), trainingData, order, i)
        invariant normedChain == old(normedChain) && prior == old(prior) && snapshot == old(snapshot)
      {
        var currentNgram := trainingData[i..i + order];
        var nextLetter := trainingData[i + order];
        markovChain := markovChain[currentNgram := AddWeight(RowOf(markovChain, currentNgram), nextLetter, count)];
        if nextLetter !in alphabet {
          alphabet := alphabet + [nextLetter];
        }
        i := i + 1;
      }
    }

    /**
     Replaces the view by the normalisation of the current counts, sorts the alphabet and
     sets the prior to 0.01 times the smallest probability. With no counts there is no
     probability to take the minimum of: the view and the alphabet are still replaced
     (both come out empty) and the call fails.
     */
    method NormalizeModelAndComputePrior() returns (outcome: Outcome)
      requires Valid()
      modifies this
      ensures Valid()
      ensures markovChain == old(markovChain)
      ensures normedChain == NormalizeTransitionMatrix(markovChain)
      ensures alphabet == SortChars(old(alphabet))
      ensures outcome.Failed? <==> markovChain == map[]
      ensures outcome.Failed? ==> outcome.error == NoProbabilities && prior == old(prior)
      ensures outcome.Done? ==> RowsNonEmpty(normedChain) && prior == PriorOf(normedChain)
    {
      if markovChain == map[] {
        NoCountsNoView(order, normedChain, prior, alphabet, snapshot);
      } else {
        NormalizeKeepsInvariant(order, markovChain, normedChain, prior, alphabet, snapshot);
      }
      outcome := ComputeView();
    }

    /** The steps of `NormalizeModelAndComputePrior` on a table of well-formed counts. */
    method ComputeView() returns (outcome: Outcome)
      requires forall ctx :: ctx in markovChain ==> markovChain[ctx] != [] && RowTotal(markovChain[ctx]) > 0
      modifies this
      ensures markovChain == old(markovChain)
      ensures normedChain == NormalizeTransitionMatrix(markovChain)
      ensures alphabet == SortChars(old(alphabet))
      ensures outcome.Failed? <==> markovChain == map[]
      ensures outcome.Failed? ==> outcome.error == NoProbabilities && prior == old(prior) && snapshot == old(snapshot)
      ensures outcome.Done? ==> RowsNonEmpty(normedChain) && prior == PriorOf(normedChain) && snapshot == markovChain
    {
      var normed := NormalizeTransitionMatrix(markovChain);
      var sorted := SortChars(alphabet);
      ViewShape(markovChain);
      if normed == map[] {
        normedChain, alphabet := normed, sorted;
        return Failed(NoProbabilities);
      }
      var low := MinProbability(normed);
      normedChain, alphabet, prior, snapshot := normed, sorted, 0.01 * low, markovChain;
      return Done;
    }

    /**
     The lazy normalisation. A model with a normalised view is left untouched, even when it
     was trained again since: Ok(true). A model with counts but no view is normalised:
     Ok(false). A model with neither fails with Untrained and is left untouched.
     */
    method CheckIfTrained() returns (r: Result<bool>)
      requires Valid()
      modifies this
      ensures Valid()
      ensures markovChain == old(markovChain)
      ensures old(normedChain) != map[] ==> r == Ok(true) && unchanged(this)
      ensures old(normedChain) == map[] && old(markovChain) == map[] ==> r == Err(Untrained) && unchanged(this)
      ensures old(normedChain) == map[] && old(markovChain) != map[] ==>
        && r == Ok(false)
        && normedChain == NormalizeTransitionMatrix(markovChain)
        && alphabet == SortChars(old(alphabet))
        && RowsNonEmpty(normedChain) && prior == PriorOf(normedChain)
      ensures r.Ok? <==> normedChain != map[]
    {
      if normedChain == map[] {
        if markovChain == map[] {
          return Err(Untrained);
        }
        var outcome := NormalizeModelAndComputePrior();
        return Ok(false);
      }
      return Ok(true);
    }

    /**
     The mean of the logs of the probabilities of the max(0, |sequence| - order) transitions
     of `sequence`, each taken from the view or, when unseen, equal to the prior; log(prior)
     when there is no transition. For a monotone log the score lies in [log(prior), log(1)].
     */
    method LogLikelihood(sequence: string, log: real -> real) returns (r: Result<real>)
      requires Valid()
      modifies this
      ensures Valid()
      ensures markovChain == old(markovChain)
      ensures old(normedChain) != map[] ==> unchanged(this)
      ensures old(normedChain) == map[] && old(markovChain) != map[] ==>
        && normedChain == NormalizeTransitionMatrix(markovChain) && alphabet == SortChars(old(alphabet))
        && prior == PriorOf(normedChain)
      ensures r.Err? <==> old(normedChain) == map[] && old(markovChain) == map[]
      ensures r.Err? ==> r.error == Untrained && unchanged(this)
      ensures r.Ok? ==> r.value == LogLikelihoodOf(normedChain, prior, order, sequence, log)
      ensures r.Ok? && Monotone(log) ==> log(prior) <= r.value <= log(1.0)
    {
      var trained := CheckIfTrained();
      if trained.Err? {
        return Err(Untrained);
      }
      NormalizedModel(order, markovChain, normedChain, prior, alphabet, snapshot);
      if Monotone(log) {
        LogLikelihoodBounds(normedChain, prior, order, sequence, log);
      }
      var score := AverageLogLikelihood(normedChain, prior, order, sequence, log);
      return Ok(score);
    }

    /**
     The letter drawn after `ngram` with the uniform draw `u` and the index draw `pick`: for a
     known context, cumulative subtraction over its row (None when it never reaches 0); for an
     unknown one, the pick-th letter of the alphabet. With u <= 1 a letter of the alphabet is
     always drawn.
     */
    method GenerateLetter(ngram: string, u: real, pick: nat) returns (r: Result<Option<char>>)
      requires Valid()
      modifies this
      ensures Valid()
      ensures markovChain == old(markovChain)
      ensures old(normedChain) != map[] ==> unchanged(this)
      ensures old(normedChain) == map[] && old(markovChain) != map[] ==>
        && normedChain == NormalizeTransitionMatrix(markovChain) && alphabet == SortChars(old(alphabet))
        && prior == PriorOf(normedChain)
      ensures r.Err? <==> old(normedChain) == map[] && old(markovChain) == map[]
      ensures r.Err? ==> r.error == Untrained && unchanged(this)
      ensures r.Ok? ==> r.value == NextLetter(normedChain, alphabet, ngram, u, pick)
      ensures r.Ok? && u <= 1.0 ==> r.value.Some? && r.value.value in alphabet
    {
      var trained := CheckIfTrained();
      if trained.Err? {
        return Err(Untrained);
      }
      NormalizedModel(order, markovChain, normedChain, prior, alphabet, snapshot);
      if u <= 1.0 {
        NextLetterDefined(normedChain, alphabet, ngram, u, pick);
      }
      var letter := DrawLetter(normedChain, alphabet, ngram, u, pick);
      return Ok(letter);
    }

    /**
     Generates a string from `start`, or from a context of the view when no start is given:
     max(0, length - |seed|) letters are appended, the i-th drawn after the last `order`
     letters with the draws uniform(i) and picks(i). The result is the walk of the model
     from the seed; it fails when the model is untrained or a draw finds no letter, which
     cannot happen on a trained model when every draw is at most 1.
     */
    method Simulate(length: int, start: Option<string>, uniform: nat -> real, picks: nat -> nat)
      returns (r: Result<string>)
      requires Valid()
      modifies this
      ensures Valid()
      ensures markovChain == old(markovChain)
      ensures old(normedChain) != map[] ==> unchanged(this)
      ensures old(normedChain) == map[] && old(markovChain) != map[] ==>
        && normedChain == NormalizeTransitionMatrix(markovChain) && alphabet == SortChars(old(alphabet))
        && prior == PriorOf(normedChain)
      ensures old(normedChain) == map[] && old(markovChain) == map[] ==> r == Err(Untrained) && unchanged(this)
      ensures r.Err? ==> r.error == Untrained || r.error == NoLetterDrawn
      ensures r.Ok? && start.Some? ==>
        && |r.value| == (if length > |start.value| then length else |start.value|)
        && IsWalk(normedChain, alphabet, order, start.value, r.value, uniform, picks)
      ensures r.Ok? && start.None? ==>
        && |r.value| == (if length > order then length else order)
        && r.value[..order] in normedChain
        && IsWalk(normedChain, alphabet, order, r.value[..order], r.value, uniform, picks)
      ensures (old(normedChain) != map[] || old(markovChain) != map[])
              && (forall j :: 0 <= j < length ==> uniform(j) <= 1.0)
              ==> r.Ok?
    {
      var trained := CheckIfTrained();
      if trained.Err? {
        return Err(Untrained);
      }
      NormalizedModel(order, markovChain, normedChain, prior, alphabet, snapshot);
      var simulation: string;
      if start.None? {
        simulation :| simulation in normedChain;
      } else {
        simulation := start.value;
      }
      var steps := if length - |simulation| > 0 then length - |simulation| else 0;
      var walk := RandomWalk(normedChain, alphabet, order, simulation, steps, uniform, picks);
      if walk.None? {
        return Err(NoLetterDrawn);
      }
      assert walk.value[..|simulation|] == simulation;
      return Ok(walk.value);
    }
  }

  /** The loop of log_likelihood: the log-probability of each transition, then their mean. */
  method AverageLogLikelihood(normed: Normed, prior: real, order: nat, sequence: string, log: real -> real)
    returns (score: real)
    ensures score == LogLikelihoodOf(normed, prior, order, sequence, log)
  {
    ghost var terms := LogTerms(normed, prior, order, sequence, log);
    var logLikelihoods: seq<real> := [];
    var i := 0;
    while i < Positions(sequence, order)
      invariant i <= Positions(sequence, order) == |terms|
      invariant logLikelihoods == terms[..i]
    {
      var ngram, nextLetter := sequence[i..i + order], sequence[i + order];
      var distribution := RowOf(normed, ngram);
      var probability := Lookup(distribution, nextLetter, prior);
      assert probability == ProbOf(normed, prior, WindowAt(sequence, order, i), NextAt(sequence, order, i));
      assert terms[i] == log(probability);
      assert terms[..i + 1] == terms[..i] + [terms[i]];
      logLikelihoods := logLikelihoods + [log(probability)];
      i := i + 1;
    }
    assert logLikelihoods == terms;
    if logLikelihoods == [] {
      return log(prior);
    }
    return 1.0 / (|logLikelihoods| as real) * SumReals(logLikelihoods);
  }

  /**
   The draw of generate_letter: cumulative subtraction of the row of a known context from
   `u`, the first letter where the remainder reaches 0 (None when none does); for an
   unknown context, the pick-th letter of the alphabet, which must then be non-empty.
   */
  method DrawLetter(normed: Normed, alphabet: seq<char>, ngram: string, u: real, pick: nat)
    returns (letter: Option<char>)
    requires ngram in normed || alphabet != []
    ensures letter == NextLetter(normed, alphabet, ngram, u, pick)
  {
    if ngram in normed {
      var distribution := normed[ngram];
      var rest := u;
      var j := 0;
      while j < |distribution|
        invariant j <= |distribution|
        invariant Sample(distribution[j..], rest) == Sample(distribution, u)
      {
        assert distribution[j..][1..] == distribution[j + 1..];
        rest := rest - distribution[j].1;
        if rest <= 0.0 {
          return Some(distribution[j].0);
        }
        j := j + 1;
      }
      return None;
    }
    return Some(alphabet[pick % |alphabet|]);
  }

  /**
   The loop of simulate: `steps` letters appended to `seed`, the j-th drawn after the last
   `order` letters with uniform(j) and picks(j). The result is the walk of that length, or
   None exactly when some shorter walk reaches a draw that yields no letter, which a table
   of distributions with every draw at most 1 never does.
   */
  method RandomWalk(normed: Normed, alphabet: seq<char>, order: nat, seed: string, steps: nat,
                    uniform: nat -> real, picks: nat -> nat)
    returns (w: Option<string>)
    requires alphabet != []
    ensures w.Some? ==> |w.value| == |seed| + steps && IsWalk(normed, alphabet, order, seed, w.value, uniform, picks)
    ensures w.None? ==>
      exists v :: && IsWalk(normed, alphabet, order, seed, v, uniform, picks)
                  && |v| < |seed| + steps
                  && NextLetter(normed, alphabet, Suffix(v, order), uniform(|v| - |seed|), picks(|v| - |seed|)) == None
    ensures (forall ctx :: ctx in normed ==> IsDistribution(normed[ctx]))
            && (forall j :: 0 <= j < steps ==> uniform(j) <= 1.0)
            ==> w.Some?
  {
    var simulation := seed;
    WalkStart(normed, alphabet, order, seed, uniform, picks);
    var i := 0;
    while i < steps
      invariant i <= steps
      invariant |simulation| == |seed| + i
      invariant IsWalk(normed, alphabet, order, seed, simulation, uniform, picks)
    {
      var ngram := Suffix(simulation, order);
      var letter := DrawLetter(normed, alphabet, ngram, uniform(i), picks(i));
      if letter.None? {
        if uniform(i) <= 1.0 && forall ctx :: ctx in normed ==> IsDistribution(normed[ctx]) {
          NextLetterDefined(normed, alphabet, ngram, uniform(i), picks(i));
        }
        return None;
      }
      WalkExtend(normed, alphabet, order, seed, simulation, letter.value, uniform, picks);
      simulation := simulation + [letter.value];
      i := i + 1;
    }
    return Some(simulation);
  }
}
