/**
 Reading the normalised model: the probability of each transition of a string
 and the length-averaged log-likelihood. The natural logarithm is a parameter `log`.
 */
module Scoring {
  import opened Chain
  import opened Normalize

  /** A normalised table whose rows are distributions, with a positive prior at most 1/100 of every entry. */
  ghost predicate NormalizedView(normed: Normed, prior: real)
  {
    && 0.0 < prior <= 0.01
    && (forall ctx :: ctx in normed ==> IsDistribution(normed[ctx]))
    && forall ctx, i :: ctx in normed && 0 <= i < |normed[ctx]| ==> normed[ctx][i].1 >= 100.0 * prior
  }

  /** The stored probability of `c` after `ctx`, or the prior when the context or the pair is unseen. */
  function ProbOf(normed: Normed, prior: real, ctx: string, c: char): real
  {
    Lookup(RowOf(normed, ctx), c, prior)
  }

  /** The probability used for each of the max(0, |s| - order) transitions of `s`. */
  function TransitionProbs(normed: Normed, prior: real, order: nat, s: string): seq<real>
  {
    seq(Positions(s, order), i requires 0 <= i < Positions(s, order) =>
      ProbOf(normed, prior, WindowAt(s, order, i), NextAt(s, order, i)))
  }

  function LogTerms(normed: Normed, prior: real, order: nat, s: string, log: real -> real): seq<real>
  {
    var ps := TransitionProbs(normed, prior, order, s);
    seq(|ps|, i requires 0 <= i < |ps| => log(ps[i]))
  }

  function SumReals(xs: seq<real>): real
  {
    if xs == [] then 0.0 else SumReals(xs[..|xs| - 1]) + xs[|xs| - 1]
  }

  /** The mean of the log-probabilities of the transitions of `s`, or log(prior) when there are none. */
  function LogLikelihoodOf(normed: Normed, prior: real, order: nat, s: string, log: real -> real): real
  {
    Mean(LogTerms(normed, prior, order, s, log), log(prior))
  }

  /** The arithmetic mean of `xs`, or `empty` when there is nothing to average. */
  function Mean(xs: seq<real>, empty: real): real
  {
    if |xs| == 0 then empty else SumReals(xs) / (|xs| as real)
  }

  ghost predicate Monotone(log: real -> real)
  {
    forall x, y :: 0.0 < x <= y ==> log(x) <= log(y)
  }

  ghost predicate StrictlyIncreasing(log: real -> real)
  {
    forall x, y :: 0.0 < x < y ==> log(x) < log(y)
  }

  // ---------------------------------------------------------------------------
  // Scoring

  /** The normalised view of a non-empty well-formed table, with its prior, is a NormalizedView. */
  lemma NormalizedTableIsView(m: Counts, order: nat)
    requires WellFormed(m, order) && m != map[]
    ensures NormalizeTransitionMatrix(m) != map[] && RowsNonEmpty(NormalizeTransitionMatrix(m))
    ensures NormalizedView(NormalizeTransitionMatrix(m), PriorOf(NormalizeTransitionMatrix(m)))
  {
    NormalizedRowsAreDistributions(m, order);
    PriorBounds(m, order);
  }

  lemma {:induction false} LookupFindsEntry<V>(row: Row<V>, c: char, default: V)
    ensures c in Letters(row) ==>
      exists i :: 0 <= i < |row| && row[i].0 == c && row[i].1 == Lookup(row, c, default)
    ensures c !in Letters(row) ==> Lookup(row, c, default) == default
  {
    if row != [] {
      LookupFindsEntry(row[1..], c, default);
      assert Letters(row) == [row[0].0] + Letters(row[1..]);
      if row[0].0 != c && c in Letters(row[1..]) {
        var i :| 0 <= i < |row[1..]| && row[1..][i].0 == c && row[1..][i].1 == Lookup(row[1..], c, default);
        assert row[i + 1] == row[1..][i];
      }
    }
  }

  /**
   Each transition uses the stored probability when the context and the pair were seen,
   and the prior otherwise; under a normalised view it lies in [prior, 1].
   */
  lemma ProbOfMeaning(normed: Normed, prior: real, ctx: string, c: char)
    ensures ctx in normed && c in Letters(normed[ctx]) ==>
      exists i :: 0 <= i < |normed[ctx]| && normed[ctx][i] == (c, ProbOf(normed, prior, ctx, c))
    ensures !(ctx in normed && c in Letters(normed[ctx])) ==> ProbOf(normed, prior, ctx, c) == prior
    ensures NormalizedView(normed, prior) ==> 0.0 < prior <= ProbOf(normed, prior, ctx, c) <= 1.0
  {
    LookupFindsEntry(RowOf(normed, ctx), c, prior);
    if ctx in normed && c in Letters(normed[ctx]) {
      var i :| 0 <= i < |normed[ctx]| && normed[ctx][i].0 == c && normed[ctx][i].1 == ProbOf(normed, prior, ctx, c);
      assert normed[ctx][i] == (c, ProbOf(normed, prior, ctx, c));
    }
  }

  lemma {:induction false} SumBounds(xs: seq<real>, lo: real, hi: real)
    requires forall i :: 0 <= i < |xs| ==> lo <= xs[i] <= hi
    ensures |xs| as real * lo <= SumReals(xs) <= |xs| as real * hi
  {
    if xs != [] {
      SumBounds(xs[..|xs| - 1], lo, hi);
    }
  }

  /** There are max(0, |s| - order) transitions, each with a probability in [prior, 1]. */
  lemma TransitionProbsBounds(normed: Normed, prior: real, order: nat, s: string)
    requires NormalizedView(normed, prior)
    ensures var ps := TransitionProbs(normed, prior, order, s);
      |ps| == Positions(s, order) && forall i :: 0 <= i < |ps| ==> 0.0 < prior <= ps[i] <= 1.0
  {
    var ps := TransitionProbs(normed, prior, order, s);
    forall i | 0 <= i < |ps| ensures 0.0 < prior <= ps[i] <= 1.0 {
      ProbOfMeaning(normed, prior, WindowAt(s, order, i), NextAt(s, order, i));
    }
  }

  lemma LogTermsBounds(normed: Normed, prior: real, order: nat, s: string, log: real -> real)
    requires NormalizedView(normed, prior) && Monotone(log)
    ensures var terms := LogTerms(normed, prior, order, s, log);
      forall i :: 0 <= i < |terms| ==> log(prior) <= terms[i] <= log(1.0)
  {
    var ps := TransitionProbs(normed, prior, order, s);
    var terms := LogTerms(normed, prior, order, s, log);
    TransitionProbsBounds(normed, prior, order, s);
    forall i | 0 <= i < |terms| ensures log(prior) <= terms[i] <= log(1.0) {
      assert terms[i] == log(ps[i]);
      assert log(prior) <= log(ps[i]);
      assert log(ps[i]) <= log(1.0);
    }
  }

  /** For a monotone log, the score of any string lies between log(prior) and log(1). */
  lemma LogLikelihoodBounds(normed: Normed, prior: real, order: nat, s: string, log: real -> real)
    requires NormalizedView(normed, prior) && Monotone(log)
    ensures log(prior) <= LogLikelihoodOf(normed, prior, order, s, log) <= log(1.0)
  {
    LogTermsBounds(normed, prior, order, s, log);
    assert log(prior) <= log(1.0);
    MeanWithin(LogTerms(normed, prior, order, s, log), log(prior), log(prior), log(1.0));
  }

  /** The mean of values within [lo, hi] is within [lo, hi]. */
  lemma MeanWithin(xs: seq<real>, empty: real, lo: real, hi: real)
    requires lo <= hi && forall i :: 0 <= i < |xs| ==> lo <= xs[i] <= hi
    requires |xs| == 0 ==> lo <= empty <= hi
    ensures lo <= Mean(xs, empty) <= hi
  {
    if |xs| > 0 {
      SumBounds(xs, lo, hi);
      var n := |xs| as real;
      assert 1.0 / n * (n * lo) == lo;
      assert 1.0 / n * (n * hi) == hi;
      assert 1.0 / n > 0.0;
    }
  }

  /** A window of exactly order + 1 letters is scored by the log of its single transition. */
  lemma WindowScore(normed: Normed, prior: real, order: nat, s: string, log: real -> real)
    requires |s| == order + 1
    ensures LogLikelihoodOf(normed, prior, order, s, log)
         == log(ProbOf(normed, prior, s[..order], s[order]))
  {
    var terms := LogTerms(normed, prior, order, s, log);
    assert |terms| == 1;
    assert SumReals(terms) == terms[0];
  }

  /** One pass over "aaaa" with order 1 records three 'a' after "a". */
  lemma AaaaTable()
    ensures Trained(map[], "aaaa", 1, 1) == map["a" := [('a', 3)]]
  {
    assert WindowAt("aaaa", 1, 0) == "a" && NextAt("aaaa", 1, 0) == 'a';
    assert WindowAt("aaaa", 1, 1) == "a" && NextAt("aaaa", 1, 1) == 'a';
    assert WindowAt("aaaa", 1, 2) == "a" && NextAt("aaaa", 1, 2) == 'a';
    var m1 := TrainPrefix(map[], "aaaa", 1, 1, 1);
    assert m1 == map["a" := [('a', 1)]];
    assert RowOf(m1, "a") == [('a', 1)];
    assert AddWeight([('a', 1)], 'a', 1) == [('a', 2)];
    var m2 := TrainPrefix(map[], "aaaa", 1, 1, 2);
    assert m2 == Record(m1, "a", 'a', 1);
    assert m2 == map["a" := [('a', 2)]];
    assert RowOf(m2, "a") == [('a', 2)];
    assert AddWeight([('a', 2)], 'a', 1) == [('a', 3)];
    assert TrainPrefix(map[], "aaaa", 1, 1, 3) == Record(m2, "a", 'a', 1);
  }

  /** Normalising that table gives probability 1 to 'a' after "a", and the prior 0.01. */
  lemma AaaaNormed()
    ensures var n := NormalizeTransitionMatrix(map["a" := [('a', 3)]]);
      n == map["a" := [('a', 1.0)]] && "a" in n && RowsNonEmpty(n) && PriorOf(n) == 0.01
  {
    var n := NormalizeTransitionMatrix(map["a" := [('a', 3)]]);
    assert RowTotal([('a', 3)]) == 3;
    assert n["a"] == NormalizeRow([('a', 3)], 3.0);
    assert |n["a"]| == 1 && n["a"][0] == ('a', 1.0);
    assert n["a"] == [('a', 1.0)];
    assert n == map["a" := [('a', 1.0)]];
    assert "a" in n;
    assert IsMinEntry(n, 1.0) by {
      assert n["a"][0].1 == 1.0;
    }
    MinEntryUnique(n, 1.0);
  }

  /** Under that table every transition of "aaaa" has probability 1, so its score is log(1). */
  lemma AaaaScore(log: real -> real)
    ensures LogLikelihoodOf(map["a" := [('a', 1.0)]], 0.01, 1, "aaaa", log) == log(1.0)
  {
    var n := map["a" := [('a', 1.0)]];
    var good := LogTerms(n, 0.01, 1, "aaaa", log);
    assert WindowAt("aaaa", 1, 0) == "a" && NextAt("aaaa", 1, 0) == 'a';
    assert WindowAt("aaaa", 1, 1) == "a" && NextAt("aaaa", 1, 1) == 'a';
    assert WindowAt("aaaa", 1, 2) == "a" && NextAt("aaaa", 1, 2) == 'a';
    assert ProbOf(n, 0.01, "a", 'a') == 1.0;
    assert |good| == 3 && forall i :: 0 <= i < 3 ==> good[i] == log(1.0);
    MeanWithin(good, log(0.01), log(1.0), log(1.0));
  }

  /** Every transition of "baba" is unseen under that table, so its score is log(prior). */
  lemma BabaScore(log: real -> real)
    ensures LogLikelihoodOf(map["a" := [('a', 1.0)]], 0.01, 1, "baba", log) == log(0.01)
  {
    var n := map["a" := [('a', 1.0)]];
    var bad := LogTerms(n, 0.01, 1, "baba", log);
    assert WindowAt("baba", 1, 0) == "b" && NextAt("baba", 1, 0) == 'a';
    assert WindowAt("baba", 1, 1) == "a" && NextAt("baba", 1, 1) == 'b';
    assert WindowAt("baba", 1, 2) == "b" && NextAt("baba", 1, 2) == 'a';
    assert ProbOf(n, 0.01, "a", 'b') == 0.01;
    assert ProbOf(n, 0.01, "b", 'a') == 0.01;
    assert |bad| == 3 && forall i :: 0 <= i < 3 ==> bad[i] == log(0.01);
    MeanWithin(bad, log(0.01), log(0.01), log(0.01));
  }

  /**
   A model trained once on "aaaa" with order 1 scores "aaaa" above "baba" for any strictly
   increasing log: every transition of "aaaa" has probability 1, every one of "baba" the prior.
   */
  lemma AaaaScoresAboveBaba(log: real -> real)
    requires StrictlyIncreasing(log)
    ensures var n := NormalizeTransitionMatrix(Trained(map[], "aaaa", 1, 1));
      n != map[] && RowsNonEmpty(n) &&
      LogLikelihoodOf(n, PriorOf(n), 1, "aaaa", log) > LogLikelihoodOf(n, PriorOf(n), 1, "baba", log)
  {
    AaaaTable();
    AaaaNormed();
    AaaaScore(log);
    BabaScore(log);
    assert log(0.01) < log(1.0);
  }
}
