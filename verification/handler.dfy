/**
 The model handler's use of the Markov model: padding of training and scoring values,
 training from a table of rows or from one text, and the coloured rendering of a string
 that highlights the characters whose transition scores below a threshold.
 */
module Handler {
  import opened Chain
  import opened Normalize
  import opened Scoring
  import opened Model

  /** The padding character put around values before training and scoring. */
  const Tilde: char := '~'

  /** The escape character that starts both highlighting tokens. */
  const Esc: char := '\U{1b}'

  /** The pair of tokens put around a highlighted run: `on` before it, `off` after it. */
  datatype Tokens = Tokens(on: string, off: string)

  /** ANSI "bright red" to open a run, ANSI reset to close it. */
  const Red: Tokens := Tokens("\U{1b}[91m", "\U{1b}[0m")

  function Tildes(n: nat): string
  {
    seq(n, _ => Tilde)
  }

  /** A training value padded on both sides with `order` tildes. */
  function TrainPad(x: string, order: nat): string
  {
    Tildes(order) + x + Tildes(order)
  }

  /** A scored value padded on the left only with `order` tildes. */
  function ScorePad(x: string, order: nat): string
  {
    Tildes(order) + x
  }

  /**
   A value padded for training contributes |x| + order transitions: the first has the
   all-tilde context, the first |x| lead to the letters of x and the last `order` lead to '~'.
   */
  lemma TrainPadTransitions(x: string, order: nat)
    ensures Positions(TrainPad(x, order), order) == |x| + order
    ensures |x| + order > 0 ==> WindowAt(TrainPad(x, order), order, 0) == Tildes(order)
    ensures forall i :: 0 <= i < |x| ==> NextAt(TrainPad(x, order), order, i) == x[i]
    ensures forall i :: |x| <= i < |x| + order ==> NextAt(TrainPad(x, order), order, i) == Tilde
  {
    var p := TrainPad(x, order);
    assert |p| == |x| + 2 * order;
    assert p[..order] == Tildes(order);
  }

  /**
   A value padded for scoring has exactly |x| transitions; transition i leads to x[i] and
   is the same (context, letter) pair as transition i of the training padding.
   */
  lemma ScorePadTransitions(x: string, order: nat)
    ensures Positions(ScorePad(x, order), order) == |x|
    ensures |x| <= Positions(TrainPad(x, order), order)
    ensures forall i :: 0 <= i < |x| ==>
      && NextAt(ScorePad(x, order), order, i) == x[i]
      && NextAt(ScorePad(x, order), order, i) == NextAt(TrainPad(x, order), order, i)
      && WindowAt(ScorePad(x, order), order, i) == WindowAt(TrainPad(x, order), order, i)
  {
    var s, p := ScorePad(x, order), TrainPad(x, order);
    assert |p| == |x| + 2 * order;
    assert p == s + Tildes(order);
    forall i | 0 <= i < |x|
      ensures WindowAt(s, order, i) == WindowAt(p, order, i) && NextAt(s, order, i) == NextAt(p, order, i)
    {
      assert s[i..i + order] == p[i..i + order];
    }
  }

  // ---------------------------------------------------------------------------
  // Training

  /** The count of each row: the count column, or 1 for every row when there is none. */
  function RowCounts(counts: Option<seq<int>>, n: nat): (w: seq<int>)
    requires counts.Some? ==> |counts.value| == n
    ensures |w| == n
    ensures counts.None? ==> forall i :: 0 <= i < n ==> w[i] == 1
    ensures counts.Some? ==> w == counts.value
  {
    if counts.Some? then counts.value else seq(n, _ => 1)
  }

  /** The table after training on every padded row in order, row i with weight ws[i]. */
  function TrainRows(chain: Counts, xs: seq<string>, ws: seq<int>, order: nat, padOrder: nat): Counts
    requires |ws| == |xs|
  {
    if xs == [] then chain
    else
      var n := |xs| - 1;
      Trained(TrainRows(chain, xs[..n], ws[..n], order, padOrder), TrainPad(xs[n], padOrder), order, ws[n])
  }

  /** The alphabet after training on every padded row in order. */
  function AlphabetRows(alphabet: seq<char>, xs: seq<string>, order: nat, padOrder: nat): seq<char>
  {
    if xs == [] then alphabet
    else
      var n := |xs| - 1;
      ExtendAlphabet(AlphabetRows(alphabet, xs[..n], order, padOrder), TrainPad(xs[n], padOrder), order)
  }

  /**
   Two rows holding the same value, with counts a and b, leave the same table as one row
   with count a + b.
   */
  lemma RepeatedRowsAdd(chain: Counts, x: string, a: int, b: int, order: nat)
    ensures var two := TrainRows(chain, [x, x], [a, b], order, order);
      var one := TrainRows(chain, [x], [a + b], order, order);
      && two.Keys == one.Keys
      && forall ctx, c :: Count(two, ctx, c) == Count(one, ctx, c)
  {
    assert [x, x][..1] == [x] && [a, b][..1] == [a];
    assert [x][..0] == [] && [a][..0] == [] && [a + b][..0] == [];
    TrainTwiceAdds(chain, TrainPad(x, order), order, a, b);
  }

  /**
   Training on rows adds, per row, its count times the number of its padded transitions
   to the table's total weight.
   */
  lemma {:induction false} TrainRowsTotalWeight(chain: Counts, xs: seq<string>, ws: seq<int>, order: nat)
    requires |ws| == |xs|
    ensures TotalWeight(TrainRows(chain, xs, ws, order, order))
         == TotalWeight(chain) + RowsWeight(xs, ws, order)
  {
    if xs != [] {
      var n := |xs| - 1;
      TrainRowsTotalWeight(chain, xs[..n], ws[..n], order);
      TrainedTotalWeight(TrainRows(chain, xs[..n], ws[..n], order, order), TrainPad(xs[n], order), order, ws[n]);
      TrainPadTransitions(xs[n], order);
    }
  }

  /** Sum over the rows of count * (|value| + order). */
  function RowsWeight(xs: seq<string>, ws: seq<int>, order: nat): int
    requires |ws| == |xs|
  {
    if xs == [] then 0
    else
      var n := |xs| - 1;
      RowsWeight(xs[..n], ws[..n], order) + ws[n] * (|xs[n]| + order)
  }

  /**
   Trains on every row of a table (train_from_df): each value is padded with
   `modelOrder` tildes on both sides and trained with its row's count, or with 1 when
   there is no count column. A given model is trained further; otherwise a fresh one of
   order `modelOrder` is created.
   */
  method TrainFromDf(values: seq<string>, counts: Option<seq<int>>, modelOrder: nat, model: Option<MarkovModel>)
    returns (trained: MarkovModel)
    requires counts.Some? ==> |counts.value| == |values|
    requires counts.Some? ==> forall i :: 0 <= i < |values| ==> counts.value[i] > 0
    requires model.Some? ==> model.value.Valid()
    modifies if model.Some? then {model.value} else {}
    ensures trained.Valid()
    ensures model.Some? ==> trained == model.value
    ensures model.None? ==> fresh(trained) && trained.order == modelOrder
    ensures trained.markovChain
         == TrainRows(if model.Some? then old(model.value.markovChain) else map[],
                      values, RowCounts(counts, |values|), trained.order, modelOrder)
    ensures trained.alphabet
         == AlphabetRows(if model.Some? then old(model.value.alphabet) else [], values, trained.order, modelOrder)
    ensures trained.normedChain == (if model.Some? then old(model.value.normedChain) else map[])
    ensures trained.prior == (if model.Some? then old(model.value.prior) else DefaultPrior)
  {
    if model.Some? {
      trained := model.value;
    } else {
      trained := new MarkovModel(modelOrder);
    }
    TrainEach(trained, values, RowCounts(counts, |values|), modelOrder);
  }

  /** The loop of train_from_df: each value, padded with `padOrder` tildes, trained with its weight. */
  method TrainEach(trained: MarkovModel, values: seq<string>, weights: seq<int>, padOrder: nat)
    requires trained.Valid() && |weights| == |values|
    requires forall i :: 0 <= i < |weights| ==> weights[i] > 0
    modifies trained
    ensures trained.Valid()
    ensures trained.markovChain == TrainRows(old(trained.markovChain), values, weights, trained.order, padOrder)
    ensures trained.alphabet == AlphabetRows(old(trained.alphabet), values, trained.order, padOrder)
    ensures trained.normedChain == old(trained.normedChain) && trained.prior == old(trained.prior)
  {
    ghost var chain0, alphabet0 := trained.markovChain, trained.alphabet;
    var i := 0;
    while i < |values|
      invariant 0 <= i <= |values|
      invariant trained.Valid()
      invariant trained.markovChain == TrainRows(chain0, values[..i], weights[..i], trained.order, padOrder)
      invariant trained.alphabet == AlphabetRows(alphabet0, values[..i], trained.order, padOrder)
      invariant trained.normedChain == old(trained.normedChain) && trained.prior == old(trained.prior)
    {
      TrainRowsStep(chain0, alphabet0, values, weights, i, trained.order, padOrder);
      trained.Train(TrainPad(values[i], padOrder), weights[i]);
      i := i + 1;
    }
    TrainRowsAll(chain0, alphabet0, values, weights, trained.order, padOrder);
  }

  /** Training on the first i + 1 rows is training on the first i, then on row i. */
  lemma TrainRowsStep(chain: Counts, alphabet: seq<char>, xs: seq<string>, ws: seq<int>, i: nat, order: nat, padOrder: nat)
    requires |ws| == |xs| && i < |xs|
    ensures TrainRows(chain, xs[..i + 1], ws[..i + 1], order, padOrder)
         == Trained(TrainRows(chain, xs[..i], ws[..i], order, padOrder), TrainPad(xs[i], padOrder), order, ws[i])
    ensures AlphabetRows(alphabet, xs[..i + 1], order, padOrder)
         == ExtendAlphabet(AlphabetRows(alphabet, xs[..i], order, padOrder), TrainPad(xs[i], padOrder), order)
  {
    assert xs[..i + 1][..i] == xs[..i] && ws[..i + 1][..i] == ws[..i];
  }

  /** All the rows: the prefix of full length. */
  lemma TrainRowsAll(chain: Counts, alphabet: seq<char>, xs: seq<string>, ws: seq<int>, order: nat, padOrder: nat)
    requires |ws| == |xs|
    ensures TrainRows(chain, xs[..|xs|], ws[..|xs|], order, padOrder) == TrainRows(chain, xs, ws, order, padOrder)
    ensures AlphabetRows(alphabet, xs[..|xs|], order, padOrder) == AlphabetRows(alphabet, xs, order, padOrder)
  {
    assert xs[..|xs|] == xs && ws[..|xs|] == ws;
  }

  /**
   Trains on one text with count 1, without padding (train_from_txt). A given model is
   trained further; otherwise a fresh one of order `modelOrder` is created.
   */
  method TrainFromTxt(trainingData: string, modelOrder: nat, model: Option<MarkovModel>)
    returns (trained: MarkovModel)
    requires model.Some? ==> model.value.Valid()
    modifies if model.Some? then {model.value} else {}
    ensures trained.Valid()
    ensures model.Some? ==> trained == model.value
    ensures model.None? ==> fresh(trained) && trained.order == modelOrder
    ensures trained.markovChain
         == Trained(if model.Some? then old(model.value.markovChain) else map[], trainingData, trained.order, 1)
    ensures trained.alphabet
         == ExtendAlphabet(if model.Some? then old(model.value.alphabet) else [], trainingData, trained.order)
    ensures trained.normedChain == (if model.Some? then old(model.value.normedChain) else map[])
  {
    if model.Some? {
      trained := model.value;
    } else {
      trained := new MarkovModel(modelOrder);
    }
    trained.Train(trainingData, 1);
  }

  // ---------------------------------------------------------------------------
  // Scoring

  /**
   Scores one value (execute_on_df's apply_likelihood): the value padded on the left with
   the model's order in tildes, so that every one of its letters is scored.
   */
  method ApplyLikelihood(model: MarkovModel, value: string, log: real -> real) returns (r: Result<real>)
    requires model.Valid()
    modifies model
    ensures model.Valid()
    ensures model.markovChain == old(model.markovChain)
    ensures old(model.normedChain) != map[] ==> unchanged(model)
    ensures old(model.normedChain) == map[] && old(model.markovChain) != map[] ==>
      && model.normedChain == NormalizeTransitionMatrix(model.markovChain)
      && model.alphabet == SortChars(old(model.alphabet))
      && model.prior == PriorOf(model.normedChain)
    ensures r.Err? <==> old(model.normedChain) == map[] && old(model.markovChain) == map[]
    ensures r.Err? ==> r.error == Untrained && unchanged(model)
    ensures r.Ok? ==> r.value == LogLikelihoodOf(model.normedChain, model.prior, model.order,
                                                 ScorePad(value, model.order), log)
    ensures r.Ok? && Monotone(log) ==> log(model.prior) <= r.value <= log(1.0)
  {
    r := model.LogLikelihood(ScorePad(value, model.order), log);
  }

  /**
   The terms averaged when a left-padded value is scored: one per letter, the log of the
   letter's probability after the same context that training on the value recorded it under.
   */
  lemma ScorePadTerms(normed: Normed, prior: real, order: nat, x: string, log: real -> real)
    ensures |x| <= Positions(TrainPad(x, order), order)
    ensures |LogTerms(normed, prior, order, ScorePad(x, order), log)| == |x|
    ensures forall i :: 0 <= i < |x| ==>
      LogTerms(normed, prior, order, ScorePad(x, order), log)[i]
        == log(ProbOf(normed, prior, WindowAt(TrainPad(x, order), order, i), x[i]))
  {
    ScorePadTransitions(x, order);
  }

  // ---------------------------------------------------------------------------
  // Coloured results

  /**
   Tokens that cannot be confused with each other or with text free of `esc`: both start
   with `esc` and contain it nowhere else, `off` is not a prefix of `on`, and `on` is not a
   prefix of `off` + `on`.
   */
  ghost predicate Distinct(t: Tokens, esc: char)
  {
    && t.on != [] && t.off != []
    && t.on[0] == esc && t.off[0] == esc
    && esc !in t.on[1..] && esc !in t.off[1..]
    && |t.off| <= |t.on| && !(t.off <= t.on)
    && !(t.on <= t.off + t.on)
  }

  /** The ANSI tokens used for highlighting are distinct in that sense. */
  lemma RedDistinct()
    ensures Distinct(Red, Esc)
  {
    assert Red.off[2] != Red.on[2];
    assert (Red.off + Red.on)[2] != Red.on[2];
  }

  /**
   Whether each character of `st` is highlighted: the score of the window made of the
   character and the `order` characters before it (tildes before the start) is below
   `threshold`.
   */
  function Flags(normed: Normed, prior: real, order: nat, st: string, threshold: real, log: real -> real)
    : seq<bool>
  {
    var padded := ScorePad(st, order);
    seq(|st|, j requires 0 <= j < |st| =>
      LogLikelihoodOf(normed, prior, order, padded[j..j + order + 1], log) < threshold)
  }

  /** A character is highlighted iff the log of its transition probability is below the threshold. */
  lemma FlagMeaning(normed: Normed, prior: real, order: nat, st: string, threshold: real, log: real -> real, j: nat)
    requires j < |st|
    ensures |Flags(normed, prior, order, st, threshold, log)| == |st|
    ensures Flags(normed, prior, order, st, threshold, log)[j]
        <==> log(ProbOf(normed, prior, ScorePad(st, order)[j..j + order], st[j])) < threshold
  {
    var padded := ScorePad(st, order);
    var w := padded[j..j + order + 1];
    WindowScore(normed, prior, order, w, log);
    assert w[..order] == padded[j..j + order] && w[order] == st[j];
  }

  /** One character, wrapped in the tokens when highlighted. */
  function Piece(c: char, hot: bool, t: Tokens): string
  {
    if hot then t.on + [c] + t.off else [c]
  }

  /** The pieces of characters lo .. hi-1, as the loop appends them. */
  function Raw(st: string, flags: seq<bool>, lo: nat, hi: nat, t: Tokens): string
    requires |flags| == |st| && lo <= hi <= |st|
    decreases hi - lo
  {
    if lo == hi then [] else Raw(st, flags, lo, hi - 1, t) + Piece(st[hi - 1], flags[hi - 1], t)
  }

  /** str.replace(pat, ""): left to right, removes every non-overlapping occurrence of `pat`. */
  function RemoveAll(s: string, pat: string): string
    requires pat != []
    decreases |s|
  {
    if |s| < |pat| then s
    else if pat <= s then RemoveAll(s[|pat|..], pat)
    else [s[0]] + RemoveAll(s[1..], pat)
  }

  /**
   The expected rendering of characters i.. : an unhighlighted character as itself; a
   highlighted one preceded by the `on` token when it opens a run (`open` is false) and
   followed by the `off` token when the next character is not highlighted.
   */
  function Render(st: string, flags: seq<bool>, i: nat, open: bool, t: Tokens): string
    requires |flags| == |st| && i <= |st|
    decreases |st| - i
  {
    if i == |st| then []
    else if !flags[i] then [st[i]] + Render(st, flags, i + 1, false, t)
    else
      var more := Render(st, flags, i + 1, true, t);
      var body := if i + 1 < |st| && flags[i + 1] then [st[i]] + more else [st[i]] + (t.off + more);
      if open then body else t.on + body
  }

  /** Removes the tokens, keeping every other character. */
  function Strip(s: string, t: Tokens): string
    requires t.on != [] && t.off != []
    decreases |s|
  {
    if s == [] then []
    else if t.on <= s then Strip(s[|t.on|..], t)
    else if t.off <= s then Strip(s[|t.off|..], t)
    else [s[0]] + Strip(s[1..], t)
  }

  /**
   Renders `st` with its low-scoring characters highlighted (colored_results): each
   character's window of the left-padded string is scored, each character below the
   threshold is wrapped in tokens, and an off token directly followed by an on token is
   removed so that a run of highlighted characters carries one pair of tokens. The empty
   string is rendered as itself without consulting the model.
   */
  method ColoredResults(st: string, model: MarkovModel, threshold: real, log: real -> real)
    returns (r: Result<string>)
    requires model.Valid()
    modifies model
    ensures model.Valid()
    ensures model.markovChain == old(model.markovChain)
    ensures st == [] ==> r == Ok([]) && unchanged(model)
    ensures st != [] && old(model.normedChain) != map[] ==> unchanged(model)
    ensures st != [] && old(model.normedChain) == map[] && old(model.markovChain) != map[] ==>
      && model.normedChain == NormalizeTransitionMatrix(model.markovChain)
      && model.alphabet == SortChars(old(model.alphabet))
      && model.prior == PriorOf(model.normedChain)
    ensures r.Err? <==> st != [] && old(model.normedChain) == map[] && old(model.markovChain) == map[]
    ensures r.Err? ==> r.error == Untrained && unchanged(model)
    ensures r.Ok? ==>
      var flags := Flags(model.normedChain, model.prior, model.order, st, threshold, log);
      && r.value == RemoveAll(Raw(st, flags, 0, |st|, Red), Red.off + Red.on)
      && (Esc !in st ==> r.value == Render(st, flags, 0, false, Red) && Strip(r.value, Red) == st)
  {
    if st == [] {
      return Ok([]);
    }
    var trained := model.CheckIfTrained();
    if trained.Err? {
      return Err(Untrained);
    }
    var coloured := Colour(model.normedChain, model.prior, model.order, st, threshold, log);
    return Ok(coloured);
  }

  /** The loop of colored_results over a normalised table, followed by the merge of adjacent runs. */
  method Colour(normed: Normed, prior: real, order: nat, st: string, threshold: real, log: real -> real)
    returns (coloured: string)
    ensures var flags := Flags(normed, prior, order, st, threshold, log);
      && coloured == RemoveAll(Raw(st, flags, 0, |st|, Red), Red.off + Red.on)
      && (Esc !in st ==> coloured == Render(st, flags, 0, false, Red) && Strip(coloured, Red) == st)
  {
    var res := Highlight(normed, prior, order, st, threshold, log, Red);
    coloured := RemoveAll(res, Red.off + Red.on);
    if Esc !in st {
      ghost var flags := Flags(normed, prior, order, st, threshold, log);
      RedDistinct();
      MergeRuns(st, flags, 0, false, Red, Esc);
      RenderStrips(st, flags, 0, false, Red, Esc);
      assert st[0..] == st;
    }
  }

  /** The scoring loop of colored_results: each character's piece, highlighted when its window scores below the threshold. */
  method Highlight(normed: Normed, prior: real, order: nat, st: string, threshold: real, log: real -> real, t: Tokens)
    returns (res: string)
    ensures res == Raw(st, Flags(normed, prior, order, st, threshold, log), 0, |st|, t)
  {
    var padded := ScorePad(st, order);
    res := "";
    for k := order to |padded|
      invariant res == Raw(st, Flags(normed, prior, order, st, threshold, log), 0, k - order, t)
    {
      var low := ScoreBelow(normed, prior, order, st, threshold, log, padded, k);
      HighlightStep(normed, prior, order, st, threshold, log, padded, k, res, low, t);
      if low {
        res := res + (t.on + [padded[k]] + t.off);
      } else {
        res := res + [padded[k]];
      }
    }
  }

  /** Scores the window of the padded string ending at k and compares the score with the threshold. */
  method ScoreBelow(normed: Normed, prior: real, order: nat, st: string, threshold: real, log: real -> real,
                    padded: string, k: nat)
    returns (low: bool)
    requires padded == ScorePad(st, order) && order <= k < |padded|
    ensures low == Flags(normed, prior, order, st, threshold, log)[k - order]
  {
    var score := AverageLogLikelihood(normed, prior, order, padded[k - order..k + 1], log);
    low := score < threshold;
  }

  /** One more iteration of the scoring loop appends character k - order's piece, highlighted iff its flag is set. */
  lemma HighlightStep(normed: Normed, prior: real, order: nat, st: string, threshold: real, log: real -> real,
                      padded: string, k: nat, res: string, low: bool, t: Tokens)
    requires padded == ScorePad(st, order) && order <= k < |padded|
    requires res == Raw(st, Flags(normed, prior, order, st, threshold, log), 0, k - order, t)
    requires low == Flags(normed, prior, order, st, threshold, log)[k - order]
    ensures low ==>
      Raw(st, Flags(normed, prior, order, st, threshold, log), 0, k - order + 1, t) == res + (t.on + [padded[k]] + t.off)
    ensures !low ==>
      Raw(st, Flags(normed, prior, order, st, threshold, log), 0, k - order + 1, t) == res + [padded[k]]
  {
    var flags := Flags(normed, prior, order, st, threshold, log);
    assert padded[k] == st[k - order];
    assert Raw(st, flags, 0, k - order + 1, t) == res + Piece(st[k - order], flags[k - order], t);
  }

  // ---------------------------------------------------------------------------
  // Merging runs

  /** The pieces built back to front equal the first piece followed by the rest. */
  lemma {:induction false} RawFront(st: string, flags: seq<bool>, lo: nat, hi: nat, t: Tokens)
    requires |flags| == |st| && lo < hi <= |st|
    ensures Raw(st, flags, lo, hi, t) == Piece(st[lo], flags[lo], t) + Raw(st, flags, lo + 1, hi, t)
    decreases hi - lo
  {
    if lo + 1 < hi {
      RawFront(st, flags, lo, hi - 1, t);
    }
  }

  lemma PassChar(pat: string, c: char, x: string)
    requires pat != [] && c != pat[0]
    ensures RemoveAll([c] + x, pat) == [c] + RemoveAll(x, pat)
  {
    assert ([c] + x)[1..] == x;
  }

  lemma {:induction false} PassChars(pat: string, a: string, x: string)
    requires pat != [] && pat[0] !in a
    ensures RemoveAll(a + x, pat) == a + RemoveAll(x, pat)
    decreases |a|
  {
    if a == [] {
      assert a + x == x;
    } else {
      var rest := a[1..];
      assert a == [a[0]] + rest;
      calc {
        RemoveAll(a + x, pat);
        { assert a + x == [a[0]] + (rest + x); }
        RemoveAll([a[0]] + (rest + x), pat);
        { PassChar(pat, a[0], rest + x); }
        [a[0]] + RemoveAll(rest + x, pat);
        { PassChars(pat, rest, x); }
        [a[0]] + (rest + RemoveAll(x, pat));
        a + RemoveAll(x, pat);
      }
    }
  }

  lemma ShortNoMatch(pat: string, s: string)
    requires pat != [] && |s| < |pat|
    ensures RemoveAll(s, pat) == s
  {
  }

  lemma NoMatchStep(pat: string, s: string)
    requires pat != [] && |s| >= |pat| && !(pat <= s)
    ensures RemoveAll(s, pat) == [s[0]] + RemoveAll(s[1..], pat)
  {
  }

  /** A token followed by `x` survives the removal when the pattern does not start at its head. */
  lemma PassToken(pat: string, token: string, x: string)
    requires pat != [] && token != [] && pat[0] !in token[1..]
    requires !(pat <= token + x)
    ensures RemoveAll(token + x, pat) == token + RemoveAll(x, pat)
  {
    var s := token + x;
    if |s| < |pat| {
      ShortNoMatch(pat, s);
      ShortNoMatch(pat, x);
    } else {
      var rest := token[1..];
      NoMatchStep(pat, s);
      DropFirst(token, x);
      PassChars(pat, rest, x);
      ConsFirst(token, RemoveAll(x, pat));
    }
  }

  lemma DropFirst(a: string, b: string)
    requires a != []
    ensures (a + b)[0] == a[0] && (a + b)[1..] == a[1..] + b
  {
  }

  lemma ConsFirst(a: string, b: string)
    requires a != []
    ensures [a[0]] + (a[1..] + b) == a + b
  {
  }

  lemma DropPat(pat: string, x: string)
    requires pat != []
    ensures RemoveAll(pat + x, pat) == RemoveAll(x, pat)
  {
    assert (pat + x)[|pat|..] == x;
  }

  /** An on token survives the removal of pat = off + on. */
  lemma PassOn(pat: string, on: string, off: string, esc: char, x: string)
    requires pat == off + on && on != [] && off != [] && on[0] == esc && off[0] == esc && esc !in on[1..]
    requires !(on <= pat)
    ensures RemoveAll(on + x, pat) == on + RemoveAll(x, pat)
  {
    var k :| 0 <= k < |on| && on[k] != pat[k];
    assert (on + x)[k] != pat[k];
    PassToken(pat, on, x);
  }

  /** An off token not followed by the escape character survives the removal of pat = off + on. */
  lemma PassOff(pat: string, on: string, off: string, esc: char, x: string)
    requires pat == off + on && on != [] && off != [] && on[0] == esc && off[0] == esc && esc !in off[1..]
    requires x == [] || x[0] != esc
    ensures RemoveAll(off + x, pat) == off + RemoveAll(x, pat)
  {
    if x != [] {
      assert (off + x)[|off|] != pat[|off|];
    }
    PassToken(pat, off, x);
  }

  /** A highlighted character whose run continues: its off token and the next on token vanish. */
  lemma JoinStep(pat: string, on: string, off: string, c: char, tail: string, rendered: string)
    requires pat == off + on && off != [] && c != pat[0]
    requires on <= tail
    requires RemoveAll(tail[|on|..], pat) == rendered
    ensures RemoveAll([c] + (off + tail), pat) == [c] + rendered
  {
    var rest := tail[|on|..];
    assert tail == on + rest;
    assert off + tail == pat + rest;
    DropPat(pat, rest);
    PassChar(pat, c, off + tail);
  }

  /** A highlighted character ending its run: its off token stays. */
  lemma CloseStep(pat: string, on: string, off: string, esc: char, c: char, tail: string, rendered: string)
    requires pat == off + on && on != [] && off != [] && on[0] == esc && off[0] == esc && esc !in off[1..]
    requires c != esc && (tail == [] || tail[0] != esc)
    requires RemoveAll(tail, pat) == rendered
    ensures RemoveAll([c] + (off + tail), pat) == [c] + (off + rendered)
  {
    PassOff(pat, on, off, esc, tail);
    PassChar(pat, c, off + tail);
  }

  /** Outside a highlighted character, whether a run is open makes no difference. */
  lemma OpenIrrelevant(st: string, flags: seq<bool>, i: nat, t: Tokens)
    requires |flags| == |st| && i <= |st| && (i == |st| || !flags[i])
    ensures Render(st, flags, i, true, t) == Render(st, flags, i, false, t)
  {
  }

  /**
   The pieces of characters i.. reduce to their rendering once every off-on pair is
   removed; with `open`, the pieces start with the on token and the removal applies to what
   follows it (the on token has been consumed with the off token before it).
   */
  ghost predicate Merged(st: string, flags: seq<bool>, i: nat, open: bool, t: Tokens)
    requires |flags| == |st| && i <= |st| && t.off + t.on != []
  {
    var raw := Raw(st, flags, i, |st|, t);
    if open then
      t.on <= raw && RemoveAll(raw[|t.on|..], t.off + t.on) == Render(st, flags, i, true, t)
    else
      RemoveAll(raw, t.off + t.on) == Render(st, flags, i, false, t)
  }

  /** Removing every off-on pair from the pieces gives the rendering with one token pair per run. */
  lemma {:induction false} MergeRuns(st: string, flags: seq<bool>, i: nat, open: bool, t: Tokens, esc: char)
    requires |flags| == |st| && i <= |st| && esc !in st && Distinct(t, esc)
    requires open ==> i < |st| && flags[i]
    ensures Merged(st, flags, i, open, t)
    decreases |st| - i
  {
    if i < |st| {
      if !flags[i] {
        MergeRuns(st, flags, i + 1, false, t, esc);
        MergePlain(st, flags, i, t, esc);
      } else if i + 1 < |st| && flags[i + 1] {
        MergeRuns(st, flags, i + 1, true, t, esc);
        MergeJoin(st, flags, i, open, t, esc);
      } else {
        MergeRuns(st, flags, i + 1, false, t, esc);
        MergeClose(st, flags, i, open, t, esc);
      }
    }
  }

  /** An unhighlighted character passes through the removal. */
  lemma MergePlain(st: string, flags: seq<bool>, i: nat, t: Tokens, esc: char)
    requires |flags| == |st| && i < |st| && esc !in st && Distinct(t, esc) && !flags[i]
    requires Merged(st, flags, i + 1, false, t)
    ensures Merged(st, flags, i, false, t)
  {
    RawFront(st, flags, i, |st|, t);
    var tail := Raw(st, flags, i + 1, |st|, t);
    assert Raw(st, flags, i, |st|, t) == [st[i]] + tail;
    PassChar(t.off + t.on, st[i], tail);
  }

  /** The pieces of a highlighted character i and those after it. */
  lemma HotFront(st: string, flags: seq<bool>, i: nat, t: Tokens)
    requires |flags| == |st| && i < |st| && flags[i]
    ensures Raw(st, flags, i, |st|, t) == t.on + ([st[i]] + (t.off + Raw(st, flags, i + 1, |st|, t)))
  {
    RawFront(st, flags, i, |st|, t);
  }

  /** A highlighted character followed by another: its off token and the next on token vanish. */
  lemma MergeJoin(st: string, flags: seq<bool>, i: nat, open: bool, t: Tokens, esc: char)
    requires |flags| == |st| && i + 1 < |st| && esc !in st && Distinct(t, esc) && flags[i] && flags[i + 1]
    requires Merged(st, flags, i + 1, true, t)
    ensures Merged(st, flags, i, open, t)
  {
    var n, c, pat := |st|, st[i], t.off + t.on;
    var tail := Raw(st, flags, i + 1, n, t);
    var after := [c] + (t.off + tail);
    HotFront(st, flags, i, t);
    var more := Render(st, flags, i + 1, true, t);
    JoinStep(pat, t.on, t.off, c, tail, more);
    OnThenAfter(pat, t.on, t.off, esc, Raw(st, flags, i, n, t), after, [c] + more, open);
  }

  /** The first piece of an unhighlighted character is the character itself. */
  lemma PlainHead(st: string, flags: seq<bool>, j: nat, t: Tokens)
    requires |flags| == |st| && j < |st| && !flags[j]
    ensures Raw(st, flags, j, |st|, t) != [] && Raw(st, flags, j, |st|, t)[0] == st[j]
  {
    RawFront(st, flags, j, |st|, t);
  }

  /** After a run's last character, the pieces do not start with the escape character. */
  lemma CloseTail(st: string, flags: seq<bool>, i: nat, t: Tokens, esc: char)
    requires |flags| == |st| && i < |st| && esc !in st
    requires !(i + 1 < |st| && flags[i + 1])
    ensures var tail := Raw(st, flags, i + 1, |st|, t); tail == [] || tail[0] != esc
  {
    if i + 1 < |st| {
      PlainHead(st, flags, i + 1, t);
    }
  }

  /** A highlighted character ending its run: its off token stays. */
  lemma MergeClose(st: string, flags: seq<bool>, i: nat, open: bool, t: Tokens, esc: char)
    requires |flags| == |st| && i < |st| && esc !in st && Distinct(t, esc) && flags[i]
    requires !(i + 1 < |st| && flags[i + 1])
    requires Merged(st, flags, i + 1, false, t)
    ensures Merged(st, flags, i, open, t)
  {
    var n, c, pat := |st|, st[i], t.off + t.on;
    var tail := Raw(st, flags, i + 1, n, t);
    var after := [c] + (t.off + tail);
    var more := Render(st, flags, i + 1, true, t);
    HotFront(st, flags, i, t);
    assert RemoveAll(after, pat) == [c] + (t.off + more) by {
      CloseTail(st, flags, i, t, esc);
      OpenIrrelevant(st, flags, i + 1, t);
      CloseStep(pat, t.on, t.off, esc, c, tail, more);
    }
    OnThenAfter(pat, t.on, t.off, esc, Raw(st, flags, i, n, t), after, [c] + (t.off + more), open);
  }

  /** Pieces made of an on token and `after`: the removal keeps the on token unless it was consumed. */
  lemma OnThenAfter(pat: string, on: string, off: string, esc: char, raw: string, after: string, body: string, open: bool)
    requires pat == off + on && on != [] && off != [] && on[0] == esc && off[0] == esc && esc !in on[1..]
    requires !(on <= pat)
    requires raw == on + after && RemoveAll(after, pat) == body
    ensures open ==> on <= raw && RemoveAll(raw[|on|..], pat) == body
    ensures !open ==> RemoveAll(raw, pat) == on + body
  {
    if open {
      assert raw[|on|..] == after;
    } else {
      PassOn(pat, on, off, esc, after);
    }
  }

  lemma StripChar(t: Tokens, esc: char, c: char, x: string)
    requires Distinct(t, esc) && c != esc
    ensures Strip([c] + x, t) == [c] + Strip(x, t)
  {
    assert ([c] + x)[1..] == x;
  }

  lemma StripOn(t: Tokens, esc: char, x: string)
    requires Distinct(t, esc)
    ensures Strip(t.on + x, t) == Strip(x, t)
  {
    assert (t.on + x)[|t.on|..] == x;
  }

  lemma StripOff(t: Tokens, esc: char, x: string)
    requires Distinct(t, esc)
    ensures Strip(t.off + x, t) == Strip(x, t)
  {
    var k :| 0 <= k < |t.off| && t.off[k] != t.on[k];
    assert (t.off + x)[k] != t.on[k];
    assert (t.off + x)[|t.off|..] == x;
  }

  /** Stripping the tokens from the rendering of characters i.. gives them back: one visible character each. */
  lemma {:induction false} RenderStrips(st: string, flags: seq<bool>, i: nat, open: bool, t: Tokens, esc: char)
    requires |flags| == |st| && i <= |st| && esc !in st && Distinct(t, esc)
    ensures Strip(Render(st, flags, i, open, t), t) == st[i..]
    decreases |st| - i
  {
    if i < |st| {
      var c := st[i];
      assert st[i..] == [c] + st[i + 1..];
      if !flags[i] {
        RenderStrips(st, flags, i + 1, false, t, esc);
        StripChar(t, esc, c, Render(st, flags, i + 1, false, t));
      } else {
        var more := Render(st, flags, i + 1, true, t);
        RenderStrips(st, flags, i + 1, true, t, esc);
        var body := if i + 1 < |st| && flags[i + 1] then [c] + more else [c] + (t.off + more);
        if i + 1 < |st| && flags[i + 1] {
          StripChar(t, esc, c, more);
        } else {
          StripOff(t, esc, more);
          StripChar(t, esc, c, t.off + more);
        }
        assert Strip(body, t) == st[i..];
        if !open {
          StripOn(t, esc, body);
        }
      }
    }
  }

  /** Characters i.. all highlighted are rendered as one run: on + st[i..] + off. */
  lemma {:induction false} AllHighlighted(st: string, flags: seq<bool>, i: nat, open: bool, t: Tokens)
    requires |flags| == |st| && i < |st|
    requires forall k :: 0 <= k < |flags| ==> flags[k]
    ensures Render(st, flags, i, open, t) == (if open then [] else t.on) + st[i..] + t.off
    decreases |st| - i
  {
    if i + 1 < |st| {
      AllHighlighted(st, flags, i + 1, true, t);
      assert st[i..] == [st[i]] + st[i + 1..];
    } else {
      assert st[i..] == [st[i]];
    }
  }

  /** With nothing highlighted, the rendering of characters i.. is those characters. */
  lemma {:induction false} NoneHighlighted(st: string, flags: seq<bool>, i: nat, open: bool, t: Tokens)
    requires |flags| == |st| && i <= |st|
    requires forall k :: 0 <= k < |flags| ==> !flags[k]
    ensures Render(st, flags, i, open, t) == st[i..]
    decreases |st| - i
  {
    if i < |st| {
      NoneHighlighted(st, flags, i + 1, false, t);
      assert st[i..] == [st[i]] + st[i + 1..];
    }
  }
}
