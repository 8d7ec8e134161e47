/**
 Generating from the normalised model: cumulative-subtraction sampling of a next
 letter and the random walk that generates a string. Random draws are parameters:
 `uniform(j)` is the uniform draw of step j and `picks(j)` the index used when a
 letter is chosen from the alphabet.
 */
module Sampling {
  import opened Chain
  import opened Normalize

  /** Cumulative subtraction: subtract each probability from `r` in turn, stop at the first letter where r <= 0. */
  function Sample(row: Row<real>, r: real): Option<char>
  {
    if row == [] then None
    else if r - row[0].1 <= 0.0 then Some(row[0].0)
    else Sample(row[1..], r - row[0].1)
  }

  /** The sum of the first `k` probabilities of the row. */
  function Prefix(row: Row<real>, k: nat): real
    requires k <= |row|
  {
    ProbSum(row[..k])
  }

  /** The letter drawn after `ctx`: sampled from its row if known, else the `pick`-th alphabet letter. */
  function NextLetter(normed: Normed, alphabet: seq<char>, ctx: string, u: real, pick: nat): Option<char>
  {
    if ctx in normed then Sample(normed[ctx], u)
    else if alphabet == [] then None
    else Some(alphabet[pick % |alphabet|])
  }

  /** s[-order:]: the last `order` letters, or all of `s` when it is shorter or when order is 0. */
  function Suffix(s: string, order: nat): string
  {
    if order == 0 || order >= |s| then s else s[|s| - order..]
  }

  // ---------------------------------------------------------------------------
  // Sampling

  lemma PrefixStep(row: Row<real>, j: nat)
    requires row != [] && j < |row|
    ensures Prefix(row, j + 1) == row[0].1 + Prefix(row[1..], j)
  {
    assert row[..j + 1] == [row[0]] + row[1..][..j];
    assert row[..j + 1][1..] == row[1..][..j];
  }

  /**
   The letter drawn is row[k].0 for the first k whose running sum p0 + ... + pk reaches r:
   r <= Prefix(k + 1) while every earlier running sum is below r.
   */
  lemma {:induction false} SampleFirstCrossing(row: Row<real>, r: real, k: nat)
    requires k < |row|
    requires r <= Prefix(row, k + 1)
    requires forall j :: 1 <= j <= k ==> Prefix(row, j) < r
    ensures Sample(row, r) == Some(row[k].0)
  {
    PrefixStep(row, 0);
    if k > 0 {
      assert Prefix(row, 1) < r;
      PrefixStep(row, k);
      forall j | 1 <= j <= k - 1 ensures Prefix(row[1..], j) < r - row[0].1 {
        PrefixStep(row, j);
      }
      SampleFirstCrossing(row[1..], r - row[0].1, k - 1);
    }
  }

  /** No letter is drawn exactly when every running sum stays below r. */
  lemma {:induction false} SampleNone(row: Row<real>, r: real)
    ensures Sample(row, r) == None <==> forall j :: 1 <= j <= |row| ==> Prefix(row, j) < r
  {
    if row != [] {
      PrefixStep(row, 0);
      SampleNone(row[1..], r - row[0].1);
      forall j | 1 <= j <= |row| - 1 ensures Prefix(row, j + 1) == row[0].1 + Prefix(row[1..], j) {
        PrefixStep(row, j);
      }
      if Sample(row, r) == None {
        forall j | 1 <= j <= |row| ensures Prefix(row, j) < r {
          PrefixStep(row, j - 1);
        }
      }
      if forall j :: 1 <= j <= |row| ==> Prefix(row, j) < r {
        assert Prefix(row, 1) < r;
        forall j | 1 <= j <= |row| - 1 ensures Prefix(row[1..], j) < r - row[0].1 {
          assert Prefix(row, j + 1) < r;
        }
      }
    }
  }

  lemma {:induction false} SampleInRow(row: Row<real>, r: real)
    ensures Sample(row, r).Some? ==> Sample(row, r).value in Letters(row)
  {
    if row != [] {
      assert Letters(row) == [row[0].0] + Letters(row[1..]);
      SampleInRow(row[1..], r - row[0].1);
    }
  }

  /** On a distribution, a draw r <= 1 always yields one of the row's letters. */
  lemma SampleFromDistribution(row: Row<real>, r: real)
    requires IsDistribution(row) && r <= 1.0
    ensures Sample(row, r).Some? && Sample(row, r).value in Letters(row)
  {
    SampleNone(row, r);
    assert row[..|row|] == row;
    assert Prefix(row, |row|) == 1.0;
    SampleInRow(row, r);
  }

  /** Letter `k` of `w` is the one drawn, with draws `u` and `pick`, after the `order` letters before it. */
  ghost predicate DrawnAt(normed: Normed, alphabet: seq<char>, order: nat, w: string, k: nat, u: real, pick: nat)
    requires k < |w|
  {
    NextLetter(normed, alphabet, Suffix(w[..k], order), u, pick) == Some(w[k])
  }

  /** Step j of a walk from a seed of length `base`: letter base + j was drawn with the j-th draws. */
  ghost predicate DrawnStep(normed: Normed, alphabet: seq<char>, order: nat, w: string, base: nat, j: nat,
                            uniform: nat -> real, picks: nat -> nat)
    requires base + j < |w|
  {
    DrawnAt(normed, alphabet, order, w, base + j, uniform(j), picks(j))
  }

  /**
   `w` is what the random walk from `seed` produces with the given draws: it starts with the
   seed and each later letter is the one drawn after the last `order` letters before it.
   */
  ghost predicate IsWalk(normed: Normed, alphabet: seq<char>, order: nat, seed: string, w: string,
                         uniform: nat -> real, picks: nat -> nat)
  {
    && |seed| <= |w|
    && w[..|seed|] == seed
    && forall j :: 0 <= j < |w| - |seed| ==> DrawnStep(normed, alphabet, order, w, |seed|, j, uniform, picks)
  }

  /** Whether letter k was drawn depends only on the letters up to k. */
  lemma DrawnAtPrefix(normed: Normed, alphabet: seq<char>, order: nat, w: string, v: string, k: nat, u: real, pick: nat)
    requires k < |v| <= |w| && w[..|v|] == v
    ensures DrawnAt(normed, alphabet, order, v, k, u, pick) <==> DrawnAt(normed, alphabet, order, w, k, u, pick)
  {
    assert w[..k] == v[..k];
    assert w[k] == v[k];
  }

  /** The seed alone is a walk of no steps. */
  lemma WalkStart(normed: Normed, alphabet: seq<char>, order: nat, seed: string, uniform: nat -> real, picks: nat -> nat)
    ensures IsWalk(normed, alphabet, order, seed, seed, uniform, picks)
  {
    assert seed[..|seed|] == seed;
  }

  /** Appending the letter drawn at the next step extends a walk by one step. */
  lemma WalkExtend(normed: Normed, alphabet: seq<char>, order: nat, seed: string, w: string, c: char,
                   uniform: nat -> real, picks: nat -> nat)
    requires IsWalk(normed, alphabet, order, seed, w, uniform, picks)
    requires NextLetter(normed, alphabet, Suffix(w, order), uniform(|w| - |seed|), picks(|w| - |seed|)) == Some(c)
    ensures IsWalk(normed, alphabet, order, seed, w + [c], uniform, picks)
  {
    var w' := w + [c];
    assert w'[..|w|] == w;
    assert w'[..|seed|] == seed;
    forall j | 0 <= j < |w'| - |seed|
      ensures DrawnStep(normed, alphabet, order, w', |seed|, j, uniform, picks)
    {
      if j < |w| - |seed| {
        assert DrawnStep(normed, alphabet, order, w, |seed|, j, uniform, picks);
        DrawnAtPrefix(normed, alphabet, order, w', w, |seed| + j, uniform(j), picks(j));
      } else {
        assert w'[..|seed| + j] == w;
      }
    }
  }

  /** The walk is determined by its draws: two walks of the same length from the same seed are equal. */
  lemma {:induction false} WalkDeterministic(normed: Normed, alphabet: seq<char>, order: nat, seed: string,
                                             w1: string, w2: string, uniform: nat -> real, picks: nat -> nat)
    requires IsWalk(normed, alphabet, order, seed, w1, uniform, picks)
    requires IsWalk(normed, alphabet, order, seed, w2, uniform, picks)
    requires |w1| == |w2|
    ensures w1 == w2
    decreases |w1|
  {
    if |w1| > |seed| {
      var k := |w1| - 1;
      var v1, v2 := w1[..k], w2[..k];
      WalkTruncate(normed, alphabet, order, seed, w1, uniform, picks);
      WalkTruncate(normed, alphabet, order, seed, w2, uniform, picks);
      WalkDeterministic(normed, alphabet, order, seed, v1, v2, uniform, picks);
      var j := k - |seed|;
      assert DrawnStep(normed, alphabet, order, w1, |seed|, j, uniform, picks);
      assert DrawnStep(normed, alphabet, order, w2, |seed|, j, uniform, picks);
      SameDraw(normed, alphabet, order, w1, w2, k, uniform(j), picks(j));
    } else {
      assert w1 == w1[..|seed|] && w2 == w2[..|seed|];
    }
  }

  /** Two strings that agree before their last letter k, drawn with the same draws, are equal. */
  lemma SameDraw(normed: Normed, alphabet: seq<char>, order: nat, w1: string, w2: string, k: nat, u: real, pick: nat)
    requires |w1| == |w2| == k + 1 && w1[..k] == w2[..k]
    requires DrawnAt(normed, alphabet, order, w1, k, u, pick) && DrawnAt(normed, alphabet, order, w2, k, u, pick)
    ensures w1 == w2
  {
    assert w1 == w1[..k] + [w1[k]] && w2 == w2[..k] + [w2[k]];
  }

  /** Dropping the last letter of a walk longer than its seed leaves a walk. */
  lemma WalkTruncate(normed: Normed, alphabet: seq<char>, order: nat, seed: string, w: string,
                     uniform: nat -> real, picks: nat -> nat)
    requires IsWalk(normed, alphabet, order, seed, w, uniform, picks) && |w| > |seed|
    ensures IsWalk(normed, alphabet, order, seed, w[..|w| - 1], uniform, picks)
  {
    var v := w[..|w| - 1];
    assert v[..|seed|] == seed;
    forall j | 0 <= j < |v| - |seed|
      ensures DrawnStep(normed, alphabet, order, v, |seed|, j, uniform, picks)
    {
      assert DrawnStep(normed, alphabet, order, w, |seed|, j, uniform, picks);
      DrawnAtPrefix(normed, alphabet, order, w, v, |seed| + j, uniform(j), picks(j));
    }
  }

  /** A drawn letter is in the alphabet when every letter of the table is. */
  lemma DrawnInAlphabet(normed: Normed, alphabet: seq<char>, order: nat, w: string, k: nat, u: real, pick: nat)
    requires k < |w| && DrawnAt(normed, alphabet, order, w, k, u, pick)
    requires forall ctx, c :: ctx in normed && c in Letters(normed[ctx]) ==> c in alphabet
    ensures w[k] in alphabet
  {
    var ctx := Suffix(w[..k], order);
    if ctx in normed {
      SampleInRow(normed[ctx], u);
    }
  }

  /** When every letter of the table is in the alphabet, every letter a walk appends is too. */
  lemma WalkStaysInAlphabet(normed: Normed, alphabet: seq<char>, order: nat, seed: string, w: string,
                            uniform: nat -> real, picks: nat -> nat)
    requires IsWalk(normed, alphabet, order, seed, w, uniform, picks)
    requires forall ctx, c :: ctx in normed && c in Letters(normed[ctx]) ==> c in alphabet
    ensures forall k :: |seed| <= k < |w| ==> w[k] in alphabet
  {
    forall k | |seed| <= k < |w| ensures w[k] in alphabet {
      var j := k - |seed|;
      assert DrawnStep(normed, alphabet, order, w, |seed|, j, uniform, picks);
      DrawnInAlphabet(normed, alphabet, order, w, k, uniform(j), picks(j));
    }
  }

  /**
   With a distribution in every known context, a non-empty alphabet and a draw at most 1, a
   letter is always drawn: a known context yields one of its row's letters, an unknown one a
   letter of the alphabet.
   */
  lemma NextLetterDefined(normed: Normed, alphabet: seq<char>, ctx: string, u: real, pick: nat)
    requires forall c :: c in normed ==> IsDistribution(normed[c])
    requires alphabet != [] && u <= 1.0
    ensures NextLetter(normed, alphabet, ctx, u, pick).Some?
    ensures ctx in normed ==> NextLetter(normed, alphabet, ctx, u, pick).value in Letters(normed[ctx])
    ensures ctx !in normed ==> NextLetter(normed, alphabet, ctx, u, pick).value in alphabet
  {
    if ctx in normed {
      SampleFromDistribution(normed[ctx], u);
    }
  }
}
