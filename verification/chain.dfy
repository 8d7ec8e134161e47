/**
 The counting stage of the character-level Markov model: the transition table,
 one training pass over a string, and what a pass adds to the table.
 */
module Chain {

  datatype Option<T> = None | Some(value: T)

  /** One context's row: next letters in first-seen order, with their weights. */
  type Row<V> = seq<(char, V)>

  /** The transition-count table: context -> row of weighted next letters. */
  type Counts = map<string, Row<int>>

  function Letters<V>(row: Row<V>): seq<char>
  {
    seq(|row|, i requires 0 <= i < |row| => row[i].0)
  }

  ghost predicate DistinctLetters<V>(row: Row<V>)
  {
    forall i, j :: 0 <= i < j < |row| ==> row[i].0 != row[j].0
  }

  ghost predicate NoDup(s: seq<char>)
  {
    forall i, j :: 0 <= i < j < |s| ==> s[i] != s[j]
  }

  /** The value stored for `c`, or `default` when `c` has no entry (dict.get). */
  function Lookup<V>(row: Row<V>, c: char, default: V): V
  {
    if row == [] then default
    else if row[0].0 == c then row[0].1
    else Lookup(row[1..], c, default)
  }

  /** Adds `w` to the weight of `c`: in place when `c` has an entry, appended otherwise. */
  function AddWeight(row: Row<int>, c: char, w: int): Row<int>
  {
    if row == [] then [(c, w)]
    else if row[0].0 == c then [(c, row[0].1 + w)] + row[1..]
    else [row[0]] + AddWeight(row[1..], c, w)
  }

  function RowTotal(row: Row<int>): int
  {
    if row == [] then 0 else row[0].1 + RowTotal(row[1..])
  }

  /** The row of `ctx`, or the empty row when the context is unknown. */
  function RowOf<V>(chain: map<string, Row<V>>, ctx: string): Row<V>
  {
    if ctx in chain then chain[ctx] else []
  }

  /** The weight recorded for `ctx` followed by `c` (0 when absent). */
  function Count(chain: Counts, ctx: string, c: char): int
  {
    Lookup(RowOf(chain, ctx), c, 0)
  }

  /** Records one observation of `c` after `ctx` with weight `w`. */
  function Record(chain: Counts, ctx: string, c: char, w: int): Counts
  {
    chain[ctx := AddWeight(RowOf(chain, ctx), c, w)]
  }

  /** Number of (context, next letter) windows in `s`: max(0, |s| - order). */
  function Positions(s: string, order: nat): nat
  {
    if |s| > order then |s| - order else 0
  }

  /** The context of the window at position `i`: s[i : i + order]. */
  function WindowAt(s: string, order: nat, i: nat): string
    requires i < Positions(s, order)
  {
    s[i..i + order]
  }

  /** The next letter of the window at position `i`: s[i + order]. */
  function NextAt(s: string, order: nat, i: nat): char
    requires i < Positions(s, order)
  {
    s[i + order]
  }

  /** The table after the first `n` windows of `s` have been recorded with weight `w`. */
  function TrainPrefix(chain: Counts, s: string, order: nat, w: int, n: nat): Counts
    requires n <= Positions(s, order)
  {
    if n == 0 then chain
    else Record(TrainPrefix(chain, s, order, w, n - 1), WindowAt(s, order, n - 1), NextAt(s, order, n - 1), w)
  }

  /** The table after one training pass over `s` with weight `w`. */
  function Trained(chain: Counts, s: string, order: nat, w: int): Counts
  {
    TrainPrefix(chain, s, order, w, Positions(s, order))
  }

  /** How many of the first `n` windows of `s` are `ctx` followed by `c`. */
  function Occurrences(s: string, order: nat, ctx: string, c: char, n: nat): nat
    requires n <= Positions(s, order)
  {
    if n == 0 then 0
    else Occurrences(s, order, ctx, c, n - 1)
         + (if WindowAt(s, order, n - 1) == ctx && NextAt(s, order, n - 1) == c then 1 else 0)
  }

  /** The alphabet after the first `n` windows of `s`: each unseen next letter appended once. */
  function AlphabetPrefix(alphabet: seq<char>, s: string, order: nat, n: nat): seq<char>
    requires n <= Positions(s, order)
  {
    if n == 0 then alphabet
    else
      var a := AlphabetPrefix(alphabet, s, order, n - 1);
      if NextAt(s, order, n - 1) in a then a else a + [NextAt(s, order, n - 1)]
  }

  function ExtendAlphabet(alphabet: seq<char>, s: string, order: nat): seq<char>
  {
    AlphabetPrefix(alphabet, s, order, Positions(s, order))
  }

  /** The table after `k` passes over `s`, each with weight 1. */
  function TrainRepeated(chain: Counts, s: string, order: nat, k: nat): Counts
  {
    if k == 0 then chain else Trained(TrainRepeated(chain, s, order, k - 1), s, order, 1)
  }

  /** Every context has `order` letters; every row is non-empty, duplicate-free and positive. */
  ghost predicate WellFormed(chain: Counts, order: nat)
  {
    forall ctx :: ctx in chain ==>
      && |ctx| == order
      && chain[ctx] != []
      && RowTotal(chain[ctx]) > 0
      && DistinctLetters(chain[ctx])
      && PositiveRow(chain[ctx])
  }

  ghost predicate PositiveRow(row: Row<int>)
  {
    forall i :: 0 <= i < |row| ==> row[i].1 > 0
  }

  /** `c` is recorded as a next letter of some context. */
  ghost predicate Occurs(chain: Counts, c: char)
  {
    exists ctx :: ctx in chain && c in Letters(chain[ctx])
  }

  /** Next letters of the windows of `s`. */
  ghost predicate IsNextLetter(s: string, order: nat, c: char)
  {
    exists i :: 0 <= i < Positions(s, order) && NextAt(s, order, i) == c
  }

  /** Sum of the row totals of the contexts in `keys`. */
  ghost function SumOver(chain: Counts, keys: set<string>): int
    requires keys <= chain.Keys
    decreases keys
  {
    if keys == {} then 0
    else
      var k :| k in keys;
      RowTotal(chain[k]) + SumOver(chain, keys - {k})
  }

  /** The total weight recorded in the table. */
  ghost function TotalWeight(chain: Counts): int
  {
    SumOver(chain, chain.Keys)
  }

  // ---------------------------------------------------------------------------
  // Rows

  lemma {:induction false} AddWeightLookup(row: Row<int>, c: char, w: int, d: char)
    ensures Lookup(AddWeight(row, c, w), d, 0) == Lookup(row, d, 0) + (if d == c then w else 0)
  {
    if row != [] && row[0].0 != c {
      AddWeightLookup(row[1..], c, w, d);
    }
  }

  lemma {:induction false} AddWeightLetters(row: Row<int>, c: char, w: int)
    ensures Letters(AddWeight(row, c, w)) == if c in Letters(row) then Letters(row) else Letters(row) + [c]
  {
    if row == [] {
    } else if row[0].0 == c {
      assert Letters(row)[0] == c;
    } else {
      AddWeightLetters(row[1..], c, w);
      assert Letters(row) == [row[0].0] + Letters(row[1..]);
      assert Letters(AddWeight(row, c, w)) == [row[0].0] + Letters(AddWeight(row[1..], c, w));
    }
  }

  lemma {:induction false} AddWeightTotal(row: Row<int>, c: char, w: int)
    ensures RowTotal(AddWeight(row, c, w)) == RowTotal(row) + w
  {
    if row == [] {
    } else if row[0].0 == c {
      assert ([(c, row[0].1 + w)] + row[1..])[1..] == row[1..];
    } else {
      AddWeightTotal(row[1..], c, w);
      assert ([row[0]] + AddWeight(row[1..], c, w))[1..] == AddWeight(row[1..], c, w);
    }
  }

  /** A row has distinct letters exactly when its list of letters has no duplicate. */
  lemma DistinctIsNoDup<V>(row: Row<V>)
    ensures DistinctLetters(row) <==> NoDup(Letters(row))
  {
    assert forall i :: 0 <= i < |row| ==> Letters(row)[i] == row[i].0;
  }

  lemma {:induction false} AddWeightPositive(row: Row<int>, c: char, w: int)
    requires PositiveRow(row) && w > 0
    ensures PositiveRow(AddWeight(row, c, w))
  {
    if row != [] && row[0].0 != c {
      assert PositiveRow(row[1..]) by {
        forall j | 0 <= j < |row[1..]| ensures row[1..][j].1 > 0 {
          assert row[1..][j] == row[j + 1];
        }
      }
      AddWeightPositive(row[1..], c, w);
      var tail := AddWeight(row[1..], c, w);
      assert forall j :: 1 <= j < |tail| + 1 ==> ([row[0]] + tail)[j] == tail[j - 1];
    } else if row != [] {
      assert forall j :: 1 <= j < |row| ==> ([(c, row[0].1 + w)] + row[1..])[j] == row[j];
    }
  }

  lemma AddWeightDistinct(row: Row<int>, c: char, w: int)
    requires DistinctLetters(row)
    ensures DistinctLetters(AddWeight(row, c, w))
  {
    var r := AddWeight(row, c, w);
    DistinctIsNoDup(row);
    DistinctIsNoDup(r);
    AddWeightLetters(row, c, w);
    var ls := Letters(row);
    if c !in ls {
      assert forall i :: 0 <= i < |ls| ==> (ls + [c])[i] == ls[i];
      assert (ls + [c])[|ls|] == c;
    }
  }

  /** A row of positive weights has a non-negative total, positive when the row is not empty. */
  lemma {:induction false} PositiveRowTotal(row: Row<int>)
    requires PositiveRow(row)
    ensures RowTotal(row) >= 0
    ensures row != [] ==> RowTotal(row) > 0
  {
    if row != [] {
      assert PositiveRow(row[1..]) by {
        forall j | 0 <= j < |row[1..]| ensures row[1..][j].1 > 0 {
          assert row[1..][j] == row[j + 1];
        }
      }
      PositiveRowTotal(row[1..]);
    }
  }

  /** Adding a positive weight keeps a row non-empty, duplicate-free and positive, with a positive total. */
  lemma AddWeightKeepsShape(row: Row<int>, c: char, w: int)
    requires DistinctLetters(row) && PositiveRow(row)
    requires w > 0
    ensures AddWeight(row, c, w) != []
    ensures DistinctLetters(AddWeight(row, c, w))
    ensures PositiveRow(AddWeight(row, c, w))
    ensures RowTotal(AddWeight(row, c, w)) > 0
  {
    PositiveRowTotal(row);
    AddWeightTotal(row, c, w);
    AddWeightLetters(row, c, w);
    assert |Letters(AddWeight(row, c, w))| == |AddWeight(row, c, w)|;
    AddWeightPositive(row, c, w);
    AddWeightDistinct(row, c, w);
  }

  // ---------------------------------------------------------------------------
  // Recording one observation

  lemma RecordCount(chain: Counts, ctx: string, c: char, w: int, ctx': string, d: char)
    ensures Count(Record(chain, ctx, c, w), ctx', d)
         == Count(chain, ctx', d) + (if ctx' == ctx && d == c then w else 0)
  {
    if ctx' == ctx {
      AddWeightLookup(RowOf(chain, ctx), c, w, d);
    }
  }

  lemma RecordOccurs(chain: Counts, ctx: string, c: char, w: int, d: char)
    ensures Occurs(Record(chain, ctx, c, w), d) <==> Occurs(chain, d) || d == c
  {
    var chain' := Record(chain, ctx, c, w);
    AddWeightLetters(RowOf(chain, ctx), c, w);
    if Occurs(chain, d) {
      var x :| x in chain && d in Letters(chain[x]);
      assert x in chain' && d in Letters(chain'[x]);
    }
    if d == c {
      assert c in Letters(chain'[ctx]);
    }
    if Occurs(chain', d) {
      var x :| x in chain' && d in Letters(chain'[x]);
      if x != ctx {
        assert x in chain && d in Letters(chain[x]);
      } else if d != c {
        assert d in Letters(RowOf(chain, ctx));
        assert ctx in chain && d in Letters(chain[ctx]);
      }
    }
  }

  lemma SumOverRemove(chain: Counts, keys: set<string>, k: string)
    requires keys <= chain.Keys && k in keys
    ensures SumOver(chain, keys) == RowTotal(chain[k]) + SumOver(chain, keys - {k})
    decreases keys
  {
    var k' :| k' in keys && SumOver(chain, keys) == RowTotal(chain[k']) + SumOver(chain, keys - {k'});
    if k' != k {
      SumOverRemove(chain, keys - {k'}, k);
      SumOverRemove(chain, keys - {k}, k');
      assert keys - {k'} - {k} == keys - {k} - {k'};
    }
  }

  lemma SumOverAgree(chain: Counts, chain': Counts, keys: set<string>)
    requires keys <= chain.Keys && keys <= chain'.Keys
    requires forall k :: k in keys ==> chain[k] == chain'[k]
    ensures SumOver(chain, keys) == SumOver(chain', keys)
    decreases keys
  {
    if keys != {} {
      var k :| k in keys && SumOver(chain, keys) == RowTotal(chain[k]) + SumOver(chain, keys - {k});
      SumOverAgree(chain, chain', keys - {k});
      SumOverRemove(chain', keys, k);
    }
  }

  lemma RecordTotalWeight(chain: Counts, ctx: string, c: char, w: int)
    ensures TotalWeight(Record(chain, ctx, c, w)) == TotalWeight(chain) + w
  {
    var chain' := Record(chain, ctx, c, w);
    var others := chain.Keys - {ctx};
    SumOverRemove(chain', chain'.Keys, ctx);
    AddWeightTotal(RowOf(chain, ctx), c, w);
    assert chain'.Keys - {ctx} == others;
    SumOverAgree(chain, chain', others);
    if ctx in chain {
      SumOverRemove(chain, chain.Keys, ctx);
    } else {
      assert others == chain.Keys;
    }
  }

  // ---------------------------------------------------------------------------
  // A training pass

  /** Training adds `w` for exactly the windows equal to (ctx, c), and nothing else. */
  lemma {:induction false} TrainPrefixCount(chain: Counts, s: string, order: nat, w: int, n: nat, ctx: string, c: char)
    requires n <= Positions(s, order)
    ensures Count(TrainPrefix(chain, s, order, w, n), ctx, c)
         == Count(chain, ctx, c) + w * Occurrences(s, order, ctx, c, n)
  {
    if n > 0 {
      var prev := TrainPrefix(chain, s, order, w, n - 1);
      TrainPrefixCount(chain, s, order, w, n - 1, ctx, c);
      RecordCount(prev, WindowAt(s, order, n - 1), NextAt(s, order, n - 1), w, ctx, c);
      var before := Occurrences(s, order, ctx, c, n - 1);
      if WindowAt(s, order, n - 1) == ctx && NextAt(s, order, n - 1) == c {
        assert Occurrences(s, order, ctx, c, n) == before + 1;
        Distribute(w, before, 1);
      } else {
        assert Occurrences(s, order, ctx, c, n) == before;
      }
    }
  }

  lemma Distribute(w: int, a: int, b: int)
    ensures w * (a + b) == w * a + w * b
  {
  }

  lemma SumTimes(a: int, b: int, k: int)
    ensures (a + b) * k == a * k + b * k
  {
  }

  lemma TrainedCount(chain: Counts, s: string, order: nat, w: int, ctx: string, c: char)
    ensures Count(Trained(chain, s, order, w), ctx, c)
         == Count(chain, ctx, c) + w * Occurrences(s, order, ctx, c, Positions(s, order))
  {
    TrainPrefixCount(chain, s, order, w, Positions(s, order), ctx, c);
  }

  /** The contexts after training are the old ones plus every window of `s`. */
  lemma TrainPrefixKeys(chain: Counts, s: string, order: nat, w: int, n: nat)
    requires n <= Positions(s, order)
    ensures forall ctx :: ctx in TrainPrefix(chain, s, order, w, n) <==>
              ctx in chain || exists i :: 0 <= i < n && WindowAt(s, order, i) == ctx
  {
    forall ctx ensures ctx in TrainPrefix(chain, s, order, w, n) <==>
                       ctx in chain || exists i :: 0 <= i < n && WindowAt(s, order, i) == ctx {
      TrainPrefixHas(chain, s, order, w, n, ctx);
    }
  }

  /** One context: it is in the table after n windows iff it was before or is one of those windows. */
  lemma {:induction false} TrainPrefixHas(chain: Counts, s: string, order: nat, w: int, n: nat, ctx: string)
    requires n <= Positions(s, order)
    ensures ctx in TrainPrefix(chain, s, order, w, n) <==>
            ctx in chain || exists i :: 0 <= i < n && WindowAt(s, order, i) == ctx
  {
    if n > 0 {
      TrainPrefixHas(chain, s, order, w, n - 1, ctx);
      if ctx != WindowAt(s, order, n - 1) && exists i :: 0 <= i < n && WindowAt(s, order, i) == ctx {
        var i :| 0 <= i < n && WindowAt(s, order, i) == ctx;
        assert i < n - 1;
      }
    }
  }

  /** Recording a positive weight under a context of `order` letters keeps the table well-formed. */
  lemma RecordWellFormed(chain: Counts, order: nat, ctx: string, c: char, w: int)
    requires WellFormed(chain, order) && |ctx| == order && w > 0
    ensures WellFormed(Record(chain, ctx, c, w), order)
  {
    AddWeightKeepsShape(RowOf(chain, ctx), c, w);
  }

  lemma {:induction false} TrainPrefixWellFormed(chain: Counts, s: string, order: nat, w: int, n: nat)
    requires n <= Positions(s, order)
    requires WellFormed(chain, order) && w > 0
    ensures WellFormed(TrainPrefix(chain, s, order, w, n), order)
  {
    if n > 0 {
      TrainPrefixWellFormed(chain, s, order, w, n - 1);
      RecordWellFormed(TrainPrefix(chain, s, order, w, n - 1), order, WindowAt(s, order, n - 1), NextAt(s, order, n - 1), w);
    }
  }

  /** After a pass every context has exactly `order` letters and every row is positive. */
  lemma TrainedWellFormed(chain: Counts, s: string, order: nat, w: int)
    requires WellFormed(chain, order) && w > 0
    ensures WellFormed(Trained(chain, s, order, w), order)
  {
    TrainPrefixWellFormed(chain, s, order, w, Positions(s, order));
  }

  /** Training adds `w` per window to the total weight: w * max(0, |s| - order) in all. */
  lemma {:induction false} TrainPrefixTotalWeight(chain: Counts, s: string, order: nat, w: int, n: nat)
    requires n <= Positions(s, order)
    ensures TotalWeight(TrainPrefix(chain, s, order, w, n)) == TotalWeight(chain) + w * n
  {
    if n > 0 {
      TrainPrefixTotalWeight(chain, s, order, w, n - 1);
      assert w * n == w * (n - 1) + w;
      RecordTotalWeight(TrainPrefix(chain, s, order, w, n - 1), WindowAt(s, order, n - 1), NextAt(s, order, n - 1), w);
    }
  }

  lemma TrainedTotalWeight(chain: Counts, s: string, order: nat, w: int)
    ensures TotalWeight(Trained(chain, s, order, w)) == TotalWeight(chain) + w * Positions(s, order)
  {
    TrainPrefixTotalWeight(chain, s, order, w, Positions(s, order));
  }

  /** The recorded next letters after a pass are the old ones plus the next letters of `s`. */
  lemma {:induction false} TrainPrefixOccurs(chain: Counts, s: string, order: nat, w: int, n: nat, d: char)
    requires n <= Positions(s, order)
    ensures Occurs(TrainPrefix(chain, s, order, w, n), d) <==>
              Occurs(chain, d) || exists i :: 0 <= i < n && NextAt(s, order, i) == d
  {
    if n > 0 {
      TrainPrefixOccurs(chain, s, order, w, n - 1, d);
      RecordOccurs(TrainPrefix(chain, s, order, w, n - 1), WindowAt(s, order, n - 1), NextAt(s, order, n - 1), w, d);
      if exists i :: 0 <= i < n && NextAt(s, order, i) == d {
        var i :| 0 <= i < n && NextAt(s, order, i) == d;
        if i < n - 1 {
          assert exists i :: 0 <= i < n - 1 && NextAt(s, order, i) == d;
        }
      }
    }
  }

  /** The alphabet only grows, keeps its order, stays duplicate-free and gains exactly the new next letters. */
  lemma {:induction false} AlphabetPrefixGrows(alphabet: seq<char>, s: string, order: nat, n: nat)
    requires n <= Positions(s, order)
    requires NoDup(alphabet)
    ensures var a := AlphabetPrefix(alphabet, s, order, n);
      && |alphabet| <= |a| && a[..|alphabet|] == alphabet
      && NoDup(a)
      && forall d :: d in a <==> d in alphabet || exists i :: 0 <= i < n && NextAt(s, order, i) == d
  {
    if n > 0 {
      AlphabetPrefixGrows(alphabet, s, order, n - 1);
      var a := AlphabetPrefix(alphabet, s, order, n - 1);
      var a' := AlphabetPrefix(alphabet, s, order, n);
      assert a'[..|a|] == a;
      assert a'[..|alphabet|] == a[..|alphabet|];
      forall d ensures d in a' <==> d in alphabet || exists i :: 0 <= i < n && NextAt(s, order, i) == d {
        if exists i :: 0 <= i < n && NextAt(s, order, i) == d {
          var i :| 0 <= i < n && NextAt(s, order, i) == d;
          if i < n - 1 {
            assert exists i :: 0 <= i < n - 1 && NextAt(s, order, i) == d;
          }
        }
      }
    }
  }

  lemma ExtendAlphabetGrows(alphabet: seq<char>, s: string, order: nat)
    requires NoDup(alphabet)
    ensures var a := ExtendAlphabet(alphabet, s, order);
      && |alphabet| <= |a| && a[..|alphabet|] == alphabet
      && NoDup(a)
      && forall d :: d in a <==> d in alphabet || IsNextLetter(s, order, d)
  {
    AlphabetPrefixGrows(alphabet, s, order, Positions(s, order));
  }

  // ---------------------------------------------------------------------------
  // Additivity

  /** Two passes with weights a and b leave the same contexts and counts as one pass with a + b. */
  lemma TrainTwiceAdds(chain: Counts, s: string, order: nat, a: int, b: int)
    ensures Trained(Trained(chain, s, order, a), s, order, b).Keys == Trained(chain, s, order, a + b).Keys
    ensures forall ctx, c :: Count(Trained(Trained(chain, s, order, a), s, order, b), ctx, c)
                          == Count(Trained(chain, s, order, a + b), ctx, c)
  {
    var n := Positions(s, order);
    TrainPrefixKeys(chain, s, order, a, n);
    TrainPrefixKeys(Trained(chain, s, order, a), s, order, b, n);
    TrainPrefixKeys(chain, s, order, a + b, n);
    forall ctx, c ensures Count(Trained(Trained(chain, s, order, a), s, order, b), ctx, c)
                       == Count(Trained(chain, s, order, a + b), ctx, c)
    {
      TrainTwiceCount(chain, s, order, a, b, ctx, c);
    }
  }

  lemma TrainTwiceCount(chain: Counts, s: string, order: nat, a: int, b: int, ctx: string, c: char)
    ensures Count(Trained(Trained(chain, s, order, a), s, order, b), ctx, c)
         == Count(Trained(chain, s, order, a + b), ctx, c)
  {
    var once := Trained(chain, s, order, a);
    TrainedCount(once, s, order, b, ctx, c);
    TrainedCount(chain, s, order, a, ctx, c);
    TrainedCount(chain, s, order, a + b, ctx, c);
    var k := Occurrences(s, order, ctx, c, Positions(s, order));
    SumTimes(a, b, k);
  }

  /** k passes with weight 1 leave the same contexts and counts as one pass with weight k. */
  lemma {:induction false} TrainRepeatedIsWeighted(chain: Counts, s: string, order: nat, k: nat)
    requires k >= 1
    ensures TrainRepeated(chain, s, order, k).Keys == Trained(chain, s, order, k).Keys
    ensures forall ctx, c :: Count(TrainRepeated(chain, s, order, k), ctx, c)
                          == Count(Trained(chain, s, order, k), ctx, c)
  {
    var n := Positions(s, order);
    if k == 1 {
      assert TrainRepeated(chain, s, order, 0) == chain;
    } else {
      var prev := TrainRepeated(chain, s, order, k - 1);
      TrainRepeatedIsWeighted(chain, s, order, k - 1);
      TrainPrefixKeys(prev, s, order, 1, n);
      TrainPrefixKeys(Trained(chain, s, order, k - 1), s, order, 1, n);
      TrainTwiceAdds(chain, s, order, k - 1, 1);
      forall ctx, c ensures Count(TrainRepeated(chain, s, order, k), ctx, c)
                         == Count(Trained(chain, s, order, k), ctx, c)
      {
        TrainedCount(prev, s, order, 1, ctx, c);
        TrainedCount(Trained(chain, s, order, k - 1), s, order, 1, ctx, c);
      }
    }
  }
}
