/**
 The normalising stage: per-context probabilities derived from the counts,
 the prior (a hundredth of the smallest probability) and the sorted alphabet.
 */
module Normalize {
  import opened Chain

  /** The normalised table: context -> row of (next letter, probability). */
  type Normed = map<string, Row<real>>

  /** Each weight divided by `total`, in the row's own order. */
  function NormalizeRow(row: Row<int>, total: real): Row<real>
    requires row != [] ==> total != 0.0
  {
    seq(|row|, i requires 0 <= i < |row| => (row[i].0, row[i].1 as real / total))
  }

  /**
   Divides every context's counts by that context's total (normalize_transition_matrix).
   A row whose total is zero would divide by zero; the requires excludes exactly that.
   */
  function NormalizeTransitionMatrix(m: Counts): (r: Normed)
    requires forall ctx :: ctx in m ==> m[ctx] == [] || RowTotal(m[ctx]) != 0
    ensures r.Keys == m.Keys
    ensures forall ctx :: ctx in r ==> Letters(r[ctx]) == Letters(m[ctx])
  {
    map ctx | ctx in m :: NormalizeRow(m[ctx], RowTotal(m[ctx]) as real)
  }

  function ProbSum(row: Row<real>): real
  {
    if row == [] then 0.0 else row[0].1 + ProbSum(row[1..])
  }

  /** A probability distribution over distinct next letters, every entry in (0, 1]. */
  ghost predicate IsDistribution(row: Row<real>)
  {
    && row != []
    && DistinctLetters(row)
    && ProbSum(row) == 1.0
    && forall i :: 0 <= i < |row| ==> 0.0 < row[i].1 <= 1.0
  }

  /** Every row of the table has at least one entry: the probabilities list is non-empty iff the table is. */
  ghost predicate RowsNonEmpty(normed: Normed)
  {
    forall ctx :: ctx in normed ==> normed[ctx] != []
  }

  /** `m` is one of the probabilities stored in the table and no stored probability is below it. */
  ghost predicate IsMinEntry(normed: Normed, m: real)
  {
    && (exists ctx, i :: ctx in normed && 0 <= i < |normed[ctx]| && normed[ctx][i].1 == m)
    && forall ctx, i :: ctx in normed && 0 <= i < |normed[ctx]| ==> m <= normed[ctx][i].1
  }

  /** The smallest probability of a non-empty row. */
  function RowMin(row: Row<real>): (m: real)
    requires row != []
    ensures exists i :: 0 <= i < |row| && row[i].1 == m
    ensures forall i :: 0 <= i < |row| ==> m <= row[i].1
  {
    if |row| == 1 then row[0].1
    else
      var rest := RowMin(row[1..]);
      assert forall i :: 1 <= i < |row| ==> row[i] == row[1..][i - 1];
      if row[0].1 <= rest then row[0].1 else rest
  }

  /** min() of every probability stored in the table. */
  ghost function MinProb(normed: Normed): (m: real)
    requires normed != map[] && RowsNonEmpty(normed)
    ensures IsMinEntry(normed, m)
  {
    MinExists(normed);
    var m :| IsMinEntry(normed, m);
    m
  }

  /** A non-empty table with non-empty rows has a smallest probability: the smaller of one row's minimum and the rest's. */
  lemma MinExists(normed: Normed)
    requires normed != map[] && RowsNonEmpty(normed)
    ensures exists m :: IsMinEntry(normed, m)
    decreases normed.Keys
  {
    var ctx :| ctx in normed;
    var here := RowMin(normed[ctx]);
    if forall c :: c in normed ==> c == ctx {
      assert IsMinEntry(normed, here);
    } else {
      var other :| other in normed && other != ctx;
      var rest := normed - {ctx};
      assert other in rest;
      assert rest.Keys < normed.Keys;
      MinExists(rest);
      var there :| IsMinEntry(rest, there);
      assert forall c :: c in normed ==> c == ctx || c in rest;
      if here <= there {
        assert IsMinEntry(normed, here);
      } else {
        assert IsMinEntry(normed, there);
      }
    }
  }

  /** The prior: 0.01 times the smallest normalised probability. */
  ghost function PriorOf(normed: Normed): real
    requires normed != map[] && RowsNonEmpty(normed)
  {
    0.01 * MinProb(normed)
  }

  /** The minimum is unique: any stored value below every stored value is MinProb. */
  lemma MinEntryUnique(normed: Normed, m: real)
    requires normed != map[] && RowsNonEmpty(normed) && IsMinEntry(normed, m)
    ensures m == MinProb(normed)
  {
    var k := MinProb(normed);
    var c, i :| c in normed && 0 <= i < |normed[c]| && normed[c][i].1 == m;
    var d, j :| d in normed && 0 <= j < |normed[d]| && normed[d][j].1 == k;
    assert k <= normed[c][i].1;
    assert m <= normed[d][j].1;
  }

  ghost predicate Sorted(s: seq<char>)
  {
    forall i, j :: 0 <= i < j < |s| ==> s[i] <= s[j]
  }

  /** Inserts `c` before the first letter not below it. */
  function Insert(c: char, s: seq<char>): (r: seq<char>)
    ensures |r| == |s| + 1
  {
    if s == [] || c <= s[0] then [c] + s else [s[0]] + Insert(c, s[1..])
  }

  /** sorted() on the alphabet, by insertion. */
  function SortChars(s: seq<char>): (r: seq<char>)
    ensures |r| == |s|
  {
    if s == [] then [] else Insert(s[0], SortChars(s[1..]))
  }

  /** Inserting into a sorted sequence keeps it sorted, adds exactly `c`, and adds no duplicate when `c` is new. */
  lemma {:induction false} InsertSpec(c: char, s: seq<char>)
    requires Sorted(s)
    ensures Sorted(Insert(c, s))
    ensures multiset(Insert(c, s)) == multiset(s) + multiset{c}
    ensures NoDup(s) && c !in s ==> NoDup(Insert(c, s))
  {
    if s != [] && s[0] < c {
      assert Sorted(s[1..]);
      if NoDup(s) {
        assert NoDup(s[1..]) by {
          forall i, j | 0 <= i < j < |s[1..]| ensures s[1..][i] != s[1..][j] {
            assert s[1..][i] == s[i + 1] && s[1..][j] == s[j + 1];
          }
        }
      }
      if c !in s {
        assert c !in s[1..];
      }
      InsertSpec(c, s[1..]);
      InsertHead(s, Insert(c, s[1..]), c);
    }
  }

  lemma InsertHead(s: seq<char>, tail: seq<char>, c: char)
    requires s != [] && Sorted(s) && s[0] < c && Sorted(tail)
    requires multiset(tail) == multiset(s[1..]) + multiset{c}
    requires NoDup(s) && c !in s ==> NoDup(tail)
    ensures Sorted([s[0]] + tail)
    ensures multiset([s[0]] + tail) == multiset(s) + multiset{c}
    ensures NoDup(s) && c !in s ==> NoDup([s[0]] + tail)
  {
    assert s == [s[0]] + s[1..];
    forall j | 0 <= j < |tail| ensures s[0] <= tail[j] && (NoDup(s) ==> s[0] != tail[j]) {
      assert tail[j] in multiset(tail);
      if tail[j] != c {
        assert tail[j] in s[1..];
        var k :| 0 <= k < |s[1..]| && s[1..][k] == tail[j];
        assert s[k + 1] == tail[j];
      }
    }
  }

  /** sorted() gives the same letters, each as often, in ascending order; without duplicates in, none out. */
  lemma {:induction false} SortCharsSpec(s: seq<char>)
    ensures Sorted(SortChars(s))
    ensures multiset(SortChars(s)) == multiset(s)
    ensures NoDup(s) ==> NoDup(SortChars(s))
  {
    if s != [] {
      var rest := SortChars(s[1..]);
      SortCharsSpec(s[1..]);
      HeadNotInRest(s, rest);
      InsertSpec(s[0], rest);
    }
  }

  lemma HeadNotInRest(s: seq<char>, rest: seq<char>)
    requires s != [] && multiset(rest) == multiset(s[1..])
    ensures multiset(s) == multiset(rest) + multiset{s[0]}
    ensures NoDup(s) ==> NoDup(s[1..]) && s[0] !in rest
  {
    assert s == [s[0]] + s[1..];
    if NoDup(s) {
      forall k | 0 <= k < |s[1..]| ensures s[1..][k] != s[0] {
        assert s[1..][k] == s[k + 1];
      }
      assert s[0] !in multiset(rest);
    }
  }

  // ---------------------------------------------------------------------------

  lemma {:induction false} ProbSumNormalizeRow(row: Row<int>, total: real)
    requires total != 0.0
    ensures ProbSum(NormalizeRow(row, total)) == RowTotal(row) as real / total
  {
    if row != [] {
      var n := NormalizeRow(row, total);
      assert n[1..] == NormalizeRow(row[1..], total);
      ProbSumNormalizeRow(row[1..], total);
      var a, b := row[0].1 as real, RowTotal(row[1..]) as real;
      assert (a + b) / total == a / total + b / total;
    }
  }

  /** In a positive row, every weight is positive and at most the row's total. */
  lemma {:induction false} WeightWithinTotal(row: Row<int>, i: nat)
    requires PositiveRow(row) && i < |row|
    ensures 0 < row[i].1 <= RowTotal(row)
  {
    assert PositiveRow(row[1..]) by {
      forall j | 0 <= j < |row[1..]| ensures row[1..][j].1 > 0 {
        assert row[1..][j] == row[j + 1];
      }
    }
    if i > 0 {
      WeightWithinTotal(row[1..], i - 1);
    } else if |row| > 1 {
      WeightWithinTotal(row[1..], 0);
    }
  }

  lemma FractionInUnit(a: real, t: real)
    requires 0.0 < a <= t
    ensures 0.0 < a / t <= 1.0
  {
    var q := a / t;
    assert q * t == a;
    if q > 1.0 {
      PositiveProduct(q - 1.0, t);
    }
  }

  lemma PositiveProduct(x: real, y: real)
    requires x > 0.0 && y > 0.0
    ensures x * y > 0.0
  {
  }

  /** A non-empty, positive, duplicate-free row of counts normalises to a distribution. */
  lemma NormalizeRowIsDistribution(row: Row<int>)
    requires row != [] && DistinctLetters(row) && PositiveRow(row)
    ensures RowTotal(row) > 0
    ensures IsDistribution(NormalizeRow(row, RowTotal(row) as real))
  {
    WeightWithinTotal(row, 0);
    var total := RowTotal(row) as real;
    var r := NormalizeRow(row, total);
    ProbSumNormalizeRow(row, total);
    forall i | 0 <= i < |r| ensures 0.0 < r[i].1 <= 1.0 {
      WeightWithinTotal(row, i);
      FractionInUnit(row[i].1 as real, total);
    }
    assert DistinctLetters(r) by {
      forall i, j | 0 <= i < j < |r| ensures r[i].0 != r[j].0 {
        assert r[i].0 == row[i].0 && r[j].0 == row[j].0;
      }
    }
  }

  /**
   Normalising a well-formed table keeps its contexts and next letters, and makes
   each context's row a distribution whose entries are count / total.
   */
  lemma NormalizedRowsAreDistributions(m: Counts, order: nat)
    requires WellFormed(m, order)
    ensures var r := NormalizeTransitionMatrix(m);
      forall ctx :: ctx in r ==>
        && |ctx| == order
        && IsDistribution(r[ctx])
        && |r[ctx]| == |m[ctx]|
        && forall i :: 0 <= i < |r[ctx]| ==>
             r[ctx][i] == (m[ctx][i].0, m[ctx][i].1 as real / RowTotal(m[ctx]) as real)
  {
    var r: Normed := NormalizeTransitionMatrix(m);
    forall ctx | ctx in r
      ensures IsDistribution(r[ctx])
    {
      NormalizeRowIsDistribution(m[ctx]);
    }
  }

  /**
   The prior of a normalised non-empty table is positive, at most 0.01, and every stored
   probability is at least 100 times it.
   */
  lemma PriorBounds(m: Counts, order: nat)
    requires WellFormed(m, order) && m != map[]
    ensures var r := NormalizeTransitionMatrix(m);
      && r != map[] && RowsNonEmpty(r)
      && 0.0 < PriorOf(r) <= 0.01
      && forall ctx, i :: ctx in r && 0 <= i < |r[ctx]| ==> r[ctx][i].1 >= 100.0 * PriorOf(r)
  {
    var r: Normed := NormalizeTransitionMatrix(m);
    NormalizedRowsAreDistributions(m, order);
    var low := MinProb(r);
    var c, i :| c in r && 0 <= i < |r[c]| && r[c][i].1 == low;
    assert 0.0 < low <= 1.0;
  }
}
