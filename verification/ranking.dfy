/** Ranking one row of the similarity matrix: pair every column with its
    score, then sort the pairs by score, highest first, keeping equal scores
    in their original order (a stable sort in descending order). */
module Ranking {

  /** A column of the similarity row and its score. */
  datatype Scored = Scored(index: nat, score: real)

  /** The row's columns paired with their indices, in column order. */
  function Enumerate(row: seq<real>): seq<Scored> {
    seq(|row|, i requires 0 <= i < |row| => Scored(i, row[i]))
  }

  ghost predicate SortedDesc(s: seq<Scored>) {
    forall i, j | 0 <= i < j < |s| :: s[i].score >= s[j].score
  }

  /** The entries of `s` whose score is `v`, in the order they occur in `s`. */
  function WithScore(s: seq<Scored>, v: real): seq<Scored> {
    if |s| == 0 then []
    else (if s[0].score == v then [s[0]] else []) + WithScore(s[1..], v)
  }

  /** Insert `x` into a descending sequence, ahead of every entry whose score
      is not higher than its own. */
  function Insert(x: Scored, s: seq<Scored>): (r: seq<Scored>)
    requires SortedDesc(s)
    ensures SortedDesc(r)
    ensures multiset(r) == multiset(s) + multiset{x}
    ensures |r| == |s| + 1
    ensures r[0] == x || (|s| > 0 && r[0] == s[0])
  {
    if |s| == 0 || x.score >= s[0].score then
      ConsSorted(x, s);
      [x] + s
    else
      assert s == [s[0]] + s[1..];
      var t := Insert(x, s[1..]);
      ConsSorted(s[0], t);
      [s[0]] + t
  }

  /** An entry scoring at least the head of a descending sequence can be
      put in front of it. */
  lemma ConsSorted(a: Scored, t: seq<Scored>)
    requires SortedDesc(t)
    requires |t| > 0 ==> a.score >= t[0].score
    ensures SortedDesc([a] + t)
  {
    var r := [a] + t;
    forall i, j | 0 <= i < j < |r|
      ensures r[i].score >= r[j].score
    {
      if i == 0 {
        assert r[j] == t[j - 1];
      } else {
        assert r[i] == t[i - 1] && r[j] == t[j - 1];
      }
    }
  }

  /** An entry ranking ahead of every entry of a ranked sequence can be put
      in front of it. */
  lemma ConsRanked(a: Scored, t: seq<Scored>)
    requires Ranked(t)
    requires forall e | e in t :: Precedes(a, e)
    ensures Ranked([a] + t)
  {
    var r := [a] + t;
    forall i, j | 0 <= i < j < |r|
      ensures Precedes(r[i], r[j])
    {
      if i == 0 {
        assert r[j] == t[j - 1];
      } else {
        assert r[i] == t[i - 1] && r[j] == t[j - 1];
      }
    }
  }

  /** Stable sort by descending score. */
  function SortDesc(ps: seq<Scored>): (r: seq<Scored>)
    ensures SortedDesc(r)
    ensures multiset(r) == multiset(ps)
  {
    if |ps| == 0 then []
    else
      assert ps == [ps[0]] + ps[1..];
      Insert(ps[0], SortDesc(ps[1..]))
  }

  lemma {:induction false} WithScoreAppend(a: seq<Scored>, b: seq<Scored>, v: real)
    ensures WithScore(a + b, v) == WithScore(a, v) + WithScore(b, v)
    decreases |a|
  {
    if |a| == 0 {
      assert a + b == b;
    } else {
      var ab := a + b;
      var head := if a[0].score == v then [a[0]] else [];
      assert ab[0] == a[0];
      assert ab[1..] == a[1..] + b;
      WithScoreAppend(a[1..], b, v);
      assert WithScore(ab, v) == head + WithScore(a[1..] + b, v);
      assert WithScore(a, v) == head + WithScore(a[1..], v);
    }
  }

  lemma WithScoreSingle(e: Scored, v: real)
    ensures WithScore([e], v) == if e.score == v then [e] else []
  {
    assert [e][1..] == [];
  }

  /** Entries with different scores can trade places without changing any
      per-score subsequence. */
  lemma WithScoreSwap(a: Scored, x: Scored, t: seq<Scored>, v: real)
    requires a.score != x.score
    ensures WithScore([a], v) + (WithScore([x], v) + WithScore(t, v))
         == WithScore([x], v) + WithScore([a] + t, v)
  {
    WithScoreSingle(a, v);
    WithScoreSingle(x, v);
    WithScoreAppend([a], t, v);
  }

  lemma {:induction false} InsertStable(x: Scored, s: seq<Scored>, v: real)
    requires SortedDesc(s)
    ensures WithScore(Insert(x, s), v) == WithScore([x], v) + WithScore(s, v)
    decreases |s|
  {
    if |s| == 0 || x.score >= s[0].score {
      WithScoreAppend([x], s, v);
    } else {
      var rest := Insert(x, s[1..]);
      InsertStable(x, s[1..], v);
      WithScoreAppend([s[0]], rest, v);
      WithScoreSwap(s[0], x, s[1..], v);
      assert s == [s[0]] + s[1..];
    }
  }

  /** The sort is stable: for every score, the entries with that score come
      out in the order they went in. */
  lemma {:induction false} SortStable(ps: seq<Scored>)
    ensures forall v :: WithScore(SortDesc(ps), v) == WithScore(ps, v)
    decreases |ps|
  {
    forall v
      ensures WithScore(SortDesc(ps), v) == WithScore(ps, v)
    {
      if |ps| > 0 {
        SortStable(ps[1..]);
        InsertStable(ps[0], SortDesc(ps[1..]), v);
        WithScoreAppend([ps[0]], ps[1..], v);
        assert ps == [ps[0]] + ps[1..];
      }
    }
  }

  /** `a` ranks ahead of `b`: a higher score, or an equal score and a lower
      column index. */
  predicate Precedes(a: Scored, b: Scored) {
    a.score > b.score || (a.score == b.score && a.index < b.index)
  }

  /** Strictly ordered by `Precedes`: descending score, ties by ascending
      index, no column twice. */
  ghost predicate Ranked(s: seq<Scored>) {
    forall i, j | 0 <= i < j < |s| :: Precedes(s[i], s[j])
  }

  /** No column occurs twice. */
  ghost predicate DistinctColumns(s: seq<Scored>) {
    forall i, j | 0 <= i < j < |s| :: s[i].index != s[j].index
  }

  ghost predicate IndexAscending(s: seq<Scored>) {
    forall i, j | 0 <= i < j < |s| :: s[i].index < s[j].index
  }

  lemma {:induction false} InsertRanked(x: Scored, s: seq<Scored>)
    requires Ranked(s)
    requires forall e | e in s :: x.index < e.index
    ensures Ranked(Insert(x, s))
    decreases |s|
  {
    if |s| == 0 || x.score >= s[0].score {
      forall e | e in s
        ensures Precedes(x, e)
      {
        var q :| 0 <= q < |s| && s[q] == e;
        assert q == 0 || Precedes(s[0], s[q]);
      }
      ConsRanked(x, s);
    } else {
      InsertRanked(x, s[1..]);
      var t := Insert(x, s[1..]);
      forall e | e in t
        ensures Precedes(s[0], e)
      {
        assert e in multiset(t);
        if e != x {
          var q :| 0 <= q < |s[1..]| && s[1..][q] == e;
          assert s[q + 1] == e;
        }
      }
      ConsRanked(s[0], t);
    }
  }

  /** Sorting entries listed in column order gives the ranked order: among
      equal scores, the lower column comes first. */
  lemma {:induction false} SortRanked(ps: seq<Scored>)
    requires IndexAscending(ps)
    ensures Ranked(SortDesc(ps))
    decreases |ps|
  {
    if |ps| > 0 {
      var tail := ps[1..];
      SortRanked(tail);
      forall e | e in SortDesc(tail)
        ensures ps[0].index < e.index
      {
        assert e in multiset(SortDesc(tail));
      }
      InsertRanked(ps[0], SortDesc(tail));
    }
  }

  /** Column `k` ranks ahead of column `j` in `row`. */
  predicate Ahead(row: seq<real>, k: nat, j: nat)
    requires k < |row| && j < |row|
  {
    Precedes(Scored(k, row[k]), Scored(j, row[j]))
  }

  /** The number of columns ranked ahead of column `j`: where `j` belongs in
      the ranked order, defined without sorting. */
  function Rank(row: seq<real>, j: nat): nat
    requires j < |row|
  {
    |set k: nat | k < |row| && Ahead(row, k, j)|
  }

  /** The sorted row is the ranked enumeration of the row: as long as the
      row, every entry a genuine (column, score) pair, every column present. */
  lemma SortedRow(row: seq<real>, s: seq<Scored>)
    requires s == SortDesc(Enumerate(row))
    ensures |s| == |row|
    ensures Ranked(s)
    ensures DistinctColumns(s)
    ensures forall p | 0 <= p < |s| :: s[p].index < |row| && s[p].score == row[s[p].index]
    ensures forall j | 0 <= j < |row| :: Scored(j, row[j]) in s
  {
    SortRanked(Enumerate(row));
    PermutedRow(row, Enumerate(row), s);
    forall i, j | 0 <= i < j < |s|
      ensures s[i].index != s[j].index
    {
      assert Precedes(s[i], s[j]);
    }
  }

  /** A permutation of a row's enumeration holds exactly its entries. */
  lemma PermutedRow(row: seq<real>, e: seq<Scored>, s: seq<Scored>)
    requires e == Enumerate(row)
    requires multiset(s) == multiset(e)
    ensures |s| == |row|
    ensures forall p | 0 <= p < |s| :: s[p].index < |row| && s[p].score == row[s[p].index]
    ensures forall j | 0 <= j < |row| :: Scored(j, row[j]) in s
  {
    assert |multiset(s)| == |multiset(e)|;
    forall p | 0 <= p < |s|
      ensures s[p].index < |row| && s[p].score == row[s[p].index]
    {
      assert s[p] in multiset(e);
    }
    forall j | 0 <= j < |row|
      ensures Scored(j, row[j]) in s
    {
      assert e[j] in multiset(s);
    }
  }

  /** The columns in the first `p` places of a ranked sequence are `p`
      different columns. */
  lemma {:induction false} PrefixColumns(s: seq<Scored>, p: nat)
    requires DistinctColumns(s)
    requires p <= |s|
    ensures |set q | 0 <= q < p :: s[q].index| == p
  {
    if p > 0 {
      PrefixColumns(s, p - 1);
      var before := set q | 0 <= q < p - 1 :: s[q].index;
      assert s[p - 1].index !in before;
      assert (set q | 0 <= q < p :: s[q].index) == before + {s[p - 1].index};
    }
  }

  /** Sorting puts every column exactly at its rank. */
  lemma RankIsPosition(row: seq<real>, p: nat)
    requires p < |row|
    ensures var s := SortDesc(Enumerate(row));
      |s| == |row| && s[p].index < |row| && Rank(row, s[p].index) == p
  {
    var s := SortDesc(Enumerate(row));
    SortedRow(row, s);
    AheadArePlacedBefore(row, s, p);
    PrefixColumns(s, p);
  }

  /** The columns ranked ahead of the column in place `p` are exactly the
      columns in the places before `p`. */
  lemma AheadArePlacedBefore(row: seq<real>, s: seq<Scored>, p: nat)
    requires s == SortDesc(Enumerate(row))
    requires p < |row|
    ensures p < |s| && s[p].index < |row|
    ensures (set k: nat | k < |row| && Ahead(row, k, s[p].index)) == (set q | 0 <= q < p :: s[q].index)
  {
    SortedRow(row, s);
    var j := s[p].index;
    var ahead := set k: nat | k < |row| && Ahead(row, k, j);
    var placed := set q | 0 <= q < p :: s[q].index;
    forall k | k in placed
      ensures k in ahead
    {
      BeforeInSortIsAhead(row, s, p, k);
    }
    forall k: nat | k in ahead
      ensures k in placed
    {
      AheadIsBeforeInSort(row, k, j, p);
    }
  }

  /** A column in an earlier place than place `p` ranks ahead of it. */
  lemma BeforeInSortIsAhead(row: seq<real>, s: seq<Scored>, p: nat, k: nat)
    requires s == SortDesc(Enumerate(row))
    requires p < |s| == |row|
    requires k in set q | 0 <= q < p :: s[q].index
    ensures s[p].index < |row| && k < |row|
    ensures Ahead(row, k, s[p].index)
  {
    SortedRow(row, s);
    var q :| 0 <= q < p && s[q].index == k;
    assert Precedes(s[q], s[p]);
  }

  /** Every column sits in the sorted row at the place given by its rank. */
  lemma PlaceOf(row: seq<real>, j: nat) returns (p: nat)
    requires j < |row|
    ensures p < |row| == |SortDesc(Enumerate(row))|
    ensures SortDesc(Enumerate(row))[p] == Scored(j, row[j])
    ensures Rank(row, j) == p
  {
    var s := SortDesc(Enumerate(row));
    SortedRow(row, s);
    p :| 0 <= p < |s| && s[p] == Scored(j, row[j]);
    RankIsPosition(row, p);
  }

  /** The column of rank `p`: the one column with exactly `p` columns ranked
      ahead of it. */
  function ColumnOfRank(row: seq<real>, p: nat): (j: nat)
    requires p < |row|
    ensures j < |row| && Rank(row, j) == p
    ensures forall k | 0 <= k < |row| && Rank(row, k) == p :: k == j
  {
    RankIsPosition(row, p);
    OneColumnPerRank(row, p);
    SortDesc(Enumerate(row))[p].index
  }

  /** Only the column in place `p` has rank `p`. */
  lemma OneColumnPerRank(row: seq<real>, p: nat)
    requires p < |row|
    ensures |SortDesc(Enumerate(row))| == |row|
    ensures forall k | 0 <= k < |row| && Rank(row, k) == p :: k == SortDesc(Enumerate(row))[p].index
  {
    SortedRow(row, SortDesc(Enumerate(row)));
    forall k | 0 <= k < |row| && Rank(row, k) == p
      ensures k == SortDesc(Enumerate(row))[p].index
    {
      var q := PlaceOf(row, k);
    }
  }

  /** A column ranked ahead of the column in place `p` sits in an earlier
      place. */
  lemma AheadIsBeforeInSort(row: seq<real>, k: nat, j: nat, p: nat)
    requires k < |row| && j < |row|
    requires p < |SortDesc(Enumerate(row))|
    requires SortDesc(Enumerate(row))[p] == Scored(j, row[j])
    requires Ahead(row, k, j)
    ensures exists q | 0 <= q < p :: SortDesc(Enumerate(row))[q].index == k
  {
    var s := SortDesc(Enumerate(row));
    SortedRow(row, s);
    var q :| 0 <= q < |s| && s[q] == Scored(k, row[k]);
    if q >= p {
      assert false;
    }
  }

  /** A prefix of a ranked sequence is closed upwards: whatever in the
      sequence ranks ahead of a member of the prefix is in the prefix too. */
  lemma RankedPrefixClosed(w: seq<Scored>, m: nat, x: Scored, a: nat)
    requires Ranked(w)
    requires a < m <= |w|
    requires x in w && Precedes(x, w[a])
    ensures x in w[..m]
  {
    var q :| 0 <= q < |w| && w[q] == x;
    if q >= m {
      assert false;
    }
    assert w[..m][q] == x;
  }
}
