/** The query handler: resolve a query case-insensitively to a catalog
    position, rank that position's similarity row, skip the first ranked
    entry and return the titles of the next `topN`. */
module Recommender {
  import opened Wrappers
  import opened CaseFold
  import opened NameIndex
  import opened Ranking

  /** One catalog entry. The description only feeds the similarity matrix. */
  datatype Movie = Movie(title: string, description: string)

  /** The catalog and its precomputed similarity matrix, row and column `i`
      standing for `movies[i]`. */
  datatype Catalog = Catalog(movies: seq<Movie>, similarity: seq<seq<real>>)

  /** The matrix is square, one row and one column per movie. */
  ghost predicate WellFormed(c: Catalog) {
    && |c.similarity| == |c.movies|
    && forall i | 0 <= i < |c.similarity| :: |c.similarity[i]| == |c.movies|
  }

  ghost predicate DistinctTitles(titles: seq<string>) {
    forall i, j | 0 <= i < j < |titles| :: titles[i] != titles[j]
  }

  /** The number of recommendations the interactive shell asks for. */
  const DefaultTopN: nat := 3

  function Min(a: int, b: int): int {
    if a <= b then a else b
  }

  /** The catalog's titles in catalog order. */
  function Titles(movies: seq<Movie>): seq<string> {
    seq(|movies|, i requires 0 <= i < |movies| => movies[i].title)
  }

  /** Python's slice `s[lo:hi]` for non-negative bounds: both bounds are
      clamped to the length, and an empty slice results when they cross. */
  function Slice<T>(s: seq<T>, lo: nat, hi: nat): (r: seq<T>)
    ensures lo <= hi && hi <= |s| ==> r == s[lo..hi]
    ensures lo <= |s| && |s| <= hi ==> r == s[lo..]
    ensures |s| <= lo ==> r == []
  {
    var a := Min(lo, |s|);
    var b := Min(hi, |s|);
    if a <= b then s[a..b] else []
  }

  /** Resolve a query to a catalog position: fold it, look the folded form
      up in the lower-case map, and take the first position of the title
      found there. */
  function Resolve(titles: seq<string>, query: string): (r: Option<nat>)
    ensures r.None? <==> forall t | t in titles :: LowerStr(t) != LowerStr(query)
    ensures r.Some? ==> r.value < |titles| && LowerStr(titles[r.value]) == LowerStr(query)
  {
    var m := LowerNameMap(titles);
    var key := LowerStr(query);
    if key !in m then None else Some(IndexOf(titles, m[key]))
  }

  /** With distinct folded titles a query resolves to the one position whose
      title folds like the query. */
  lemma ResolveUnique(titles: seq<string>, query: string, j: nat)
    requires DistinctFolded(titles)
    requires j < |titles| && LowerStr(titles[j]) == LowerStr(query)
    ensures Resolve(titles, query) == Some(j)
  {
    LowerNameMapInverse(titles, j);
  }

  /** The columns recommended from one similarity row: rank the row, drop
      the first ranked entry, keep the next `topN`. */
  function RankedPicks(row: seq<real>, topN: nat): (r: seq<nat>)
    ensures |r| == if |row| == 0 then 0 else Min(topN, |row| - 1)
    ensures forall k | 0 <= k < |r| :: r[k] < |row|
    ensures forall a, b | 0 <= a < b < |r| :: row[r[a]] >= row[r[b]]
    ensures forall a, b | 0 <= a < b < |r| && row[r[a]] == row[r[b]] :: r[a] < r[b]
    ensures forall a, b | 0 <= a < b < |r| :: r[a] != r[b]
  {
    var kept := Slice(SortDesc(Enumerate(row)), 1, topN + 1);
    KeptEntries(row, kept, topN);
    ColumnsInRankedOrder(row, kept);
    Columns(kept)
  }

  /** The columns of a run of entries, in order. */
  function Columns(run: seq<Scored>): seq<nat> {
    seq(|run|, k requires 0 <= k < |run| => run[k].index)
  }

  /** Every entry of `run` is a column of `row` with its score there. */
  ghost predicate EntriesOf(row: seq<real>, run: seq<Scored>) {
    forall k | 0 <= k < |run| :: run[k].index < |row| && run[k].score == row[run[k].index]
  }

  /** The columns of a ranked run of genuine entries come in non-increasing
      score order, equal scores by ascending column, no column twice. */
  lemma ColumnsInRankedOrder(row: seq<real>, run: seq<Scored>)
    requires Ranked(run) && EntriesOf(row, run)
    ensures var r := Columns(run);
      && |r| == |run|
      && (forall k | 0 <= k < |r| :: r[k] < |row|)
      && (forall a, b | 0 <= a < b < |r| :: row[r[a]] >= row[r[b]])
      && (forall a, b | 0 <= a < b < |r| && row[r[a]] == row[r[b]] :: r[a] < r[b])
      && (forall a, b | 0 <= a < b < |r| :: r[a] != r[b])
  {
    var r := Columns(run);
    forall a, b | 0 <= a < b < |r|
      ensures row[r[a]] > row[r[b]] || (row[r[a]] == row[r[b]] && r[a] < r[b])
    {
      assert Precedes(run[a], run[b]);
    }
  }

  /** What survives the slice is a ranked run of genuine (column, score)
      entries of the row, starting at the second place. */
  lemma KeptEntries(row: seq<real>, kept: seq<Scored>, topN: nat)
    requires kept == Slice(SortDesc(Enumerate(row)), 1, topN + 1)
    ensures |kept| == if |row| == 0 then 0 else Min(topN, |row| - 1)
    ensures Ranked(kept)
    ensures EntriesOf(row, kept)
    ensures kept == [] || kept == SortDesc(Enumerate(row))[1..|kept| + 1]
  {
    var s := SortDesc(Enumerate(row));
    SortedRow(row, s);
    SliceOfRankedRow(row, s, topN);
  }

  lemma SliceOfRankedRow(row: seq<real>, s: seq<Scored>, topN: nat)
    requires Ranked(s) && EntriesOf(row, s) && |s| == |row|
    ensures var kept := Slice(s, 1, topN + 1);
      && |kept| == (if |row| == 0 then 0 else Min(topN, |row| - 1))
      && Ranked(kept)
      && EntriesOf(row, kept)
      && (kept == [] || kept == s[1..|kept| + 1])
  {
    if |s| > 0 {
      var m := Min(topN + 1, |s|);
      assert Slice(s, 1, topN + 1) == s[1..m];
      RunOfRow(row, s, 1, m);
    }
  }

  /** A contiguous run of the ranked row keeps its order and its entries. */
  lemma RunOfRow(row: seq<real>, s: seq<Scored>, lo: nat, hi: nat)
    requires Ranked(s) && EntriesOf(row, s)
    requires lo <= hi <= |s|
    ensures Ranked(s[lo..hi])
    ensures EntriesOf(row, s[lo..hi])
  {
    var run := s[lo..hi];
    forall k | 0 <= k < |run|
      ensures run[k].index < |row| && run[k].score == row[run[k].index]
    {
      assert run[k] == s[lo + k];
    }
    forall a, b | 0 <= a < b < |run|
      ensures Precedes(run[a], run[b])
    {
      assert run[a] == s[lo + a] && run[b] == s[lo + b];
    }
  }

  /** The `k`-th pick is the entry in place `k + 1` of the sorted row: the
      first sorted entry is the one skipped. */
  lemma PickIsSortedEntry(row: seq<real>, topN: nat, k: nat)
    requires k < |RankedPicks(row, topN)|
    ensures k + 1 < |row| == |SortDesc(Enumerate(row))|
    ensures RankedPicks(row, topN)[k] == SortDesc(Enumerate(row))[k + 1].index
  {
    var s := SortDesc(Enumerate(row));
    var kept := Slice(s, 1, topN + 1);
    KeptEntries(row, kept, topN);
    SortedRow(row, s);
    assert kept[k] == s[k + 1];
  }

  /** The `k`-th pick is the column of rank `k + 1`. */
  lemma PickHasRank(row: seq<real>, topN: nat, k: nat)
    requires k < |RankedPicks(row, topN)|
    ensures RankedPicks(row, topN)[k] < |row|
    ensures Rank(row, RankedPicks(row, topN)[k]) == k + 1
  {
    PickIsSortedEntry(row, topN, k);
    RankIsPosition(row, k + 1);
  }

  /** A column is picked exactly when its rank is between 1 and `topN`: the
      column of rank 0 is always dropped, whichever column it is. */
  lemma PickedIffRank(row: seq<real>, topN: nat, j: nat)
    requires j < |row|
    ensures j in RankedPicks(row, topN) <==> 1 <= Rank(row, j) <= topN
  {
    if j in RankedPicks(row, topN) {
      PickedHasRankInRange(row, topN, j);
    }
    if 1 <= Rank(row, j) <= topN {
      RankInRangeIsPicked(row, topN, j);
    }
  }

  lemma PickedHasRankInRange(row: seq<real>, topN: nat, j: nat)
    requires j < |row|
    requires j in RankedPicks(row, topN)
    ensures 1 <= Rank(row, j) <= topN
  {
    var r := RankedPicks(row, topN);
    var k :| 0 <= k < |r| && r[k] == j;
    PickHasRank(row, topN, k);
  }

  lemma RankInRangeIsPicked(row: seq<real>, topN: nat, j: nat)
    requires j < |row|
    requires 1 <= Rank(row, j) <= topN
    ensures j in RankedPicks(row, topN)
  {
    var p := PlaceOf(row, j);
    var r := RankedPicks(row, topN);
    assert |r| == Min(topN, |row| - 1);
    assert p - 1 < |r|;
    PickIsSortedEntry(row, topN, p - 1);
    assert r[p - 1] == j;
  }

  /** A column whose score is strictly the highest in its row has rank 0. */
  lemma StrictTopHasRankZero(row: seq<real>, i: nat)
    requires i < |row|
    requires forall k | 0 <= k < |row| && k != i :: row[k] < row[i]
    ensures Rank(row, i) == 0
  {
    var ahead := set k: nat | k < |row| && Ahead(row, k, i);
    assert ahead == {};
  }

  /** The recommendation for a query: `None` when no title folds like the
      query, otherwise the titles, in stored casing, of the ranked picks of
      the resolved movie's similarity row. */
  function Recommend(c: Catalog, query: string, topN: nat): (r: Option<seq<string>>)
    requires WellFormed(c)
    ensures r.None? <==> forall t | t in Titles(c.movies) :: LowerStr(t) != LowerStr(query)
    ensures r.Some? ==> |r.value| == Min(topN, |c.movies| - 1)
    ensures r.Some? ==> forall name | name in r.value :: name in Titles(c.movies)
  {
    var titles := Titles(c.movies);
    match Resolve(titles, query)
    case None => None
    case Some(i) =>
      var picks := RankedPicks(c.similarity[i], topN);
      Some(seq(|picks|, k requires 0 <= k < |picks| => titles[picks[k]]))
  }

  /** A found query returns, in order, the titles of the ranked picks of the
      row of the position it resolves to. */
  lemma FoundNames(c: Catalog, query: string, topN: nat, i: nat)
    requires WellFormed(c)
    requires Resolve(Titles(c.movies), query) == Some(i)
    ensures i < |c.movies|
    ensures Recommend(c, query, topN).Some?
    ensures var names := Recommend(c, query, topN).value;
      var picks := RankedPicks(c.similarity[i], topN);
      |names| == |picks| && forall k | 0 <= k < |names| :: names[k] == c.movies[picks[k]].title
  {
  }

  /** A found query's `k`-th name is the title of the column of rank `k + 1`
      in the resolved movie's row, and every column of rank 1 to `topN` is
      named: the answer is read off the sort-free ranking. */
  lemma RecommendByRank(c: Catalog, query: string, topN: nat, i: nat)
    requires WellFormed(c)
    requires Resolve(Titles(c.movies), query) == Some(i)
    ensures i < |c.movies|
    ensures Recommend(c, query, topN).Some?
    ensures var names := Recommend(c, query, topN).value;
      forall k | 0 <= k < |names| :: names[k] == Titles(c.movies)[ColumnOfRank(c.similarity[i], k + 1)]
    ensures var names := Recommend(c, query, topN).value;
      forall j | 0 <= j < |c.movies| && 1 <= Rank(c.similarity[i], j) <= topN :: Titles(c.movies)[j] in names
  {
    var titles := Titles(c.movies);
    var picks := RankedPicks(c.similarity[i], topN);
    var names := seq(|picks|, k requires 0 <= k < |picks| => titles[picks[k]]);
    assert Recommend(c, query, topN) == Some(names);
    PickedTitlesByRank(titles, c.similarity[i], topN, names);
  }

  /** The titles of the ranked picks, read off the sort-free ranking. */
  lemma PickedTitlesByRank(titles: seq<string>, row: seq<real>, topN: nat, names: seq<string>)
    requires |titles| == |row|
    requires var picks := RankedPicks(row, topN);
      |names| == |picks| && forall k | 0 <= k < |names| :: names[k] == titles[picks[k]]
    ensures forall k | 0 <= k < |names| :: k + 1 < |row| && names[k] == titles[ColumnOfRank(row, k + 1)]
    ensures forall j | 0 <= j < |row| && 1 <= Rank(row, j) <= topN :: titles[j] in names
  {
    var picks := RankedPicks(row, topN);
    forall k | 0 <= k < |names|
      ensures k + 1 < |row| && names[k] == titles[ColumnOfRank(row, k + 1)]
    {
      PickHasRank(row, topN, k);
      assert picks[k] == ColumnOfRank(row, k + 1);
    }
    forall j | 0 <= j < |row| && 1 <= Rank(row, j) <= topN
      ensures titles[j] in names
    {
      PickedIffRank(row, topN, j);
      var k :| 0 <= k < |picks| && picks[k] == j;
      assert names[k] == titles[j];
    }
  }

  /** Queries that differ only in letter case get the same answer. */
  lemma RecommendCaseInsensitive(c: Catalog, q1: string, q2: string, topN: nat)
    requires WellFormed(c)
    requires EqualIgnoringCase(q1, q2)
    ensures Recommend(c, q1, topN) == Recommend(c, q2, topN)
  {
    EqualIgnoringCaseIffLowerEqual(q1, q2);
  }

  /** With distinct titles no title is recommended twice. */
  lemma RecommendNoDuplicates(c: Catalog, query: string, topN: nat, i: nat)
    requires WellFormed(c)
    requires DistinctTitles(Titles(c.movies))
    requires Resolve(Titles(c.movies), query) == Some(i)
    ensures Recommend(c, query, topN).Some?
    ensures var names := Recommend(c, query, topN).value;
      forall a, b | 0 <= a < b < |names| :: names[a] != names[b]
  {
    FoundNames(c, query, topN, i);
    var names := Recommend(c, query, topN).value;
    var picks := RankedPicks(c.similarity[i], topN);
    forall a, b | 0 <= a < b < |names|
      ensures names[a] != names[b]
    {
      assert picks[a] != picks[b];
      if picks[a] < picks[b] {
        assert Titles(c.movies)[picks[a]] != Titles(c.movies)[picks[b]];
      } else {
        assert Titles(c.movies)[picks[b]] != Titles(c.movies)[picks[a]];
      }
    }
  }

  /** When the queried movie's own score is strictly the highest in its row,
      it is the entry that gets skipped, so it is never recommended. */
  lemma RecommendExcludesStrictTop(c: Catalog, query: string, topN: nat, i: nat)
    requires WellFormed(c)
    requires Resolve(Titles(c.movies), query) == Some(i)
    requires forall k | 0 <= k < |c.movies| && k != i :: c.similarity[i][k] < c.similarity[i][i]
    ensures i !in RankedPicks(c.similarity[i], topN)
    ensures DistinctTitles(Titles(c.movies)) ==> c.movies[i].title !in Recommend(c, query, topN).value
  {
    var row := c.similarity[i];
    StrictTopHasRankZero(row, i);
    PickedIffRank(row, topN, i);
    FoundNames(c, query, topN, i);
    if DistinctTitles(Titles(c.movies)) {
      var names := Recommend(c, query, topN).value;
      var picks := RankedPicks(row, topN);
      forall k | 0 <= k < |names|
        ensures names[k] != c.movies[i].title
      {
        assert picks[k] != i;
        if picks[k] < i {
          assert Titles(c.movies)[picks[k]] != Titles(c.movies)[i];
        } else {
          assert Titles(c.movies)[i] != Titles(c.movies)[picks[k]];
        }
      }
    }
  }

  /** Without the strict-top hypothesis the queried movie can come back: it
      is returned whenever some other column ranks ahead of it and its rank
      is within `topN`. */
  lemma RecommendReturnsOutrankedQuery(c: Catalog, query: string, topN: nat, i: nat)
    requires WellFormed(c)
    requires Resolve(Titles(c.movies), query) == Some(i)
    requires 1 <= Rank(c.similarity[i], i) <= topN
    ensures Recommend(c, query, topN).Some?
    ensures c.movies[i].title in Recommend(c, query, topN).value
  {
    var row := c.similarity[i];
    PickedIffRank(row, topN, i);
    FoundNames(c, query, topN, i);
    var picks := RankedPicks(row, topN);
    var k :| 0 <= k < |picks| && picks[k] == i;
    assert Recommend(c, query, topN).value[k] == c.movies[i].title;
  }

  /** The entries of `s` for every column but `i`, in order. */
  function Without(s: seq<Scored>, i: nat): (r: seq<Scored>)
    ensures forall e | e in r :: e in s && e.index != i
  {
    if |s| == 0 then []
    else (if s[0].index == i then [] else [s[0]]) + Without(s[1..], i)
  }

  lemma {:induction false} WithoutRanked(s: seq<Scored>, i: nat)
    requires Ranked(s)
    ensures Ranked(Without(s, i))
    decreases |s|
  {
    if |s| > 0 {
      WithoutRanked(s[1..], i);
      var rest := Without(s[1..], i);
      forall e | e in rest
        ensures Precedes(s[0], e)
      {
        var q :| 0 <= q < |s[1..]| && s[1..][q] == e;
        assert s[q + 1] == e;
      }
    }
  }

  lemma {:induction false} WithoutAbsent(s: seq<Scored>, i: nat)
    requires forall e | e in s :: e.index != i
    ensures Without(s, i) == s
    decreases |s|
  {
    if |s| > 0 {
      WithoutAbsent(s[1..], i);
      assert s == [s[0]] + s[1..];
    }
  }

  /** Every entry for another column survives. */
  lemma {:induction false} WithoutKeeps(s: seq<Scored>, i: nat, e: Scored)
    requires e in s && e.index != i
    ensures e in Without(s, i)
    decreases |s|
  {
    if s[0] != e {
      assert e in s[1..];
      WithoutKeeps(s[1..], i, e);
    }
  }

  /** Dropping a column that occurs once shortens the sequence by one. */
  lemma {:induction false} WithoutOnce(s: seq<Scored>, i: nat, p: nat)
    requires DistinctColumns(s)
    requires p < |s| && s[p].index == i
    ensures |Without(s, i)| == |s| - 1
    decreases |s|
  {
    if p == 0 {
      forall e | e in s[1..]
        ensures e.index != i
      {
        var q :| 0 <= q < |s[1..]| && s[1..][q] == e;
        assert s[q + 1] == e;
      }
      WithoutAbsent(s[1..], i);
    } else {
      WithoutOnce(s[1..], i, p - 1);
    }
  }

  /** The columns recommended from row `i` when the queried column itself,
      rather than whichever column ranks first, is the one left out. */
  function RankedOthers(row: seq<real>, i: nat, topN: nat): (r: seq<nat>)
    requires i < |row|
    ensures |r| == Min(topN, |row| - 1)
    ensures i !in r
    ensures forall k | 0 <= k < |r| :: r[k] < |row|
    ensures forall a, b | 0 <= a < b < |r| :: row[r[a]] >= row[r[b]]
    ensures forall a, b | 0 <= a < b < |r| && row[r[a]] == row[r[b]] :: r[a] < r[b]
    ensures forall a, j | 0 <= a < |r| && 0 <= j < |row| && j != i && Ahead(row, j, r[a]) :: j in r
  {
    var kept := OthersRun(row, i, topN);
    ColumnsInRankedOrder(row, kept);
    var r := Columns(kept);
    assert forall k | 0 <= k < |kept| :: r[k] != i;
    forall a, j | 0 <= a < |r| && 0 <= j < |row| && j != i && Ahead(row, j, r[a])
      ensures j in r
    {
      var b :| 0 <= b < |kept| && kept[b] == Scored(j, row[j]);
      assert r[b] == j;
    }
    r
  }

  /** The ranked entries kept after leaving out column `i`: a ranked run of
      genuine entries of the row, none of them column `i`. */
  function OthersRun(row: seq<real>, i: nat, topN: nat): (kept: seq<Scored>)
    requires i < |row|
    ensures |kept| == Min(topN, |row| - 1)
    ensures Ranked(kept)
    ensures EntriesOf(row, kept)
    ensures forall k | 0 <= k < |kept| :: kept[k].index != i
    ensures forall a, j | 0 <= a < |kept| && 0 <= j < |row| && j != i && Ahead(row, j, kept[a].index) ::
      Scored(j, row[j]) in kept
  {
    var s := SortDesc(Enumerate(row));
    var w := Without(s, i);
    OthersEntries(row, i, s, w);
    var m := Min(topN, |w|);
    RunOfRow(row, w, 0, m);
    OthersPrefixClosed(row, i, w, m);
    w[..m]
  }

  /** A prefix of the ranked other columns holds every other column ranked
      ahead of one of its entries. */
  lemma OthersPrefixClosed(row: seq<real>, i: nat, w: seq<Scored>, m: nat)
    requires m <= |w| && Ranked(w)
    requires forall k | 0 <= k < |w| :: w[k].index < |row| && w[k].score == row[w[k].index]
    requires forall j | 0 <= j < |row| && j != i :: Scored(j, row[j]) in w
    ensures forall a, j | 0 <= a < m && 0 <= j < |row| && j != i && Ahead(row, j, w[a].index) ::
      Scored(j, row[j]) in w[..m]
  {
    forall a, j | 0 <= a < m && 0 <= j < |row| && j != i && Ahead(row, j, w[a].index)
      ensures Scored(j, row[j]) in w[..m]
    {
      assert w[a] == Scored(w[a].index, row[w[a].index]);
      RankedPrefixClosed(w, m, Scored(j, row[j]), a);
    }
  }

  lemma OthersEntries(row: seq<real>, i: nat, s: seq<Scored>, w: seq<Scored>)
    requires i < |row|
    requires s == SortDesc(Enumerate(row)) && w == Without(s, i)
    ensures |w| == |row| - 1
    ensures Ranked(w)
    ensures forall k | 0 <= k < |w| :: w[k].index < |row| && w[k].index != i && w[k].score == row[w[k].index]
    ensures forall j | 0 <= j < |row| && j != i :: Scored(j, row[j]) in w
  {
    SortedRow(row, s);
    forall j | 0 <= j < |row| && j != i
      ensures Scored(j, row[j]) in w
    {
      WithoutKeeps(s, i, Scored(j, row[j]));
    }
    var p :| 0 <= p < |s| && s[p] == Scored(i, row[i]);
    WithoutOnce(s, i, p);
    WithoutRanked(s, i);
    forall k | 0 <= k < |w|
      ensures w[k].index < |row| && w[k].index != i && w[k].score == row[w[k].index]
    {
      assert w[k] in w;
    }
  }

  /** Leaving out the column that ranks first is dropping the first entry. */
  lemma WithoutHead(s: seq<Scored>, i: nat)
    requires DistinctColumns(s)
    requires |s| > 0 && s[0].index == i
    ensures Without(s, i) == s[1..]
  {
    forall e | e in s[1..]
      ensures e.index != i
    {
      var q :| 0 <= q < |s[1..]| && s[1..][q] == e;
      assert s[q + 1] == e;
    }
    WithoutAbsent(s[1..], i);
    assert s == [s[0]] + s[1..];
  }

  /** When the queried column ranks first, leaving out the first ranked
      entry and leaving out the queried column pick the same columns. */
  lemma OthersAgreeWhenRankZero(row: seq<real>, i: nat, topN: nat)
    requires i < |row|
    requires Rank(row, i) == 0
    ensures RankedOthers(row, i, topN) == RankedPicks(row, topN)
  {
    var s := SortDesc(Enumerate(row));
    RankZeroRunsAgree(row, i, topN, s);
    assert RankedOthers(row, i, topN) == Columns(OthersRun(row, i, topN));
  }

  lemma RankZeroRunsAgree(row: seq<real>, i: nat, topN: nat, s: seq<Scored>)
    requires i < |row|
    requires Rank(row, i) == 0
    requires s == SortDesc(Enumerate(row))
    ensures OthersRun(row, i, topN) == Slice(s, 1, topN + 1)
  {
    RankZeroRanksFirst(row, i, s);
    WithoutHead(s, i);
    SliceAfterFirst(s, topN);
    var w := Without(s, i);
    assert OthersRun(row, i, topN) == w[0..Min(topN, |w|)];
  }

  /** Skipping the first entry and keeping `topN` is taking `topN` of the
      rest. */
  lemma SliceAfterFirst<T>(s: seq<T>, topN: nat)
    requires |s| > 0
    ensures Slice(s, 1, topN + 1) == s[1..][0..Min(topN, |s| - 1)]
  {
  }

  /** The column of rank 0 is the first entry of the sorted row. */
  lemma RankZeroRanksFirst(row: seq<real>, i: nat, s: seq<Scored>)
    requires i < |row|
    requires Rank(row, i) == 0
    requires s == SortDesc(Enumerate(row))
    ensures |s| == |row| && s[0].index == i
    ensures DistinctColumns(s)
  {
    SortedRow(row, s);
    var p :| 0 <= p < |s| && s[p] == Scored(i, row[i]);
    RankIsPosition(row, p);
  }

  /** The recommendation with the queried movie left out explicitly. */
  function RecommendOthers(c: Catalog, query: string, topN: nat): (r: Option<seq<string>>)
    requires WellFormed(c)
    ensures r.None? <==> forall t | t in Titles(c.movies) :: LowerStr(t) != LowerStr(query)
    ensures r.Some? ==> |r.value| == Min(topN, |c.movies| - 1)
    ensures r.Some? && DistinctFolded(Titles(c.movies)) ==>
      forall name | name in r.value :: name in Titles(c.movies) && LowerStr(name) != LowerStr(query)
  {
    var titles := Titles(c.movies);
    match Resolve(titles, query)
    case None => None
    case Some(i) =>
      var picks := RankedOthers(c.similarity[i], i, topN);
      var names := seq(|picks|, k requires 0 <= k < |picks| => titles[picks[k]]);
      OthersFoldApart(titles, query, i, picks, names);
      Some(names)
  }

  lemma OthersFoldApart(titles: seq<string>, query: string, i: nat, picks: seq<nat>, names: seq<string>)
    requires i < |titles| && LowerStr(titles[i]) == LowerStr(query)
    requires i !in picks
    requires forall k | 0 <= k < |picks| :: picks[k] < |titles|
    requires |names| == |picks| && forall k | 0 <= k < |picks| :: names[k] == titles[picks[k]]
    ensures DistinctFolded(titles) ==>
      forall name | name in names :: name in titles && LowerStr(name) != LowerStr(query)
  {
    if DistinctFolded(titles) {
      forall name | name in names
        ensures name in titles && LowerStr(name) != LowerStr(query)
      {
        var k :| 0 <= k < |names| && names[k] == name;
        var j := picks[k];
        assert j != i;
        if j < i {
          assert LowerStr(titles[j]) != LowerStr(titles[i]);
        } else {
          assert LowerStr(titles[i]) != LowerStr(titles[j]);
        }
      }
    }
  }

  /** With distinct titles, the corrected names are closed upwards in the
      ranking: every movie other than the queried one that ranks ahead of a
      named movie is named too. With the length of the answer this makes the
      names those of the best-ranked other movies. */
  lemma RecommendOthersBestRanked(c: Catalog, query: string, topN: nat, i: nat)
    requires WellFormed(c)
    requires DistinctTitles(Titles(c.movies))
    requires Resolve(Titles(c.movies), query) == Some(i)
    ensures i < |c.movies|
    ensures RecommendOthers(c, query, topN).Some?
    ensures var names := RecommendOthers(c, query, topN).value;
      forall j, j2 | 0 <= j < |c.movies| && 0 <= j2 < |c.movies| && j2 != i &&
        c.movies[j].title in names && Ahead(c.similarity[i], j2, j) :: c.movies[j2].title in names
  {
    var picks := RankedOthers(c.similarity[i], i, topN);
    var names := RecommendOthers(c, query, topN).value;
    assert |names| == |picks| && forall k | 0 <= k < |names| :: names[k] == Titles(c.movies)[picks[k]];
    OthersTitlesClosed(Titles(c.movies), c.similarity[i], i, topN, names);
  }

  lemma OthersTitlesClosed(titles: seq<string>, row: seq<real>, i: nat, topN: nat, names: seq<string>)
    requires |titles| == |row| && i < |row|
    requires DistinctTitles(titles)
    requires var picks := RankedOthers(row, i, topN);
      |names| == |picks| && forall k | 0 <= k < |names| :: names[k] == titles[picks[k]]
    ensures forall j, j2 | 0 <= j < |row| && 0 <= j2 < |row| && j2 != i &&
      titles[j] in names && Ahead(row, j2, j) :: titles[j2] in names
  {
    var picks := RankedOthers(row, i, topN);
    forall j, j2 | 0 <= j < |row| && 0 <= j2 < |row| && j2 != i && titles[j] in names && Ahead(row, j2, j)
      ensures titles[j2] in names
    {
      var a :| 0 <= a < |names| && names[a] == titles[j];
      assert picks[a] == j;
      assert j2 in picks;
      var b :| 0 <= b < |picks| && picks[b] == j2;
      assert names[b] == titles[j2];
    }
  }

  /** When the queried movie's own score is strictly the highest in its row,
      the recommendation as written and the one that leaves the queried movie
      out explicitly coincide. */
  lemma RecommendOthersAgreesOnStrictTop(c: Catalog, query: string, topN: nat, i: nat)
    requires WellFormed(c)
    requires Resolve(Titles(c.movies), query) == Some(i)
    requires forall k | 0 <= k < |c.movies| && k != i :: c.similarity[i][k] < c.similarity[i][i]
    ensures RecommendOthers(c, query, topN) == Recommend(c, query, topN)
  {
    StrictTopHasRankZero(c.similarity[i], i);
    OthersAgreeWhenRankZero(c.similarity[i], i, topN);
  }
}
