/** Concrete catalogs: the six-movie catalog the shell ships with, and a
    two-movie catalog whose tied scores show the queried movie coming back. */
module Scenarios {
  import opened Wrappers
  import opened CaseFold
  import opened NameIndex
  import opened Ranking
  import opened Recommender

  function SixTitles(): seq<string> {
    ["Inception", "Interstellar", "The Dark Knight", "Shutter Island", "The Martian", "Gravity"]
  }

  /** The shipped catalog's six titles, each with its description. The
      descriptions only feed the similarity matrix, which is a parameter
      here, so they are a parameter too. */
  function SixMovies(descriptions: seq<string>): seq<Movie>
    requires |descriptions| == 6
  {
    seq(6, i requires 0 <= i < 6 => Movie(SixTitles()[i], descriptions[i]))
  }

  lemma SixTitlesInOrder(descriptions: seq<string>)
    requires |descriptions| == 6
    ensures Titles(SixMovies(descriptions)) == SixTitles()
  {
  }

  lemma SixTitlesFoldApart()
    ensures DistinctFolded(SixTitles())
  {
    var titles := SixTitles();
    assert |titles[0]| == 9 && |titles[1]| == 12 && |titles[2]| == 15;
    assert |titles[3]| == 14 && |titles[4]| == 11 && |titles[5]| == 7;
    DistinctLengthsFoldApart(titles);
  }

  lemma UnknownNotFolded()
    ensures forall t | t in SixTitles() :: LowerStr(t) != LowerStr("unknown movie")
  {
    forall t | t in SixTitles()
      ensures LowerStr(t) != LowerStr("unknown movie")
    {
      assert |LowerStr(t)| == |t| != 13 == |LowerStr("unknown movie")|;
    }
  }

  lemma InceptionFolds()
    ensures LowerStr("Inception") == LowerStr("inception")
    ensures EqualIgnoringCase("INCEPTION", "inception")
  {
    assert EqualIgnoringCase("Inception", "inception");
    EqualIgnoringCaseIffLowerEqual("Inception", "inception");
  }

  /** With any descriptions and any square similarity matrix for the six
      movies, a title that is
      not in the catalog is not found. */
  lemma SixMoviesUnknownNotFound(descriptions: seq<string>, sim: seq<seq<real>>)
    requires |descriptions| == 6
    requires WellFormed(Catalog(SixMovies(descriptions), sim))
    ensures Recommend(Catalog(SixMovies(descriptions), sim), "unknown movie", DefaultTopN) == None
  {
    SixTitlesInOrder(descriptions);
    UnknownNotFolded();
  }

  /** With any descriptions and any square similarity matrix for the six
      movies, "INCEPTION" and
      "inception" get the same answer: three recommendations. */
  lemma SixMoviesInceptionAnyCase(descriptions: seq<string>, sim: seq<seq<real>>)
    requires |descriptions| == 6
    requires WellFormed(Catalog(SixMovies(descriptions), sim))
    ensures Recommend(Catalog(SixMovies(descriptions), sim), "INCEPTION", DefaultTopN)
         == Recommend(Catalog(SixMovies(descriptions), sim), "inception", DefaultTopN)
    ensures Recommend(Catalog(SixMovies(descriptions), sim), "inception", DefaultTopN).Some?
    ensures |Recommend(Catalog(SixMovies(descriptions), sim), "inception", DefaultTopN).value| == 3
  {
    var c := Catalog(SixMovies(descriptions), sim);
    SixTitlesInOrder(descriptions);
    InceptionFolds();
    RecommendCaseInsensitive(c, "INCEPTION", "inception", DefaultTopN);
    assert "Inception" in Titles(c.movies);
  }

  /** When Inception's own score tops its row, its three recommendations are
      drawn from the other five titles. */
  lemma SixMoviesInceptionExcluded(descriptions: seq<string>, sim: seq<seq<real>>)
    requires |descriptions| == 6
    requires WellFormed(Catalog(SixMovies(descriptions), sim))
    requires forall k | 1 <= k < 6 :: sim[0][k] < sim[0][0]
    ensures Recommend(Catalog(SixMovies(descriptions), sim), "inception", DefaultTopN).Some?
    ensures forall name | name in Recommend(Catalog(SixMovies(descriptions), sim), "inception", DefaultTopN).value ::
      name in ["Interstellar", "The Dark Knight", "Shutter Island", "The Martian", "Gravity"]
  {
    var c := Catalog(SixMovies(descriptions), sim);
    SixTitlesInOrder(descriptions);
    SixTitlesFoldApart();
    InceptionFolds();
    ResolveUnique(SixTitles(), "inception", 0);
    RecommendExcludesStrictTop(c, "inception", DefaultTopN, 0);
  }

  /** Titles of pairwise different lengths fold to pairwise different
      strings. */
  lemma DistinctLengthsFoldApart(titles: seq<string>)
    requires forall i, j | 0 <= i < j < |titles| :: |titles[i]| != |titles[j]|
    ensures DistinctFolded(titles)
  {
    forall i, j | 0 <= i < j < |titles|
      ensures LowerStr(titles[i]) != LowerStr(titles[j])
    {
      LowerStrShape(titles[i]);
      LowerStrShape(titles[j]);
    }
  }

  /** Two movies with the same description, hence identical scores. */
  function TiedCatalog(): Catalog {
    Catalog([Movie("Alpha", "space travel"), Movie("Beta", "space travel")], [[1.0, 1.0], [1.0, 1.0]])
  }

  lemma TiedResolves()
    ensures Titles(TiedCatalog().movies) == ["Alpha", "Beta"]
    ensures Resolve(["Alpha", "Beta"], "beta") == Some(1)
  {
    var titles: seq<string> := ["Alpha", "Beta"];
    assert DistinctFolded(titles) by {
      assert |LowerStr("Alpha")| == 5 && |LowerStr("Beta")| == 4;
    }
    assert |LowerStr("Alpha")| == 5 && |LowerStr("Beta")| == 4;
    assert EqualIgnoringCase("Beta", "beta");
    EqualIgnoringCaseIffLowerEqual("Beta", "beta");
    ResolveUnique(titles, "beta", 1);
  }

  /** Column 0 ties with column 1 and has the lower index, so column 1 has
      rank 1. */
  lemma TiedRank()
    ensures Rank([1.0, 1.0], 1) == 1
  {
    var row: seq<real> := [1.0, 1.0];
    var ahead := set k: nat | k < |row| && Ahead(row, k, 1);
    assert ahead == {0};
  }

  /** With a tie at the top of its row, "beta" is answered with "Beta"
      itself: the stable sort ranks column 0 ahead of column 1, so the entry
      skipped is Alpha's, not Beta's. */
  lemma TieReturnsQueriedMovie()
    ensures Recommend(TiedCatalog(), "beta", 1).Some?
    ensures "Beta" in Recommend(TiedCatalog(), "beta", 1).value
  {
    TiedResolves();
    TiedRank();
    RecommendReturnsOutrankedQuery(TiedCatalog(), "beta", 1, 1);
  }

  /** Leaving out the queried column instead never answers "beta" with
      "Beta". */
  lemma TieCorrectedOmitsQueriedMovie()
    ensures RecommendOthers(TiedCatalog(), "beta", 1).Some?
    ensures "Beta" !in RecommendOthers(TiedCatalog(), "beta", 1).value
  {
    TiedResolves();
    assert DistinctFolded(["Alpha", "Beta"]) by {
      assert |LowerStr("Alpha")| == 5 && |LowerStr("Beta")| == 4;
    }
  }
}
