/**
 * The `recommend` operation of the movie recommender.
 *
 * Given the catalog (one `Movie` per row, in load order), the precomputed
 * similarity matrix (row and column `i` belong to catalog row `i`) and a
 * query title, `recommend` finds the first row with that title, ranks that
 * row's columns by descending score, drops the first-ranked entry, keeps the
 * next eight, and returns their titles and poster URLs as two aligned lists.
 *
 * The poster service is an HTTP call; here it is the parameter `lookup`,
 * which gives the `poster_path` field of the service's answer for a movie
 * id, or None when the answer has none.
 */
module Recommender {
  import opened SimilarityRanking

  datatype Option<T> = None | Some(value: T)

  /** Why `recommend` produces no result. */
  datatype Error =
    | TitleNotFound              // no catalog row has the query title: `.index[0]` raises
    | PosterUnavailable(id: int) // the poster service gave no poster path for this movie id

  datatype Result<T> = Success(value: T) | Failure(error: Error)

  /** One catalog row: the movie's id at the poster service and its title. */
  datatype Movie = Movie(id: int, title: string)

  /** The two aligned lists `recommend` returns. */
  datatype Picks = Picks(titles: seq<string>, posters: seq<string>)

  /** One column of the result grid. */
  datatype Cell = Cell(title: string, poster: string)

  /** The poster service: a movie id to the `poster_path` of its answer, if any. */
  type PosterLookup = int -> Option<string>

  const PosterBase: string := "https://image.tmdb.org/t/p/w500/"

  /** The bounds of the slice `[1:9]` applied to the ranking. */
  const SliceStart: nat := 1
  const SliceStop: nat := 9

  /** The result grid has eight columns. */
  const GridColumns: nat := 8

  function Min(a: int, b: int): int
  {
    if a <= b then a else b
  }

  /** The similarity matrix is square, one row and one column per catalog row. */
  ghost predicate WellFormed(catalog: seq<Movie>, similarity: seq<seq<Score>>)
  {
    |similarity| == |catalog| &&
    forall i :: 0 <= i < |similarity| ==> |similarity[i]| == |catalog|
  }

  /** Every entry of `chosen` names a catalog row. */
  ghost predicate InCatalog(catalog: seq<Movie>, chosen: seq<Scored>)
  {
    forall k :: 0 <= k < |chosen| ==> chosen[k].index < |catalog|
  }

  /**
   * `movies[movies['title'] == movie].index[0]`: the first catalog row whose
   * title is the query, or None when no row has it.
   */
  function FindTitle(catalog: seq<Movie>, query: string): (r: Option<nat>)
    ensures r.Some? ==> r.value < |catalog| && catalog[r.value].title == query
    ensures r.Some? ==> forall j :: 0 <= j < r.value ==> catalog[j].title != query
    ensures r.None? <==> forall j :: 0 <= j < |catalog| ==> catalog[j].title != query
  {
    if catalog == [] then None
    else if catalog[0].title == query then Some(0)
    else
      match FindTitle(catalog[1..], query)
      case None => None
      case Some(i) => Some(i + 1)
  }

  /**
   * Python's slice `ranked[1:9]`: both bounds are clipped to the length, so
   * the first entry is dropped and at most eight follow.
   */
  function Shortlist(ranked: seq<Scored>): (r: seq<Scored>)
    ensures |ranked| >= 1 ==> |r| == Min(SliceStop - SliceStart, |ranked| - 1)
    ensures |ranked| == 0 ==> r == []
    ensures forall k :: 0 <= k < |r| ==> r[k] == ranked[k + 1]
  {
    ranked[Min(SliceStart, |ranked|)..Min(SliceStop, |ranked|)]
  }

  /**
   * `fetch_poster`: the image base URL followed by the movie's poster path.
   * A missing path raises in the source; here it is PosterUnavailable.
   */
  function FetchPoster(lookup: PosterLookup, id: int): (r: Result<string>)
    ensures r.Success? <==> lookup(id).Some?
    ensures r.Success? ==> PosterBase <= r.value && r.value[|PosterBase|..] == lookup(id).value
    ensures r.Failure? ==> r.error == PosterUnavailable(id)
  {
    match lookup(id)
    case None => Failure(PosterUnavailable(id))
    case Some(path) => Success(PosterBase + path)
  }

  /** The titles of the chosen rows, in order. */
  function Titles(catalog: seq<Movie>, chosen: seq<Scored>): seq<string>
    requires InCatalog(catalog, chosen)
  {
    seq(|chosen|, k requires 0 <= k < |chosen| => catalog[chosen[k].index].title)
  }

  /**
   * The posters of the chosen rows, fetched one after another; the first
   * missing poster aborts the whole list.
   */
  function FetchPosters(catalog: seq<Movie>, chosen: seq<Scored>, lookup: PosterLookup): Result<seq<string>>
    requires InCatalog(catalog, chosen)
  {
    if chosen == [] then Success([])
    else
      var n := |chosen| - 1;
      match FetchPosters(catalog, chosen[..n], lookup)
      case Failure(e) => Failure(e)
      case Success(ps) =>
        match FetchPoster(lookup, catalog[chosen[n].index].id)
        case Failure(e) => Failure(e)
        case Success(p) => Success(ps + [p])
  }

  /**
   * The posters are fetched for every chosen row, in order: the list succeeds
   * exactly when every row has a poster, entry `k` is then the poster of
   * `chosen[k]`, and otherwise the error names the first row without one.
   */
  lemma {:induction false} FetchPostersMeaning(catalog: seq<Movie>, chosen: seq<Scored>, lookup: PosterLookup)
    requires InCatalog(catalog, chosen)
    ensures var r := FetchPosters(catalog, chosen, lookup);
      r.Success? <==> forall k :: 0 <= k < |chosen| ==> lookup(catalog[chosen[k].index].id).Some?
    ensures var r := FetchPosters(catalog, chosen, lookup);
      r.Success? ==> (|r.value| == |chosen| &&
        forall k :: 0 <= k < |chosen| ==> r.value[k] == PosterBase + lookup(catalog[chosen[k].index].id).value)
    ensures var r := FetchPosters(catalog, chosen, lookup);
      r.Failure? ==>
        exists k :: 0 <= k < |chosen| && FirstMissing(catalog, chosen, lookup, k) &&
          r.error == PosterUnavailable(catalog[chosen[k].index].id)
  {
    if chosen != [] {
      var n := |chosen| - 1;
      var prefix := chosen[..n];
      assert forall k :: 0 <= k < n ==> prefix[k] == chosen[k];
      FetchPostersMeaning(catalog, prefix, lookup);
      var f := FetchPosters(catalog, prefix, lookup);
      if f.Failure? {
        var k :| 0 <= k < n && FirstMissing(catalog, prefix, lookup, k) &&
          f.error == PosterUnavailable(catalog[prefix[k].index].id);
        assert FirstMissing(catalog, chosen, lookup, k);
      } else if lookup(catalog[chosen[n].index].id).None? {
        assert FirstMissing(catalog, chosen, lookup, n);
      }
    }
  }

  /** `chosen[k]` is the first chosen row whose poster the service lacks. */
  ghost predicate FirstMissing(catalog: seq<Movie>, chosen: seq<Scored>, lookup: PosterLookup, k: nat)
    requires InCatalog(catalog, chosen) && k < |chosen|
  {
    lookup(catalog[chosen[k].index].id).None? &&
    forall m :: 0 <= m < k ==> lookup(catalog[chosen[m].index].id).Some?
  }

  /** The rows `recommend` returns for the query at row `q`, in rank order. */
  function Chosen(similarity: seq<seq<Score>>, q: nat): seq<Scored>
    requires q < |similarity|
  {
    Shortlist(Ranking(similarity[q]))
  }

  /**
   * What `recommend(query)` returns: the titles and posters of the shortlist
   * of the query row's ranking, or the error that aborts it.
   */
  function Recommendation(catalog: seq<Movie>, similarity: seq<seq<Score>>, query: string, lookup: PosterLookup): Result<Picks>
    requires WellFormed(catalog, similarity)
  {
    match FindTitle(catalog, query)
    case None => Failure(TitleNotFound)
    case Some(q) =>
      var chosen := Chosen(similarity, q);
      ChosenInCatalog(catalog, similarity, q);
      match FetchPosters(catalog, chosen, lookup)
      case Failure(e) => Failure(e)
      case Success(posters) => Success(Picks(Titles(catalog, chosen), posters))
  }

  /** Every row of the shortlist is a catalog row. */
  lemma ChosenInCatalog(catalog: seq<Movie>, similarity: seq<seq<Score>>, q: nat)
    requires WellFormed(catalog, similarity) && q < |similarity|
    ensures InCatalog(catalog, Chosen(similarity, q))
  {
    RankingCoversEveryColumn(similarity[q]);
  }

  /** A failure among the first `k` posters is the failure of the whole list. */
  lemma {:induction false} FailedPrefixFailsAll(catalog: seq<Movie>, chosen: seq<Scored>, lookup: PosterLookup, k: nat)
    requires InCatalog(catalog, chosen) && k <= |chosen|
    requires FetchPosters(catalog, chosen[..k], lookup).Failure?
    ensures FetchPosters(catalog, chosen, lookup) == FetchPosters(catalog, chosen[..k], lookup)
  {
    if k == |chosen| {
      assert chosen[..k] == chosen;
    } else {
      var n := |chosen| - 1;
      assert chosen[..n][..k] == chosen[..k];
      assert InCatalog(catalog, chosen[..n]);
      FailedPrefixFailsAll(catalog, chosen[..n], lookup, k);
      var f := FetchPosters(catalog, chosen[..n], lookup);
      assert f.Failure?;
      assert FetchPosters(catalog, chosen, lookup) == Failure(f.error);
    }
  }

  /** Appending the title of `chosen[k]` extends the titles of the first `k` rows to the first `k + 1`. */
  lemma TitlesStep(catalog: seq<Movie>, chosen: seq<Scored>, k: nat)
    requires InCatalog(catalog, chosen) && k < |chosen|
    ensures InCatalog(catalog, chosen[..k]) && InCatalog(catalog, chosen[..k + 1])
    ensures Titles(catalog, chosen[..k + 1]) == Titles(catalog, chosen[..k]) + [catalog[chosen[k].index].title]
  {
    assert InCatalog(catalog, chosen[..k]);
    assert InCatalog(catalog, chosen[..k + 1]);
  }

  /**
   * Once the first `k` posters are fetched, fetching the poster of `chosen[k]`
   * either appends it to them or fails the first `k + 1` with its error.
   */
  lemma PostersStep(catalog: seq<Movie>, chosen: seq<Scored>, lookup: PosterLookup, k: nat)
    requires InCatalog(catalog, chosen) && k < |chosen|
    requires InCatalog(catalog, chosen[..k]) && FetchPosters(catalog, chosen[..k], lookup).Success?
    ensures InCatalog(catalog, chosen[..k + 1])
    ensures var p := FetchPoster(lookup, catalog[chosen[k].index].id);
      p.Failure? ==> FetchPosters(catalog, chosen[..k + 1], lookup) == Failure(p.error)
    ensures var p := FetchPoster(lookup, catalog[chosen[k].index].id);
      p.Success? ==>
        FetchPosters(catalog, chosen[..k + 1], lookup) ==
        Success(FetchPosters(catalog, chosen[..k], lookup).value + [p.value])
  {
    var prefix := chosen[..k + 1];
    assert InCatalog(catalog, prefix);
    assert prefix[..k] == chosen[..k];
    assert prefix[k] == chosen[k];
  }

  /**
   * `recommend(movie)`: look the title up, rank its similarity row, keep the
   * shortlist, then walk it appending each title and its poster to the two
   * result lists.
   */
  method Recommend(catalog: seq<Movie>, similarity: seq<seq<Score>>, query: string, lookup: PosterLookup)
    returns (r: Result<Picks>)
    requires WellFormed(catalog, similarity)
    ensures r == Recommendation(catalog, similarity, query, lookup)
  {
    var found := FindTitle(catalog, query);
    if found.None? {
      return Failure(TitleNotFound);
    }
    var q := found.value;
    var chosen := Chosen(similarity, q);
    ChosenInCatalog(catalog, similarity, q);
    var titles: seq<string> := [];
    var posters: seq<string> := [];
    for k := 0 to |chosen|
      invariant titles == Titles(catalog, chosen[..k])
      invariant FetchPosters(catalog, chosen[..k], lookup) == Success(posters)
    {
      var movie := catalog[chosen[k].index];
      TitlesStep(catalog, chosen, k);
      titles := titles + [movie.title];
      var poster := FetchPoster(lookup, movie.id);
      PostersStep(catalog, chosen, lookup, k);
      if poster.Failure? {
        FailedPrefixFailsAll(catalog, chosen, lookup, k + 1);
        return Failure(poster.error);
      }
      posters := posters + [poster.value];
    }
    assert chosen[..|chosen|] == chosen;
    r := Success(Picks(titles, posters));
  }

  /**
   * The results grid of the page: eight columns, column `c` showing
   * `recommended_movies[c]` and `recommended_movies_posters[c]`; a shorter
   * list raises IndexError, modelled as None.
   */
  function Grid(p: Picks): Option<seq<Cell>>
  {
    if |p.titles| < GridColumns || |p.posters| < GridColumns then None
    else Some(seq(GridColumns, c requires 0 <= c < GridColumns => Cell(p.titles[c], p.posters[c])))
  }

  // ---------------------------------------------------------------------
  // Properties of `recommend`
  // ---------------------------------------------------------------------

  /** `recommend` fails with TitleNotFound exactly when no catalog row has the query title. */
  lemma NotFoundIff(catalog: seq<Movie>, similarity: seq<seq<Score>>, query: string, lookup: PosterLookup)
    requires WellFormed(catalog, similarity)
    ensures Recommendation(catalog, similarity, query, lookup) == Failure(TitleNotFound) <==>
      forall j :: 0 <= j < |catalog| ==> catalog[j].title != query
  {
    match FindTitle(catalog, query)
    case None =>
    case Some(q) =>
      ChosenInCatalog(catalog, similarity, q);
      FetchPostersMeaning(catalog, Chosen(similarity, q), lookup);
  }

  /**
   * Once the title is found, `recommend` succeeds exactly when every
   * shortlisted movie has a poster; otherwise it fails on the first one that
   * does not, and no partial result is returned.
   */
  lemma SucceedsIffPostersAvailable(catalog: seq<Movie>, similarity: seq<seq<Score>>, query: string, lookup: PosterLookup, q: nat)
    requires WellFormed(catalog, similarity)
    requires FindTitle(catalog, query) == Some(q)
    ensures InCatalog(catalog, Chosen(similarity, q))
    ensures Recommendation(catalog, similarity, query, lookup).Success? <==>
      forall k :: 0 <= k < |Chosen(similarity, q)| ==>
        lookup(catalog[Chosen(similarity, q)[k].index].id).Some?
    ensures Recommendation(catalog, similarity, query, lookup).Failure? ==>
      exists k :: 0 <= k < |Chosen(similarity, q)| &&
        FirstMissing(catalog, Chosen(similarity, q), lookup, k) &&
        Recommendation(catalog, similarity, query, lookup).error ==
          PosterUnavailable(catalog[Chosen(similarity, q)[k].index].id)
  {
    ChosenInCatalog(catalog, similarity, q);
    FetchPostersMeaning(catalog, Chosen(similarity, q), lookup);
  }

  /**
   * A successful result has min(8, N-1) entries in each list, and entry `k`
   * of both lists comes from the catalog row ranked at position `k + 1`:
   * its title, and the base URL followed by its poster path.
   */
  lemma ResultAlignedWithRanking(catalog: seq<Movie>, similarity: seq<seq<Score>>, query: string, lookup: PosterLookup, q: nat)
    requires WellFormed(catalog, similarity)
    requires FindTitle(catalog, query) == Some(q)
    requires Recommendation(catalog, similarity, query, lookup).Success?
    ensures var p := Recommendation(catalog, similarity, query, lookup).value;
      |p.titles| == |p.posters| == Min(SliceStop - SliceStart, |catalog| - 1)
    ensures var p := Recommendation(catalog, similarity, query, lookup).value;
      var ranked := Ranking(similarity[q]);
      |ranked| == |catalog| &&
      forall k :: 0 <= k < |p.titles| ==>
        ranked[k + 1].index < |catalog| &&
        p.titles[k] == catalog[ranked[k + 1].index].title &&
        lookup(catalog[ranked[k + 1].index].id).Some? &&
        p.posters[k] == PosterBase + lookup(catalog[ranked[k + 1].index].id).value
  {
    RankingCoversEveryColumn(similarity[q]);
    ChosenInCatalog(catalog, similarity, q);
    var ranked := Ranking(similarity[q]);
    var chosen := Chosen(similarity, q);
    assert |ranked| == |catalog| >= 1;
    assert |chosen| == Min(SliceStop - SliceStart, |catalog| - 1);
    FetchPostersMeaning(catalog, chosen, lookup);
    var f := FetchPosters(catalog, chosen, lookup);
    assert f.Success?;
    var titles := Titles(catalog, chosen);
    var p := Recommendation(catalog, similarity, query, lookup).value;
    assert p == Picks(titles, f.value);
    assert |titles| == |f.value| == |chosen|;
    forall k | 0 <= k < |p.titles|
      ensures ranked[k + 1].index < |catalog|
      ensures p.titles[k] == catalog[ranked[k + 1].index].title
      ensures lookup(catalog[ranked[k + 1].index].id).Some?
      ensures p.posters[k] == PosterBase + lookup(catalog[ranked[k + 1].index].id).value
    {
      assert chosen[k] == ranked[k + 1];
      assert p.titles[k] == titles[k] == catalog[chosen[k].index].title;
      assert p.posters[k] == f.value[k];
    }
  }

  /**
   * The results grid can be drawn from a successful result exactly
   * when the catalog has at least nine movies; it then shows the eight
   * results in rank order.
   */
  lemma GridNeedsNineMovies(catalog: seq<Movie>, similarity: seq<seq<Score>>, query: string, lookup: PosterLookup)
    requires WellFormed(catalog, similarity)
    requires Recommendation(catalog, similarity, query, lookup).Success?
    ensures var p := Recommendation(catalog, similarity, query, lookup).value;
      Grid(p).Some? <==> |catalog| >= SliceStop
    ensures var p := Recommendation(catalog, similarity, query, lookup).value;
      Grid(p).Some? ==> forall c :: 0 <= c < GridColumns ==>
        Grid(p).value[c] == Cell(p.titles[c], p.posters[c])
  {
    var q := FindTitle(catalog, query).value;
    ResultAlignedWithRanking(catalog, similarity, query, lookup, q);
  }

  // ---------------------------------------------------------------------
  // Whether the query itself is recommended
  // ---------------------------------------------------------------------

  /**
   * The slice drops whatever ranks first. When the query's own column ranks
   * ahead of every other column (its score beats theirs, or ties and its
   * column is smaller), that is the query: it never appears among the
   * results, the results are min(8, N-1) entries, and every other column
   * left out ranks below all of them.
   */
  lemma QueryExcludedWhenRankedFirst(row: seq<Score>, q: nat)
    requires q < |row|
    requires forall j :: 0 <= j < |row| && j != q ==> Before(Scored(q, row[q]), Scored(j, row[j]))
    ensures |Shortlist(Ranking(row))| == Min(SliceStop - SliceStart, |row| - 1)
    ensures forall k :: 0 <= k < |Shortlist(Ranking(row))| ==> Shortlist(Ranking(row))[k].index != q
    ensures forall j :: 0 <= j < |row| && j != q && !HasColumn(Shortlist(Ranking(row)), j) ==>
      forall k :: 0 <= k < |Shortlist(Ranking(row))| ==> Before(Shortlist(Ranking(row))[k], Scored(j, row[j]))
  {
    var r := Ranking(row);
    var c := Shortlist(r);
    RankingCoversEveryColumn(row);
    RankingOrdered(row);
    FirstRankedIsIff(row, q);
    assert r[0].index == q;
    forall k | 0 <= k < |c| ensures c[k].index != q {
      assert c[k] == r[k + 1];
    }
    forall j | 0 <= j < |row| && j != q && !HasColumn(c, j)
      ensures forall k :: 0 <= k < |c| ==> Before(c[k], Scored(j, row[j]))
    {
      assert HasColumn(r, j);
      var p :| 0 <= p < |r| && r[p].index == j;
      forall m | 1 <= m <= |c| ensures r[m].index != j {
        assert c[m - 1] == r[m];
      }
      assert p > |c|;
      forall k | 0 <= k < |c| ensures Before(c[k], Scored(j, row[j])) {
        assert c[k] == r[k + 1];
        assert Before(r[k + 1], r[p]);
      }
    }
  }

  /**
   * The query's own column is among the results exactly when between one and
   * eight columns rank ahead of it (a higher score, or an equal score at a
   * smaller column), whatever the size of the catalog.
   */
  lemma QueryShortlistedIff(row: seq<Score>, q: nat)
    requires q < |row|
    ensures HasColumn(Shortlist(Ranking(row)), q) <==> 1 <= |Ahead(row, q)| <= SliceStop - SliceStart
  {
    var r := Ranking(row);
    var c := Shortlist(r);
    RankingCoversEveryColumn(row);
    assert HasColumn(r, q);
    var p :| 0 <= p < |r| && r[p].index == q;
    RankPositionIsNumberAhead(row, p);
    assert |Ahead(row, q)| == p;
    if HasColumn(c, q) {
      var k :| 0 <= k < |c| && c[k].index == q;
      assert c[k] == r[k + 1];
      assert k + 1 == p;
    }
    if 1 <= p <= SliceStop - SliceStart {
      assert c[p - 1] == r[p];
    }
  }

  /**
   * When exactly one other column ranks ahead of the query (say an earlier
   * movie with an identical score) and the query ranks ahead of all the
   * rest, the query's own row is the first result, however large the catalog.
   */
  lemma QueryFirstWhenOneAhead(row: seq<Score>, q: nat, j: nat)
    requires q < |row| && j < |row| && j != q
    requires Before(Scored(j, row[j]), Scored(q, row[q]))
    requires forall i :: 0 <= i < |row| && i != q && i != j ==> Before(Scored(q, row[q]), Scored(i, row[i]))
    ensures |Shortlist(Ranking(row))| >= 1 && Shortlist(Ranking(row))[0].index == q
  {
    var r := Ranking(row);
    RankingCoversEveryColumn(row);
    forall i | 0 <= i < |row| && i != j ensures i !in Ahead(row, q) {
      if i != q {
        assert Before(Scored(q, row[q]), Scored(i, row[i]));
      }
    }
    assert Ahead(row, q) == {j};
    assert HasColumn(r, q);
    var p :| 0 <= p < |r| && r[p].index == q;
    RankPositionIsNumberAhead(row, p);
    assert p == 1;
    assert Shortlist(r)[0] == r[1];
  }

  /** A three-movie catalog in which the first two rows tie with each other. */
  function TieCatalog(): seq<Movie>
  {
    [Movie(1, "A"), Movie(2, "B"), Movie(3, "C")]
  }

  /** The similarity row shared by the two tied movies. */
  function TieRow(): seq<Score>
  {
    [1.0, 1.0, 0.0]
  }

  function TieSimilarity(): seq<seq<Score>>
  {
    [TieRow(), TieRow(), [0.0, 0.0, 1.0]]
  }

  /** The first two rows of the tie matrix both rank columns 0, 1, 2. */
  lemma TieRanking(row: seq<Score>)
    requires row == TieRow()
    ensures Ranking(row) == [Scored(0, 1.0), Scored(1, 1.0), Scored(2, 0.0)]
  {
    var e := Enumerate(row);
    assert e == [Scored(0, 1.0), Scored(1, 1.0), Scored(2, 0.0)];
    assert e[..2] == [Scored(0, 1.0), Scored(1, 1.0)];
    TiePrefixSorted();
    TieLastInserted();
  }

  /** Sorting the first two pairs of the tie row leaves them in place. */
  lemma TiePrefixSorted()
    ensures SortByScoreDesc([Scored(0, 1.0), Scored(1, 1.0)]) == [Scored(0, 1.0), Scored(1, 1.0)]
  {
  }

  /** The third pair of the tie row, with a lower score, goes last. */
  lemma TieLastInserted()
    ensures InsertByScore([Scored(0, 1.0), Scored(1, 1.0)], Scored(2, 0.0)) ==
      [Scored(0, 1.0), Scored(1, 1.0), Scored(2, 0.0)]
  {
  }

  /** The slice `[1:9]` of a three-entry ranking is its last two entries. */
  lemma ShortlistOfThree(r: seq<Scored>)
    requires |r| == 3
    ensures Shortlist(r) == [r[1], r[2]]
  {
  }

  /** On the tie matrix, whichever of rows 0 and 1 is the query, the shortlist is rows 1 and 2. */
  lemma TieChosen(q: nat)
    requires q < 2
    ensures Chosen(TieSimilarity(), q) == [Scored(1, 1.0), Scored(2, 0.0)]
  {
    assert TieSimilarity()[q] == TieRow();
    TieRanking(TieSimilarity()[q]);
    ShortlistOfThree(Ranking(TieSimilarity()[q]));
  }

  /** Rows 1 and 2 of the tie catalog are "B" and "C", and with every poster present their fetch succeeds. */
  lemma TieRowsOneAndTwo(lookup: PosterLookup)
    requires forall id :: lookup(id) == Some("p.jpg")
    ensures InCatalog(TieCatalog(), [Scored(1, 1.0), Scored(2, 0.0)])
    ensures Titles(TieCatalog(), [Scored(1, 1.0), Scored(2, 0.0)]) == ["B", "C"]
    ensures FetchPosters(TieCatalog(), [Scored(1, 1.0), Scored(2, 0.0)], lookup).Success?
  {
    var c := [Scored(1, 1.0), Scored(2, 0.0)];
    assert InCatalog(TieCatalog(), c);
    assert Titles(TieCatalog(), c) == [TieCatalog()[1].title, TieCatalog()[2].title];
    FetchPostersMeaning(TieCatalog(), c, lookup);
  }

  /** On the tie catalog, whichever of "A" and "B" is asked for, the results are "B" and "C". */
  lemma TieShortlist(q: nat, lookup: PosterLookup)
    requires q < 2
    requires forall id :: lookup(id) == Some("p.jpg")
    ensures InCatalog(TieCatalog(), Chosen(TieSimilarity(), q))
    ensures Titles(TieCatalog(), Chosen(TieSimilarity(), q)) == ["B", "C"]
    ensures FetchPosters(TieCatalog(), Chosen(TieSimilarity(), q), lookup).Success?
  {
    TieChosen(q);
    TieRowsOneAndTwo(lookup);
  }

  /** The tie catalog and its matrix have the shape `recommend` expects. */
  lemma TieWellFormed()
    ensures WellFormed(TieCatalog(), TieSimilarity())
  {
    assert |TieSimilarity()[0]| == |TieSimilarity()[1]| == |TieSimilarity()[2]| == 3;
  }

  /** On the tie catalog, a query found at row 0 or row 1 is recommended "B" then "C". */
  lemma TieRecommendation(query: string, q: nat, lookup: PosterLookup)
    requires q < 2 && FindTitle(TieCatalog(), query) == Some(q)
    requires forall id :: lookup(id) == Some("p.jpg")
    ensures WellFormed(TieCatalog(), TieSimilarity())
    ensures Recommendation(TieCatalog(), TieSimilarity(), query, lookup).Success?
    ensures Recommendation(TieCatalog(), TieSimilarity(), query, lookup).value.titles == ["B", "C"]
  {
    TieWellFormed();
    TieShortlist(q, lookup);
    var c := Chosen(TieSimilarity(), q);
    var f := FetchPosters(TieCatalog(), c, lookup);
    assert Recommendation(TieCatalog(), TieSimilarity(), query, lookup) == Success(Picks(Titles(TieCatalog(), c), f.value));
  }

  /**
   * On the tie catalog, "A" is recommended "B" then "C", but "B" is
   * recommended itself: the tied, smaller column 0 ranks first and is the
   * entry the slice drops.
   */
  lemma QueryRecommendedOnTie(lookup: PosterLookup)
    requires forall id :: lookup(id) == Some("p.jpg")
    ensures WellFormed(TieCatalog(), TieSimilarity())
    ensures Recommendation(TieCatalog(), TieSimilarity(), "A", lookup).Success?
    ensures Recommendation(TieCatalog(), TieSimilarity(), "A", lookup).value.titles == ["B", "C"]
    ensures Recommendation(TieCatalog(), TieSimilarity(), "B", lookup).Success?
    ensures Recommendation(TieCatalog(), TieSimilarity(), "B", lookup).value.titles == ["B", "C"]
  {
    assert FindTitle(TieCatalog(), "A") == Some(0);
    assert FindTitle(TieCatalog(), "B") == Some(1);
    TieRecommendation("A", 0, lookup);
    TieRecommendation("B", 1, lookup);
  }
}
