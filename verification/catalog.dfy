/** The movie catalog and the recommendation step of the chat handler: the row filter on
    genre, runtime bucket and adult flag, the modal cluster of the filtered rows, and the
    pool of rows in that cluster from which the weighted sample is drawn. */
module Catalog {
  import opened Base
  import opened Text
  import opened Options

  /** One catalog row, after rows missing any used column were dropped. `runtime` is in
      minutes and may be fractional; `score` is the sampling weight. */
  datatype Movie = Movie(
    title: string,
    genres: string,
    runtime: real,
    adult: bool,
    score: real,
    cluster: int)

  /** At most this many movies are drawn. */
  const MaxSample: nat := 40

  function Min(a: nat, b: nat): nat {
    if a <= b then a else b
  }

  /** The filter condition: the lower-cased genre text occurs in the lower-cased `genres`
      cell, the runtime lies in the label's inclusive bounds, and the adult flag is the
      one asked for. */
  predicate Admits(m: Movie, genre: string, length: LengthLabel, adult: bool) {
    && Contains(Lower(m.genres), Lower(genre))
    && MinMinutes(length) as real <= m.runtime <= MaxMinutes(length) as real
    && m.adult == adult
  }

  /** The rows of `movies` that satisfy `keep`, in catalog order, each as often as it
      occurs: pandas boolean-mask selection. */
  function Select(movies: seq<Movie>, keep: Movie -> bool): (r: seq<Movie>)
    ensures |r| <= |movies|
    ensures forall m :: m in r <==> m in movies && keep(m)
    ensures forall m :: multiset(r)[m] == if keep(m) then multiset(movies)[m] else 0
    decreases |movies|
  {
    if |movies| == 0 then []
    else
      var rest := Select(movies[1..], keep);
      assert movies == [movies[0]] + movies[1..];
      assert multiset(movies) == multiset{movies[0]} + multiset(movies[1..]);
      if keep(movies[0]) then
        assert multiset([movies[0]] + rest) == multiset{movies[0]} + multiset(rest);
        [movies[0]] + rest
      else rest
  }

  /** The filtered rows for complete slots. */
  function Filter(movies: seq<Movie>, genre: string, length: LengthLabel, adult: bool): (r: seq<Movie>)
    ensures forall m :: m in r <==> m in movies && Admits(m, genre, length, adult)
    ensures forall m :: multiset(r)[m] == if Admits(m, genre, length, adult) then multiset(movies)[m] else 0
  {
    Select(movies, (m: Movie) => Admits(m, genre, length, adult))
  }

  /** How many rows of `movies` belong to cluster `c`. */
  function Count(movies: seq<Movie>, c: int): (n: nat)
    ensures n <= |movies|
    ensures n > 0 <==> exists m <- movies :: m.cluster == c
    decreases |movies|
  {
    if |movies| == 0 then 0
    else
      var rest := Count(movies[1..], c);
      assert forall m :: m in movies <==> m == movies[0] || m in movies[1..];
      (if movies[0].cluster == c then 1 else 0) + rest
  }

  /** `c` is what `mode().iloc[0]` gives on the cluster column of `movies`: a cluster
      id occurring there, occurring at least as often as any other, and the least of
      those that tie (pandas returns the modes sorted). */
  ghost predicate IsLeastMode(movies: seq<Movie>, c: int) {
    && (exists m <- movies :: m.cluster == c)
    && (forall m <- movies :: Count(movies, m.cluster) <= Count(movies, c))
    && (forall m <- movies :: Count(movies, m.cluster) == Count(movies, c) ==> c <= m.cluster)
  }

  /** The best cluster among those of `candidates`, counting occurrences in `movies`. */
  function BestCluster(movies: seq<Movie>, candidates: seq<Movie>): (c: int)
    requires |candidates| > 0
    ensures exists m <- candidates :: m.cluster == c
    ensures forall m <- candidates :: Count(movies, m.cluster) <= Count(movies, c)
    ensures forall m <- candidates ::
      Count(movies, m.cluster) == Count(movies, c) ==> c <= m.cluster
    decreases |candidates|
  {
    if |candidates| == 1 then candidates[0].cluster
    else
      var rest := BestCluster(movies, candidates[1..]);
      var d := candidates[0].cluster;
      assert forall m :: m in candidates <==> m == candidates[0] || m in candidates[1..];
      if Count(movies, d) > Count(movies, rest)
        || (Count(movies, d) == Count(movies, rest) && d < rest)
      then d
      else rest
  }

  /** `filtered["cluster_id"].mode().iloc[0]`. */
  function ModalCluster(filtered: seq<Movie>): (c: int)
    requires |filtered| > 0
    ensures IsLeastMode(filtered, c)
  {
    BestCluster(filtered, filtered)
  }

  /** There is only one least mode, so `ModalCluster` is the pandas answer whatever order
      the rows come in. */
  lemma LeastModeUnique(movies: seq<Movie>, c1: int, c2: int)
    requires IsLeastMode(movies, c1) && IsLeastMode(movies, c2)
    ensures c1 == c2
  {
  }

  /** `df[df["cluster_id"] == c]`: every catalog row of cluster `c`. */
  function ClusterPool(movies: seq<Movie>, c: int): (r: seq<Movie>)
    ensures forall m :: m in r <==> m in movies && m.cluster == c
    ensures forall m :: multiset(r)[m] == if m.cluster == c then multiset(movies)[m] else 0
    ensures |r| == Count(movies, c)
  {
    var keep := (m: Movie) => m.cluster == c;
    SelectCount(movies, keep, c);
    Select(movies, keep)
  }

  /** Selecting a cluster keeps exactly its rows. */
  lemma {:induction false} SelectCount(movies: seq<Movie>, keep: Movie -> bool, c: int)
    requires forall m :: keep(m) == (m.cluster == c)
    ensures |Select(movies, keep)| == Count(movies, c)
    decreases |movies|
  {
    if |movies| > 0 {
      SelectCount(movies[1..], keep, c);
    }
  }

  /** What the recommendation step settles: the chosen cluster, the rows of the whole
      catalog in it, and how many of them the weighted sample draws. */
  datatype Recommendation = Recommendation(cluster: int, pool: seq<Movie>, sampleSize: nat)

  /** The recommendation step for complete slots; `None` is the "no movies found" reply.
      The pool is the whole cluster: its rows need not pass the filter themselves. */
  function Recommend(movies: seq<Movie>, genre: string, length: LengthLabel, adult: bool): (r: Option<Recommendation>)
    ensures r.None? <==> forall m <- movies :: !Admits(m, genre, length, adult)
    ensures r.Some? ==> IsLeastMode(Filter(movies, genre, length, adult), r.value.cluster)
    ensures r.Some? ==> forall m :: m in r.value.pool <==> m in movies && m.cluster == r.value.cluster
    ensures r.Some? ==> 1 <= r.value.sampleSize <= MaxSample
    ensures r.Some? ==> r.value.sampleSize <= |r.value.pool|
    ensures r.Some? ==> r.value.sampleSize == MaxSample || r.value.sampleSize == |r.value.pool|
    ensures r.Some? ==> |r.value.pool| == Count(movies, r.value.cluster)
    ensures r.Some? ==> forall m :: multiset(r.value.pool)[m] == (if m.cluster == r.value.cluster then multiset(movies)[m] else 0)
    ensures r.Some? ==> r.value.sampleSize == Min(MaxSample, Count(movies, r.value.cluster))
  {
    var filtered := Filter(movies, genre, length, adult);
    if |filtered| == 0 then
      None
    else
      assert filtered[0] in filtered;
      var c := ModalCluster(filtered);
      var pool := ClusterPool(movies, c);
      assert |pool| > 0 by {
        var m :| m in filtered && m.cluster == c;
        assert m in pool;
      }
      Some(Recommendation(c, pool, if |pool| < MaxSample then |pool| else MaxSample))
  }

  /** The pool is the whole modal cluster, not the filtered rows: a short comedy and a
      long adult drama in one cluster both reach the pool when the slots ask for a short
      comedy for all audiences. */
  lemma PoolNeedNotPassFilter()
    ensures var comedy := Movie("A", "Comedy", 80.0, false, 7.0, 1);
      var drama := Movie("B", "Drama", 150.0, true, 8.0, 1);
      var r := Recommend([comedy, drama], "Comedy", Short, false);
      && r.Some?
      && drama in r.value.pool
      && !Admits(drama, "Comedy", Short, false)
  {
    var comedy := Movie("A", "Comedy", 80.0, false, 7.0, 1);
    var drama := Movie("B", "Drama", 150.0, true, 8.0, 1);
    assert Lower("Comedy") == "comedy";
    assert OccursAt(Lower(comedy.genres), Lower("Comedy"), 0);
    assert Admits(comedy, "Comedy", Short, false);
    var r := Recommend([comedy, drama], "Comedy", Short, false);
    assert r.Some?;
    var f := Filter([comedy, drama], "Comedy", Short, false);
    assert comedy in f;
    assert forall m <- f :: m.cluster == 1;
    assert r.value.cluster == 1;
  }
}
