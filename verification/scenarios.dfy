/**
 Concrete request sequences: create, get, delete and get again from
 process start, and the title filter with its fallback to the whole store.
 */
module Scenarios {
  import opened Outcomes
  import opened Model
  import opened Text
  import opened MovieStore
  import opened StoreInvariants

  const Inception: MovieCreate := MovieCreate("Inception", 148, "Sci-Fi")
  const Up: MovieCreate := MovieCreate("Up", 96, "Comedy")

  /** A title filter that neither example record matches. */
  const ZzzQuery: MovieSearchQuery := MovieSearchQuery(Some("zzz"), None)

  /** Create, get, delete, get from process start: id 1, the same record back, then NotFound. */
  lemma CreateGetDeleteGet()
    ensures Create(Initial, Inception).out == Ok(MovieModel(1, "Inception", 148, "Sci-Fi"))
    ensures Get(Create(Initial, Inception).store, 1).out == Ok(MovieModel(1, "Inception", 148, "Sci-Fi"))
    ensures Delete(Create(Initial, Inception).store, 1).out == Ok(())
    ensures Get(Delete(Create(Initial, Inception).store, 1).store, 1).out == Err(NotFound)
  {
    InitialInv();
    CreateThenGet(Initial, Inception);
    var s := Create(Initial, Inception).store;
    assert s.movies[0].id == 1;
    DeleteThenGet(s, 1);
  }

  /** The store holding the two example records. */
  function TwoMovies(): Store {
    Create(Create(Initial, Inception).store, Up).store
  }

  lemma TwoMoviesContents()
    ensures TwoMovies().movies == [MovieModel(1, "Inception", 148, "Sci-Fi"), MovieModel(2, "Up", 96, "Comedy")]
  {
    var s1 := Create(Initial, Inception).store;
    assert s1.movies == [MovieModel(1, "Inception", 148, "Sci-Fi")];
    var s2 := Create(s1, Up).store;
    assert s2.movies == s2.movies[..1] + [s2.movies[1]];
  }

  /** A title filter that matches one record returns just that record. */
  lemma FilterHit()
    ensures List(TwoMovies(), MovieSearchQuery(Some("Inception"), None)).out
         == Ok([MovieModel(1, "Inception", 148, "Sci-Fi")])
  {
    TwoMoviesContents();
    var q := MovieSearchQuery(Some("Inception"), None);
    var inc := MovieModel(1, "Inception", 148, "Sci-Fi");
    var up := MovieModel(2, "Up", 96, "Comedy");
    assert Lower("Inception") == "inception";
    assert Contains("inception", "inception");
    assert Matches(q, inc);
    assert Lower("Up") == "up";
    assert !Contains("up", "inception");
    assert !Matches(q, up);
    var r := List(TwoMovies(), q).out.value;
    assert !NoneMatch(q, TwoMovies().movies) by { assert Matches(q, TwoMovies().movies[0]); }
    assert multiset(r)[inc] == 1;
    assert multiset(r)[up] == 0;
    assert forall m :: m in r ==> m == inc;
    assert |r| == 1 by {
      assert multiset(r) == multiset{inc} by {
        forall m ensures multiset(r)[m] == multiset{inc}[m] {
          if m != inc { assert m !in r; }
        }
      }
      assert |multiset(r)| == |r|;
    }
    assert r[0] in r;
    assert r == [inc];
    assert List(TwoMovies(), q).out.Ok?;
  }

  /** Neither example record matches the title filter "zzz". */
  lemma ZzzMatchesNothing()
    ensures !Matches(ZzzQuery, MovieModel(1, "Inception", 148, "Sci-Fi"))
    ensures !Matches(ZzzQuery, MovieModel(2, "Up", 96, "Comedy"))
  {
    assert Lower("zzz") == "zzz";
    assert Lower("Inception") == "inception";
    assert Lower("Up") == "up";
    FirstCharAbsent("inception", "zzz");
    FirstCharAbsent("up", "zzz");
  }

  /** A title filter that matches nothing falls back to the whole store. */
  lemma FilterMissFallsBack()
    ensures List(TwoMovies(), ZzzQuery).out == Ok(TwoMovies().movies)
  {
    TwoMoviesContents();
    ZzzMatchesNothing();
    assert NoneMatch(ZzzQuery, TwoMovies().movies);
  }
}
