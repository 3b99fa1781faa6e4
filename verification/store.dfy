/**
 The in-memory movie store and its five request handlers. The store is a
 value: the ordered sequence of records and the next-id counter. Each
 handler is one atomic step that returns the store after the step together
 with the response value or the error the request reports.
 */
module MovieStore {
  import opened Outcomes
  import opened Model
  import opened Text
  import opened Seqs

  /** The records in insertion order, and the id the next created record receives. */
  datatype Store = Store(movies: seq<MovieModel>, nextId: int)

  /** The store at process start: no records, counter at 1. */
  const Initial: Store := Store([], 1)

  /** One handler step: the store afterwards and what the request returns. */
  datatype Step<+T> = Step(store: Store, out: Result<T>)

  /** Some record in `ms` has id `id`. */
  predicate HasId(ms: seq<MovieModel>, id: int) {
    exists i :: 0 <= i < |ms| && ms[i].id == id
  }

  /** Linear search from position `from`: the index of the first record with id `id`, if any. */
  function FindFrom(ms: seq<MovieModel>, id: int, from: nat): (r: Option<nat>)
    requires from <= |ms|
    ensures r.Some? ==> from <= r.value < |ms| && ms[r.value].id == id
    ensures r.Some? ==> forall j :: from <= j < r.value ==> ms[j].id != id
    ensures r.None? <==> forall j :: from <= j < |ms| ==> ms[j].id != id
    decreases |ms| - from
  {
    if from == |ms| then None
    else if ms[from].id == id then Some(from)
    else FindFrom(ms, id, from + 1)
  }

  /** The lookup `next((m for m in movies if m.id == id), None)`, as an index. */
  function Find(ms: seq<MovieModel>, id: int): (r: Option<nat>)
    ensures r.Some? ==> r.value < |ms| && ms[r.value].id == id
    ensures r.Some? ==> forall j :: 0 <= j < r.value ==> ms[j].id != id
    ensures r.None? <==> !HasId(ms, id)
  {
    FindFrom(ms, id, 0)
  }

  /** Python truthiness of an optional query string: present and non-empty. */
  predicate Truthy(o: Option<string>) {
    o.Some? && |o.value| > 0
  }

  /** The query filters at all. */
  predicate Active(q: MovieSearchQuery) {
    Truthy(q.title) || Truthy(q.genre)
  }

  /** A record matches when its lowercased title contains the lowercased title filter,
      or its lowercased genre contains the lowercased genre filter; a falsy filter matches nothing. */
  predicate Matches(q: MovieSearchQuery, m: MovieModel) {
    || (Truthy(q.title) && Contains(Lower(m.title), Lower(q.title.value)))
    || (Truthy(q.genre) && Contains(Lower(m.genre), Lower(q.genre.value)))
  }

  /** No record of `ms` matches `q`. */
  predicate NoneMatch(q: MovieSearchQuery, ms: seq<MovieModel>) {
    forall i :: 0 <= i < |ms| ==> !Matches(q, ms[i])
  }

  /** The records without id `id`: the comprehension `[m for m in movies if m.id != id]`. */
  function RemoveId(ms: seq<MovieModel>, id: int): (r: seq<MovieModel>)
    ensures IsSubseq(r, ms)
    ensures forall m :: m in r <==> m in ms && m.id != id
    ensures forall m :: multiset(r)[m] == if m.id != id then multiset(ms)[m] else 0
    ensures !HasId(r, id)
    ensures HasId(ms, id) ==> |r| < |ms|
  {
    var r := Filter(ms, (m: MovieModel) => m.id != id);
    SubseqMembers(r, ms);
    MissingIdShrinks(r, ms, id);
    assert forall i :: 0 <= i < |r| ==> r[i] in r;
    r
  }

  /** A subsequence that lost every record with a present id is strictly shorter. */
  lemma MissingIdShrinks(r: seq<MovieModel>, ms: seq<MovieModel>, id: int)
    requires IsSubseq(r, ms)
    requires forall m :: m in r ==> m.id != id
    ensures HasId(ms, id) ==> |r| < |ms|
  {
    if HasId(ms, id) {
      var k :| 0 <= k < |ms| && ms[k].id == id;
      SubseqLengthStrict(r, ms, ms[k]);
    }
  }

  /** create_movie: validate the payload, give it the current counter as id, append it, bump the counter. */
  function Create(s: Store, input: MovieCreate): (r: Step<MovieModel>)
    ensures r.out.Ok? <==> Valid(input)
    ensures r.out.Err? ==> r.out.error == Invalid && r.store == s
    ensures r.out.Ok? ==> r.out.value.id == s.nextId && Fields(r.out.value) == input
    ensures r.out.Ok? ==> |r.store.movies| == |s.movies| + 1
    ensures r.out.Ok? ==> r.store.movies[..|s.movies|] == s.movies
    ensures r.out.Ok? ==> r.store.movies[|s.movies|] == r.out.value
    ensures r.out.Ok? ==> r.store.nextId == s.nextId + 1
  {
    match Validate(input)
    case Err(e) => Step(s, Err(e))
    case Ok(c) =>
      var m := WithId(s.nextId, c);
      assert (s.movies + [m])[..|s.movies|] == s.movies;
      Step(Store(s.movies + [m], s.nextId + 1), Ok(m))
  }

  /** list_movies: the matching records when a filter is truthy and something matches,
      otherwise the whole store. */
  function List(s: Store, q: MovieSearchQuery): (r: Step<seq<MovieModel>>)
    ensures r.store == s && r.out.Ok?
    ensures IsSubseq(r.out.value, s.movies)
    ensures |s.movies| > 0 ==> |r.out.value| > 0
    ensures !Active(q) ==> r.out.value == s.movies
    ensures NoneMatch(q, s.movies) ==> r.out.value == s.movies
    ensures Active(q) && !NoneMatch(q, s.movies) ==>
      forall m :: multiset(r.out.value)[m] == if Matches(q, m) then multiset(s.movies)[m] else 0
    ensures Active(q) && !NoneMatch(q, s.movies) ==>
      forall m :: m in r.out.value <==> m in s.movies && Matches(q, m)
  {
    SubseqRefl(s.movies);
    if Active(q) then
      var filtered := Filter(s.movies, (m: MovieModel) => Matches(q, m));
      if filtered != [] then
        assert filtered[0] in filtered;
        Step(s, Ok(filtered))
      else
        assert forall i :: 0 <= i < |s.movies| ==> s.movies[i] in s.movies;
        Step(s, Ok(s.movies))
    else
      Step(s, Ok(s.movies))
  }

  /** get_movie: reject ids below 1, then return the first record with the id or report NotFound. */
  function Get(s: Store, id: int): (r: Step<MovieModel>)
    ensures r.store == s
    ensures r.out == Err(Invalid) <==> id < 1
    ensures r.out == Err(NotFound) <==> id >= 1 && !HasId(s.movies, id)
    ensures r.out.Ok? ==> r.out.value in s.movies && r.out.value.id == id
    ensures r.out.Ok? ==>
      exists k :: && 0 <= k < |s.movies|
                  && s.movies[k] == r.out.value
                  && (forall j :: 0 <= j < k ==> s.movies[j].id != id)
  {
    if id < 1 then
      Step(s, Err(Invalid))
    else
      match Find(s.movies, id)
      case None => Step(s, Err(NotFound))
      case Some(i) => Step(s, Ok(s.movies[i]))
  }

  /** update_movie: reject ids below 1 and invalid payloads, then overwrite title, playtime and
      genre of the first record with the id, keeping its id and position; NotFound if there is none. */
  function Update(s: Store, id: int, input: MovieCreate): (r: Step<MovieModel>)
    ensures r.out.Err? ==> r.store == s
    ensures r.out == Err(Invalid) <==> id < 1 || !Valid(input)
    ensures r.out == Err(NotFound) <==> id >= 1 && Valid(input) && !HasId(s.movies, id)
    ensures r.out.Ok? ==> r.out.value == WithId(id, input)
    ensures r.out.Ok? ==> r.store.nextId == s.nextId && |r.store.movies| == |s.movies|
    ensures r.out.Ok? ==>
      exists k :: && 0 <= k < |s.movies|
                  && s.movies[k].id == id
                  && (forall j :: 0 <= j < k ==> s.movies[j].id != id)
                  && r.store.movies[k] == r.out.value
                  && (forall j :: 0 <= j < |s.movies| && j != k ==> r.store.movies[j] == s.movies[j])
  {
    if id < 1 then
      Step(s, Err(Invalid))
    else
      match Validate(input)
      case Err(e) => Step(s, Err(e))
      case Ok(c) =>
        match Find(s.movies, id)
        case None => Step(s, Err(NotFound))
        case Some(k) =>
          var m := s.movies[k].(title := c.title, playtime := c.playtime, genre := c.genre);
          Step(Store(s.movies[k := m], s.nextId), Ok(m))
  }

  /** delete_movie: reject ids below 1, report NotFound if no record has the id, otherwise
      rebuild the sequence without the records that have it; the counter is untouched. */
  function Delete(s: Store, id: int): (r: Step<()>)
    ensures r.out.Err? ==> r.store == s
    ensures r.out == Err(Invalid) <==> id < 1
    ensures r.out == Err(NotFound) <==> id >= 1 && !HasId(s.movies, id)
    ensures r.out.Ok? ==> r.store.nextId == s.nextId
    ensures r.out.Ok? ==> IsSubseq(r.store.movies, s.movies) && |r.store.movies| < |s.movies|
    ensures r.out.Ok? ==> forall m :: m in r.store.movies <==> m in s.movies && m.id != id
    ensures r.out.Ok? ==>
      forall m :: multiset(r.store.movies)[m] == if m.id != id then multiset(s.movies)[m] else 0
    ensures r.out.Ok? ==> !HasId(r.store.movies, id)
  {
    if id < 1 then
      Step(s, Err(Invalid))
    else
      match Find(s.movies, id)
      case None => Step(s, Err(NotFound))
      case Some(_) => Step(Store(RemoveId(s.movies, id), s.nextId), Ok(()))
  }
}
