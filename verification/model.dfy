/**
 The record model: the creation payload `MovieCreate` with its three field
 constraints, the stored record `MovieModel` (the payload plus an `id`),
 and the search-query shape `MovieSearchQuery`.
 */
module Model {
  import opened Outcomes

  /** A creation (or full-replacement) payload as it arrives, before validation. */
  datatype MovieCreate = MovieCreate(title: string, playtime: int, genre: string)

  /** A stored record. The `id` field carries no range constraint of its own. */
  datatype MovieModel = MovieModel(id: int, title: string, playtime: int, genre: string)

  /** The search query: two optional strings, both absent by default. */
  datatype MovieSearchQuery = MovieSearchQuery(title: Option<string>, genre: Option<string>)

  /** The query with both fields at their default. */
  const DefaultQuery: MovieSearchQuery := MovieSearchQuery(None, None)

  /** `title`: at least one character. */
  predicate ValidTitle(title: string) {
    |title| >= 1
  }

  /** `playtime`: strictly greater than zero. */
  predicate ValidPlaytime(playtime: int) {
    playtime > 0
  }

  /** `genre`: at least one character. */
  predicate ValidGenre(genre: string) {
    |genre| >= 1
  }

  predicate Valid(c: MovieCreate) {
    ValidTitle(c.title) && ValidPlaytime(c.playtime) && ValidGenre(c.genre)
  }

  /** A stored record satisfies the same three constraints as a payload; its id is not constrained. */
  predicate ValidRecord(m: MovieModel) {
    ValidTitle(m.title) && ValidPlaytime(m.playtime) && ValidGenre(m.genre)
  }

  /** Request validation of a payload: accepted unchanged, or rejected as `Invalid`. */
  function Validate(c: MovieCreate): (r: Result<MovieCreate>)
    ensures r.Ok? <==> |c.title| >= 1 && c.playtime > 0 && |c.genre| >= 1
    ensures r.Ok? ==> r.value == c
    ensures r.Err? ==> r.error == Invalid
  {
    if Valid(c) then Ok(c) else Err(Invalid)
  }

  /** The stored record built from a payload and an id. */
  function WithId(id: int, c: MovieCreate): MovieModel {
    MovieModel(id, c.title, c.playtime, c.genre)
  }

  /** The payload part of a stored record (everything but the id). */
  function Fields(m: MovieModel): MovieCreate {
    MovieCreate(m.title, m.playtime, m.genre)
  }

  /** A record is exactly its payload plus its id: the two views convert losslessly. */
  lemma WithIdFields(id: int, c: MovieCreate, m: MovieModel)
    ensures Fields(WithId(id, c)) == c && WithId(id, c).id == id
    ensures WithId(m.id, Fields(m)) == m
    ensures ValidRecord(WithId(id, c)) <==> Valid(c)
  {
  }

  /** Validity of a record does not depend on its id, whatever the id is. */
  lemma ValidRecordIgnoresId(m: MovieModel, id: int)
    ensures ValidRecord(m.(id := id)) <==> ValidRecord(m)
  {
  }

  /** The playtime boundary: 0 is rejected, 1 is accepted. */
  lemma PlaytimeBoundary(title: string, genre: string)
    requires |title| >= 1 && |genre| >= 1
    ensures Validate(MovieCreate(title, 0, genre)) == Err(Invalid)
    ensures Validate(MovieCreate(title, 1, genre)) == Ok(MovieCreate(title, 1, genre))
  {
  }

  /** An empty title or an empty genre is rejected whatever the other fields are. */
  lemma EmptyStringsRejected(c: MovieCreate)
    ensures c.title == "" ==> Validate(c) == Err(Invalid)
    ensures c.genre == "" ==> Validate(c) == Err(Invalid)
  {
  }
}
