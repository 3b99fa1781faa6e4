# Movie store: a Dafny model

This project models the core of a small movie-management HTTP service. The service
keeps an in-memory, ordered list of movie records and a next-id counter. It offers
five handlers: create, list/search, get by id, update and delete. The record model
validates the payload: a non-empty title, a playtime above zero and a non-empty
genre. A stored record is that payload plus an `id`.

The store is modelled as a value, `MovieStore.Store(movies, nextId)`, starting at
`MovieStore.Initial` (no records, counter 1). Each handler is a pure function that
returns a `Step`: the store after the request and either the response value or an
error. An HTTP 422 becomes `Invalid` and an HTTP 404 becomes `NotFound`.
`StoreInvariants` replays any sequence of requests (`Run`) and proves these facts
about the result:

- ids are at least 1, below the counter and strictly increasing in list order;
- ids are never handed out twice, and a deleted id never comes back;
- every record satisfies the field constraints.

Files (one module each):

| file | module | models |
|---|---|---|
| outcomes.dfy | `Outcomes` | `Option`, the error kinds, `Result` |
| text.dfy | `Text` | lowercasing and the substring test `needle in hay` |
| seqs.dfy | `Seqs` | the list comprehension `[x for x in xs if p(x)]` and the subsequence relation |
| model.dfy | `Model` | `model.py`: `MovieCreate`, `MovieModel`, `MovieSearchQuery` and validation |
| store.dfy | `MovieStore` | `main.py`: the store and the five handlers |
| invariants.dfy | `StoreInvariants` | the store invariant over any request sequence, and id reuse |
| scenarios.dfy | `Scenarios` | concrete request sequences |

Three behaviours of the code shape the model:

- **Update validates its payload.** The update body has type `MovieCreate`, so the
  framework applies the three field constraints before the handler runs. An invalid
  body is therefore reported as `Invalid`, never stored.
- **Delete removes every record with the id.** It rebuilds the list without all
  records carrying the id (`main.py:64`). Update changes only the first such record
  (`main.py:47`). Under the store invariant there is exactly one such record, and
  `DeleteRemovesOne` and `UpdateTouchesOne` state that.
- **Invalid comes before NotFound.** The framework checks the path id (`ge=1`) and
  the body before the handler looks anything up.

## Model

| member | source | states |
|---|---|---|
| Model.Validate | model.py:5-8 | a payload is accepted, unchanged, iff the title has at least one character, the playtime is above 0 and the genre has at least one character; otherwise the result is `Invalid` |
| Model.PlaytimeBoundary | model.py:7 | playtime 0 is rejected and playtime 1 is accepted |
| Model.EmptyStringsRejected | model.py:6-8 | an empty title or an empty genre is rejected, whatever the other fields hold |
| Model.WithIdFields | model.py:11-12 | a stored record is exactly a payload plus an id: building a record and taking its payload back are inverse, and the record is valid iff the payload is |
| Model.ValidRecordIgnoresId | model.py:12 | the record's validity does not depend on its id, which has no range constraint of its own |
| Text.Lower | main.py:28-29 | lowercasing keeps the length, leaves no upper-case letter, and changes exactly the upper-case letters, each to its lower-case letter |
| Text.Contains | main.py:28-29 | the string `in` test is true iff the needle occurs as a contiguous block of the haystack |
| Text.FirstCharAbsent | main.py:28-29 | a needle whose first character is missing from the haystack is not contained in it |
| Seqs.Filter | main.py:26-30 | the comprehension keeps every element satisfying the condition with its multiplicity, drops every other element, and keeps the original order (a subsequence) |
| Seqs.FilterUnique | main.py:26-30 | the comprehension is the only subsequence with those multiplicities, so the contract of `Filter` determines its result |
| Seqs.FilterDropsOne | main.py:64 | when exactly one position fails the condition, the comprehension is the original with that one element spliced out |
| MovieStore.Find | main.py:38 | the lookup finds the first position holding the id, and finds nothing exactly when no record has the id |
| MovieStore.RemoveId | main.py:64 | the rebuilt list is a subsequence of the old one, holding every record without the id as often as the old list did, and no record with the id; it is strictly shorter if the id was present |
| MovieStore.Create | main.py:14-19 | succeeds iff the payload is valid. On success the new record has id `nextId` and the payload's fields, is appended after an unchanged prefix, and the counter grows by exactly 1. On failure the result is `Invalid` and the store is untouched |
| MovieStore.List | main.py:24-32 | the store is unchanged, and the result is always a subsequence of the store that is non-empty when the store is. With no truthy filter, or when nothing matches, the result is the whole store in order. Otherwise it holds exactly the matching records (title OR genre, case-insensitive substring) with their multiplicities |
| MovieStore.Get | main.py:37-41 | the store is unchanged. The result is `Invalid` iff the id is below 1, `NotFound` iff the id is at least 1 and absent, and otherwise the first record in list order with that id |
| MovieStore.Update | main.py:46-54 | the result is `Invalid` iff the id is below 1 or the payload is invalid, and `NotFound` iff neither holds and the id is absent; on either error the store is untouched. On success only the first record with the id changes: it takes the payload's fields and keeps its id and position. All other records, the length and the counter are unchanged |
| MovieStore.Delete | main.py:59-65 | errors are `Invalid` iff the id is below 1 and `NotFound` iff it is at least 1 and absent, with the store untouched. On success the new list is a strictly shorter subsequence holding every record without the id as often as before and none with it, and the counter is unchanged |
| StoreInvariants.InitialInv | main.py:8-9 | the empty store with counter 1 satisfies the invariant |
| StoreInvariants.IncreasingIsDistinct | main.py:16-18 | strictly increasing ids are pairwise distinct |
| StoreInvariants.CreatePreservesInv | main.py:14-19 | create keeps ids at least 1, below the counter and increasing, and every record valid |
| StoreInvariants.UpdatePreservesInv | main.py:46-54 | update keeps the invariant |
| StoreInvariants.DeletePreservesInv | main.py:59-65 | delete keeps the invariant |
| StoreInvariants.SubseqKeepsIncreasing | main.py:64 | rebuilding the list without some records keeps the ids of the rest strictly increasing |
| StoreInvariants.SubseqKeepsInv | main.py:64 | under the invariant, keeping any subsequence of the records with the same counter keeps the invariant |
| StoreInvariants.GetUnique | main.py:37-41 | under the invariant, get returns the one record that has the id |
| StoreInvariants.CreateThenGet | main.py:14-41 | under the invariant, round trip: a get of the new id after a valid create returns the payload plus that id |
| StoreInvariants.DeleteThenGet | main.py:36-65 | a get of a deleted id fails with `NotFound` |
| StoreInvariants.DeleteRemovesOne | main.py:61-64 | under the invariant, delete of a present id (at least 1) succeeds, removes exactly the one record with that id and keeps the others in their relative order |
| StoreInvariants.UpdateTouchesOne | main.py:47-53 | under the invariant, update rewrites exactly the record with the id and keeps every id at its position |
| StoreInvariants.UpdateThenGet | main.py:36-54 | on every store, a get after a successful update returns the new fields under the old id |
| StoreInvariants.ApplyCounter | main.py:16-18 | only a successful create moves the counter, and then by exactly 1 |
| StoreInvariants.RunPreservesInv | main.py:8-65 | after any sequence of requests, every id is at least 1 and below the counter, ids strictly increase in list order, and every record has a non-empty title, a positive playtime and a non-empty genre |
| StoreInvariants.AssignedConsecutive | main.py:9-18 | the ids handed out are consecutive, starting at the counter, and the counter ends one past the last |
| StoreInvariants.IdsFromInitial | main.py:9-18 | from process start, the k-th created record gets id k+1, whatever deletes happen in between. So ids are distinct, strictly increasing and start at 1 |
| StoreInvariants.CreateKeepsAbsent | main.py:14-19 | under the invariant, a create never adds an id that is below the counter and absent from the store |
| StoreInvariants.UpdateKeepsAbsent | main.py:46-54 | on every store, an update never introduces an id that was absent |
| StoreInvariants.DeleteKeepsAbsent | main.py:59-65 | a delete never introduces an id that was absent |
| StoreInvariants.AbsentStaysAbsent | main.py:9-65 | an id below the counter that is absent from the store stays absent after any requests and is never assigned |
| StoreInvariants.DeletedIdNeverReturns | main.py:59-64 | under the invariant, delete of a present id succeeds, and after any later requests that id is never assigned again and never found again |
| Scenarios.CreateGetDeleteGet | main.py:14-65 | from process start: create returns id 1, get returns the same record, delete succeeds, and the next get is `NotFound` |
| Scenarios.FilterHit | main.py:26-31 | with "Inception" and "Up" stored, the title filter "Inception" returns only the Inception record |
| Scenarios.ZzzMatchesNothing | main.py:28-29 | neither "Inception"/"Sci-Fi" nor "Up"/"Comedy" matches the title filter "zzz" |
| Scenarios.FilterMissFallsBack | main.py:31 | the title filter "zzz" matches nothing, so both records come back |

`MovieSearchQuery` is the datatype `Model.MovieSearchQuery`. It has two `Option<string>`
fields and `Model.DefaultQuery` has both absent (`model.py:25-27`). `List` takes it
as its query. Get is a pure function whose store is unchanged, so calling it twice
without a mutation gives the same result.

## Left out

- HTTP routing, decorators, response serialisation and status codes (`main.py:5`, `main.py:13`, `main.py:23`, `main.py:36`, `main.py:45`, `main.py:58`): outcomes are the `Result` datatype instead.
- Field metadata, the `Config.schema_extra` example (`model.py:14-22`) and `.dict()` unpacking (`main.py:16`). Only the three validation predicates are kept.
- Wrong-typed or missing JSON fields, and non-integer path ids: Dafny's types rule them out, so only the range and length constraints are modelled.
- Text.Lower: folds only the ASCII letters A-Z. Python's `str.lower()` (`main.py:28-29`) applies full Unicode case mapping, which is out of scope here.
- The missing-body path of update. When the body is absent it is `None` (`main.py:46`), and a found record then raises `AttributeError` at `main.py:51`, a server error. `Update` always takes a payload.
- The import of `models` (`main.py:3`), which does not match the file name `model.py`, and the unused `MovieSearchQuery` import. These are packaging matters, not behaviour.
- Concurrency around the global list and counter: each handler is one atomic step on an explicit store value.
- Object aliasing: update mutates the stored object in place (`main.py:51-53`), whereas the model builds a new record at the same position. Nothing else holds a reference that outlives a request, so the two are indistinguishable.
