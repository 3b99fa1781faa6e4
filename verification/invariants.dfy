/**
 The store invariant and what follows from it over any sequence of
 requests: ids are at least 1, below the counter, strictly increasing in
 list order (hence pairwise distinct) and never handed out twice, and every
 record satisfies the field constraints.
 */
module StoreInvariants {
  import opened Outcomes
  import opened Model
  import opened Seqs
  import opened MovieStore

  /** Ids grow strictly along the sequence. */
  ghost predicate IdsIncreasing(ms: seq<MovieModel>) {
    forall i, j :: 0 <= i < j < |ms| ==> ms[i].id < ms[j].id
  }

  /** No two records share an id. */
  ghost predicate IdsDistinct(ms: seq<MovieModel>) {
    forall i, j :: 0 <= i < |ms| && 0 <= j < |ms| && i != j ==> ms[i].id != ms[j].id
  }

  /** The store invariant. */
  ghost predicate Inv(s: Store) {
    && s.nextId >= 1
    && IdsIncreasing(s.movies)
    && (forall i :: 0 <= i < |s.movies| ==> 1 <= s.movies[i].id < s.nextId)
    && (forall i :: 0 <= i < |s.movies| ==> ValidRecord(s.movies[i]))
  }

  lemma InitialInv()
    ensures Inv(Initial)
  {
  }

  /** Increasing ids are distinct ids. */
  lemma IncreasingIsDistinct(ms: seq<MovieModel>)
    requires IdsIncreasing(ms)
    ensures IdsDistinct(ms)
  {
    forall i, j | 0 <= i < |ms| && 0 <= j < |ms| && i != j
      ensures ms[i].id != ms[j].id
    {
      if i < j {
        assert ms[i].id < ms[j].id;
      } else {
        assert ms[j].id < ms[i].id;
      }
    }
  }

  /** Dropping records keeps the ids of the rest increasing. */
  lemma {:induction false} SubseqKeepsIncreasing(a: seq<MovieModel>, b: seq<MovieModel>)
    requires IsSubseq(a, b) && IdsIncreasing(b)
    ensures IdsIncreasing(a)
    decreases |b|
  {
    if |a| == 0 {
    } else if a[0] == b[0] && IsSubseq(a[1..], b[1..]) {
      SubseqKeepsIncreasing(a[1..], b[1..]);
      SubseqMembers(a[1..], b[1..]);
      forall j | 0 < j < |a|
        ensures a[0].id < a[j].id
      {
        assert a[j] == a[1..][j - 1];
        assert a[j] in b[1..];
        var k :| 0 <= k < |b[1..]| && b[1..][k] == a[j];
        assert b[k + 1] == a[j];
      }
    } else {
      SubseqKeepsIncreasing(a, b[1..]);
    }
  }

  lemma CreatePreservesInv(s: Store, input: MovieCreate)
    requires Inv(s)
    ensures Inv(Create(s, input).store)
  {
    var r := Create(s, input);
    if r.out.Ok? {
      var ms := r.store.movies;
      forall j | 0 <= j < |s.movies|
        ensures ms[j] == s.movies[j]
      {
        assert ms[..|s.movies|][j] == ms[j];
      }
    }
  }

  lemma UpdatePreservesInv(s: Store, id: int, input: MovieCreate)
    requires Inv(s)
    ensures Inv(Update(s, id, input).store)
  {
  }

  /** Keeping a subsequence of the records, with the same counter, keeps the invariant. */
  lemma SubseqKeepsInv(s: Store, ms: seq<MovieModel>)
    requires Inv(s) && IsSubseq(ms, s.movies)
    ensures Inv(Store(ms, s.nextId))
  {
    SubseqKeepsIncreasing(ms, s.movies);
    SubseqMembers(ms, s.movies);
    forall j | 0 <= j < |ms|
      ensures 1 <= ms[j].id < s.nextId && ValidRecord(ms[j])
    {
      assert ms[j] in ms;
    }
  }

  lemma DeletePreservesInv(s: Store, id: int)
    requires Inv(s)
    ensures Inv(Delete(s, id).store)
  {
    var r := Delete(s, id);
    if r.out.Ok? {
      SubseqKeepsInv(s, r.store.movies);
      assert r.store == Store(r.store.movies, s.nextId);
    }
  }

  /** Under the invariant a successful get returns THE record with that id. */
  lemma GetUnique(s: Store, id: int)
    requires Inv(s)
    ensures Get(s, id).out.Ok? ==>
      forall j :: 0 <= j < |s.movies| && s.movies[j].id == id ==> Get(s, id).out.value == s.movies[j]
  {
    IncreasingIsDistinct(s.movies);
  }

  /** Round trip: a created record is found again by its new id, equal to the payload plus that id. */
  lemma CreateThenGet(s: Store, input: MovieCreate)
    requires Inv(s) && Valid(input)
    ensures Create(s, input).out == Ok(WithId(s.nextId, input))
    ensures Get(Create(s, input).store, s.nextId).out == Ok(WithId(s.nextId, input))
  {
    var c := Create(s, input);
    CreatePreservesInv(s, input);
    GetUnique(c.store, s.nextId);
    assert c.store.movies[|s.movies|].id == s.nextId;
  }

  /** After a successful delete the id is gone. */
  lemma DeleteThenGet(s: Store, id: int)
    requires Delete(s, id).out.Ok?
    ensures Get(Delete(s, id).store, id).out == Err(NotFound)
  {
  }

  /** Under the invariant, delete splices out exactly the one record with the id. */
  lemma DeleteRemovesOne(s: Store, id: int)
    requires Inv(s) && id >= 1 && HasId(s.movies, id)
    ensures Delete(s, id).out.Ok?
    ensures exists k :: && 0 <= k < |s.movies| && s.movies[k].id == id
                        && Delete(s, id).store.movies == s.movies[..k] + s.movies[k + 1..]
  {
    IncreasingIsDistinct(s.movies);
    var k :| 0 <= k < |s.movies| && s.movies[k].id == id;
    FilterDropsOne(s.movies, (m: MovieModel) => m.id != id, k);
  }

  /** Under the invariant, update rewrites exactly the record with the id and keeps every id in place. */
  lemma UpdateTouchesOne(s: Store, id: int, input: MovieCreate)
    requires Inv(s) && Update(s, id, input).out.Ok?
    ensures |Update(s, id, input).store.movies| == |s.movies|
    ensures forall j :: 0 <= j < |s.movies| ==> Update(s, id, input).store.movies[j].id == s.movies[j].id
    ensures forall j :: 0 <= j < |s.movies| && s.movies[j].id == id ==>
      Update(s, id, input).store.movies[j] == WithId(id, input)
    ensures forall j :: 0 <= j < |s.movies| && s.movies[j].id != id ==>
      Update(s, id, input).store.movies[j] == s.movies[j]
  {
    IncreasingIsDistinct(s.movies);
  }

  /** A get after an update sees the new fields under the old id. */
  lemma UpdateThenGet(s: Store, id: int, input: MovieCreate)
    requires Update(s, id, input).out.Ok?
    ensures Get(Update(s, id, input).store, id).out == Ok(WithId(id, input))
  {
  }

  /** One request of any kind. */
  datatype Op =
    | CreateOp(input: MovieCreate)
    | ListOp(query: MovieSearchQuery)
    | GetOp(id: int)
    | UpdateOp(id: int, input: MovieCreate)
    | DeleteOp(id: int)

  /** The store after serving one request. */
  function Apply(s: Store, op: Op): Store {
    match op
    case CreateOp(input) => Create(s, input).store
    case ListOp(q) => List(s, q).store
    case GetOp(id) => Get(s, id).store
    case UpdateOp(id, input) => Update(s, id, input).store
    case DeleteOp(id) => Delete(s, id).store
  }

  /** The store after serving the requests in order. */
  function Run(s: Store, ops: seq<Op>): Store
    decreases |ops|
  {
    if |ops| == 0 then s else Run(Apply(s, ops[0]), ops[1..])
  }

  /** The request creates a record. */
  predicate Creates(s: Store, op: Op) {
    op.CreateOp? && Create(s, op.input).out.Ok?
  }

  /** The ids handed out by the successful creates among the requests, in order. */
  function Assigned(s: Store, ops: seq<Op>): seq<int>
    decreases |ops|
  {
    if |ops| == 0 then []
    else (if Creates(s, ops[0]) then [s.nextId] else []) + Assigned(Apply(s, ops[0]), ops[1..])
  }

  /** Only a successful create moves the counter, and then by exactly one. */
  lemma ApplyCounter(s: Store, op: Op)
    ensures Apply(s, op).nextId == if Creates(s, op) then s.nextId + 1 else s.nextId
  {
  }

  lemma ApplyPreservesInv(s: Store, op: Op)
    requires Inv(s)
    ensures Inv(Apply(s, op))
  {
    match op
    case CreateOp(input) => CreatePreservesInv(s, input);
    case ListOp(q) =>
    case GetOp(id) =>
    case UpdateOp(id, input) => UpdatePreservesInv(s, id, input);
    case DeleteOp(id) => DeletePreservesInv(s, id);
  }

  /** The invariant holds after any sequence of requests. */
  lemma {:induction false} RunPreservesInv(s: Store, ops: seq<Op>)
    requires Inv(s)
    ensures Inv(Run(s, ops))
    decreases |ops|
  {
    if |ops| > 0 {
      ApplyPreservesInv(s, ops[0]);
      RunPreservesInv(Apply(s, ops[0]), ops[1..]);
    }
  }

  /** The ids handed out are consecutive from the counter, and the counter ends past the last one. */
  lemma {:induction false} AssignedConsecutive(s: Store, ops: seq<Op>)
    ensures Run(s, ops).nextId == s.nextId + |Assigned(s, ops)|
    ensures forall k :: 0 <= k < |Assigned(s, ops)| ==> Assigned(s, ops)[k] == s.nextId + k
    decreases |ops|
  {
    if |ops| > 0 {
      var s' := Apply(s, ops[0]);
      ApplyCounter(s, ops[0]);
      AssignedConsecutive(s', ops[1..]);
    }
  }

  /** From process start: the k-th created record gets id k + 1, so the ids handed out are
      distinct, strictly increasing and start at 1, whatever deletes happen in between. */
  lemma IdsFromInitial(ops: seq<Op>)
    ensures forall k :: 0 <= k < |Assigned(Initial, ops)| ==> Assigned(Initial, ops)[k] == k + 1
    ensures forall i, j :: 0 <= i < j < |Assigned(Initial, ops)| ==>
      Assigned(Initial, ops)[i] < Assigned(Initial, ops)[j]
    ensures Run(Initial, ops).nextId == |Assigned(Initial, ops)| + 1
    ensures Inv(Run(Initial, ops))
  {
    AssignedConsecutive(Initial, ops);
    InitialInv();
    RunPreservesInv(Initial, ops);
  }

  lemma CreateKeepsAbsent(s: Store, input: MovieCreate, id: int)
    requires Inv(s) && id < s.nextId && !HasId(s.movies, id)
    ensures !HasId(Create(s, input).store.movies, id)
  {
    var ms := Create(s, input).store.movies;
    if Create(s, input).out.Ok? {
      forall i | 0 <= i < |ms|
        ensures ms[i].id != id
      {
        if i < |s.movies| {
          assert ms[..|s.movies|][i] == ms[i];
        }
      }
    }
  }

  lemma UpdateKeepsAbsent(s: Store, x: int, input: MovieCreate, id: int)
    requires !HasId(s.movies, id)
    ensures !HasId(Update(s, x, input).store.movies, id)
  {
  }

  lemma DeleteKeepsAbsent(s: Store, x: int, id: int)
    requires !HasId(s.movies, id)
    ensures !HasId(Delete(s, x).store.movies, id)
  {
    var ms := Delete(s, x).store.movies;
    if Delete(s, x).out.Ok? {
      assert forall i :: 0 <= i < |ms| ==> ms[i] in ms;
    }
  }

  /** One request never brings back an id that is below the counter and absent. */
  lemma ApplyKeepsAbsent(s: Store, op: Op, id: int)
    requires Inv(s) && id < s.nextId && !HasId(s.movies, id)
    ensures id < Apply(s, op).nextId && !HasId(Apply(s, op).movies, id)
  {
    ApplyCounter(s, op);
    match op {
      case CreateOp(input) => CreateKeepsAbsent(s, input, id);
      case ListOp(q) =>
      case GetOp(x) =>
      case UpdateOp(x, input) => UpdateKeepsAbsent(s, x, input, id);
      case DeleteOp(x) => DeleteKeepsAbsent(s, x, id);
    }
  }

  /** An id below the counter that is absent from the store never comes back. */
  lemma {:induction false} AbsentStaysAbsent(s: Store, ops: seq<Op>, id: int)
    requires Inv(s) && id < s.nextId && !HasId(s.movies, id)
    ensures !HasId(Run(s, ops).movies, id)
    ensures id !in Assigned(s, ops)
    decreases |ops|
  {
    AssignedConsecutive(s, ops);
    if |ops| > 0 {
      ApplyPreservesInv(s, ops[0]);
      ApplyKeepsAbsent(s, ops[0], id);
      AbsentStaysAbsent(Apply(s, ops[0]), ops[1..], id);
    }
  }

  /** An id removed by delete is never assigned again and never found again. */
  lemma DeletedIdNeverReturns(s: Store, id: int, ops: seq<Op>)
    requires Inv(s) && id >= 1 && HasId(s.movies, id)
    ensures Delete(s, id).out.Ok?
    ensures id !in Assigned(Delete(s, id).store, ops)
    ensures !HasId(Run(Delete(s, id).store, ops).movies, id)
    ensures Get(Run(Delete(s, id).store, ops), id).out == Err(NotFound)
  {
    DeletePreservesInv(s, id);
    AbsentStaysAbsent(Delete(s, id).store, ops, id);
  }
}
