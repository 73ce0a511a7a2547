/** The shard coordinator of internal/shard/coordinator.go: documents are placed by a hash of their key, queries go
    to every shard, and the replies come back in arbitrary order. */
module ShardCoordinator {
  import opened IndexEngine
  import opened Options
  import opened Query
  import opened Search
  import opened Store

  datatype Gathered =
    | NoShards
    | Failed(soFar: seq<Result>, error: Reply)
    | Gathered(results: seq<Result>)

  ghost function AnswerOf(e: Engine, r: Request, now: int, patience: Option<nat>): Reply
    requires r.size >= 1
    reads e, e.segments
  {
    var view := View(e.StateOf());
    Within(patience, |view|, Answer(e.SetupOf(), e.codec, view, e.generation, r, now))
  }

  ghost predicate NoRepeat(order: seq<int>)
  {
    forall i, j :: 0 <= i < j < |order| ==> order[i] != order[j]
  }

  lemma AnswerOfIs(e: Engine, r: Request, now: int, patience: Option<nat>)
    requires r.size >= 1
    ensures AnswerOf(e, r, now, patience)
         == Within(patience, |View(e.StateOf())|, Answer(e.SetupOf(), e.codec, View(e.StateOf()), e.generation, r, now))
  {
  }

  type Positive = n: nat | n >= 1 witness 1

  lemma NoRepeatSnoc(order: seq<int>, id: int)
    ensures NoRepeat([])
    ensures NoRepeat(order) && id !in order ==> NoRepeat(order + [id])
  {
  }

  /** Whatever key a map iteration comes to next. */
  method AnyOf<T>(s: set<T>) returns (x: T)
    requires s != {}
    ensures x in s
  {
    x :| x in s;
  }

  class Coordinator {
    var shards: map<int, Engine>
    const count: Positive
    const hash: string -> nat  // 32-bit FNV-1a, library code

    constructor (count: int, hash: string -> nat)
      ensures shards == map[] && this.hash == hash
      ensures this.count == if count < 1 then 1 else count
    {
      shards := map[];
      this.count := if count < 1 then 1 else count;
      this.hash := hash;
    }

    method Register(id: int, engine: Engine)
      modifies this
      ensures shards == old(shards)[id := engine]
    {
      shards := shards[id := engine];
    }

    function Route(key: string): (shard: int)
      ensures 0 <= shard < count && hash(key) == hash(key) / count * count + shard
    {
      hash(key) % count
    }

    /** Asks every shard, in whatever order the map yields them; the first error ends it. */
    method Query(r: Request, now: int, patience: int -> Option<nat>) returns (out: Gathered, ghost order: seq<int>)
      requires (forall id :: id in shards ==> shards[id].Valid()) && r.size >= 1
      ensures out.NoShards? <==> shards == map[]
      ensures out.Failed? ==>
        && !out.error.Found?
        && (exists id :: id in shards && id !in order && AnswerOf(shards[id], r, now, patience(id)) == out.error)
        && |order| == |out.soFar| && NoRepeat(order)
        && forall i :: 0 <= i < |order| ==>
          order[i] in shards && AnswerOf(shards[order[i]], r, now, patience(order[i])) == Found(out.soFar[i])
      ensures out.Gathered? ==>
        && |order| == |out.results| && NoRepeat(order)
        && (forall id :: id in order <==> id in shards)
        && forall i :: 0 <= i < |order| ==>
          order[i] in shards && AnswerOf(shards[order[i]], r, now, patience(order[i])) == Found(out.results[i])
    {
      hide *;
      order := [];
      NoRepeatSnoc([], 0);
      if |shards| == 0 {
        return NoShards, [];
      }
      var results: seq<Result> := [];
      var pending := shards.Keys;
      while pending != {}
        invariant pending <= shards.Keys
        invariant forall id :: id in shards ==> shards[id].Valid()
        invariant |order| == |results| && NoRepeat(order)
        invariant forall id :: id in order <==> id in shards.Keys - pending
        invariant forall i :: 0 <= i < |order| ==> order[i] in shards
        invariant forall i :: 0 <= i < |order| ==> shards[order[i]].Valid()
        invariant forall i ::
          0 <= i < |order| ==> AnswerOf(shards[order[i]], r, now, patience(order[i])) == Found(results[i])
        decreases pending
      {
        var id := AnyOf(pending);
        pending := pending - {id};
        var reply := shards[id].Search(r, now, patience(id));
        AnswerOfIs(shards[id], r, now, patience(id));
        if !reply.Found? {
          return Failed(results, reply), order;
        }
        NoRepeatSnoc(order, id);
        results := results + [reply.result];
        order := order + [id];
      }
      out := Gathered.Gathered(results);
    }
  }
}
