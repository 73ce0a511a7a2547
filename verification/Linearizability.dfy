/** A search is linearized at its snapshot: whatever happens to the engine while the search evaluates. */
module Linearizability {
  import opened IndexEngine
  import opened Options
  import opened Search
  import opened Store
  import Query

  method ApplyAll(e: Engine, ops: seq<Op>)
    requires e.Valid()
    modifies e
    ensures e.Valid() && e.StateOf() == Run(old(e.StateOf()), ops).0
    ensures old(e.segments) <= e.segments
  {
    hide *;
    ghost var start := e.StateOf();
    NothingRun(start);
    for i := 0 to |ops|
      invariant e.Valid() && e.StateOf() == Run(start, ops[..i]).0
      invariant old(e.segments) <= e.segments
    {
      var _ := e.Apply(ops[i]);
      RunSnoc(start, ops[..i], ops[i]);
      assert ops[..i + 1] == ops[..i] + [ops[i]];
    }
    assert ops[..|ops|] == ops;
  }

  /** A search whose evaluation is overtaken by any writes and flushes answers for the instant of its snapshot. */
  method SearchAmidWrites(e: Engine, ops: seq<Op>, r: Query.Request, now: int, patience: Option<nat>)
    returns (reply: Reply)
    requires e.Valid() && r.size >= 1
    modifies e
    ensures e.Valid() && e.StateOf() == Run(old(e.StateOf()), ops).0
    ensures
      var view := View(old(e.StateOf()));
      reply == Within(patience, |view|, Answer(e.SetupOf(), e.codec, view, old(e.generation), r, now))
  {
    hide *;
    ghost var view := View(e.StateOf());
    ViewIsWellKeyed(e);
    var snap := e.TakeSnapshot();
    ApplyAll(e, ops);
    assert Shows(e.analyzer, snap, view);
    reply := e.SearchSnapshot(snap, view, r, now, patience);
  }

  lemma NothingRun(s: State)
    ensures Run(s, []).0 == s
  {
  }
}
