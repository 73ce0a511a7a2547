/** Clients that create collections and replace schemas side by side (`createCollection` and `replaceSchema` in
    internal/transport/httpapi/server.go): read a copy, derive the next one, store it if the version is still the one
    read. */
module SchemaClients {
  import opened Collections
  import opened Options
  import opened Schemas

  /** A replacement that got through: the copy it was derived from and what it stored. */
  datatype Commit = Commit(base: Collection, result: Collection)

  /** The repository, the copies that clients are working on, and the replacements so far. */
  datatype World = World(items: Items, held: map<nat, Collection>, commits: seq<Commit>)

  datatype Step =
    | Create(id: string, tenant: string, name: string, fields: seq<Field>, shards: int, retentionDays: int,
             actor: string, now: int)
    | Read(client: nat, tenant: string, id: string)
    | Replace(client: nat, fields: seq<Field>, expected: nat, actor: string, now: int)

  function FirstVersion(blank: string -> bool, step: Step): Option<Collection>
    requires step.Create?
  {
    if !SchemaAccepted(blank, 1, step.fields, step.actor) then None
    else
      var schema := Schema(1, step.fields, step.now, step.actor);
      match NewCollection(blank, step.id, step.tenant, step.name, schema, step.shards, step.actor, step.now)
      case Err(_) => None
      case Ok(c) => Some(c.(retentionDays := step.retentionDays))
  }

  /** The collection a replacement tries to store. `expected` is the version the client asked to replace. */
  function NextVersion(blank: string -> bool, c: Collection, fields: seq<Field>, expected: nat, actor: string,
                       now: int): Option<Collection>
  {
    if !SchemaAccepted(blank, c.schema.version + 1, fields, actor) then None
    else
      match ReplaceSchema(c, Schema(c.schema.version + 1, fields, now, actor), expected, actor, now)
      case Err(_) => None
      case Ok(c') => Some(c')
  }

  function Do(blank: string -> bool, w: World, step: Step): World
  {
    match step
    case Create(_, _, _, _, _, _, _, _) =>
      (match FirstVersion(blank, step)
       case None => w
       case Some(c) => w.(items := Created(w.items, c).0))
    case Read(client, tenant, id) =>
      if Key(tenant, id) in w.items then w.(held := w.held[client := w.items[Key(tenant, id)]]) else w
    case Replace(client, fields, expected, actor, now) =>
      if client !in w.held then w
      else
        var c := w.held[client];
        var done := w.(held := w.held - {client});
        match NextVersion(blank, c, fields, expected, actor, now)
        case None => done
        case Some(c') =>
          var (items, status) := Updated(w.items, c', c.version);
          if status == Done then done.(items := items, commits := w.commits + [Commit(c, c')]) else done
  }

  function DoFrom(blank: string -> bool, w: World, steps: seq<Step>): World
    decreases |steps|
  {
    if steps == [] then w else Do(blank, DoFrom(blank, w, steps[..|steps| - 1]), steps[|steps| - 1])
  }

  /** A whole run, from an empty repository. */
  function DoAll(blank: string -> bool, steps: seq<Step>): World
  {
    DoFrom(blank, World(map[], map[], []), steps)
  }

  /** The second half of the handler, on the repository itself: `c` is the copy read before. */
  method StoreReplacement(blank: string -> bool, repo: MemoryCollections, c: Collection, fields: seq<Field>,
                          expected: nat, actor: string, now: int) returns (stored: Option<Collection>)
    requires repo.Valid()
    modifies repo
    ensures repo.Valid()
    ensures
      match NextVersion(blank, c, fields, expected, actor, now)
      case None => stored == None && repo.items == old(repo.items)
      case Some(c') =>
        var (items, status) := Updated(old(repo.items), c', c.version);
        repo.items == items && stored == if status == Done then Some(c') else None
  {
    var schema := NewSchema(blank, c.schema.version + 1, fields, actor, now);
    if schema.Err? {
      return None;
    }
    var next := ReplaceSchema(c, schema.value, expected, actor, now);
    if next.Err? {
      return None;
    }
    var status := repo.Update(next.value, c.version);
    stored := if status == Done then Some(next.value) else None;
  }

  // ----- which requests go through, and what they store

  /** The fields can make a schema. */
  ghost predicate AreGoodFields(blank: string -> bool, fields: seq<Field>)
  {
    && |fields| > 0
    && (forall i :: 0 <= i < |fields| ==> IsGoodField(blank, fields[i]))
    && (forall i, j :: 0 <= i < j < |fields| ==> fields[i].name != fields[j].name)
  }

  lemma SchemaAcceptedIff(blank: string -> bool, version: nat, fields: seq<Field>, actor: string)
    ensures SchemaAccepted(blank, version, fields, actor) <==>
      version > 0 && AreGoodFields(blank, fields) && !blank(actor)
  {
    forall f: Field
      ensures ValidateField(blank, f).Ok? <==> IsGoodField(blank, f)
    {
      ValidateFieldIff(blank, f);
    }
    hide ValidateField, IsGoodField;
  }

  /** A replacement is in order exactly if it names the version of the copy, the collection is active or frozen, and
      fields and actor are good. It stores the copy with the fields as its next schema, in the next version, in the
      actor's name and at the time of the request, and everything else as it was. */
  lemma ReplacementIff(blank: string -> bool, c: Collection, fields: seq<Field>, expected: nat, actor: string, now: int)
    ensures NextVersion(blank, c, fields, expected, actor, now).Some? <==>
      expected == c.version && c.state in {Active, Frozen} && AreGoodFields(blank, fields) && !blank(actor)
    ensures
      match NextVersion(blank, c, fields, expected, actor, now)
      case None => true
      case Some(c') =>
        && c'.schema.fields == fields && c'.schema.version == c.schema.version + 1 && c'.schema.createdAt == now
        && c'.schema.createdBy == actor && c'.version == c.version + 1 && c'.updatedAt == now && c'.updatedBy == actor
        && c'.id == c.id && c'.tenant == c.tenant && c'.name == c.name && c'.state == c.state && c'.shards == c.shards
        && c'.retentionDays == c.retentionDays && c'.createdAt == c.createdAt && c'.createdBy == c.createdBy
  {
    SchemaAcceptedIff(blank, c.schema.version + 1, fields, actor);
    hide SchemaAccepted, AreGoodFields;
  }

  /** A collection is made exactly if id, tenant, name, actor and fields are good and it has 1 to 128 shards. It is
      active, in version 1, with the request's parts. */
  lemma CreationIff(blank: string -> bool, step: Step)
    requires step.Create?
    ensures FirstVersion(blank, step).Some? <==>
      && !blank(step.id) && !blank(step.tenant) && !blank(step.name) && !blank(step.actor)
      && AreGoodFields(blank, step.fields) && 1 <= step.shards <= 128
    ensures
      match FirstVersion(blank, step)
      case None => true
      case Some(c) =>
        && c.id == step.id && c.tenant == step.tenant && c.name == step.name && c.state == Active
        && c.schema.version == 1 && c.schema.fields == step.fields && c.schema.createdAt == step.now
        && c.schema.createdBy == step.actor && c.shards == step.shards && c.retentionDays == step.retentionDays
        && c.version == 1 && c.createdAt == c.updatedAt == step.now && c.createdBy == c.updatedBy == step.actor
  {
    SchemaAcceptedIff(blank, 1, step.fields, step.actor);
    hide SchemaAccepted, AreGoodFields;
  }

  /** An orderly replacement of the stored collection, made from a fresh copy, is stored; the other collections stay. */
  lemma OrderlyReplacementSucceeds(blank: string -> bool, w: World, step: Step)
    requires step.Replace? && step.client in w.held
    requires
      var c := w.held[step.client];
      && KeyOf(c) in w.items && w.items[KeyOf(c)] == c && step.expected == c.version && c.state in {Active, Frozen}
      && AreGoodFields(blank, step.fields) && !blank(step.actor)
    ensures
      var c := w.held[step.client];
      var w' := Do(blank, w, step);
      && |w'.commits| == |w.commits| + 1 && w'.items.Keys == w.items.Keys
      && (forall k :: k in w.items && k != KeyOf(c) ==> w'.items[k] == w.items[k])
      && var c' := w'.items[KeyOf(c)];
         && c'.schema.fields == step.fields && c'.updatedBy == step.actor && c'.version == c.version + 1
         && c'.state == c.state && c'.name == c.name
  {
    var c := w.held[step.client];
    ReplacementIff(blank, c, step.fields, step.expected, step.actor, step.now);
    DoOrderly(blank, w, step);
    hide *;
  }

  lemma DoOrderly(blank: string -> bool, w: World, step: Step)
    requires step.Replace? && step.client in w.held
    requires
      var c := w.held[step.client];
      && KeyOf(c) in w.items && w.items[KeyOf(c)] == c
      && NextVersion(blank, c, step.fields, step.expected, step.actor, step.now).Some?
    ensures
      var c := w.held[step.client];
      var c' := NextVersion(blank, c, step.fields, step.expected, step.actor, step.now).value;
      Do(blank, w, step) ==
        World(w.items[KeyOf(c) := c'], w.held - {step.client}, w.commits + [Commit(c, c')])
  {
    var c := w.held[step.client];
    NextVersionIs(blank, c, step.fields, step.expected, step.actor, step.now);
    hide NextVersion, GoodSchema, Derived;
  }

  // ----- the lineage of a collection

  function CommitsOf(commits: seq<Commit>, k: string): (r: seq<Commit>)
    ensures forall i :: 0 <= i < |r| ==> r[i] in commits && KeyOf(r[i].base) == k
    decreases |commits|
  {
    if commits == [] then []
    else
      CommitsOf(commits[..|commits| - 1], k)
      + if KeyOf(commits[|commits| - 1].base) == k then [commits[|commits| - 1]] else []
  }

  lemma CommitsOfSnoc(commits: seq<Commit>, commit: Commit, k: string)
    ensures CommitsOf(commits + [commit], k) == CommitsOf(commits, k) + if KeyOf(commit.base) == k then [commit] else []
  {
    assert (commits + [commit])[..|commits|] == commits;
  }

  predicate GoodSchema(blank: string -> bool, s: Schema)
  {
    s.fields != [] && AllFieldsValid(blank, s.fields) && DistinctNames(s.fields)
  }

  /** A collection as some client has ever seen it: it has an id, and its version counts its schemas. */
  predicate Proper(blank: string -> bool, c: Collection)
  {
    !blank(c.id) && c.version == c.schema.version && c.version >= 1 && GoodSchema(blank, c.schema)
  }

  /** What a replacement may change, and by how much. */
  predicate Derived(commit: Commit)
  {
    var base, result := commit.base, commit.result;
    && result.version == base.version + 1 && result.schema.version == base.schema.version + 1
    && (base.state == Active || base.state == Frozen)
    && result == base.(schema := result.schema, version := result.version, updatedAt := result.updatedAt,
                       updatedBy := result.updatedBy)
  }

  /** The replacements of a collection form one chain: the i-th turns version i + 1 into version i + 2, each was derived
      from what the one before it stored, and the last stored what is there now. */
  ghost predicate Lineage(blank: string -> bool, h: seq<Commit>, c: Collection)
  {
    && Proper(blank, c) && c.version == 1 + |h|
    && (forall i :: 0 <= i < |h| ==> Derived(h[i]) && h[i].base.version == i + 1)
    && (forall i :: 0 < i < |h| ==> h[i - 1].result == h[i].base)
    && (h != [] ==> h[|h| - 1].result == c)
  }

  lemma LineageGrows(blank: string -> bool, h: seq<Commit>, c: Collection, c': Collection)
    requires Lineage(blank, h, c) && Derived(Commit(c, c')) && GoodSchema(blank, c'.schema)
    ensures Lineage(blank, h + [Commit(c, c')], c')
  {
    hide GoodSchema, Derived;
    assert c'.version == c.version + 1 && Proper(blank, c') by {
      DerivedIs(Commit(c, c'));
    }
    hide Proper;
  }

  lemma DerivedIs(commit: Commit)
    ensures Derived(commit) ==>
      && commit.result.version == commit.base.version + 1
      && commit.result.schema.version == commit.base.schema.version + 1
      && commit.result.id == commit.base.id
  {
  }

  /** A copy a client holds is proper, and not newer than the stored collection; with the same version it is the stored
      collection. */
  ghost predicate Copies(blank: string -> bool, items: Items, c: Collection)
  {
    && Proper(blank, c) && KeyOf(c) in items
    && c.version <= items[KeyOf(c)].version
    && (c.version == items[KeyOf(c)].version ==> c == items[KeyOf(c)])
  }

  ghost predicate Lineages(blank: string -> bool, items: Items, commits: seq<Commit>)
  {
    && (forall k :: k in items ==> Lineage(blank, CommitsOf(commits, k), items[k]))
    && (forall k :: k !in items ==> CommitsOf(commits, k) == [])
  }

  ghost predicate Inv(blank: string -> bool, w: World)
  {
    && WellKeyed(w.items)
    && Lineages(blank, w.items, w.commits)
    && (forall client :: client in w.held ==> Copies(blank, w.items, w.held[client]))
  }

  lemma NextVersionIs(blank: string -> bool, c: Collection, fields: seq<Field>, expected: nat, actor: string, now: int)
    ensures
      match NextVersion(blank, c, fields, expected, actor, now)
      case None => true
      case Some(c') =>
        && Derived(Commit(c, c')) && GoodSchema(blank, c'.schema)
        && c'.id == c.id && c'.tenant == c.tenant && c.version == expected
  {
  }

  /** Comparing versions is as good as comparing whole collections: a replacement is stored if and only if it is in
      order and the copy it was derived from is still the stored collection. */
  lemma StoredIffCopyIsCurrent(blank: string -> bool, w: World, step: Step)
    requires Inv(blank, w) && step.Replace? && step.client in w.held
    ensures
      var c := w.held[step.client];
      var next := NextVersion(blank, c, step.fields, step.expected, step.actor, step.now);
      |Do(blank, w, step).commits| == |w.commits| + 1 <==> next.Some? && w.items[KeyOf(c)] == c
  {
    var c := w.held[step.client];
    NextVersionIs(blank, c, step.fields, step.expected, step.actor, step.now);
    CopyIsCurrentIff(blank, w.items, c);
    hide Inv, NextVersion, Derived, GoodSchema, Copies;
  }

  lemma CopyIsCurrentIff(blank: string -> bool, items: Items, c: Collection)
    requires Copies(blank, items, c)
    ensures KeyOf(c) in items && (c.version == items[KeyOf(c)].version <==> c == items[KeyOf(c)])
  {
  }

  lemma FirstVersionIs(blank: string -> bool, step: Step)
    requires step.Create? && FirstVersion(blank, step).Some?
    ensures Lineage(blank, [], FirstVersion(blank, step).value)
  {
  }

  lemma CreateKeeps(blank: string -> bool, w: World, c: Collection)
    requires Inv(blank, w) && Lineage(blank, [], c)
    ensures Inv(blank, w.(items := Created(w.items, c).0))
  {
    hide Lineage, Proper;
  }

  lemma CommitKeeps(blank: string -> bool, w: World, c: Collection, c': Collection)
    requires Inv(blank, w) && KeyOf(c) in w.items && w.items[KeyOf(c)] == c
    requires Derived(Commit(c, c')) && GoodSchema(blank, c'.schema)
    ensures Inv(blank, w.(items := w.items[KeyOf(c) := c'], commits := w.commits + [Commit(c, c')]))
  {
    assert KeyOf(c') == KeyOf(c) && c'.version == c.version + 1;
    KeyedAfter(w.items, c');
    hide Lineages, GoodSchema, Derived, Copies, KeyOf, WellKeyed;
    LineagesGrow(blank, w.items, w.commits, c, c');
    HeldOutlive(blank, w.items, w.held, c, c');
  }

  lemma KeyedAfter(items: Items, c: Collection)
    requires WellKeyed(items)
    ensures WellKeyed(items[KeyOf(c) := c])
  {
  }

  lemma HeldOutlive(blank: string -> bool, items: Items, held: map<nat, Collection>, c: Collection, c': Collection)
    requires KeyOf(c) in items && items[KeyOf(c)] == c && c'.version == c.version + 1
    requires forall client :: client in held ==> Copies(blank, items, held[client])
    ensures forall client :: client in held ==> Copies(blank, items[KeyOf(c) := c'], held[client])
  {
    hide Copies, KeyOf;
    forall client | client in held
      ensures Copies(blank, items[KeyOf(c) := c'], held[client])
    {
      CopiesOutlive(blank, items, held[client], c, c');
    }
  }

  lemma LineagesGrow(blank: string -> bool, items: Items, commits: seq<Commit>, c: Collection, c': Collection)
    requires Lineages(blank, items, commits) && KeyOf(c) in items && items[KeyOf(c)] == c
    requires Derived(Commit(c, c')) && GoodSchema(blank, c'.schema)
    ensures Lineages(blank, items[KeyOf(c) := c'], commits + [Commit(c, c')])
  {
    hide Lineage, GoodSchema, CommitsOf, Derived, KeyOf;
    var items', commits' := items[KeyOf(c) := c'], commits + [Commit(c, c')];
    LineageGrows(blank, CommitsOf(commits, KeyOf(c)), c, c');
    forall k
      ensures k in items' ==> Lineage(blank, CommitsOf(commits', k), items'[k])
      ensures k !in items' ==> CommitsOf(commits', k) == []
    {
      CommitsOfSnoc(commits, Commit(c, c'), k);
      if k == KeyOf(c) {
        assert items'[k] == c';
        assert CommitsOf(commits', k) == CommitsOf(commits, k) + [Commit(c, c')];
      } else {
        assert CommitsOf(commits', k) == CommitsOf(commits, k);
      }
    }
  }

  lemma CopiesOutlive(blank: string -> bool, items: Items, copy: Collection, c: Collection, c': Collection)
    requires Copies(blank, items, copy) && KeyOf(c) in items && items[KeyOf(c)] == c && c'.version == c.version + 1
    ensures Copies(blank, items[KeyOf(c) := c'], copy)
  {
    hide Proper, KeyOf;
  }

  lemma StepKeeps(blank: string -> bool, w: World, step: Step)
    requires Inv(blank, w)
    ensures Inv(blank, Do(blank, w, step))
  {
    hide Lineage, NextVersion, FirstVersion, GoodSchema, CommitsOf;
    match step
    case Create(_, _, _, _, _, _, _, _) =>
      if FirstVersion(blank, step).Some? {
        FirstVersionIs(blank, step);
        CreateKeeps(blank, w, FirstVersion(blank, step).value);
      }
    case Read(client, tenant, id) =>
      ReadKeeps(blank, w, client, Key(tenant, id));
    case Replace(client, fields, expected, actor, now) =>
      if client in w.held {
        var c := w.held[client];
        NextVersionIs(blank, c, fields, expected, actor, now);
        assert Copies(blank, w.items, c);
        var done := w.(held := w.held - {client});
        assert Inv(blank, done);
        var next := NextVersion(blank, c, fields, expected, actor, now);
        if next.Some? && w.items[KeyOf(c)].version == c.version {
          CommitKeeps(blank, done, c, next.value);
        }
      }
  }

  lemma ReadKeeps(blank: string -> bool, w: World, client: nat, k: string)
    requires Inv(blank, w)
    ensures k in w.items ==> Inv(blank, w.(held := w.held[client := w.items[k]]))
  {
    if k in w.items {
      assert Lineage(blank, CommitsOf(w.commits, k), w.items[k]);
      assert Copies(blank, w.items, w.items[k]);
      hide Lineage, Copies, CommitsOf;
    }
  }

  lemma {:induction false} InvFrom(blank: string -> bool, w: World, steps: seq<Step>)
    requires Inv(blank, w)
    ensures Inv(blank, DoFrom(blank, w, steps))
    decreases |steps|
  {
    if steps != [] {
      InvFrom(blank, w, steps[..|steps| - 1]);
      hide Inv, Do;
      StepKeeps(blank, DoFrom(blank, w, steps[..|steps| - 1]), steps[|steps| - 1]);
    }
  }

  lemma AlwaysInv(blank: string -> bool, steps: seq<Step>)
    ensures Inv(blank, DoAll(blank, steps))
  {
    assert Inv(blank, World(map[], map[], []));
    hide Inv;
    InvFrom(blank, World(map[], map[], []), steps);
  }

  /** No schema update is lost: whatever creations, reads and replacements interleave, the replacements of each
      collection form one chain from version 1 to what is stored, and its version and its schema's version are both
      one more than their number. */
  lemma NoLostSchemaUpdates(blank: string -> bool, steps: seq<Step>)
    ensures
      var w := DoAll(blank, steps);
      forall k :: k in w.items ==>
        var h := CommitsOf(w.commits, k);
        Lineage(blank, h, w.items[k]) && w.items[k].version == w.items[k].schema.version == 1 + |h|
  {
    AlwaysInv(blank, steps);
    hide DoAll, CommitsOf, GoodSchema;
  }

  /** Of the clients that read the same version of a collection at most one succeeds. */
  lemma AtMostOneSuccessPerVersion(blank: string -> bool, steps: seq<Step>, k: string, i: nat, j: nat)
    requires i < |CommitsOf(DoAll(blank, steps).commits, k)| && j < |CommitsOf(DoAll(blank, steps).commits, k)|
    ensures
      var h := CommitsOf(DoAll(blank, steps).commits, k);
      h[i].base.version == h[j].base.version ==> i == j
  {
    AlwaysInv(blank, steps);
    hide DoAll, CommitsOf, GoodSchema, Proper;
  }
}
