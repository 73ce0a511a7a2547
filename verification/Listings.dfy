/** Walking a tenant's collections page by page while others create and update (`List` in
    internal/repository/memory.go). */
module Listings {
  import opened Collections
  import opened Schemas
  import Text

  datatype Step = Creating(c: Collection) | Updating(c: Collection, expected: nat)

  function After(items: Items, step: Step): Items
  {
    match step
    case Creating(c) => Created(items, c).0
    case Updating(c, expected) => Updated(items, c, expected).0
  }

  function AfterAll(items: Items, steps: seq<Step>): Items
    decreases |steps|
  {
    if steps == [] then items else After(AfterAll(items, steps[..|steps| - 1]), steps[|steps| - 1])
  }

  /** An update that gets through replaces a collection by one of the same tenant. Whoever updates a copy of what it
      read does that. */
  predicate KeepsTenant(items: Items, step: Step)
  {
    step.Updating? && Updated(items, step.c, step.expected).1 == Done ==> items[KeyOf(step.c)].tenant == step.c.tenant
  }

  predicate AllKeepTenants(items: Items, steps: seq<Step>)
    decreases |steps|
  {
    steps == [] ||
    (AllKeepTenants(items, steps[..|steps| - 1])
      && KeepsTenant(AfterAll(items, steps[..|steps| - 1]), steps[|steps| - 1]))
  }

  /** The pages of a walk; between two pages there may be any creates and updates. */
  datatype Walk =
    | First(items: Items, limit: nat, page: seq<Collection>, next: string)
    | Later(earlier: Walk, steps: seq<Step>, limit: nat, page: seq<Collection>, next: string)

  function ItemsAtStart(w: Walk): Items
  {
    match w
    case First(items, _, _, _) => items
    case Later(earlier, _, _, _, _) => ItemsAtStart(earlier)
  }

  function ItemsAtEnd(w: Walk): Items
  {
    match w
    case First(items, _, _, _) => items
    case Later(earlier, steps, _, _, _) => AfterAll(ItemsAtEnd(earlier), steps)
  }

  /** Each page is what `List` answers at its time to the `next` of the page before. */
  ghost predicate IsWalk(tenant: string, w: Walk)
  {
    && w.limit >= 1
    && match w
       case First(items, limit, page, next) =>
         WellKeyed(items) && IsPage(items, tenant, limit, "", page, next)
       case Later(earlier, steps, limit, page, next) =>
         && IsWalk(tenant, earlier) && earlier.next != ""
         && IsPage(ItemsAtEnd(w), tenant, limit, earlier.next, page, next)
  }

  function AllListed(w: Walk): seq<Collection>
  {
    match w
    case First(_, _, page, _) => page
    case Later(earlier, _, _, page, _) => AllListed(earlier) + page
  }

  function PageCount(w: Walk): nat
  {
    match w
    case First(_, _, _, _) => 1
    case Later(earlier, _, _, _, _) => PageCount(earlier) + 1
  }

  // ----- what writes keep

  /** The tenant has a collection with this id. */
  predicate Has(items: Items, tenant: string, id: string)
  {
    Key(tenant, id) in items && items[Key(tenant, id)].tenant == tenant
  }

  lemma SameKeySameId(tenant: string, id: string, id': string)
    requires Key(tenant, id) == Key(tenant, id')
    ensures id == id'
  {
    assert id == Key(tenant, id)[|tenant| + 1..] && id' == Key(tenant, id')[|tenant| + 1..];
  }

  /** In a well-keyed repository a tenant's collections are the entries that carry its name. */
  lemma HasIffStored(items: Items, tenant: string, id: string)
    requires WellKeyed(items)
    ensures Has(items, tenant, id) <==> exists c :: c in items.Values && c.tenant == tenant && c.id == id
    ensures Has(items, tenant, id) ==> items[Key(tenant, id)].id == id
  {
    if Has(items, tenant, id) {
      SameKeySameId(tenant, id, items[Key(tenant, id)].id);
    }
  }

  /** No write removes a key. */
  lemma StepKeepsKeys(items: Items, step: Step)
    requires WellKeyed(items)
    ensures WellKeyed(After(items, step)) && items.Keys <= After(items, step).Keys
  {
  }

  lemma {:induction false} StepsKeepKeys(items: Items, steps: seq<Step>)
    requires WellKeyed(items)
    ensures WellKeyed(AfterAll(items, steps)) && items.Keys <= AfterAll(items, steps).Keys
    decreases |steps|
  {
    if steps != [] {
      StepsKeepKeys(items, steps[..|steps| - 1]);
      hide WellKeyed, After;
      StepKeepsKeys(AfterAll(items, steps[..|steps| - 1]), steps[|steps| - 1]);
    }
  }

  lemma StepKeeps(items: Items, step: Step, tenant: string, id: string)
    requires WellKeyed(items) && Has(items, tenant, id) && KeepsTenant(items, step)
    ensures Has(After(items, step), tenant, id)
  {
  }

  lemma {:induction false} StepsKeep(items: Items, steps: seq<Step>, tenant: string, id: string)
    requires WellKeyed(items) && Has(items, tenant, id) && AllKeepTenants(items, steps)
    ensures Has(AfterAll(items, steps), tenant, id)
    decreases |steps|
  {
    if steps != [] {
      StepsKeepKeys(items, steps[..|steps| - 1]);
      StepsKeep(items, steps[..|steps| - 1], tenant, id);
      hide WellKeyed, Has, After, KeepsTenant;
      StepKeeps(AfterAll(items, steps[..|steps| - 1]), steps[|steps| - 1], tenant, id);
    }
  }

  // ----- the walk

  ghost predicate Listed(s: seq<Collection>, id: string)
  {
    exists c :: c in s && c.id == id
  }

  /** Everything up to and including `next` has been shown; without `next`, everything. */
  predicate Passed(next: string, id: string)
  {
    next == "" || !Text.Less(next, id)
  }

  /** The tenant has the collection whenever a page is taken. */
  predicate HasThroughout(w: Walk, tenant: string, id: string)
  {
    Has(ItemsAtEnd(w), tenant, id) && (w.Later? ==> HasThroughout(w.earlier, tenant, id))
  }

  predicate Owned(c: Collection, tenant: string, items: Items)
  {
    c.tenant == tenant && Key(tenant, c.id) in items
  }

  /** What holds after every page. */
  ghost predicate Covers(tenant: string, w: Walk)
  {
    var s := AllListed(w);
    && WellKeyed(ItemsAtEnd(w))
    && Ascending(s)
    && (forall c :: c in s ==> Owned(c, tenant, ItemsAtEnd(w)))
    && (w.next != "" ==> s != [] && s[|s| - 1].id == w.next)
    && (forall id :: id != "" && HasThroughout(w, tenant, id) && Passed(w.next, id) ==> Listed(s, id))
    && PageCount(w) <= |s| + if w.next == "" then 1 else 0
  }

  /** A page shows every id of the tenant between its start and its `next`. */
  lemma PageShows(items: Items, tenant: string, limit: nat, after: string, page: seq<Collection>, next: string,
                  id: string)
    requires WellKeyed(items) && IsPage(items, tenant, limit, after, page, next)
    requires Has(items, tenant, id) && Text.Less(after, id) && Passed(next, id)
    ensures Listed(page, id)
  {
    HasIffStored(items, tenant, id);
    assert items[Key(tenant, id)] in page;
  }

  lemma PageIsOwned(items: Items, tenant: string, limit: nat, after: string, page: seq<Collection>, next: string)
    requires WellKeyed(items) && IsPage(items, tenant, limit, after, page, next)
    ensures forall c :: c in page ==> Owned(c, tenant, items)
  {
  }

  lemma FirstCovers(tenant: string, w: Walk)
    requires w.First? && IsWalk(tenant, w)
    ensures Covers(tenant, w)
  {
    PageIsOwned(w.items, tenant, w.limit, "", w.page, w.next);
    forall id | id != "" && Has(w.items, tenant, id) && Passed(w.next, id)
      ensures Listed(w.page, id)
    {
      PageShows(w.items, tenant, w.limit, "", w.page, w.next, id);
    }
  }

  lemma AscendingAcross(s: seq<Collection>, page: seq<Collection>, after: string)
    requires Ascending(s) && Ascending(page) && s != [] && s[|s| - 1].id == after
    requires forall c :: c in page ==> Text.Less(after, c.id)
    ensures Ascending(s + page)
  {
    hide Text.Less;
    forall i, j | 0 <= i < |s| && 0 <= j < |page|
      ensures ById(s[i], page[j])
    {
      assert page[j] in page;
      if i < |s| - 1 {
        assert ById(s[i], s[|s| - 1]);
        Text.LessTransitive(s[i].id, after, page[j].id);
      }
    }
    hide ById;
  }

  lemma LaterListsAll(tenant: string, w: Walk, id: string)
    requires w.Later? && IsWalk(tenant, w) && Covers(tenant, w.earlier) && WellKeyed(ItemsAtEnd(w))
    requires id != "" && HasThroughout(w, tenant, id) && Passed(w.next, id)
    ensures Listed(AllListed(w), id)
  {
    hide AfterAll, Has, WellKeyed, IsPage, Text.Less;
    if Passed(w.earlier.next, id) {
      var c :| c in AllListed(w.earlier) && c.id == id;
      assert c in AllListed(w);
    } else {
      PageShows(ItemsAtEnd(w), tenant, w.limit, w.earlier.next, w.page, w.next, id);
      var c :| c in w.page && c.id == id;
      assert c in AllListed(w);
    }
  }

  lemma LaterIsOwned(tenant: string, w: Walk)
    requires w.Later? && IsWalk(tenant, w) && Covers(tenant, w.earlier)
    ensures WellKeyed(ItemsAtEnd(w))
    ensures forall c :: c in AllListed(w) ==> Owned(c, tenant, ItemsAtEnd(w))
  {
    hide AfterAll, WellKeyed, IsPage, Ascending, Listed, Passed, HasThroughout;
    StepsKeepKeys(ItemsAtEnd(w.earlier), w.steps);
    PageIsOwned(ItemsAtEnd(w), tenant, w.limit, w.earlier.next, w.page, w.next);
  }

  lemma LaterIsAscending(tenant: string, w: Walk)
    requires w.Later? && IsWalk(tenant, w) && Covers(tenant, w.earlier)
    ensures Ascending(AllListed(w))
    ensures w.next != "" ==> AllListed(w) != [] && AllListed(w)[|AllListed(w)| - 1].id == w.next
  {
    hide AfterAll, HasThroughout, WellKeyed, Listed, Text.Less;
    var page := w.page;
    assert Ascending(page) && forall c :: c in page ==> Text.Less(w.earlier.next, c.id);
    hide Ascending;
    AscendingAcross(AllListed(w.earlier), page, w.earlier.next);
  }

  lemma LaterCounts(tenant: string, w: Walk)
    requires w.Later? && IsWalk(tenant, w) && Covers(tenant, w.earlier)
    ensures PageCount(w) <= |AllListed(w)| + if w.next == "" then 1 else 0
  {
    assert w.next != "" ==> |w.page| >= 1;
    hide AfterAll, HasThroughout, WellKeyed, IsPage, Ascending, Listed, Passed;
  }

  lemma LaterIsComplete(tenant: string, w: Walk)
    requires w.Later? && IsWalk(tenant, w) && Covers(tenant, w.earlier)
    ensures forall id :: id != "" && HasThroughout(w, tenant, id) && Passed(w.next, id) ==> Listed(AllListed(w), id)
  {
    LaterIsOwned(tenant, w);
    hide *;
    forall id | id != "" && HasThroughout(w, tenant, id) && Passed(w.next, id)
      ensures Listed(AllListed(w), id)
    {
      LaterListsAll(tenant, w, id);
    }
  }

  lemma CoversIf(tenant: string, w: Walk)
    requires
      var s := AllListed(w);
      && WellKeyed(ItemsAtEnd(w))
      && Ascending(s)
      && (w.next != "" ==> s != [] && s[|s| - 1].id == w.next)
    requires forall c :: c in AllListed(w) ==> Owned(c, tenant, ItemsAtEnd(w))
    requires forall id :: id != "" && HasThroughout(w, tenant, id) && Passed(w.next, id) ==> Listed(AllListed(w), id)
    requires PageCount(w) <= |AllListed(w)| + if w.next == "" then 1 else 0
    ensures Covers(tenant, w)
  {
    hide WellKeyed, AllListed, ItemsAtEnd, HasThroughout, Owned, Passed, Listed, Ascending, PageCount;
  }

  lemma LaterCovers(tenant: string, w: Walk)
    requires w.Later? && IsWalk(tenant, w) && Covers(tenant, w.earlier)
    ensures Covers(tenant, w)
  {
    LaterIsAscending(tenant, w);
    LaterIsOwned(tenant, w);
    LaterCounts(tenant, w);
    LaterIsComplete(tenant, w);
    hide *;
    CoversIf(tenant, w);
  }

  lemma {:induction false} WalkCovers(tenant: string, w: Walk)
    requires IsWalk(tenant, w)
    ensures Covers(tenant, w)
  {
    hide Covers, IsPage, AfterAll, WellKeyed;
    if w.First? {
      FirstCovers(tenant, w);
    } else {
      WalkCovers(tenant, w.earlier);
      LaterCovers(tenant, w);
    }
  }

  lemma {:induction false} AtMostAsMany(tenant: string, s: seq<Collection>, items: Items)
    requires Ascending(s) && forall c :: c in s ==> Key(tenant, c.id) in items
    ensures |s| <= |items|
    decreases |s|
  {
    if s != [] {
      var rest, last := s[..|s| - 1], s[|s| - 1];
      var k := Key(tenant, last.id);
      forall c | c in rest
        ensures Key(tenant, c.id) in items - {k}
      {
        assert ById(c, last);
        Text.LessIrreflexive(c.id);
        if Key(tenant, c.id) == k {
          SameKeySameId(tenant, c.id, last.id);
        }
      }
      assert last in s && items.Keys == (items - {k}).Keys + {k};
      assert |items| == |items.Keys| && |items - {k}| == |(items - {k}).Keys|;
      hide ById;
      AtMostAsMany(tenant, rest, items - {k});
    }
  }

  /** Keyset paging under concurrency: a walk with any limits, between whose pages others create and update anything,
      lists collections of the tenant only, in strictly ascending order of ids, so none twice, and takes at most one
      page more than there are collections at its end; when it is over, it has listed every collection that the tenant
      had whenever a page was taken. */
  lemma ListingUnderConcurrency(tenant: string, w: Walk)
    requires IsWalk(tenant, w)
    ensures Ascending(AllListed(w))
    ensures forall c :: c in AllListed(w) ==> Owned(c, tenant, ItemsAtEnd(w))
    ensures w.next == "" ==> forall id :: id != "" && HasThroughout(w, tenant, id) ==> Listed(AllListed(w), id)
    ensures PageCount(w) <= |ItemsAtEnd(w)| + 1
  {
    WalkCovers(tenant, w);
    hide Ascending, Listed, AfterAll, IsWalk, WellKeyed;
    AtMostAsMany(tenant, AllListed(w), ItemsAtEnd(w));
  }

  // ----- collections present at the start

  predicate KeepingWalk(w: Walk)
  {
    w.Later? ==> KeepingWalk(w.earlier) && AllKeepTenants(ItemsAtEnd(w.earlier), w.steps)
  }

  /** If updates keep tenants, what a tenant has once it has from then on. */
  lemma {:induction false} KeptThroughout(tenant: string, w: Walk, id: string)
    requires IsWalk(tenant, w) && KeepingWalk(w) && Has(ItemsAtStart(w), tenant, id)
    ensures HasThroughout(w, tenant, id) && WellKeyed(ItemsAtEnd(w))
  {
    hide Has, IsPage, AfterAll, AllKeepTenants, WellKeyed;
    if w.Later? {
      KeptThroughout(tenant, w.earlier, id);
      StepsKeepKeys(ItemsAtEnd(w.earlier), w.steps);
      StepsKeep(ItemsAtEnd(w.earlier), w.steps, tenant, id);
    }
  }

  /** So a finished walk amid such updates has listed every collection the tenant had at its start. */
  lemma NothingPresentIsMissed(tenant: string, w: Walk)
    requires IsWalk(tenant, w) && KeepingWalk(w) && w.next == ""
    ensures forall id :: id != "" && Has(ItemsAtStart(w), tenant, id) ==> Listed(AllListed(w), id)
  {
    ListingUnderConcurrency(tenant, w);
    hide *;
    forall id | id != "" && Has(ItemsAtStart(w), tenant, id)
      ensures Listed(AllListed(w), id)
    {
      KeptThroughout(tenant, w, id);
    }
  }

  // ----- tenants with a NUL in their name

  ghost predicate PlainTenants(items: Items)
  {
    forall k :: k in items ==> '\0' !in items[k].tenant
  }

  /** As long as no tenant's name holds a NUL, every update keeps the tenant. */
  lemma {:induction false} PlainTenantsAreKept(items: Items, steps: seq<Step>)
    requires WellKeyed(items) && PlainTenants(items)
    requires forall i :: 0 <= i < |steps| ==> '\0' !in steps[i].c.tenant
    ensures AllKeepTenants(items, steps)
    ensures WellKeyed(AfterAll(items, steps)) && PlainTenants(AfterAll(items, steps))
    decreases |steps|
  {
    if steps != [] {
      var rest, last := steps[..|steps| - 1], steps[|steps| - 1];
      assert '\0' !in last.c.tenant;
      PlainTenantsAreKept(items, rest);
      var before := AfterAll(items, rest);
      if KeyOf(last.c) in before {
        var stored := before[KeyOf(last.c)];
        KeysOfPlainTenants(stored.tenant, stored.id, last.c.tenant, last.c.id);
      }
    }
  }

  /** With a NUL in a tenant's name, an update can take a collection away from another tenant. */
  lemma NulMovesACollection(c: Collection)
    requires c.tenant == "a" && c.id == "b\0c"
    ensures
      var items := map[KeyOf(c) := c];
      var moved := c.(tenant := "a\0b", id := "c");
      && WellKeyed(items) && Has(items, "a", c.id)
      && Updated(items, moved, c.version).1 == Done
      && forall id :: !Has(Updated(items, moved, c.version).0, "a", id)
  {
    var moved := c.(tenant := "a\0b", id := "c");
    assert KeyOf(c) == KeyOf(moved) == "a\0b\0c";
  }
}
