/** Walking a tenant's collections while clients create collections and replace schemas (`listCollections` next to
    `createCollection` and `replaceSchema` in internal/transport/httpapi/server.go). */
module ClientListings {
  import opened Collections
  import Listings
  import opened SchemaClients
  import opened Schemas

  /** What a client's step does to the repository: a create, an update that keeps the tenant, or nothing. */
  lemma AsListingStep(blank: string -> bool, w: World, step: Step) returns (s: seq<Listings.Step>)
    requires Inv(blank, w)
    ensures |s| <= 1
    ensures s == [] ==> Do(blank, w, step).items == w.items
    ensures s != [] ==> Do(blank, w, step).items == Listings.After(w.items, s[0]) && Listings.KeepsTenant(w.items, s[0])
  {
    hide Lineages, WellKeyed, NextVersion, FirstVersion, KeyOf;
    s := [];
    match step
    case Create(_, _, _, _, _, _, _, _) =>
      if FirstVersion(blank, step).Some? {
        s := [Listings.Creating(FirstVersion(blank, step).value)];
      }
    case Read(_, _, _) =>
    case Replace(client, fields, expected, actor, now) =>
      if client in w.held && NextVersion(blank, w.held[client], fields, expected, actor, now).Some? {
        var c := w.held[client];
        var next := NextVersion(blank, c, fields, expected, actor, now).value;
        NextVersionIs(blank, c, fields, expected, actor, now);
        NextKeepsKey(c, next);
        CopyIsCurrentIff(blank, w.items, c);
        s := [Listings.Updating(next, c.version)];
      }
  }

  lemma NextKeepsKey(c: Collection, c': Collection)
    requires c'.id == c.id && c'.tenant == c.tenant
    ensures KeyOf(c') == KeyOf(c)
  {
  }

  lemma {:induction false} AsListingSteps(blank: string -> bool, w: World, steps: seq<Step>)
    returns (s: seq<Listings.Step>)
    requires Inv(blank, w)
    ensures Listings.AllKeepTenants(w.items, s) && Listings.AfterAll(w.items, s) == DoFrom(blank, w, steps).items
    decreases |steps|
  {
    s := [];
    if steps != [] {
      var rest, last := steps[..|steps| - 1], steps[|steps| - 1];
      s := AsListingSteps(blank, w, rest);
      InvFrom(blank, w, rest);
      hide Inv, Do, Listings.After, Listings.KeepsTenant;
      var one := AsListingStep(blank, DoFrom(blank, w, rest), last);
      if one != [] {
        assert (s + one)[..|s + one| - 1] == s && (s + one)[|s + one| - 1] == one[0];
        s := s + one;
      }
    }
  }

  /** A walk that begins after any run of clients' steps; between two pages there may be more of them. */
  datatype Walk =
    | First(run: seq<Step>, limit: nat, page: seq<Collection>, next: string)
    | Later(earlier: Walk, steps: seq<Step>, limit: nat, page: seq<Collection>, next: string)

  function AtStart(blank: string -> bool, w: Walk): World
  {
    if w.First? then DoAll(blank, w.run) else AtStart(blank, w.earlier)
  }

  function AtEnd(blank: string -> bool, w: Walk): World
  {
    if w.First? then DoAll(blank, w.run) else DoFrom(blank, AtEnd(blank, w.earlier), w.steps)
  }

  ghost predicate IsWalk(blank: string -> bool, tenant: string, w: Walk)
  {
    && w.limit >= 1
    && (w.Later? ==> IsWalk(blank, tenant, w.earlier) && w.earlier.next != "")
    && IsPage(AtEnd(blank, w).items, tenant, w.limit, if w.First? then "" else w.earlier.next, w.page, w.next)
  }

  function AllListed(w: Walk): seq<Collection>
  {
    if w.First? then w.page else AllListed(w.earlier) + w.page
  }

  lemma {:induction false} AsListingWalk(blank: string -> bool, tenant: string, w: Walk) returns (l: Listings.Walk)
    requires IsWalk(blank, tenant, w)
    ensures Inv(blank, AtEnd(blank, w))
    ensures Listings.IsWalk(tenant, l) && Listings.KeepingWalk(l) && l.next == w.next
    ensures Listings.AllListed(l) == AllListed(w)
    ensures Listings.ItemsAtStart(l) == AtStart(blank, w).items && Listings.ItemsAtEnd(l) == AtEnd(blank, w).items
  {
    if w.First? {
      AlwaysInv(blank, w.run);
      KeyedIf(blank, DoAll(blank, w.run));
      hide Inv, DoAll, IsPage, WellKeyed;
      l := Listings.First(DoAll(blank, w.run).items, w.limit, w.page, w.next);
    } else {
      l := AsListingWalk(blank, tenant, w.earlier);
      hide Inv, DoAll, DoFrom, IsPage, WellKeyed, Listings.AfterAll, Listings.AllKeepTenants;
      InvFrom(blank, AtEnd(blank, w.earlier), w.steps);
      var steps := AsListingSteps(blank, AtEnd(blank, w.earlier), w.steps);
      l := Listings.Later(l, steps, w.limit, w.page, w.next);
    }
  }

  lemma KeyedIf(blank: string -> bool, w: World)
    requires Inv(blank, w)
    ensures WellKeyed(w.items)
  {
  }

  /** A finished walk amid clients, whatever the tenants are called, has listed every collection the tenant had at its
      start, and only the tenant's, in strictly ascending order of ids. */
  lemma ListingAmidClients(blank: string -> bool, tenant: string, w: Walk)
    requires blank("") && IsWalk(blank, tenant, w) && w.next == ""
    ensures Ascending(AllListed(w))
    ensures forall c :: c in AllListed(w) ==> Listings.Owned(c, tenant, AtEnd(blank, w).items)
    ensures forall id :: Listings.Has(AtStart(blank, w).items, tenant, id) ==> Listings.Listed(AllListed(w), id)
  {
    StartIsInv(blank, w);
    EveryIdIsNonempty(blank, AtStart(blank, w), tenant);
    hide *;
    var l := AsListingWalk(blank, tenant, w);
    Listings.ListingUnderConcurrency(tenant, l);
    Listings.NothingPresentIsMissed(tenant, l);
  }

  lemma {:induction false} StartIsInv(blank: string -> bool, w: Walk)
    ensures Inv(blank, AtStart(blank, w))
  {
    hide Inv, DoAll;
    if w.First? {
      AlwaysInv(blank, w.run);
    } else {
      StartIsInv(blank, w.earlier);
    }
  }

  /** Collections with a blank id are never created. */
  lemma EveryIdIsNonempty(blank: string -> bool, w: World, tenant: string)
    requires blank("") && Inv(blank, w)
    ensures !Listings.Has(w.items, tenant, "")
  {
    Listings.HasIffStored(w.items, tenant, "");
  }
}
