/** The in-memory collection repository (internal/repository/memory.go) and walks through its pages while others
    write. */
module Collections {
  import opened Schemas
  import opened Sorting
  import Text

  type Items = map<string, Collection>

  datatype Status = Done | Conflict | NotFound

  function Key(tenant: string, id: string): string
  {
    tenant + "\0" + id
  }

  function KeyOf(c: Collection): string
  {
    Key(c.tenant, c.id)
  }

  ghost predicate WellKeyed(items: Items)
  {
    forall k :: k in items ==> KeyOf(items[k]) == k
  }

  // ----- the operations as functions

  function Created(items: Items, c: Collection): (Items, Status)
  {
    if KeyOf(c) in items then (items, Conflict) else (items[KeyOf(c) := c], Done)
  }

  function Updated(items: Items, c: Collection, expected: nat): (Items, Status)
  {
    if KeyOf(c) !in items then (items, NotFound)
    else if items[KeyOf(c)].version != expected then (items, Conflict)
    else (items[KeyOf(c) := c], Done)
  }

  /** The collections of a tenant behind a given id. */
  predicate Matches(c: Collection, tenant: string, after: string)
  {
    c.tenant == tenant && Text.Less(after, c.id)
  }

  predicate ById(a: Collection, b: Collection)
  {
    Text.Less(a.id, b.id)
  }

  ghost predicate Ascending(s: seq<Collection>)
  {
    forall i, j :: 0 <= i < j < |s| ==> ById(s[i], s[j])
  }

  /** A page holds, in strictly ascending order of ids, the collections of the tenant behind `after`: all of them if
      there is no `next`, and otherwise the `limit` ones up to `next`, with more to come. */
  ghost predicate IsPage(items: Items, tenant: string, limit: nat, after: string, page: seq<Collection>, next: string)
  {
    && Ascending(page) && |page| <= limit
    && (forall c :: c in page ==> c in items.Values && Matches(c, tenant, after))
    && (forall c ::
      c in items.Values && Matches(c, tenant, after) && (next == "" || !Text.Less(next, c.id)) ==> c in page)
    && (next != "" ==> |page| == limit > 0 && page[limit - 1].id == next)
    && (next != "" ==> exists c :: c in items.Values && Matches(c, tenant, next))
  }

  // ----- the repository

  class MemoryCollections {
    var items: Items

    ghost predicate Valid()
      reads this
    {
      WellKeyed(items)
    }

    constructor ()
      ensures Valid() && items == map[]
    {
      items := map[];
    }

    method Create(c: Collection) returns (status: Status)
      requires Valid()
      modifies this
      ensures Valid()
      ensures (items, status) == Created(old(items), c)
    {
      var k := KeyOf(c);
      if k in items {
        return Conflict;
      }
      items := items[k := c];
      status := Done;
    }

    method Get(tenant: string, id: string) returns (c: Collection, status: Status)
      requires Valid()
      ensures status == if Key(tenant, id) in items then Done else NotFound
      ensures status == Done ==> c == items[Key(tenant, id)] && KeyOf(c) == Key(tenant, id)
      ensures status == Done && '\0' !in tenant && '\0' !in c.tenant ==> c.tenant == tenant && c.id == id
    {
      var k := Key(tenant, id);
      if k !in items {
        c := *;
        return c, NotFound;
      }
      c, status := items[k], Done;
      if '\0' !in tenant && '\0' !in c.tenant {
        KeysOfPlainTenants(tenant, id, c.tenant, c.id);
      }
    }

    /** A limit below one makes the source index out of bounds. */
    method List(tenant: string, limit: nat, after: string) returns (page: seq<Collection>, next: string)
      requires Valid() && limit >= 1
      ensures IsPage(items, tenant, limit, after, page, next)
    {
      hide Text.Less;
      var found: seq<Collection> := [];
      var left := items.Keys;
      while left != {}
        invariant left <= items.Keys
        invariant FoundAmong(items, tenant, after, items.Keys - left, found)
        decreases left
      {
        var k :| k in left;
        found := FoundOneMore(items, tenant, after, items.Keys - left, found, k);
        left := left - {k};
        assert items.Keys - left == (items.Keys - (left + {k})) + {k};
      }
      assert items.Keys - {} == items.Keys;
      FoundIsListed(items, tenant, after, found);
      page, next := Sort(ById, found), "";
      if |page| > limit {
        next := page[limit - 1].id;
        FirstPage(items, tenant, limit, after, page);
        page := page[..limit];
      }
    }

    method Update(c: Collection, expected: nat) returns (status: Status)
      requires Valid()
      modifies this
      ensures Valid()
      ensures (items, status) == Updated(old(items), c, expected)
    {
      var k := KeyOf(c);
      if k !in items {
        return NotFound;
      }
      if items[k].version != expected {
        return Conflict;
      }
      items := items[k := c];
      status := Done;
    }
  }

  /** A collection is created exactly if its key is free, and replaced exactly if it is stored in the expected version;
      nothing but its own entry changes, and nothing at all otherwise. */
  lemma StoredIff(items: Items, c: Collection, expected: nat)
    ensures
      var k := KeyOf(c);
      var ((items', created), (items'', updated)) := (Created(items, c), Updated(items, c, expected));
      && (created == Done <==> k !in items) && (created == Conflict <==> k in items)
      && (updated == Done <==> k in items && items[k].version == expected) && (updated == NotFound <==> k !in items)
      && (created != Done ==> items' == items) && (updated != Done ==> items'' == items)
      && (created == Done ==>
           items'.Keys == items.Keys + {k} && items'[k] == c && forall x :: x in items ==> items'[x] == items[x])
      && (updated == Done ==>
           items''.Keys == items.Keys && items''[k] == c && forall x :: x in items && x != k ==> items''[x] == items[x])
  {
    hide Key;
  }

  // ----- keys

  lemma PrefixBefore(a: string, b: string, rest: string, rest': string)
    requires a + "\0" + rest == b + "\0" + rest' && |a| < |b|
    ensures a + "\0" <= b
  {
    var whole := b + "\0" + rest';
    assert a + "\0" == whole[..|a| + 1] && b == whole[..|b|];
  }

  /** Two tenants have a key in common exactly if they are the same or one continues the other behind a NUL. */
  lemma KeysMeetIff(t: string, u: string)
    ensures (exists i, j :: Key(t, i) == Key(u, j)) <==> t == u || t + "\0" <= u || u + "\0" <= t
  {
    if t == u {
      assert Key(t, "") == Key(u, "");
    }
    if t + "\0" <= u {
      KeysMeet(t, u);
    }
    if u + "\0" <= t {
      KeysMeet(u, t);
    }
    forall i, j | Key(t, i) == Key(u, j)
      ensures t == u || t + "\0" <= u || u + "\0" <= t
    {
      if |t| == |u| {
        assert t == Key(t, i)[..|t|] && u == Key(u, j)[..|u|];
      } else if |t| < |u| {
        PrefixBefore(t, u, i, j);
      } else {
        PrefixBefore(u, t, j, i);
      }
    }
  }

  lemma KeysMeet(t: string, u: string)
    requires t + "\0" <= u
    ensures exists i, j :: Key(t, i) == Key(u, j)
  {
    var i := u[|t| + 1..] + "\0";
    assert Key(t, i) == Key(u, "");
  }

  lemma NoNulInside(t: string, u: string)
    ensures t + "\0" <= u ==> '\0' in u
  {
    if t + "\0" <= u {
      assert u[|t|] == (t + "\0")[|t|] == '\0';
    }
  }

  /** Tenants without a NUL never share a key. */
  lemma KeysOfPlainTenants(t: string, i: string, u: string, j: string)
    requires '\0' !in t && '\0' !in u && Key(t, i) == Key(u, j)
    ensures t == u && i == j
  {
    KeysMeetIff(t, u);
    NoNulInside(t, u);
    NoNulInside(u, t);
    assert i == Key(t, i)[|t| + 1..] && j == Key(u, j)[|u| + 1..];
  }

  // ----- listing

  /** What the loop of `List` has collected from some of the keys. */
  ghost predicate FoundAmong(items: Items, tenant: string, after: string, keys: set<string>, found: seq<Collection>)
    requires keys <= items.Keys
  {
    && (forall c :: c in found <==> exists k :: k in keys && items[k] == c && Matches(c, tenant, after))
    && forall i, j :: 0 <= i < j < |found| ==> found[i] != found[j]
  }

  method FoundOneMore(items: Items, tenant: string, after: string, ghost keys: set<string>, found: seq<Collection>,
                      k: string)
    returns (more: seq<Collection>)
    requires WellKeyed(items) && keys <= items.Keys && k in items && k !in keys
    requires FoundAmong(items, tenant, after, keys, found)
    ensures FoundAmong(items, tenant, after, keys + {k}, more)
  {
    var c := items[k];
    assert c !in found;
    more := if Matches(c, tenant, after) then found + [c] else found;
  }

  lemma ByIdIsAnOrder()
    ensures StrictWeakOrder(ById)
  {
    forall a, b | ById(a, b)
      ensures !ById(b, a)
    {
      Text.LessAsymmetric(a.id, b.id);
    }
    forall a, b, c | !ById(b, a) && !ById(c, b)
      ensures !ById(c, a)
    {
      if ById(c, a) {
        Text.LessTotal(a.id, b.id);
        Text.LessTotal(b.id, c.id);
        if Text.Less(a.id, b.id) {
          Text.LessTransitive(c.id, a.id, b.id);
        }
      }
    }
  }

  /** Sorted by id, what was found is ascending: the ids of one tenant are distinct. */
  lemma FoundIsListed(items: Items, tenant: string, after: string, found: seq<Collection>)
    requires WellKeyed(items) && FoundAmong(items, tenant, after, items.Keys, found)
    ensures Ascending(Sort(ById, found))
    ensures forall c :: c in Sort(ById, found) <==> c in items.Values && Matches(c, tenant, after)
  {
    var sorted := Sort(ById, found);
    ByIdIsAnOrder();
    SortSorts(ById, found);
    SortPermutes(ById, found);
    forall c
      ensures c in sorted <==> c in items.Values && Matches(c, tenant, after)
    {
      assert c in sorted <==> c in multiset(sorted);
      assert c in found <==> c in multiset(found);
    }
    NoTwins(found, sorted);
    forall i, j | 0 <= i < j < |sorted|
      ensures ById(sorted[i], sorted[j])
    {
      assert sorted[i] in sorted && sorted[j] in sorted && sorted[i] != sorted[j];
      Text.LessTotal(sorted[i].id, sorted[j].id);
    }
  }

  lemma NoTwins(s: seq<Collection>, t: seq<Collection>)
    requires multiset(s) == multiset(t)
    requires forall i, j :: 0 <= i < j < |s| ==> s[i] != s[j]
    ensures forall i, j :: 0 <= i < j < |t| ==> t[i] != t[j]
  {
    forall i, j | 0 <= i < j < |t|
      ensures t[i] != t[j]
    {
      if t[i] == t[j] {
        assert t == t[..j] + t[j..] && t[..j][i] == t[i] && t[j..][0] == t[j];
        assert multiset(t) == multiset(t[..j]) + multiset(t[j..]);
        assert t[i] in t[..j] && t[i] in t[j..];
        OnceEach(s, t[i]);
      }
    }
  }

  lemma {:induction false} OnceEach(s: seq<Collection>, c: Collection)
    requires forall i, j :: 0 <= i < j < |s| ==> s[i] != s[j]
    ensures multiset(s)[c] <= 1
  {
    if s != [] {
      assert s == [s[0]] + s[1..];
      OnceEach(s[1..], c);
      assert s[0] !in s[1..];
    }
  }

  lemma FirstPage(items: Items, tenant: string, limit: nat, after: string, all: seq<Collection>)
    requires limit >= 1 && |all| > limit && Ascending(all)
    requires forall c :: c in all <==> c in items.Values && Matches(c, tenant, after)
    ensures all[limit - 1].id != "" && IsPage(items, tenant, limit, after, all[..limit], all[limit - 1].id)
  {
    var page, next := all[..limit], all[limit - 1].id;
    Text.EmptyIsLeast(next);
    assert all[limit - 1] in all;
    Text.EmptyIsLeast(after);
    forall c | c in items.Values && Matches(c, tenant, after) && !Text.Less(next, c.id)
      ensures c in page
    {
      var i :| 0 <= i < |all| && all[i] == c;
      assert i >= limit ==> ById(all[limit - 1], all[i]);
      assert c == page[i];
    }
    assert all[limit] in all && ById(all[limit - 1], all[limit]);
    assert Matches(all[limit], tenant, next);
  }

  /** An ascending sequence of some entries of another that is no longer is that other one. */
  lemma {:induction false} AscendingWithin(p: seq<Collection>, q: seq<Collection>)
    requires Ascending(p) && Ascending(q) && |p| >= |q|
    requires forall c :: c in p ==> c in q
    ensures p == q
    decreases |q|
  {
    if p == [] {
      return;
    }
    assert p[0] in q;
    var p', a := p[..|p| - 1], p[|p| - 1];
    var q', b := q[..|q| - 1], q[|q| - 1];
    assert p == p' + [a] && q == q' + [b] && a in p && a in q;
    WithinWithoutLast(p', a, q', b);
    hide Ascending;
    AscendingWithin(p', q');
  }

  lemma WithinWithoutLast(p: seq<Collection>, a: Collection, q: seq<Collection>, b: Collection)
    requires Ascending(p + [a]) && Ascending(q + [b])
    requires forall c :: c in p + [a] ==> c in q + [b]
    ensures Ascending(p) && Ascending(q)
    ensures (forall c :: c in p ==> c in q) && a !in p
  {
    assert (q + [b])[|q|] == b && (p + [a])[|p|] == a;
    UpToTheLast(q + [b]);
    Text.LessIrreflexive(a.id);
    assert a in q + [b];
    hide Text.Less, ById;
    forall i | 0 <= i < |p|
      ensures p[i] in q && p[i] != a
    {
      assert (p + [a])[i] == p[i] && ById(p[i], a);
      LessIs(p[i], a);
      assert p[i] in p + [a];
    }
    AscendingFront(p, a);
    AscendingFront(q, b);
  }

  lemma LessIs(a: Collection, b: Collection)
    ensures ById(a, b) <==> Text.Less(a.id, b.id)
  {
  }

  lemma AscendingFront(s: seq<Collection>, c: Collection)
    requires Ascending(s + [c])
    ensures Ascending(s)
  {
    hide ById;
    assert forall i :: 0 <= i < |s| ==> s[i] == (s + [c])[i];
  }

  lemma UpToTheLast(page: seq<Collection>)
    requires Ascending(page) && page != []
    ensures forall c :: c in page ==> !Text.Less(page[|page| - 1].id, c.id)
  {
    var last := page[|page| - 1];
    Text.LessIrreflexive(last.id);
    forall c | c in page && c != last
      ensures !Text.Less(last.id, c.id)
    {
      assert ById(c, last);
      Text.LessAsymmetric(c.id, last.id);
    }
  }

  /** What a page with more to come shows is also on any page of the same listing that goes at least as far. */
  lemma ShorterPageWithin(items: Items, tenant: string, limit: nat, after: string, p: seq<Collection>, n: string,
                          q: seq<Collection>, m: string)
    requires IsPage(items, tenant, limit, after, p, n) && IsPage(items, tenant, limit, after, q, m)
    requires n != "" && (m == "" || !Text.Less(m, n))
    ensures p == q && n == m
  {
    UpToTheLast(p);
    forall c | c in p
      ensures c in q
    {
      if m != "" && Text.Less(m, c.id) {
        Text.LessTotal(n, m);
        if n != m {
          Text.LessTransitive(n, m, c.id);
        }
        assert false;
      }
    }
    if m == "" {
      var c :| c in items.Values && Matches(c, tenant, n);
      forall d | d in p
        ensures ById(d, c)
      {
        Text.LessTotal(d.id, n);
        if d.id != n {
          Text.LessTransitive(d.id, n, c.id);
        }
      }
      assert Matches(p[limit - 1], tenant, after);
      Text.LessTransitive(after, n, c.id);
      AscendingWithin(p + [c], q);
    } else {
      AscendingWithin(p, q);
    }
  }

  /** There is only one page for a start and a limit, in whatever order the map is walked. */
  lemma PageIsUnique(items: Items, tenant: string, limit: nat, after: string, p: seq<Collection>, n: string,
                     q: seq<Collection>, m: string)
    requires IsPage(items, tenant, limit, after, p, n) && IsPage(items, tenant, limit, after, q, m)
    ensures p == q && n == m
  {
    if n == "" && m == "" {
      if |p| >= |q| {
        AscendingWithin(p, q);
      } else {
        AscendingWithin(q, p);
      }
    } else if n != "" && (m == "" || !Text.Less(m, n)) {
      ShorterPageWithin(items, tenant, limit, after, p, n, q, m);
    } else {
      if n != "" {
        Text.LessAsymmetric(m, n);
      }
      ShorterPageWithin(items, tenant, limit, after, q, m, p, n);
    }
  }
}
