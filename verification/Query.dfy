/** The query language of internal/query/query.go: clauses, requests and their validation. */
module Query {
  import opened Analyzer
  import opened Documents

  /** `Kind` is a string in the source; `Unsupported` stands for every other string. */
  datatype Kind = Match | Phrase | Prefix | Fuzzy | Range | Bool | Unsupported(name: string)

  datatype Clause = Clause(kind: Kind, field: string, value: string, from: Value, to: Value,
                           must: seq<Clause>, should: seq<Clause>, mustNot: seq<Clause>, boost: real)

  datatype Request = Request(tenant: string, collection: string, query: Clause, filters: seq<Clause>,
                             size: int, searchAfter: string, explain: bool, timeoutMS: int)

  predicate IsTextKind(k: Kind)
  {
    k.Match? || k.Phrase? || k.Prefix? || k.Fuzzy?
  }

  function KindName(k: Kind): string
  {
    match k
    case Match => "match"
    case Phrase => "phrase"
    case Prefix => "prefix"
    case Fuzzy => "fuzzy"
    case Range => "range"
    case Bool => "bool"
    case Unsupported(name) => name
  }

  datatype ClauseError = TooDeep | TextNeedsFieldAndValue | RangeNeedsFieldAndBound | EmptyBool | UnsupportedKind

  datatype Check = Accepted | Rejected(error: ClauseError)

  predicate IsBlank(u: Unicode, s: string)
  {
    TrimRight(u, TrimLeft(u, s)) == ""
  }

  function ValidateClause(u: Unicode, c: Clause, depth: nat): (r: Check)
    decreases c, 1
  {
    if depth > 10 then Rejected(TooDeep)
    else
      match c.kind
      case Match | Phrase | Prefix | Fuzzy =>
        if c.field == "" || IsBlank(u, c.value) then Rejected(TextNeedsFieldAndValue) else Accepted
      case Range =>
        if c.field == "" || (c.from.Nil? && c.to.Nil?) then Rejected(RangeNeedsFieldAndBound) else Accepted
      case Bool =>
        if |c.must| + |c.should| + |c.mustNot| == 0 then Rejected(EmptyBool)
        else
          var m := ValidateAll(u, c.must, depth + 1);
          var s := ValidateAll(u, c.should, depth + 1);
          if m.Rejected? then m else if s.Rejected? then s else ValidateAll(u, c.mustNot, depth + 1)
      case Unsupported(_) => Rejected(UnsupportedKind)
  }

  function ValidateAll(u: Unicode, cs: seq<Clause>, depth: nat): (r: Check)
    decreases cs, 0
  {
    if cs == [] then Accepted
    else
      var first := ValidateClause(u, cs[0], depth);
      if first.Rejected? then first else ValidateAll(u, cs[1..], depth)
  }

  // ----- what acceptance means

  /** Every clause that evaluation can reach is of a supported kind and complete. */
  predicate WellFormed(u: Unicode, c: Clause)
    decreases c
  {
    match c.kind
    case Match | Phrase | Prefix | Fuzzy => c.field != "" && !IsBlank(u, c.value)
    case Range => c.field != "" && !(c.from.Nil? && c.to.Nil?)
    case Bool =>
      && |c.must| + |c.should| + |c.mustNot| > 0
      && (forall x | x in c.must :: WellFormed(u, x))
      && (forall x | x in c.should :: WellFormed(u, x))
      && (forall x | x in c.mustNot :: WellFormed(u, x))
    case Unsupported(_) => false
  }

  /** Nesting fits in h levels. */
  predicate FitsIn(c: Clause, h: nat)
    decreases c
  {
    && h > 0
    && (c.kind.Bool? ==>
         && (forall x | x in c.must :: FitsIn(x, h - 1))
         && (forall x | x in c.should :: FitsIn(x, h - 1))
         && (forall x | x in c.mustNot :: FitsIn(x, h - 1)))
  }

  lemma {:induction false} ValidateClauseExact(u: Unicode, c: Clause, depth: nat)
    requires depth <= 11
    ensures ValidateClause(u, c, depth).Accepted? <==> WellFormed(u, c) && FitsIn(c, 11 - depth)
    decreases c, 1
  {
    if depth <= 10 && c.kind.Bool? {
      ValidateAllExact(u, c.must, depth + 1);
      ValidateAllExact(u, c.should, depth + 1);
      ValidateAllExact(u, c.mustNot, depth + 1);
      BoolExact(u, c, depth);
      hide ValidateClause, WellFormed, FitsIn, ValidateAll;
    }
  }

  /** A boolean clause, given what is known of its children. */
  lemma BoolExact(u: Unicode, c: Clause, depth: nat)
    requires depth <= 10 && c.kind.Bool?
    requires AllExact(u, c.must, depth + 1) && AllExact(u, c.should, depth + 1) && AllExact(u, c.mustNot, depth + 1)
    ensures ValidateClause(u, c, depth).Accepted? <==> WellFormed(u, c) && FitsIn(c, 11 - depth)
  {
    hide ValidateAll, IsBlank;
  }

  ghost predicate AllExact(u: Unicode, cs: seq<Clause>, depth: nat)
    requires depth <= 11
  {
    ValidateAll(u, cs, depth).Accepted? <==> forall x | x in cs :: WellFormed(u, x) && FitsIn(x, 11 - depth)
  }

  lemma {:induction false} ValidateAllExact(u: Unicode, cs: seq<Clause>, depth: nat)
    requires depth <= 11
    ensures AllExact(u, cs, depth)
    decreases cs, 0
  {
    hide WellFormed, FitsIn, ValidateClause;
    if cs != [] {
      ValidateClauseExact(u, cs[0], depth);
      ValidateAllExact(u, cs[1..], depth);
      assert forall x :: x in cs <==> x == cs[0] || x in cs[1..];
      assert cs[0] in cs;
    }
  }

  /** A query is accepted exactly when it is well formed and nested at most eleven levels deep. */
  lemma AcceptedQueries(u: Unicode, c: Clause)
    ensures ValidateClause(u, c, 0).Accepted? <==> WellFormed(u, c) && FitsIn(c, 11)
  {
    ValidateClauseExact(u, c, 0);
  }

  datatype RequestCheck = Valid | NoTenantOrCollection | BadSize | BadTimeout | BadQuery(e: ClauseError)
    | BadFilter(i: nat, f: ClauseError)

  function Defaults(r: Request): Request
  {
    r.(size := if r.size == 0 then 10 else r.size, timeoutMS := if r.timeoutMS == 0 then 1000 else r.timeoutMS)
  }

  function FirstBadFilter(u: Unicode, filters: seq<Clause>, i: nat): (r: RequestCheck)
    requires i <= |filters|
    decreases |filters| - i
  {
    if i == |filters| then Valid
    else
      var check := ValidateClause(u, filters[i], 0);
      if check.Rejected? then BadFilter(i, check.error) else FirstBadFilter(u, filters, i + 1)
  }

  function ValidateRequest(u: Unicode, r: Request): (v: RequestCheck)
  {
    if r.tenant == "" || r.collection == "" then NoTenantOrCollection
    else if r.size < 1 || r.size > 1000 then BadSize
    else if r.timeoutMS < 10 || r.timeoutMS > 30000 then BadTimeout
    else
      var check := ValidateClause(u, r.query, 0);
      if check.Rejected? then BadQuery(check.error) else FirstBadFilter(u, r.filters, 0)
  }

  lemma {:induction false} FirstBadFilterExact(u: Unicode, filters: seq<Clause>, i: nat)
    requires i <= |filters|
    ensures FirstBadFilter(u, filters, i).Valid? <==>
      forall j :: i <= j < |filters| ==> WellFormed(u, filters[j]) && FitsIn(filters[j], 11)
    decreases |filters| - i
  {
    if i < |filters| {
      AcceptedQueries(u, filters[i]);
      FirstBadFilterExact(u, filters, i + 1);
    }
  }

  /** An accepted request is one the engine can run: page size 1 to 1000 and no unsupported clause. */
  lemma AcceptedRequests(u: Unicode, r: Request)
    ensures ValidateRequest(u, r).Valid? <==>
      && r.tenant != "" && r.collection != ""
      && 1 <= r.size <= 1000 && 10 <= r.timeoutMS <= 30000
      && WellFormed(u, r.query) && FitsIn(r.query, 11)
      && forall j :: 0 <= j < |r.filters| ==> WellFormed(u, r.filters[j]) && FitsIn(r.filters[j], 11)
  {
    AcceptedQueries(u, r.query);
    FirstBadFilterExact(u, r.filters, 0);
  }

  /** Left at zero, page size and timeout are filled in, so a request may leave them out. */
  lemma DefaultedRequests(u: Unicode, r: Request)
    ensures ValidateRequest(u, Defaults(r)).Valid? <==>
      && r.tenant != "" && r.collection != ""
      && 0 <= r.size <= 1000 && (r.timeoutMS == 0 || 10 <= r.timeoutMS <= 30000)
      && WellFormed(u, r.query) && FitsIn(r.query, 11)
      && forall j :: 0 <= j < |r.filters| ==> WellFormed(u, r.filters[j]) && FitsIn(r.filters[j], 11)
  {
    AcceptedRequests(u, Defaults(r));
    hide WellFormed, FitsIn, ValidateRequest;
  }

  /** A page holds 10 hits and a search takes a second unless the request says otherwise; nothing else is filled in. */
  lemma DefaultsAre(r: Request)
    ensures
      var d := Defaults(r);
      && (d.size == r.size != 0 || (r.size == 0 && d.size == 10))
      && (d.timeoutMS == r.timeoutMS != 0 || (r.timeoutMS == 0 && d.timeoutMS == 1000))
      && d.tenant == r.tenant && d.collection == r.collection && d.query == r.query && d.filters == r.filters
      && d.searchAfter == r.searchAfter && d.explain == r.explain
  {
  }

  /** A text is blank exactly if all of it is space. */
  lemma BlankIff(u: Unicode, s: string)
    ensures IsBlank(u, s) <==> forall k :: 0 <= k < |s| ==> u.isSpace(s[k])
  {
    TrimmedOfSpace(u, s);
    if k: nat :| k < |s| && !u.isSpace(s[k]) {
      LeftKeeps(u, s, s[k]);
      RightKeeps(u, TrimLeft(u, s), s[k]);
    }
  }

  lemma {:induction false} TrimmedOfSpace(u: Unicode, s: string)
    ensures (forall k :: 0 <= k < |s| ==> u.isSpace(s[k])) ==> TrimLeft(u, s) == ""
  {
    if s != "" {
      TrimmedOfSpace(u, s[1..]);
    }
  }

  lemma {:induction false} LeftKeeps(u: Unicode, s: string, c: char)
    requires c in s && !u.isSpace(c)
    ensures c in TrimLeft(u, s)
  {
    if u.isSpace(s[0]) {
      LeftKeeps(u, s[1..], c);
    }
  }

  lemma {:induction false} RightKeeps(u: Unicode, s: string, c: char)
    requires c in s && !u.isSpace(c)
    ensures c in TrimRight(u, s)
  {
    if u.isSpace(s[|s| - 1]) {
      RightKeeps(u, s[..|s| - 1], c);
    }
  }

  /** What is demanded of a clause and of those right below it: a text clause has a field and a value that is not all
      space, a range clause a field and a bound, a boolean clause some clauses, all of which are accepted one level
      deeper, and nothing lies deeper than level ten. */
  lemma AcceptedAt(u: Unicode, c: Clause, depth: nat)
    ensures ValidateClause(u, c, depth).Accepted? <==>
      && depth <= 10
      && match c.kind {
        case Match | Phrase | Prefix | Fuzzy =>
          c.field != "" && exists k :: 0 <= k < |c.value| && !u.isSpace(c.value[k])
        case Range => c.field != "" && (c.from != Nil || c.to != Nil)
        case Bool =>
          && (c.must != [] || c.should != [] || c.mustNot != [])
          && forall x :: x in c.must || x in c.should || x in c.mustNot ==> ValidateClause(u, x, depth + 1).Accepted?
        case Unsupported(_) => false
      }
  {
    BlankIff(u, c.value);
    AllAcceptedIff(u, c.must, depth + 1);
    AllAcceptedIff(u, c.should, depth + 1);
    AllAcceptedIff(u, c.mustNot, depth + 1);
    hide IsBlank, ValidateAll;
  }

  lemma {:induction false} AllAcceptedIff(u: Unicode, cs: seq<Clause>, depth: nat)
    ensures ValidateAll(u, cs, depth).Accepted? <==> forall x :: x in cs ==> ValidateClause(u, x, depth).Accepted?
    decreases |cs|
  {
    hide ValidateClause;
    if cs != [] {
      AllAcceptedIff(u, cs[1..], depth);
      assert cs[0] in cs && forall x :: x in cs <==> x == cs[0] || x in cs[1..];
    }
  }
}
