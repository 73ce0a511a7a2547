/** The edit distance behind fuzzy matching: the one-row dynamic program of internal/index/index.go
    and its meaning, the cheapest edit script between two terms. */
module EditDistance {

  // ----- edit scripts

  datatype Edit = Keep(rune: char) | Add(added: char) | Drop(dropped: char) | Replace(from: char, to: char)

  /** What one edit reads from the source term, writes to the target term, and costs. */
  function Read(e: Edit): string
  {
    match e
    case Keep(c) => [c]
    case Add(_) => ""
    case Drop(c) => [c]
    case Replace(c, _) => [c]
  }

  function Written(e: Edit): string
  {
    match e
    case Keep(c) => [c]
    case Add(c) => [c]
    case Drop(_) => ""
    case Replace(_, c) => [c]
  }

  function Price(e: Edit): nat
  {
    if e.Keep? then 0 else 1
  }

  /** Edits from the left end of the terms to the right end. */
  datatype Script = Start | Then(earlier: Script, last: Edit)

  function Source(s: Script): string
  {
    if s.Start? then "" else Source(s.earlier) + Read(s.last)
  }

  function Target(s: Script): string
  {
    if s.Start? then "" else Target(s.earlier) + Written(s.last)
  }

  function Cost(s: Script): nat
  {
    if s.Start? then 0 else Cost(s.earlier) + Price(s.last)
  }

  ghost predicate Turns(s: Script, a: string, b: string)
  {
    Source(s) == a && Target(s) == b
  }

  // ----- the recurrence

  function Min3(x: nat, y: nat, z: nat): nat
  {
    if x <= y && x <= z then x else if y <= z then y else z
  }

  function Levenshtein(a: string, b: string): nat
    decreases |a| + |b|
  {
    if a == "" then |b|
    else if b == "" then |a|
    else
      var a', b' := a[..|a| - 1], b[..|b| - 1];
      Min3(Levenshtein(a', b) + 1, Levenshtein(a, b') + 1,
           Levenshtein(a', b') + if a[|a| - 1] == b[|b| - 1] then 0 else 1)
  }

  lemma Unfold(a: string, b: string)
    requires a != "" && b != ""
    ensures
      var a', b' := a[..|a| - 1], b[..|b| - 1];
      Levenshtein(a, b) ==
        Min3(Levenshtein(a', b) + 1, Levenshtein(a, b') + 1,
             Levenshtein(a', b') + if a[|a| - 1] == b[|b| - 1] then 0 else 1)
  {
  }

  // ----- the dynamic program

  /** The variadic `min`. */
  method Min(v: seq<int>) returns (m: int)
    requires v != []
    ensures m in v
    ensures forall n :: n in v ==> m <= n
  {
    m := v[0];
    for i := 1 to |v|
      invariant m in v
      invariant forall k :: 0 <= k < i ==> m <= v[k]
    {
      if v[i] < m {
        m := v[i];
      }
    }
  }

  lemma PrefixStep(s: string, i: nat)
    requires i < |s|
    ensures s[..i + 1] != "" && s[..i + 1][..i] == s[..i] && s[..i + 1][i] == s[i]
  {
  }

  lemma TableEntry(a: string, b: string, i: nat, j: nat)
    requires i < |a| && j < |b|
    ensures Levenshtein(a[..i + 1], b[..j + 1]) ==
      Min3(Levenshtein(a[..i], b[..j + 1]) + 1, Levenshtein(a[..i + 1], b[..j]) + 1,
           Levenshtein(a[..i], b[..j]) + if a[i] == b[j] then 0 else 1)
  {
    PrefixStep(a, i);
    PrefixStep(b, j);
    Unfold(a[..i + 1], b[..j + 1]);
    hide Levenshtein;
  }

  /** One row of the table, overwritten in place by the next. */
  method NextRow(row: array<int>, a: string, b: string, i: nat)
    requires row.Length == |b| + 1 && i < |a|
    requires forall j :: 0 <= j <= |b| ==> row[j] == Levenshtein(a[..i], b[..j])
    modifies row
    ensures forall j :: 0 <= j <= |b| ==> row[j] == Levenshtein(a[..i + 1], b[..j])
  {
    hide Levenshtein;
    var prev := row[0];
    FirstColumn(a[..i + 1], b);
    row[0] := i + 1;
    for j := 0 to |b|
      invariant prev == Levenshtein(a[..i], b[..j])
      invariant forall k :: 0 <= k <= j ==> row[k] == Levenshtein(a[..i + 1], b[..k])
      invariant forall k :: j < k <= |b| ==> row[k] == Levenshtein(a[..i], b[..k])
    {
      TableEntry(a, b, i, j);
      var saved := row[j + 1];
      var cost := if a[i] == b[j] then 0 else 1;
      var options := [row[j + 1] + 1, row[j] + 1, prev + cost];
      var least := Min(options);
      assert options[0] in options && options[1] in options && options[2] in options;
      row[j + 1] := least;
      prev := saved;
    }
  }

  lemma FirstColumn(a: string, b: string)
    ensures Levenshtein(a, b[..0]) == |a| && Levenshtein("", b) == |b|
  {
  }

  method Distance(a: string, b: string) returns (d: int)
    ensures d == Levenshtein(a, b)
  {
    hide Levenshtein;
    var row := new int[|b| + 1];
    for j := 0 to |b| + 1
      invariant forall k :: 0 <= k < j ==> row[k] == k
    {
      row[j] := j;
    }
    forall j | 0 <= j <= |b|
      ensures row[j] == Levenshtein(a[..0], b[..j])
    {
      FirstColumn("", b[..j]);
    }
    for i := 0 to |a|
      invariant forall j :: 0 <= j <= |b| ==> row[j] == Levenshtein(a[..i], b[..j])
    {
      NextRow(row, a, b, i);
    }
    assert a[..|a|] == a && b[..|b|] == b;
    d := row[|b|];
  }

  // ----- the recurrence is the cheapest script

  /** The edit by which a cheapest script ends. */
  function LastEdit(a: string, b: string): Edit
    requires a != "" || b != ""
  {
    if a == "" then Add(b[|b| - 1])
    else if b == "" then Drop(a[|a| - 1])
    else if Levenshtein(a, b) == Levenshtein(a[..|a| - 1], b) + 1 then Drop(a[|a| - 1])
    else if Levenshtein(a, b) == Levenshtein(a, b[..|b| - 1]) + 1 then Add(b[|b| - 1])
    else if a[|a| - 1] == b[|b| - 1] then Keep(a[|a| - 1])
    else Replace(a[|a| - 1], b[|b| - 1])
  }

  lemma LastRuneSplit(s: string)
    requires s != ""
    ensures s == s[..|s| - 1] + [s[|s| - 1]]
  {
  }

  lemma LastEditReads(a: string, b: string)
    requires a != "" || b != ""
    ensures
      var e := LastEdit(a, b);
      && (if e.Add? then Read(e) == "" else a != "" && Read(e) == [a[|a| - 1]])
      && (if e.Drop? then Written(e) == "" else b != "" && Written(e) == [b[|b| - 1]])
  {
    hide Levenshtein;
  }

  lemma LastEditCosts(a: string, b: string)
    requires a != "" || b != ""
    ensures
      var e := LastEdit(a, b);
      && (e.Add? ==> b != "" && Levenshtein(a, b) == Levenshtein(a, b[..|b| - 1]) + 1)
      && (e.Drop? ==> a != "" && Levenshtein(a, b) == Levenshtein(a[..|a| - 1], b) + 1)
      && (e.Keep? || e.Replace? ==>
            a != "" && b != "" && Levenshtein(a, b) == Levenshtein(a[..|a| - 1], b[..|b| - 1]) + Price(e))
  {
    if a != "" && b != "" {
      Unfold(a, b);
    } else if b != "" {
      FirstColumn(a, b[..|b| - 1]);
    } else {
      FirstColumn(a, b);
      assert Levenshtein(a[..|a| - 1], "") == |a| - 1;
    }
    hide Levenshtein;
  }

  /** Some script costs exactly the distance. */
  lemma {:induction false} CheapestScript(a: string, b: string) returns (s: Script)
    ensures Turns(s, a, b) && Cost(s) == Levenshtein(a, b)
    decreases |a| + |b|
  {
    if a == "" && b == "" {
      s := Start;
      return;
    }
    var e := LastEdit(a, b);
    LastEditReads(a, b);
    LastEditCosts(a, b);
    hide LastEdit, Levenshtein;
    if e.Add? {
      LastRuneSplit(b);
      s := CheapestScript(a, b[..|b| - 1]);
    } else if e.Drop? {
      LastRuneSplit(a);
      s := CheapestScript(a[..|a| - 1], b);
    } else {
      LastRuneSplit(a);
      LastRuneSplit(b);
      s := CheapestScript(a[..|a| - 1], b[..|b| - 1]);
    }
    s := Then(s, e);
  }

  /** Dropping or adding a last rune costs at most one. */
  lemma {:induction false} LastRune(a: string, b: string)
    ensures a != "" ==> Levenshtein(a, b) <= Levenshtein(a[..|a| - 1], b) + 1
    ensures b != "" ==> Levenshtein(a, b) <= Levenshtein(a, b[..|b| - 1]) + 1
  {
  }

  lemma OneMoreEdit(a: string, b: string, e: Edit)
    ensures Levenshtein(a + Read(e), b + Written(e)) <= Levenshtein(a, b) + Price(e)
  {
    var a', b' := a + Read(e), b + Written(e);
    assert !e.Add? ==> a'[..|a'| - 1] == a;
    assert e.Add? ==> a' == a;
    assert !e.Drop? ==> b'[..|b'| - 1] == b;
    assert e.Drop? ==> b' == b;
    LastRune(a', b');
  }

  /** No script is cheaper than the distance. */
  lemma {:induction false} NoCheaperScript(s: Script)
    ensures Levenshtein(Source(s), Target(s)) <= Cost(s)
  {
    if s.Then? {
      hide Levenshtein;
      NoCheaperScript(s.earlier);
      OneMoreEdit(Source(s.earlier), Target(s.earlier), s.last);
    }
  }

  /** The distance is the minimum cost over all scripts. */
  lemma DistanceIsMinimalCost(a: string, b: string)
    ensures exists s :: Turns(s, a, b) && Cost(s) == Levenshtein(a, b)
    ensures forall s :: Turns(s, a, b) ==> Levenshtein(a, b) <= Cost(s)
  {
    var s := CheapestScript(a, b);
    forall s | Turns(s, a, b)
      ensures Levenshtein(a, b) <= Cost(s)
    {
      NoCheaperScript(s);
    }
  }

  // ----- a metric

  function Undo(e: Edit): Edit
  {
    match e
    case Keep(c) => Keep(c)
    case Add(c) => Drop(c)
    case Drop(c) => Add(c)
    case Replace(c, d) => Replace(d, c)
  }

  lemma {:induction false} Reversed(s: Script) returns (r: Script)
    ensures Turns(r, Target(s), Source(s)) && Cost(r) == Cost(s)
  {
    if s.Start? {
      r := Start;
    } else {
      r := Reversed(s.earlier);
      r := Then(r, Undo(s.last));
    }
  }

  lemma {:induction false} FreeScriptKeeps(s: Script)
    requires Cost(s) == 0
    ensures Source(s) == Target(s)
  {
    if s.Then? {
      FreeScriptKeeps(s.earlier);
    }
  }

  /** One edit after another at one place: what is left of both, if anything. */
  function Fuse(s: Script, e: Edit, f: Edit): Script
    requires !e.Drop? && !f.Add? && Written(e) == Read(f)
  {
    if f.Keep? then Then(s, e)
    else if e.Keep? then Then(s, f)
    else if e.Add? then (if f.Drop? then s else Then(s, Add(f.to)))
    else if f.Drop? then Then(s, Drop(e.from))
    else Then(s, Replace(e.from, f.to))
  }

  lemma FuseFits(s: Script, e: Edit, f: Edit)
    requires !e.Drop? && !f.Add? && Written(e) == Read(f)
    ensures Turns(Fuse(s, e, f), Source(s) + Read(e), Target(s) + Written(f))
    ensures Cost(Fuse(s, e, f)) <= Cost(s) + Price(e) + Price(f)
  {
  }

  lemma SameLastRune(u: string, v: string, x: string, y: string)
    requires u + x == v + y && |x| == |y|
    ensures u == v && x == y
  {
    assert u == (u + x)[..|u|] && v == (v + y)[..|v|];
    assert x == (u + x)[|u|..] && y == (v + y)[|v|..];
  }

  /** Two scripts in a row can be done as one script that costs no more than both. */
  lemma {:induction false} Composed(s: Script, t: Script) returns (r: Script)
    requires Target(s) == Source(t)
    ensures Turns(r, Source(s), Target(t)) && Cost(r) <= Cost(s) + Cost(t)
    decreases s, t
  {
    if s.Then? && s.last.Drop? {
      r := Composed(s.earlier, t);
      r := Then(r, s.last);
    } else if t.Then? && t.last.Add? {
      r := Composed(s, t.earlier);
      r := Then(r, t.last);
    } else if s.Start? || t.Start? {
      r := Start;
    } else {
      SameLastRune(Target(s.earlier), Source(t.earlier), Written(s.last), Read(t.last));
      r := Composed(s.earlier, t.earlier);
      FuseFits(r, s.last, t.last);
      hide Fuse;
      r := Fuse(r, s.last, t.last);
    }
  }

  /** The distance is a metric. */
  lemma DistanceIsAMetric(a: string, b: string, c: string)
    ensures Levenshtein(a, b) == 0 <==> a == b
    ensures Levenshtein(a, b) == Levenshtein(b, a)
    ensures Levenshtein(a, c) <= Levenshtein(a, b) + Levenshtein(b, c)
  {
    var ab := CheapestScript(a, b);
    var bc := CheapestScript(b, c);
    var ac := Composed(ab, bc);
    NoCheaperScript(ac);
    SymmetricUpTo(a, b);
    SymmetricUpTo(b, a);
    if Levenshtein(a, b) == 0 {
      FreeScriptKeeps(ab);
    }
    if a == b {
      NoCheaperScript(KeepAll(a));
      KeepAllIsFree(a);
    }
  }

  lemma SymmetricUpTo(a: string, b: string)
    ensures Levenshtein(b, a) <= Levenshtein(a, b)
  {
    var s := CheapestScript(a, b);
    var r := Reversed(s);
    NoCheaperScript(r);
  }

  // ----- distance at most one

  function KeepAll(s: string): Script
  {
    if s == "" then Start else Then(KeepAll(s[..|s| - 1]), Keep(s[|s| - 1]))
  }

  lemma {:induction false} KeepAllIsFree(s: string)
    ensures Turns(KeepAll(s), s, s) && Cost(KeepAll(s)) == 0
  {
    if s != "" {
      KeepAllIsFree(s[..|s| - 1]);
    }
  }

  function Append(s: Script, t: Script): Script
  {
    if t.Start? then s else Then(Append(s, t.earlier), t.last)
  }

  lemma {:induction false} ScriptConcat(s: Script, t: Script)
    ensures Turns(Append(s, t), Source(s) + Source(t), Target(s) + Target(t))
    ensures Cost(Append(s, t)) == Cost(s) + Cost(t)
  {
    if t.Then? {
      ScriptConcat(s, t.earlier);
    }
  }

  /** The two terms agree but for at most one rune on each side, at one place. */
  ghost predicate OneEditApart(a: string, b: string)
  {
    exists before: string, x: string, y: string, after: string ::
      |x| <= 1 && |y| <= 1 && a == before + x + after && b == before + y + after
  }

  lemma OneEditAt(before: string, x: string, y: string, after: string)
    requires |x| <= 1 && |y| <= 1
    ensures OneEditApart(before + x + after, before + y + after)
  {
  }

  lemma Associative(u: string, v: string, w: string)
    ensures u + v + w == u + (v + w)
  {
  }

  lemma OneEditThenKeep(a: string, b: string, c: string)
    requires OneEditApart(a, b)
    ensures OneEditApart(a + c, b + c)
  {
    var before, x, y, after :| |x| <= 1 && |y| <= 1 && a == before + x + after && b == before + y + after;
    OneEditAt(before, x, y, after + c);
    Associative(before + x, after, c);
    Associative(before + y, after, c);
    hide OneEditApart;
  }

  lemma {:induction false} CheapScriptHasOneEdit(s: Script)
    requires Cost(s) <= 1
    ensures OneEditApart(Source(s), Target(s))
  {
    hide OneEditApart;
    if s.Start? {
      OneEditAt("", "", "", "");
    } else if s.last.Keep? {
      CheapScriptHasOneEdit(s.earlier);
      OneEditThenKeep(Source(s.earlier), Target(s.earlier), [s.last.rune]);
    } else {
      FreeScriptKeeps(s.earlier);
      var before := Source(s.earlier);
      OneEditAt(before, Read(s.last), Written(s.last), "");
      assert before + Read(s.last) + "" == Source(s) && before + Written(s.last) + "" == Target(s);
    }
  }

  function EditBetween(x: string, y: string): Script
    requires |x| <= 1 && |y| <= 1
  {
    if x == "" && y == "" then Start
    else if x == "" then Then(Start, Add(y[0]))
    else if y == "" then Then(Start, Drop(x[0]))
    else Then(Start, Replace(x[0], y[0]))
  }

  lemma EditBetweenCosts(x: string, y: string)
    requires |x| <= 1 && |y| <= 1
    ensures Turns(EditBetween(x, y), x, y) && Cost(EditBetween(x, y)) <= 1
  {
    assert x != "" ==> x == [x[0]];
    assert y != "" ==> y == [y[0]];
  }

  /** Fuzzy matching accepts exactly the terms at most one edit away. */
  lemma WithinOneEdit(a: string, b: string)
    ensures Levenshtein(a, b) <= 1 <==> OneEditApart(a, b)
  {
    if Levenshtein(a, b) <= 1 {
      var s := CheapestScript(a, b);
      CheapScriptHasOneEdit(s);
    }
    if OneEditApart(a, b) {
      var before, x, y, after :| |x| <= 1 && |y| <= 1 && a == before + x + after && b == before + y + after;
      var first, edit, last := KeepAll(before), EditBetween(x, y), KeepAll(after);
      KeepAllIsFree(before);
      KeepAllIsFree(after);
      EditBetweenCosts(x, y);
      ScriptConcat(first, edit);
      ScriptConcat(Append(first, edit), last);
      NoCheaperScript(Append(Append(first, edit), last));
    }
  }
}
