/** Edit distance and nearest-match search (src/util/levenshtein.cc). */
module Levenshtein {

  // ---------- The recurrence that the table is filled by ----------

  function Min3(x: nat, y: nat, z: nat): nat {
    if x <= y && x <= z then x else if y <= z then y else z
  }

  function Init(s: string): string
    requires s != ""
  {
    s[..|s| - 1]
  }

  function Last(s: string): char
    requires s != ""
  {
    s[|s| - 1]
  }

  function Distance(a: string, b: string): nat
    decreases |a| + |b|
  {
    if a == "" then |b|
    else if b == "" then |a|
    else Min3(Distance(Init(a), b) + 1,
              Distance(a, Init(b)) + 1,
              Distance(Init(a), Init(b)) + if Last(a) == Last(b) then 0 else 1)
  }

  // ---------- Reference definition: sequences of single-character edits ----------

  datatype Edit =
    | Insert(at: nat, c: char)
    | Delete(at: nat)
    | Substitute(at: nat, c: char)

  predicate Applicable(e: Edit, s: string) {
    if e.Insert? then e.at <= |s| else e.at < |s|
  }

  function Apply(e: Edit, s: string): string
    requires Applicable(e, s)
  {
    match e
    case Insert(at, c) => s[..at] + [c] + s[at..]
    case Delete(at) => s[..at] + s[at + 1..]
    case Substitute(at, c) => s[..at] + [c] + s[at + 1..]
  }

  /** Edits performed one after another, each at unit cost. */
  datatype Script = Done | Then(first: Edit, rest: Script) {
    function Cost(): nat {
      if Done? then 0 else 1 + rest.Cost()
    }

    function Append(more: Script): Script {
      if Done? then more else Then(first, rest.Append(more))
    }
  }

  ghost predicate Transforms(script: Script, a: string, b: string)
    decreases script
  {
    match script
    case Done => a == b
    case Then(e, rest) => Applicable(e, a) && Transforms(rest, Apply(e, a), b)
  }

  ghost predicate IsMinimumEdits(d: nat, a: string, b: string) {
    && (exists script :: Transforms(script, a, b) && script.Cost() == d)
    && (forall script :: Transforms(script, a, b) ==> d <= script.Cost())
  }

  // ---------- No script is cheaper ----------

  ghost predicate Near(x: nat, y: nat) {
    x <= y + 1 && y <= x + 1
  }

  /** Dropping the last character on the left moves the distance by at most one. */
  lemma {:induction false} InitNear(u: string, r: string)
    requires u != ""
    ensures Near(Distance(u, r), Distance(Init(u), r))
    decreases |r|
  {
    if r != "" {
      InitNear(u, Init(r));
    }
  }

  /** Replacing the last character on the left moves the distance by at most one. */
  lemma {:induction false} ReplaceLastNear(x: string, y: string, r: string)
    requires x != "" && y != "" && Init(x) == Init(y)
    ensures Near(Distance(x, r), Distance(y, r))
    decreases |r|
  {
    if r != "" {
      ReplaceLastNear(x, y, Init(r));
    }
  }

  /** Strings that are near to every target stay so when both get the same ending. */
  lemma {:induction false} SuffixNear(x: string, y: string, v: string, r: string)
    requires forall t :: Near(Distance(x, t), Distance(y, t))
    ensures Near(Distance(x + v, r), Distance(y + v, r))
    decreases |v| + |r|
  {
    if v == "" {
      assert x + v == x && y + v == y;
    } else {
      assert Init(x + v) == x + Init(v) && Init(y + v) == y + Init(v);
      SuffixNear(x, y, Init(v), r);
      if r == "" {
        assert Near(Distance(x, ""), Distance(y, ""));
      } else {
        SuffixNear(x, y, v, Init(r));
        SuffixNear(x, y, Init(v), Init(r));
      }
    }
  }

  /** One edit anywhere in the string changes the distance to any target by at most one. */
  lemma EditNear(e: Edit, s: string, r: string)
    requires Applicable(e, s)
    ensures Near(Distance(s, r), Distance(Apply(e, s), r))
  {
    var u := s[..e.at];
    match e
    case Insert(at, c) =>
      forall t ensures Near(Distance(u, t), Distance(u + [c], t)) {
        assert Init(u + [c]) == u;
        InitNear(u + [c], t);
      }
      assert s == u + s[at..];
      SuffixNear(u, u + [c], s[at..], r);
    case Delete(at) =>
      forall t ensures Near(Distance(u + [s[at]], t), Distance(u, t)) {
        assert Init(u + [s[at]]) == u;
        InitNear(u + [s[at]], t);
      }
      assert s == u + [s[at]] + s[at + 1..];
      SuffixNear(u + [s[at]], u, s[at + 1..], r);
    case Substitute(at, c) =>
      forall t ensures Near(Distance(u + [s[at]], t), Distance(u + [c], t)) {
        assert Init(u + [s[at]]) == u == Init(u + [c]);
        ReplaceLastNear(u + [s[at]], u + [c], t);
      }
      assert s == u + [s[at]] + s[at + 1..];
      SuffixNear(u + [s[at]], u + [c], s[at + 1..], r);
  }

  lemma {:induction false} SelfDistance(a: string)
    ensures Distance(a, a) == 0
  {
    if a != "" {
      SelfDistance(Init(a));
    }
  }

  lemma {:induction false} NoScriptIsCheaper(script: Script, a: string, b: string)
    requires Transforms(script, a, b)
    ensures Distance(a, b) <= script.Cost()
  {
    match script
    case Done => SelfDistance(a);
    case Then(e, rest) =>
      EditNear(e, a, b);
      NoScriptIsCheaper(rest, Apply(e, a), b);
  }

  // ---------- Some script attains the distance ----------

  lemma {:induction false} TransformsAppend(s1: Script, s2: Script, a: string, b: string, c: string)
    requires Transforms(s1, a, b) && Transforms(s2, b, c)
    ensures Transforms(s1.Append(s2), a, c)
    ensures s1.Append(s2).Cost() == s1.Cost() + s2.Cost()
  {
    match s1
    case Done =>
    case Then(e, rest) => TransformsAppend(rest, s2, Apply(e, a), b, c);
  }

  lemma SlicesBefore(a: string, v: string, k: nat)
    requires k <= |a|
    ensures (a + v)[..k] == a[..k] && (a + v)[k..] == a[k..] + v
  {
  }

  lemma ApplyBefore(e: Edit, a: string, v: string)
    requires Applicable(e, a)
    ensures Applicable(e, a + v) && Apply(e, a + v) == Apply(e, a) + v
  {
    SlicesBefore(a, v, e.at);
    if !e.Insert? {
      SlicesBefore(a, v, e.at + 1);
    }
  }

  lemma InitLast(s: string)
    requires s != ""
    ensures Init(s) + [Last(s)] == s
  {
  }

  /** A script never looks past the part of the string it was written for. */
  lemma {:induction false} TransformsBefore(script: Script, a: string, b: string, v: string)
    requires Transforms(script, a, b)
    ensures Transforms(script, a + v, b + v)
  {
    match script
    case Done =>
    case Then(e, rest) =>
      ApplyBefore(e, a, v);
      TransformsBefore(rest, Apply(e, a), b, v);
  }

  lemma ThenEdit(script: Script, e: Edit, a: string, m: string, b: string) returns (longer: Script)
    requires Transforms(script, a, m) && Applicable(e, m) && Apply(e, m) == b
    ensures Transforms(longer, a, b) && longer.Cost() == script.Cost() + 1
  {
    assert Transforms(Then(e, Done), m, b);
    TransformsAppend(script, Then(e, Done), a, m, b);
    longer := script.Append(Then(e, Done));
  }

  lemma DeleteLast(script: Script, a: string, b: string) returns (longer: Script)
    requires a != "" && Transforms(script, Init(a), b)
    ensures Transforms(longer, a, b) && longer.Cost() == script.Cost() + 1
  {
    longer := Then(Delete(|a| - 1), script);
    assert Apply(Delete(|a| - 1), a) == Init(a);
  }

  lemma InsertLast(script: Script, a: string, b: string) returns (longer: Script)
    requires b != "" && Transforms(script, a, Init(b))
    ensures Transforms(longer, a, b) && longer.Cost() == script.Cost() + 1
  {
    assert Apply(Insert(|b| - 1, Last(b)), Init(b)) == b;
    longer := ThenEdit(script, Insert(|b| - 1, Last(b)), a, Init(b), b);
  }

  lemma KeepLast(script: Script, a: string, b: string)
    requires a != "" && b != "" && Last(a) == Last(b) && Transforms(script, Init(a), Init(b))
    ensures Transforms(script, a, b)
  {
    TransformsBefore(script, Init(a), Init(b), [Last(a)]);
    InitLast(a);
    InitLast(b);
  }

  lemma SubstituteLast(script: Script, a: string, b: string) returns (longer: Script)
    requires a != "" && b != "" && Transforms(script, Init(a), Init(b))
    ensures Transforms(longer, a, b) && longer.Cost() == script.Cost() + 1
  {
    var m := Init(b) + [Last(a)];
    assert Init(m) == Init(b);
    KeepLast(script, a, m);
    assert Apply(Substitute(|b| - 1, Last(b)), m) == b;
    longer := ThenEdit(script, Substitute(|b| - 1, Last(b)), a, m, b);
  }

  lemma {:induction false} SomeScriptAttains(a: string, b: string) returns (script: Script)
    ensures Transforms(script, a, b)
    ensures script.Cost() == Distance(a, b)
    decreases |a| + |b|
  {
    if a == "" && b == "" {
      script := Done;
    } else if b == "" || (a != "" && Distance(a, b) == Distance(Init(a), b) + 1) {
      var rest := SomeScriptAttains(Init(a), b);
      script := DeleteLast(rest, a, b);
    } else if a == "" || Distance(a, b) == Distance(a, Init(b)) + 1 {
      var start := SomeScriptAttains(a, Init(b));
      script := InsertLast(start, a, b);
    } else {
      var start := SomeScriptAttains(Init(a), Init(b));
      if Last(a) == Last(b) {
        KeepLast(start, a, b);
        script := start;
      } else {
        script := SubstituteLast(start, a, b);
      }
    }
  }

  lemma {:induction false} DistanceIsMinimumEdits(a: string, b: string, d: nat)
    ensures IsMinimumEdits(d, a, b) <==> d == Distance(a, b)
  {
    var best := SomeScriptAttains(a, b);
    forall script | Transforms(script, a, b) ensures Distance(a, b) <= script.Cost() {
      NoScriptIsCheaper(script, a, b);
    }
  }

  // ---------- The distance is a metric ----------

  lemma {:induction false} Symmetric(a: string, b: string)
    ensures Distance(a, b) == Distance(b, a)
    decreases |a| + |b|
  {
    if a != "" && b != "" {
      Symmetric(Init(a), b);
      Symmetric(a, Init(b));
      Symmetric(Init(a), Init(b));
    }
  }

  lemma {:induction false} Triangle(a: string, b: string, c: string)
    ensures Distance(a, c) <= Distance(a, b) + Distance(b, c)
  {
    var s1 := SomeScriptAttains(a, b);
    var s2 := SomeScriptAttains(b, c);
    TransformsAppend(s1, s2, a, b, c);
    NoScriptIsCheaper(s1.Append(s2), a, c);
  }

  lemma {:induction false} ZeroIffEqual(a: string, b: string)
    ensures Distance(a, b) == 0 <==> a == b
  {
    SelfDistance(a);
    var script := SomeScriptAttains(a, b);
  }

  lemma {:induction false} Bounds(a: string, b: string)
    ensures |a| - |b| <= Distance(a, b) && |b| - |a| <= Distance(a, b)
    ensures Distance(a, b) <= if |a| <= |b| then |b| else |a|
    decreases |a| + |b|
  {
    if a != "" && b != "" {
      Bounds(Init(a), b);
      Bounds(a, Init(b));
      Bounds(Init(a), Init(b));
    }
  }

  // ---------- The table ----------

  /** The value that belongs in row `i` and column `j` of the table. */
  ghost predicate IsCell(x: nat, left: string, right: string, i: int, j: int)
    requires 0 <= i <= |left| && 0 <= j <= |right|
  {
    x == Distance(left[..i], right[..j])
  }

  lemma BorderCells(left: string, right: string)
    ensures forall i :: 0 <= i <= |left| ==> IsCell(i, left, right, i, 0)
    ensures forall j :: 0 <= j <= |right| ==> IsCell(j, left, right, 0, j)
  {
  }

  lemma InnerCell(left: string, right: string, i: int, j: int, up: nat, back: nat, diagonal: nat)
    requires 1 <= i <= |left| && 1 <= j <= |right|
    requires IsCell(up, left, right, i - 1, j) && IsCell(back, left, right, i, j - 1)
    requires IsCell(diagonal, left, right, i - 1, j - 1)
    ensures IsCell(Min3(up + 1, back + 1, diagonal + if left[i - 1] == right[j - 1] then 0 else 1), left, right, i, j)
  {
    assert Init(left[..i]) == left[..i - 1] && Init(right[..j]) == right[..j - 1];
  }

  /** The table of `levenshtein_distance`, filled row by row. */
  method LevenshteinDistance(left: string, right: string) returns (d: nat)
    ensures d == Distance(left, right)
  {
    var m, n := |left|, |right|;
    var dp := new nat[m + 1, n + 1]((i, j) => 0);
    for i := 0 to m + 1
      invariant forall k :: 0 <= k < i ==> dp[k, 0] == k
    {
      dp[i, 0] := i;
    }
    for j := 0 to n + 1
      invariant forall k :: 0 <= k <= m ==> dp[k, 0] == k
      invariant forall l :: 0 <= l < j ==> dp[0, l] == l
    {
      dp[0, j] := j;
    }
    BorderCells(left, right);
    for i := 1 to m + 1
      invariant forall k :: 0 <= k <= m ==> dp[k, 0] == k
      invariant forall k, l :: 0 <= k < i && 0 <= l <= n ==> IsCell(dp[k, l], left, right, k, l)
    {
      for j := 1 to n + 1
        invariant forall k :: 0 <= k <= m ==> dp[k, 0] == k
        invariant forall k, l :: 0 <= k < i && 0 <= l <= n ==> IsCell(dp[k, l], left, right, k, l)
        invariant forall l :: 0 <= l < j ==> IsCell(dp[i, l], left, right, i, l)
      {
        var substitutionCost := if left[i - 1] == right[j - 1] then 0 else 1;
        InnerCell(left, right, i, j, dp[i - 1, j], dp[i, j - 1], dp[i - 1, j - 1]);
        dp[i, j] := Min3(dp[i - 1, j] + 1, dp[i, j - 1] + 1, dp[i - 1, j - 1] + substitutionCost);
      }
    }
    d := dp[m, n];
    assert IsCell(d, left, right, m, n);
    assert left[..m] == left && right[..n] == right;
  }

  // ---------- Nearest matches ----------

  type Ranked = (nat, string)

  predicate Ascending(s: seq<Ranked>) {
    forall i, j :: 0 <= i < j < |s| ==> s[i].0 <= s[j].0
  }

  /** What `std::sort` promises when only first components are compared: the order of equals is open. */
  predicate SortOf(sorted: seq<Ranked>, s: seq<Ranked>) {
    Ascending(sorted) && multiset(sorted) == multiset(s)
  }

  lemma MultisetOfSplit<T>(a: seq<T>, x: T, b: seq<T>)
    ensures multiset(a + [x] + b) == multiset(a + b) + multiset{x}
  {
  }

  lemma {:induction false} SortExists(s: seq<Ranked>) returns (sorted: seq<Ranked>)
    ensures SortOf(sorted, s)
  {
    if s == [] {
      sorted := [];
    } else {
      var rest := SortExists(s[1..]);
      var k := 0;
      while k < |rest| && rest[k].0 < s[0].0
        invariant 0 <= k <= |rest|
        invariant forall i :: 0 <= i < k ==> rest[i].0 < s[0].0
      {
        k := k + 1;
      }
      sorted := InsertRanked(rest, s[0], k);
      assert [] + [s[0]] + s[1..] == s && [] + s[1..] == s[1..];
      MultisetOfSplit([], s[0], s[1..]);
    }
  }

  lemma InsertRanked(s: seq<Ranked>, x: Ranked, k: nat) returns (longer: seq<Ranked>)
    requires Ascending(s) && k <= |s|
    requires forall i :: 0 <= i < k ==> s[i].0 < x.0
    requires k < |s| ==> x.0 <= s[k].0
    ensures Ascending(longer) && multiset(longer) == multiset(s) + multiset{x}
  {
    longer := s[..k] + [x] + s[k..];
    MultisetOfSplit(s[..k], x, s[k..]);
    assert s == s[..k] + s[k..];
  }

  function Names(s: seq<Ranked>): seq<string> {
    seq(|s|, i requires 0 <= i < |s| => s[i].1)
  }

  lemma NamesOfSplit(a: seq<Ranked>, x: Ranked, b: seq<Ranked>)
    ensures multiset(Names(a + [x] + b)) == multiset(Names(a + b)) + multiset{x.1}
  {
    assert Names(a + [x] + b) == Names(a) + [x.1] + Names(b);
    assert Names(a + b) == Names(a) + Names(b);
    MultisetOfSplit(Names(a), x.1, Names(b));
  }

  /** Taking one occurrence of `x` out of `t`. */
  lemma TakeOut(t: seq<Ranked>, x: Ranked) returns (rest: seq<Ranked>)
    requires x in t
    ensures multiset(t) == multiset(rest) + multiset{x} && |rest| == |t| - 1
    ensures multiset(Names(t)) == multiset(Names(rest)) + multiset{x.1}
  {
    var k :| 0 <= k < |t| && t[k] == x;
    rest := t[..k] + t[k + 1..];
    assert t == t[..k] + [x] + t[k + 1..];
    MultisetOfSplit(t[..k], x, t[k + 1..]);
    NamesOfSplit(t[..k], x, t[k + 1..]);
  }

  lemma {:induction false} NamesOfPermutation(s: seq<Ranked>, t: seq<Ranked>)
    requires multiset(s) == multiset(t)
    ensures multiset(Names(s)) == multiset(Names(t))
    decreases |s|
  {
    if s == [] {
      assert |multiset(t)| == 0;
    } else {
      assert s[0] in multiset(s) && s[0] in multiset(t);
      var restS := TakeOut(s, s[0]);
      var restT := TakeOut(t, s[0]);
      assert multiset(restS) == multiset(s) - multiset{s[0]} == multiset(restT);
      NamesOfPermutation(restS, restT);
    }
  }

  /** `result` lists `count` members of `collection`, cheapest first, and leaves out nothing cheaper. */
  ghost predicate Cheapest(result: seq<string>, collection: seq<string>, cost: string -> nat, count: nat) {
    && |result| == count
    && multiset(result) <= multiset(collection)
    && (forall i, j :: 0 <= i < j < |result| ==> cost(result[i]) <= cost(result[j]))
    && (forall i, x :: 0 <= i < |result| && x in multiset(collection) - multiset(result)
          ==> cost(result[i]) <= cost(x))
  }

  lemma CheapestOfParts(result: seq<string>, omitted: seq<string>, collection: seq<string>, cost: string -> nat)
    requires multiset(result) + multiset(omitted) == multiset(collection)
    requires forall i, j :: 0 <= i < j < |result| ==> cost(result[i]) <= cost(result[j])
    requires forall i, k :: 0 <= i < |result| && 0 <= k < |omitted| ==> cost(result[i]) <= cost(omitted[k])
    ensures Cheapest(result, collection, cost, |result|)
  {
    assert multiset(collection) - multiset(result) == multiset(omitted);
    forall i, x | 0 <= i < |result| && x in multiset(omitted) ensures cost(result[i]) <= cost(x) {
      var k :| 0 <= k < |omitted| && omitted[k] == x;
    }
  }

  /** Any order that the sort may choose starts with the cheapest members. */
  lemma PrefixOfSort(names: seq<string>, collection: seq<string>, cost: string -> nat, count: nat)
    requires count <= |names| && multiset(names) == multiset(collection)
    requires forall i, j :: 0 <= i < j < |names| ==> cost(names[i]) <= cost(names[j])
    ensures Cheapest(names[..count], collection, cost, count)
  {
    assert names == names[..count] + names[count..];
    CheapestOfParts(names[..count], names[count..], collection, cost);
  }

  lemma PartIsNotLonger(a: seq<string>, b: seq<string>)
    requires multiset(a) <= multiset(b)
    ensures |a| <= |b|
  {
    assert multiset(b) == multiset(a) + (multiset(b) - multiset(a));
    assert |multiset(b)| == |b| && |multiset(a)| == |a|;
  }

  /** A longer list has some element more often than a shorter one. */
  lemma SomeMoreOften(a: seq<string>, b: seq<string>) returns (x: string)
    requires |b| < |a|
    ensures multiset(b)[x] < multiset(a)[x] && x in a
  {
    if multiset(a) <= multiset(b) {
      PartIsNotLonger(a, b);
    }
    x :| multiset(b)[x] < multiset(a)[x];
    assert x in multiset(a);
  }

  lemma CountInParts(s: seq<string>, k: nat, x: string)
    requires k <= |s|
    ensures multiset(s)[x] == multiset(s[..k])[x] + multiset(s[k..])[x]
  {
    assert s == s[..k] + s[k..];
  }

  lemma CostInFront(a: seq<string>, cost: string -> nat, i: nat, x: string)
    requires i < |a| && x in a[..i + 1]
    requires forall j, k :: 0 <= j < k < |a| ==> cost(a[j]) <= cost(a[k])
    ensures cost(x) <= cost(a[i])
  {
    var k :| 0 <= k < |a[..i + 1]| && a[..i + 1][k] == x;
    assert a[k] == x;
  }

  lemma CostBehind(b: seq<string>, cost: string -> nat, i: nat, x: string)
    requires i < |b| && x in b[i..]
    requires forall j, k :: 0 <= j < k < |b| ==> cost(b[j]) <= cost(b[k])
    ensures cost(b[i]) <= cost(x)
  {
    var j :| 0 <= j < |b[i..]| && b[i..][j] == x;
    assert b[i + j] == x;
  }

  lemma CostAtMost(a: seq<string>, b: seq<string>, collection: seq<string>, cost: string -> nat, count: nat, i: nat)
    requires Cheapest(a, collection, cost, count) && Cheapest(b, collection, cost, count) && i < count
    ensures cost(b[i]) <= cost(a[i])
  {
    var x := SomeMoreOften(a[..i + 1], b[..i]);
    CostInFront(a, cost, i, x);
    CountInParts(a, i + 1, x);
    CountInParts(b, i, x);
    if x in b[i..] {
      CostBehind(b, cost, i, x);
    } else {
      OmittedCosts(a, b, collection, cost, count, i, x);
    }
  }

  lemma OmittedCosts(a: seq<string>, b: seq<string>, collection: seq<string>, cost: string -> nat, count: nat, i: nat, x: string)
    requires Cheapest(a, collection, cost, count) && Cheapest(b, collection, cost, count) && i < count
    requires multiset(b)[x] < multiset(a)[x]
    ensures cost(b[i]) <= cost(x)
  {
    assert multiset(a)[x] <= multiset(collection)[x];
    assert x in multiset(collection) - multiset(b);
  }

  /** Which of equally distant items are returned is open, but the distances at all places are not. */
  lemma {:induction false} CostsAreDetermined(a: seq<string>, b: seq<string>, collection: seq<string>, cost: string -> nat, count: nat)
    requires Cheapest(a, collection, cost, count) && Cheapest(b, collection, cost, count)
    ensures forall i :: 0 <= i < count ==> cost(a[i]) == cost(b[i])
  {
    forall i | 0 <= i < count ensures cost(a[i]) == cost(b[i]) {
      CostAtMost(a, b, collection, cost, count, i);
      CostAtMost(b, a, collection, cost, count, i);
    }
  }

  function DistanceTo(pattern: string): string -> nat {
    item => Distance(item, pattern)
  }

  method Rank(collection: seq<string>, pattern: string) returns (pairs: seq<Ranked>)
    ensures |pairs| == |collection|
    ensures forall i :: 0 <= i < |pairs| ==> pairs[i] == (DistanceTo(pattern)(collection[i]), collection[i])
  {
    pairs := [];
    for k := 0 to |collection|
      invariant |pairs| == k
      invariant forall i :: 0 <= i < k ==> pairs[i] == (DistanceTo(pattern)(collection[i]), collection[i])
    {
      var distance := LevenshteinDistance(collection[k], pattern);
      pairs := pairs + [(distance, collection[k])];
    }
  }

  /**
   * `get_approximate_matches`. A negative `maxResults` is converted to a huge
   * unsigned number by the program, so it asks for everything.
   */
  method GetApproximateMatches(collection: seq<string>, pattern: string, maxResults: int) returns (result: seq<string>)
    ensures Cheapest(result, collection, DistanceTo(pattern),
                     if 0 <= maxResults < |collection| then maxResults else |collection|)
  {
    var pairs := Rank(collection, pattern);
    ghost var order := SortExists(pairs);
    var sorted: seq<Ranked> :| SortOf(sorted, pairs);
    assert SortOf(sorted, pairs);
    assert |multiset(sorted)| == |sorted| && |multiset(pairs)| == |pairs|;
    var cost := DistanceTo(pattern);
    forall i | 0 <= i < |sorted| ensures sorted[i].0 == cost(sorted[i].1) {
      assert sorted[i] in multiset(pairs);
    }
    NamesOfPermutation(sorted, pairs);
    assert Names(pairs) == collection;

    var count := if 0 <= maxResults < |sorted| then maxResults else |sorted|;
    result := [];
    for i := 0 to count
      invariant result == Names(sorted)[..i]
    {
      result := result + [sorted[i].1];
    }
    PrefixOfSort(Names(sorted), collection, cost, count);
  }
}
