/** Alias rewriting of template types (src/config/config.cc, src/config/config.h). */
module TypeAliases {
  import opened Strings
  import opened Substitution

  type Alias = (string, string)

  // ---------- The longer-first order ----------

  function Less(a: string, b: string): bool {
    if b == "" then false
    else if a == "" then true
    else if a[0] != b[0] then a[0] < b[0]
    else Less(a[1..], b[1..])
  }

  /** `type_aliases_longer_first_comparator`. */
  predicate Before(a: string, b: string) {
    if |a| == |b| then Less(b, a) else |a| > |b|
  }

  lemma {:induction false} LessIsStrict(a: string, b: string)
    ensures !(Less(a, b) && Less(b, a))
    ensures a != b <==> Less(a, b) || Less(b, a)
  {
    if a != "" && b != "" && a[0] == b[0] {
      LessIsStrict(a[1..], b[1..]);
      assert a == [a[0]] + a[1..] && b == [b[0]] + b[1..];
    }
  }

  lemma {:induction false} LessIsTransitive(a: string, b: string, c: string)
    requires Less(a, b) && Less(b, c)
    ensures Less(a, c)
  {
    if a != "" && a[0] == b[0] == c[0] {
      LessIsTransitive(a[1..], b[1..], c[1..]);
    }
  }

  /** The comparator is a strict total order, so the ordered map treats no two aliases as equal. */
  lemma BeforeIsStrictTotalOrder(a: string, b: string, c: string)
    ensures !(Before(a, b) && Before(b, a))
    ensures a != b <==> Before(a, b) || Before(b, a)
    ensures Before(a, b) && Before(b, c) ==> Before(a, c)
  {
    LessIsStrict(a, b);
    if Less(c, b) && Less(b, a) {
      LessIsTransitive(c, b, a);
    }
  }

  lemma {:induction false} LessByDifference(a: string, b: string, k: nat)
    requires k < |a| && k < |b| && a[..k] == b[..k] && a[k] < b[k]
    ensures Less(a, b)
  {
    if k > 0 {
      assert a[0] == a[..k][0] == b[..k][0] == b[0];
      assert a[1..][..k - 1] == a[..k][1..] && b[1..][..k - 1] == b[..k][1..];
      LessByDifference(a[1..], b[1..], k - 1);
    }
  }

  /** Longer patterns come first; among patterns of one length, the one with the greater character where they first differ. */
  lemma LongerIsFirst(a: string, b: string, k: nat)
    ensures |a| > |b| ==> Before(a, b)
    ensures |a| == |b| && k < |a| && a[..k] == b[..k] && a[k] > b[k] ==> Before(a, b)
  {
    if |a| == |b| && k < |a| && a[..k] == b[..k] && a[k] > b[k] {
      LessByDifference(b, a, k);
    }
  }

  ghost predicate Ordered(l: seq<Alias>) {
    forall i, j :: 0 <= i < j < |l| ==> Before(l[i].0, l[j].0)
  }

  /** The list holds exactly the bindings of the map. */
  ghost predicate Lists(l: seq<Alias>, m: map<string, string>) {
    && (forall i :: 0 <= i < |l| ==> l[i].0 in m && m[l[i].0] == l[i].1)
    && (forall k :: k in m ==> (k, m[k]) in l)
  }

  /** The order in which the program goes through the aliases. */
  ghost predicate IsOrder(l: seq<Alias>, m: map<string, string>) {
    Ordered(l) && Lists(l, m)
  }

  lemma {:induction false} SameOrder(a: seq<Alias>, b: seq<Alias>)
    requires Ordered(a) && Ordered(b) && forall x :: x in a <==> x in b
    ensures a == b
  {
    var first := if b == [] then ("", "") else b[0];
    assert b != [] ==> first in b;
    if a == [] {
      assert first !in a;
    } else {
      assert a[0] in b;
      assert b[0] in a;
      BeforeIsStrictTotalOrder(a[0].0, b[0].0, "");
      BeforeIsStrictTotalOrder(a[0].0, a[0].0, "");
      assert a[0] == b[0];
      forall x ensures x in a[1..] <==> x in b[1..] {
        TailWithout(a, x);
        TailWithout(b, x);
      }
      SameOrder(a[1..], b[1..]);
      assert a == [a[0]] + a[1..] && b == [b[0]] + b[1..];
    }
  }

  lemma TailWithout(a: seq<Alias>, x: Alias)
    requires Ordered(a) && a != []
    ensures x in a[1..] <==> x in a && x != a[0]
  {
    BeforeIsStrictTotalOrder(x.0, x.0, "");
    if x in a[1..] {
      var i :| 0 <= i < |a[1..]| && a[1..][i] == x;
      assert a[i + 1] == x && Before(a[0].0, a[i + 1].0);
    }
    if x in a && x != a[0] {
      var i :| 0 <= i < |a| && a[i] == x;
      assert a[1..][i - 1] == x;
    }
  }

  /** There is only one such order. */
  lemma OrderIsUnique(a: seq<Alias>, b: seq<Alias>, m: map<string, string>)
    requires IsOrder(a, m) && IsOrder(b, m)
    ensures a == b
  {
    forall x ensures x in a <==> x in m.Items {
      ListedIsBound(a, m, x);
    }
    forall x ensures x in b <==> x in m.Items {
      ListedIsBound(b, m, x);
    }
    SameOrder(a, b);
  }

  lemma ListedIsBound(l: seq<Alias>, m: map<string, string>, x: Alias)
    requires Lists(l, m)
    ensures x in l <==> x in m.Items
  {
  }

  /** Inserting into the ordered map: nothing happens when an equivalent key is there. */
  method Insert(l: seq<Alias>, alias: Alias) returns (r: seq<Alias>)
    requires Ordered(l)
    ensures Ordered(r)
    ensures forall x :: x in r <==> x in l || (x == alias && forall i :: 0 <= i < |l| ==> l[i].0 != alias.0)
  {
    forall i | 0 <= i < |l| ensures l[i].0 != alias.0 <==> Before(l[i].0, alias.0) || Before(alias.0, l[i].0) {
      BeforeIsStrictTotalOrder(l[i].0, alias.0, "");
    }
    var k := 0;
    while k < |l| && Before(l[k].0, alias.0)
      invariant 0 <= k <= |l|
      invariant forall i :: 0 <= i < k ==> Before(l[i].0, alias.0)
    {
      k := k + 1;
    }
    if k < |l| && !Before(alias.0, l[k].0) {
      r := l;
    } else {
      r := l[..k] + [alias] + l[k..];
      forall i | k <= i < |l| ensures Before(alias.0, l[i].0) {
        if k < i {
          BeforeIsStrictTotalOrder(alias.0, l[k].0, l[i].0);
        }
      }
      forall i | 0 <= i < |l| ensures l[i].0 != alias.0 {
        BeforeIsStrictTotalOrder(l[i].0, alias.0, "");
      }
      assert l == l[..k] + l[k..];
    }
  }

  /** Every alias takes part, whatever order the map is read in. */
  method LongerFirst(aliases: map<string, string>) returns (l: seq<Alias>)
    ensures IsOrder(l, aliases)
  {
    l := [];
    var left := aliases.Keys;
    while left != {}
      invariant left <= aliases.Keys && Ordered(l)
      invariant forall x :: x in l <==> x.0 in aliases.Keys - left && x.1 == aliases[x.0]
      decreases left
    {
      var k :| k in left;
      forall i | 0 <= i < |l| ensures l[i].0 != k {
        assert l[i] in l;
      }
      l := Insert(l, (k, aliases[k]));
      left := left - {k};
    }
    forall i | 0 <= i < |l| ensures l[i].0 in aliases && aliases[l[i].0] == l[i].1 {
      assert l[i] in l;
    }
  }

  // ---------- Passes over the aliases ----------

  predicate HasPatterns(l: seq<Alias>) {
    forall i :: 0 <= i < |l| ==> l[i].0 != ""
  }

  /** The name after one pass, each alias replaced in turn. */
  ghost function Pass(name: string, l: seq<Alias>): string
    requires HasPatterns(l)
    decreases |l|
  {
    if l == [] then name else Pass(Replaced(name, l[0].0, l[0].1), l[1..])
  }

  /** Some alias finds its pattern during the pass. */
  ghost predicate Touched(name: string, l: seq<Alias>)
    requires HasPatterns(l)
    decreases |l|
  {
    l != [] && (Contains(name, l[0].0) || Touched(Replaced(name, l[0].0, l[0].1), l[1..]))
  }

  /** Going through one list and then another is one pass over both. */
  lemma {:induction false} PassOver(name: string, a: seq<Alias>, b: seq<Alias>)
    requires HasPatterns(a) && HasPatterns(b)
    ensures HasPatterns(a + b) && Pass(name, a + b) == Pass(Pass(name, a), b)
    decreases |a|
  {
    if a == [] {
      assert a + b == b;
    } else {
      assert (a + b)[1..] == a[1..] + b;
      PassOver(Replaced(name, a[0].0, a[0].1), a[1..], b);
    }
  }

  ghost function Passes(name: string, l: seq<Alias>, n: nat): string
    requires HasPatterns(l)
    decreases n
  {
    if n == 0 then name else Passes(Pass(name, l), l, n - 1)
  }

  /** The rewriting comes to rest: some pass finds nothing. */
  ghost predicate Settles(name: string, l: seq<Alias>)
    requires HasPatterns(l)
  {
    exists n: nat :: !Touched(Passes(name, l, n), l)
  }

  /** A pass finds nothing exactly when no pattern occurs, and then it changes nothing. */
  lemma {:induction false} UntouchedIsFree(name: string, l: seq<Alias>)
    requires HasPatterns(l)
    ensures !Touched(name, l) <==> forall i :: 0 <= i < |l| ==> !Contains(name, l[i].0)
    ensures !Touched(name, l) ==> Pass(name, l) == name
    decreases |l|
  {
    if l != [] {
      if Contains(name, l[0].0) {
        assert Touched(name, l);
      } else {
        ReplacementsPositive(name, l[0].0);
        ReplacedNone(name, l[0].0, l[0].1);
        hide Replaced, Contains;
        UntouchedIsFree(name, l[1..]);
        assert forall i :: 1 <= i < |l| ==> l[i] == l[1..][i - 1];
      }
    }
  }

  lemma {:induction false} PassesOneMore(name: string, l: seq<Alias>, n: nat)
    requires HasPatterns(l)
    ensures Passes(name, l, n + 1) == Pass(Passes(name, l, n), l)
    decreases n
  {
    if n > 0 {
      PassesOneMore(Pass(name, l), l, n - 1);
    }
  }

  lemma {:induction false} SettledStays(name: string, l: seq<Alias>, m: nat, n: nat)
    requires HasPatterns(l) && m <= n && !Touched(Passes(name, l, m), l)
    ensures Passes(name, l, n) == Passes(name, l, m)
    decreases n
  {
    if m < n {
      SettledStays(name, l, m, n - 1);
      PassesOneMore(name, l, n - 1);
      UntouchedIsFree(Passes(name, l, m), l);
    }
  }

  // ---------- simplify_template_type ----------

  /** One pass of the inner loop. */
  method RunPass(name: string, l: seq<Alias>) returns (result: string, matched: bool)
    requires HasPatterns(l)
    ensures result == Pass(name, l) && matched == Touched(name, l)
  {
    result, matched := name, false;
    assert l[0..] == l;
    for i := 0 to |l|
      invariant Pass(result, l[i..]) == Pass(name, l)
      invariant Touched(name, l) == (matched || Touched(result, l[i..]))
    {
      assert l[i..][1..] == l[i + 1..] && l[i..][0] == l[i];
      var replaced: bool;
      result, replaced := ReplaceAll(result, l[i].0, l[i].1);
      matched := replaced || matched;
    }
    assert l[|l|..] == [];
  }

  /**
   * `simplify_template_type`. Its loop ends only when some pass finds nothing,
   * which the caller has to see to.
   */
  method SimplifyTemplateType(fullName: string, aliases: map<string, string>) returns (result: string)
    requires exists l :: IsOrder(l, aliases) && HasPatterns(l) && Settles(fullName, l)
    ensures exists l, n: nat :: IsOrder(l, aliases) && HasPatterns(l) && result == Passes(fullName, l, n)
    ensures forall p :: p in aliases ==> !Contains(result, p)
  {
    var l := LongerFirst(aliases);
    ghost var l' :| IsOrder(l', aliases) && HasPatterns(l') && Settles(fullName, l');
    OrderIsUnique(l, l', aliases);
    ghost var last: nat :| !Touched(Passes(fullName, l, last), l);
    ghost var done: nat := 0;
    result := fullName;
    var matched := true;
    while matched
      invariant result == Passes(fullName, l, done)
      invariant !matched ==> !Touched(result, l)
      invariant matched ==> done <= last
      decreases matched, last - done
    {
      if done >= last {
        SettledStays(fullName, l, last, done);
      }
      PassesOneMore(fullName, l, done);
      UntouchedIsFree(result, l);
      result, matched := RunPass(result, l);
      done := done + 1;
    }
    UntouchedIsFree(result, l);
    forall p | p in aliases ensures !Contains(result, p) {
      assert (p, aliases[p]) in l;
      var i :| 0 <= i < |l| && l[i] == (p, aliases[p]);
    }
  }

  /** Simplifying a simplified name finds nothing. */
  lemma SimplifiedStays(name: string, l: seq<Alias>, n: nat)
    requires HasPatterns(l) && forall i :: 0 <= i < |l| ==> !Contains(name, l[i].0)
    ensures Settles(name, l) && Passes(name, l, n) == name
  {
    UntouchedIsFree(name, l);
    assert Passes(name, l, 0) == name;
    SettledStays(name, l, 0, n);
  }

  // ---------- Aliases that shrink ----------

  predicate Shrinking(l: seq<Alias>) {
    forall i :: 0 <= i < |l| ==> |l[i].1| < |l[i].0|
  }

  lemma {:induction false} PassShrinks(name: string, l: seq<Alias>)
    requires Shrinking(l) && HasPatterns(l)
    ensures |Pass(name, l)| <= |name|
    ensures Touched(name, l) ==> |Pass(name, l)| < |name|
    decreases |l|
  {
    if l != [] {
      ReplacedShrinks(name, l[0].0, l[0].1);
      hide Replaced, Contains;
      PassShrinks(Replaced(name, l[0].0, l[0].1), l[1..]);
    }
  }

  /** Strictly shorter replacements always come to rest, within as many passes as the name is long. */
  lemma {:induction false} ShrinkingSettles(name: string, l: seq<Alias>) returns (n: nat)
    requires Shrinking(l) && HasPatterns(l)
    ensures n <= |name| && !Touched(Passes(name, l, n), l)
    ensures Settles(name, l)
    decreases |name|
  {
    if Touched(name, l) {
      PassShrinks(name, l);
      var m := ShrinkingSettles(Pass(name, l), l);
      n := m + 1;
      assert Passes(name, l, n) == Passes(Pass(name, l), l, m);
    } else {
      n := 0;
      assert Passes(name, l, n) == name;
    }
  }

  lemma {:induction false} ShrinkingNeverLonger(name: string, l: seq<Alias>, n: nat)
    requires Shrinking(l) && HasPatterns(l)
    ensures |Passes(name, l, n)| <= |name|
    decreases n
  {
    if n > 0 {
      PassShrinks(name, l);
      ShrinkingNeverLonger(Pass(name, l), l, n - 1);
    }
  }

  // ---------- Aliases that never come to rest ----------

  /** `p` and `q`, laid over each other so that `q` starts `d` places behind the start of `p`, agree wherever both are. */
  predicate Agree(p: string, q: string, d: int) {
    forall t :: 0 <= t < |p| && d <= t < d + |q| ==> p[t] == q[t - d]
  }

  /** No occurrence of the one can overlap an occurrence of the other. */
  predicate Apart(p: string, q: string) {
    forall d :: -|q| < d < |p| ==> !Agree(p, q, d)
  }

  /** It is enough that neither first character occurs in the other string. */
  lemma ApartByFirst(p: string, q: string)
    requires p != "" && q != "" && p[0] !in q && q[0] !in p
    ensures Apart(p, q)
  {
    forall d | -|q| < d < |p| ensures !Agree(p, q, d) {
      var t := if d < 0 then 0 else d;
      assert 0 <= t < |p| && d <= t < d + |q| && p[t] != q[t - d];
    }
  }

  lemma OccurrencesAgree(s: string, p: string, q: string, i: int, k: int)
    requires OccursAt(s, p, i) && OccursAt(s, q, k)
    ensures Agree(p, q, k - i)
  {
    var d := k - i;
    forall t | 0 <= t < |p| && d <= t < d + |q| ensures p[t] == q[t - d] {
      OccursChar(s, p, i, t);
      OccursChar(s, q, k, t - d);
    }
  }

  lemma ApartDoNotOverlap(s: string, p: string, q: string, i: int, k: int)
    requires Apart(p, q) && OccursAt(s, p, i) && OccursAt(s, q, k)
    ensures i + |p| <= k || k + |q| <= i
  {
    hide Agree;
    OccurrencesAgree(s, p, q, i, k);
  }

  lemma Outside(name: string, k: nat, q: string, p: string, i: nat)
    requires OccursAt(name, q, k) && OccursAt(name, p, i) && (i + |p| <= k || k + |q| <= i)
    ensures i + |p| <= k ==> OccursAt(name[..k], p, i)
    ensures k + |q| <= i ==> OccursAt(name[k + |q|..], p, i - (k + |q|))
  {
    if i + |p| <= k {
      OccursInPrefix(name, p, k, i);
    } else {
      OccursShift(name, p, k + |q|, i);
    }
  }

  /** What keeps apart from a pattern is spared when the pattern is replaced. */
  lemma {:induction false} SparedByReplacing(name: string, q: string, r: string, p: string, i: nat)
    requires q != "" && Apart(p, q) && OccursAt(name, p, i)
    ensures Contains(Replaced(name, q, r), p)
    decreases |name|
  {
    hide Apart, Replaced;
    if Find(name, q, 0).None? {
      ReplacedNone(name, q, r);
    } else {
      var k := Find(name, q, 0).value;
      var rest := name[k + |q|..];
      ReplacedFound(name, q, r, k);
      ApartDoNotOverlap(name, p, q, i, k);
      Outside(name, k, q, p, i);
      hide OccursAt;
      if i + |p| <= k {
        Assoc(name[..k], r, Replaced(rest, q, r));
        OccursInside("", name[..k], r + Replaced(rest, q, r), p, i);
        assert "" + name[..k] == name[..k];
      } else {
        SparedByReplacing(rest, q, r, p, i - (k + |q|));
        ContainedInside(name[..k] + r, Replaced(rest, q, r), "", p);
        assert name[..k] + r + Replaced(rest, q, r) + "" == name[..k] + r + Replaced(rest, q, r);
      }
    }
  }

  /** Where a pattern is found, what its replacement contains is found in its place. */
  lemma BroughtByReplacing(name: string, q: string, r: string, p: string)
    requires q != "" && Contains(name, q) && Contains(r, p)
    ensures Contains(Replaced(name, q, r), p)
  {
    hide Replaced;
    ReplacementsPositive(name, q);
    var k := Find(name, q, 0).value;
    ReplacedFound(name, q, r, k);
    ContainedInside(name[..k], r, Replaced(name[k + |q|..], q, r), p);
  }

  ghost predicate ContainsOneOf(name: string, patterns: set<string>) {
    exists p :: p in patterns && Contains(name, p)
  }

  /** Replacing by the alias brings one of the patterns back, or it leaves occurrences of all of them alone. */
  ghost predicate KeepsAlive(alias: Alias, patterns: set<string>) {
    || ContainsOneOf(alias.1, patterns)
    || forall p :: p in patterns ==> Apart(p, alias.0)
  }

  lemma AliveAfterReplacing(name: string, alias: Alias, patterns: set<string>)
    requires alias.0 != "" && KeepsAlive(alias, patterns) && ContainsOneOf(name, patterns)
    ensures ContainsOneOf(Replaced(name, alias.0, alias.1), patterns)
  {
    hide Replaced, Apart;
    var p :| p in patterns && Contains(name, p);
    if ContainsOneOf(alias.1, patterns) && Contains(name, alias.0) {
      var p' :| p' in patterns && Contains(alias.1, p');
      BroughtByReplacing(name, alias.0, alias.1, p');
    } else if !Contains(name, alias.0) {
      ReplacementsPositive(name, alias.0);
      ReplacedNone(name, alias.0, alias.1);
    } else {
      var i :| OccursAt(name, p, i);
      SparedByReplacing(name, alias.0, alias.1, p, i);
    }
  }

  ghost predicate AllKeepAlive(l: seq<Alias>, patterns: set<string>) {
    forall i :: 0 <= i < |l| ==> KeepsAlive(l[i], patterns)
  }

  lemma {:induction false} AliveAfterPass(name: string, l: seq<Alias>, patterns: set<string>)
    requires HasPatterns(l) && AllKeepAlive(l, patterns) && ContainsOneOf(name, patterns)
    ensures ContainsOneOf(Pass(name, l), patterns)
    decreases |l|
  {
    hide KeepsAlive, ContainsOneOf, Replaced;
    if l != [] {
      AliveAfterReplacing(name, l[0], patterns);
      AliveAfterPass(Replaced(name, l[0].0, l[0].1), l[1..], patterns);
    }
  }

  ghost predicate AreAliases(patterns: set<string>, l: seq<Alias>) {
    forall p :: p in patterns ==> exists i :: 0 <= i < |l| && l[i].0 == p
  }

  lemma AliveIsTouched(name: string, l: seq<Alias>, patterns: set<string>)
    requires HasPatterns(l) && AreAliases(patterns, l) && ContainsOneOf(name, patterns)
    ensures Touched(name, l)
  {
    hide Contains, Touched;
    UntouchedIsFree(name, l);
    var p :| p in patterns && Contains(name, p);
    var i :| 0 <= i < |l| && l[i].0 == p;
  }

  /**
   * Patterns that every alias keeps alive are rewritten for ever, in any name that
   * contains one of them. With one pattern that is an alias whose replacement contains
   * its own pattern; with more, aliases that lead to each other in a circle. All the other
   * aliases have to spare the patterns or bring them back.
   */
  lemma {:induction false} AliveNeverSettles(name: string, l: seq<Alias>, patterns: set<string>, n: nat)
    requires HasPatterns(l) && AreAliases(patterns, l) && AllKeepAlive(l, patterns) && ContainsOneOf(name, patterns)
    ensures Touched(Passes(name, l, n), l)
    decreases n
  {
    hide AreAliases, AllKeepAlive, ContainsOneOf, Touched;
    if n == 0 {
      AliveIsTouched(name, l, patterns);
    } else {
      AliveAfterPass(name, l, patterns);
      AliveNeverSettles(Pass(name, l), l, patterns, n - 1);
    }
  }

  /**
   * An alias whose replacement contains its own pattern rewrites for ever every name
   * with that pattern, when each other alias keeps apart from the pattern or brings it as well.
   */
  lemma {:induction false} SelfReplacingNeverSettles(name: string, l: seq<Alias>, k: nat)
    requires HasPatterns(l) && k < |l| && Contains(l[k].1, l[k].0) && Contains(name, l[k].0)
    requires forall i :: 0 <= i < |l| && i != k ==> Contains(l[i].1, l[k].0) || Apart(l[k].0, l[i].0)
    ensures !Settles(name, l)
  {
    hide Apart, Contains, Passes, Touched;
    var patterns := {l[k].0};
    forall i | 0 <= i < |l| ensures KeepsAlive(l[i], patterns) {
      assert Contains(l[i].1, l[k].0) ==> ContainsOneOf(l[i].1, patterns);
    }
    forall n: nat ensures Touched(Passes(name, l, n), l) {
      AliveNeverSettles(name, l, patterns, n);
    }
  }

  /**
   * Two aliases that lead to each other rewrite for ever, although neither need contain its
   * own pattern, when no other alias can overlap one of the two patterns.
   */
  lemma {:induction false} CircleNeverSettles(name: string, l: seq<Alias>, j: nat, k: nat)
    requires HasPatterns(l) && j < |l| && k < |l| && Contains(l[j].1, l[k].0) && Contains(l[k].1, l[j].0)
    requires Contains(name, l[j].0) || Contains(name, l[k].0)
    requires forall i :: 0 <= i < |l| && i != j && i != k ==> Apart(l[j].0, l[i].0) && Apart(l[k].0, l[i].0)
    ensures !Settles(name, l)
  {
    hide Apart, Contains, Passes, Touched;
    var patterns := {l[j].0, l[k].0};
    assert Contains(l[j].1, l[k].0) ==> ContainsOneOf(l[j].1, patterns);
    assert Contains(l[k].1, l[j].0) ==> ContainsOneOf(l[k].1, patterns);
    assert ContainsOneOf(name, patterns);
    assert AllKeepAlive(l, patterns);
    assert AreAliases(patterns, l) by {
      assert l[j].0 == l[j].0 && l[k].0 == l[k].0;
    }
    forall n: nat ensures Touched(Passes(name, l, n), l) {
      AliveNeverSettles(name, l, patterns, n);
    }
  }

  lemma ReplacedWhole(p: string, r: string)
    requires p != ""
    ensures Replaced(p, p, r) == r
  {
    assert p + "" == p && r + "" == r;
    ReplacedFront(p, "", r);
  }

  /**
   * Without that condition such an alias may come to rest: here `abc` swallows the
   * `b` that the second alias puts back.
   */
  lemma {:induction false} SelfReplacingMaySettle()
    ensures var l := [("abc", "x"), ("b", "abc")];
            Ordered(l) && HasPatterns(l) && Contains(l[1].1, l[1].0) && Settles("b", l)
  {
    var l: seq<Alias> := [("abc", "x"), ("b", "abc")];
    assert OccursAt("abc", "b", 1);
    assert l[1..] == [("b", "abc")] && l[1..][1..] == [];
    ReplacedNone("b", "abc", "x");
    ReplacedWhole("b", "abc");
    ReplacedWhole("abc", "x");
    ReplacedNone("x", "b", "abc");
    ReplacedNone("x", "abc", "x");
    hide Replaced;
    assert Pass("b", l) == "abc";
    assert Pass("abc", l) == "x";
    assert Passes("b", l, 2) == Passes("abc", l, 1) == Passes("x", l, 0) == "x";
    assert !Touched("x", l);
  }

  /** The same for a circle: `c1` swallows what the other two aliases would hand to each other. */
  lemma {:induction false} CircleMaySettle()
    ensures var l := [("c1", "x"), ("c", "b1"), ("b", "c1")];
            Ordered(l) && HasPatterns(l) && Contains(l[1].1, l[2].0) && Contains(l[2].1, l[1].0) && Settles("b", l)
  {
    var l: seq<Alias> := [("c1", "x"), ("c", "b1"), ("b", "c1")];
    assert OccursAt("b1", "b", 0) && OccursAt("c1", "c", 0);
    CirclePasses();
    assert Passes("b", l, 2) == Passes("c1", l, 1) == Passes("x", l, 0) == "x";
  }

  lemma CirclePasses()
    ensures var l := [("c1", "x"), ("c", "b1"), ("b", "c1")];
            HasPatterns(l) && Pass("b", l) == "c1" && Pass("c1", l) == "x" && !Touched("x", l)
  {
    var l: seq<Alias> := [("c1", "x"), ("c", "b1"), ("b", "c1")];
    assert l[1..] == [("c", "b1"), ("b", "c1")] && l[1..][1..] == [("b", "c1")] && l[1..][1..][1..] == [];
    ReplacedNone("b", "c1", "x");
    OccursChar("b", "c", 0, 0);
    ReplacedNone("b", "c", "b1");
    ReplacedWhole("b", "c1");
    ReplacedWhole("c1", "x");
    ReplacedNone("x", "c1", "x");
    ReplacedNone("x", "c", "b1");
    ReplacedNone("x", "b", "c1");
    hide Replaced;
  }

  // ---------- Aliases that shrink or are inert ----------

  /** No pattern can overlap the replacement, so once it is there nothing touches it. */
  ghost predicate Inert(r: string, l: seq<Alias>) {
    r != "" && forall i :: 0 <= i < |l| ==> Apart(l[i].0, r)
  }

  /** Each alias has a shorter replacement or an inert one. */
  ghost predicate Tame(l: seq<Alias>) {
    forall i :: 0 <= i < |l| ==> |l[i].1| < |l[i].0| || Inert(l[i].1, l)
  }

  /** A name as parts that can still change, with inert replacements between them. */
  datatype Chain = Last(live: string) | Link(live: string, inert: string, rest: Chain)

  function Text(chain: Chain): string {
    match chain
    case Last(live) => live
    case Link(live, inert, rest) => live + inert + Text(rest)
  }

  /** The length of the parts that can still change. */
  function LiveLength(chain: Chain): nat {
    match chain
    case Last(live) => |live|
    case Link(live, inert, rest) => |live| + LiveLength(rest)
  }

  ghost predicate Sound(chain: Chain, l: seq<Alias>) {
    chain.Last? || (Inert(chain.inert, l) && Sound(chain.rest, l))
  }

  /** Nothing begins in a part without the pattern, or in the inert string behind it. */
  lemma NothingAcross(a: string, r: string, b: string, q: string, k: nat)
    requires r != "" && q != "" && Apart(q, r) && !Contains(a, q) && k < |a + r|
    ensures !OccursAt(a + r + b, q, k)
  {
    hide Apart;
    var s := a + r + b;
    assert s == a + (r + b);
    assert OccursAt(s, r, |a|) by {
      assert s[|a|..|a| + |r|] == r;
    }
    if k + |q| <= |a| {
      OccursInFront(a, r + b, q, k);
    } else if OccursAt(s, q, k) {
      ApartDoNotOverlap(s, q, r, k, |a|);
    }
  }

  /** Replacing goes on separately on both sides of an inert string. */
  lemma {:induction false} ReplacedAround(a: string, r: string, b: string, q: string, x: string)
    requires r != "" && q != "" && Apart(q, r)
    ensures Replaced(a + r + b, q, x) == Replaced(a, q, x) + r + Replaced(b, q, x)
    decreases |a|
  {
    hide Apart, Replaced, OccursAt;
    if Find(a, q, 0).None? {
      ReplacementsPositive(a, q);
      forall k | 0 <= k < |a + r| ensures !OccursAt(a + r + b, q, k) {
        NothingAcross(a, r, b, q, k);
      }
      ReplacedKeeps(a + r, b, q, x);
      ReplacedNone(a, q, x);
    } else {
      var k := Find(a, q, 0).value;
      var rest := a[k + |q|..];
      Assoc(a, r, b);
      FindExtends(a, r + b, q, k);
      ReplacedFound(a, q, x, k);
      ReplacedFound(a + r + b, q, x, k);
      ReplacedAround(rest, r, b, q, x);
      AroundSlices(a, r, b, k, k + |q|);
      Regroup(a[..k] + x, Replaced(rest, q, x), r, Replaced(b, q, x), "");
      AroundJoins(a[..k] + x, Replaced(rest, q, x), r, Replaced(b, q, x));
    }
  }

  lemma AroundSlices(a: string, r: string, b: string, k: nat, n: nat)
    requires k <= n <= |a|
    ensures (a + r + b)[..k] == a[..k]
    ensures (a + r + b)[n..] == a[n..] + r + b
  {
  }

  lemma AroundJoins(a: string, b: string, c: string, d: string)
    ensures a + (b + c + d) == (a + b) + c + d
  {
  }

  /** A part with an inert replacement falls into smaller parts, with the replacement between them. */
  lemma {:induction false} PartsBetween(s: string, q: string, x: string, l: seq<Alias>) returns (chain: Chain)
    requires q != "" && Inert(x, l)
    ensures Text(chain) == Replaced(s, q, x) && Sound(chain, l)
    ensures LiveLength(chain) <= |s| && (Contains(s, q) ==> LiveLength(chain) < |s|)
    decreases |s|
  {
    hide Inert, Replaced;
    if Find(s, q, 0).None? {
      ReplacementsPositive(s, q);
      ReplacedNone(s, q, x);
      chain := Last(s);
    } else {
      var k := Find(s, q, 0).value;
      ReplacedFound(s, q, x, k);
      var rest := PartsBetween(s[k + |q|..], q, x, l);
      chain := Link(s[..k], x, rest);
    }
  }

  /** One live part after the replacement by a tame alias. */
  lemma LivePart(s: string, alias: Alias, l: seq<Alias>) returns (chain: Chain)
    requires alias.0 != "" && (|alias.1| < |alias.0| || Inert(alias.1, l))
    ensures Text(chain) == Replaced(s, alias.0, alias.1) && Sound(chain, l)
    ensures LiveLength(chain) <= |s| && (Contains(s, alias.0) ==> LiveLength(chain) < |s|)
  {
    if |alias.1| < |alias.0| {
      ReplacedShrinks(s, alias.0, alias.1);
      chain := Last(Replaced(s, alias.0, alias.1));
    } else {
      chain := PartsBetween(s, alias.0, alias.1, l);
    }
  }

  function Append(front: Chain, inert: string, rest: Chain): Chain {
    match front
    case Last(live) => Link(live, inert, rest)
    case Link(live, between, behind) => Link(live, between, Append(behind, inert, rest))
  }

  lemma {:induction false} AppendIs(front: Chain, inert: string, rest: Chain, l: seq<Alias>)
    requires Sound(front, l) && Inert(inert, l) && Sound(rest, l)
    ensures Text(Append(front, inert, rest)) == Text(front) + inert + Text(rest)
    ensures LiveLength(Append(front, inert, rest)) == LiveLength(front) + LiveLength(rest)
    ensures Sound(Append(front, inert, rest), l)
  {
    hide Inert;
    if front.Link? {
      AppendIs(front.rest, inert, rest, l);
      AroundJoins(front.live + front.inert, Text(front.rest), inert, Text(rest));
    }
  }

  /** Replacing by a tame alias leaves less that can change, whenever it finds its pattern. */
  lemma {:induction false} ChainAfterReplacing(chain: Chain, l: seq<Alias>, k: nat) returns (after: Chain)
    requires k < |l| && HasPatterns(l) && Tame(l) && Sound(chain, l)
    ensures Text(after) == Replaced(Text(chain), l[k].0, l[k].1) && Sound(after, l)
    ensures LiveLength(after) <= LiveLength(chain)
    ensures Contains(Text(chain), l[k].0) ==> LiveLength(after) < LiveLength(chain)
    decreases chain
  {
    var q, x := l[k].0, l[k].1;
    var front := LivePart(chain.live, l[k], l);
    if chain.Last? {
      after := front;
    } else {
      var rest := ChainAfterReplacing(chain.rest, l, k);
      ReplacedAround(chain.live, chain.inert, Text(chain.rest), q, x);
      AppendIs(front, chain.inert, rest, l);
      after := Append(front, chain.inert, rest);
      hide Inert, Replaced, Apart, Contains;
      ContainsAround(chain.live, chain.inert, Text(chain.rest), q);
    }
  }

  /** A pattern that keeps apart from an inert string occurs on one side of it. */
  lemma ContainsAround(a: string, r: string, b: string, q: string)
    requires r != "" && q != "" && Apart(q, r)
    ensures Contains(a + r + b, q) ==> Contains(a, q) || Contains(b, q)
  {
    hide Apart;
    if Contains(a + r + b, q) && !Contains(a, q) {
      var k :| OccursAt(a + r + b, q, k);
      if k < |a + r| {
        NothingAcross(a, r, b, q, k);
      }
      assert (a + r + b)[|a + r|..] == b;
      OccursShift(a + r + b, q, |a + r|, k);
    }
  }

  // ---------- Aliases that are all inert ----------

  lemma NotBeforeFirst(name: string, q: string, k: nat)
    requires q != "" && Find(name, q, 0) == Some(k)
    ensures !Contains(name[..k], q)
  {
    forall j ensures !OccursAt(name[..k], q, j) {
      if 0 <= j && j + |q| <= k {
        OccursInPrefix(name, q, k, j);
      }
    }
  }

  /** Behind a replacement that keeps apart from a pattern, the pattern occurs only if it did before and is not the one replaced. */
  lemma {:induction false} OnlyWhatWasThere(name: string, q: string, r: string, p: string)
    requires p != "" && q != "" && r != "" && Apart(p, r) && Contains(Replaced(name, q, r), p)
    ensures Contains(name, p) && p != q
    decreases |name|
  {
    hide Apart, Replaced, Contains;
    ReplacementsPositive(name, q);
    if Find(name, q, 0).None? {
      ReplacedNone(name, q, r);
    } else {
      var k := Find(name, q, 0).value;
      var rest := name[k + |q|..];
      ReplacedFound(name, q, r, k);
      ContainsAround(name[..k], r, Replaced(rest, q, r), p);
      NotBeforeFirst(name, q, k);
      if Contains(name[..k], p) {
        ContainedInside("", name[..k], name[k..], p);
        assert "" + name[..k] + name[k..] == name;
      } else {
        OnlyWhatWasThere(rest, q, r, p);
        ContainedInside(name[..k + |q|], rest, "", p);
        assert name[..k + |q|] + rest + "" == name;
      }
    }
  }

  lemma {:induction false} OnlyWhatWasThereInPass(name: string, l: seq<Alias>, p: string)
    requires HasPatterns(l) && p != "" && forall i :: 0 <= i < |l| ==> l[i].1 != "" && Apart(p, l[i].1)
    requires Contains(Pass(name, l), p)
    ensures Contains(name, p) && forall i :: 0 <= i < |l| ==> l[i].0 != p
    decreases |l|
  {
    hide Apart, Replaced, Contains;
    if l != [] {
      OnlyWhatWasThereInPass(Replaced(name, l[0].0, l[0].1), l[1..], p);
      OnlyWhatWasThere(name, l[0].0, l[0].1, p);
      assert forall i :: 1 <= i < |l| ==> l[i] == l[1..][i - 1];
    }
  }

  /** When every replacement is inert, one pass leaves no pattern. */
  lemma {:induction false} InertSettlesInOnePass(name: string, l: seq<Alias>)
    requires HasPatterns(l) && forall i :: 0 <= i < |l| ==> Inert(l[i].1, l)
    ensures !Touched(Passes(name, l, 1), l)
    ensures Settles(name, l)
  {
    hide Apart, Contains, Replaced, Pass, Touched;
    forall i | 0 <= i < |l| ensures !Contains(Pass(name, l), l[i].0) {
      if Contains(Pass(name, l), l[i].0) {
        OnlyWhatWasThereInPass(name, l, l[i].0);
      }
    }
    UntouchedIsFree(Pass(name, l), l);
    assert Passes(name, l, 1) == Passes(Pass(name, l), l, 0) == Pass(name, l);
  }

  // ---------- Aliases that are shorter or inert, pass by pass ----------

  lemma {:induction false} ChainAfterPass(chain: Chain, l: seq<Alias>, k: nat) returns (after: Chain)
    requires k <= |l| && HasPatterns(l) && Tame(l) && Sound(chain, l)
    ensures Text(after) == Pass(Text(chain), l[k..]) && Sound(after, l)
    ensures LiveLength(after) <= LiveLength(chain)
    ensures Touched(Text(chain), l[k..]) ==> LiveLength(after) < LiveLength(chain)
    decreases |l| - k
  {
    hide Tame, Replaced, Contains, Sound;
    if k == |l| {
      after := chain;
    } else {
      var middle := ChainAfterReplacing(chain, l, k);
      after := ChainAfterPass(middle, l, k + 1);
      assert l[k..][1..] == l[k + 1..] && l[k..][0] == l[k];
    }
  }

  /**
   * Aliases whose replacements are shorter or inert bring every name to rest, within
   * as many passes as it has characters.
   */
  lemma {:induction false} TameSettles(name: string, l: seq<Alias>) returns (n: nat)
    requires HasPatterns(l) && Tame(l)
    ensures n <= |name| && !Touched(Passes(name, l, n), l)
    ensures Settles(name, l)
  {
    hide Tame, Touched;
    n := ChainSettles(Last(name), l);
  }

  lemma {:induction false} ChainSettles(chain: Chain, l: seq<Alias>) returns (n: nat)
    requires HasPatterns(l) && Tame(l) && Sound(chain, l)
    ensures n <= LiveLength(chain) && !Touched(Passes(Text(chain), l, n), l)
    decreases LiveLength(chain)
  {
    hide Tame, Touched, Sound;
    if Touched(Text(chain), l) {
      assert l[0..] == l;
      var after := ChainAfterPass(chain, l, 0);
      var m := ChainSettles(after, l);
      n := m + 1;
      assert Passes(Text(chain), l, n) == Passes(Pass(Text(chain), l), l, m);
    } else {
      n := 0;
      assert Passes(Text(chain), l, n) == Text(chain);
    }
  }

  // ---------- The built-in aliases ----------

  const STRING := "std::string"

  /** The aliases that every diagram knows, in the order of the program; the last one only with LLVM 16 or newer. */
  function BuiltIns(llvm16: bool): seq<Alias> {
    [("std::basic_string<char>", STRING),
     ("std::basic_string<char,std::char_traits<" + "char>,std::allocator<char>>", STRING),
     ("std::basic_string<wchar_t>", "std::wstring"),
     ("std::basic_string<char16_t>", "std::u16string"),
     ("std::basic_string<char32_t>", "std::u32string"),
     ("std::integral_constant<bool,true>", "std::true_type"),
     ("std::integral_constant<bool,false>", "std::false_type")]
    + if llvm16 then [("std::basic_string", STRING)] else []
  }

  /** `m` with the aliases of `l` added wherever it has none of its own. */
  function WithDefaults(m: map<string, string>, l: seq<Alias>): map<string, string> {
    if l == [] then m
    else
      var before, last := WithDefaults(m, l[..|l| - 1]), l[|l| - 1];
      if last.0 in before then before else before[last.0 := last.1]
  }

  /** What was configured stays, every default has a binding, and each binding comes from one of the two. */
  lemma {:induction false} DefaultsOnlyAdd(m: map<string, string>, l: seq<Alias>)
    ensures forall p :: p in m ==> p in WithDefaults(m, l) && WithDefaults(m, l)[p] == m[p]
    ensures forall i :: 0 <= i < |l| ==> l[i].0 in WithDefaults(m, l)
    ensures forall p :: p in WithDefaults(m, l) && p !in m ==> (p, WithDefaults(m, l)[p]) in l
  {
    if l != [] {
      DefaultsOnlyAdd(m, l[..|l| - 1]);
    }
  }

  class Diagram {
    var typeAliases: map<string, string>

    constructor (configured: map<string, string>)
      ensures typeAliases == configured
    {
      typeAliases := configured;
    }

    /** One of the guarded insertions; `n` counts those before it. */
    method AddTypeAlias(pattern: string, replacement: string, ghost defaults: seq<Alias>, ghost n: nat, ghost configured: map<string, string>)
      requires n < |defaults| && defaults[n] == (pattern, replacement)
      requires typeAliases == WithDefaults(configured, defaults[..n])
      modifies this
      ensures typeAliases == WithDefaults(configured, defaults[..n + 1])
    {
      assert defaults[..n + 1][..n] == defaults[..n];
      if pattern !in typeAliases {
        typeAliases := typeAliases[pattern := replacement];
      }
    }

    /** `initialize_type_aliases`. */
    method InitializeTypeAliases(llvm16: bool)
      modifies this
      ensures typeAliases == WithDefaults(old(typeAliases), BuiltIns(llvm16))
    {
      hide WithDefaults;
      ghost var defaults, configured := BuiltIns(llvm16), typeAliases;
      NoDefaults(configured);
      AddTypeAlias("std::basic_string<char>", STRING, defaults, 0, configured);
      AddTypeAlias("std::basic_string<char,std::char_traits<" + "char>,std::allocator<char>>", STRING, defaults, 1, configured);
      AddTypeAlias("std::basic_string<wchar_t>", "std::wstring", defaults, 2, configured);
      AddTypeAlias("std::basic_string<char16_t>", "std::u16string", defaults, 3, configured);
      AddTypeAlias("std::basic_string<char32_t>", "std::u32string", defaults, 4, configured);
      AddTypeAlias("std::integral_constant<bool,true>", "std::true_type", defaults, 5, configured);
      AddTypeAlias("std::integral_constant<bool,false>", "std::false_type", defaults, 6, configured);
      if llvm16 {
        AddTypeAlias("std::basic_string", STRING, defaults, 7, configured);
      }
      assert defaults[..|defaults|] == defaults;
    }
  }

  lemma NoDefaults(m: map<string, string>)
    ensures WithDefaults(m, []) == m
  {
  }

  lemma BuiltInsShrink(llvm16: bool)
    ensures Shrinking(BuiltIns(llvm16))
  {
  }

  /**
   * With the built-in aliases, and any configured ones that shrink, every name
   * comes to rest.
   */
  lemma BuiltInsSettle(configured: map<string, string>, llvm16: bool, l: seq<Alias>, name: string)
    requires forall p :: p in configured ==> |configured[p]| < |p|
    requires IsOrder(l, WithDefaults(configured, BuiltIns(llvm16)))
    ensures HasPatterns(l) && Shrinking(l) && Settles(name, l)
  {
    BuiltInsShrink(llvm16);
    DefaultsOnlyAdd(configured, BuiltIns(llvm16));
    hide BuiltIns, WithDefaults;
    var defaults := BuiltIns(llvm16);
    forall i | 0 <= i < |l| ensures |l[i].1| < |l[i].0| {
      if l[i].0 !in configured {
        var k :| 0 <= k < |defaults| && defaults[k] == l[i];
      }
    }
    var n := ShrinkingSettles(name, l);
  }

  // ---------- What becomes of the built-in names ----------

  /** The name comes to rest at the result. */
  ghost predicate ComesTo(name: string, l: seq<Alias>, result: string) {
    && HasPatterns(l)
    && exists n: nat :: !Touched(Passes(name, l, n), l) && Passes(name, l, n) == result
  }

  /** There is only one text that a name comes to. */
  lemma ComesToOne(name: string, l: seq<Alias>, r1: string, r2: string)
    requires ComesTo(name, l, r1) && ComesTo(name, l, r2)
    ensures r1 == r2
  {
    hide Touched, Passes;
    var m: nat :| !Touched(Passes(name, l, m), l) && Passes(name, l, m) == r1;
    var n: nat :| !Touched(Passes(name, l, n), l) && Passes(name, l, n) == r2;
    if m <= n {
      SettledStays(name, l, m, n);
    } else {
      SettledStays(name, l, n, m);
    }
  }

  lemma TooLong(name: string, p: string)
    requires |name| < |p|
    ensures !Contains(name, p)
  {
  }

  lemma OtherOfSameLength(name: string, p: string)
    requires |name| == |p| && name != p
    ensures !Contains(name, p)
  {
    forall k ensures !OccursAt(name, p, k) {
      if k == 0 {
        assert name[0..|p|] == name;
      }
    }
  }

  /** Patterns that do not occur in a name are passed over. */
  lemma PassedOver(name: string, l: seq<Alias>)
    requires HasPatterns(l) && forall i :: 0 <= i < |l| ==> !Contains(name, l[i].0)
    ensures Pass(name, l) == name && !Touched(name, l)
  {
    UntouchedIsFree(name, l);
  }

  /** In longer-first order a pattern becomes its replacement, when all patterns are longer than that. */
  lemma PatternComesTo(l: seq<Alias>, k: nat)
    requires k < |l| && HasPatterns(l) && Ordered(l) && forall i :: 0 <= i < |l| ==> |l[k].1| < |l[i].0|
    ensures ComesTo(l[k].0, l, l[k].1)
  {
    hide Contains, Pass, Touched, Replaced, Less;
    var p, r := l[k].0, l[k].1;
    var first, rest := l[..k], l[k + 1..];
    forall i | 0 <= i < k ensures !Contains(p, first[i].0) {
      assert Before(l[i].0, p);
      if |first[i].0| > |p| {
        TooLong(p, first[i].0);
      } else {
        LessIsStrict(p, l[i].0);
        OtherOfSameLength(p, l[i].0);
      }
    }
    PassedOver(p, first);
    forall i | 0 <= i < |l| ensures !Contains(r, l[i].0) {
      TooLong(r, l[i].0);
    }
    PassedOver(r, l);
    assert forall i :: 0 <= i < |rest| ==> rest[i] == l[k + 1 + i];
    PassedOver(r, rest);
    SinglePass(p, r);
    PassOver(p, [l[k]], rest);
    PassOver(p, first, [l[k]] + rest);
    assert first + ([l[k]] + rest) == l;
    PassesOnce(p, l, r);
  }

  lemma SinglePass(p: string, r: string)
    requires p != ""
    ensures Pass(p, [(p, r)]) == r
  {
    assert [(p, r)][1..] == [];
    ReplacedWhole(p, r);
  }

  lemma PassesOnce(name: string, l: seq<Alias>, r: string)
    requires HasPatterns(l) && Pass(name, l) == r && !Touched(r, l)
    ensures ComesTo(name, l, r)
  {
    assert Passes(name, l, 1) == Passes(r, l, 0) == r;
  }

  lemma BuiltInLengths(llvm16: bool, i: nat)
    requires i < |BuiltIns(llvm16)|
    ensures 15 < |BuiltIns(llvm16)[i].0| && |BuiltIns(llvm16)[i].1| <= 15
  {
  }

  /** The built-in aliases bind each of their patterns once. */
  predicate BindsTo(llvm16: bool, p: string, r: string) {
    && (p, r) in BuiltIns(llvm16)
    && forall i :: 0 <= i < |BuiltIns(llvm16)| && BuiltIns(llvm16)[i].0 == p ==> BuiltIns(llvm16)[i].1 == r
  }

  lemma BindsStrings(llvm16: bool)
    ensures BindsTo(llvm16, "std::basic_string<char>", "std::string")
    ensures BindsTo(llvm16, "std::basic_string<wchar_t>", "std::wstring")
  {
    assert BuiltIns(llvm16)[0] == ("std::basic_string<char>", "std::string");
    assert BuiltIns(llvm16)[2] == ("std::basic_string<wchar_t>", "std::wstring");
  }

  lemma BindsAllocated(llvm16: bool)
    ensures BindsTo(llvm16, "std::basic_string<char,std::char_traits<" + "char>,std::allocator<char>>", "std::string")
  {
    assert BuiltIns(llvm16)[1] == ("std::basic_string<char,std::char_traits<" + "char>,std::allocator<char>>", "std::string");
  }

  lemma BindsWide(llvm16: bool)
    ensures BindsTo(llvm16, "std::basic_string<char16_t>", "std::u16string")
    ensures BindsTo(llvm16, "std::basic_string<char32_t>", "std::u32string")
  {
    assert BuiltIns(llvm16)[3] == ("std::basic_string<char16_t>", "std::u16string");
    assert BuiltIns(llvm16)[4] == ("std::basic_string<char32_t>", "std::u32string");
    assert "std::basic_string<char16_t>"[22] != "std::basic_string<char32_t>"[22];
  }

  lemma BindsConstants(llvm16: bool)
    ensures BindsTo(llvm16, "std::integral_constant<bool,true>", "std::true_type")
    ensures BindsTo(llvm16, "std::integral_constant<bool,false>", "std::false_type")
  {
    assert BuiltIns(llvm16)[5] == ("std::integral_constant<bool,true>", "std::true_type");
    assert BuiltIns(llvm16)[6] == ("std::integral_constant<bool,false>", "std::false_type");
  }

  lemma BindsBasicString()
    ensures BindsTo(true, "std::basic_string", "std::string")
    ensures forall i :: 0 <= i < |BuiltIns(false)| ==> |BuiltIns(false)[i].0| > |"std::basic_string"|
  {
    assert BuiltIns(true)[7] == ("std::basic_string", "std::string");
  }

  lemma BuiltInComesTo(llvm16: bool, l: seq<Alias>, p: string, r: string)
    requires IsOrder(l, WithDefaults(map[], BuiltIns(llvm16))) && BindsTo(llvm16, p, r)
    ensures ComesTo(p, l, r)
  {
    hide BuiltIns, WithDefaults, Ordered, ComesTo;
    var defaults := BuiltIns(llvm16);
    DefaultsOnlyAdd(map[], defaults);
    var m := WithDefaults(map[], defaults);
    forall i | 0 <= i < |l| ensures 15 < |l[i].0| {
      var j :| 0 <= j < |defaults| && defaults[j] == l[i];
      BuiltInLengths(llvm16, j);
    }
    var j :| 0 <= j < |defaults| && defaults[j] == (p, r);
    BuiltInLengths(llvm16, j);
    assert p in m && (p, m[p]) in defaults;
    var i :| 0 <= i < |defaults| && defaults[i] == (p, m[p]);
    assert m[p] == r;
    var k :| 0 <= k < |l| && l[k] == (p, r);
    PatternComesTo(l, k);
  }

  /** What a diagram without configured aliases makes of the names that it knows; the last one it knows only with LLVM 16. */
  lemma {:induction false} BuiltInResults(llvm16: bool, l: seq<Alias>)
    requires IsOrder(l, WithDefaults(map[], BuiltIns(llvm16)))
    ensures ComesTo("std::basic_string<char>", l, "std::string")
    ensures ComesTo("std::basic_string<char,std::char_traits<" + "char>,std::allocator<char>>", l, "std::string")
    ensures ComesTo("std::basic_string<wchar_t>", l, "std::wstring")
    ensures ComesTo("std::basic_string<char16_t>", l, "std::u16string")
    ensures ComesTo("std::basic_string<char32_t>", l, "std::u32string")
    ensures ComesTo("std::integral_constant<bool,true>", l, "std::true_type")
    ensures ComesTo("std::integral_constant<bool,false>", l, "std::false_type")
    ensures ComesTo("std::basic_string", l, if llvm16 then "std::string" else "std::basic_string")
  {
    hide BuiltIns, ComesTo, IsOrder, WithDefaults, BindsTo;
    BindsStrings(llvm16);
    BindsAllocated(llvm16);
    BindsWide(llvm16);
    BindsConstants(llvm16);
    BuiltInComesTo(llvm16, l, "std::basic_string<char>", "std::string");
    BuiltInComesTo(llvm16, l, "std::basic_string<char,std::char_traits<" + "char>,std::allocator<char>>", "std::string");
    BuiltInComesTo(llvm16, l, "std::basic_string<wchar_t>", "std::wstring");
    BuiltInComesTo(llvm16, l, "std::basic_string<char16_t>", "std::u16string");
    BuiltInComesTo(llvm16, l, "std::basic_string<char32_t>", "std::u32string");
    BuiltInComesTo(llvm16, l, "std::integral_constant<bool,true>", "std::true_type");
    BuiltInComesTo(llvm16, l, "std::integral_constant<bool,false>", "std::false_type");
    BindsBasicString();
    if llvm16 {
      BuiltInComesTo(llvm16, l, "std::basic_string", "std::string");
    } else {
      UnknownStays(l, "std::basic_string");
    }
  }

  /** Without LLVM 16 a name shorter than all patterns is left alone. */
  lemma UnknownStays(l: seq<Alias>, name: string)
    requires IsOrder(l, WithDefaults(map[], BuiltIns(false)))
    requires forall i :: 0 <= i < |BuiltIns(false)| ==> |BuiltIns(false)[i].0| > |name|
    ensures ComesTo(name, l, name)
  {
    hide BuiltIns, WithDefaults, Ordered;
    var defaults := BuiltIns(false);
    DefaultsOnlyAdd(map[], defaults);
    var m := WithDefaults(map[], defaults);
    forall i | 0 <= i < |l| ensures l[i].0 != "" && !Contains(name, l[i].0) {
      assert l[i].0 in m && (l[i].0, m[l[i].0]) in defaults;
      var j :| 0 <= j < |defaults| && defaults[j] == l[i];
      TooLong(name, l[i].0);
    }
    SimplifiedStays(name, l, 0);
    UntouchedIsFree(name, l);
    assert Passes(name, l, 0) == name;
  }

  // ---------- A configured alias that qualifies its own name ----------

  /** Begins like a name of the standard library and has no `F` in it. */
  predicate Unrelated(pattern: string) {
    pattern != "" && pattern[0] == 's' && 'F' !in pattern
  }

  lemma UnrelatedString()
    ensures Unrelated("std::basic_string<char>") && Unrelated("std::basic_string")
  {
  }

  lemma UnrelatedTraits()
    ensures Unrelated("std::basic_string<char,std::char_traits<" + "char>,std::allocator<char>>")
  {
    assert 'F' !in "std::basic_string<char,std::char_traits<";
    assert 'F' !in "char>,std::allocator<char>>";
  }

  lemma UnrelatedWide()
    ensures Unrelated("std::basic_string<wchar_t>") && Unrelated("std::basic_string<char16_t>")
    ensures Unrelated("std::basic_string<char32_t>")
  {
  }

  lemma UnrelatedConstant()
    ensures Unrelated("std::integral_constant<bool,true>") && Unrelated("std::integral_constant<bool,false>")
  {
  }

  lemma BuiltInsUnrelated(llvm16: bool, i: nat)
    requires i < |BuiltIns(llvm16)|
    ensures Unrelated(BuiltIns(llvm16)[i].0)
  {
    hide Unrelated;
    UnrelatedString();
    UnrelatedTraits();
    UnrelatedWide();
    UnrelatedConstant();
  }

  /**
   * A diagram that writes `Foo` with its namespace, by an alias next to the built-in
   * ones: no name with `Foo` in it ever comes to rest.
   */
  lemma QualifyingNeverSettles(llvm16: bool, l: seq<Alias>, name: string)
    requires IsOrder(l, WithDefaults(map["Foo" := "ns::Foo"], BuiltIns(llvm16)))
    requires Contains(name, "Foo")
    ensures HasPatterns(l) && !Settles(name, l)
  {
    hide Contains, Settles, Apart, WithDefaults, Ordered;
    var configured := map["Foo" := "ns::Foo"];
    var defaults := BuiltIns(llvm16);
    DefaultsOnlyAdd(configured, defaults);
    forall i | 0 <= i < |l| ensures l[i].0 != "" && (l[i] == ("Foo", "ns::Foo") || Apart("Foo", l[i].0)) {
      if l[i].0 !in configured {
        var k :| 0 <= k < |defaults| && defaults[k] == l[i];
        BuiltInsUnrelated(llvm16, k);
        ApartByFirst("Foo", l[i].0);
      }
    }
    QualifiedContains();
    assert "Foo" in configured && configured["Foo"] == "ns::Foo";
    assert ("Foo", "ns::Foo") in l;
    var k :| 0 <= k < |l| && l[k] == ("Foo", "ns::Foo");
    SelfReplacingNeverSettles(name, l, k);
  }

  lemma QualifiedContains()
    ensures Contains("ns::Foo", "Foo")
  {
    assert OccursAt("ns::Foo", "Foo", 4);
  }

  // ---------- A configured alias that is longer but inert ----------

  lemma FlowIsApart(q: string)
    requires q == "Foo" || Unrelated(q)
    ensures Apart(q, "Flow::Bar")
  {
    var r := "Flow::Bar";
    if q == "Foo" {
      forall d | -|r| < d < |q| ensures !Agree(q, r, d) {
        if d == 0 {
          assert q[1] != r[1];
        } else if d < 0 {
          assert q[0] != r[-d];
        } else {
          assert q[d] != r[0];
        }
      }
    } else {
      ApartByFirst(q, r);
    }
  }

  /**
   * Any configured aliases that shrink or are inert, next to the built-in ones, bring
   * every name to rest.
   */
  lemma TameBuiltInsSettle(configured: map<string, string>, llvm16: bool, l: seq<Alias>, name: string)
    requires "" !in configured && IsOrder(l, WithDefaults(configured, BuiltIns(llvm16)))
    requires forall p :: p in configured ==> |configured[p]| < |p| || Inert(configured[p], l)
    ensures HasPatterns(l) && Settles(name, l)
  {
    BuiltInsShrink(llvm16);
    DefaultsOnlyAdd(configured, BuiltIns(llvm16));
    hide BuiltIns, WithDefaults, Inert, Ordered;
    var defaults := BuiltIns(llvm16);
    forall i | 0 <= i < |l| ensures l[i].0 != "" && (|l[i].1| < |l[i].0| || Inert(l[i].1, l)) {
      if l[i].0 !in configured {
        var k :| 0 <= k < |defaults| && defaults[k] == l[i];
      }
    }
    var n := TameSettles(name, l);
  }

  /** `Foo` by the longer `Flow::Bar` comes to rest on every name, next to the built-in aliases. */
  lemma RenamingSettles(llvm16: bool, l: seq<Alias>, name: string)
    requires IsOrder(l, WithDefaults(map["Foo" := "Flow::Bar"], BuiltIns(llvm16)))
    ensures HasPatterns(l) && Settles(name, l)
  {
    hide WithDefaults, Apart, Ordered, Unrelated;
    var configured := map["Foo" := "Flow::Bar"];
    var defaults := BuiltIns(llvm16);
    DefaultsOnlyAdd(configured, defaults);
    forall i | 0 <= i < |l| ensures Apart(l[i].0, "Flow::Bar") {
      if l[i].0 !in configured {
        var k :| 0 <= k < |defaults| && defaults[k] == l[i];
        BuiltInsUnrelated(llvm16, k);
      }
      FlowIsApart(l[i].0);
    }
    TameBuiltInsSettle(configured, llvm16, l, name);
  }
}
