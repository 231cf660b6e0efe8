/** Searching and trimming: the `std::string` operations that the other modules rest on. */
module Strings {

  datatype Option<+T> = None | Some(value: T)

  // ---------- Searching ----------

  predicate OccursAt(s: string, p: string, k: int) {
    0 <= k && k + |p| <= |s| && s[k..k + |p|] == p
  }

  ghost predicate Contains(s: string, p: string) {
    exists k :: OccursAt(s, p, k)
  }

  /** `s.find(p, from)`: the first occurrence of `p` that starts at `from` or later. */
  function Find(s: string, p: string, from: nat): (r: Option<nat>)
    ensures r.Some? ==> from <= r.value <= r.value + |p| <= |s| && OccursAt(s, p, r.value)
    ensures r.Some? ==> forall k :: from <= k < r.value ==> !OccursAt(s, p, k)
    ensures r.None? ==> forall k :: from <= k ==> !OccursAt(s, p, k)
    decreases |s| - from
  {
    if from + |p| > |s| then None
    else if OccursAt(s, p, from) then Some(from)
    else Find(s, p, from + 1)
  }

  /** `s.find(c, from)` for a single character. */
  function FindChar(s: string, c: char, from: nat): (r: Option<nat>)
    ensures r.Some? ==> from <= r.value < |s| && s[r.value] == c
    decreases |s| - from
  {
    if from >= |s| then None
    else if s[from] == c then Some(from)
    else FindChar(s, c, from + 1)
  }

  /** Nothing in front of what `FindChar` finds is the character. */
  lemma {:induction false} FirstChar(s: string, c: char, from: nat)
    requires FindChar(s, c, from).Some?
    ensures forall j :: from <= j < FindChar(s, c, from).value ==> s[j] != c
    decreases |s| - from
  {
    if s[from] != c {
      FirstChar(s, c, from + 1);
    }
  }

  /** The first `c` is at `k` when there is none earlier. */
  lemma {:induction false} FindCharIs(s: string, c: char, from: nat, k: nat)
    requires from <= k < |s| && s[k] == c && forall j :: from <= j < k ==> s[j] != c
    ensures FindChar(s, c, from) == Some(k)
    decreases k - from
  {
    if from < k {
      FindCharIs(s, c, from + 1, k);
    }
  }

  lemma {:induction false} FindCharNone(s: string, c: char, from: nat)
    ensures FindChar(s, c, from).None? <==> forall j :: from <= j < |s| ==> s[j] != c
    decreases |s| - from
  {
    if from < |s| && s[from] != c {
      FindCharNone(s, c, from + 1);
    }
  }

  /** What is found in front is found in the whole; when nothing is, the search goes on behind. */
  lemma {:induction false} FindCharInConcat(a: string, b: string, c: char, from: nat)
    requires from <= |a|
    ensures FindChar(a + b, c, from) ==
            if FindChar(a, c, from).Some? then FindChar(a, c, from) else FindChar(a + b, c, |a|)
    decreases |a| - from
  {
    if from < |a| {
      assert (a + b)[from] == a[from];
      if a[from] != c {
        FindCharInConcat(a, b, c, from + 1);
      }
    }
  }

  /** Searching in what remains after `d` characters is searching `d` places further on. */
  lemma {:induction false} FindCharInDrop(s: string, c: char, d: nat, from: nat)
    requires d + from <= |s|
    ensures FindChar(s, c, d + from) ==
            if FindChar(s[d..], c, from).None? then None else Some(d + FindChar(s[d..], c, from).value)
    decreases |s| - from
  {
    if d + from < |s| && s[d + from] != c {
      FindCharInDrop(s, c, d, from + 1);
    }
  }

  lemma OccursShift(s: string, p: string, d: nat, k: int)
    requires d <= |s| && d <= k
    ensures OccursAt(s, p, k) <==> OccursAt(s[d..], p, k - d)
  {
    if d <= k && k + |p| <= |s| {
      assert s[d..][k - d..k - d + |p|] == s[k..k + |p|];
    }
  }

  /** Searching from `d` is searching in what remains after `d` characters. */
  lemma FindShift(s: string, p: string, d: nat)
    requires d <= |s|
    ensures Find(s, p, d).None? <==> Find(s[d..], p, 0).None?
    ensures Find(s, p, d).Some? ==> Find(s, p, d).value == d + Find(s[d..], p, 0).value
  {
    var here, there := Find(s, p, d), Find(s[d..], p, 0);
    if here.Some? {
      OccursShift(s, p, d, here.value);
    }
    if there.Some? {
      OccursShift(s, p, d, there.value + d);
    }
    if here.Some? && there.Some? {
      OccursShift(s, p, d, here.value);
      OccursShift(s, p, d, there.value + d);
    }
  }

  /** The first occurrence is at `k` when nothing occurs earlier. */
  lemma FindIs(s: string, p: string, k: nat)
    requires OccursAt(s, p, k) && forall j :: 0 <= j < k ==> !OccursAt(s, p, j)
    ensures Find(s, p, 0) == Some(k)
  {
  }

  /** An occurrence has the characters of the pattern. */
  lemma OccursChar(s: string, p: string, k: int, i: nat)
    requires i < |p|
    ensures OccursAt(s, p, k) ==> s[k + i] == p[i]
  {
    if OccursAt(s, p, k) {
      assert s[k..k + |p|][i] == s[k + i];
    }
  }

  lemma OccursInFront(a: string, b: string, p: string, k: nat)
    requires k + |p| <= |a|
    ensures OccursAt(a + b, p, k) <==> OccursAt(a, p, k)
  {
    assert (a + b)[k..k + |p|] == a[k..k + |p|];
  }

  lemma OccursInside(a: string, b: string, c: string, p: string, i: nat)
    requires OccursAt(b, p, i)
    ensures OccursAt(a + b + c, p, |a| + i)
    ensures Contains(a + b + c, p)
  {
    assert (a + b + c)[|a| + i..|a| + i + |p|] == b[i..i + |p|];
    assert OccursAt(a + b + c, p, |a| + i);
  }

  /** What a part contains the whole contains. */
  lemma ContainedInside(a: string, b: string, c: string, p: string)
    requires Contains(b, p)
    ensures Contains(a + b + c, p)
  {
    var i :| OccursAt(b, p, i);
    OccursInside(a, b, c, p, i);
  }

  // ---------- White space ----------

  /** The characters of `WHITESPACE`, which are also those of `std::isspace` in the C locale. */
  predicate IsSpace(c: char) {
    c == ' ' || c == '\n' || c == '\r' || c == '\t' || c == '\U{000C}' || c == '\U{000B}'
  }

  /** The characters by their codes in ASCII. */
  lemma SpaceCodes(c: char)
    ensures IsSpace(c) <==> c as int == 32 || 9 <= c as int <= 13
  {
  }

  function LTrim(s: string): (r: string)
    ensures r == "" || !IsSpace(r[0])
    ensures |r| <= |s| && r == s[|s| - |r|..]
    ensures forall k :: 0 <= k < |s| - |r| ==> IsSpace(s[k])
  {
    if s == "" || !IsSpace(s[0]) then s else LTrim(s[1..])
  }

  function RTrim(s: string): (r: string)
    ensures r == "" || !IsSpace(r[|r| - 1])
    ensures |r| <= |s| && r == s[..|r|]
    ensures forall k :: |r| <= k < |s| ==> IsSpace(s[k])
  {
    if s == "" || !IsSpace(s[|s| - 1]) then s else RTrim(s[..|s| - 1])
  }

  function Trim(s: string): string {
    RTrim(LTrim(s))
  }

  predicate AllSpace(s: string) {
    forall k :: 0 <= k < |s| ==> IsSpace(s[k])
  }

  /** A string is trimmed when neither end is white space. */
  predicate Trimmed(s: string) {
    s == "" || (!IsSpace(s[0]) && !IsSpace(s[|s| - 1]))
  }

  lemma {:induction false} LTrimIs(before: string, rest: string)
    requires AllSpace(before) && (rest == "" || !IsSpace(rest[0]))
    ensures LTrim(before + rest) == rest
  {
    if before == "" {
      assert before + rest == rest;
    } else {
      assert (before + rest)[1..] == before[1..] + rest;
      LTrimIs(before[1..], rest);
    }
  }

  lemma {:induction false} RTrimIs(core: string, after: string)
    requires AllSpace(after) && (core == "" || !IsSpace(core[|core| - 1]))
    ensures RTrim(core + after) == core
  {
    if after == "" {
      assert core + after == core;
    } else {
      var s := core + after;
      assert s[..|s| - 1] == core + after[..|after| - 1];
      RTrimIs(core, after[..|after| - 1]);
    }
  }

  /** `Trim` is the only way to cut white space off both ends and be left with a trimmed string. */
  lemma TrimIs(before: string, core: string, after: string)
    requires AllSpace(before) && AllSpace(after) && Trimmed(core)
    ensures Trim(before + core + after) == core
  {
    if core == "" {
      LTrimIs(before + core + after, "");
      assert before + core + after + "" == before + core + after;
    } else {
      Assoc(before, core, after);
      LTrimIs(before, core + after);
      RTrimIs(core, after);
    }
  }

  lemma Assoc<T>(a: seq<T>, b: seq<T>, c: seq<T>)
    ensures a + b + c == a + (b + c)
  {
  }

  lemma SplitAt(s: string, k: nat)
    requires k <= |s|
    ensures s == s[..k] + s[k..]
  {
  }

  lemma Snoc<T>(s: seq<T>)
    requires s != []
    ensures s[..|s| - 1] + [s[|s| - 1]] == s
  {
  }

  lemma SplitAround(s: string, k: nat)
    requires k < |s|
    ensures s == s[..k] + [s[k]] + s[k + 1..]
  {
  }

  lemma RegroupRight(a: string, b: string, c: string, d: string, e: string)
    ensures (a + b + c) + d + e == a + b + (c + d + e)
  {
  }

  lemma Regroup(a: string, b: string, c: string, d: string, e: string)
    ensures a + (b + c + d) + e == (a + b) + c + (d + e)
  {
  }

  lemma LTrimPart(s: string) returns (before: string)
    ensures s == before + LTrim(s) && AllSpace(before)
  {
    before := s[..|s| - |LTrim(s)|];
    SplitAt(s, |s| - |LTrim(s)|);
  }

  lemma RTrimPart(s: string) returns (after: string)
    ensures s == RTrim(s) + after && AllSpace(after)
  {
    var n := |RTrim(s)|;
    after := s[n..];
    SplitAt(s, n);
    assert forall k :: 0 <= k < |after| ==> after[k] == s[n + k];
  }

  lemma TrimIsTrimmed(s: string)
    ensures Trimmed(Trim(s))
  {
    var l := LTrim(s);
    var r := RTrim(l);
    if r != "" {
      assert r[0] == l[0];
    }
  }

  lemma TrimParts(s: string) returns (before: string, after: string)
    ensures s == before + Trim(s) + after
    ensures AllSpace(before) && AllSpace(after) && Trimmed(Trim(s))
  {
    before := LTrimPart(s);
    after := RTrimPart(LTrim(s));
    Assoc(before, Trim(s), after);
    TrimIsTrimmed(s);
  }

  /** White space around a string does not change its trim; in particular trimming twice is trimming once. */
  lemma TrimAround(before: string, s: string, after: string)
    requires AllSpace(before) && AllSpace(after)
    ensures Trim(before + s + after) == Trim(s)
  {
    var b, a := TrimParts(s);
    Regroup(before, b, Trim(s), a, after);
    TrimIs(before + b, Trim(s), a + after);
  }
}
