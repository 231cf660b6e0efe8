/** `replace_all` (src/util/util.cc): the base of every string rewriting step. */
module Substitution {
  import opened Strings

  // ---------- Reference definition: cut at the pattern, join with the replacement ----------

  /**
   * The pieces of `s` between the occurrences of `d`, found from the left and
   * without overlap. There is always at least one piece.
   */
  function Pieces(s: string, d: string): (r: seq<string>)
    requires d != ""
    ensures r != []
    decreases |s|
  {
    match Find(s, d, 0)
    case None => [s]
    case Some(k) => [s[..k]] + Pieces(s[k + |d|..], d)
  }

  /** `join` of src/util/util.cc. */
  function Join(toks: seq<string>, d: string): string {
    if toks == [] then ""
    else if |toks| == 1 then toks[0]
    else toks[0] + d + Join(toks[1..], d)
  }

  lemma JoinCons(tok: string, toks: seq<string>, d: string)
    requires toks != []
    ensures Join([tok] + toks, d) == tok + d + Join(toks, d)
  {
    assert ([tok] + toks)[1..] == toks;
  }

  lemma {:induction false} JoinOfPieces(s: string, d: string)
    requires d != ""
    ensures Join(Pieces(s, d), d) == s
    decreases |s|
  {
    match Find(s, d, 0)
    case None =>
    case Some(k) =>
      var rest := s[k + |d|..];
      JoinOfPieces(rest, d);
      JoinCons(s[..k], Pieces(rest, d), d);
      assert s == s[..k] + d + rest;
  }

  /** Only the end of a piece that is followed by the pattern completes an occurrence. */
  ghost predicate CutsLeftmost(pieces: seq<string>, d: string) {
    && pieces != []
    && (forall i :: 0 <= i < |pieces| - 1 ==> Find(pieces[i] + d, d, 0) == Some(|pieces[i]|))
    && !Contains(pieces[|pieces| - 1], d)
  }

  lemma OccursInPrefix(s: string, d: string, n: nat, j: nat)
    requires j + |d| <= n <= |s|
    ensures OccursAt(s[..n], d, j) <==> OccursAt(s, d, j)
  {
    assert s[..n][j..j + |d|] == s[j..j + |d|];
  }

  lemma FindInPrefix(s: string, d: string, k: nat)
    requires Find(s, d, 0) == Some(k)
    ensures Find(s[..k] + d, d, 0) == Some(k)
  {
    var n := k + |d|;
    assert s[..k] + d == s[..n] by {
      assert s[k..n] == d;
    }
    hide OccursAt;
    forall j | 0 <= j <= k ensures OccursAt(s[..n], d, j) <==> OccursAt(s, d, j) {
      OccursInPrefix(s, d, n, j);
    }
    FindIs(s[..n], d, k);
  }

  lemma {:induction false} PiecesCutLeftmost(s: string, d: string)
    requires d != ""
    ensures CutsLeftmost(Pieces(s, d), d)
    decreases |s|
  {
    match Find(s, d, 0)
    case None =>
    case Some(k) =>
      var rest := Pieces(s[k + |d|..], d);
      PiecesCutLeftmost(s[k + |d|..], d);
      FindInPrefix(s, d, k);
      forall i | 0 <= i < |rest| ensures Find(([s[..k]] + rest)[i] + d, d, 0) == Some(|([s[..k]] + rest)[i]|) {
        if i > 0 {
          assert ([s[..k]] + rest)[i] == rest[i - 1];
        }
      }
  }

  lemma FindExtends(t: string, v: string, d: string, k: nat)
    requires Find(t, d, 0) == Some(k)
    ensures Find(t + v, d, 0) == Some(k)
  {
    assert (t + v)[k..k + |d|] == t[k..k + |d|];
    forall j | 0 <= j < k ensures !OccursAt(t + v, d, j) {
      assert (t + v)[j..j + |d|] == t[j..j + |d|];
      assert !OccursAt(t, d, j);
    }
    FindIs(t + v, d, k);
  }

  lemma PiecesOfFront(tok: string, rest: string, d: string)
    requires d != "" && Find(tok + d, d, 0) == Some(|tok|)
    ensures Pieces(tok + d + rest, d) == [tok] + Pieces(rest, d)
  {
    hide OccursAt;
    FindExtends(tok + d, rest, d, |tok|);
    assert (tok + d + rest)[|tok| + |d|..] == rest;
    assert (tok + d + rest)[..|tok|] == tok;
  }

  /** The leftmost cut is unique: whatever cuts leftmost and joins to `s` is `Pieces(s, d)`. */
  lemma {:induction false} LeftmostCutIsUnique(pieces: seq<string>, d: string)
    requires d != "" && CutsLeftmost(pieces, d)
    ensures Pieces(Join(pieces, d), d) == pieces
  {
    if |pieces| == 1 {
      assert Find(pieces[0], d, 0) == None;
    } else {
      var rest := pieces[1..];
      assert forall i :: 0 <= i < |rest| ==> rest[i] == pieces[i + 1];
      LeftmostCutIsUnique(rest, d);
      PiecesOfFront(pieces[0], Join(rest, d), d);
    }
  }

  /** What `replace_all` leaves: the pieces, joined with the replacement instead of the pattern. */
  function Replaced(s: string, p: string, r: string): string
    requires p != ""
  {
    Join(Pieces(s, p), r)
  }

  /** How often `replace_all` replaces. */
  function Replacements(s: string, p: string): nat
    requires p != ""
  {
    |Pieces(s, p)| - 1
  }

  // ---------- Reading the reference definition from the left ----------

  lemma ReplacedNone(s: string, p: string, r: string)
    requires p != "" && Find(s, p, 0).None?
    ensures Replaced(s, p, r) == s
  {
  }

  lemma ReplacedFound(s: string, p: string, r: string, k: nat)
    requires p != "" && Find(s, p, 0) == Some(k)
    ensures Replaced(s, p, r) == s[..k] + r + Replaced(s[k + |p|..], p, r)
  {
    JoinCons(s[..k], Pieces(s[k + |p|..], p), r);
  }

  /** An occurrence at the front is replaced, and the search goes on behind it. */
  lemma {:induction false} ReplacedFront(p: string, rest: string, r: string)
    requires p != ""
    ensures Replaced(p + rest, p, r) == r + Replaced(rest, p, r)
  {
    var s := p + rest;
    assert s[0..|p|] == p;
    FindIs(s, p, 0);
    ReplacedFound(s, p, r, 0);
    assert s[|p|..] == rest;
    assert s[..0] + r == r;
  }

  lemma ConcatSlices(a: string, b: string, k: nat)
    requires k <= |b|
    ensures (a + b)[..|a| + k] == a + b[..k]
    ensures (a + b)[|a| + k..] == b[k..]
  {
  }

  lemma FindBehind(a: string, b: string, p: string)
    requires forall k :: 0 <= k < |a| ==> !OccursAt(a + b, p, k)
    ensures Find(b, p, 0).None? ==> Find(a + b, p, 0).None?
    ensures Find(b, p, 0).Some? ==> Find(a + b, p, 0) == Some(|a| + Find(b, p, 0).value)
  {
    hide OccursAt;
    ConcatSlices(a, b, 0);
    FindShift(a + b, p, |a|);
    FindFrom(a + b, p, |a|);
  }

  /** Nothing occurs before `from`, so searching from there is searching from the start. */
  lemma FindFrom(s: string, p: string, from: nat)
    requires forall k :: 0 <= k < from ==> !OccursAt(s, p, k)
    ensures Find(s, p, 0) == Find(s, p, from)
  {
    hide OccursAt;
    var start, later := Find(s, p, 0), Find(s, p, from);
    if start.Some? {
      assert OccursAt(s, p, start.value);
      assert later.Some?;
    }
    if later.Some? {
      assert OccursAt(s, p, later.value);
      assert start.Some?;
    }
  }

  /** A front part in which no occurrence begins is kept. */
  lemma ReplacedKeeps(a: string, b: string, p: string, r: string)
    requires p != "" && forall k :: 0 <= k < |a| ==> !OccursAt(a + b, p, k)
    ensures Replaced(a + b, p, r) == a + Replaced(b, p, r)
  {
    hide OccursAt, Replaced;
    FindBehind(a, b, p);
    if Find(b, p, 0).None? {
      ReplacedNone(a + b, p, r);
      ReplacedNone(b, p, r);
    } else {
      var k := Find(b, p, 0).value;
      ReplacedFound(a + b, p, r, |a| + k);
      ReplacedFound(b, p, r, k);
      KeepSlices(a, b, k, k + |p|, r, Replaced(b[k + |p|..], p, r));
    }
  }

  lemma KeepSlices(a: string, b: string, k: nat, l: nat, r: string, v: string)
    requires k <= l <= |b|
    ensures (a + b)[|a| + l..] == b[l..]
    ensures (a + b)[..|a| + k] + r + v == a + (b[..k] + r + v)
  {
    ConcatSlices(a, b, k);
    ConcatSlices(a, b, l);
    Assoc(a, b[..k], r);
    Assoc(a, b[..k] + r, v);
  }

  // ---------- Consequences ----------

  lemma {:induction false} JoinLength(toks: seq<string>, p: string, r: string)
    requires toks != []
    ensures |Join(toks, r)| == |Join(toks, p)| + (|toks| - 1) * (|r| - |p|)
  {
    if |toks| > 1 {
      JoinLength(toks[1..], p, r);
      calc {
        (|toks| - 1) * (|r| - |p|);
        ((|toks| - 2) + 1) * (|r| - |p|);
        (|toks| - 2) * (|r| - |p|) + (|r| - |p|);
      }
    }
  }

  lemma ReplacedLength(s: string, p: string, r: string)
    requires p != ""
    ensures |Replaced(s, p, r)| == |s| + Replacements(s, p) * (|r| - |p|)
  {
    JoinOfPieces(s, p);
    JoinLength(Pieces(s, p), p, r);
  }

  lemma {:induction false} ReplacementsPositive(s: string, p: string)
    requires p != ""
    ensures Replacements(s, p) > 0 <==> Contains(s, p)
    ensures !Contains(s, p) <==> Find(s, p, 0).None?
  {
  }

  /** A strictly shorter replacement never lengthens, and shortens whenever it replaces. */
  lemma ReplacedShrinks(s: string, p: string, r: string)
    requires |r| < |p|
    ensures |Replaced(s, p, r)| <= |s|
    ensures Contains(s, p) ==> |Replaced(s, p, r)| < |s|
  {
    hide Replaced, Replacements, Contains;
    ReplacedLength(s, p, r);
    ReplacementsPositive(s, p);
    var n, step := Replacements(s, p), |p| - |r|;
    assert n * (|r| - |p|) == -(n * step);
    if n > 0 {
      assert n * step >= 1;
    }
  }

  // ---------- An empty pattern ----------

  /** One turn of the loop on `s`, when the pattern was found at `pos`. */
  function Turn(s: string, p: string, r: string, pos: nat): (string, Option<nat>)
    requires pos + |p| <= |s|
  {
    var t := s[..pos] + r + s[pos + |p|..];
    (t, Find(t, p, pos + |r|))
  }

  /** The loop goes on after `n` turns. */
  ghost predicate GoesOn(s: string, p: string, r: string, pos: Option<nat>, n: nat)
    decreases n
  {
    && pos.Some? && pos.value < |s| && pos.value + |p| <= |s|
    && (n == 0 || GoesOn(Turn(s, p, r, pos.value).0, p, r, Turn(s, p, r, pos.value).1, n - 1))
  }

  /** An empty pattern is found everywhere, and as much is left behind the place after a turn as before it. */
  lemma EmptyPatternTurn(s: string, r: string, pos: nat)
    requires pos < |s|
    ensures var (t, next) := Turn(s, "", r, pos);
            next.Some? && |t| - next.value == |s| - pos > 0
  {
    var t := s[..pos] + r + s[pos..];
    assert OccursAt(t, "", pos + |r|);
  }

  /** With an empty pattern the loop never ends on a string that is not empty. */
  lemma {:induction false} EmptyPatternNeverEnds(s: string, r: string, pos: nat, n: nat)
    requires pos < |s|
    ensures Find(s, "", 0) == Some(0)
    ensures GoesOn(s, "", r, Some(pos), n)
    decreases n
  {
    assert OccursAt(s, "", 0);
    if n > 0 {
      EmptyPatternTurn(s, r, pos);
      var (t, next) := Turn(s, "", r, pos);
      hide Turn, Find;
      EmptyPatternNeverEnds(t, r, next.value, n - 1);
    }
  }

  // ---------- The loop ----------

  /** One turn of the loop: `start` characters are final, the rest is still to be searched. */
  lemma ReplaceStep(s: string, p: string, r: string, start: nat, pos: nat) returns (t: string)
    requires p != "" && start <= |s| && Find(s, p, start) == Some(pos)
    ensures t == s[..pos] + r + s[pos + |p|..] && pos + |r| <= |t|
    ensures t[..pos + |r|] + Replaced(t[pos + |r|..], p, r) == s[..start] + Replaced(s[start..], p, r)
    ensures |t| - (pos + |r|) < |s| - start
  {
    var rest, k := s[start..], pos - start;
    FindShift(s, p, start);
    ReplacedFound(rest, p, r, k);
    var tail := s[pos + |p|..];
    t := s[..pos] + r + tail;
    assert rest[k + |p|..] == tail;
    assert s[..pos] == s[..start] + rest[..k];
    assert t[..pos + |r|] == s[..pos] + r;
    assert t[pos + |r|..] == tail;
    Assoc(s[..start], rest[..k], r);
    Assoc(s[..start], rest[..k] + r, Replaced(tail, p, r));
  }

  /**
   * `replace_all`. The program passes `input` by reference; here the changed
   * string is a result. An empty pattern makes its loop run for ever on any
   * input but the empty one (`EmptyPatternNeverEnds`).
   */
  method ReplaceAll(input: string, pattern: string, replaceWith: string) returns (output: string, replaced: bool)
    requires pattern != "" || input == ""
    ensures pattern != "" ==> output == Replaced(input, pattern, replaceWith)
    ensures pattern != "" ==> replaced == Contains(input, pattern)
    ensures pattern == "" ==> output == "" && !replaced
  {
    hide OccursAt, Replaced, Replacements;
    output, replaced := input, false;
    var pos := Find(output, pattern, 0);
    ghost var start: nat := 0;
    assert output[..0] == "" && output[0..] == output;
    while pos.Some? && pos.value < |output|
      invariant start <= |output| && pos == Find(output, pattern, start)
      invariant pattern == "" ==> output == "" && !replaced
      invariant pattern != "" ==>
        output[..start] + Replaced(output[start..], pattern, replaceWith) == Replaced(input, pattern, replaceWith)
      invariant if replaced then Contains(input, pattern) else output == input && start == 0
      decreases |output| - start
    {
      ghost var t := ReplaceStep(output, pattern, replaceWith, start, pos.value);
      output := output[..pos.value] + replaceWith + output[pos.value + |pattern|..];
      start := pos.value + |replaceWith|;
      pos := Find(output, pattern, pos.value + |replaceWith|);
      replaced := true;
    }
    if pattern != "" {
      FindShift(output, pattern, start);
      ReplacedNone(output[start..], pattern, replaceWith);
      ReplacementsPositive(input, pattern);
    }
  }
}
