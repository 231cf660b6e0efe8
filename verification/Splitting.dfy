/** `split`, `join` and `split_isspace` (src/util/util.cc). */
module Splitting {
  import opened Strings
  import opened Substitution

  // ---------- split ----------

  function NonEmpty(toks: seq<string>): seq<string> {
    if toks == [] then []
    else if toks[0] == "" then NonEmpty(toks[1..])
    else [toks[0]] + NonEmpty(toks[1..])
  }

  /** The scan stops as soon as nothing is left, so a last piece that is empty is never seen. */
  function DropTrailingEmpty(pieces: seq<string>): seq<string> {
    if pieces != [] && pieces[|pieces| - 1] == "" then pieces[..|pieces| - 1] else pieces
  }

  function Kept(toks: seq<string>, skipEmpty: bool): seq<string> {
    if skipEmpty then NonEmpty(toks) else toks
  }

  /** What the loop appends when `s` is left. */
  function SplitRest(s: string, d: string, skipEmpty: bool): seq<string>
    requires d != ""
  {
    Kept(DropTrailingEmpty(Pieces(s, d)), skipEmpty)
  }

  function SplitOf(s: string, d: string, skipEmpty: bool): seq<string>
    requires d != ""
  {
    if s == "" && !skipEmpty then [""] else SplitRest(s, d, skipEmpty)
  }

  lemma KeptCons(tok: string, rest: seq<string>, skipEmpty: bool)
    requires rest != []
    ensures Kept(DropTrailingEmpty([tok] + rest), skipEmpty) ==
            (if tok == "" && skipEmpty then [] else [tok]) + Kept(DropTrailingEmpty(rest), skipEmpty)
  {
    assert DropTrailingEmpty([tok] + rest) == [tok] + DropTrailingEmpty(rest);
    assert ([tok] + DropTrailingEmpty(rest))[1..] == DropTrailingEmpty(rest);
  }

  lemma SplitRestUnsplit(s: string, d: string, skipEmpty: bool)
    requires d != "" && Find(s, d, 0).None?
    ensures SplitRest(s, d, skipEmpty) == if s == "" then [] else [s]
  {
    if s != "" {
      assert NonEmpty([s]) == [s];
    }
  }

  lemma SplitRestFound(s: string, d: string, skipEmpty: bool, k: nat)
    requires d != "" && Find(s, d, 0) == Some(k)
    ensures SplitRest(s, d, skipEmpty) ==
            (if k == 0 && skipEmpty then [] else [s[..k]]) + SplitRest(s[k + |d|..], d, skipEmpty)
  {
    KeptCons(s[..k], Pieces(s[k + |d|..], d), skipEmpty);
  }

  /** `result` holds the first tokens of `text`, and `left` is where the others come from. */
  ghost predicate SplitSoFar(result: seq<string>, left: string, text: string, d: string, skipEmpty: bool) {
    d != "" ==> result + SplitRest(left, d, skipEmpty) == SplitRest(text, d, skipEmpty)
  }

  /** One turn of the loop, with `k` the place of the next delimiter. */
  lemma SplitTurn(result: seq<string>, left: string, text: string, d: string, skipEmpty: bool, k: nat)
    requires d != "" && Find(left, d, 0) == Some(k) && SplitSoFar(result, left, text, d, skipEmpty)
    ensures SplitSoFar(if k == 0 && skipEmpty then result else result + [left[..k]],
                       left[k + |d|..], text, d, skipEmpty)
  {
    SplitRestFound(left, d, skipEmpty, k);
    hide SplitRest;
    var rest := SplitRest(left[k + |d|..], d, skipEmpty);
    Assoc(result, [left[..k]], rest);
    assert [] + rest == rest;
  }

  lemma SplitLastTurn(result: seq<string>, left: string, text: string, d: string, skipEmpty: bool)
    requires left != "" && Find(left, d, 0).None? && SplitSoFar(result, left, text, d, skipEmpty)
    ensures SplitSoFar(result + [left], "", text, d, skipEmpty)
  {
    if d != "" {
      SplitRestUnsplit(left, d, skipEmpty);
      SplitRestUnsplit("", d, skipEmpty);
      assert result + [left] + [] == result + [left];
    }
  }

  lemma SplitStart(text: string, d: string, skipEmpty: bool)
    ensures SplitSoFar([], text, text, d, skipEmpty)
    ensures d == "" ==> Find(text, d, 0).Some?
  {
    if d == "" {
      assert text[0..0] == "";
    } else {
      assert [] + SplitRest(text, d, skipEmpty) == SplitRest(text, d, skipEmpty);
    }
  }

  lemma SplitDone(result: seq<string>, text: string, d: string, skipEmpty: bool)
    requires d != "" && SplitSoFar(result, "", text, d, skipEmpty)
    ensures text != "" ==> result == SplitOf(text, d, skipEmpty)
  {
    SplitRestUnsplit("", d, skipEmpty);
    assert result + [] == result;
  }

  lemma SplitOfUnsplit(s: string, d: string, skipEmpty: bool)
    requires d != "" && Find(s, d, 0).None?
    ensures SplitOf(s, d, skipEmpty) == if s == "" && skipEmpty then [] else [s]
  {
    SplitRestUnsplit(s, d, skipEmpty);
  }

  /** A turn of the loop of `split` with an empty delimiter leaves everything that was left. */
  lemma {:induction false} EmptyDelimiterStays(left: string)
    ensures Find(left, "", 0) == Some(0) && left[0 + |""|..] == left
  {
    assert OccursAt(left, "", 0);
  }

  /** `split`. With an empty delimiter its loop would never end on a non-empty string (`EmptyDelimiterStays`). */
  method Split(text: string, delimiter: string, skipEmpty: bool) returns (result: seq<string>)
    requires delimiter != "" || text == ""
    ensures delimiter != "" ==> result == SplitOf(text, delimiter, skipEmpty)
    ensures delimiter == "" ==> result == []
  {
    SplitStart(text, delimiter, skipEmpty);
    hide *;
    result := [];
    var str := text;
    if Find(str, delimiter, 0).None? {
      SplitOfUnsplit(text, delimiter, skipEmpty);
      if str != "" {
        result := result + [str];
      } else if !skipEmpty {
        result := result + [str];
      }
    } else {
      while str != ""
        invariant SplitSoFar(result, str, text, delimiter, skipEmpty)
        invariant delimiter == "" ==> str == "" && result == []
        decreases |str|
      {
        var index := Find(str, delimiter, 0);
        if index.Some? {
          SplitTurn(result, str, text, delimiter, skipEmpty, index.value);
          var tok := str[..index.value];
          if tok != "" || !skipEmpty {
            result := result + [tok];
          }
          str := str[index.value + |delimiter|..];
        } else {
          SplitLastTurn(result, str, text, delimiter, skipEmpty);
          result := result + [str];
          str := "";
        }
      }
      if delimiter != "" {
        SplitDone(result, text, delimiter, skipEmpty);
      }
    }
  }

  // ---------- split after join ----------

  predicate Disjoint(tok: string, d: string) {
    forall i, j :: 0 <= i < |tok| && 0 <= j < |d| ==> tok[i] != d[j]
  }

  lemma FindAfterDisjoint(tok: string, d: string)
    requires d != "" && Disjoint(tok, d)
    ensures Find(tok + d, d, 0) == Some(|tok|)
    ensures !Contains(tok, d)
  {
    assert (tok + d)[|tok|..|tok| + |d|] == d;
    forall j | 0 <= j < |tok| ensures !OccursAt(tok + d, d, j) {
      assert (tok + d)[j] == tok[j] != d[0];
      OccursChar(tok + d, d, j, 0);
    }
    FindIs(tok + d, d, |tok|);
    forall j ensures !OccursAt(tok, d, j) {
      OccursChar(tok, d, j, 0);
    }
  }

  /** Tokens that share no character with the delimiter come back from their join. */
  lemma SplitOfJoin(toks: seq<string>, d: string, skipEmpty: bool)
    requires d != "" && toks != []
    requires forall i :: 0 <= i < |toks| ==> toks[i] != "" && Disjoint(toks[i], d)
    ensures SplitOf(Join(toks, d), d, skipEmpty) == toks
  {
    forall i | 0 <= i < |toks| ensures Find(toks[i] + d, d, 0) == Some(|toks[i]|) && !Contains(toks[i], d) {
      FindAfterDisjoint(toks[i], d);
    }
    LeftmostCutIsUnique(toks, d);
    NonEmptyOf(toks);
    JoinNotEmpty(toks, d);
  }

  lemma JoinNotEmpty(toks: seq<string>, d: string)
    requires toks != [] && toks[0] != ""
    ensures Join(toks, d) != ""
  {
  }

  lemma {:induction false} NonEmptyOf(toks: seq<string>)
    requires forall i :: 0 <= i < |toks| ==> toks[i] != ""
    ensures NonEmpty(toks) == toks
  {
    if toks != [] {
      NonEmptyOf(toks[1..]);
    }
  }

  // ---------- Skipping empty tokens ----------

  lemma {:induction false} NonEmptyKeeps(toks: seq<string>, tok: string)
    requires tok != ""
    ensures multiset(NonEmpty(toks))[tok] == multiset(toks)[tok]
    ensures forall i :: 0 <= i < |NonEmpty(toks)| ==> NonEmpty(toks)[i] != ""
  {
    if toks != [] {
      NonEmptyKeeps(toks[1..], tok);
      assert toks == [toks[0]] + toks[1..];
      CountHead(toks[0], toks[1..], tok);
      CountHead(toks[0], NonEmpty(toks[1..]), tok);
    }
  }

  lemma CountHead(h: string, t: seq<string>, tok: string)
    ensures multiset([h] + t)[tok] == (if h == tok then 1 else 0) + multiset(t)[tok]
  {
  }

  lemma {:induction false} NonEmptyAppend(a: seq<string>, b: seq<string>)
    ensures NonEmpty(a + b) == NonEmpty(a) + NonEmpty(b)
  {
    if a == [] {
      assert a + b == b;
    } else {
      assert (a + b)[1..] == a[1..] + b;
      NonEmptyAppend(a[1..], b);
    }
  }

  /**
   * With empty tokens skipped the result has none of them, and every other token as often as
   * without; by `NonEmptyAppend` in the same order.
   */
  lemma {:induction false} SkippingIs(s: string, d: string, tok: string)
    requires d != "" && tok != ""
    ensures multiset(SplitOf(s, d, true))[tok] == multiset(SplitOf(s, d, false))[tok]
    ensures "" !in SplitOf(s, d, true)
  {
    NonEmptyKeeps(DropTrailingEmpty(Pieces(s, d)), tok);
    if s == "" {
      assert Pieces(s, d) == [""];
      assert multiset([""])[tok] == 0;
    }
  }

  /** The empty string has one empty token, or none. */
  lemma {:induction false} SplitOfNothing(d: string)
    requires d != ""
    ensures SplitOf("", d, false) == [""] && SplitOf("", d, true) == []
  {
    SplitOfUnsplit("", d, false);
    SplitOfUnsplit("", d, true);
  }

  // ---------- join after split ----------

  /** The scan of `s` comes out exactly at the end of `s`, behind a delimiter. */
  predicate EndsOnDelimiter(s: string, d: string)
    requires d != ""
  {
    match Find(s, d, 0)
    case None => false
    case Some(k) => k + |d| == |s| || EndsOnDelimiter(s[k + |d|..], d)
  }

  lemma {:induction false} TrailingEmptyPiece(s: string, d: string)
    requires d != "" && s != ""
    ensures EndsOnDelimiter(s, d) <==> Pieces(s, d)[|Pieces(s, d)| - 1] == ""
    decreases |s|
  {
    if Find(s, d, 0).Some? {
      var k := Find(s, d, 0).value;
      if k + |d| == |s| {
        assert Pieces("", d) == [""];
        assert s[k + |d|..] == "";
      } else {
        TrailingEmptyPiece(s[k + |d|..], d);
      }
    }
  }

  lemma {:induction false} JoinSnoc(toks: seq<string>, d: string)
    requires toks != []
    ensures Join(toks + [""], d) == Join(toks, d) + d
  {
    if |toks| > 1 {
      JoinSnoc(toks[1..], d);
      assert (toks + [""])[1..] == toks[1..] + [""];
      Assoc(toks[0] + d, Join(toks[1..], d), d);
    } else {
      assert toks + [""] == [toks[0]] + [""];
      JoinCons(toks[0], [""], d);
    }
  }

  lemma JoinDropsTrailing(pieces: seq<string>, d: string)
    requires pieces != []
    ensures Join(pieces, d) ==
            Join(DropTrailingEmpty(pieces), d) + if |pieces| > 1 && pieces[|pieces| - 1] == "" then d else ""
  {
    if pieces[|pieces| - 1] == "" {
      var kept := pieces[..|pieces| - 1];
      assert pieces == kept + [""];
      if kept != [] {
        JoinSnoc(kept, d);
      }
    }
  }

  /** Keeping empty tokens, join gives the string back, without one delimiter that the scan ended on. */
  lemma JoinOfSplit(s: string, d: string)
    requires d != ""
    ensures s == Join(SplitOf(s, d, false), d) + if EndsOnDelimiter(s, d) then d else ""
  {
    if s != "" {
      JoinOfPieces(s, d);
      TrailingEmptyPiece(s, d);
      JoinDropsTrailing(Pieces(s, d), d);
    }
  }

  // ---------- split_isspace ----------

  function FirstSpace(s: string): (k: nat)
    ensures k <= |s| && (k < |s| ==> IsSpace(s[k]))
    ensures forall i :: 0 <= i < k ==> !IsSpace(s[i])
  {
    if s == "" || IsSpace(s[0]) then 0 else 1 + FirstSpace(s[1..])
  }

  /** The maximal runs of characters that are not white space, in order. */
  function Words(s: string): seq<string>
    decreases |s|
  {
    var k := FirstSpace(s);
    (if k == 0 then [] else [s[..k]]) + if k < |s| then Words(s[k + 1..]) else []
  }

  lemma WordsStep(s: string, k: nat)
    requires s != "" && k == FirstSpace(s)
    ensures k == |s| ==> Words(s) == [s]
    ensures k == 0 ==> Words(s) == Words(s[1..])
    ensures 0 < k < |s| ==> Words(s) == [s[..k]] + Words(s[k + 1..])
  {
    if k == |s| {
      assert s[..k] == s;
    }
  }

  method SplitIsspace(text: string) returns (result: seq<string>)
    ensures result == Words(text)
  {
    assert Words("") == [];
    hide Words;
    var str := text;
    result := [];
    while str != ""
      invariant result + Words(str) == Words(text)
      decreases |str|
    {
      var index := FirstSpace(str);
      WordsStep(str, index);
      if index != |str| {
        var tok := str[..index];
        if tok != "" {
          Assoc(result, [tok], Words(str[index + 1..]));
          result := result + [tok];
        }
        str := str[index + 1..];
      } else {
        result := result + [str];
        str := "";
      }
    }
  }

  predicate IsWord(w: string) {
    w != "" && forall i :: 0 <= i < |w| ==> !IsSpace(w[i])
  }

  lemma {:induction false} WordsAreWords(s: string)
    ensures forall i :: 0 <= i < |Words(s)| ==> IsWord(Words(s)[i])
    decreases |s|
  {
    var k := FirstSpace(s);
    if k < |s| {
      WordsAreWords(s[k + 1..]);
    }
  }

  lemma WordsOfBlank(c: char, s: string)
    requires IsSpace(c)
    ensures Words([c] + s) == Words(s)
  {
    assert ([c] + s)[1..] == s;
  }

  lemma FirstSpaceBehind(w: string, s: string)
    requires forall i :: 0 <= i < |w| ==> !IsSpace(w[i])
    requires s == "" || IsSpace(s[0])
    ensures FirstSpace(w + s) == |w|
  {
    assert forall i :: 0 <= i < |w| ==> (w + s)[i] == w[i];
    assert s != "" ==> (w + s)[|w|] == s[0];
  }

  /** A word in front of white space is the first word. */
  lemma WordsOfWord(w: string, s: string)
    requires IsWord(w) && (s == "" || IsSpace(s[0]))
    ensures Words(w + s) == [w] + Words(s)
  {
    FirstSpaceBehind(w, s);
    assert (w + s)[..|w|] == w;
    if s != "" {
      assert (w + s)[|w| + 1..] == s[1..];
      WordsOfBlank(s[0], s[1..]);
      assert [s[0]] + s[1..] == s;
    }
  }
}
