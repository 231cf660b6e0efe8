/** `parse_unexposed_template_params` (src/common/clang_utils.cc). */
module TemplateParams {
  import opened Strings

  type Resolver = string -> string

  /**
   * A template argument with its own arguments, or an object that was moved from:
   * the program does not empty `nested_params` when it moves its elements.
   */
  datatype Param = Argument(typename: string, params: seq<Param>) | Moved

  const TYPENAME := "typename "

  /** `trim_typename` of src/util/util.cc. */
  function TrimTypename(s: string): string {
    var t := Trim(s);
    if |TYPENAME| <= |t| && t[..|TYPENAME|] == TYPENAME then t[|TYPENAME|..] else t
  }

  /** The argument that is complete when `text` was collected. */
  function Complete(text: string, nested: seq<Param>, resolve: Resolver): Param {
    Argument(resolve(TrimTypename(text)), nested)
  }

  function MovedFrom(nested: seq<Param>): seq<Param> {
    seq(|nested|, i => Moved)
  }

  /** How far the bracket that was just opened reaches: to its closing one, or to the end. */
  function MatchEnd(s: string, level: nat): (k: nat)
    ensures k <= |s|
  {
    if s == "" then 0
    else if s[0] == '<' then 1 + MatchEnd(s[1..], level + 1)
    else if s[0] != '>' then 1 + MatchEnd(s[1..], level)
    else if level > 0 then 1 + MatchEnd(s[1..], level - 1)
    else 0
  }

  /** What the loop appends, with `text` collected so far and `nested` from the last bracket. */
  function Scan(s: string, text: string, nested: seq<Param>, depth: nat, resolve: Resolver): seq<Param>
    decreases |s|, 0
  {
    if s == "" || (s[0] == '>' && depth == 0) then
      if text == "" then [] else [Complete(text, nested, resolve)]
    else if s[0] == '<' then
      var k := MatchEnd(s[1..], 0);
      Scan(s[1..][k..], text, NestedIn(s[1..][..k], depth, resolve), depth, resolve)
    else if s[0] == '>' || s[0] == ',' then
      [Complete(text, nested, resolve)] + Scan(s[1..], "", MovedFrom(nested), depth, resolve)
    else Scan(s[1..], text + [s[0]], nested, depth, resolve)
  }

  /** The arguments between two brackets, or the text as it is when it holds none. */
  function NestedIn(inner: string, depth: nat, resolve: Resolver): seq<Param>
    decreases |inner|, 2
  {
    var nested := ParseOf(inner, depth + 1, resolve);
    if nested == [] then [Argument(inner, [])] else nested
  }

  function ParseOf(params: string, depth: nat, resolve: Resolver): seq<Param>
    decreases |params|, 1
  {
    Scan(LTrim(params), "", [], depth, resolve)
  }

  // ---------- The loops ----------

  /** The scan for the closing bracket. */
  method FindMatch(params: string, begin: nat) returns (end: nat)
    requires begin <= |params|
    ensures begin <= end <= |params|
    ensures end == begin + MatchEnd(params[begin..], 0)
  {
    var level: nat := 0;
    end := begin;
    while end != |params|
      invariant begin <= end <= |params|
      invariant begin + MatchEnd(params[begin..], 0) == end + MatchEnd(params[end..], level)
      decreases |params| - end
    {
      assert params[end..][1..] == params[end + 1..];
      if params[end] == '<' {
        level := level + 1;
      } else if params[end] == '>' {
        if level > 0 {
          level := level - 1;
        } else {
          return;
        }
      }
      end := end + 1;
    }
  }

  /** `res` holds the first arguments, and the others come from `left`. */
  ghost predicate ParsedSoFar(res: seq<Param>, left: string, text: string, nested: seq<Param>,
                              goal: seq<Param>, depth: nat, resolve: Resolver) {
    res + Scan(left, text, nested, depth, resolve) == goal
  }

  lemma TurnEnds(res: seq<Param>, left: string, text: string, nested: seq<Param>, goal: seq<Param>, depth: nat, resolve: Resolver)
    requires ParsedSoFar(res, left, text, nested, goal, depth, resolve)
    requires left == "" || (left[0] == '>' && depth == 0)
    ensures goal == if text == "" then res else res + [Complete(text, nested, resolve)]
  {
    hide Complete;
    assert res + [] == res;
  }

  lemma TurnCompletes(res: seq<Param>, left: string, text: string, nested: seq<Param>, goal: seq<Param>, depth: nat, resolve: Resolver)
    requires ParsedSoFar(res, left, text, nested, goal, depth, resolve)
    requires left != "" && (left[0] == ',' || (left[0] == '>' && depth > 0))
    ensures ParsedSoFar(res + [Complete(text, nested, resolve)], left[1..], "", MovedFrom(nested), goal, depth, resolve)
  {
    hide Complete, MovedFrom;
    Assoc(res, [Complete(text, nested, resolve)], Scan(left[1..], "", MovedFrom(nested), depth, resolve));
  }

  lemma TurnNests(res: seq<Param>, left: string, text: string, nested: seq<Param>, goal: seq<Param>, depth: nat, resolve: Resolver, k: nat)
    requires ParsedSoFar(res, left, text, nested, goal, depth, resolve)
    requires left != "" && left[0] == '<' && k == MatchEnd(left[1..], 0)
    ensures ParsedSoFar(res, left[1..][k..], text, NestedIn(left[1..][..k], depth, resolve), goal, depth, resolve)
  {
    hide NestedIn, MatchEnd;
  }

  lemma TurnCollects(res: seq<Param>, left: string, text: string, nested: seq<Param>, goal: seq<Param>, depth: nat, resolve: Resolver)
    requires ParsedSoFar(res, left, text, nested, goal, depth, resolve)
    requires left != "" && left[0] != '<' && left[0] != '>' && left[0] != ','
    ensures ParsedSoFar(res, left[1..], text + [left[0]], nested, goal, depth, resolve)
  {
  }

  lemma ParseStarts(params: string, start: nat, depth: nat, resolve: Resolver)
    requires start <= |params| && LTrim(params) == params[start..]
    ensures ParsedSoFar([], params[start..], "", [], ParseOf(params, depth, resolve), depth, resolve)
  {
    hide Scan, LTrim;
    var r := Scan(params[start..], "", [], depth, resolve);
    assert [] + r == r;
  }

  method SkipSpaces(params: string) returns (it: nat)
    ensures it <= |params| && LTrim(params) == params[it..]
  {
    it := 0;
    assert params[0..] == params;
    while it < |params| && IsSpace(params[it])
      invariant it <= |params| && LTrim(params) == LTrim(params[it..])
    {
      assert params[it..][1..] == params[it + 1..];
      it := it + 1;
    }
  }

  lemma Slices(s: string, it: nat, k: nat)
    requires it < |s| && k <= |s| - it - 1
    ensures s[it..][0] == s[it] && s[it..][1..] == s[it + 1..]
    ensures s[it + 1..][k..] == s[it + 1 + k..] && s[it + 1..][..k] == s[it + 1..it + 1 + k]
  {
  }

  /** `parse_unexposed_template_params`. */
  method ParseUnexposedTemplateParams(params: string, resolve: Resolver, depth: nat) returns (res: seq<Param>)
    ensures res == ParseOf(params, depth, resolve)
    decreases |params|
  {
    hide ParsedSoFar, Scan, NestedIn, ParseOf, LTrim, MatchEnd, Complete, MovedFrom;
    res := [];
    var it := SkipSpaces(params);
    var text, nestedParams: seq<Param> := "", [];
    ghost var goal := ParseOf(params, depth, resolve);
    ParseStarts(params, it, depth, resolve);
    while it != |params|
      invariant it <= |params|
      invariant ParsedSoFar(res, params[it..], text, nestedParams, goal, depth, resolve)
      decreases |params| - it
    {
      Slices(params, it, 0);
      var completeArgument := false;
      if params[it] == '<' {
        var begin := it + 1;
        var end := FindMatch(params, begin);
        Slices(params, it, end - begin);
        TurnNests(res, params[it..], text, nestedParams, goal, depth, resolve, end - begin);
        var nestedText := params[begin..end];
        nestedParams := ParseUnexposedTemplateParams(nestedText, resolve, depth + 1);
        NestedInIs(nestedText, depth, resolve);
        if nestedParams == [] {
          nestedParams := [Argument(nestedText, [])];
        }
        it := end - 1;
      } else if params[it] == '>' {
        completeArgument := true;
        if depth == 0 {
          break;
        }
        TurnCompletes(res, params[it..], text, nestedParams, goal, depth, resolve);
      } else if params[it] == ',' {
        completeArgument := true;
        TurnCompletes(res, params[it..], text, nestedParams, goal, depth, resolve);
      } else {
        TurnCollects(res, params[it..], text, nestedParams, goal, depth, resolve);
        text := text + [params[it]];
      }
      if completeArgument {
        res := res + [Complete(text, nestedParams, resolve)];
        text := "";
        nestedParams := MovedFrom(nestedParams);
      }
      it := it + 1;
    }
    TurnEnds(res, params[it..], text, nestedParams, goal, depth, resolve);
    if text != "" {
      res := res + [Complete(text, nestedParams, resolve)];
    }
  }

  lemma NestedInIs(inner: string, depth: nat, resolve: Resolver)
    ensures ParseOf(inner, depth + 1, resolve) == [] ==> NestedIn(inner, depth, resolve) == [Argument(inner, [])]
    ensures ParseOf(inner, depth + 1, resolve) != [] ==> NestedIn(inner, depth, resolve) == ParseOf(inner, depth + 1, resolve)
  {
    hide ParseOf;
  }

  // ---------- Argument lists as they are written ----------

  /** A list of arguments: the first one's name and own arguments, and the other ones. */
  datatype Args = End | Arg(name: string, args: Args, others: Args)

  /** The list as text in front of `tail`: commas between arguments, brackets around an argument's own ones. */
  function Print(f: Args, tail: string): string
    decreases f, 1
  {
    match f
    case End => tail
    case Arg(name, args, others) =>
      name + if args.End? then PrintOthers(others, tail) else "<" + Print(args, ">" + PrintOthers(others, tail))
  }

  function PrintOthers(f: Args, tail: string): string
    decreases f, 2
  {
    if f.End? then tail else "," + Print(f, tail)
  }

  predicate Delimiter(c: char) {
    c == '<' || c == '>' || c == ','
  }

  predicate WellFormedName(name: string) {
    Trim(name) != "" && forall i :: 0 <= i < |name| ==> !Delimiter(name[i])
  }

  predicate WellFormed(f: Args) {
    f.End? || (WellFormedName(f.name) && WellFormed(f.args) && WellFormed(f.others))
  }

  /** What a reader expects: the tree, with the name of every node trimmed and resolved. */
  function Resolved(f: Args, resolve: Resolver): seq<Param> {
    if f.End? then [] else [Complete(f.name, Resolved(f.args, resolve), resolve)] + Resolved(f.others, resolve)
  }

  /** Only the last argument of each list has arguments of its own. */
  predicate OnlyLastNested(f: Args) {
    f.End? || ((f.args.End? || f.others.End?) && OnlyLastNested(f.args) && OnlyLastNested(f.others))
  }

  /**
   * What the program makes of a list. `stale` is left from an earlier argument.
   * Outside of all brackets the first closing bracket ends the list; inside, it
   * completes an argument, and the comma behind it another one without a name.
   */
  function Read(f: Args, stale: seq<Param>, depth: nat, resolve: Resolver): seq<Param> {
    if f.End? then []
    else if f.args.End? then [Complete(f.name, stale, resolve)] + Read(f.others, MovedFrom(stale), depth, resolve)
    else
      var nested := Read(f.args, [], depth + 1, resolve);
      if depth == 0 || f.others.End? then [Complete(f.name, nested, resolve)]
      else
        [Complete(f.name, nested, resolve), Complete("", MovedFrom(nested), resolve)]
        + Read(f.others, MovedFrom(nested), depth, resolve)
  }

  // ---------- Scanning printed lists ----------

  lemma {:induction false} PrintTail(f: Args, a: string, b: string)
    ensures Print(f, a + b) == Print(f, a) + b
    ensures PrintOthers(f, a + b) == PrintOthers(f, a) + b
  {
    if f.Arg? {
      PrintTail(f.others, a, b);
      if f.args.End? {
        Assoc(f.name, PrintOthers(f.others, a), b);
      } else {
        Assoc(">", PrintOthers(f.others, a), b);
        PrintTail(f.args, ">" + PrintOthers(f.others, a), b);
        var inner := Print(f.args, ">" + PrintOthers(f.others, a));
        Assoc("<", inner, b);
        Assoc(f.name, "<" + inner, b);
      }
      Assoc(",", Print(f, a), b);
    }
  }

  lemma {:induction false} MatchName(name: string, rest: string, level: nat)
    requires forall i :: 0 <= i < |name| ==> !Delimiter(name[i])
    ensures MatchEnd(name + rest, level) == |name| + MatchEnd(rest, level)
  {
    if name == "" {
      assert name + rest == rest;
    } else {
      assert (name + rest)[1..] == name[1..] + rest;
      MatchName(name[1..], rest, level);
    }
  }

  lemma MatchChar(c: char, rest: string, level: nat)
    ensures c == '<' ==> MatchEnd([c] + rest, level) == 1 + MatchEnd(rest, level + 1)
    ensures c == '>' && level > 0 ==> MatchEnd([c] + rest, level) == 1 + MatchEnd(rest, level - 1)
    ensures c == ',' ==> MatchEnd([c] + rest, level) == 1 + MatchEnd(rest, level)
  {
    assert ([c] + rest)[1..] == rest;
  }

  /** A printed list opens and closes its brackets in pairs. */
  lemma {:induction false} MatchPrinted(f: Args, tail: string, level: nat)
    requires WellFormed(f)
    ensures MatchEnd(Print(f, tail), level) == |Print(f, tail)| - |tail| + MatchEnd(tail, level)
    ensures MatchEnd(PrintOthers(f, tail), level) == |PrintOthers(f, tail)| - |tail| + MatchEnd(tail, level)
    decreases f
  {
    hide MatchEnd, Trim;
    if f.Arg? {
      MatchPrinted(f.others, tail, level);
      var behind := PrintOthers(f.others, tail);
      if f.args.End? {
        MatchName(f.name, behind, level);
      } else {
        var inner := Print(f.args, ">" + behind);
        MatchName(f.name, "<" + inner, level);
        MatchChar('<', inner, level);
        MatchPrinted(f.args, ">" + behind, level + 1);
        MatchChar('>', behind, level + 1);
      }
      MatchChar(',', Print(f, tail), level);
    }
  }

  /** The bracket that is opened in front of a printed list is closed behind it. */
  lemma {:induction false} BracketsMatch(f: Args, behind: string)
    requires WellFormed(f)
    ensures var s := Print(f, ">" + behind); var k := MatchEnd(s, 0);
      k == |Print(f, "")| && s[..k] == Print(f, "") && s[k..] == ">" + behind
  {
    MatchPrinted(f, ">" + behind, 0);
    assert "" + (">" + behind) == ">" + behind;
    PrintTail(f, "", ">" + behind);
    assert MatchEnd(">" + behind, 0) == 0;
  }

  lemma {:induction false} ScanName(name: string, rest: string, text: string, nested: seq<Param>, depth: nat, resolve: Resolver)
    requires forall i :: 0 <= i < |name| ==> !Delimiter(name[i])
    ensures Scan(name + rest, text, nested, depth, resolve) == Scan(rest, text + name, nested, depth, resolve)
    decreases |name|
  {
    hide NestedIn, MatchEnd, Complete, MovedFrom;
    if name == "" {
      assert name + rest == rest && text + name == text;
    } else {
      assert (name + rest)[1..] == name[1..] + rest;
      Assoc(text, [name[0]], name[1..]);
      assert [name[0]] + name[1..] == name;
      ScanName(name[1..], rest, text + [name[0]], nested, depth, resolve);
    }
  }

  /** Where a list may stop: at the end, or outside of all brackets at a closing one. */
  predicate Stops(tail: string, depth: nat) {
    tail == "" || (depth == 0 && tail[0] == '>')
  }

  lemma ScanStops(tail: string, text: string, nested: seq<Param>, depth: nat, resolve: Resolver)
    requires Stops(tail, depth)
    ensures Scan(tail, text, nested, depth, resolve) == if text == "" then [] else [Complete(text, nested, resolve)]
  {
    hide NestedIn, MatchEnd, Complete, MovedFrom;
  }

  lemma ScanCompletes(c: char, rest: string, text: string, nested: seq<Param>, depth: nat, resolve: Resolver)
    requires c == ',' || (c == '>' && depth > 0)
    ensures Scan([c] + rest, text, nested, depth, resolve) ==
            [Complete(text, nested, resolve)] + Scan(rest, "", MovedFrom(nested), depth, resolve)
  {
    hide NestedIn, MatchEnd, Complete, MovedFrom;
    assert ([c] + rest)[1..] == rest;
  }

  lemma ScanNests(f: Args, behind: string, text: string, nested: seq<Param>, depth: nat, resolve: Resolver)
    requires WellFormed(f)
    ensures Scan("<" + Print(f, ">" + behind), text, nested, depth, resolve) ==
            Scan(">" + behind, text, NestedIn(Print(f, ""), depth, resolve), depth, resolve)
  {
    hide NestedIn, MatchEnd, Complete, MovedFrom, Print, WellFormed;
    var s := Print(f, ">" + behind);
    BracketsMatch(f, behind);
    assert ("<" + s)[1..] == s;
  }

  function Size(f: Args): nat {
    if f.End? then 0 else 1 + Size(f.args) + Size(f.others)
  }

  lemma MovedTwice(nested: seq<Param>)
    ensures MovedFrom(MovedFrom(nested)) == MovedFrom(nested)
    ensures MovedFrom([]) == []
  {
  }

  /** A list, behind which the scan stops, is read as `Read` says. */
  lemma {:induction false} ScanPrinted(f: Args, tail: string, stale: seq<Param>, depth: nat, resolve: Resolver)
    requires WellFormed(f) && f.Arg? && Stops(tail, depth)
    ensures Scan(Print(f, tail), "", stale, depth, resolve) == Read(f, stale, depth, resolve)
    decreases Size(f), 1
  {
    hide *;
    if f.args.End? {
      ScanLeaf(f, tail, stale, depth, resolve);
    } else {
      ScanTemplate(f, tail, stale, depth, resolve);
    }
  }

  lemma NameOfWellFormed(f: Args)
    requires WellFormed(f) && f.Arg?
    ensures f.name != "" && forall i :: 0 <= i < |f.name| ==> !Delimiter(f.name[i])
    ensures WellFormed(f.args) && WellFormed(f.others)
  {
  }

  lemma {:induction false} ScanLeaf(f: Args, tail: string, stale: seq<Param>, depth: nat, resolve: Resolver)
    requires WellFormed(f) && f.Arg? && f.args.End? && Stops(tail, depth)
    ensures Scan(Print(f, tail), "", stale, depth, resolve) == Read(f, stale, depth, resolve)
    decreases Size(f), 0
  {
    hide Scan, WellFormed, Delimiter, Complete, MovedFrom, Stops;
    NameOfWellFormed(f);
    var rest := PrintOthers(f.others, tail);
    ScanName(f.name, rest, "", stale, depth, resolve);
    assert "" + f.name == f.name;
    if f.others.End? {
      ScanStops(tail, f.name, stale, depth, resolve);
      assert Read(f.others, MovedFrom(stale), depth, resolve) == [];
    } else {
      ScanCompletes(',', Print(f.others, tail), f.name, stale, depth, resolve);
      NameOfWellFormed(f.others);
      ScanPrinted(f.others, tail, MovedFrom(stale), depth, resolve);
    }
  }

  lemma {:induction false} ScanTemplate(f: Args, tail: string, stale: seq<Param>, depth: nat, resolve: Resolver)
    requires WellFormed(f) && f.Arg? && f.args.Arg? && Stops(tail, depth)
    ensures Scan(Print(f, tail), "", stale, depth, resolve) == Read(f, stale, depth, resolve)
    decreases Size(f), 0
  {
    hide Scan, WellFormed, Delimiter, Complete, MovedFrom, NestedIn;
    NameOfWellFormed(f);
    var behind := PrintOthers(f.others, tail);
    ScanName(f.name, "<" + Print(f.args, ">" + behind), "", stale, depth, resolve);
    assert "" + f.name == f.name;
    ScanNests(f.args, behind, f.name, stale, depth, resolve);
    ParseArgs(f.args, "", depth + 1, resolve);
    NestedInIs(Print(f.args, ""), depth, resolve);
    var nested := Read(f.args, [], depth + 1, resolve);
    if depth == 0 {
      ScanStops(">" + behind, f.name, nested, depth, resolve);
    } else {
      ScanCompletes('>', behind, f.name, nested, depth, resolve);
      if f.others.End? {
        ScanStops(behind, "", MovedFrom(nested), depth, resolve);
      } else {
        ScanCompletes(',', Print(f.others, tail), "", MovedFrom(nested), depth, resolve);
        MovedTwice(nested);
        NameOfWellFormed(f.others);
        ScanPrinted(f.others, tail, MovedFrom(nested), depth, resolve);
        Assoc([Complete(f.name, nested, resolve)], [Complete("", MovedFrom(nested), resolve)],
              Read(f.others, MovedFrom(nested), depth, resolve));
      }
    }
  }

  lemma TrimOfLTrim(s: string)
    ensures Trim(LTrim(s)) == Trim(s)
  {
    hide LTrim, Trim;
    var before := LTrimPart(s);
    var rest := LTrim(s);
    TrimAround(before, rest, "");
    assert before + rest + "" == s;
  }

  lemma LTrimKeepsOut(s: string)
    requires forall i :: 0 <= i < |s| ==> !Delimiter(s[i])
    ensures forall i :: 0 <= i < |LTrim(s)| ==> !Delimiter(LTrim(s)[i])
  {
    hide LTrim, Delimiter;
    var before := LTrimPart(s);
    var rest := LTrim(s);
    assert forall i :: 0 <= i < |rest| ==> rest[i] == s[|before| + i];
  }

  /** A name without the white space in front of it is as good as the name. */
  lemma LTrimName(name: string)
    requires WellFormedName(name)
    ensures LTrim(name) != "" && WellFormedName(LTrim(name))
    ensures Trim(LTrim(name)) == Trim(name)
  {
    assert Trim("") == "";
    hide LTrim, Trim, Delimiter;
    TrimOfLTrim(name);
    LTrimKeepsOut(name);
  }

  /** The list without the white space in front of it. */
  lemma LTrimPrint(f: Args, tail: string)
    requires WellFormed(f) && f.Arg?
    ensures LTrim(f.name) != "" && WellFormed(f.(name := LTrim(f.name)))
    ensures LTrim(Print(f, tail)) == Print(f.(name := LTrim(f.name)), tail)
    ensures TrimTypename(LTrim(f.name)) == TrimTypename(f.name)
  {
    hide LTrim, RTrim, Trim, Print, PrintOthers, WellFormedName;
    LTrimName(f.name);
    var before := LTrimPart(f.name);
    var name := LTrim(f.name);
    var rest := Print(f.(name := ""), tail);
    PrintName(f, tail, rest);
    PrintName(f.(name := name), tail, rest);
    LTrimIs(before, name + rest);
    Assoc(before, name, rest);
  }

  lemma PrintName(f: Args, tail: string, rest: string)
    requires f.Arg? && rest == Print(f.(name := ""), tail)
    ensures Print(f, tail) == f.name + rest
  {
  }

  lemma {:induction false} ParseArgs(f: Args, tail: string, depth: nat, resolve: Resolver)
    requires WellFormed(f) && f.Arg? && Stops(tail, depth)
    ensures ParseOf(Print(f, tail), depth, resolve) == Read(f, [], depth, resolve)
    ensures Read(f, [], depth, resolve) != []
    decreases Size(f), 2
  {
    hide Scan, WellFormed, LTrim, TrimTypename, Print;
    LTrimPrint(f, tail);
    ScanPrinted(f.(name := LTrim(f.name)), tail, [], depth, resolve);
  }

  // ---------- When the tree comes back ----------

  function Count(f: Args): nat {
    if f.End? then 0 else 1 + Count(f.others)
  }

  lemma {:induction false} ReadCounts(f: Args, stale: seq<Param>, depth: nat, resolve: Resolver)
    ensures |Resolved(f, resolve)| == Count(f)
    ensures depth > 0 ==> |Read(f, stale, depth, resolve)| >= Count(f)
    decreases f
  {
    hide Complete;
    if f.Arg? {
      ReadCounts(f.others, MovedFrom(stale), depth, resolve);
      ReadCounts(f.others, MovedFrom(Read(f.args, [], depth + 1, resolve)), depth, resolve);
    }
  }

  lemma CompleteIs(a: string, n: seq<Param>, b: string, m: seq<Param>, resolve: Resolver)
    ensures Complete(a, n, resolve) == Complete(b, m, resolve) ==> n == m
  {
  }

  /** The tree is read as expected exactly when only last arguments are nested. */
  lemma {:induction false} ReadIsResolvedIff(f: Args, depth: nat, resolve: Resolver)
    ensures Read(f, [], depth, resolve) == Resolved(f, resolve) <==> OnlyLastNested(f)
    decreases f
  {
    hide Complete;
    if f.Arg? {
      MovedTwice([]);
      ReadIsResolvedIff(f.others, depth, resolve);
      ReadIsResolvedIff(f.args, depth + 1, resolve);
      var read, expected := Read(f, [], depth, resolve), Resolved(f, resolve);
      if f.args.End? {
        assert Resolved(f.args, resolve) == [];
        assert read[1..] == Read(f.others, [], depth, resolve) && expected[1..] == Resolved(f.others, resolve);
      } else if f.others.End? {
        assert Resolved(f.others, resolve) == [];
        CompleteIs(f.name, Read(f.args, [], depth + 1, resolve), f.name, Resolved(f.args, resolve), resolve);
        assert read[0] == Complete(f.name, Read(f.args, [], depth + 1, resolve), resolve);
        assert expected[0] == Complete(f.name, Resolved(f.args, resolve), resolve);
      } else {
        ReadCounts(f.others, MovedFrom(Read(f.args, [], depth + 1, resolve)), depth, resolve);
      }
    }
  }

  // ---------- Trees as they are written and as they are expected ----------

  /** A name as it may be written: white space, perhaps the word `typename`, the name proper, white space. */
  datatype Name = Name(before: string, prefixed: bool, core: string, after: string) {
    function Text(): string {
      before + (if prefixed then "typename " + core else core) + after
    }

    predicate WellWritten() {
      && AllSpace(before) && AllSpace(after)
      && core != "" && !IsSpace(core[|core| - 1])
      && (!prefixed ==> !IsSpace(core[0]) && !("typename " <= core))
      && (forall i :: 0 <= i < |core| ==> core[i] != '<' && core[i] != '>' && core[i] != ',')
    }
  }

  /** A list of template arguments: the first one with its own arguments, and the other ones. */
  datatype Tree = NoArguments | Node(name: Name, args: Tree, others: Tree)

  predicate WellWritten(t: Tree) {
    t.Node? ==> t.name.WellWritten() && WellWritten(t.args) && WellWritten(t.others)
  }

  function Written(t: Tree): Args {
    match t
    case NoArguments => End
    case Node(name, args, others) => Arg(name.Text(), Written(args), Written(others))
  }

  /** What a reader expects: the tree, each name without `typename` and white space, and resolved. */
  function Expected(t: Tree, resolve: Resolver): seq<Param> {
    match t
    case NoArguments => []
    case Node(name, args, others) =>
      [Argument(resolve(name.core), Expected(args, resolve))] + Expected(others, resolve)
  }

  /** Only the last argument of each list has arguments of its own. */
  predicate LastNestedOnly(t: Tree) {
    t.Node? ==> (t.args.NoArguments? || t.others.NoArguments?) && LastNestedOnly(t.args) && LastNestedOnly(t.others)
  }

  /** Objects that are left without content. */
  function Emptied(n: nat): (r: seq<Param>)
    ensures |r| == n && forall i :: 0 <= i < n ==> r[i] == Moved
  {
    seq(n, i => Moved)
  }

  /**
   * What the program makes of the tree. `stale` counts the objects left from an earlier argument,
   * which are empty. Outside of all brackets the first closing bracket ends the list; inside,
   * it completes an argument, and the comma behind it another one without a name.
   */
  function Obtained(t: Tree, stale: nat, depth: nat, resolve: Resolver): seq<Param> {
    match t
    case NoArguments => []
    case Node(name, args, others) =>
      if args.NoArguments? then
        [Argument(resolve(name.core), Emptied(stale))] + Obtained(others, stale, depth, resolve)
      else
        var nested := Obtained(args, 0, depth + 1, resolve);
        if depth == 0 || others.NoArguments? then [Argument(resolve(name.core), nested)]
        else
          [Argument(resolve(name.core), nested), Argument(resolve(""), Emptied(|nested|))]
          + Obtained(others, |nested|, depth, resolve)
  }

  lemma StripPrefix(core: string)
    requires core != "" && !IsSpace(core[|core| - 1])
    ensures Trimmed("typename " + core)
    ensures TYPENAME <= "typename " + core && ("typename " + core)[|TYPENAME|..] == core
  {
    var inner := "typename " + core;
    assert inner[|inner| - 1] == core[|core| - 1];
    assert inner[..9] == "typename ";
  }

  lemma StripNothing(core: string)
    ensures |TYPENAME| <= |core| && core[..|TYPENAME|] == TYPENAME ==> "typename " <= core
  {
  }

  lemma TypenameIsStripped(n: Name)
    requires n.WellWritten()
    ensures TrimTypename(n.Text()) == n.core && WellFormedName(n.Text())
  {
    hide Trim, Delimiter;
    if n.prefixed {
      StripPrefix(n.core);
      TrimIs(n.before, "typename " + n.core, n.after);
    } else {
      StripNothing(n.core);
      TrimIs(n.before, n.core, n.after);
    }
    CleanText(n);
  }

  lemma CleanText(n: Name)
    requires n.WellWritten()
    ensures forall i :: 0 <= i < |n.Text()| ==> !Delimiter(n.Text()[i])
  {
    var inner := if n.prefixed then "typename " + n.core else n.core;
    assert forall i :: 0 <= i < |inner| ==> !Delimiter(inner[i]) by {
      if n.prefixed {
        assert forall i :: 0 <= i < 9 ==> !Delimiter("typename "[i]);
      }
    }
    assert forall i :: 0 <= i < |n.before| ==> IsSpace(n.before[i]);
    assert forall i :: 0 <= i < |n.after| ==> IsSpace(n.after[i]);
  }

  /** Any name without delimiters is written in this way. */
  lemma EveryNameIsWritten(name: string) returns (n: Name)
    requires WellFormedName(name)
    ensures n.WellWritten() && n.Text() == name
  {
    var before, after := TrimParts(name);
    var inner := Trim(name);
    hide Trim;
    assert forall i :: 0 <= i < |inner| ==> inner[i] == name[|before| + i];
    if "typename " <= inner {
      n := Name(before, true, inner[9..], after);
      assert inner == "typename " + n.core;
      assert IsSpace(inner[8]);
      assert forall i :: 0 <= i < |n.core| ==> n.core[i] == inner[9 + i];
    } else {
      n := Name(before, false, inner, after);
    }
  }

  lemma NamelessIs(nested: seq<Param>, resolve: Resolver)
    ensures Complete("", nested, resolve) == Argument(resolve(""), nested)
  {
    assert Trim("") == "";
  }

  lemma CompleteIsArgument(n: Name, nested: seq<Param>, resolve: Resolver)
    requires n.WellWritten()
    ensures Complete(n.Text(), nested, resolve) == Argument(resolve(n.core), nested)
  {
    TypenameIsStripped(n);
  }

  lemma {:induction false} WrittenIsWellFormed(t: Tree)
    requires WellWritten(t)
    ensures WellFormed(Written(t))
    ensures OnlyLastNested(Written(t)) <==> LastNestedOnly(t)
  {
    hide WellFormedName;
    if t.Node? {
      TypenameIsStripped(t.name);
      WrittenIsWellFormed(t.args);
      WrittenIsWellFormed(t.others);
    }
  }

  lemma {:induction false} ExpectedIsResolved(t: Tree, resolve: Resolver)
    requires WellWritten(t)
    ensures Expected(t, resolve) == Resolved(Written(t), resolve)
  {
    hide Complete;
    if t.Node? {
      ExpectedIsResolved(t.args, resolve);
      ExpectedIsResolved(t.others, resolve);
      CompleteIsArgument(t.name, Expected(t.args, resolve), resolve);
    }
  }

  lemma {:induction false} ObtainedIsRead(t: Tree, stale: nat, depth: nat, resolve: Resolver)
    requires WellWritten(t)
    ensures Obtained(t, stale, depth, resolve) == Read(Written(t), Emptied(stale), depth, resolve)
    decreases t
  {
    hide Complete;
    if t.Node? {
      var left := Emptied(stale);
      assert MovedFrom(left) == left;
      if t.args.NoArguments? {
        CompleteIsArgument(t.name, left, resolve);
        ObtainedIsRead(t.others, stale, depth, resolve);
      } else {
        assert Emptied(0) == [];
        ObtainedIsRead(t.args, 0, depth + 1, resolve);
        var nested := Obtained(t.args, 0, depth + 1, resolve);
        CompleteIsArgument(t.name, nested, resolve);
        NamelessIs(MovedFrom(nested), resolve);
        ObtainedIsRead(t.others, |nested|, depth, resolve);
      }
    }
  }

  /** Any printed tree is parsed to what `Obtained` says; behind it a closing bracket and any text may follow outside of all brackets. */
  lemma {:induction false} ParsePrinted(t: Tree, tail: string, depth: nat, resolve: Resolver)
    requires WellWritten(t) && t.Node? && Stops(tail, depth)
    ensures ParseOf(Print(Written(t), tail), depth, resolve) == Obtained(t, 0, depth, resolve)
  {
    hide ParseOf, Obtained, Print, Read, Stops;
    WrittenIsWellFormed(t);
    ParseArgs(Written(t), tail, depth, resolve);
    ObtainedIsRead(t, 0, depth, resolve);
    assert Emptied(0) == [];
  }

  /** What the program makes of a tree is what a reader expects exactly when only last arguments are nested. */
  lemma {:induction false} ObtainedIsExpectedIff(t: Tree, depth: nat, resolve: Resolver)
    requires WellWritten(t)
    ensures Obtained(t, 0, depth, resolve) == Expected(t, resolve) <==> LastNestedOnly(t)
  {
    hide Obtained, Expected, Read, Resolved, Written, WellWritten, OnlyLastNested, LastNestedOnly;
    WrittenIsWellFormed(t);
    ObtainedIsRead(t, 0, depth, resolve);
    assert Emptied(0) == [];
    ExpectedIsResolved(t, resolve);
    ReadIsResolvedIff(Written(t), depth, resolve);
  }

  /**
   * The round trip: whatever the resolver, a printed list is parsed to the expected tree
   * exactly when only the last argument of each list is nested.
   */
  lemma {:induction false} RoundTrip(t: Tree, tail: string, depth: nat, resolve: Resolver)
    requires WellWritten(t) && t.Node? && Stops(tail, depth)
    ensures ParseOf(Print(Written(t), tail), depth, resolve) == Expected(t, resolve) <==> LastNestedOnly(t)
  {
    hide *;
    ParsePrinted(t, tail, depth, resolve);
    ObtainedIsExpectedIff(t, depth, resolve);
  }

  // ---------- Inputs ----------

  function Plain(core: string): Name {
    Name("", false, core, "")
  }

  /** `A<B>,C`: the arguments behind the first nested one are lost. */
  lemma {:induction false} LaterArgumentsAreLost(resolve: Resolver)
    ensures ParseOf("A" + "<B>,C", 0, resolve) == [Argument(resolve("A"), [Argument(resolve("B"), [])])]
  {
    var b, c := Node(Plain("B"), NoArguments, NoArguments), Node(Plain("C"), NoArguments, NoArguments);
    var t := Node(Plain("A"), b, c);
    ParsePrinted(t, "", 0, resolve);
    PlainText("A");
    PlainText("B");
    PlainText("C");
    assert Print(Written(t), "") == "A" + "<B>,C";
    LeafIs("B", 0, 1, resolve);
    assert Emptied(0) == [];
  }

  lemma PlainText(core: string)
    ensures Plain(core).Text() == core
  {
  }

  /** `B<C>,D` in brackets: a nameless argument comes in between, and the last one gets an empty object of its own. */
  lemma {:induction false} InnerArgumentsAreSpoilt(resolve: Resolver)
    ensures ParseOf("A" + "<B<C>,D>", 0, resolve) ==
            [Argument(resolve("A"),
                      [Argument(resolve("B"), [Argument(resolve("C"), [])]), Argument(resolve(""), [Moved]),
                       Argument(resolve("D"), [Moved])])]
  {
    var c, d := Node(Plain("C"), NoArguments, NoArguments), Node(Plain("D"), NoArguments, NoArguments);
    var b := Node(Plain("B"), c, d);
    var t := Node(Plain("A"), b, NoArguments);
    SpoiltIsWritten(t);
    SpoiltText(t);
    hide WellWritten, Print, Written, Obtained, ParseOf;
    ParsePrinted(t, "", 0, resolve);
    SpoiltArguments(t, resolve);
  }

  lemma LeafIs(core: string, stale: nat, depth: nat, resolve: Resolver)
    ensures Obtained(Node(Plain(core), NoArguments, NoArguments), stale, depth, resolve) ==
            [Argument(resolve(core), Emptied(stale))]
  {
  }

  lemma SpoiltIsWritten(t: Tree)
    requires t == Node(Plain("A"), Node(Plain("B"), Node(Plain("C"), NoArguments, NoArguments),
                                        Node(Plain("D"), NoArguments, NoArguments)), NoArguments)
    ensures WellWritten(t)
  {
    var c, d := t.args.args, t.args.others;
    assert WellWritten(c) && WellWritten(d);
    assert WellWritten(t.args);
  }

  lemma OutermostIs(t: Tree, resolve: Resolver)
    requires t.Node? && t.args.Node?
    ensures Obtained(t, 0, 0, resolve) == [Argument(resolve(t.name.core), Obtained(t.args, 0, 1, resolve))]
  {
  }

  lemma SpoiltArguments(t: Tree, resolve: Resolver)
    requires t == Node(Plain("A"), Node(Plain("B"), Node(Plain("C"), NoArguments, NoArguments),
                                        Node(Plain("D"), NoArguments, NoArguments)), NoArguments)
    ensures Obtained(t, 0, 0, resolve) ==
            [Argument(resolve("A"),
                      [Argument(resolve("B"), [Argument(resolve("C"), [])]), Argument(resolve(""), [Moved]),
                       Argument(resolve("D"), [Moved])])]
  {
    LeafIs("C", 0, 2, resolve);
    LeafIs("D", 1, 1, resolve);
    assert t.args.others == Node(Plain("D"), NoArguments, NoArguments);
    assert Emptied(0) == [] && Emptied(1) == [Moved];
    var b := t.args;
    assert Obtained(b.args, 0, 2, resolve) == [Argument(resolve("C"), [])];
    assert Obtained(b, 0, 1, resolve) ==
           [Argument(resolve("B"), [Argument(resolve("C"), [])]), Argument(resolve(""), [Moved])]
           + [Argument(resolve("D"), [Moved])];
    assert Obtained(b, 0, 1, resolve) ==
           [Argument(resolve("B"), [Argument(resolve("C"), [])]), Argument(resolve(""), [Moved]),
            Argument(resolve("D"), [Moved])];
    OutermostIs(t, resolve);
  }

  lemma SpoiltText(t: Tree)
    requires t == Node(Plain("A"), Node(Plain("B"), Node(Plain("C"), NoArguments, NoArguments),
                                        Node(Plain("D"), NoArguments, NoArguments)), NoArguments)
    ensures Print(Written(t), "") == "A" + "<B<C>,D>"
  {
    var c, d := t.args.args, t.args.others;
    assert Print(Written(d), ">" + "") == "D>";
    assert Print(Written(c), ">" + ("," + "D>")) == "C>,D>";
    assert Print(Written(t.args), ">" + "") == "B<C>,D>";
  }

  /** A `typename` constraint and what follows it in a declaration. */
  lemma {:induction false} TypenameConstraint(behind: string, resolve: Resolver)
    ensures ParseOf("typename T" + (">" + behind), 0, resolve) == [Argument(resolve("T"), [])]
  {
    var t := Node(Name("", true, "T", ""), NoArguments, NoArguments);
    ParsePrinted(t, ">" + behind, 0, resolve);
    assert t.name.Text() == "typename T";
    assert Print(Written(t), ">" + behind) == "typename T" + (">" + behind);
    assert Emptied(0) == [];
  }

  /** Outside of all brackets nothing but white space stands in front of a closing bracket: there are no arguments. */
  lemma {:induction false} NothingToParse(blank: string, tail: string, depth: nat, resolve: Resolver)
    requires AllSpace(blank) && Stops(tail, depth)
    ensures ParseOf(blank + tail, depth, resolve) == []
  {
    LTrimIs(blank, tail);
  }

  /** Brackets around nothing but white space: that is kept as an argument as it is, not even resolved. */
  lemma {:induction false} EmptyBrackets(n: Name, blank: string, depth: nat, resolve: Resolver)
    requires n.WellWritten() && AllSpace(blank)
    ensures ParseOf(n.Text() + ("<" + (blank + ">")), depth, resolve) == [Argument(resolve(n.core), [Argument(blank, [])])]
  {
    TypenameIsStripped(n);
    LTrimName(n.Text());
    var rest := "<" + (blank + ">");
    NameInFront(n.Text(), rest);
    var name := LTrim(n.Text());
    ScanName(name, rest, "", [], depth, resolve);
    assert "" + name == name;
    BlankInBrackets(blank, name, depth, resolve);
    TrimmedTypename(n.Text());
    assert Complete(name, [Argument(blank, [])], resolve) == Argument(resolve(n.core), [Argument(blank, [])]);
  }

  lemma TrimmedTypename(name: string)
    ensures TrimTypename(LTrim(name)) == TrimTypename(name)
  {
    hide LTrim, Trim;
    TrimOfLTrim(name);
  }

  lemma NameInFront(name: string, rest: string)
    requires LTrim(name) != ""
    ensures LTrim(name + rest) == LTrim(name) + rest
  {
    hide LTrim;
    var before := LTrimPart(name);
    Assoc(before, LTrim(name), rest);
    LTrimIs(before, LTrim(name) + rest);
  }

  lemma BlankInBrackets(blank: string, text: string, depth: nat, resolve: Resolver)
    requires AllSpace(blank) && text != ""
    ensures Scan("<" + (blank + ">"), text, [], depth, resolve) == [Complete(text, [Argument(blank, [])], resolve)]
  {
    hide Complete, MovedFrom, NestedIn, ParseOf;
    var inner := blank + ">";
    MatchName(blank, ">", 0);
    assert MatchEnd(">", 0) == 0;
    assert ("<" + inner)[1..] == inner && inner[..|blank|] == blank && inner[|blank|..] == ">";
    NothingToParse(blank, "", depth + 1, resolve);
    assert blank + "" == blank;
    NestedInIs(blank, depth, resolve);
    assert Scan("", "", MovedFrom([Argument(blank, [])]), depth, resolve) == [];
    assert ">"[1..] == "";
  }
}
