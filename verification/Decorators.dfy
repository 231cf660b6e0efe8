/** Decorators in documentation comments (src/decorators/decorators.cc). */
module Decorators {
  import opened Strings
  import opened Substitution
  import opened Splitting

  datatype Kind =
    | NoteKind
    | SkipRelationshipKind
    | SkipKind
    | StyleKind
    | AggregationKind
    | CompositionKind
    | AssociationKind
    | CallKind

  function Label(kind: Kind): string {
    match kind
    case NoteKind => "note"
    case SkipRelationshipKind => "skiprelationship"
    case SkipKind => "skip"
    case StyleKind => "style"
    case AggregationKind => "aggregation"
    case CompositionKind => "composition"
    case AssociationKind => "association"
    case CallKind => "call"
  }

  datatype Decorator =
    | Note(diagrams: seq<string>, position: string, text: string)
    | SkipRelationship
    | Skip
    | Style(diagrams: seq<string>, spec: string)
    | Aggregation(diagrams: seq<string>, multiplicity: string)
    | Composition(diagrams: seq<string>, multiplicity: string)
    | Association(diagrams: seq<string>, multiplicity: string)
    | Call(diagrams: seq<string>, callee: string)

  datatype Toks = Toks(diagrams: seq<string>, param: string, text: string)

  // ---------- tokenize ----------

  /** `std::remove_if` with `std::isspace`. */
  function RemoveSpaces(s: string): string {
    if s == "" then ""
    else if IsSpace(s[0]) then RemoveSpaces(s[1..])
    else [s[0]] + RemoveSpaces(s[1..])
  }

  function DiagramsOf(scope: string): seq<string> {
    SplitOf(RemoveSpaces(scope), ",", true)
  }

  /** What stands in front of the first `c`, or everything. */
  function UpTo(s: string, c: char): string {
    match FindChar(s, c, 0)
    case Some(k) => s[..k]
    case None => s
  }

  /** The option part and the text that follow label and scope. */
  function OptionsAndText(diagrams: seq<string>, rest: string): Option<Toks>
    requires rest != ""
  {
    if rest[0] != '[' then
      Some(Toks(diagrams, "", Trim(UpTo(if IsSpace(rest[0]) then rest[1..] else rest, '}'))))
    else
      match FindChar(rest, ']', 1)
      case None => None
      case Some(k) => Some(Toks(diagrams, Trim(rest[1..k]), Trim(UpTo(rest[k + 1..], '}'))))
  }

  /**
   * The tokens of what follows the label. There are none when the program would
   * read behind the view or ask for a substring behind its end.
   */
  function TokensOf(rest: string): Option<Toks> {
    if rest == "" then None
    else if rest[0] != ':' then OptionsAndText([], rest)
    else
      match FindChar(rest, '[', 1)
      case None => None
      case Some(k) => OptionsAndText(DiagramsOf(rest[1..k]), rest[k..])
  }

  lemma DropDrop(s: string, i: nat, j: nat)
    requires i + j <= |s|
    ensures s[i..][j..] == s[i + j..]
  {
  }

  lemma SliceOfDrop(s: string, i: nat, j: nat, k: nat)
    requires j <= k && i + k <= |s|
    ensures s[i..][j..k] == s[i + j..i + k]
  {
  }

  /** The last part of `tokenize`, from the iterator on. */
  method TokenizeText(c: string, it: nat) returns (text: string)
    requires it <= |c|
    ensures text == UpTo(c[it..], '}')
  {
    FindCharInDrop(c, '}', it, 0);
    var brace := FindChar(c, '}', it);
    if brace.Some? {
      SliceOfDrop(c, it, 0, brace.value - it);
      text := c[it..brace.value];
    } else {
      text := c[it..];
    }
  }

  /** `r` is what `OptionsAndText` makes of the view from `start` on. */
  ghost predicate AreOptions(r: Option<Toks>, diagrams: seq<string>, c: string, start: nat) {
    start < |c| && r == OptionsAndText(diagrams, c[start..])
  }

  lemma NoOptions(c: string, start: nat, diagrams: seq<string>)
    requires start < |c| && c[start] != '['
    ensures AreOptions(Some(Toks(diagrams, "", Trim(UpTo(if IsSpace(c[start]) then c[start + 1..] else c[start..], '}')))),
                       diagrams, c, start)
  {
    DropDrop(c, start, 1);
  }

  lemma OpenOptions(c: string, start: nat, diagrams: seq<string>)
    requires start < |c| && c[start] == '[' && FindChar(c, ']', start + 1).None?
    ensures AreOptions(None, diagrams, c, start)
  {
    FindCharInDrop(c, ']', start, 1);
  }

  lemma ClosedOptions(c: string, start: nat, diagrams: seq<string>, k: nat)
    requires start < |c| && c[start] == '[' && FindChar(c, ']', start + 1) == Some(k)
    ensures AreOptions(Some(Toks(diagrams, Trim(c[start + 1..k]), Trim(UpTo(c[k + 1..], '}')))), diagrams, c, start)
  {
    hide Trim, UpTo, FindChar;
    FindCharInDrop(c, ']', start, 1);
    SliceOfDrop(c, start, 1, k - start);
    DropDrop(c, start, k - start + 1);
  }

  lemma TrimOfEmpty()
    ensures Trim("") == ""
  {
  }

  /** `tokenize` behind label and scope. */
  method TokenizeOptions(c: string, start: nat, diagrams: seq<string>) returns (r: Option<Toks>)
    requires start < |c|
    ensures AreOptions(r, diagrams, c, start)
  {
    hide *;
    TrimOfEmpty();
    var it: nat, param := start, "";
    if c[it] == '[' {
      it := it + 1;
      var pos: nat := it;
      var bracket := FindChar(c, ']', pos);
      if bracket.None? {
        OpenOptions(c, start, diagrams);
        return None;
      }
      ClosedOptions(c, start, diagrams, bracket.value);
      param := c[pos..bracket.value];
      it := it + |param| + 1;
    } else {
      NoOptions(c, start, diagrams);
      if IsSpace(c[it]) {
        it := it + 1;
      }
    }
    var text := TokenizeText(c, it);
    r := Some(Toks(diagrams, Trim(param), Trim(text)));
  }

  /** `r` is what `TokensOf` makes of the view from `start` on. */
  ghost predicate AreTokens(r: Option<Toks>, c: string, start: nat) {
    start <= |c| && r == TokensOf(c[start..])
  }

  lemma NoTokens(c: string, start: nat)
    requires start <= |c|
    requires start < |c| ==> c[start] == ':' && FindChar(c, '[', start + 1).None?
    ensures AreTokens(None, c, start)
  {
    if start < |c| {
      FindCharInDrop(c, '[', start, 1);
    }
  }

  lemma TokensWithoutScope(r: Option<Toks>, c: string, start: nat)
    requires start < |c| && c[start] != ':' && AreOptions(r, [], c, start)
    ensures AreTokens(r, c, start)
  {
  }

  lemma TokensBehindScope(r: Option<Toks>, c: string, start: nat, k: nat)
    requires start < |c| && c[start] == ':' && FindChar(c, '[', start + 1) == Some(k)
    requires AreOptions(r, DiagramsOf(c[start + 1..k]), c, k)
    ensures AreTokens(r, c, start)
  {
    hide DiagramsOf, FindChar, OptionsAndText;
    FindCharInDrop(c, '[', start, 1);
    SliceOfDrop(c, start, 1, k - start);
    DropDrop(c, start, k - start);
  }

  /** The scope of a decorator. */
  method TokenizeScope(d: string) returns (diagrams: seq<string>)
    ensures diagrams == DiagramsOf(d)
  {
    diagrams := [];
    if d != "" {
      diagrams := Split(RemoveSpaces(d), ",", true);
    } else {
      NoDiagrams();
    }
  }

  /** `tokenize`: an iterator moves over the view. */
  method Tokenize(prefix: string, c: string) returns (r: Option<Toks>)
    requires |prefix| <= |c|
    ensures AreTokens(r, c, |prefix|)
  {
    hide *;
    var diagrams: seq<string> := [];
    var it: nat := |prefix|;
    if it == |c| {
      NoTokens(c, |prefix|);
      r := None;
    } else if c[it] == ':' {
      it := it + 1;
      var pos: nat := it;
      var bracket := FindChar(c, '[', pos);
      if bracket.None? {
        NoTokens(c, |prefix|);
        r := None;
      } else {
        var d := c[pos..bracket.value];
        diagrams := TokenizeScope(d);
        it := it + |d|;
        r := TokenizeOptions(c, it, diagrams);
        TokensBehindScope(r, c, |prefix|, bracket.value);
      }
    } else {
      r := TokenizeOptions(c, it, diagrams);
      TokensWithoutScope(r, c, |prefix|);
    }
  }

  lemma NoDiagrams()
    ensures DiagramsOf("") == []
  {
    SplitRestUnsplit("", ",", true);
  }

  // ---------- from_string ----------

  predicate HasPrefix(s: string, p: string) {
    |p| <= |s| && s[..|p|] == p
  }

  function KindOf(c: string): Option<Kind> {
    if HasPrefix(c, Label(NoteKind)) then Some(NoteKind)
    else if HasPrefix(c, Label(SkipRelationshipKind)) then Some(SkipRelationshipKind)
    else if HasPrefix(c, Label(SkipKind)) then Some(SkipKind)
    else if HasPrefix(c, Label(StyleKind)) then Some(StyleKind)
    else if HasPrefix(c, Label(AggregationKind)) then Some(AggregationKind)
    else if HasPrefix(c, Label(CompositionKind)) then Some(CompositionKind)
    else if HasPrefix(c, Label(AssociationKind)) then Some(AssociationKind)
    else if HasPrefix(c, Label(CallKind)) then Some(CallKind)
    else None
  }

  /** The skip decorators look at nothing but their label. */
  predicate UsesTokens(kind: Kind) {
    kind != SkipKind && kind != SkipRelationshipKind
  }

  function FromTokens(kind: Kind, toks: Toks): Decorator {
    match kind
    case NoteKind => Note(toks.diagrams, if toks.param == "" then "left" else toks.param, toks.text)
    case SkipRelationshipKind => SkipRelationship
    case SkipKind => Skip
    case StyleKind => Style(toks.diagrams, toks.param)
    case AggregationKind => Aggregation(toks.diagrams, toks.param)
    case CompositionKind => Composition(toks.diagrams, toks.param)
    case AssociationKind => Association(toks.diagrams, toks.param)
    case CallKind => Call(toks.diagrams, Trim(toks.text))
  }

  /** What becomes of a directive: undefined behaviour, nothing, or a decorator. */
  datatype Outcome = Undefined | Unknown | Found(decorator: Decorator)

  function OutcomeOf(c: string): Outcome {
    match KindOf(c)
    case None => Unknown
    case Some(kind) =>
      if !UsesTokens(kind) then Found(FromTokens(kind, Toks([], "", "")))
      else
        match TokensOf(c[|Label(kind)|..])
        case None => Undefined
        case Some(toks) => Found(FromTokens(kind, toks))
  }

  method FromString(c: string) returns (r: Outcome)
    ensures r == OutcomeOf(c)
  {
    var kind := KindOf(c);
    if kind.None? {
      return Unknown;
    }
    if !UsesTokens(kind.value) {
      return Found(FromTokens(kind.value, Toks([], "", "")));
    }
    var toks := Tokenize(Label(kind.value), c);
    r := if toks.None? then Undefined else Found(FromTokens(kind.value, toks.value));
  }

  // ---------- parse ----------

  function Opening(tag: string): string {
    "@" + tag + "{"
  }

  /** The view that `parse` hands on for the braces at `open` and `close`; it reaches behind the closing one. */
  function View(block: string, open: nat, close: nat): string
    requires open < close < |block| && 2 <= close
  {
    var length := close - 2;
    if open + 1 + length <= |block| then block[open + 1..open + 1 + length] else block[open + 1..]
  }

  datatype Parsed = Broken | Parsed(decorators: seq<Decorator>, comment: string)

  function Decorated(outcome: Outcome): seq<Decorator> {
    if outcome.Found? then [outcome.decorator] else []
  }

  function Prepend(outcome: Outcome, gap: string, rest: Parsed): Parsed {
    if outcome.Undefined? || rest.Broken? then Broken
    else Parsed(Decorated(outcome) + rest.decorators, gap + rest.comment)
  }

  /** The directives from `last` on, and the text in front of each of them. */
  function ParseFrom(block: string, tag: string, last: nat): Parsed
    requires last <= |block|
    decreases |block| - last
  {
    match Find(block, Opening(tag), last)
    case None => Parsed([], "")
    case Some(pos) =>
      var open := pos + |tag| + 1;
      match FindChar(block, '}', open)
      case None => Parsed([], "")
      case Some(close) =>
        OpeningEnds(block, tag, pos);
        Prepend(OutcomeOf(View(block, open, close)), block[last..pos], ParseFrom(block, tag, close + 1))
  }

  lemma OpeningEnds(block: string, tag: string, pos: nat)
    requires OccursAt(block, Opening(tag), pos)
    ensures pos + |tag| + 1 < |block| && block[pos + |tag| + 1] == '{' && block[pos] == '@'
  {
    var s := block[pos..pos + |tag| + 2];
    assert s[|tag| + 1] == Opening(tag)[|tag| + 1] == '{';
    assert s[0] == '@';
  }

  function ParseOf(documentation: string, tag: string): Parsed {
    var block := Trim(Replaced(documentation, "\\" + tag, "@" + tag));
    if Find(block, Opening(tag), 0).None? then Parsed([], Trim(block))
    else
      var r := ParseFrom(block, tag, 0);
      if r.Broken? then Broken else Parsed(r.decorators, Trim(r.comment))
  }

  /** What the loop has, followed by what it still finds from `last` on. */
  ghost predicate ParsedSoFar(decorators: seq<Decorator>, comment: string, block: string, tag: string, last: nat) {
    && last <= |block|
    && ParseFrom(block, tag, 0) ==
       var rest := ParseFrom(block, tag, last);
       if rest.Broken? then Broken else Parsed(decorators + rest.decorators, comment + rest.comment)
  }

  lemma ParseStart(block: string, tag: string)
    ensures ParsedSoFar([], "", block, tag, 0)
  {
    hide ParseFrom;
    var r := ParseFrom(block, tag, 0);
    if r.Parsed? {
      assert [] + r.decorators == r.decorators && "" + r.comment == r.comment;
    }
  }

  lemma ParseFromLast(block: string, tag: string, last: nat)
    requires last <= |block|
    requires Find(block, Opening(tag), last).None? ||
             FindChar(block, '}', Find(block, Opening(tag), last).value + |tag| + 1).None?
    ensures ParseFrom(block, tag, last) == Parsed([], "")
  {
    hide OccursAt, Opening, View, OutcomeOf, Prepend;
  }

  lemma ParseFromFound(block: string, tag: string, last: nat, pos: nat, close: nat)
    requires last <= |block|
    requires Find(block, Opening(tag), last) == Some(pos) && FindChar(block, '}', pos + |tag| + 1) == Some(close)
    ensures pos + |tag| + 1 < close
    ensures ParseFrom(block, tag, last) ==
      Prepend(OutcomeOf(View(block, pos + |tag| + 1, close)), block[last..pos], ParseFrom(block, tag, close + 1))
  {
    hide Find, FindChar, OutcomeOf, View, Prepend, OccursAt, Opening;
    OpeningEnds(block, tag, pos);
  }

  lemma ParseEnds(decorators: seq<Decorator>, comment: string, block: string, tag: string, last: nat)
    requires ParsedSoFar(decorators, comment, block, tag, last)
    requires Find(block, Opening(tag), last).None? ||
             FindChar(block, '}', Find(block, Opening(tag), last).value + |tag| + 1).None?
    ensures ParseFrom(block, tag, 0) == Parsed(decorators, comment)
  {
    hide ParseFrom, Find, FindChar, Opening;
    ParseFromLast(block, tag, last);
    assert decorators + [] == decorators && comment + "" == comment;
  }

  lemma ParseTurn(decorators: seq<Decorator>, comment: string, block: string, tag: string, last: nat, pos: nat, close: nat, outcome: Outcome)
    requires ParsedSoFar(decorators, comment, block, tag, last)
    requires Find(block, Opening(tag), last) == Some(pos) && FindChar(block, '}', pos + |tag| + 1) == Some(close)
    requires pos + |tag| + 1 < close && outcome == OutcomeOf(View(block, pos + |tag| + 1, close))
    ensures outcome.Undefined? ==> ParseFrom(block, tag, 0) == Broken
    ensures !outcome.Undefined? ==>
      ParsedSoFar(decorators + Decorated(outcome), comment + block[last..pos], block, tag, close + 1)
  {
    hide Find, FindChar, OutcomeOf, View, Decorated, Opening, OccursAt, ParseFrom;
    ParseFromFound(block, tag, last, pos, close);
    var rest := ParseFrom(block, tag, close + 1);
    if rest.Parsed? {
      Assoc(decorators, Decorated(outcome), rest.decorators);
      Assoc(comment, block[last..pos], rest.comment);
    }
  }

  /** No directive opens on a closing brace, so the search may start there or one place further on. */
  lemma {:induction false} FindFromBrace(block: string, tag: string, close: nat)
    requires close < |block| && block[close] == '}'
    ensures Find(block, Opening(tag), close) == Find(block, Opening(tag), close + 1)
  {
    if OccursAt(block, Opening(tag), close) {
      OpeningEnds(block, tag, close);
    }
  }

  /**
   * `parse`. The result is `Broken` when the program would read behind a view
   * or ask for a substring behind its end.
   */
  method Parse(documentation: string, tag: string) returns (r: Parsed)
    ensures r == ParseOf(documentation, tag)
  {
    hide ParsedSoFar, OutcomeOf, View, Replaced, Trim, Opening, Find, FindChar, OccursAt, Decorated;
    var res: seq<Decorator> := [];
    var stripped := "";
    var block, replaced := ReplaceAll(documentation, "\\" + tag, "@" + tag);
    block := Trim(block);
    var pos := Find(block, Opening(tag), 0);
    if pos.None? {
      return Parsed([], Trim(block));
    }
    ParseStart(block, tag);
    var lastEndPos: nat := 0;
    while pos.Some?
      invariant lastEndPos <= |block| && pos == Find(block, Opening(tag), lastEndPos)
      invariant ParsedSoFar(res, stripped, block, tag, lastEndPos)
      decreases |block| - lastEndPos
    {
      OpeningEnds(block, tag, pos.value);
      var cBegin := pos.value + |tag| + 1;
      var cEnd := FindChar(block, '}', cBegin);
      if cEnd.None? {
        ParseEnds(res, stripped, block, tag, lastEndPos);
        return Parsed(res, Trim(stripped));
      }
      var com := FromString(View(block, cBegin, cEnd.value));
      ParseTurn(res, stripped, block, tag, lastEndPos, pos.value, cEnd.value, com);
      if com.Undefined? {
        return Broken;
      }
      res := res + Decorated(com);
      stripped := stripped + block[lastEndPos..pos.value];
      lastEndPos := pos.value + (cEnd.value - cBegin + (|tag| + 1) + 1);
      FindFromBrace(block, tag, cEnd.value);
      pos := Find(block, Opening(tag), cEnd.value);
    }
    ParseEnds(res, stripped, block, tag, lastEndPos);
    r := Parsed(res, Trim(stripped));
  }

  // ---------- Writing a directive ----------

  /** A directive as a user may write it: `label:names[param]text`. */
  datatype Directive = Directive(kind: Kind, scope: Option<seq<string>>, param: Option<string>, text: string)

  function ScopeText(scope: Option<seq<string>>): string {
    match scope
    case None => ""
    case Some(names) => ":" + Join(names, ",")
  }

  function ParamText(param: Option<string>): string {
    match param
    case None => ""
    case Some(p) => "[" + p + "]"
  }

  function Body(d: Directive): string {
    Label(d.kind) + (ScopeText(d.scope) + (ParamText(d.param) + d.text))
  }

  function Squeezed(names: seq<string>): seq<string> {
    if names == [] then [] else [RemoveSpaces(names[0])] + Squeezed(names[1..])
  }

  /** The diagrams that the scope names. */
  function NamesOf(scope: Option<seq<string>>): seq<string> {
    if scope.None? then [] else Squeezed(scope.value)
  }

  /** What stands between the brackets, if there are any. */
  function OptionOf(param: Option<string>): string {
    if param.None? then "" else Trim(param.value)
  }

  /** The tokens that the written parts stand for. */
  function Meant(d: Directive): Toks {
    Toks(NamesOf(d.scope), OptionOf(d.param), Trim(d.text))
  }

  /** The decorator that a written directive stands for. */
  function Meaning(d: Directive): Decorator {
    match d.kind
    case NoteKind => Note(NamesOf(d.scope), if OptionOf(d.param) == "" then "left" else OptionOf(d.param), Trim(d.text))
    case SkipRelationshipKind => SkipRelationship
    case SkipKind => Skip
    case StyleKind => Style(NamesOf(d.scope), OptionOf(d.param))
    case AggregationKind => Aggregation(NamesOf(d.scope), OptionOf(d.param))
    case CompositionKind => Composition(NamesOf(d.scope), OptionOf(d.param))
    case AssociationKind => Association(NamesOf(d.scope), OptionOf(d.param))
    case CallKind => Call(NamesOf(d.scope), Trim(d.text))
  }

  lemma MeaningOfTokens(d: Directive)
    requires UsesTokens(d.kind)
    ensures FromTokens(d.kind, Meant(d)) == Meaning(d)
  {
    hide Trim, NamesOf, OptionOf;
    TrimTwice(d.text);
  }

  predicate WellFormedName(name: string) {
    '}' !in name && '[' !in name && ',' !in name && RemoveSpaces(name) != ""
  }

  /** The parts keep clear of their delimiters; only the skip decorators may have a scope without options. */
  predicate WellFormed(d: Directive) {
    && '}' !in d.text
    && (d.param.Some? ==> '}' !in d.param.value && ']' !in d.param.value)
    && (d.param.None? ==> d.text == "" || IsSpace(d.text[0]))
    && (d.scope.Some? ==> forall i :: 0 <= i < |d.scope.value| ==> WellFormedName(d.scope.value[i]))
    && (d.scope.Some? && UsesTokens(d.kind) ==> d.param.Some?)
  }

  // ---------- Reading a written directive ----------

  lemma FindCharBehind(a: string, c: char, b: string, from: nat)
    requires from <= |a| && forall j :: from <= j < |a| ==> a[j] != c
    ensures FindChar(a + ([c] + b), c, from) == Some(|a|)
  {
    FindCharIs(a + ([c] + b), c, from, |a|);
  }

  lemma UpToBehind(a: string, c: char, b: string)
    requires c !in a
    ensures UpTo(a + ([c] + b), c) == a
  {
    FindCharBehind(a, c, b, 0);
  }

  lemma ReadText(text: string, slack: string)
    requires '}' !in text && (text == "" || IsSpace(text[0]))
    ensures OptionsAndText([], text + ("}" + slack)) == Some(Toks([], "", Trim(text)))
  {
    hide Trim, UpTo;
    var rest := text + ("}" + slack);
    if text == "" {
      UpToBehind("", '}', slack);
      assert rest == "" + (['}'] + slack);
    } else {
      var tail := text[1..];
      UpToBehind(tail, '}', slack);
      assert rest[1..] == tail + (['}'] + slack);
      TrimAround([text[0]], tail, "");
      assert [text[0]] + tail + "" == text;
    }
  }

  lemma ReadOptions(diagrams: seq<string>, param: string, text: string, slack: string)
    requires ']' !in param && '}' !in text
    ensures OptionsAndText(diagrams, "[" + param + "]" + (text + ("}" + slack))) ==
            Some(Toks(diagrams, Trim(param), Trim(text)))
  {
    hide Trim, UpTo;
    var behind := text + ("}" + slack);
    Assoc("[" + param, "]", behind);
    FindCharBehind("[" + param, ']', behind, 1);
    UpToBehind(text, '}', slack);
    OptionsSlices(param, behind);
  }

  lemma OptionsSlices(param: string, behind: string)
    ensures ("[" + param + "]" + behind)[1..1 + |param|] == param
    ensures ("[" + param + "]" + behind)[|param| + 2..] == behind
  {
  }

  lemma {:induction false} RemoveSpacesAppend(a: string, b: string)
    ensures RemoveSpaces(a + b) == RemoveSpaces(a) + RemoveSpaces(b)
  {
    if a == "" {
      assert a + b == b;
    } else {
      assert (a + b)[1..] == a[1..] + b;
      RemoveSpacesAppend(a[1..], b);
      Assoc([a[0]], RemoveSpaces(a[1..]), RemoveSpaces(b));
    }
  }

  lemma {:induction false} RemoveSpacesKeepsOut(s: string, c: char)
    requires c !in s
    ensures c !in RemoveSpaces(s)
  {
    if s != "" {
      RemoveSpacesKeepsOut(s[1..], c);
    }
  }

  /** No white space is left, and there is nothing to do where there is none. */
  lemma {:induction false} SpacesAreRemoved(s: string)
    ensures forall i :: 0 <= i < |RemoveSpaces(s)| ==> !IsSpace(RemoveSpaces(s)[i])
    ensures (forall i :: 0 <= i < |s| ==> !IsSpace(s[i])) ==> RemoveSpaces(s) == s
  {
    if s != "" {
      SpacesAreRemoved(s[1..]);
      assert [s[0]] + s[1..] == s;
    }
  }

  lemma CountOfHead(h: char, t: string, c: char)
    ensures multiset([h] + t)[c] == (if h == c then 1 else 0) + multiset(t)[c]
  {
  }

  /** All that is removed is white space; with `RemoveSpacesAppend` the rest stays in order. */
  lemma {:induction false} OnlySpacesAreRemoved(s: string, c: char)
    requires !IsSpace(c)
    ensures multiset(RemoveSpaces(s))[c] == multiset(s)[c]
  {
    if s != "" {
      OnlySpacesAreRemoved(s[1..], c);
      CountOfHead(s[0], s[1..], c);
      CountOfHead(s[0], RemoveSpaces(s[1..]), c);
      assert [s[0]] + s[1..] == s;
    }
  }

  lemma {:induction false} SqueezeJoin(names: seq<string>)
    ensures RemoveSpaces(Join(names, ",")) == Join(Squeezed(names), ",") && |Squeezed(names)| == |names|
  {
    if |names| == 1 {
      assert Squeezed(names[1..]) == [];
    } else if |names| > 1 {
      SqueezeJoin(names[1..]);
      RemoveSpacesAppend(names[0] + ",", Join(names[1..], ","));
      RemoveSpacesAppend(names[0], ",");
      assert RemoveSpaces(",") == "," + RemoveSpaces("");
      JoinCons(RemoveSpaces(names[0]), Squeezed(names[1..]), ",");
    }
  }

  lemma {:induction false} SqueezedAre(names: seq<string>)
    requires forall i :: 0 <= i < |names| ==> WellFormedName(names[i])
    ensures forall i :: 0 <= i < |Squeezed(names)| ==> Squeezed(names)[i] != "" && Disjoint(Squeezed(names)[i], ",")
  {
    if names != [] {
      RemoveSpacesKeepsOut(names[0], ',');
      SqueezedAre(names[1..]);
    }
  }

  lemma DiagramsOfJoin(names: seq<string>)
    requires forall i :: 0 <= i < |names| ==> WellFormedName(names[i])
    ensures DiagramsOf(Join(names, ",")) == Squeezed(names)
  {
    hide RemoveSpaces, SplitOf, WellFormedName;
    SqueezeJoin(names);
    if names == [] {
      NoDiagrams();
    } else {
      SqueezedAre(names);
      SplitOfJoin(Squeezed(names), ",", true);
    }
  }

  lemma {:induction false} NotInJoin(names: seq<string>, c: char)
    requires c != ',' && forall i :: 0 <= i < |names| ==> c !in names[i]
    ensures c !in Join(names, ",")
  {
    if |names| > 1 {
      NotInJoin(names[1..], c);
    }
  }

  lemma ReadScope(joined: string, behind: string)
    requires '[' !in joined && behind != "" && behind[0] == '['
    ensures TokensOf(":" + joined + behind) == OptionsAndText(DiagramsOf(joined), behind)
  {
    hide OptionsAndText, DiagramsOf;
    var rest := ":" + joined + behind;
    assert behind == ['['] + behind[1..];
    FindCharBehind(":" + joined, '[', behind[1..], 1);
    assert rest[1..1 + |joined|] == joined;
    assert rest[1 + |joined|..] == behind;
  }

  /** The tokens of a well-formed directive, whatever stands behind its closing brace. */
  lemma {:induction false} ReadTokens(d: Directive, slack: string)
    requires WellFormed(d) && UsesTokens(d.kind)
    ensures TokensOf(ScopeText(d.scope) + (ParamText(d.param) + (d.text + ("}" + slack)))) == Some(Meant(d))
  {
    hide OptionsAndText, DiagramsOf, Trim, Join, Squeezed;
    var end := d.text + ("}" + slack);
    if d.scope.Some? {
      var names := d.scope.value;
      NotInJoin(names, '[');
      ReadScope(Join(names, ","), ParamText(d.param) + end);
      DiagramsOfJoin(names);
      ReadOptions(Squeezed(names), d.param.value, d.text, slack);
    } else {
      assert "" + (ParamText(d.param) + end) == ParamText(d.param) + end;
      if d.param.Some? {
        ReadOptions([], d.param.value, d.text, slack);
      } else {
        assert "" + end == end;
        ReadText(d.text, slack);
      }
    }
  }

  /** The label tests come in an order that tells all kinds apart. */
  lemma KindOfLabel(kind: Kind, rest: string)
    requires rest == "" || rest[0] != 'r'
    ensures KindOf(Label(kind) + rest) == Some(kind)
    ensures (Label(kind) + rest)[|Label(kind)|..] == rest
  {
    hide HasPrefix, Label;
    assert (Label(kind) + rest)[..|Label(kind)|] == Label(kind);
    OnlyOwnPrefix(kind, NoteKind, rest);
    OnlyOwnPrefix(kind, SkipRelationshipKind, rest);
    OnlyOwnPrefix(kind, SkipKind, rest);
    OnlyOwnPrefix(kind, StyleKind, rest);
    OnlyOwnPrefix(kind, AggregationKind, rest);
    OnlyOwnPrefix(kind, CompositionKind, rest);
    OnlyOwnPrefix(kind, AssociationKind, rest);
    OnlyOwnPrefix(kind, CallKind, rest);
  }

  /** A label is followed by another one's prefix only for `skip`, which is tested after `skiprelationship`. */
  lemma OnlyOwnPrefix(kind: Kind, other: Kind, rest: string)
    requires rest == "" || rest[0] != 'r'
    ensures HasPrefix(Label(kind) + rest, Label(other)) <==>
            other == kind || (kind == SkipRelationshipKind && other == SkipKind)
  {
    var c, p := Label(kind) + rest, Label(other);
    assert c[..|Label(kind)|] == Label(kind);
    if HasPrefix(c, p) {
      assert c[0] == c[..|p|][0] == p[0] && c[1] == c[..|p|][1] == p[1];
      if other == SkipRelationshipKind {
        assert c[4] == c[..|p|][4] == 'r';
      }
    }
    if kind == SkipRelationshipKind && other == SkipKind {
      assert c[..4] == "skip";
    }
  }

  /** A well-formed directive is read as it is meant, whatever stands behind its closing brace. */
  lemma {:induction false} ReadDirective(d: Directive, slack: string)
    requires WellFormed(d)
    ensures OutcomeOf(Body(d) + ("}" + slack)) == Found(Meaning(d))
  {
    var parts := ScopeText(d.scope) + (ParamText(d.param) + d.text);
    var rest := ScopeText(d.scope) + (ParamText(d.param) + (d.text + ("}" + slack)));
    RestOfBody(d, slack);
    assert rest[0] != 'r' by {
      hide Label, Trim, RemoveSpaces, Join;
    }
    KindOfLabel(d.kind, rest);
    hide KindOf, TokensOf, Label, WellFormed, ScopeText, ParamText;
    if UsesTokens(d.kind) {
      ReadTokens(d, slack);
      MeaningOfTokens(d);
    }
  }

  lemma RestOfBody(d: Directive, slack: string)
    ensures Body(d) + ("}" + slack) ==
            Label(d.kind) + (ScopeText(d.scope) + (ParamText(d.param) + (d.text + ("}" + slack))))
  {
    hide Label, ScopeText, ParamText;
    Assoc(Label(d.kind), ScopeText(d.scope) + (ParamText(d.param) + d.text), "}" + slack);
    Assoc(ScopeText(d.scope), ParamText(d.param) + d.text, "}" + slack);
    Assoc(ParamText(d.param), d.text, "}" + slack);
  }

  // ---------- Decorators as they are written ----------

  function ShowScope(diagrams: seq<string>): string {
    if diagrams == [] then "" else ":" + Join(diagrams, ",")
  }

  /** A decorator as a user may write it between the braces. */
  function Show(d: Decorator): string {
    match d
    case Note(diagrams, position, text) => "note" + (ShowScope(diagrams) + ("[" + position + "]" + text))
    case SkipRelationship => "skiprelationship"
    case Skip => "skip"
    case Style(diagrams, spec) => "style" + (ShowScope(diagrams) + ("[" + spec + "]"))
    case Aggregation(diagrams, multiplicity) => "aggregation" + (ShowScope(diagrams) + ("[" + multiplicity + "]"))
    case Composition(diagrams, multiplicity) => "composition" + (ShowScope(diagrams) + ("[" + multiplicity + "]"))
    case Association(diagrams, multiplicity) => "association" + (ShowScope(diagrams) + ("[" + multiplicity + "]"))
    case Call(diagrams, callee) => "call" + (ShowScope(diagrams) + ("[]" + callee))
  }

  predicate ShowableName(name: string) {
    name != "" && '}' !in name && '[' !in name && ',' !in name && forall i :: 0 <= i < |name| ==> !IsSpace(name[i])
  }

  predicate ShowableOption(option: string) {
    Trimmed(option) && '}' !in option && ']' !in option
  }

  predicate ShowableText(text: string) {
    Trimmed(text) && '}' !in text
  }

  predicate Showable(d: Decorator) {
    match d
    case Note(diagrams, position, text) => ShowableNames(diagrams) && position != "" && ShowableOption(position) && ShowableText(text)
    case SkipRelationship => true
    case Skip => true
    case Style(diagrams, spec) => ShowableNames(diagrams) && ShowableOption(spec)
    case Aggregation(diagrams, multiplicity) => ShowableNames(diagrams) && ShowableOption(multiplicity)
    case Composition(diagrams, multiplicity) => ShowableNames(diagrams) && ShowableOption(multiplicity)
    case Association(diagrams, multiplicity) => ShowableNames(diagrams) && ShowableOption(multiplicity)
    case Call(diagrams, callee) => ShowableNames(diagrams) && ShowableText(callee)
  }

  predicate ShowableNames(names: seq<string>) {
    forall i :: 0 <= i < |names| ==> ShowableName(names[i])
  }

  function ScopeOf(diagrams: seq<string>): Option<seq<string>> {
    if diagrams == [] then None else Some(diagrams)
  }

  /** The parts of what `Show` writes. */
  function PartsOf(d: Decorator): Directive {
    match d
    case Note(diagrams, position, text) => Directive(NoteKind, ScopeOf(diagrams), Some(position), text)
    case SkipRelationship => Directive(SkipRelationshipKind, None, None, "")
    case Skip => Directive(SkipKind, None, None, "")
    case Style(diagrams, spec) => Directive(StyleKind, ScopeOf(diagrams), Some(spec), "")
    case Aggregation(diagrams, multiplicity) => Directive(AggregationKind, ScopeOf(diagrams), Some(multiplicity), "")
    case Composition(diagrams, multiplicity) => Directive(CompositionKind, ScopeOf(diagrams), Some(multiplicity), "")
    case Association(diagrams, multiplicity) => Directive(AssociationKind, ScopeOf(diagrams), Some(multiplicity), "")
    case Call(diagrams, callee) => Directive(CallKind, ScopeOf(diagrams), Some(""), callee)
  }

  lemma ShowIsBody(d: Decorator)
    ensures Show(d) == Body(PartsOf(d))
  {
    hide Join;
    if !d.Skip? && !d.SkipRelationship? {
      assert ShowScope(d.diagrams) == ScopeText(ScopeOf(d.diagrams));
      ShowParts(d);
    } else {
      assert "skip" + ("" + ("" + "")) == "skip" && "skiprelationship" + ("" + ("" + "")) == "skiprelationship";
    }
  }

  lemma ShowParts(d: Decorator)
    requires !d.Skip? && !d.SkipRelationship?
    requires ShowScope(d.diagrams) == ScopeText(ScopeOf(d.diagrams))
    ensures Show(d) == Body(PartsOf(d))
  {
    hide Join, ShowScope, ScopeText;
    var option := "[" + PartsOf(d).param.value + "]";
    assert option + "" == option;
    if d.Call? {
      assert "[" + "" + "]" == "[]";
    }
  }

  lemma {:induction false} NamesAreSqueezed(names: seq<string>)
    requires ShowableNames(names)
    ensures Squeezed(names) == names
    ensures forall i :: 0 <= i < |names| ==> WellFormedName(names[i])
  {
    if names != [] {
      SpacesAreRemoved(names[0]);
      NamesAreSqueezed(names[1..]);
      assert forall i :: 1 <= i < |names| ==> names[i] == names[1..][i - 1];
    }
  }

  lemma TrimmedStays(s: string)
    requires Trimmed(s)
    ensures Trim(s) == s
  {
    TrimIs("", s, "");
    assert "" + s + "" == s;
  }

  lemma ScopeIsNames(diagrams: seq<string>)
    requires ShowableNames(diagrams)
    ensures NamesOf(ScopeOf(diagrams)) == diagrams
    ensures ScopeOf(diagrams).Some? ==> forall i :: 0 <= i < |diagrams| ==> WellFormedName(diagrams[i])
  {
    NamesAreSqueezed(diagrams);
  }

  lemma PartsAreMeant(d: Decorator)
    requires Showable(d)
    ensures WellFormed(PartsOf(d)) && Meaning(PartsOf(d)) == d
  {
    hide Trim, ShowableNames, NamesOf, WellFormedName;
    var parts := PartsOf(d);
    if !d.Skip? && !d.SkipRelationship? {
      ScopeIsNames(d.diagrams);
      TrimOfEmpty();
      TrimmedStays("");
      TrimmedStays(parts.param.value);
      TrimmedStays(parts.text);
    }
  }

  /** Reading what is written of a decorator gives the decorator, whatever stands behind its closing brace. */
  lemma {:induction false} ReadShown(d: Decorator, slack: string)
    requires Showable(d)
    ensures OutcomeOf(Show(d) + ("}" + slack)) == Found(d)
  {
    hide *;
    ShowIsBody(d);
    PartsAreMeant(d);
    ReadDirective(PartsOf(d), slack);
  }

  /** A note without a position is on the left. */
  lemma {:induction false} ReadNoteWithoutPosition(text: string, slack: string)
    requires '}' !in text
    ensures OutcomeOf("note " + text + ("}" + slack)) == Found(Note([], "left", Trim(text)))
  {
    hide Trim, OutcomeOf;
    var d := Directive(NoteKind, None, None, " " + text);
    ReadDirective(d, slack);
    TrimAround(" ", text, "");
    assert " " + text + "" == " " + text;
    NoteBody(text);
  }

  lemma NoteBody(text: string)
    ensures Body(Directive(NoteKind, None, None, " " + text)) == "note " + text
  {
    assert "" + ("" + (" " + text)) == " " + text;
    Assoc("note", " ", text);
    assert "note" + " " == "note ";
  }

  /** A directive yields nothing exactly when it begins with none of the labels. */
  lemma {:induction false} UnknownIff(c: string)
    ensures OutcomeOf(c).Unknown? <==>
      !("note" <= c) && !("skip" <= c) && !("style" <= c) && !("aggregation" <= c) && !("composition" <= c)
      && !("association" <= c) && !("call" <= c)
  {
    hide TokensOf, FromTokens;
    assert "skiprelationship" <= c ==> "skip" <= c by {
      if "skiprelationship" <= c {
        assert c[..4] == c[..16][..4] == "skip";
      }
    }
    assert HasPrefix(c, "note") <==> "note" <= c;
    assert HasPrefix(c, "skip") <==> "skip" <= c;
    assert HasPrefix(c, "skiprelationship") <==> "skiprelationship" <= c;
    assert HasPrefix(c, "style") <==> "style" <= c;
    assert HasPrefix(c, "aggregation") <==> "aggregation" <= c;
    assert HasPrefix(c, "composition") <==> "composition" <= c;
    assert HasPrefix(c, "association") <==> "association" <= c;
    assert HasPrefix(c, "call") <==> "call" <= c;
  }

  // ---------- The over-long view ----------

  /** The view that `parse` hands on holds the closing brace exactly when at least two characters stand in front of the opening one. */
  lemma ViewHoldsBrace(block: string, open: nat, close: nat)
    requires open < close < |block| && 2 <= close
    ensures close - (open + 1) < |View(block, open, close)| <==> 2 <= open
    ensures 2 <= open ==> View(block, open, close)[close - (open + 1)] == block[close]
  {
  }

  /**
   * In every block, wherever a directive with a non-empty tag opens and a closing
   * brace is found for it, that brace is the first one in the view, at the place that it
   * has behind the opening one.
   */
  lemma {:induction false} ViewFindsBrace(block: string, tag: string, last: nat, pos: nat, close: nat)
    requires tag != "" && Find(block, Opening(tag), last) == Some(pos)
    requires FindChar(block, '}', pos + |tag| + 1) == Some(close)
    ensures var open := pos + |tag| + 1;
            && 2 <= open < close < |block|
            && FindChar(View(block, open, close), '}', 0) == Some(close - (open + 1))
            && View(block, open, close)[..close - (open + 1)] == block[open + 1..close]
  {
    var open := pos + |tag| + 1;
    OpeningEnds(block, tag, pos);
    FirstChar(block, '}', open);
    hide Opening, Find, OccursAt;
    ViewFront(block, open, close);
    FindCharIs(View(block, open, close), '}', 0, close - (open + 1));
  }

  lemma ViewFront(block: string, open: nat, close: nat)
    requires 2 <= open < close < |block|
    ensures var k := close - (open + 1);
            && k < |View(block, open, close)| && View(block, open, close)[k] == block[close]
            && View(block, open, close)[..k] == block[open + 1..close]
            && forall j :: 0 <= j < k ==> View(block, open, close)[j] == block[open + 1 + j]
  {
  }

  // ---------- Where tokenize stops ----------

  /** An option bracket that opens in `t` is closed in `t`. */
  predicate ClosedOption(t: string) {
    t != "" && t[0] == '[' ==> FindChar(t, ']', 1).Some?
  }

  /** What follows a label: a scope is followed by an option bracket, and an option bracket is closed. */
  predicate Closed(t: string) {
    if t != "" && t[0] == ':' then
      match FindChar(t, '[', 1)
      case None => false
      case Some(k) => ClosedOption(t[k..])
    else ClosedOption(t)
  }

  /** The option part and the text of what is closed. */
  function OptionsInside(diagrams: seq<string>, t: string): Toks
    requires ClosedOption(t)
  {
    if t != "" && t[0] == '[' then
      var k := FindChar(t, ']', 1).value;
      Toks(diagrams, Trim(t[1..k]), Trim(t[k + 1..]))
    else Toks(diagrams, "", Trim(if t != "" && IsSpace(t[0]) then t[1..] else t))
  }

  lemma TailStops(t: string, slack: string, k: nat)
    requires '}' !in t && k <= |t|
    ensures UpTo((t + ("}" + slack))[k..], '}') == t[k..]
    ensures k > 0 ==> (t + ("}" + slack))[1..k] == t[1..k]
  {
    hide UpTo;
    assert (t + ("}" + slack))[k..] == t[k..] + ("}" + slack);
    UpToBehind(t[k..], '}', slack);
  }

  lemma ClosedOptionStops(diagrams: seq<string>, t: string, slack: string)
    requires '}' !in t && ClosedOption(t)
    ensures OptionsAndText(diagrams, t + ("}" + slack)) == Some(OptionsInside(diagrams, t))
  {
    hide Trim, UpTo, FindChar;
    var rest := t + ("}" + slack);
    FindCharInConcat(t + "", "}" + slack, ']', if t == "" then 0 else 1);
    assert t + "" == t;
    if t != "" && t[0] == '[' {
      var k := FindChar(t, ']', 1).value;
      TailStops(t, slack, k);
      TailStops(t, slack, k + 1);
    } else {
      TailStops(t, slack, if t != "" && IsSpace(t[0]) then 1 else 0);
      assert rest[0..] == rest && t[0..] == t;
      TrimOfEmpty();
    }
  }

  /** What follows a closed scope and option is read up to the first closing brace, whatever stands behind it. */
  lemma ClosedStops(t: string, slack: string)
    requires '}' !in t && Closed(t)
    ensures TokensOf(t + ("}" + slack)) == TokensOf(t + "}") && TokensOf(t + "}").Some?
  {
    hide OptionsAndText, DiagramsOf, OptionsInside;
    assert "}" + "" == "}";
    if t != "" && t[0] == ':' {
      var k := FindChar(t, '[', 1).value;
      ScopeInFront(t, slack, k);
      ScopeInFront(t, "", k);
      ClosedOptionStops(DiagramsOf(t[1..k]), t[k..], slack);
      ClosedOptionStops(DiagramsOf(t[1..k]), t[k..], "");
    } else {
      ClosedOptionStops([], t, slack);
      ClosedOptionStops([], t, "");
    }
  }

  lemma ScopeSlices(t: string, end: string, k: nat)
    requires 1 <= k <= |t|
    ensures (t + end)[k..] == t[k..] + end && (t + end)[1..k] == t[1..k] && (t + end)[0] == t[0]
  {
  }

  lemma ScopeInFront(t: string, slack: string, k: nat)
    requires t != "" && t[0] == ':' && FindChar(t, '[', 1) == Some(k)
    ensures TokensOf(t + ("}" + slack)) == OptionsAndText(DiagramsOf(t[1..k]), t[k..] + ("}" + slack))
  {
    hide OptionsAndText, DiagramsOf, FindChar;
    FindCharInConcat(t, "}" + slack, '[', 1);
    ScopeSlices(t, "}" + slack, k);
  }

  lemma OpenOptionRuns(diagrams: seq<string>, t: string)
    requires !ClosedOption(t)
    ensures OptionsAndText(diagrams, t + "}").None?
    ensures OptionsAndText(diagrams, t + ("}" + "[]")).Some?
  {
    hide Trim, UpTo;
    FindCharNone(t, ']', 1);
    FindCharNone(t + "}", ']', 1);
    var longer := t + ("}" + "[]");
    assert longer[|t| + 2] == ']';
    FindCharNone(longer, ']', 1);
  }

  lemma OpenScopeRuns(t: string)
    requires t != "" && t[0] == ':' && FindChar(t, '[', 1).None?
    ensures TokensOf(t + "}").None? && TokensOf(t + ("}" + "[]")).Some?
  {
    hide OptionsAndText, DiagramsOf;
    var end := "}" + "[]";
    FindCharNone(t, '[', 1);
    FindCharNone(t + "}", '[', 1);
    FindCharIs(t + end, '[', 1, |t| + 1);
    assert (t + end)[|t| + 1..] == "[" + "" + "]" + "";
    BareOption(DiagramsOf((t + end)[1..|t| + 1]));
  }

  /** What does not close is read on behind the brace: it depends on what stands there whether there are tokens at all. */
  lemma OpenRunsOn(t: string)
    requires '}' !in t && !Closed(t)
    ensures TokensOf(t + ("}" + "")).None? && TokensOf(t + ("}" + "[]")).Some?
  {
    hide OptionsAndText, DiagramsOf;
    assert "}" + "" == "}";
    if t[0] == ':' {
      if FindChar(t, '[', 1).Some? {
        var k := FindChar(t, '[', 1).value;
        ScopeInFront(t, "", k);
        ScopeInFront(t, "[]", k);
        OpenOptionRuns(DiagramsOf(t[1..k]), t[k..]);
      } else {
        OpenScopeRuns(t);
      }
    } else {
      OpenOptionRuns([], t);
    }
  }

  lemma BareOption(diagrams: seq<string>)
    ensures OptionsAndText(diagrams, "[" + "" + "]" + "").Some?
  {
    hide Trim, UpTo;
    assert ("[" + "" + "]" + "")[1] == ']';
    FindCharIs("[" + "" + "]" + "", ']', 1, 1);
  }

  /** `tokenize` stops at the brace that `parse` found, whatever stands behind it, just when scope and option are closed. */
  lemma {:induction false} StopsAtBraceIff(t: string)
    requires '}' !in t
    ensures (forall s1, s2 :: TokensOf(t + ("}" + s1)) == TokensOf(t + ("}" + s2))) <==> Closed(t)
  {
    hide TokensOf, Closed;
    if Closed(t) {
      forall s1, s2 ensures TokensOf(t + ("}" + s1)) == TokensOf(t + ("}" + s2)) {
        ClosedStops(t, s1);
        ClosedStops(t, s2);
      }
    } else {
      OpenRunsOn(t);
    }
  }

  /** A directive between its braces: it has no tokens to read, or they are closed. */
  predicate ClosedBody(body: string) {
    match KindOf(body)
    case None => true
    case Some(kind) => UsesTokens(kind) ==> Closed(body[|Label(kind)|..])
  }

  lemma LabelHasNoBrace(kind: Kind)
    ensures '}' !in Label(kind)
  {
  }

  lemma PrefixChar(s: string, p: string, i: nat)
    requires i < |p|
    ensures HasPrefix(s, p) ==> i < |s| && s[i] == p[i]
  {
    if HasPrefix(s, p) {
      assert s[..|p|][i] == s[i];
    }
  }

  lemma PrefixInFront(body: string, end: string, p: string)
    requires '}' !in p && end != "" && end[0] == '}'
    ensures HasPrefix(body + end, p) <==> HasPrefix(body, p)
  {
    if |p| <= |body| {
      assert (body + end)[..|p|] == body[..|p|];
    } else {
      PrefixChar(body + end, p, |body|);
    }
  }

  lemma KindInFront(body: string, slack: string)
    ensures KindOf(body + ("}" + slack)) == KindOf(body)
    ensures KindOf(body).Some? ==> |Label(KindOf(body).value)| <= |body|
  {
    hide Label, HasPrefix;
    var end := "}" + slack;
    LabelInFront(body, end, NoteKind);
    LabelInFront(body, end, SkipRelationshipKind);
    LabelInFront(body, end, SkipKind);
    LabelInFront(body, end, StyleKind);
    LabelInFront(body, end, AggregationKind);
    LabelInFront(body, end, CompositionKind);
    LabelInFront(body, end, AssociationKind);
    LabelInFront(body, end, CallKind);
  }

  lemma LabelInFront(body: string, end: string, kind: Kind)
    requires end != "" && end[0] == '}'
    ensures HasPrefix(body + end, Label(kind)) <==> HasPrefix(body, Label(kind))
    ensures HasPrefix(body, Label(kind)) ==> |Label(kind)| <= |body|
  {
    LabelHasNoBrace(kind);
    PrefixInFront(body, end, Label(kind));
  }

  /** What a directive means when all of its view behind the brace is cut off. */
  lemma ClosedBodyStops(body: string, slack: string)
    requires '}' !in body && ClosedBody(body)
    ensures OutcomeOf(body + ("}" + slack)) == OutcomeOf(body + "}")
  {
    hide KindOf, Label, TokensOf, Closed, FromTokens;
    KindInFront(body, slack);
    KindInFront(body, "");
    assert "}" + "" == "}";
    if KindOf(body).Some? {
      var n := |Label(KindOf(body).value)|;
      assert (body + ("}" + slack))[n..] == body[n..] + ("}" + slack) && (body + "}")[n..] == body[n..] + "}";
      if UsesTokens(KindOf(body).value) {
        ClosedStops(body[n..], slack);
      }
    }
  }

  // ---------- The over-long views do no harm to closed directives ----------

  /** `ParseFrom` with views that end on the closing brace. */
  function ParseExactly(block: string, tag: string, last: nat): Parsed
    requires last <= |block|
    decreases |block| - last
  {
    match Find(block, Opening(tag), last)
    case None => Parsed([], "")
    case Some(pos) =>
      var open := pos + |tag| + 1;
      match FindChar(block, '}', open)
      case None => Parsed([], "")
      case Some(close) =>
        OpeningEnds(block, tag, pos);
        Prepend(OutcomeOf(block[open + 1..close + 1]), block[last..pos], ParseExactly(block, tag, close + 1))
  }

  /** Every directive of the block is closed. */
  predicate AllClosed(block: string, tag: string, last: nat)
    requires last <= |block|
    decreases |block| - last
  {
    match Find(block, Opening(tag), last)
    case None => true
    case Some(pos) =>
      var open := pos + |tag| + 1;
      match FindChar(block, '}', open)
      case None => true
      case Some(close) =>
        OpeningEnds(block, tag, pos);
        ClosedBody(block[open + 1..close]) && AllClosed(block, tag, close + 1)
  }

  /** Any block whose directives are closed is parsed as if each view ended on its brace. */
  lemma {:induction false} ViewsDoNoHarm(block: string, tag: string, last: nat)
    requires tag != "" && last <= |block| && AllClosed(block, tag, last)
    ensures ParseFrom(block, tag, last) == ParseExactly(block, tag, last)
    decreases |block| - last
  {
    hide OutcomeOf, View, Prepend, ClosedBody, Opening, OccursAt, Find, FindChar;
    if Find(block, Opening(tag), last).Some? {
      var pos := Find(block, Opening(tag), last).value;
      var open := pos + |tag| + 1;
      if FindChar(block, '}', open).Some? {
        var close := FindChar(block, '}', open).value;
        OpeningEnds(block, tag, pos);
        ClosedViewIsExact(block, tag, last, pos, close);
        ViewsDoNoHarm(block, tag, close + 1);
      }
    }
  }

  /** The view is what ends on the brace, and more. */
  lemma ViewGoesOn(block: string, open: nat, close: nat) returns (slack: string)
    requires 2 <= open < close < |block| && block[close] == '}'
    ensures View(block, open, close) == block[open + 1..close] + ("}" + slack)
    ensures block[open + 1..close + 1] == block[open + 1..close] + "}"
  {
    ViewFront(block, open, close);
    hide View;
    var body, view := block[open + 1..close], View(block, open, close);
    slack := view[|body| + 1..];
    SplitAround(view, |body|);
    Assoc(body, "}", slack);
  }

  lemma ClosedViewIsExact(block: string, tag: string, last: nat, pos: nat, close: nat)
    requires tag != "" && Find(block, Opening(tag), last) == Some(pos)
    requires FindChar(block, '}', pos + |tag| + 1) == Some(close)
    requires pos + |tag| + 1 < close && ClosedBody(block[pos + |tag| + 2..close])
    ensures 2 <= close && OutcomeOf(View(block, pos + |tag| + 1, close)) == OutcomeOf(block[pos + |tag| + 2..close + 1])
  {
    hide *;
    var open := pos + |tag| + 1;
    FirstChar(block, '}', open);
    var slack := ViewGoesOn(block, open, close);
    ClosedBodyStops(block[open + 1..close], slack);
  }

  const RUNNING_OVER := "Text before " + "@uml{" + "note[left" + "}" + " x] y}"

  lemma RunningOverParts()
    ensures |RUNNING_OVER| == 33 && RUNNING_OVER[26] == '}' && '}' !in RUNNING_OVER[16..26]
    ensures RUNNING_OVER[17..26] == "note" + "[left"
    ensures RUNNING_OVER[17..] == "note" + ("[" + "left} x" + "]" + (" y" + ("}" + "")))
  {
  }

  lemma RunningOverOpen()
    ensures !ClosedBody("note" + "[left")
  {
    KindOfLabel(NoteKind, "[left");
    FindCharNone("[left", ']', 1);
  }

  lemma RunningOverTokens()
    ensures TokensOf("[" + "left} x" + "]" + (" y" + ("}" + ""))) == Some(Toks([], "left} x", "y"))
  {
    hide Trim, OptionsAndText;
    ReadOptions([], "left} x", " y", "");
    TrimIs("", "left} x", "");
    TrimIs(" ", "y", "");
    assert "" + "left} x" + "" == "left} x" && " " + "y" + "" == " y";
  }

  /** Here `parse` has its brace at 26, but the option runs over it, and the text ends on the brace at 32. */
  lemma {:induction false} OpenOptionRunsOver()
    ensures |RUNNING_OVER| == 33 && FindChar(RUNNING_OVER, '}', 16) == Some(26)
    ensures OutcomeOf(View(RUNNING_OVER, 16, 26)) == Found(Note([], "left} x", "y"))
    ensures !ClosedBody(RUNNING_OVER[17..26])
  {
    hide TokensOf, KindOf, ClosedBody;
    RunningOverParts();
    hide RUNNING_OVER;
    FindCharIs(RUNNING_OVER, '}', 16, 26);
    assert View(RUNNING_OVER, 16, 26) == RUNNING_OVER[17..];
    var rest := "[" + "left} x" + "]" + (" y" + ("}" + ""));
    KindOfLabel(NoteKind, rest);
    RunningOverTokens();
    RunningOverOpen();
  }

  /** What stands between the braces is the front of the view, and the closing brace follows. */
  lemma ViewSplits(block: string, open: nat, body: string, rest: string) returns (slack: string)
    requires 2 <= open < |block| && block[open + 1..] == body + ("}" + rest)
    ensures open + 1 + |body| < |block|
    ensures View(block, open, open + 1 + |body|) == body + ("}" + slack)
  {
    assert |block| == open + 1 + |block[open + 1..]|;
    var close := open + 1 + |body|;
    var view := View(block, open, close);
    slack := view[|body| + 1..];
    assert view == block[open + 1..][..|view|];
    assert view[..|body| + 1] == body + "}";
  }

  // ---------- Comments ----------

  /** Text, and a directive behind it that is written with a backslash or an at sign. */
  datatype Item = Item(gap: string, escaped: bool, directive: Directive)

  function Sigil(escaped: bool): string {
    if escaped then "\\" else "@"
  }

  function Render(items: seq<Item>, tag: string, tail: string): string {
    if items == [] then tail
    else
      items[0].gap + (Sigil(items[0].escaped) + (tag + ("{" + (Body(items[0].directive) + ("}" + Render(items[1..], tag, tail))))))
  }

  function Gaps(items: seq<Item>): string {
    if items == [] then "" else items[0].gap + Gaps(items[1..])
  }

  function Meanings(items: seq<Item>): seq<Decorator> {
    if items == [] then [] else [Meaning(items[0].directive)] + Meanings(items[1..])
  }

  function Unescaped(items: seq<Item>): seq<Item> {
    if items == [] then [] else [items[0].(escaped := false)] + Unescaped(items[1..])
  }

  predicate WellFormedTag(tag: string) {
    tag != "" && '@' !in tag && '\\' !in tag && '}' !in tag
  }

  /** Text in which no directive opens. */
  ghost predicate PlainText(text: string, tag: string) {
    !Contains(text, Opening(tag)) && !Contains(text, "\\" + tag)
  }

  ghost predicate WellFormedItems(items: seq<Item>, tag: string) {
    forall i :: 0 <= i < |items| ==> WellFormedItem(items[i], tag)
  }

  ghost predicate WellFormedItem(item: Item, tag: string) {
    && PlainText(item.gap, tag)
    && WellFormed(item.directive)
    && !Contains("{" + Body(item.directive), "\\" + tag)
  }

  /** Nothing begins in `a` when the character behind it can only begin an occurrence. */
  lemma NothingBegins(a: string, x: char, b: string, p: string)
    requires p != "" && !Contains(a, p) && forall j :: 1 <= j < |p| ==> p[j] != x
    ensures forall k :: 0 <= k < |a| ==> !OccursAt(a + ([x] + b), p, k)
  {
    var s := a + ([x] + b);
    assert s[|a|] == x;
    forall k | 0 <= k < |a| ensures !OccursAt(s, p, k) {
      if k + |p| <= |a| {
        OccursInFront(a, [x] + b, p, k);
      } else {
        OccursChar(s, p, k, |a| - k);
      }
    }
  }

  // ---------- Backslashes become at signs ----------

  lemma ReplacedGap(gap: string, x: char, b: string, tag: string)
    requires WellFormedTag(tag) && !Contains(gap, "\\" + tag) && x !in tag
    ensures Replaced(gap + ([x] + b), "\\" + tag, "@" + tag) == gap + Replaced([x] + b, "\\" + tag, "@" + tag)
  {
    hide Replaced, OccursAt, Contains;
    NothingBegins(gap, x, b, "\\" + tag);
    ReplacedKeeps(gap, [x] + b, "\\" + tag, "@" + tag);
  }

  lemma ReplacedChar(x: char, b: string, tag: string)
    requires x != '\\'
    ensures Replaced([x] + b, "\\" + tag, "@" + tag) == [x] + Replaced(b, "\\" + tag, "@" + tag)
  {
    hide Replaced;
    var p := "\\" + tag;
    OccursChar([x] + b, p, 0, 0);
    ReplacedKeeps([x], b, p, "@" + tag);
  }

  /** What stands behind the tag of an item. */
  lemma ReplacedBraces(d: Directive, rest: string, tag: string)
    requires WellFormedTag(tag) && !Contains("{" + Body(d), "\\" + tag)
    ensures Replaced("{" + (Body(d) + ("}" + rest)), "\\" + tag, "@" + tag) ==
            "{" + (Body(d) + ("}" + Replaced(rest, "\\" + tag, "@" + tag)))
  {
    hide Replaced, Contains, Body;
    Assoc("{", Body(d), "}" + rest);
    ReplacedGap("{" + Body(d), '}', rest, tag);
    ReplacedChar('}', rest, tag);
    Assoc("{", Body(d), "}" + Replaced(rest, "\\" + tag, "@" + tag));
  }

  /** Behind the text of an item: sigil and tag become an at sign and the tag. */
  lemma ReplacedSigil(escaped: bool, rest: string, tag: string)
    requires WellFormedTag(tag)
    ensures Replaced(Sigil(escaped) + (tag + rest), "\\" + tag, "@" + tag) ==
            "@" + (tag + Replaced(rest, "\\" + tag, "@" + tag))
  {
    hide Replaced, OccursAt;
    Assoc("@", tag, Replaced(rest, "\\" + tag, "@" + tag));
    if escaped {
      Assoc("\\", tag, rest);
      ReplacedFront("\\" + tag, rest, "@" + tag);
    } else {
      Assoc("@", tag, rest);
      NothingInSigil(rest, tag);
      ReplacedKeeps("@" + tag, rest, "\\" + tag, "@" + tag);
    }
  }

  lemma NothingInSigil(rest: string, tag: string)
    requires WellFormedTag(tag)
    ensures forall k :: 0 <= k < |"@" + tag| ==> !OccursAt("@" + tag + rest, "\\" + tag, k)
  {
    var s, p := "@" + tag + rest, "\\" + tag;
    forall k | 0 <= k < |"@" + tag| ensures !OccursAt(s, p, k) {
      assert s[k] == ("@" + tag)[k];
      OccursChar(s, p, k, 0);
    }
  }

  lemma {:induction false} ReplacedRender(items: seq<Item>, tag: string, tail: string)
    requires WellFormedTag(tag) && WellFormedItems(items, tag) && PlainText(tail, tag)
    ensures Replaced(Render(items, tag, tail), "\\" + tag, "@" + tag) == Render(Unescaped(items), tag, tail)
  {
    hide Replaced, Contains, Body, WellFormed;
    if items == [] {
      ReplacementsPositive(tail, "\\" + tag);
      ReplacedNone(tail, "\\" + tag, "@" + tag);
    } else {
      var item, rest := items[0], Render(items[1..], tag, tail);
      assert WellFormedItem(item, tag);
      ReplacedRender(items[1..], tag, tail);
      ReplacedItem(item, rest, tag);
      assert Unescaped(items)[1..] == Unescaped(items[1..]);
    }
  }

  lemma ReplacedItem(item: Item, rest: string, tag: string)
    requires WellFormedTag(tag) && WellFormedItem(item, tag)
    ensures Replaced(item.gap + (Sigil(item.escaped) + (tag + ("{" + (Body(item.directive) + ("}" + rest))))), "\\" + tag, "@" + tag) ==
            item.gap + ("@" + (tag + ("{" + (Body(item.directive) + ("}" + Replaced(rest, "\\" + tag, "@" + tag))))))
  {
    hide Replaced, Contains, Body, WellFormed;
    var braces := "{" + (Body(item.directive) + ("}" + rest));
    ReplacedGap(item.gap, Sigil(item.escaped)[0], tag + braces, tag);
    assert [Sigil(item.escaped)[0]] == Sigil(item.escaped);
    ReplacedSigil(item.escaped, braces, tag);
    ReplacedBraces(item.directive, rest, tag);
  }

  // ---------- Reading a rendered comment ----------

  lemma BodyHasNoBrace(d: Directive)
    requires WellFormed(d)
    ensures '}' !in Body(d)
  {
    assert '}' !in Label(d.kind);
    hide Label, RemoveSpaces, Join;
    if d.scope.Some? {
      NotInJoin(d.scope.value, '}');
    }
    assert '}' !in ScopeText(d.scope) && '}' !in ParamText(d.param);
  }

  lemma OpeningOf(tag: string, rest: string)
    ensures "@" + (tag + ("{" + rest)) == Opening(tag) + rest
  {
    Assoc(tag, "{", rest);
    Assoc("@", tag + "{", rest);
    Assoc("@", tag, "{");
  }

  /** The first directive opens behind the first gap. */
  lemma FindBehindGap(gap: string, tag: string, rest: string)
    requires WellFormedTag(tag) && !Contains(gap, Opening(tag))
    ensures Find(gap + ("@" + (tag + ("{" + rest))), Opening(tag), 0) == Some(|gap|)
  {
    hide Contains;
    var s := gap + ("@" + (tag + ("{" + rest)));
    OpeningOf(tag, rest);
    assert s[|gap|..|gap| + |Opening(tag)|] == Opening(tag);
    NothingBegins(gap, '@', tag + ("{" + rest), Opening(tag));
    FindIs(s, Opening(tag), |gap|);
  }

  /** Where the parts of the first item are in the block. */
  lemma ItemPlaces(block: string, last: nat, gap: string, tag: string, body: string, rest: string)
    requires last <= |block| && block[last..] == gap + ("@" + (tag + ("{" + (body + ("}" + rest)))))
    ensures last + |gap| + |tag| + 2 + |body| < |block|
    ensures block[last..last + |gap|] == gap
    ensures block[last + |gap| + |tag| + 1..] == "{" + (body + ("}" + rest))
    ensures block[last + |gap| + |tag| + 2..] == body + ("}" + rest)
    ensures block[last + |gap| + |tag| + 3 + |body|..] == rest
  {
    var s := block[last..];
    assert |block| == last + |s|;
    SliceOfDrop(block, last, 0, |gap|);
    DropDrop(block, last, |gap| + |tag| + 1);
    DropDrop(block, last, |gap| + |tag| + 2);
    DropDrop(block, last, |gap| + |tag| + 3 + |body|);
    ItemSlices(gap, tag, body, rest);
  }

  lemma ItemSlices(gap: string, tag: string, body: string, rest: string)
    ensures var s := gap + ("@" + (tag + ("{" + (body + ("}" + rest)))));
      && s[0..|gap|] == gap
      && s[|gap| + |tag| + 1..] == "{" + (body + ("}" + rest))
      && s[|gap| + |tag| + 2..] == body + ("}" + rest)
      && s[|gap| + |tag| + 3 + |body|..] == rest
  {
    var s := gap + ("@" + (tag + ("{" + (body + ("}" + rest)))));
    assert s[|gap| + |tag| + 1..] == "{" + (body + ("}" + rest));
    assert s[|gap| + |tag| + 2..] == body + ("}" + rest);
    assert s[|gap| + |tag| + 3 + |body|..] == rest;
  }

  /** Where the program finds the first directive of the block. */
  lemma FindItem(block: string, tag: string, last: nat, item: Item, rest: string)
    requires WellFormedTag(tag) && WellFormedItem(item, tag) && last <= |block|
    requires block[last..] == item.gap + ("@" + (tag + ("{" + (Body(item.directive) + ("}" + rest)))))
    ensures Find(block, Opening(tag), last) == Some(last + |item.gap|)
  {
    hide Contains, WellFormed, Find, Body, OccursAt, Opening;
    FindBehindGap(item.gap, tag, Body(item.directive) + ("}" + rest));
    FindShift(block, Opening(tag), last);
  }

  /** A directive ends at the first closing brace behind its opening one. */
  lemma FindItemEnd(block: string, open: nat, d: Directive, rest: string)
    requires open <= |block| && block[open..] == "{" + (Body(d) + ("}" + rest)) && WellFormed(d)
    ensures FindChar(block, '}', open) == Some(open + 1 + |Body(d)|)
  {
    hide FindChar, Body, WellFormed;
    BodyHasNoBrace(d);
    Assoc("{", Body(d), "}" + rest);
    FindCharBehind("{" + Body(d), '}', rest, 0);
    FindCharInDrop(block, '}', open, 0);
  }

  /** One directive of the block: the gap in front of it and its meaning are taken, and the search goes on behind it. */
  lemma ParseItem(block: string, tag: string, last: nat, item: Item, rest: string)
    requires WellFormedTag(tag) && WellFormedItem(item, tag) && last <= |block|
    requires block[last..] == item.gap + ("@" + (tag + ("{" + (Body(item.directive) + ("}" + rest)))))
    ensures exists next: nat ::
              && last < next <= |block| && block[next..] == rest
              && ParseFrom(block, tag, last) == Prepend(Found(Meaning(item.directive)), item.gap, ParseFrom(block, tag, next))
  {
    hide ParseFrom, OutcomeOf, View, Prepend, Contains, Meaning, WellFormed, Find, FindChar, Body, OccursAt;
    var body := Body(item.directive);
    ItemPlaces(block, last, item.gap, tag, body, rest);
    FindItem(block, tag, last, item, rest);
    var open := last + |item.gap| + |tag| + 1;
    FindItemEnd(block, open, item.directive, rest);
    var slack := ViewSplits(block, open, body, rest);
    ReadDirective(item.directive, slack);
    ParseFromFound(block, tag, last, last + |item.gap|, open + 1 + |body|);
  }

  lemma {:induction false} ParseItems(block: string, tag: string, last: nat, items: seq<Item>, tail: string)
    requires WellFormedTag(tag) && WellFormedItems(items, tag) && PlainText(tail, tag) && last <= |block|
    requires block[last..] == Render(Unescaped(items), tag, tail)
    ensures ParseFrom(block, tag, last) == Parsed(Meanings(items), Gaps(items))
    decreases |items|
  {
    hide ParseFrom, Find, FindChar, Body, Meaning, OccursAt, WellFormed, Opening, Contains;
    if items == [] {
      NotContained(tail, Opening(tag));
      FindShift(block, Opening(tag), last);
      ParseFromLast(block, tag, last);
    } else {
      var rest := Render(Unescaped(items[1..]), tag, tail);
      assert Unescaped(items)[1..] == Unescaped(items[1..]);
      assert WellFormedItem(items[0], tag);
      ParseItem(block, tag, last, items[0], rest);
      var next: nat :| last < next <= |block| && block[next..] == rest &&
        ParseFrom(block, tag, last) == Prepend(Found(Meaning(items[0].directive)), items[0].gap, ParseFrom(block, tag, next));
      ParseItems(block, tag, next, items[1..], tail);
    }
  }

  lemma NotContained(s: string, p: string)
    requires !Contains(s, p)
    ensures Find(s, p, 0).None?
  {
  }

  // ---------- The comment is trimmed before it is read ----------

  lemma {:induction false} RenderTail(items: seq<Item>, tag: string, a: string, b: string)
    ensures Render(items, tag, a + b) == Render(items, tag, a) + b
  {
    hide Body, Sigil;
    if items != [] {
      RenderTail(items[1..], tag, a, b);
      var r := Render(items[1..], tag, a);
      var i, d := items[0], Body(items[0].directive);
      Assoc("}", r, b);
      Assoc(d, "}" + r, b);
      Assoc("{", d + ("}" + r), b);
      Assoc(tag, "{" + (d + ("}" + r)), b);
      Assoc(Sigil(i.escaped), tag + ("{" + (d + ("}" + r))), b);
      Assoc(i.gap, Sigil(i.escaped) + (tag + ("{" + (d + ("}" + r)))), b);
    }
  }

  lemma {:induction false} RenderEnds(items: seq<Item>, tag: string)
    requires items != []
    ensures var s := Render(items, tag, ""); s != "" && s[|s| - 1] == '}'
  {
    hide Body, Sigil;
    if |items| > 1 {
      RenderEnds(items[1..], tag);
      LastOf(items[0].gap, Sigil(items[0].escaped), tag, Body(items[0].directive), Render(items[1..], tag, ""));
    } else {
      assert Render(items[1..], tag, "") == "";
      LastOf(items[0].gap, Sigil(items[0].escaped), tag, Body(items[0].directive), "");
    }
  }

  lemma LastOf(a: string, b: string, c: string, d: string, e: string)
    ensures var s := a + (b + (c + ("{" + (d + ("}" + e))))); s != "" && s[|s| - 1] == if e == "" then '}' else e[|e| - 1]
  {
  }

  lemma PlainPart(a: string, b: string, c: string, tag: string)
    requires PlainText(a + b + c, tag)
    ensures PlainText(b, tag)
  {
    hide Contains, Opening;
    if Contains(b, Opening(tag)) {
      ContainedInside(a, b, c, Opening(tag));
    }
    if Contains(b, "\\" + tag) {
      ContainedInside(a, b, c, "\\" + tag);
    }
  }

  /** The items without the white space that the comment begins with. */
  function WithoutLeading(items: seq<Item>): seq<Item>
    requires items != []
  {
    [items[0].(gap := LTrim(items[0].gap))] + items[1..]
  }

  lemma TrimLeading(items: seq<Item>, tag: string, tail: string) returns (before: string)
    requires items != [] && WellFormedItems(items, tag)
    ensures AllSpace(before)
    ensures Render(Unescaped(items), tag, tail) == before + Render(Unescaped(WithoutLeading(items)), tag, tail)
    ensures Gaps(items) == before + Gaps(WithoutLeading(items))
    ensures Meanings(WithoutLeading(items)) == Meanings(items)
    ensures WellFormedItems(WithoutLeading(items), tag)
  {
    hide Body, WellFormed, LTrim, Contains, Meaning, AllSpace;
    before := LTrimPart(items[0].gap);
    var less := WithoutLeading(items);
    assert WellFormedItem(items[0], tag);
    assert before + LTrim(items[0].gap) + "" == items[0].gap;
    PlainPart(before, LTrim(items[0].gap), "", tag);
    assert less[1..] == items[1..];
    assert forall i :: 1 <= i < |items| ==> less[i] == items[i];
    Assoc(before, LTrim(items[0].gap), Gaps(items[1..]));
    assert Unescaped(items)[1..] == Unescaped(items[1..]) == Unescaped(less)[1..];
    var rest := "@" + (tag + ("{" + (Body(items[0].directive) + ("}" + Render(Unescaped(items[1..]), tag, tail)))));
    Assoc(before, LTrim(items[0].gap), rest);
  }

  lemma RenderStarts(items: seq<Item>, tag: string, tail: string)
    requires items != [] && (items[0].gap == "" || !IsSpace(items[0].gap[0]))
    ensures var s := Render(items, tag, tail); s != "" && !IsSpace(s[0])
  {
    hide Body;
    var i := items[0];
    var s := Render(items, tag, tail);
    if i.gap == "" {
      assert s[0] == Sigil(i.escaped)[0];
    } else {
      assert s[0] == i.gap[0];
    }
  }

  /** Trimming the comment trims the first gap on the left and the tail on the right. */
  lemma TrimRender(items: seq<Item>, tag: string, tail: string)
    requires items != [] && WellFormedItems(items, tag)
    ensures Trim(Render(Unescaped(items), tag, tail)) == Render(Unescaped(WithoutLeading(items)), tag, RTrim(tail))
  {
    hide Body, WellFormed, RTrim, LTrim, Trim, Meaning, Contains, Gaps, Meanings, WellFormedItem, Sigil;
    var before := TrimLeading(items, tag, tail);
    var after := RTrimPart(tail);
    var less := Unescaped(WithoutLeading(items));
    RenderTail(less, tag, RTrim(tail), after);
    var core := Render(less, tag, RTrim(tail));
    RenderStarts(less, tag, RTrim(tail));
    RenderTail(less, tag, "", RTrim(tail));
    RenderEnds(less, tag);
    assert "" + RTrim(tail) == RTrim(tail);
    hide Render, WithoutLeading, Unescaped;
    assert core[|core| - 1] == if RTrim(tail) == "" then '}' else RTrim(tail)[|RTrim(tail)| - 1];
    Assoc(before, core, after);
    TrimIs(before, core, after);
  }

  lemma ParseOfBlock(documentation: string, block: string, tag: string)
    requires block == Trim(Replaced(documentation, "\\" + tag, "@" + tag))
    ensures Find(block, Opening(tag), 0).None? ==> ParseOf(documentation, tag) == Parsed([], Trim(block))
    ensures Find(block, Opening(tag), 0).Some? && ParseFrom(block, tag, 0).Parsed? ==>
      ParseOf(documentation, tag) == Parsed(ParseFrom(block, tag, 0).decorators, Trim(ParseFrom(block, tag, 0).comment))
  {
    hide Trim, Replaced, ParseFrom, Find, Opening;
  }

  lemma TrimTwice(s: string)
    ensures Trim(Trim(s)) == Trim(s)
  {
    hide Trim;
    var before, after := TrimParts(s);
    TrimAround(before, Trim(s), after);
  }

  /** A comment without directives comes back trimmed. */
  lemma {:induction false} ParseWithoutDirectives(text: string, tag: string)
    requires WellFormedTag(tag) && PlainText(text, tag)
    ensures ParseOf(text, tag) == Parsed([], Trim(text))
  {
    hide Trim, Contains, Replaced, ParseOf, Opening;
    ReplacedRender([], tag, text);
    var before, after := TrimParts(text);
    PlainPart(before, Trim(text), after, tag);
    NotContained(Trim(text), Opening(tag));
    ParseOfBlock(text, Trim(text), tag);
    TrimTwice(text);
  }

  lemma {:induction false} ParseWithDirectives(items: seq<Item>, tag: string, tail: string)
    requires WellFormedTag(tag) && WellFormedItems(items, tag) && PlainText(tail, tag) && items != []
    ensures ParseOf(Render(items, tag, tail), tag) == Parsed(Meanings(items), Trim(Gaps(items)))
  {
    hide Trim, RTrim, Contains, Replaced, ParseOf, ParseFrom, Opening, Render, Unescaped, LTrim, Gaps, Meanings, Find, WellFormedItem;
    ReplacedRender(items, tag, tail);
    TrimRender(items, tag, tail);
    var before := TrimLeading(items, tag, tail);
    var after := RTrimPart(tail);
    assert "" + RTrim(tail) + after == tail;
    PlainPart("", RTrim(tail), after, tag);
    var less := WithoutLeading(items);
    var block := Render(Unescaped(less), tag, RTrim(tail));
    assert block[0..] == block;
    ParseItems(block, tag, 0, less, RTrim(tail));
    ParseOfBlock(Render(items, tag, tail), block, tag);
    FirstOpens(less, tag, RTrim(tail));
    TrimAround(before, Gaps(less), "");
    assert before + Gaps(less) + "" == before + Gaps(less);
  }

  lemma FirstOpens(items: seq<Item>, tag: string, tail: string)
    requires WellFormedTag(tag) && WellFormedItems(items, tag) && items != []
    ensures Find(Render(Unescaped(items), tag, tail), Opening(tag), 0).Some?
  {
    hide Contains, Find, Opening, Body, WellFormed;
    assert WellFormedItem(items[0], tag);
    FindBehindGap(items[0].gap, tag, Body(items[0].directive) + ("}" + Render(Unescaped(items)[1..], tag, tail)));
  }

  /**
   * The round trip of a whole comment. The directives come back in order as they
   * are meant, with the trimmed text in front of them; text behind the last
   * directive is kept only when there is no directive at all.
   */
  lemma {:induction false} ParseRendered(items: seq<Item>, tag: string, tail: string)
    requires WellFormedTag(tag) && WellFormedItems(items, tag) && PlainText(tail, tag)
    ensures ParseOf(Render(items, tag, tail), tag) ==
            Parsed(Meanings(items), Trim(if items == [] then tail else Gaps(items)))
  {
    if items == [] {
      ParseWithoutDirectives(tail, tag);
    } else {
      ParseWithDirectives(items, tag, tail);
    }
  }

  // ---------- Comments that are written from decorators ----------

  /** Text, and a decorator behind it that is written with a backslash or an at sign. */
  datatype Remark = Remark(gap: string, escaped: bool, decorator: Decorator)

  function RenderShown(remarks: seq<Remark>, tag: string, tail: string): string {
    if remarks == [] then tail
    else
      remarks[0].gap + (Sigil(remarks[0].escaped)
        + (tag + ("{" + (Show(remarks[0].decorator) + ("}" + RenderShown(remarks[1..], tag, tail))))))
  }

  function DecoratorsOf(remarks: seq<Remark>): seq<Decorator> {
    if remarks == [] then [] else [remarks[0].decorator] + DecoratorsOf(remarks[1..])
  }

  function GapsOf(remarks: seq<Remark>): string {
    if remarks == [] then "" else remarks[0].gap + GapsOf(remarks[1..])
  }

  ghost predicate ShowableRemarks(remarks: seq<Remark>, tag: string) {
    forall i :: 0 <= i < |remarks| ==>
      && PlainText(remarks[i].gap, tag)
      && Showable(remarks[i].decorator)
      && !Contains("{" + Show(remarks[i].decorator), "\\" + tag)
  }

  function ItemsOf(remarks: seq<Remark>): seq<Item> {
    if remarks == [] then []
    else [Item(remarks[0].gap, remarks[0].escaped, PartsOf(remarks[0].decorator))] + ItemsOf(remarks[1..])
  }

  lemma ItemOfRemark(r: Remark, tag: string)
    requires PlainText(r.gap, tag) && Showable(r.decorator) && !Contains("{" + Show(r.decorator), "\\" + tag)
    ensures WellFormedItem(Item(r.gap, r.escaped, PartsOf(r.decorator)), tag)
  {
    hide PlainText, Contains, WellFormed, Showable, Show, Body, PartsOf;
    ShowIsBody(r.decorator);
    PartsAreMeant(r.decorator);
  }

  lemma {:induction false} ItemsAreRemarks(remarks: seq<Remark>, tag: string, tail: string)
    requires ShowableRemarks(remarks, tag)
    ensures WellFormedItems(ItemsOf(remarks), tag)
    ensures Render(ItemsOf(remarks), tag, tail) == RenderShown(remarks, tag, tail)
    ensures Meanings(ItemsOf(remarks)) == DecoratorsOf(remarks) && Gaps(ItemsOf(remarks)) == GapsOf(remarks)
    ensures ItemsOf(remarks) == [] <==> remarks == []
  {
    hide PlainText, Contains, WellFormedItem, Showable, Show, Body, PartsOf, Meaning, Sigil;
    if remarks != [] {
      var r := remarks[0];
      assert forall i :: 0 <= i < |remarks[1..]| ==> remarks[1..][i] == remarks[i + 1];
      ItemsAreRemarks(remarks[1..], tag, tail);
      ItemOfRemark(r, tag);
      ShowIsBody(r.decorator);
      PartsAreMeant(r.decorator);
      assert ItemsOf(remarks)[1..] == ItemsOf(remarks[1..]);
    }
  }

  /**
   * The round trip for decorators: a comment written from them, with text in between, is parsed to the same
   * decorators in order and to the trimmed text in front of each of them.
   */
  lemma {:induction false} ParseShown(remarks: seq<Remark>, tag: string, tail: string)
    requires WellFormedTag(tag) && ShowableRemarks(remarks, tag) && PlainText(tail, tag)
    ensures ParseOf(RenderShown(remarks, tag, tail), tag) ==
            Parsed(DecoratorsOf(remarks), Trim(if remarks == [] then tail else GapsOf(remarks)))
  {
    hide *;
    ItemsAreRemarks(remarks, tag, tail);
    ParseRendered(ItemsOf(remarks), tag, tail);
  }

  // ---------- Directives that yield nothing ----------

  /** A directive that begins with no label is left out, and the text in front of it is kept. */
  lemma {:induction false} UnknownIsLeftOut(block: string, tag: string, last: nat, pos: nat, close: nat)
    requires last <= pos && Find(block, Opening(tag), last) == Some(pos) && tag != ""
    requires FindChar(block, '}', pos + |tag| + 1) == Some(close)
    requires pos + |tag| + 2 <= close
    requires var c := block[pos + |tag| + 2..close];
      !("note" <= c) && !("skip" <= c) && !("style" <= c) && !("aggregation" <= c) && !("composition" <= c)
      && !("association" <= c) && !("call" <= c)
    ensures var rest := ParseFrom(block, tag, close + 1);
            ParseFrom(block, tag, last) ==
            if rest.Broken? then Broken else Parsed(rest.decorators, block[last..pos] + rest.comment)
  {
    hide OutcomeOf, View, Opening, OccursAt, Find, FindChar, KindOf;
    var open := pos + |tag| + 1;
    OpeningEnds(block, tag, pos);
    FirstChar(block, '}', open);
    var slack := ViewGoesOn(block, open, close);
    UnknownBody(block[open + 1..close], slack);
    var rest := ParseFrom(block, tag, close + 1);
    assert ParseFrom(block, tag, last) == Prepend(Unknown, block[last..pos], rest);
    if rest.Parsed? {
      assert [] + rest.decorators == rest.decorators;
    }
  }

  lemma UnknownBody(c: string, slack: string)
    requires !("note" <= c) && !("skip" <= c) && !("style" <= c) && !("aggregation" <= c) && !("composition" <= c)
    requires !("association" <= c) && !("call" <= c)
    ensures OutcomeOf(c + ("}" + slack)) == Unknown
  {
    hide TokensOf, FromTokens, KindOf;
    KindInFront(c, slack);
    UnknownIff(c);
  }

  /** When no brace closes a directive, neither it nor anything from the text in front of it on is returned. */
  lemma {:induction false} UnclosedIsLeftOut(block: string, tag: string, last: nat, pos: nat)
    requires last <= |block| && Find(block, Opening(tag), last) == Some(pos) && '}' !in block[pos..]
    ensures ParseFrom(block, tag, last) == Parsed([], "")
  {
    hide Opening, Find;
    FindCharNone(block, '}', pos + |tag| + 1);
    assert forall j :: pos <= j < |block| ==> block[j] == block[pos..][j - pos];
  }
}
