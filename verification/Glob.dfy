/** Glob patterns by way of regular expressions (thirdparty/glob/glob.hpp). */
module Glob {
  import opened Strings

  // ---------- translate ----------

  /** The end of a bracket expression whose opening bracket stands in front of `i`, as `translate` looks for it. */
  function BracketEnd(pattern: string, i: nat): Option<nat>
    requires i <= |pattern|
  {
    var j := if i < |pattern| && pattern[i] == '!' then i + 1 else i;
    FindChar(pattern, ']', if j < |pattern| && pattern[j] == ']' then j + 1 else j)
  }

  /** No bracket of the pattern is closed, so each stands for itself. */
  predicate BracketFree(pattern: string) {
    forall i :: 0 <= i < |pattern| && pattern[i] == '[' ==> BracketEnd(pattern, i + 1).None?
  }

  /** The characters of `special_characters`. */
  predicate Special(c: char) {
    || c == '(' || c == ')' || c == '[' || c == ']' || c == '{' || c == '}'
    || c == '?' || c == '*' || c == '+' || c == '-' || c == '|' || c == '^' || c == '$'
    || c == '\\' || c == '.' || c == '&' || c == '~' || c == '#'
    || c == ' ' || c == '\t' || c == '\n' || c == '\r' || c == '\U{000B}' || c == '\U{000C}'
  }

  /** The special characters by their codes in ASCII. */
  lemma SpecialCodes(c: char)
    ensures var code := c as int;
      Special(c) <==>
      || 9 <= code <= 13 || code == 32 || code == 35 || code == 36 || code == 38 || 40 <= code <= 43
      || code == 45 || code == 46 || code == 63 || 91 <= code <= 94 || 123 <= code <= 126
  {
  }

  /** What one character of the pattern becomes. */
  function Piece(c: char): string {
    if c == '*' then ".*"
    else if c == '?' then "."
    else if Special(c) then ['\\', c]
    else [c]
  }

  function Pieces(pattern: string): string {
    if pattern == "" then "" else Piece(pattern[0]) + Pieces(pattern[1..])
  }

  /** The translation of the whole pattern: a name that is one line break is let through as well. */
  function Translated(pattern: string): string {
    "((" + Pieces(pattern) + ")|[\\r\\n])$"
  }

  lemma {:induction false} PiecesSnoc(pattern: string, c: char)
    ensures Pieces(pattern + [c]) == Pieces(pattern) + Piece(c)
  {
    hide Piece;
    if pattern == "" {
      assert pattern + [c] == [c] && [c][1..] == "";
      assert Piece(c) + "" == "" + Piece(c);
    } else {
      assert (pattern + [c])[1..] == pattern[1..] + [c];
      PiecesSnoc(pattern[1..], c);
      Assoc(Piece(pattern[0]), Pieces(pattern[1..]), Piece(c));
    }
  }

  lemma NoPieces()
    ensures Pieces("") == ""
  {
  }

  /** The scan of `translate` for the end of a bracket expression, from behind its opening bracket. */
  method ScanBracket(pattern: string, i: nat) returns (j: nat)
    requires i <= |pattern|
    ensures i <= j <= |pattern| && (j < |pattern| <==> BracketEnd(pattern, i).Some?)
  {
    var n := |pattern|;
    j := i;
    if j < n && pattern[j] == '!' {
      j := j + 1;
    }
    if j < n && pattern[j] == ']' {
      j := j + 1;
    }
    ghost var start := j;
    while j < n && pattern[j] != ']'
      invariant i <= j <= n
      invariant FindChar(pattern, ']', start) == FindChar(pattern, ']', j)
    {
      j := j + 1;
    }
  }

  /** `translate`; there is no result for a pattern with a bracket expression. */
  method Translate(pattern: string) returns (regex: Option<string>)
    ensures regex == if BracketFree(pattern) then Some(Translated(pattern)) else None
  {
    hide BracketEnd, Pieces;
    NoPieces();
    var i, n := 0, |pattern|;
    var resultString := "";
    while i < n
      invariant 0 <= i <= n
      invariant resultString == Pieces(pattern[..i])
      invariant forall k :: 0 <= k < i && pattern[k] == '[' ==> BracketEnd(pattern, k + 1).None?
    {
      var c := pattern[i];
      PiecesSnoc(pattern[..i], c);
      assert pattern[..i + 1] == pattern[..i] + [c];
      i := i + 1;
      if c == '*' {
        resultString := resultString + ".*";
      } else if c == '?' {
        resultString := resultString + ".";
      } else if c == '[' {
        var j := ScanBracket(pattern, i);
        if j >= n {
          resultString := resultString + "\\[";
        } else {
          assert pattern[i - 1] == '[';
          return None;
        }
      } else if Special(c) {
        resultString := resultString + ['\\', c];
      } else {
        resultString := resultString + [c];
      }
    }
    assert pattern[..n] == pattern;
    regex := Some("((" + resultString + ")|[\\r\\n])$");
  }

  // ---------- ECMAScript regular expressions ----------

  datatype Regex =
    | Empty
    | AnyChar
    | Literal(c: char)
    | OneOf(members: seq<char>)
    | AtEnd
    | Star(r: Regex)
    | Concat(first: Regex, second: Regex)
    | Either(first: Regex, second: Regex)

  predicate LineTerminator(c: char) {
    c == '\n' || c == '\r'
  }

  /** How an expression comes to match: where a sequence or a repetition is divided, and which alternative is taken. */
  datatype Derivation = Leaf | Divided(at: nat, first: Derivation, second: Derivation) | First(d: Derivation) | Second(d: Derivation)

  ghost predicate Derives(d: Derivation, r: Regex, s: string, i: nat, j: nat)
    requires i <= j <= |s|
    decreases d
  {
    match r
    case Empty => i == j
    case AnyChar => j == i + 1 && !LineTerminator(s[i])
    case Literal(c) => j == i + 1 && s[i] == c
    case OneOf(members) => j == i + 1 && s[i] in members
    case AtEnd => i == j == |s|
    case Star(r') =>
      (d.Leaf? && i == j) ||
      (d.Divided? && i < d.at <= j && Derives(d.first, r', s, i, d.at) && Derives(d.second, r, s, d.at, j))
    case Concat(first, second) =>
      d.Divided? && i <= d.at <= j && Derives(d.first, first, s, i, d.at) && Derives(d.second, second, s, d.at, j)
    case Either(first, second) =>
      (d.First? && Derives(d.d, first, s, i, j)) || (d.Second? && Derives(d.d, second, s, i, j))
  }

  /** `r` matches the part of `s` from `i` to `j`. */
  ghost predicate Matches(r: Regex, s: string, i: nat, j: nat)
    requires i <= j <= |s|
  {
    exists d :: Derives(d, r, s, i, j)
  }

  /** The result of reading a part of an expression: what it says, and what is left. */
  datatype Reading = Reading(r: Regex, rest: string) | Bad

  predicate SyntaxChar(c: char) {
    || c == '^' || c == '$' || c == '\\' || c == '.' || c == '*' || c == '+' || c == '?'
    || c == '(' || c == ')' || c == '[' || c == ']' || c == '{' || c == '}' || c == '|'
  }

  /** The character that a backslash and `c` stand for, as far as it is one character. */
  function EscapedChar(c: char): Option<char> {
    if c == 'n' then Some('\n')
    else if c == 'r' then Some('\r')
    else if c == 't' then Some('\t')
    else if c == 'v' then Some('\U{000B}')
    else if c == 'f' then Some('\U{000C}')
    else if c == '0' then Some('\0')
    else if ('a' <= c <= 'z') || ('A' <= c <= 'Z') || ('1' <= c <= '9') || c == '_' then None
    else Some(c)
  }

  /** The members of a bracket expression without ranges, up to its closing bracket. */
  function ReadClass(s: string): Option<(seq<char>, string)> {
    if s == "" then None
    else if s[0] == ']' then Some(([], s[1..]))
    else
      var escaped := s[0] == '\\';
      if escaped && (|s| < 2 || EscapedChar(s[1]).None?) then None
      else if !escaped && (s[0] == '-' || s[0] == '^' || s[0] == '[') then None
      else
        var member := if escaped then EscapedChar(s[1]).value else s[0];
        match ReadClass(s[if escaped then 2 else 1..])
        case None => None
        case Some(more) => Some(([member] + more.0, more.1))
  }

  /** An atom: a group, a bracket expression, a dot, an escape, the end of input, or a character. */
  function ReadAtom(s: string): Reading
    requires s != ""
    ensures ReadAtom(s).Reading? ==> |ReadAtom(s).rest| < |s|
    decreases |s|, 0
  {
    if s[0] == '(' then
      match ReadEither(s[1..])
      case Bad => Bad
      case Reading(r, rest) => if rest != "" && rest[0] == ')' then Reading(r, rest[1..]) else Bad
    else if s[0] == '[' then
      ClassShrinks(s[1..]);
      match ReadClass(s[1..])
      case None => Bad
      case Some(class_) => Reading(OneOf(class_.0), class_.1)
    else if s[0] == '.' then Reading(AnyChar, s[1..])
    else if s[0] == '$' then Reading(AtEnd, s[1..])
    else if s[0] == '\\' then
      if |s| < 2 || EscapedChar(s[1]).None? then Bad else Reading(Literal(EscapedChar(s[1]).value), s[2..])
    else if SyntaxChar(s[0]) then Bad
    else Reading(Literal(s[0]), s[1..])
  }

  lemma ClassShrinks(s: string)
    ensures ReadClass(s).Some? ==> |ReadClass(s).value.1| < |s|
  {
  }

  /** Terms one after another, up to a bar, a closing parenthesis or the end. */
  function ReadConcat(s: string): Reading
    ensures ReadConcat(s).Reading? ==> |ReadConcat(s).rest| <= |s|
    decreases |s|, 1
  {
    if s == "" || s[0] == '|' || s[0] == ')' then Reading(Empty, s)
    else
      match ReadAtom(s)
      case Bad => Bad
      case Reading(atom, rest) =>
        var starred := rest != "" && rest[0] == '*';
        match ReadConcat(if starred then rest[1..] else rest)
        case Bad => Bad
        case Reading(more, left) => Reading(Concat(if starred then Star(atom) else atom, more), left)
  }

  /** Alternatives between bars. */
  function ReadEither(s: string): Reading
    ensures ReadEither(s).Reading? ==> |ReadEither(s).rest| <= |s|
    decreases |s|, 2
  {
    match ReadConcat(s)
    case Bad => Bad
    case Reading(first, rest) =>
      if rest == "" || rest[0] != '|' then Reading(first, rest)
      else
        match ReadEither(rest[1..])
        case Bad => Bad
        case Reading(second, left) => Reading(Either(first, second), left)
  }

  /** The expression that a whole string stands for. */
  function ReadRegex(s: string): Option<Regex> {
    var reading := ReadEither(s);
    if reading.Reading? && reading.rest == "" then Some(reading.r) else None
  }

  // ---------- The translation read back ----------

  /** What a pattern says as an expression. */
  function PatternRegex(pattern: string): Regex {
    if pattern == "" then Empty
    else
      var first := if pattern[0] == '*' then Star(AnyChar) else if pattern[0] == '?' then AnyChar else Literal(pattern[0]);
      Concat(first, PatternRegex(pattern[1..]))
  }

  function NameRegex(pattern: string): Regex {
    Concat(Either(Concat(PatternRegex(pattern), Empty), Concat(OneOf(['\r', '\n']), Empty)), Concat(AtEnd, Empty))
  }

  lemma SpecialIsEscaped(c: char)
    ensures Special(c) ==> EscapedChar(c) == Some(c)
    ensures !Special(c) ==> !SyntaxChar(c)
  {
  }

  lemma ReadDot(rest: string)
    ensures ReadAtom("." + rest) == Reading(AnyChar, rest)
  {
    hide ReadEither, ReadClass;
    assert ("." + rest)[1..] == rest;
  }

  lemma ReadEscape(c: char, rest: string)
    requires EscapedChar(c) == Some(c)
    ensures ReadAtom(['\\', c] + rest) == Reading(Literal(c), rest)
  {
    hide ReadEither, ReadClass, EscapedChar;
    assert (['\\', c] + rest)[2..] == rest;
  }

  lemma ReadOrdinary(c: char, rest: string)
    requires !SyntaxChar(c)
    ensures ReadAtom([c] + rest) == Reading(Literal(c), rest)
  {
    hide ReadEither, ReadClass, EscapedChar;
    assert ([c] + rest)[1..] == rest;
  }

  lemma ReadPiece(c: char, rest: string)
    requires rest != "" && rest[0] != '*'
    ensures Piece(c) + rest != "" && (Piece(c) + rest)[0] != '*' && (Piece(c) + rest)[0] != '|' && (Piece(c) + rest)[0] != ')'
    ensures c == '*' ==> ReadAtom(Piece(c) + rest) == Reading(AnyChar, "*" + rest)
    ensures c == '?' ==> ReadAtom(Piece(c) + rest) == Reading(AnyChar, rest)
    ensures c != '*' && c != '?' ==> ReadAtom(Piece(c) + rest) == Reading(Literal(c), rest)
  {
    hide ReadAtom, EscapedChar;
    SpecialIsEscaped(c);
    if c == '*' {
      ReadDot("*" + rest);
      assert ".*" + rest == "." + ("*" + rest);
    } else if c == '?' {
      ReadDot(rest);
    } else if Special(c) {
      ReadEscape(c, rest);
    } else {
      ReadOrdinary(c, rest);
    }
  }

  lemma ReadConcatPiece(c: char, rest: string)
    requires rest != "" && rest[0] != '*' && ReadConcat(rest).Reading?
    ensures ReadConcat(Piece(c) + rest) ==
      Reading(Concat(if c == '*' then Star(AnyChar) else if c == '?' then AnyChar else Literal(c), ReadConcat(rest).r), ReadConcat(rest).rest)
  {
    hide ReadAtom, Piece;
    ReadPiece(c, rest);
    if c == '*' {
      assert ("*" + rest)[1..] == rest;
    }
  }

  /** The translated pattern is read up to the parenthesis behind it. */
  lemma {:induction false} ReadPieces(pattern: string, rest: string)
    requires rest != "" && rest[0] == ')'
    ensures ReadConcat(Pieces(pattern) + rest) == Reading(PatternRegex(pattern), rest)
    ensures Pieces(pattern) + rest != "" && (Pieces(pattern) + rest)[0] != '*'
  {
    hide ReadAtom, Piece;
    if pattern == "" {
      assert "" + rest == rest;
    } else {
      ReadPieces(pattern[1..], rest);
      var more := Pieces(pattern[1..]) + rest;
      Assoc(Piece(pattern[0]), Pieces(pattern[1..]), rest);
      ReadPiece(pattern[0], more);
      ReadConcatPiece(pattern[0], more);
    }
  }

  lemma ReadGroup(inner: string, r: Regex, rest: string)
    requires ReadEither(inner) == Reading(r, ")" + rest)
    ensures ReadAtom("(" + inner) == Reading(r, rest)
  {
    hide ReadEither, ReadClass;
    assert ("(" + inner)[1..] == inner;
    assert (")" + rest)[1..] == rest;
  }

  lemma ReadPlain(s: string, atom: Regex, rest: string)
    requires s != "" && s[0] != '|' && s[0] != ')' && ReadAtom(s) == Reading(atom, rest)
    requires rest == "" || rest[0] == '|' || rest[0] == ')'
    ensures ReadConcat(s) == Reading(Concat(atom, Empty), rest)
  {
    hide ReadAtom;
  }

  lemma ClassCloses(rest: string)
    ensures ReadClass("]" + rest) == Some(([], rest))
  {
    assert ("]" + rest)[1..] == rest;
  }

  lemma ClassEscape(c: char, rest: string, members: seq<char>, left: string)
    requires EscapedChar(c).Some? && ReadClass(rest) == Some((members, left))
    ensures ReadClass(['\\', c] + rest) == Some(([EscapedChar(c).value] + members, left))
  {
    hide EscapedChar;
    assert (['\\', c] + rest)[2..] == rest;
  }

  /** The bracket expression for line breaks. */
  lemma ReadLineBreaks()
    ensures ReadAtom("[\\r\\n])$") == Reading(OneOf(['\r', '\n']), ")$")
  {
    hide ReadClass, ReadEither;
    ClassCloses(")$");
    ClassEscape('n', "]" + ")$", [], ")$");
    ClassEscape('r', ['\\', 'n'] + ("]" + ")$"), ['\n'] + [], ")$");
    assert "[\\r\\n])$"[1..] == ['\\', 'r'] + (['\\', 'n'] + ("]" + ")$"));
    assert ['\r'] + (['\n'] + []) == ['\r', '\n'];
  }

  /** The inner group and its alternative. */
  lemma ReadAlternatives(pattern: string)
    ensures ReadEither("(" + (Pieces(pattern) + ")|[\\r\\n])$")) ==
      Reading(Either(Concat(PatternRegex(pattern), Empty), Concat(OneOf(['\r', '\n']), Empty)), ")$")
  {
    hide Pieces, PatternRegex, ReadAtom, ReadConcat, ReadClass;
    var tail := "|[\\r\\n])$";
    assert ")|[\\r\\n])$" == ")" + tail;
    ReadPieces(pattern, ")" + tail);
    ReadGroup(Pieces(pattern) + (")" + tail), PatternRegex(pattern), tail);
    ReadPlain("(" + (Pieces(pattern) + (")" + tail)), PatternRegex(pattern), tail);
    ReadLineBreaks();
    ReadPlain("[\\r\\n])$", OneOf(['\r', '\n']), ")$");
    assert tail[1..] == "[\\r\\n])$";
  }

  lemma ReadEndOfInput()
    ensures ReadConcat("$") == Reading(Concat(AtEnd, Empty), "")
  {
    assert "$"[1..] == "";
    assert ReadAtom("$") == Reading(AtEnd, "");
    ReadPlain("$", AtEnd, "");
  }

  /** The output of the translation is an expression, and says what the pattern says. */
  lemma ReadTranslated(pattern: string)
    ensures ReadRegex(Translated(pattern)) == Some(NameRegex(pattern))
  {
    hide Pieces, PatternRegex, ReadAtom, ReadClass;
    var inner := "(" + (Pieces(pattern) + ")|[\\r\\n])$");
    TranslatedParts(pattern, inner);
    ReadAlternatives(pattern);
    assert ")$" == ")" + "$";
    hide ReadEither;
    ReadGroup(inner, Either(Concat(PatternRegex(pattern), Empty), Concat(OneOf(['\r', '\n']), Empty)), "$");
    ReadEndOfInput();
    ReadWhole("(" + inner, Either(Concat(PatternRegex(pattern), Empty), Concat(OneOf(['\r', '\n']), Empty)));
  }

  lemma TranslatedParts(pattern: string, inner: string)
    requires inner == "(" + (Pieces(pattern) + ")|[\\r\\n])$")
    ensures Translated(pattern) == "(" + inner
  {
    hide Pieces;
    Assoc("((", Pieces(pattern), ")|[\\r\\n])$");
    Assoc("(", "(", Pieces(pattern) + ")|[\\r\\n])$");
    assert "(" + "(" == "((";
  }

  lemma ReadWhole(s: string, group: Regex)
    requires s != "" && s[0] == '(' && ReadAtom(s) == Reading(group, "$")
    ensures ReadRegex(s) == Some(Concat(group, Concat(AtEnd, Empty)))
  {
    hide ReadAtom;
    ReadEndOfInput();
    assert ReadConcat(s) == Reading(Concat(group, Concat(AtEnd, Empty)), "");
  }

  // ---------- What a pattern means ----------

  /**
   * `*` stands for nothing, or for a wild character and what it stands for behind
   * it; `?` stands for one wild character, everything else for itself.
   */
  predicate GlobAccepts(pattern: string, name: string, wild: char -> bool)
    decreases |pattern| + |name|
  {
    if pattern == "" then name == ""
    else if pattern[0] == '*' then
      GlobAccepts(pattern[1..], name, wild) || (name != "" && wild(name[0]) && GlobAccepts(pattern, name[1..], wild))
    else
      name != "" && (if pattern[0] == '?' then wild(name[0]) else name[0] == pattern[0]) && GlobAccepts(pattern[1..], name[1..], wild)
  }

  function AnyCharacter(): char -> bool {
    c => true
  }

  function NoLineTerminator(): char -> bool {
    c => !LineTerminator(c)
  }

  lemma ConcatMatches(a: Regex, b: Regex, s: string, i: nat, k: nat, j: nat)
    requires i <= k <= j <= |s| && Matches(a, s, i, k) && Matches(b, s, k, j)
    ensures Matches(Concat(a, b), s, i, j)
  {
    var d :| Derives(d, a, s, i, k);
    var e :| Derives(e, b, s, k, j);
    assert Derives(Divided(k, d, e), Concat(a, b), s, i, j);
  }

  lemma ConcatDivides(a: Regex, b: Regex, s: string, i: nat, j: nat) returns (k: nat)
    requires i <= j <= |s| && Matches(Concat(a, b), s, i, j)
    ensures i <= k <= j && Matches(a, s, i, k) && Matches(b, s, k, j)
  {
    var d :| Derives(d, Concat(a, b), s, i, j);
    k := d.at;
    assert Derives(d.first, a, s, i, k) && Derives(d.second, b, s, k, j);
  }

  lemma EitherFirst(a: Regex, b: Regex, s: string, i: nat, j: nat)
    requires i <= j <= |s| && Matches(a, s, i, j)
    ensures Matches(Either(a, b), s, i, j)
  {
    var d :| Derives(d, a, s, i, j);
    assert Derives(First(d), Either(a, b), s, i, j);
  }

  lemma EitherSecond(a: Regex, b: Regex, s: string, i: nat, j: nat)
    requires i <= j <= |s| && Matches(b, s, i, j)
    ensures Matches(Either(a, b), s, i, j)
  {
    var d :| Derives(d, b, s, i, j);
    assert Derives(Second(d), Either(a, b), s, i, j);
  }

  lemma EitherIsOne(a: Regex, b: Regex, s: string, i: nat, j: nat)
    requires i <= j <= |s| && Matches(Either(a, b), s, i, j)
    ensures Matches(a, s, i, j) || Matches(b, s, i, j)
  {
    var d :| Derives(d, Either(a, b), s, i, j);
    assert Derives(d.d, a, s, i, j) || Derives(d.d, b, s, i, j);
  }

  lemma EitherMatches(a: Regex, b: Regex, s: string, i: nat, j: nat)
    requires i <= j <= |s|
    ensures Matches(Either(a, b), s, i, j) <==> Matches(a, s, i, j) || Matches(b, s, i, j)
  {
    hide Matches;
    if Matches(a, s, i, j) {
      EitherFirst(a, b, s, i, j);
    } else if Matches(b, s, i, j) {
      EitherSecond(a, b, s, i, j);
    } else if Matches(Either(a, b), s, i, j) {
      EitherIsOne(a, b, s, i, j);
    }
  }

  /** The expressions that need no derivation. */
  lemma SimpleMatches(r: Regex, s: string, i: nat, j: nat)
    requires i <= j <= |s| && !r.Star? && !r.Concat? && !r.Either?
    ensures Matches(r, s, i, j) <==> Derives(Leaf, r, s, i, j)
  {
  }

  lemma StarMatchesNothing(r: Regex, s: string, i: nat)
    requires i <= |s|
    ensures Matches(Star(r), s, i, i)
  {
    assert Derives(Leaf, Star(r), s, i, i);
  }

  lemma StarMatchesMore(r: Regex, s: string, i: nat, k: nat, j: nat)
    requires i < k <= j <= |s| && Matches(r, s, i, k) && Matches(Star(r), s, k, j)
    ensures Matches(Star(r), s, i, j)
  {
    var d :| Derives(d, r, s, i, k);
    var e :| Derives(e, Star(r), s, k, j);
    assert Derives(Divided(k, d, e), Star(r), s, i, j);
  }

  lemma StarDivides(r: Regex, s: string, i: nat, j: nat) returns (k: nat)
    requires i < j <= |s| && Matches(Star(r), s, i, j)
    ensures i < k <= j && Matches(r, s, i, k) && Matches(Star(r), s, k, j)
  {
    var d :| Derives(d, Star(r), s, i, j);
    k := d.at;
    assert Derives(d.first, r, s, i, k) && Derives(d.second, Star(r), s, k, j);
  }

  /** A starred dot in front of `b` either takes nothing or the next character. */
  lemma StarStep(b: Regex, s: string, i: nat, j: nat)
    requires i <= j <= |s|
    ensures Matches(Concat(Star(AnyChar), b), s, i, j) <==>
      Matches(b, s, i, j) || (i < j && !LineTerminator(s[i]) && Matches(Concat(Star(AnyChar), b), s, i + 1, j))
  {
    hide Matches;
    if i < j {
      SimpleMatches(AnyChar, s, i, i + 1);
    }
    if Matches(Concat(Star(AnyChar), b), s, i, j) {
      var k := ConcatDivides(Star(AnyChar), b, s, i, j);
      if i < k {
        var m := StarDivides(AnyChar, s, i, k);
        SimpleMatches(AnyChar, s, i, m);
        ConcatMatches(Star(AnyChar), b, s, m, k, j);
      }
    } else if Matches(b, s, i, j) {
      StarMatchesNothing(AnyChar, s, i);
      ConcatMatches(Star(AnyChar), b, s, i, i, j);
    } else if i < j && !LineTerminator(s[i]) && Matches(Concat(Star(AnyChar), b), s, i + 1, j) {
      var k := ConcatDivides(Star(AnyChar), b, s, i + 1, j);
      StarMatchesMore(AnyChar, s, i, i + 1, k);
      ConcatMatches(Star(AnyChar), b, s, i, k, j);
    }
  }

  /** A single character in front of `b`. */
  lemma CharStep(a: Regex, b: Regex, s: string, i: nat, j: nat)
    requires i <= j <= |s| && (a.AnyChar? || a.Literal?)
    ensures Matches(Concat(a, b), s, i, j) <==>
      i < j && (if a.AnyChar? then !LineTerminator(s[i]) else s[i] == a.c) && Matches(b, s, i + 1, j)
  {
    hide Matches;
    if i < j {
      SimpleMatches(a, s, i, i + 1);
    }
    if Matches(Concat(a, b), s, i, j) {
      var k := ConcatDivides(a, b, s, i, j);
      SimpleMatches(a, s, i, k);
    } else if i < j && Matches(a, s, i, i + 1) && Matches(b, s, i + 1, j) {
      ConcatMatches(a, b, s, i, i + 1, j);
    }
  }

  lemma {:induction false} PatternMatches(pattern: string, s: string, i: nat)
    requires i <= |s|
    ensures Matches(PatternRegex(pattern), s, i, |s|) <==> GlobAccepts(pattern, s[i..], NoLineTerminator())
    decreases |pattern| + |s| - i
  {
    hide Matches;
    if pattern == "" {
      SimpleMatches(Empty, s, i, |s|);
    } else {
      var rest := PatternRegex(pattern[1..]);
      if i < |s| {
        assert s[i..][1..] == s[i + 1..];
      }
      if pattern[0] == '*' {
        PatternMatches(pattern[1..], s, i);
        if i < |s| {
          PatternMatches(pattern, s, i + 1);
        }
        StarStep(rest, s, i, |s|);
      } else {
        if i < |s| {
          PatternMatches(pattern[1..], s, i + 1);
        }
        CharStep(if pattern[0] == '?' then AnyChar else Literal(pattern[0]), rest, s, i, |s|);
      }
    }
  }

  // ---------- fnmatch ----------

  /** `fnmatch`: the name as a whole matches the translated pattern. */
  ghost predicate FnMatch(name: string, pattern: string)
    requires BracketFree(pattern)
  {
    var regex := ReadRegex(Translated(pattern));
    regex.Some? && Matches(regex.value, name, 0, |name|)
  }

  lemma ConcatEmpty(r: Regex, s: string, i: nat, j: nat)
    requires i <= j <= |s|
    ensures Matches(Concat(r, Empty), s, i, j) <==> Matches(r, s, i, j)
  {
    hide Matches;
    SimpleMatches(Empty, s, j, j);
    if Matches(r, s, i, j) {
      ConcatMatches(r, Empty, s, i, j, j);
    } else if Matches(Concat(r, Empty), s, i, j) {
      var k := ConcatDivides(r, Empty, s, i, j);
      SimpleMatches(Empty, s, k, j);
    }
  }

  lemma ConcatAtEnd(r: Regex, s: string)
    ensures Matches(Concat(r, Concat(AtEnd, Empty)), s, 0, |s|) <==> Matches(r, s, 0, |s|)
  {
    hide Matches;
    ConcatEmpty(AtEnd, s, |s|, |s|);
    SimpleMatches(AtEnd, s, |s|, |s|);
    if Matches(r, s, 0, |s|) {
      ConcatMatches(r, Concat(AtEnd, Empty), s, 0, |s|, |s|);
    } else if Matches(Concat(r, Concat(AtEnd, Empty)), s, 0, |s|) {
      var k := ConcatDivides(r, Concat(AtEnd, Empty), s, 0, |s|);
      ConcatEmpty(AtEnd, s, k, |s|);
      SimpleMatches(AtEnd, s, k, |s|);
    }
  }

  /**
   * What the program accepts, for every pattern without a bracket expression and
   * for every name: the glob with wild cards that do not stand for line breaks,
   * and a name that is one line break whatever the pattern is.
   */
  lemma FnMatchIs(name: string, pattern: string)
    requires BracketFree(pattern)
    ensures FnMatch(name, pattern) <==> GlobAccepts(pattern, name, NoLineTerminator()) || name == "\r" || name == "\n"
  {
    hide Translated, ReadRegex, PatternRegex, Matches, GlobAccepts;
    ReadTranslated(pattern);
    var p, breaks := PatternRegex(pattern), OneOf(['\r', '\n']);
    EitherMatches(Concat(p, Empty), Concat(breaks, Empty), name, 0, |name|);
    SimpleMatches(breaks, name, 0, |name|);
    ConcatAtEnd(Either(Concat(p, Empty), Concat(breaks, Empty)), name);
    ConcatEmpty(p, name, 0, |name|);
    ConcatEmpty(breaks, name, 0, |name|);
    PatternMatches(pattern, name, 0);
    assert name[0..] == name;
    assert Matches(breaks, name, 0, |name|) <==> name == "\r" || name == "\n";
  }

  lemma {:induction false} WildAsWell(pattern: string, name: string)
    requires forall i :: 0 <= i < |name| ==> !LineTerminator(name[i])
    ensures GlobAccepts(pattern, name, NoLineTerminator()) <==> GlobAccepts(pattern, name, AnyCharacter())
    decreases |pattern| + |name|
  {
    if pattern != "" {
      WildAsWell(pattern[1..], name);
      if name != "" {
        WildAsWell(pattern, name[1..]);
        WildAsWell(pattern[1..], name[1..]);
      }
    }
  }

  /** On names without line breaks, and patterns without bracket expressions, the program accepts exactly what the glob says. */
  lemma FnMatchIsGlob(name: string, pattern: string)
    requires BracketFree(pattern)
    requires forall i :: 0 <= i < |name| ==> !LineTerminator(name[i])
    ensures FnMatch(name, pattern) <==> GlobAccepts(pattern, name, AnyCharacter())
  {
    FnMatchIs(name, pattern);
    WildAsWell(pattern, name);
  }

  /** A name that is one line break matches every such pattern, here one that is a single letter. */
  lemma {:induction false} LineBreakMatchesEverything()
    ensures BracketFree("a") && FnMatch("\n", "a") && !GlobAccepts("a", "\n", AnyCharacter())
  {
    FnMatchIs("\n", "a");
  }

  /** The bracket at `i` is closed at `k`, which is not the first character behind it or behind an exclamation mark. */
  predicate ClosesAt(pattern: string, i: nat, k: nat) {
    && i < k < |pattern| && pattern[i] == '[' && pattern[k] == ']'
    && k != i + 1 && (k == i + 2 ==> pattern[i + 1] != '!')
  }

  lemma BracketEndIs(pattern: string, i: nat)
    requires i < |pattern| && pattern[i] == '['
    ensures BracketEnd(pattern, i + 1).Some? <==> exists k: nat :: ClosesAt(pattern, i, k)
  {
    var start := if i + 1 < |pattern| && pattern[i + 1] == '!' then i + 2 else i + 1;
    var from := if start < |pattern| && pattern[start] == ']' then start + 1 else start;
    FindCharNone(pattern, ']', from);
    if FindChar(pattern, ']', from).Some? {
      assert ClosesAt(pattern, i, FindChar(pattern, ']', from).value);
    }
  }

  /** The patterns that are translated are those in which no bracket is closed. */
  lemma {:induction false} BracketFreeIff(pattern: string)
    ensures BracketFree(pattern) <==> forall i: nat, k: nat :: !ClosesAt(pattern, i, k)
  {
    hide BracketEnd, ClosesAt;
    if BracketFree(pattern) {
      forall i: nat, k: nat ensures !ClosesAt(pattern, i, k) {
        ClosesInside(pattern, i, k);
        if i < |pattern| && pattern[i] == '[' {
          BracketEndIs(pattern, i);
        }
      }
    } else {
      var i :| 0 <= i < |pattern| && pattern[i] == '[' && BracketEnd(pattern, i + 1).Some?;
      BracketEndIs(pattern, i);
    }
  }

  lemma ClosesInside(pattern: string, i: nat, k: nat)
    ensures ClosesAt(pattern, i, k) ==> i < |pattern| && pattern[i] == '['
  {
  }

  /** A question mark stands for every character but the two line breaks. */
  lemma {:induction false} WildcardStopsAtLineBreaks(c: char)
    ensures BracketFree("a?") && (FnMatch("a" + [c], "a?") <==> c as int != 10 && c as int != 13)
  {
    hide FnMatch;
    FnMatchIs("a" + [c], "a?");
    assert "a?"[1..] == "?" && "?"[1..] == "" && ("a" + [c])[1..] == [c] && [c][1..] == "";
    assert GlobAccepts("?", [c], NoLineTerminator()) <==> !LineTerminator(c);
  }
}
