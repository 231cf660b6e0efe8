/** `escape_json_string` (src/util/logging.cc): log messages inside JSON strings. */
module JsonEscape {
  import opened Strings
  import opened Substitution

  const BACKSPACE: char := '\U{0008}'

  // ---------- Replacing single characters ----------

  function FlatMap(s: string, f: char -> string): string {
    if s == "" then "" else f(s[0]) + FlatMap(s[1..], f)
  }

  /** `c` becomes `r`, every other character stays. */
  function Only(c: char, r: string): char -> string {
    x => if x == c then r else [x]
  }

  lemma {:induction false} FlatMapAppend(a: string, b: string, f: char -> string)
    ensures FlatMap(a + b, f) == FlatMap(a, f) + FlatMap(b, f)
  {
    if a == "" {
      assert a + b == b;
    } else {
      assert (a + b)[1..] == a[1..] + b;
      FlatMapAppend(a[1..], b, f);
      Assoc(f(a[0]), FlatMap(a[1..], f), FlatMap(b, f));
    }
  }

  lemma {:induction false} FlatMapKeeps(s: string, c: char, r: string)
    requires c !in s
    ensures FlatMap(s, Only(c, r)) == s
  {
    if s != "" {
      FlatMapKeeps(s[1..], c, r);
    }
  }

  /** Replacing a pattern of one character treats every character by itself. */
  lemma {:induction false} ReplacedChar(s: string, c: char, r: string)
    ensures Replaced(s, [c], r) == FlatMap(s, Only(c, r))
  {
    if s == "" {
      ReplacedNone(s, [c], r);
    } else {
      var rest := s[1..];
      ReplacedChar(rest, c, r);
      assert s == [s[0]] + rest;
      if s[0] == c {
        ReplacedFront([c], rest, r);
      } else {
        assert forall k :: 0 <= k < 1 ==> !OccursAt([s[0]] + rest, [c], k) by {
          assert ([s[0]] + rest)[0..1] == [s[0]];
        }
        ReplacedKeeps([s[0]], rest, [c], r);
      }
    }
  }

  // ---------- The six replacements ----------

  function AfterBackslash(s: string): string { FlatMap(s, Only('\\', "\\\\")) }
  function AfterQuote(s: string): string { FlatMap(AfterBackslash(s), Only('"', "\\\"")) }
  function AfterNewline(s: string): string { FlatMap(AfterQuote(s), Only('\n', "")) }
  function AfterReturn(s: string): string { FlatMap(AfterNewline(s), Only('\r', "")) }
  function AfterTab(s: string): string { FlatMap(AfterReturn(s), Only('\t', " ")) }
  function AfterBackspace(s: string): string { FlatMap(AfterTab(s), Only(BACKSPACE, " ")) }

  /** What one character becomes in the end. */
  function EscapeChar(c: char): string {
    if c == '\\' then "\\\\"
    else if c == '"' then "\\\""
    else if c == '\n' || c == '\r' then ""
    else if c == '\t' || c == BACKSPACE then " "
    else [c]
  }

  function Escaped(s: string): string {
    if s == "" then "" else EscapeChar(s[0]) + Escaped(s[1..])
  }

  lemma AfterBackspaceAppend(a: string, b: string)
    ensures AfterBackspace(a + b) == AfterBackspace(a) + AfterBackspace(b)
  {
    FlatMapAppend(a, b, Only('\\', "\\\\"));
    FlatMapAppend(AfterBackslash(a), AfterBackslash(b), Only('"', "\\\""));
    FlatMapAppend(AfterQuote(a), AfterQuote(b), Only('\n', ""));
    FlatMapAppend(AfterNewline(a), AfterNewline(b), Only('\r', ""));
    FlatMapAppend(AfterReturn(a), AfterReturn(b), Only('\t', " "));
    FlatMapAppend(AfterTab(a), AfterTab(b), Only(BACKSPACE, " "));
  }

  lemma FlatMapOne(c: char, f: char -> string)
    ensures FlatMap([c], f) == f(c)
  {
    assert [c][1..] == "";
  }

  lemma AfterBackspaceOne(c: char)
    ensures AfterBackspace([c]) == EscapeChar(c)
  {
    hide FlatMap;
    FlatMapOne(c, Only('\\', "\\\\"));
    var s1 := AfterBackslash([c]);
    if c == '"' {
      FlatMapOne(c, Only('"', "\\\""));
    } else {
      FlatMapKeeps(s1, '"', "\\\"");
    }
    var s2 := AfterQuote([c]);
    if c == '\n' {
      FlatMapOne(c, Only('\n', ""));
    } else {
      FlatMapKeeps(s2, '\n', "");
    }
    var s3 := AfterNewline([c]);
    if c == '\r' {
      FlatMapOne(c, Only('\r', ""));
    } else {
      FlatMapKeeps(s3, '\r', "");
    }
    var s4 := AfterReturn([c]);
    if c == '\t' {
      FlatMapOne(c, Only('\t', " "));
    } else {
      FlatMapKeeps(s4, '\t', " ");
    }
    var s5 := AfterTab([c]);
    if c == BACKSPACE {
      FlatMapOne(c, Only(BACKSPACE, " "));
    } else {
      FlatMapKeeps(s5, BACKSPACE, " ");
    }
  }

  /** The six passes together treat every character by itself. */
  lemma {:induction false} SixPassesAreOne(s: string)
    ensures AfterBackspace(s) == Escaped(s)
  {
    if s != "" {
      AfterBackspaceAppend([s[0]], s[1..]);
      AfterBackspaceOne(s[0]);
      SixPassesAreOne(s[1..]);
      assert [s[0]] + s[1..] == s;
    }
  }

  method EscapeJsonString(s: string) returns (escaped: string)
    ensures escaped == Escaped(s)
  {
    hide *;
    var replaced: bool;
    escaped, replaced := ReplaceAll(s, "\\", "\\\\");
    escaped, replaced := ReplaceAll(escaped, "\"", "\\\"");
    escaped, replaced := ReplaceAll(escaped, "\n", "");
    escaped, replaced := ReplaceAll(escaped, "\r", "");
    escaped, replaced := ReplaceAll(escaped, "\t", " ");
    escaped, replaced := ReplaceAll(escaped, [BACKSPACE], " ");
    SixReplacements(s);
  }

  lemma {:induction false} SixReplacements(s: string)
    ensures Escaped(s) ==
      Replaced(Replaced(Replaced(Replaced(Replaced(Replaced(s, "\\", "\\\\"), "\"", "\\\""), "\n", ""), "\r", ""), "\t", " "), [BACKSPACE], " ")
  {
    hide FlatMap, Replaced;
    ReplacedChar(s, '\\', "\\\\");
    ReplacedChar(AfterBackslash(s), '"', "\\\"");
    ReplacedChar(AfterQuote(s), '\n', "");
    ReplacedChar(AfterNewline(s), '\r', "");
    ReplacedChar(AfterReturn(s), '\t', " ");
    ReplacedChar(AfterTab(s), BACKSPACE, " ");
    SixPassesAreOne(s);
  }

  /** What becomes of each character, by its code in ASCII. */
  lemma {:induction false} EscapedCodes(c: char)
    ensures var code := c as int;
            Escaped([c]) ==
            if code == 8 || code == 9 then " "
            else if code == 10 || code == 13 then ""
            else if code == 34 || code == 92 then ['\\', c]
            else [c]
  {
    assert [c][1..] == "";
    assert Escaped("") == "";
  }

  // ---------- Section 7 of RFC 8259 ----------

  function HexDigit(c: char): Option<nat> {
    if '0' <= c <= '9' then Some(c as nat - '0' as nat)
    else if 'a' <= c <= 'f' then Some(c as nat - 'a' as nat + 10)
    else if 'A' <= c <= 'F' then Some(c as nat - 'A' as nat + 10)
    else None
  }

  function ShortEscape(c: char): Option<nat> {
    if c == '"' || c == '\\' || c == '/' then Some(c as nat)
    else if c == 'b' then Some(0x08)
    else if c == 'f' then Some(0x0C)
    else if c == 'n' then Some(0x0A)
    else if c == 'r' then Some(0x0D)
    else if c == 't' then Some(0x09)
    else None
  }

  function Behind(code: nat, rest: Option<seq<nat>>): Option<seq<nat>> {
    if rest.None? then None else Some([code] + rest.value)
  }

  /** The code units that the body of a JSON string stands for; none when it is no such body. */
  function Decode(s: string): Option<seq<nat>> {
    if s == "" then Some([])
    else if s[0] == '\\' then
      if |s| < 2 then None
      else if s[1] == 'u' then
        if |s| < 6 || HexDigit(s[2]).None? || HexDigit(s[3]).None? || HexDigit(s[4]).None? || HexDigit(s[5]).None? then None
        else Behind(HexDigit(s[2]).value * 0x1000 + HexDigit(s[3]).value * 0x100
                    + HexDigit(s[4]).value * 0x10 + HexDigit(s[5]).value, Decode(s[6..]))
      else if ShortEscape(s[1]).None? then None
      else Behind(ShortEscape(s[1]).value, Decode(s[2..]))
    else if s[0] == '"' || (s[0] as nat) < 0x20 then None
    else Behind(s[0] as nat, Decode(s[1..]))
  }

  /** Where the string ends: the first quotation mark that no backslash protects. */
  function EndOfString(s: string): Option<nat> {
    if s == "" then None
    else if s[0] == '"' then Some(0)
    else
      var step := if s[0] == '\\' then 2 else 1;
      if |s| < step || EndOfString(s[step..]).None? then None
      else Some(step + EndOfString(s[step..]).value)
  }

  /** The characters that the program removes or turns into blanks. */
  predicate Cleaned(c: char) {
    c == '\n' || c == '\r' || c == '\t' || c == BACKSPACE
  }

  predicate OtherControl(c: char) {
    (c as nat) < 0x20 && !Cleaned(c)
  }

  /** The message as a reader of the log gets it: no line breaks, blanks for tabs and backspaces. */
  function Clean(s: string): seq<nat> {
    if s == "" then []
    else if s[0] == '\n' || s[0] == '\r' then Clean(s[1..])
    else if s[0] == '\t' || s[0] == BACKSPACE then [' ' as nat] + Clean(s[1..])
    else [s[0] as nat] + Clean(s[1..])
  }

  lemma DecodeEscapedChar(c: char, rest: string)
    ensures OtherControl(c) ==> Decode(EscapeChar(c) + rest).None?
    ensures c == '\n' || c == '\r' ==> EscapeChar(c) + rest == rest
    ensures !OtherControl(c) && c != '\n' && c != '\r' ==>
      Decode(EscapeChar(c) + rest) == Behind(if Cleaned(c) then ' ' as nat else c as nat, Decode(rest))
  {
    var s := EscapeChar(c) + rest;
    if c == '\\' || c == '"' {
      assert s[2..] == rest;
    } else if c != '\n' && c != '\r' {
      assert s[1..] == rest;
    }
  }

  /**
   * The escaped message is the body of a JSON string exactly when the message
   * has no other control characters, and then it stands for the cleaned message.
   */
  lemma {:induction false} EscapedIsJson(s: string)
    ensures Decode(Escaped(s)).Some? <==> forall i :: 0 <= i < |s| ==> !OtherControl(s[i])
    ensures Decode(Escaped(s)).Some? ==> Decode(Escaped(s)).value == Clean(s)
  {
    if s != "" {
      var rest := s[1..];
      EscapedIsJson(rest);
      DecodeEscapedChar(s[0], Escaped(rest));
      assert (forall i :: 0 <= i < |s| ==> !OtherControl(s[i])) <==>
             !OtherControl(s[0]) && forall i :: 0 <= i < |rest| ==> !OtherControl(rest[i]) by {
        assert forall i :: 0 <= i < |rest| ==> rest[i] == s[i + 1];
        assert forall i :: 1 <= i < |s| ==> s[i] == rest[i - 1];
      }
    }
  }

  /** No quotation mark of any message ends the string early. */
  lemma {:induction false} EscapedStaysInside(s: string, after: string)
    ensures EndOfString(Escaped(s) + "\"" + after) == Some(|Escaped(s)|)
  {
    if s != "" {
      var rest := Escaped(s[1..]) + "\"" + after;
      EscapedStaysInside(s[1..], after);
      Assoc(EscapeChar(s[0]), Escaped(s[1..]), "\"");
      Assoc(EscapeChar(s[0]), Escaped(s[1..]) + "\"", after);
      EndBehindEscapedChar(s[0], rest);
    }
  }

  lemma EndBehindEscapedChar(c: char, rest: string)
    requires EndOfString(rest).Some?
    ensures EndOfString(EscapeChar(c) + rest) == Some(|EscapeChar(c)| + EndOfString(rest).value)
  {
    var s := EscapeChar(c) + rest;
    if c == '\\' || c == '"' {
      assert s[2..] == rest;
    } else if c == '\n' || c == '\r' {
      assert s == rest;
    } else {
      assert s[1..] == rest;
    }
  }
}
