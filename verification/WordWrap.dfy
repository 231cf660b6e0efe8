/** `format_message_comment` (src/util/util.cc): greedy wrapping of a message to a width. */
module WordWrap {
  import opened Strings
  import opened Substitution
  import opened Splitting

  type Line = seq<string>

  /** The running length that the program keeps for a line: every word and one character behind it. */
  function LineLength(line: Line): nat {
    if line == [] then 0 else LineLength(line[..|line| - 1]) + |line[|line| - 1]| + 1
  }

  function Flatten(lines: seq<Line>): seq<string> {
    if lines == [] then [] else lines[0] + Flatten(lines[1..])
  }

  // ---------- Reference definition: what a wrapping is ----------

  /**
   * The lines hold the words in order; a line takes another word as long as its
   * length is below the width, and only then.
   */
  ghost predicate IsWrapping(lines: seq<Line>, words: seq<string>, width: nat) {
    && Flatten(lines) == words
    && (forall i :: 0 <= i < |lines| ==> lines[i] != [] && LineLength(lines[i][..|lines[i]| - 1]) < width)
    && (forall i :: 0 <= i < |lines| - 1 ==> width <= LineLength(lines[i]))
  }

  lemma LineLengthSnoc(line: Line, w: string)
    ensures LineLength(line + [w]) == LineLength(line) + |w| + 1
  {
    assert (line + [w])[..|line|] == line;
  }

  lemma {:induction false} LineLengthOfPrefix(line: Line, k: nat)
    requires k <= |line|
    ensures LineLength(line[..k]) <= LineLength(line)
  {
    if k < |line| {
      var front := line[..|line| - 1];
      LineLengthOfPrefix(front, k);
      assert front[..k] == line[..k];
    } else {
      assert line[..k] == line;
    }
  }

  /** A first line cannot be longer than another first line that had to stop. */
  lemma FirstLineNotLonger(a: seq<Line>, b: seq<Line>, words: seq<string>, width: nat)
    requires a != [] && b != []
    requires IsWrapping(a, words, width) && IsWrapping(b, words, width)
    ensures |a[0]| <= |b[0]|
  {
    assert Flatten(a) == a[0] + Flatten(a[1..]) && Flatten(b) == b[0] + Flatten(b[1..]);
    assert |b| == 1 ==> Flatten(b[1..]) == [];
    if |b[0]| < |a[0]| {
      var front := a[0][..|a[0]| - 1];
      assert a[0] == words[..|a[0]|] && b[0] == words[..|b[0]|];
      assert front[..|b[0]|] == b[0];
      LineLengthOfPrefix(front, |b[0]|);
    }
  }

  lemma NoLinesForNoWords(lines: seq<Line>, words: seq<string>, width: nat)
    requires IsWrapping(lines, words, width)
    ensures lines == [] <==> words == []
  {
    if lines != [] {
      assert |Flatten(lines)| >= |lines[0]| > 0;
    }
  }

  /** The program has no choice: a text has only one wrapping. */
  lemma {:induction false} WrappingIsUnique(a: seq<Line>, b: seq<Line>, words: seq<string>, width: nat)
    requires IsWrapping(a, words, width) && IsWrapping(b, words, width)
    ensures a == b
    decreases |a|
  {
    NoLinesForNoWords(a, words, width);
    NoLinesForNoWords(b, words, width);
    if a != [] && b != [] {
      FirstLineNotLonger(a, b, words, width);
      FirstLineNotLonger(b, a, words, width);
      assert a[0] == words[..|a[0]|] == b[0];
      var rest := words[|a[0]|..];
      TailWraps(a, words, width);
      TailWraps(b, words, width);
      WrappingIsUnique(a[1..], b[1..], rest, width);
      assert a == [a[0]] + a[1..] && b == [b[0]] + b[1..];
    }
  }

  lemma TailWraps(lines: seq<Line>, words: seq<string>, width: nat)
    requires lines != [] && IsWrapping(lines, words, width)
    ensures IsWrapping(lines[1..], words[|lines[0]|..], width)
  {
    var rest := lines[1..];
    assert Flatten(rest) == words[|lines[0]|..];
    assert forall i :: 0 <= i < |rest| ==> rest[i] == lines[i + 1];
  }

  // ---------- The text of the lines ----------

  /** The words of a line, each followed by a blank. */
  function Spaced(line: Line): string {
    if line == [] then "" else Spaced(line[..|line| - 1]) + line[|line| - 1] + " "
  }

  /** The lines, each followed by a line break. */
  function Broken(lines: seq<Line>): string {
    if lines == [] then ""
    else Broken(lines[..|lines| - 1]) + Cut(Spaced(lines[|lines| - 1])) + "\n"
  }

  /** Without the last character. */
  function Cut(s: string): string {
    if s == "" then "" else s[..|s| - 1]
  }

  /** The text of a wrapping: blanks between words, line breaks between lines. */
  function Text(lines: seq<Line>): string {
    Cut(Broken(lines))
  }

  lemma SpacedSnoc(line: Line, w: string)
    ensures Spaced(line + [w]) == Spaced(line) + w + " "
  {
    assert (line + [w])[..|line|] == line;
  }

  lemma BrokenSnoc(lines: seq<Line>, line: Line)
    ensures Broken(lines + [line]) == Broken(lines) + Cut(Spaced(line)) + "\n"
  {
    assert (lines + [line])[..|lines|] == lines;
  }

  lemma {:induction false} FlattenSnoc(lines: seq<Line>, line: Line)
    ensures Flatten(lines + [line]) == Flatten(lines) + line
  {
    if lines == [] {
      assert Flatten([line]) == line + Flatten([line][1..]);
      assert [] + [line] == [line];
    } else {
      FlattenSnoc(lines[1..], line);
      assert (lines + [line])[1..] == lines[1..] + [line];
      Assoc(lines[0], Flatten(lines[1..]), line);
    }
  }

  // ---------- format_message_comment ----------

  ghost predicate Formats(comment: string, width: nat, result: string) {
    if width == 0 then result == comment
    else exists lines :: IsWrapping(lines, Words(comment), width) && result == Text(lines)
  }

  /** The state of the loop: `done` lines are finished and `current` is being filled. */
  ghost predicate WrapSoFar(result: string, length: nat, done: seq<Line>, current: Line, words: seq<string>, width: nat) {
    && result == Broken(done) + Spaced(current)
    && length == LineLength(current)
    && LinesSoFar(done, current, words, width)
  }

  ghost predicate LinesSoFar(done: seq<Line>, current: Line, words: seq<string>, width: nat) {
    if words == [] then done == [] && current == [] else IsWrapping(done + [current], words, width)
  }

  /** The words of the lines when the current line takes one more. */
  lemma FlattenTakesWord(done: seq<Line>, current: Line, words: seq<string>, width: nat, w: string)
    requires LinesSoFar(done, current, words, width)
    ensures Flatten(done + [current + [w]]) == words + [w]
  {
    FlattenSnoc(done, current);
    FlattenSnoc(done, current + [w]);
    Assoc(Flatten(done), current, [w]);
    assert words == [] ==> Flatten(done) + current == words;
  }

  lemma LineTakesWord(done: seq<Line>, current: Line, words: seq<string>, width: nat, w: string)
    requires LinesSoFar(done, current, words, width) && LineLength(current) < width
    ensures LinesSoFar(done, current + [w], words + [w], width)
  {
    hide Flatten, LineLength;
    FlattenTakesWord(done, current, words, width, w);
    var before, lines := done + [current], done + [current + [w]];
    assert (current + [w])[..|current|] == current;
    assert forall i :: 0 <= i < |done| ==> lines[i] == done[i] == before[i];
  }

  lemma LineStops(done: seq<Line>, current: Line, words: seq<string>, width: nat, w: string)
    requires LinesSoFar(done, current, words, width) && width <= LineLength(current) && words != [] && 0 < width
    ensures LinesSoFar(done + [current], [w], words + [w], width)
  {
    var before := done + [current];
    FlattenSnoc(before, [w]);
    hide Flatten;
    var lines := before + [[w]];
    assert forall i :: 0 <= i < |before| ==> lines[i] == before[i];
    assert lines[|before|] == [w] && [w][..0] == [];
    assert before[|done|] == current;
  }

  lemma WrapAppends(result: string, length: nat, done: seq<Line>, current: Line, words: seq<string>, width: nat, w: string)
    requires WrapSoFar(result, length, done, current, words, width) && length < width
    ensures WrapSoFar(result + w + [' '], length + |w| + 1, done, current + [w], words + [w], width)
  {
    LineTakesWord(done, current, words, width, w);
    SpacedSnoc(current, w);
    LineLengthSnoc(current, w);
    hide LinesSoFar, Spaced, Broken, LineLength;
    Assoc(Broken(done), Spaced(current), w);
    Assoc(Broken(done), Spaced(current) + w, " ");
  }

  lemma CutBehind(a: string, b: string)
    requires b != ""
    ensures Cut(a + b) == a + Cut(b)
  {
  }

  lemma SpacedNotEmpty(line: Line)
    requires line != []
    ensures Spaced(line) != ""
  {
  }

  lemma WrapBreaks(result: string, length: nat, done: seq<Line>, current: Line, words: seq<string>, width: nat, w: string)
    requires WrapSoFar(result, length, done, current, words, width) && width <= length && words != [] && 0 < width
    ensures result != ""
    ensures WrapSoFar(Cut(result) + ['\n'] + w + [' '], |w| + 1, done + [current], [w], words + [w], width)
  {
    LineStops(done, current, words, width, w);
    assert current != [] by {
      assert (done + [current])[|done|] == current;
    }
    SpacedNotEmpty(current);
    BrokenSnoc(done, current);
    assert LineLength([w]) == |w| + 1;
    SpacedSnoc([], w);
    assert [] + [w] == [w] && "" + w == w && Spaced([]) == "";
    hide LinesSoFar, Spaced, Broken, LineLength;
    CutBehind(Broken(done), Spaced(current));
    Assoc(Cut(result) + ['\n'], w, " ");
  }

  lemma WrapEnds(result: string, length: nat, done: seq<Line>, current: Line, words: seq<string>, width: nat)
    requires WrapSoFar(result, length, done, current, words, width) && words != []
    ensures result != "" && IsWrapping(done + [current], words, width)
    ensures Cut(result) == Text(done + [current])
  {
    BrokenSnoc(done, current);
    assert current != [] by {
      assert (done + [current])[|done|] == current;
    }
    SpacedNotEmpty(current);
    hide Spaced, Broken, LinesSoFar, IsWrapping;
    CutBehind(Broken(done), Spaced(current));
  }

  lemma NothingToWrap(comment: string, width: nat)
    requires width == 0 || comment == "" || Words(comment) == []
    ensures Formats(comment, width, if width == 0 then comment else "")
  {
    if width != 0 {
      var noLines: seq<Line> := [];
      assert Text(noLines) == "" && IsWrapping(noLines, [], width);
      assert Words("") == [];
    }
  }

  lemma WrapStart(width: nat)
    ensures WrapSoFar("", 0, [], [], [], width)
  {
  }

  lemma FormatsBy(comment: string, width: nat, lines: seq<Line>)
    requires width != 0 && IsWrapping(lines, Words(comment), width)
    ensures Formats(comment, width, Text(lines))
  {
  }

  method FormatMessageComment(comment: string, width: nat) returns (result: string)
    ensures Formats(comment, width, result)
  {
    hide *;
    if width == 0 {
      NothingToWrap(comment, width);
      return comment;
    }
    result := "";
    if comment == "" {
      NothingToWrap(comment, width);
      return;
    }
    var tokens := SplitIsspace(comment);
    if tokens == [] {
      NothingToWrap(comment, width);
      return;
    }
    ghost var done: seq<Line>, current: Line := [], [];
    WrapStart(width);
    var currentLineLength: nat := 0;
    assert tokens[..0] == [];
    for n := 0 to |tokens|
      invariant WrapSoFar(result, currentLineLength, done, current, tokens[..n], width)
      invariant n == 0 ==> currentLineLength == 0
    {
      var token := tokens[n];
      assert tokens[..n + 1] == tokens[..n] + [token];
      if currentLineLength < width {
        WrapAppends(result, currentLineLength, done, current, tokens[..n], width, token);
        result := result + token;
        result := result + [' '];
        current := current + [token];
      } else {
        WrapBreaks(result, currentLineLength, done, current, tokens[..n], width, token);
        result := Cut(result) + ['\n'];
        currentLineLength := 0;
        result := result + token;
        result := result + [' '];
        done, current := done + [current], [token];
      }
      currentLineLength := currentLineLength + |token| + 1;
    }
    assert tokens[..|tokens|] == tokens;
    WrapEnds(result, currentLineLength, done, current, tokens, width);
    FormatsBy(comment, width, done + [current]);
    result := Cut(result);
  }

  // ---------- Properties of every formatted message ----------

  lemma FormatIsUnique(comment: string, width: nat, r1: string, r2: string)
    requires Formats(comment, width, r1) && Formats(comment, width, r2)
    ensures r1 == r2
  {
    if width != 0 {
      var a :| IsWrapping(a, Words(comment), width) && r1 == Text(a);
      var b :| IsWrapping(b, Words(comment), width) && r2 == Text(b);
      WrappingIsUnique(a, b, Words(comment), width);
    }
  }

  /** The words that `w` starts with when white space follows. */
  function Lead(w: string): seq<string> {
    if w == "" then [] else [w]
  }

  lemma WordsFirst(w: string, c: char, rest: string)
    requires IsSpace(c) && FirstSpace(w) == |w|
    ensures Words(w + [c] + rest) == Lead(w) + Words(rest)
    ensures Words(w) == Lead(w)
  {
    var s := w + [c] + rest;
    Assoc(w, [c], rest);
    FirstSpaceBehind(w, [c] + rest);
    assert s[..|w|] == w == w[..|w|];
    assert s[|w| + 1..] == rest;
  }

  lemma WordsAcrossStep(w: string, x: char, a: string, c: char, b: string)
    requires IsSpace(x) && FirstSpace(w) == |w|
    requires Words(a + [c] + b) == Words(a) + Words(b)
    ensures Words(w + [x] + a + [c] + b) == Words(w + [x] + a) + Words(b)
  {
    WordsFirst(w, x, a);
    WordsFirst(w, x, a + [c] + b);
    hide *;
    RegroupRight(w, [x], a, [c], b);
    Assoc(Lead(w), Words(a), Words(b));
  }

  lemma {:induction false} WordsAcrossSpace(a: string, c: char, b: string)
    requires IsSpace(c)
    ensures Words(a + [c] + b) == Words(a) + Words(b)
    decreases |a|
  {
    hide Words;
    var k := FirstSpace(a);
    if k < |a| {
      SplitAround(a, k);
      FirstSpaceBehind(a[..k], "");
      assert a[..k] + "" == a[..k];
      WordsAcrossSpace(a[k + 1..], c, b);
      WordsAcrossStep(a[..k], a[k], a[k + 1..], c, b);
    } else {
      WordsFirst(a, c, b);
    }
  }

  predicate SpaceAtEnd(a: string) {
    a == "" || IsSpace(a[|a| - 1])
  }

  lemma CutSnoc(a: string)
    requires a != ""
    ensures Cut(a) + [a[|a| - 1]] == a
  {
  }

  lemma WordsOfCut(a: string)
    requires SpaceAtEnd(a)
    ensures Words(Cut(a)) == Words(a)
  {
    if a != "" {
      WordsAcrossSpace(Cut(a), a[|a| - 1], "");
      assert Words("") == [];
      CutSnoc(a);
      hide Words, Cut;
      assert a + "" == a;
    }
  }

  lemma WordsBehindSpace(a: string, b: string)
    requires SpaceAtEnd(a)
    ensures Words(a + b) == Words(a) + Words(b)
  {
    if a == "" {
      assert Words("") == [];
      hide Words;
      assert a + b == b;
    } else {
      WordsOfCut(a);
      WordsAcrossSpace(Cut(a), a[|a| - 1], b);
      CutSnoc(a);
      hide Words, Cut;
    }
  }

  lemma WordsOfEnd(w: string, c: char)
    requires IsWord(w) && IsSpace(c)
    ensures Words(w + [c]) == [w]
  {
    WordsOfWord(w, [c]);
    WordsOfBlank(c, "");
    assert [c] + "" == [c];
    assert Words("") == [];
  }

  /** A word behind text that ends in white space is one more word. */
  lemma WordsSnoc(text: string, w: string)
    requires SpaceAtEnd(text) && IsWord(w)
    ensures Words(text + w + " ") == Words(text) + [w] && SpaceAtEnd(text + w + " ")
  {
    WordsOfEnd(w, ' ');
    WordsBehindSpace(text, w + " ");
    hide Words;
    Assoc(text, w, " ");
  }

  ghost predicate SpacedHolds(line: Line) {
    Words(Spaced(line)) == line && SpaceAtEnd(Spaced(line))
  }

  lemma SpacedStep(front: Line, w: string)
    requires SpacedHolds(front) && IsWord(w)
    ensures SpacedHolds(front + [w])
  {
    SpacedSnoc(front, w);
    WordsSnoc(Spaced(front), w);
  }

  lemma {:induction false} WordsOfSpaced(line: Line)
    requires forall i :: 0 <= i < |line| ==> IsWord(line[i])
    ensures SpacedHolds(line)
  {
    if line == [] {
      assert Words("") == [];
    } else {
      hide *;
      var front := line[..|line| - 1];
      WordsOfSpaced(front);
      SpacedStep(front, line[|line| - 1]);
      Snoc(line);
    }
  }

  lemma EndsOnBreak(a: string)
    ensures SpaceAtEnd(a + "\n")
  {
  }

  lemma WordsOfCutLine(line: string)
    requires SpaceAtEnd(line)
    ensures Words(Cut(line) + "\n") == Words(line)
  {
    WordsOfCut(line);
    WordsAcrossSpace(Cut(line), '\n', "");
    assert Words("") == [];
    hide Words, Cut;
    assert Cut(line) + ['\n'] + "" == Cut(line) + "\n";
  }

  /** A finished line behind finished lines. */
  lemma WordsBreak(text: string, line: string)
    requires SpaceAtEnd(text) && SpaceAtEnd(line)
    ensures Words(text + Cut(line) + "\n") == Words(text) + Words(line) && SpaceAtEnd(text + Cut(line) + "\n")
  {
    hide Words, Cut, SpaceAtEnd;
    WordsOfCutLine(line);
    WordsBehindSpace(text, Cut(line) + "\n");
    Assoc(text, Cut(line), "\n");
    EndsOnBreak(text + Cut(line));
  }

  ghost predicate BrokenHolds(lines: seq<Line>) {
    Words(Broken(lines)) == Flatten(lines) && SpaceAtEnd(Broken(lines))
  }

  lemma BrokenStep(front: seq<Line>, line: Line)
    requires BrokenHolds(front) && SpacedHolds(line)
    ensures BrokenHolds(front + [line])
  {
    BrokenSnoc(front, line);
    FlattenSnoc(front, line);
    hide Broken, Flatten, Words, Spaced, SpaceAtEnd;
    WordsBreak(Broken(front), Spaced(line));
  }

  lemma {:induction false} WordsOfBroken(lines: seq<Line>)
    requires forall i, j :: 0 <= i < |lines| && 0 <= j < |lines[i]| ==> IsWord(lines[i][j])
    ensures BrokenHolds(lines)
  {
    if lines == [] {
      assert Words("") == [];
    } else {
      hide *;
      var front := lines[..|lines| - 1];
      WordsOfBroken(front);
      WordsOfSpaced(lines[|lines| - 1]);
      BrokenStep(front, lines[|lines| - 1]);
      Snoc(lines);
    }
  }

  lemma {:induction false} FlattenHolds(lines: seq<Line>, i: nat, j: nat)
    requires i < |lines| && j < |lines[i]|
    ensures exists k :: 0 <= k < |Flatten(lines)| && Flatten(lines)[k] == lines[i][j]
  {
    if i == 0 {
      assert Flatten(lines)[j] == lines[0][j];
    } else {
      FlattenHolds(lines[1..], i - 1, j);
      var k :| 0 <= k < |Flatten(lines[1..])| && Flatten(lines[1..])[k] == lines[i][j];
      assert Flatten(lines)[|lines[0]| + k] == lines[i][j];
    }
  }

  /** Wrapping neither loses, changes nor reorders a word. */
  lemma {:induction false} FormatKeepsWords(comment: string, width: nat, result: string)
    requires Formats(comment, width, result)
    ensures Words(result) == Words(comment)
  {
    if width != 0 {
      var lines :| IsWrapping(lines, Words(comment), width) && result == Text(lines);
      WordsAreWords(comment);
      forall i, j | 0 <= i < |lines| && 0 <= j < |lines[i]| ensures IsWord(lines[i][j]) {
        FlattenHolds(lines, i, j);
      }
      WordsOfBroken(lines);
      WordsOfCut(Broken(lines));
    }
  }

  /** Wrapping a wrapped message to the same width changes nothing. */
  lemma {:induction false} FormatIsIdempotent(comment: string, width: nat, once: string, twice: string)
    requires Formats(comment, width, once) && Formats(once, width, twice)
    ensures twice == once
  {
    if width != 0 {
      FormatKeepsWords(comment, width, once);
      FormatIsUnique(comment, width, once, twice);
    }
  }

  // ---------- Widths ----------

  /** The length that is compared with the width is that of the text of the line, with the blank behind it. */
  lemma {:induction false} LineLengthIsText(line: Line)
    ensures LineLength(line) == |Spaced(line)|
  {
    if line != [] {
      LineLengthIsText(line[..|line| - 1]);
    }
  }

  lemma WordsOfTwo(a: string, b: string)
    requires IsWord(a) && IsWord(b)
    ensures Words(a + " " + b) == [a, b]
  {
    assert a + " " + b == a + (" " + b);
    WordsOfWord(a, " " + b);
    WordsOfBlank(' ', b);
    WordsOfWord(b, "");
    assert b + "" == b && Words("") == [];
  }

  /** A line of one word: its text, and what of it is compared with the width. */
  lemma WordAlone(a: string)
    ensures Spaced([a]) == a + " " && Cut(Spaced([a])) == a
    ensures LineLength([a]) == |a| + 1 && [a][..0] == [] && LineLength([]) == 0
  {
    SpacedSnoc([], a);
    LineLengthSnoc([], a);
    assert [] + [a] == [a] && Spaced([]) == "" && "" + a + " " == a + " ";
  }

  lemma OneLine(a: string, b: string, width: nat)
    requires |a| + 1 < width
    ensures IsWrapping([[a, b]], [a, b], width) && Text([[a, b]]) == a + " " + b
  {
    var line := [a, b];
    WordAlone(a);
    SpacedSnoc([a], b);
    FlattenSnoc([], line);
    BrokenSnoc([], line);
    assert [a] + [b] == line && line[..1] == [a] && [] + [line] == [line];
    assert Flatten([]) == [] && Broken([]) == "";
    hide Flatten, Broken, Spaced, LineLength;
    assert Cut(Spaced(line)) == a + " " + b;
    assert [] + line == line && "" + Cut(Spaced(line)) + "\n" == Cut(Spaced(line)) + "\n";
  }

  lemma TwoLines(a: string, b: string, width: nat)
    requires 0 < width <= |a| + 1
    ensures IsWrapping([[a], [b]], [a, b], width) && Text([[a], [b]]) == a + "\n" + b
  {
    WordAlone(a);
    WordAlone(b);
    FlattenSnoc([], [a]);
    FlattenSnoc([[a]], [b]);
    BrokenSnoc([], [a]);
    BrokenSnoc([[a]], [b]);
    assert Flatten([]) == [] && Broken([]) == "";
    hide Flatten, Broken, Spaced, LineLength, Cut;
    assert [] + [[a]] == [[a]] && [[a]] + [[b]] == [[a], [b]];
    assert [] + [a] == [a] && [a] + [b] == [a, b];
    assert "" + a + "\n" == a + "\n";
    CutBreak(a + "\n" + b);
  }

  lemma CutBreak(s: string)
    ensures Cut(s + "\n") == s
  {
  }

  /** Two words stay on one line exactly when the first with its blank is below the width; width zero changes nothing. */
  lemma {:induction false} FormatOfTwo(a: string, b: string, width: nat, result: string)
    requires IsWord(a) && IsWord(b)
    ensures Formats(a + " " + b, width, result) <==>
            result == if width == 0 || |a| + 1 < width then a + " " + b else a + "\n" + b
  {
    WordsOfTwo(a, b);
    hide Words, IsWrapping, Text, IsWord;
    var comment := a + " " + b;
    if width > 0 {
      var expected := if |a| + 1 < width then a + " " + b else a + "\n" + b;
      if |a| + 1 < width {
        OneLine(a, b, width);
      } else {
        TwoLines(a, b, width);
      }
      assert Formats(comment, width, expected);
      if Formats(comment, width, result) {
        FormatIsUnique(comment, width, result, expected);
      }
    }
  }

  lemma {:induction false} WordsOfSpaces(s: string)
    requires AllSpace(s)
    ensures Words(s) == []
    decreases |s|
  {
    if s != "" {
      assert s == [s[0]] + s[1..];
      WordsOfSpaces(s[1..]);
      WordsOfBlank(s[0], s[1..]);
    }
  }

  /** Nothing is left of a comment without words, unless the width is zero. */
  lemma {:induction false} FormatOfBlank(blank: string, width: nat, result: string)
    requires AllSpace(blank)
    ensures Formats(blank, width, result) <==> result == if width == 0 then blank else ""
  {
    WordsOfSpaces(blank);
    NothingToWrap(blank, width);
    hide Words, Formats;
    if Formats(blank, width, result) {
      FormatIsUnique(blank, width, result, if width == 0 then blank else "");
    }
  }
}
