# clang-uml: verified models of its self-contained algorithms

clang-uml draws UML diagrams from C++ sources. Most of it moves data between the
Clang AST, YAML and the diagram generators; between these sit a few algorithms
that can be specified completely. This project models them in Dafny and proves
what they promise. Each file is one module.

| file | what it models |
|---|---|
| `Levenshtein.dfy` | the edit distance table, and the nearest-match search that suggests names |
| `Decorators.dfy` | the parser of `@uml{...}` directives in comments |
| `ThreadPool.dfy` | the thread pool as a machine of atomic steps, over all interleavings |
| `TemplateParams.dfy` | the parser of template arguments that are only known as text |
| `Glob.dfy` | the translation of globs to regular expressions, with a reader for the result |
| `Substitution.dfy`, `Splitting.dfy`, `WordWrap.dfy`, `Strings.dfy` | `replace_all`, `split`, `join`, wrapping of messages, trimming |
| `JsonEscape.dfy` | the JSON escaper of the logger |
| `TypeAliases.dfy` | rewriting type names by aliases until nothing matches |
| `MergePatch.dfy`, `Options.dfy`, `UserData.dfy` | inheritance of options and user data, `--user-data` on the command line |
| `Memoized.dfy` | the three memoizing class templates |

Code that changes things step by step is a method or a class with loops; each is
proved against a function or a predicate on values, and the properties are
lemmas about that function. Where the property is what a result means, there is
an independent definition on the other side: edit scripts for the distance,
leftmost cuts for substitution, greedy line breaks for wrapping, a reader of
JSON strings for the escaper, a printer for each parser, the language of a
regular expression for the glob, lookups by path for the JSON documents.

## Results that a reader may not expect

The code is modelled as it is. These properties do not hold without a condition,
and the condition is proved to be exact or a concrete input is given.

- Template arguments: outside of all brackets the scan ends at the first closing
  bracket, so arguments behind a nested one are lost; inside, the closing bracket
  and the comma behind it both complete an argument, the second one without a name
  and with what is left in `nested_params`. The round trip holds if and only if
  only the last argument of every list is nested
  (`TemplateParams.RoundTrip`, `TemplateParams.LaterArgumentsAreLost`).
- Globs: a name that is a single line break is accepted by every pattern without
  a bracket expression, and wildcards do not match line breaks. `Glob.FnMatchIs`
  says exactly which names are accepted by such patterns,
  `Glob.LineBreakMatchesEverything` gives an input.
- Inherited user data: inheriting the same parent twice is inheriting it once if
  and only if no null is in the way (`MergePatch.TwiceIsOnce`); `MergePatch.NullComesBack`
  gives documents for which it differs.
- `--user-data`: `docs/jinja_templates.md:95-112` says that the option is an
  alternative to `user_data` in the configuration. The code writes the value without
  declaring the option, so a diagram inherits it only if the configuration declares
  user data of its own (`UserData.ReachesDiagram`); the example of the documentation is
  not seen in a configuration without it (`UserData.LicenseIsNotSeen`).
- Aliases: rewriting need not end. A configured alias that qualifies its own name,
  such as `Foo` by `ns::Foo`, is rewritten for ever in every name with `Foo` in it,
  next to the built-in aliases (`TypeAliases.QualifyingNeverSettles`). In general
  this happens when every other alias keeps apart from the pattern or brings it as
  well (`TypeAliases.SelfReplacingNeverSettles`). Two aliases that lead to each other
  are rewritten for ever when all others keep apart from both patterns
  (`TypeAliases.CircleNeverSettles`). Without these conditions such aliases may come to
  rest (`TypeAliases.SelfReplacingMaySettle`, `TypeAliases.CircleMaySettle`). Every name
  comes to rest when each replacement is shorter than its pattern, or not empty and
  apart from all patterns (`TypeAliases.TameSettles`).
- JSON: control characters other than CR, LF, tab and backspace are not escaped;
  the output is a valid string body if and only if the input has none of them
  (`JsonEscape.EscapedIsJson`).
- Decorators: the view that `parse` hands on is too long. It contains the closing
  brace if and only if at least two characters stand in front of the opening one
  (`Decorators.ViewHoldsBrace`), and with a non-empty tag there always are two
  (`Decorators.ViewFindsBrace`). But `tokenize` looks for brackets before it looks for
  the brace, and that search may run past it: what it reads is independent of the text
  behind the brace if and only if scope and option are closed in front of it
  (`Decorators.StopsAtBraceIff`). In `@uml{note[left} x] y}` they are not, and the text
  ends on the second brace (`Decorators.OpenOptionRunsOver`). In every block whose
  directives are closed the long views do no harm (`Decorators.ViewsDoNoHarm`). Text
  behind the last directive is dropped.
- Nearest matches: which of several equally distant names are returned depends on the
  sort; the distances at all places do not (`Levenshtein.CostsAreDetermined`).
- Options in append mode: a list grows with every further inheritance
  (`Options.VectorSettles`). No option of `src/config/config.h` is itself a list in that
  mode, but the directives of the PlantUML section are appended in the same way
  (`Options.PlantumlSettles`). The sections for Mermaid and GraphML are in append mode
  too (`src/config/config.h:644-645`) and have a method `append`, but `append_value` is
  specialised for PlantUML only (`src/config/config.cc:634-637`), so they are assigned:
  a diagram loses its own section to a declared one of the configuration. This, like
  the rule that an option in override mode inherits only once, is read off the
  code (remarked on in `Options.ReplaceKeepsOwnIff` and `Options.OverrideSettles`).

## Model

| member | source | states |
|---|---|---|
| Levenshtein.LevenshteinDistance | src/util/levenshtein.cc:23-44 | the table, filled in place, ends with the distance that `DistanceIsMinimumEdits` characterises |
| Levenshtein.DistanceIsMinimumEdits | src/util/levenshtein.cc:28-43 | a number is the distance if and only if some sequence of insertions, deletions and substitutions of that length turns one string into the other and none is shorter |
| Levenshtein.NoScriptIsCheaper | src/util/levenshtein.cc:34-41 | no sequence of edits between the strings costs less than the distance |
| Levenshtein.SomeScriptAttains | src/util/levenshtein.cc:34-41 | constructs a sequence of edits that costs exactly the distance |
| Levenshtein.Symmetric | src/util/levenshtein.cc:23-44 | the distance is the same in both directions |
| Levenshtein.Triangle | src/util/levenshtein.cc:23-44 | the distance over a third string is never shorter, by composing edit sequences |
| Levenshtein.ZeroIffEqual | src/util/levenshtein.cc:23-44 | the distance is zero exactly for equal strings |
| Levenshtein.Bounds | src/util/levenshtein.cc:28-32 | the distance lies between the difference of the lengths and the greater length |
| Levenshtein.GetApproximateMatches | src/util/levenshtein.cc:46-67 | returns the requested number of items, a sub-multiset of the collection, in order of distance, and no omitted item is closer than a returned one; a negative number asks for all |
| Levenshtein.PrefixOfSort | src/util/levenshtein.cc:55-66 | the front of any sorted permutation is a cheapest selection, however the sort breaks ties |
| Levenshtein.CostsAreDetermined | src/util/levenshtein.cc:57-66 | any two cheapest selections of the same size have the same distance at every place: only the choice among equally distant items is open |
| Decorators.Tokenize | src/decorators/decorators.cc:63-107 | the advancing scan reads scope, option and text as `TokensOf` does, and is undefined where the code runs past the end |
| Decorators.ReadTokens | src/decorators/decorators.cc:63-107 | printed scope, option and text are read back, whatever follows the closing brace |
| Decorators.FromString | src/decorators/decorators.cc:27-55 | the dispatch gives the decorator of the first matching label, or none |
| Decorators.KindOfLabel | src/decorators/decorators.cc:27-55 | each printed label selects its own decorator although the labels are tried by prefix and `note` comes first |
| Decorators.ReadDirective | src/decorators/decorators.cc:109-188 | for every kind of decorator, reading the printed directive gives the decorator that its parts stand for |
| Decorators.ReadShown | src/decorators/decorators.cc:27-188 | every decorator written with its literal label, scope, option and text is read back as itself, whatever stands behind its brace |
| Decorators.ReadNoteWithoutPosition | src/decorators/decorators.cc:109-122 | a note without a position is on the left |
| Decorators.UnknownIff | src/decorators/decorators.cc:27-55 | a directive yields nothing if and only if it begins with none of the labels |
| Decorators.UnknownIsLeftOut | src/decorators/decorators.cc:222-233 | in any block an unknown directive yields no decorator, and the text in front of it is kept |
| Decorators.UnclosedIsLeftOut | src/decorators/decorators.cc:216-220 | a directive without a closing brace ends the result in front of the text before it |
| Decorators.SpacesAreRemoved | src/decorators/decorators.cc:80-82 | no white space is left in a scope, and a scope without any is unchanged |
| Decorators.ViewHoldsBrace | src/decorators/decorators.cc:215-223 | the view of length `c_end - 2` contains the closing brace at its place, if and only if at least two characters stand in front of the opening brace |
| Decorators.ViewFindsBrace | src/decorators/decorators.cc:206-223 | for every block and every non-empty tag, the first closing brace in the view of a directive is the one that `parse` found, and what stands in front of it is the text between the braces |
| Decorators.StopsAtBraceIff | src/decorators/decorators.cc:63-107 | for every text between label and brace, what `tokenize` reads does not depend on what stands behind the brace if and only if a scope is followed by an option bracket, and an option bracket is closed, in front of it |
| Decorators.ClosedBodyStops | src/decorators/decorators.cc:27-188 | a closed directive of any kind gives the same decorator from the over-long view as from one that ends on the brace |
| Decorators.ViewsDoNoHarm | src/decorators/decorators.cc:213-236 | for every block and non-empty tag, when all directives are closed, parsing with the over-long views is parsing with views that end on the brace |
| Decorators.OpenOptionRunsOver | src/decorators/decorators.cc:89-102 | a block in which `parse` finds the brace at 26 and the decorator takes option and text from behind it |
| Decorators.Parse | src/decorators/decorators.cc:190-237 | the loop over the block yields the decorators and the trimmed text that `ParseOf` defines by recursion |
| Decorators.ParseRendered | src/decorators/decorators.cc:190-237 | whole-comment round trip: any comment rendered from gaps and well-formed directives parses to their meanings in order and to the trimmed gaps |
| Decorators.ParseShown | src/decorators/decorators.cc:190-237 | whole-comment round trip for decorators: a comment written from any of them, with plain text in between, gives them back in order with the trimmed text |
| Decorators.ParseWithDirectives | src/decorators/decorators.cc:213-236 | with at least one directive the text behind the last one is not returned |
| Decorators.ParseWithoutDirectives | src/decorators/decorators.cc:206-211 | a comment without directives gives no decorators and its trimmed text |
| ThreadPool.Executor.constructor | src/util/thread_pool_executor.cc:23-32 | the pool starts with all workers before their first test, with the invariant; size zero means hardware concurrency |
| ThreadPool.PoolSizeIsUsed | src/util/thread_pool_executor.cc:23-32 | some run has exactly as many tasks in hand at a time as the pool size says and no run has more; for size zero the same with the hardware concurrency |
| ThreadPool.SomebodyMoves | src/util/thread_pool_executor.cc:23-32 | with a size or hardware that runs a thread, some worker can move in every reachable state before the flag is set |
| ThreadPool.OnItsWayTakesTheFront | src/util/thread_pool_executor.cc:73-87 | a worker in `get` takes the front task whenever there is one, also when the flag is set; it exits only from an empty queue with the flag set and waits only from an empty one without |
| ThreadPool.Executor.AddTask | src/util/thread_pool_executor.cc:36-49 | appends the task in one step and keeps the invariant |
| ThreadPool.Executor.SetDone | src/util/thread_pool_executor.cc:51-53 | the first step of `stop`: sets the flag and keeps the invariant |
| ThreadPool.Executor.JoinNext | src/util/thread_pool_executor.cc:54-58 | `stop` joins one thread after the other, in order, and then returns |
| ThreadPool.Executor.TestDone | src/util/thread_pool_executor.cc:63-63 | the loop test sends a worker to the queue or to its exit |
| ThreadPool.Executor.GetTask | src/util/thread_pool_executor.cc:73-87 | one region under the mutex: take the front task, wait, or exit when the flag is set and the queue is empty |
| ThreadPool.Executor.WakeUp | src/util/thread_pool_executor.cc:81-81 | the timed wait ends, for whatever reason, and the queue is tested again |
| ThreadPool.Executor.FinishTask | src/util/thread_pool_executor.cc:64-67 | a task returns and its worker goes back to the loop test |
| ThreadPool.InvariantRun | src/util/thread_pool_executor.cc:23-87 | every interleaving keeps: dequeued tasks followed by the queue are the added ones; dequeued tasks are held or executed; workers exit only after the flag |
| ThreadPool.ExactlyOnePlace | src/util/thread_pool_executor.cc:36-87 | in every reachable state an added task is in exactly one place: queued, held by one worker, or executed once |
| ThreadPool.DequeuedInOrder | src/util/thread_pool_executor.cc:36-87 | tasks are dequeued in the order in which they were added |
| ThreadPool.AtMostOneMore | src/util/thread_pool_executor.cc:60-87 | after the flag is set, a worker takes at most one more task, and none unless it had passed the loop test |
| ThreadPool.NobodyIsStuck | src/util/thread_pool_executor.cc:73-82 | a worker that has not exited can always move although `stop` notifies nobody |
| ThreadPool.StopReturns | src/util/thread_pool_executor.cc:51-87 | after the flag is set a measure bounds the number of further moves of workers and `stop`, whatever is added meanwhile |
| ThreadPool.AtRestIsOver | src/util/thread_pool_executor.cc:51-87 | no worker and no `stop` can move if and only if all workers have exited and `stop` is not running |
| ThreadPool.StopEnds | src/util/thread_pool_executor.cc:51-87 | after a call of `stop` in any reachable state, every run without another call makes a bounded number of moves, and it can make no more if and only if `stop` has returned, all workers having exited |
| ThreadPool.StopCanReturn | src/util/thread_pool_executor.cc:51-58 | from every reachable state in which `stop` is not running, some run calls it and it returns |
| ThreadPool.NothingRunsAfterStop | src/util/thread_pool_executor.cc:51-58 | once `stop` has returned nothing is held or can move, and the tasks not executed are a suffix of the added ones |
| ThreadPool.QueueDrains | src/util/thread_pool_executor.cc:60-87 | while tasks are queued and none is added, the steps of workers are bounded by a measure: they cannot spend them on waiting |
| ThreadPool.DrainEnds | src/util/thread_pool_executor.cc:36-87 | from any reachable state, when workers make more moves than that measure while nothing is added, the queue is empty; once no worker holds a task, every added task has been executed exactly once |
| TemplateParams.ParseUnexposedTemplateParams | src/common/clang_utils.cc:557-647 | the scan with its moving position, collected type and nested arguments computes `ParseOf`; it and its recursion terminate on every input, balanced or not |
| TemplateParams.FindMatch | src/common/clang_utils.cc:594-613 | the level counter finds where the bracketed part ends |
| TemplateParams.BracketsMatch | src/common/clang_utils.cc:594-613 | in a printed list followed by a closing bracket, that bracket is the one found, however deep the nesting |
| TemplateParams.ParsePrinted | src/common/clang_utils.cc:557-647 | parsing any written tree of names gives exactly what `Obtained` says, node by node: the name proper resolved, arguments that are lost, nameless ones, and emptied objects |
| TemplateParams.EveryNameIsWritten | src/util/util.cc:241-248 | every name without delimiters is white space, perhaps `typename`, a name proper and white space, so no name is left out of the trees |
| TemplateParams.ObtainedIsExpectedIff | src/common/clang_utils.cc:617-640 | what is obtained is the expected tree if and only if only last arguments are nested |
| TemplateParams.RoundTrip | src/common/clang_utils.cc:557-647 | parsing a written tree gives the tree in which each node is the resolver's answer for the name without `typename` and white space, if and only if only last arguments are nested |
| TemplateParams.LaterArgumentsAreLost | src/common/clang_utils.cc:611-616 | `A<B>,C` gives `A` with `B` and nothing else |
| TemplateParams.InnerArgumentsAreSpoilt | src/common/clang_utils.cc:611-632 | `A<B<C>,D>` gives `A` with `B` with `C`, a nameless argument and `D`, both of which hold an emptied object |
| TemplateParams.TypenameConstraint | src/common/clang_utils.cc:636-644 | `typename T>` and any text gives the argument `T` |
| TemplateParams.EmptyBrackets | src/common/clang_utils.cc:600-607 | brackets around white space are kept as an argument with that text, which is not resolved |
| TemplateParams.NothingToParse | src/common/clang_utils.cc:566-574 | white space in front of the end of the list gives no arguments |
| Glob.Translate | thirdparty/glob/glob.hpp:37-138 | the loop over the pattern emits one piece per character, inside the group with the line breaks, if and only if no bracket is closed; else the model has no result |
| Glob.BracketFreeIff | thirdparty/glob/glob.hpp:48-61 | a bracket is closed when a closing one stands behind it that is not the first character, after an optional exclamation mark |
| Glob.SpecialCodes | thirdparty/glob/glob.hpp:121-121 | which characters are escaped, by their ASCII codes |
| Glob.ReadTranslated | thirdparty/glob/glob.hpp:37-143 | the emitted text of a pattern without bracket expressions, read by the grammar of regular expressions, is the intended expression: escapes hold back every special character |
| Glob.PatternMatches | thirdparty/glob/glob.hpp:37-138 | the language of the pattern's expression is that of the glob whose wildcards stop at line breaks, at every place of the name |
| Glob.FnMatchIs | thirdparty/glob/glob.hpp:140-148 | for patterns without bracket expressions, a name is accepted if and only if the glob accepts it with wildcards that stop at line breaks, or it is a single CR or LF |
| Glob.FnMatchIsGlob | thirdparty/glob/glob.hpp:140-148 | for names without line breaks and patterns without bracket expressions, acceptance is that of the glob |
| Glob.WildcardStopsAtLineBreaks | thirdparty/glob/glob.hpp:46-47 | a question mark stands for every character but line feed and carriage return |
| Glob.LineBreakMatchesEverything | thirdparty/glob/glob.hpp:137-148 | the name "\n" is accepted by the pattern "a" |
| Strings.TrimIs | src/util/util.cc:229-250 | trimming removes exactly the white space around a trimmed core |
| Strings.SpaceCodes | src/util/util.cc:229-239 | the white space characters by their ASCII codes |
| Substitution.ReplaceAll | src/util/util.cc:371-384 | the in-place loop terminates, gives recursive leftmost substitution, and reports whether the pattern occurred |
| Substitution.PiecesCutLeftmost | src/util/util.cc:371-384 | the pieces between replacements are cut at leftmost occurrences and the last contains none |
| Substitution.LeftmostCutIsUnique | src/util/util.cc:371-384 | there is only one leftmost cut of a string, so substitution is determined by it |
| Substitution.JoinOfPieces | src/util/util.cc:371-384 | putting the pattern back between the pieces gives the input: nothing else is touched |
| Substitution.ReplacedLength | src/util/util.cc:371-384 | the length changes by the number of replacements times the difference of the lengths |
| Substitution.ReplacementsPositive | src/util/util.cc:371-384 | something is replaced if and only if the pattern occurs |
| Substitution.ReplacedFront | src/util/util.cc:378-382 | the replacement text is never scanned again, even when it contains the pattern |
| Substitution.EmptyPatternNeverEnds | src/util/util.cc:376-382 | with an empty pattern the loop still goes on after any number of turns, on every input that is not empty |
| Splitting.Split | src/util/util.cc:270-303 | the scanning loop computes the pieces, with empty ones kept or skipped and a last empty one never seen |
| Splitting.SplitOfJoin | src/util/util.cc:270-303 | non-empty tokens that share no character with the delimiter come back from their join, for both settings |
| Splitting.SkippingIs | src/util/util.cc:287-300 | with empty tokens skipped none is left, and every other token occurs as often as without |
| Splitting.SplitOfNothing | src/util/util.cc:270-303 | the empty string gives one empty token, or none when empty tokens are skipped |
| Splitting.JoinOfSplit | src/util/util.cc:327-331 | joining the split of any string gives it back, less one delimiter at its end when the scan stops there |
| Splitting.SplitIsspace | src/util/util.cc:305-325 | the scan yields the words between white space, in order |
| Splitting.WordsAreWords | src/util/util.cc:305-325 | every word is non-empty and free of white space |
| WordWrap.FormatMessageComment | src/util/util.cc:486-520 | the text is that of a wrapping: the same words in order, a line ends exactly when its length has reached the width |
| WordWrap.WrappingIsUnique | src/util/util.cc:501-515 | words and a width have only one wrapping |
| WordWrap.FormatIsUnique | src/util/util.cc:486-520 | the specification of the formatter leaves one result for every comment and width, including width zero and blank comments |
| WordWrap.FormatKeepsWords | src/util/util.cc:486-520 | the words of the result are the words of the comment |
| WordWrap.FormatOfTwo | src/util/util.cc:501-515 | two words stay on one line if and only if the first one with its blank is shorter than the width; width zero changes nothing |
| WordWrap.FormatOfBlank | src/util/util.cc:488-499 | a comment without words becomes empty, unless the width is zero |
| WordWrap.FormatIsIdempotent | src/util/util.cc:486-520 | formatting a formatted comment changes nothing |
| JsonEscape.EscapeJsonString | src/util/logging.cc:72-80 | the six replacements in a row give one per-character map |
| JsonEscape.SixReplacements | src/util/logging.cc:74-79 | that map is the composition of the six leftmost substitutions, in the order of the code |
| JsonEscape.EscapedCodes | src/util/logging.cc:74-79 | what becomes of each character, by its ASCII code |
| JsonEscape.EscapedIsJson | src/util/logging.cc:72-80 | the result is a valid string body by section 7 of RFC 8259 if and only if no other control character is in the input, and then it decodes to the input without CR and LF and with blanks for tab and backspace |
| JsonEscape.EscapedStaysInside | src/util/logging.cc:72-80 | for every input, the first unescaped quote is the one behind the result |
| TypeAliases.BeforeIsStrictTotalOrder | src/config/config.h:567-577 | the longer-first comparator is asymmetric, total on distinct patterns and transitive |
| TypeAliases.LongerIsFirst | src/config/config.h:567-577 | a longer pattern comes first; of two with the same length the one with the greater character where they first differ |
| TypeAliases.Insert | src/config/config.h:567-577 | inserting in that order loses no alias and keeps the first one of a pattern |
| TypeAliases.LongerFirst | src/config/config.cc:337-339 | the list that is gone through holds every alias, longer patterns first |
| TypeAliases.OrderIsUnique | src/config/config.cc:337-339 | there is only one such list |
| TypeAliases.RunPass | src/config/config.cc:341-350 | one pass rewrites by every alias in turn and reports whether one matched |
| TypeAliases.PassOver | src/config/config.cc:343-347 | going through a list is going through its front and then through the rest: every alias takes its turn in each pass |
| TypeAliases.UntouchedIsFree | src/config/config.cc:341-350 | a pass reports no match if and only if the name contains no pattern, and then it changes nothing |
| TypeAliases.SimplifyTemplateType | src/config/config.cc:334-352 | for every name that comes to rest, the result is reached by passes and contains no pattern of any alias |
| TypeAliases.SimplifiedStays | src/config/config.cc:334-352 | simplifying a simplified name changes nothing |
| TypeAliases.ComesToOne | src/config/config.cc:340-351 | there is at most one text that a name comes to rest at |
| TypeAliases.ShrinkingSettles | src/config/config.cc:334-352 | when every replacement is shorter than its pattern, every name comes to rest within as many passes as it has characters |
| TypeAliases.ShrinkingNeverLonger | src/config/config.cc:334-352 | under the same condition no pass makes a name longer |
| TypeAliases.AliveNeverSettles | src/config/config.cc:334-352 | patterns that every alias spares or brings back are rewritten for ever, in every name that contains one of them and for every list of aliases |
| TypeAliases.SelfReplacingNeverSettles | src/config/config.cc:334-352 | an alias whose replacement contains its own pattern never comes to rest on a name with that pattern, when no other alias can overlap the pattern without bringing it |
| TypeAliases.CircleNeverSettles | src/config/config.cc:334-352 | two aliases whose replacements contain each other's pattern never come to rest, when no other alias can overlap the two patterns |
| TypeAliases.SelfReplacingMaySettle | src/config/config.cc:334-352 | a list in longer-first order with such an alias, and a name with its pattern that comes to rest because a longer alias swallows it |
| TypeAliases.CircleMaySettle | src/config/config.cc:334-352 | a list in longer-first order with two aliases that lead to each other, and a name that comes to rest |
| TypeAliases.TameSettles | src/config/config.cc:334-352 | when each replacement is shorter than its pattern, or not empty and unable to overlap any pattern, every name comes to rest within as many passes as it has characters |
| TypeAliases.InertSettlesInOnePass | src/config/config.cc:334-352 | when no replacement is empty or can overlap a pattern, one pass leaves no pattern in any name |
| TypeAliases.RenamingSettles | src/config/config.cc:334-352 | next to the built-in aliases, `Foo` by the longer `Flow::Bar` comes to rest on every name |
| TypeAliases.QualifyingNeverSettles | src/config/config.cc:334-352 | next to the built-in aliases, `Foo` by `ns::Foo` never comes to rest on any name that contains `Foo` |
| TypeAliases.Diagram.InitializeTypeAliases | src/config/config.cc:549-584 | adds the built-in aliases one by one, none over a configured one |
| TypeAliases.BuiltInResults | src/config/config.cc:549-584 | what each of the eight built-in names comes to, with and without LLVM 16, when nothing is configured |
| TypeAliases.DefaultsOnlyAdd | src/config/config.cc:549-584 | configured aliases keep their replacement, all built-in patterns are present, and nothing else is added |
| TypeAliases.BuiltInsSettle | src/config/config.cc:549-584 | with shrinking configured aliases and the built-in ones every name comes to rest |
| TypeAliases.TameBuiltInsSettle | src/config/config.cc:549-584 | the same for configured aliases each of which is shrinking or inert next to all the others |
| MergePatch.AppendValue | src/config/option.cc:23-35 | an object is inherited by patching it with what was there; anything else leaves the value alone |
| MergePatch.Lookup | src/config/option.cc:23-35 | what a patched document binds every path to, by section 2 of RFC 7396: patched, deleted, blocked or kept |
| MergePatch.ChildLeafStays | src/config/option.cc:23-35 | every leaf of the child that is not null keeps its value |
| MergePatch.ParentLeafSurvives | src/config/option.cc:23-35 | a leaf of the parent is in the result if and only if the parent is an object and the child neither binds its path nor binds a proper prefix to a non-object, or the child has the same value there |
| MergePatch.OnlyObjectsAreInherited | src/config/option.cc:25-34 | from anything but an object nothing is inherited, a child without data takes an object as it is, and a scalar child stays |
| MergePatch.NothingIsInvented | src/config/option.cc:23-35 | every leaf of the result comes from the child or the parent |
| MergePatch.PatchIsIdempotent | src/config/option.cc:23-35 | applying the same patch again changes nothing |
| MergePatch.TwiceIsOnce | src/config/option.cc:23-35 | inheriting twice is inheriting once if and only if no path is contested by a null |
| MergePatch.NullFreeTwiceIsOnce | src/config/option.cc:23-35 | documents without nulls inherit the same however often |
| MergePatch.NullComesBack | src/config/option.cc:23-35 | a null in the child deletes the parent's member, and the second inheritance brings it back |
| Options.ConfigOption.Set | src/config/option.h:101-106 | the option holds the value and is declared |
| Options.ConfigOption.Override | src/config/option.h:115-125 | append mode combines with a declared option, otherwise an undeclared option takes a declared one; also when an option overrides itself |
| Options.FirstDeclaredWins | src/config/option.h:122-124 | in override mode a declared option stays as it is, an undeclared one takes a declared one, and two undeclared ones leave the own default |
| Options.NearestDeclaredWins | src/config/option.h:115-125 | inheriting from any number of options in override mode gives the value of the first declared one, the own one counting first |
| Options.AppendedWhenDeclared | src/config/option.h:117-121 | in append mode the own value is combined with a declared one, in this order, and the option is declared then |
| Options.VectorKeepsOwn | src/config/option.h:32-36 | the own entries of an appended list come first, the inherited ones follow |
| Options.PlantumlKeepsOwn | src/config/config.cc:257-263 | the same for PlantUML directives; the command is inherited only when there is none, styles never |
| Options.PlantumlSettles | src/config/config.cc:257-263 | the PlantUML section is settled if and only if there are no directives to append |
| Options.VectorSettles | src/config/option.h:32-36 | an appended list is settled if and only if there is nothing to append |
| Options.MapSettles | src/config/option.h:38-42 | an appended dictionary keeps its own entries, gets the missing ones, and is settled |
| Options.JsonSettles | src/config/option.h:115-125 | an option holding user data is settled if and only if no path is contested |
| UserData.CliHandler.SetUserData | src/cli/cli_handler.cc:858-870 | the walk down the tree that creates keys on its way does what `Assign` says, and leaves the tree as it was when it fails |
| UserData.CliHandler.AddCustomUserData | src/cli/cli_handler.cc:855-874 | the updates are done in order, up to the first that fails |
| UserData.AssignFailsIff | src/cli/cli_handler.cc:861-867 | an update fails if and only if a scalar or an array is bound to a proper prefix of its path; an empty array throws, anything else is the reported error |
| UserData.AssignLookup | src/cli/cli_handler.cc:860-870 | after one update its path holds the value, the prefixes are objects, and paths not comparable to it are unchanged |
| UserData.KeysAreNotEmpty | src/cli/cli_handler.cc:858-858 | no key of a dotted path is empty: dots at the ends and doubled dots do not count |
| UserData.FinalLookup | src/cli/cli_handler.cc:855-874 | after a list of updates that succeeds, every path holds the last value written to it, nothing when a prefix was written later, an object when only paths below were written, and else what it held before |
| UserData.FailureKeepsEarlier | src/cli/cli_handler.cc:861-865 | a run that fails leaves the document as the updates before the failing one made it |
| UserData.FailureIsReported | src/cli/cli_handler.cc:861-867 | a run that fails throws when an empty array is in the way, and reports the error for anything else |
| UserData.ReachesDiagram | src/cli/cli_handler.cc:247-249 | a value from the command line is seen in a diagram if and only if the diagram had it already, or the configuration declares user data and the diagram's data leaves the path open |
| UserData.LicenseIsNotSeen | src/cli/cli_handler.cc:247-249 | `license.type=CC-0` on an undeclared configuration is stored there, and a diagram without user data has nothing at that path |
| Memoized.General.Memoize | src/util/memoized.h:37-48 | while incomplete answers with a direct call and leaves the cache alone; once complete answers with what is stored, after storing the result of the one call it needed |
| Memoized.General.Invalidate | src/util/memoized.h:50-50 | removes the key and nothing else |
| Memoized.Nullary.Memoize | src/util/memoized.h:61-71 | does to its slot and returns exactly what the general version does with the empty key |
| Memoized.Nullary.Invalidate | src/util/memoized.h:73-73 | as the general version |
| Memoized.ForBool.Memoize | src/util/memoized.h:84-99 | does to its two slots and returns exactly what the general version does with a boolean key |
| Memoized.ForBool.Invalidate | src/util/memoized.h:101-107 | as the general version, for the one slot |
| Memoized.StoredIs | src/util/memoized.h:37-50 | after every run a key is stored if and only if a complete call happened since its last invalidation, with the value of the first one |
| Memoized.StoredWhenComplete | src/util/memoized.h:39-40 | nothing is stored that no complete call asked for |
| Memoized.RunsOnce | src/util/memoized.h:42-45 | a complete call runs the function if and only if it is the first one for its key since the last invalidation |
| Memoized.MemoizingIsCalling | src/util/memoized.h:37-50 | in every run, all answers equal direct calls if and only if the function does not change between complete calls without invalidation |

## Left out

- Glob.Translate: what a bracket expression is translated to is not modelled, since it rests on what the standard library makes of it; `Glob.FnMatchIs` and `Glob.FnMatchIsGlob` are about the other patterns.
- Glob.ReadTranslated: the reader knows the part of the ECMAScript grammar that the translation can emit; matching is membership in the language, not backtracking.
- Decorators.Tokenize: where a malformed directive makes the code read behind the end of its view the result is undefined; the model stops there instead of guessing.
- Decorators.ReadDirective: the documentation shows a scope on `skip`; the code reads none, and the model follows the code.
- Levenshtein.GetApproximateMatches: `std::sort` may return any sorted permutation, chosen without more knowledge.
- TypeAliases.SimplifyTemplateType: for a name that never comes to rest the loop does not end; the precondition is that it comes to rest, and `TypeAliases.TameSettles` and `TypeAliases.AliveNeverSettles` give conditions under which it does and does not.
- TypeAliases.AliveNeverSettles: a sufficient condition for not coming to rest, not a necessary one; termination of string rewriting is undecidable in general, and aliases that overlap each other can go either way.
- Substitution.ReplaceAll: an empty pattern on a non-empty input is excluded, since the loop then runs for ever (`Substitution.EmptyPatternNeverEnds`); likewise an empty delimiter for `Splitting.Split` (`Splitting.EmptyDelimiterStays`).
- TemplateParams.ParseUnexposedTemplateParams: the value left behind by a move is a distinguished value; how namespaces are resolved is a parameter; the optional trailing fields of a parameter that the parser does not set are omitted.
- ThreadPool.Executor.JoinNext: two threads calling `stop` at the same time; exceptions of tasks, which stay in their futures; notifications, since a waiting worker may wake at any time.
- UserData.CliHandler.SetUserData: the pointer into the tree is the path of its node, and the tree a value that is replaced, so sharing of nodes is not captured.
- MergePatch.AppendValue: JSON numbers are reals and object members have no order; the library's `merge_patch` is the function of RFC 7396.
- Memoized.General.Memoize: the function argument is a pure function for the time of one call; exceptions from it are not modelled. `invalidate` with several arguments does not compile and is left out.
- Strings are sequences of characters that stand for bytes, arguments taken by reference are parameters and results, and `size_t` and `unsigned` do not overflow.
- Option names and their alternatives, YAML decoding and emitting, diagram templates, the rest of the command line, and loading of files: input and output around the modelled parts.
- The Clang AST visitors, diagram generators, filters and relations: they depend on the state of foreign libraries.
- File system walking, path canonicalisation, processes and git queries: they depend on the environment.
- Enum and string conversions, `abbreviate`, compile flags: they would only add easy members.
