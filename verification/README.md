# A verified model of KiCad's small algorithms

Algorithms from KiCad's `common/` and `bitmap2component/` directories, modelled in Dafny and proved against
independent definitions. Code that works by changing things step by step is modelled as methods
with loops and classes with fields; each is proved equal to a specification, and what the source promises
is proved of the specification for every input, every run or every interleaving.

`dafny verify dfyconfig.toml` checks the whole project.

## What is modelled

* **Wildcards** (`Glob`, `MatchWild`, `WildcardRegex`, `WildcardEngines`, `CombinedMatcher`). One declarative
  glob (a cut of the text with one piece per pattern element) serves both engines. The directory matcher,
  which only ever backtracks to the last star, decides it. The text a wildcard compiles to parses back, as a
  regular expression, to a language equal to it, anchored and unanchored. The two engines read a pattern
  alike exactly when it has no backslash; then they differ only on hidden names and on the empty text. The
  combined matcher finds exactly the occurrences of a pattern when it has no `*` or `?` and the regular
  expression, if it is written as one, adds nothing. The regular expression engine is a parameter, of which
  only what it does with compiled wildcards and similar plain expressions is assumed.
* **Array numbering** (`Numeration`, `ArrayAxis`, `ArrayGrid`). The decoder is a bijection from canonical
  strings onto the naturals. The encoder names a number correctly exactly when, in a lettered scheme, no
  column but the last is zero; it fails first at 676 (26 letters) and 400 (20 letters). Serpentine grid
  order is a bijection onto the grid. Over disjoint alphabets the labels of a two-dimensional array are
  distinct exactly when every axis with more than one place has a step that moves; they are so for all
  arrays exactly when the alphabets are disjoint, which leaves a decimal axis with a lettered one. For every
  other pair of axis types a grid with two items of one label is constructed.
* **Search and replace** (`Substring`, `SearchReplace`). Replace substitutes the one leftmost
  non-overlapping selection. With matching case or without, it changes exactly the texts in which Matches
  finds something in plain and whole-word mode, never so in wildcard mode, and in permissive mode exactly
  when the folded find string has no `*` or `?` and no regular expression in it finds more. The loop ends
  exactly when the find string is not empty or is nowhere accepted.
* **Change staging** (`CommitStaging`). An invariant of every run of staging calls, including who owns
  each item copy, up to and including the destructor; where each entry of the list comes from; and exactly
  when asking for an item on a screen reports a modification, which it never does after Modified.
* **Asynchronous sender** (`AsyncSender`, `AsyncSenderLiveness`). Interleaved steps of any number of
  senders, the worker and the destructor. The messages taken are always a subsequence of those accepted;
  that none is lost but for the last holds exactly when no more than one thread sends, and a losing run is
  given for every larger number. No wake-up is lost, and under weak fairness, however many threads send, a
  shutdown completes and a raised flag is served; with one sender an accepted message is taken.
* **Variable expansion and paths** (`TextVars`, `EnvExpansion`, `EnvRanks`, `EnvPaths`). Text variables expand
  part by part, and an unresolved text is left alone exactly when its references are terminated and named.
  The recursive expander ends exactly when a finite set of strings confines the run, with a bound on its
  depth. Where variables mention only variables of lower rank it ends within one pass more than the rank, and
  yields the text with every reference replaced by the full text of its variable. It also ends when no
  variable's value contains a `$`, within a number of passes read off the string if none contains a backslash
  either; a variable that stands for a text and itself ends exactly when that text is empty. Shortening a
  path and expanding it again gives the path back exactly when the variable spells its directory
  canonically; a trailing slash comes out twice.
* **Bézier flattening** (`BezierChord`, `BezierFlattening`). The outline of a traced path and the closed
  chain of its corners stay within a quarter pixel of each other, point for point and both ways. The reals
  are exact and `sqrt` is any function that is the square root.
* **S-expression lexer** (`DsnNumber`, `DsnTokens`, `DsnLexer`, `DsnStreams`, `DsnRoundTrip`). NextTok
  follows a reference lexer over lines; printing tokens with the output formatter's quoting and lexing them
  again gives the tokens back exactly when no line starts a comment; comments only add tokens; lines can be
  fed in parts. The numeric test accepts exactly a stated grammar, which is wider than the regular expression
  in the source comment.

The end of a C string or of a line buffer is a NUL that the code sees; an index outside an alphabet, an
exception and a thread asleep are explicit outcomes. The only preconditions on operations are the ones the
code itself relies on: a path has at least one segment, a replacement or an expansion is one that ends
(exactly when that is, is proved), a square root is one, and so is a regular expression engine.

## Model

| member | source | states |
|---|---|---|
| Glob.MatchesIffSplits | common/common.cpp:431-537 | the recursive meaning of a pattern holds exactly when some cut of the text into one piece per element fits the pattern |
| MatchWild.Match | common/common.cpp:431-537 | the backtracking matcher returns true exactly for the texts the pattern means, with its special cases for the empty text and for hidden names; it terminates |
| MatchWild.AcceptsMeans | common/common.cpp:431-537 | what a pattern accepts, said of its pieces: a text that can be cut into anything for each star, one character for each `?`, and the character itself for a quoted or any other; nothing when the pattern breaks off in an escape |
| MatchWild.NewStarSubsumes | common/common.cpp:456-462 | forgetting the previous star at a new one loses no match: whatever a later start of the old star offered, the new star absorbs |
| MatchWild.NoRoomLater | common/common.cpp:517-524 | with the text used up, no later start of the last star can match |
| MatchWild.SlideToEnd | common/common.cpp:488-492 | a star followed only by `?` matches the rest of the text, however long |
| WildcardRegex.PatternMatcher.SetRegex | common/eda_pattern_match.cpp:79-104 | for every engine: which patterns are regular expressions, how the slashes and the anchors around them are taken off or kept, that the engine decides whether they compile, and that anything else is refused without a change |
| WildcardRegex.PatternMatcher.SetWildcard | common/eda_pattern_match.cpp:156-190 | every wildcard compiles, to a search for an unanchored expression with one item per pattern character |
| WildcardRegex.PatternMatcher.SetWildcardAnchored | common/eda_pattern_match.cpp:205-243 | every wildcard compiles, to a search for the same items anchored at both ends |
| WildcardRegex.PatternMatcher.Find | common/eda_pattern_match.cpp:127-153 | what the engine finds for a compiled pattern, or the first occurrence of a pattern that did not compile |
| WildcardRegex.CompiledParses | common/eda_pattern_match.cpp:164-187 | escaping is right for every pattern: the compiled text parses, and to exactly the items of the pattern |
| WildcardRegex.LanguageIsGlob | common/eda_pattern_match.cpp:166-187 | the language of those items is the declarative glob |
| WildcardRegex.PlainMeans | common/eda_pattern_match.cpp:166-187 | which texts those items mean, said of the characters of the wildcard |
| WildcardRegex.UnanchoredFinds | common/eda_pattern_match.cpp:156-190 | the unanchored form finds the leftmost, then longest, substring the wildcard accepts, and nothing exactly when there is none |
| WildcardRegex.AnchoredFinds | common/eda_pattern_match.cpp:205-243 | the anchored form finds the whole text or nothing, by whether the wildcard accepts it |
| WildcardEngines.EnginesAgreeIff | common/common.cpp:431-454 | for a pattern without a backslash the two engines agree on a text exactly unless it is empty and the pattern all stars, or it is a hidden name that the pattern means; so they agree on every other text |
| WildcardEngines.SameReadingIff | common/common.cpp:472-479 | the engines accept the same non-empty texts exactly when the pattern has no backslash, C strings or not; with one, a text on which they differ is constructed |
| CombinedMatcher.Find | common/eda_pattern_match.cpp:415-452 | in a search, true exactly when the engine finds the regular expression, if the pattern is written as one and compiles, or a substring is accepted by the wildcard |
| CombinedMatcher.OccurrenceIsFound | common/eda_pattern_match.cpp:415-419 | every occurrence of the pattern as a string is found by the wildcard matcher too, so the substring matcher changes nothing |
| CombinedMatcher.FindsOccurrencesIff | common/eda_pattern_match.cpp:415-419 | the combined matcher finds exactly the texts with an occurrence when the pattern has no `*` or `?` and its regular expression finds no others; for a pattern not written as one, exactly when it has no `*` or `?`; for a plain regular expression never |
| Numeration.Scheme.ValueOfName | common/array_axis.cpp:65-93 | reading the name of a number gives the number |
| Numeration.Scheme.NameOfValue | common/array_axis.cpp:65-93 | naming what a string stands for gives the string back exactly when it is canonical; in lettered schemes all strings are |
| Numeration.Scheme.EncodableBelowSquare | common/array_axis.cpp:145-156 | a lettered scheme is encoded without a gap up to its radix squared, where it fails |
| Numeration.Scheme.EncodableIff | common/array_axis.cpp:145-156 | a lettered scheme encodes exactly the numbers whose ordinary numeral over the same letters has no zero but, maybe, in the last column |
| ArrayAxis.Axis.GetNumberingOffset | common/array_axis.cpp:65-93 | the decoding loop yields the positional value, or nothing for an empty or foreign string |
| ArrayAxis.Axis.SetOffsetName | common/array_axis.cpp:102-112 | the offset is set to the decoded value, or left alone and false returned |
| ArrayAxis.Axis.GetItemNumber | common/array_axis.cpp:133-159 | the item has a label exactly when offset plus step times index is encodable, and then the label decodes to that; negative numbers included |
| ArrayAxis.Axis.EncodeNumber | common/array_axis.cpp:145-156 | the encoding loop yields the name of an encodable number, and otherwise runs into an index outside the alphabet |
| ArrayAxis.LabelDecodes | common/array_axis.cpp:133-159 | an item has a label exactly when its number is encodable, and then the label decodes to offset plus step times index |
| ArrayAxis.FirstFailure | common/array_axis.cpp:145-156 | in the lettered schemes the first number without a label is the radix squared, although some string stands for it |
| ArrayAxis.DecodeBijective | common/array_axis.cpp:65-93 | every natural is the value of exactly one canonical string |
| ArrayAxis.ReadingOrder | common/array_axis.cpp:65-93 | strings stand for larger numbers the longer they are and, among equal lengths, the later in the order of the characters: all strings over letters, those without a leading zero over digits |
| ArrayAxis.AlphabetLetters | common/array_axis.cpp:45-48 | which characters the four alphabets hold, and that they stand in order |
| ArrayGrid.GridOptions.CoordsOfItem | common/array_options.cpp:35-49 | the coordinates of an item lie in the grid and the serpentine walk visits them at the item's turn |
| ArrayGrid.GridOptions.GridCoordsBijective | common/array_options.cpp:35-49 | each cell belongs to exactly one item, with and without reversed rows |
| ArrayGrid.GridOptions.Walk | common/array_options.cpp:35-49 | from the origin each item is one place on from the last, back along alternate rows when that is set, and rows are as long as the array is wide, or high |
| ArrayGrid.GridOptions.LabelOfItem | common/array_options.cpp:82-99 | a label is the name of the number on the primary axis and then of that on the secondary, each offset plus step times coordinate; along one axis the item's own number counts |
| ArrayGrid.GridOptions.LabelsDistinct | common/array_options.cpp:82-99 | with two axes over disjoint alphabets and steps that move, different items have different labels |
| ArrayGrid.GridOptions.AllDistinctIff | common/array_options.cpp:82-99 | for a given array over disjoint alphabets, all of it labelled: labels are distinct exactly when each axis with more than one place has a non-zero step |
| ArrayGrid.GridOptions.LinearLabelsDistinctIff | common/array_options.cpp:93-96 | along one axis the labels of different items differ exactly when the step is not zero |
| ArrayGrid.SharedLabel | common/array_options.cpp:86-91 | for axes sharing a letter that both can write twice, a grid with two items of one label |
| ArrayGrid.AlwaysDistinctIff | common/array_options.cpp:82-99 | for all pairs of axis types: labels are distinct whatever the size, walk, offsets and non-zero steps exactly when the alphabets are disjoint, that is, for a decimal and a lettered axis |
| SearchReplace.Matches | common/eda_item.cpp:123-183 | true exactly when the item may be replaced in, if asked, and the mode finds: an occurrence, a whole word, the whole text as a wildcard, or what the combined matcher finds |
| SearchReplace.Replace | common/eda_item.cpp:186-246 | the text with the leftmost non-overlapping accepted occurrences replaced, all else copied, and whether any was |
| SearchReplace.Query.LeftmostUnique | common/eda_item.cpp:199-242 | the leftmost non-overlapping selection is unique |
| SearchReplace.ReplacedIffMatches | common/eda_item.cpp:123-246 | Replace reports a change exactly when the plain or whole-word search finds something |
| SearchReplace.FoundMeans | common/eda_item.cpp:123-183 | what Matches finds, character by character: the find string with equal characters or equal upper case, standing alone in whole-word mode, and the whole text as a wildcard |
| SearchReplace.CaseIgnored | common/eda_item.cpp:132-197 | without matching case, texts and find strings with the same upper case get the same answer from Matches in every mode and the same report from Replace |
| SearchReplace.ReplacementMeans | common/eda_item.cpp:199-242 | the text falls into gaps and pieces that read like the find string, and the result has the replace string in place of each piece |
| SearchReplace.SameTextsIff | common/eda_item.cpp:123-246 | for every mode and with or without case, as long as some character does not fold to `?`: Matches finds exactly the texts that Replace changes in plain and whole-word mode, never in wildcard mode, and in permissive mode exactly when the folded find string has no `*` or `?` and its regular expression, if it is written as one, finds no other texts |
| SearchReplace.RegexDiffers | common/eda_item.cpp:123-246 | in permissive mode with matching case a find string that is a plain regular expression never agrees with Replace |
| SearchReplace.ReplacementUnique | common/eda_item.cpp:186-246 | there is one replacement, and without a match it is the text itself |
| SearchReplace.SubstitutedLength | common/eda_item.cpp:199-242 | the length of the result by the number of replacements |
| SearchReplace.ReplaceBySelf | common/eda_item.cpp:186-246 | replacing a string by itself with matching case is the identity |
| SearchReplace.EndsIff | common/eda_item.cpp:199-242 | the loop can reach the end of the text exactly when the find string is not empty or is nowhere accepted |
| SearchReplace.EmptyFindHangs | common/eda_item.cpp:199-242 | in plain mode an empty find string ends on the empty text only |
| CommitStaging.Commit.Stage | common/commit.cpp:48-85 | the new state of the change list, the item set and the deleted copies |
| CommitStaging.Commit.CreateModified | common/commit.cpp:133-147 | a copy for an item already staged is deleted, any other is owned by a new entry |
| CommitStaging.Commit.Modified | include/commit.h:110-113 | a client's copy is staged in the same way, without its screen |
| CommitStaging.Commit.FindEntry | common/commit.cpp:167-176 | the first entry for the item and screen, or none |
| CommitStaging.Commit.GetStatus | common/commit.cpp:125-130 | the type of the first entry for the item's parent on the screen |
| CommitStaging.Commit.Destroy | common/commit.cpp:38-45 | the copies of all entries are deleted, in order |
| CommitStaging.RunKeeps | common/commit.cpp:48-164 | over every run: the set holds exactly the items of the entries, an entry has a copy exactly when it is a modification, which is its item's first entry, and every copy is owned once or was deleted once |
| CommitStaging.FirstImageKept | common/commit.cpp:133-147 | the image from the first staging, whether made by Stage or brought by Modified, stays, whatever is staged later, on the item's first and only modification entry |
| CommitStaging.LineMade | common/commit.cpp:48-85 | the entry an operation adds has exactly the item, copy, type, done flag and screen the operation calls for, and stands unchanged at its place at the end of every run |
| CommitStaging.AddsLine | common/commit.cpp:48-147 | every operation adds one entry, except for a refused type and for the modification of an item already staged |
| CommitStaging.AllImagesOwnIff | common/commit.cpp:133-147 | every entry holds an image of its own item, in all runs, exactly when every item is its own parent: Modified files a child's copy under the parent |
| CommitStaging.OwnImagesIff | common/commit.cpp:67-78 | in all runs of Stage alone, exactly when a parent is its own parent, because Stage applies parentObject to a parent |
| CommitStaging.DestructorFreesRest | common/commit.cpp:38-45 | after the destructor exactly the copies that operations handed over have been deleted, and none twice |
| CommitStaging.ScreenFromStage | include/commit.h:110-113 | over every run, a modification entry carries a screen exactly when a Stage with that screen made it |
| CommitStaging.FoundModifiedIff | common/commit.cpp:125-176 | looking an item up on a screen finds a modification exactly when the first operation on the item was a Stage for modification with that screen |
| CommitStaging.FirstStagedFound | common/commit.cpp:60-176 | looking up an item first staged as added or as removed, on its screen, reports just that type and flag |
| CommitStaging.ModifiedNeverFound | include/commit.h:110-113 | after a first Modified of an item, looking it up on any screen never finds the modification |
| AsyncSender.ReachableInvariant | common/eda_dde.cpp:149-206 | in every state reachable from the start, for any number of senders: the mutex has one owner, and a worker asleep with something to do is owed a notify |
| AsyncSender.NothingTakenAfterShutdown | common/eda_dde.cpp:200-206 | in every run from the start, once the shutdown flag is set no further message is taken |
| AsyncSender.TakenIsSubsequence | common/eda_dde.cpp:175-287 | in every interleaving of any number of senders the messages taken are a subsequence of the messages accepted: none invented, repeated or out of order |
| AsyncSender.TakenIsPrefix | common/eda_dde.cpp:175-287 | in every interleaving with one sender the messages taken are the messages accepted, in order, but for at most the last, which is then in the slot |
| AsyncSender.TwoSendersLoseAMessage | common/eda_dde.cpp:177-184 | with two senders or more an accepted message can be overwritten and never taken |
| AsyncSender.InOrderIffOneSender | common/eda_dde.cpp:175-287 | the messages taken are a prefix of those accepted in every interleaving exactly when no more than one thread sends |
| AsyncSenderLiveness.ShutdownCompletes | common/eda_dde.cpp:149-166 | under weak fairness and with any number of senders, once the shutdown flag is set the worker exits and the destructor's join returns |
| AsyncSenderLiveness.FlagIsServed | common/eda_dde.cpp:193-286 | under weak fairness and with any number of senders, a flag raised for a message not being sent makes the worker take one, unless there is a shutdown |
| AsyncSenderLiveness.AcceptedIsTaken | common/eda_dde.cpp:193-286 | under weak fairness every message accepted from a single sender is taken unless there is a shutdown |
| TextVars.ExpandTextVars | common/common.cpp:70-112 | the loop yields the text with each reference resolved, kept or, when its name is empty, dropped |
| TextVars.ExpandsByParts | common/common.cpp:78-109 | a text made of characters and well-formed references expands part by part |
| TextVars.ReferenceExpands | common/common.cpp:80-103 | a closed reference anywhere expands to the resolved value, to itself when unresolved, to nothing when unnamed |
| TextVars.OpenReferenceExpands | common/common.cpp:84-103 | a reference the text breaks off expands as if it were closed |
| TextVars.ExpandsSpelled | common/common.cpp:78-109 | a text of characters and closed, named references expands to the same characters, the values of the names that resolve, and the other references as they were |
| TextVars.UnresolvedUnchangedIff | common/common.cpp:92-103 | with nothing resolved a text is left unchanged exactly when all its references are terminated and named |
| EnvExpansion.OnePass | common/common.cpp:150-304 | the loop over the string yields the expansion defined by reading references, escapes and plain characters in turn |
| EnvExpansion.ClosedReference | common/common.cpp:160-285 | `${name}` and `$(name)` become the value or stay as they are |
| EnvExpansion.OpenReference | common/common.cpp:160-285 | without the closing bracket behind the name, the same for what was read |
| EnvExpansion.BareReference | common/common.cpp:160-285 | so does `$name`, the name being letters, digits, underscores and colons |
| EnvExpansion.OtherCharacters | common/common.cpp:180-304 | a `$` at the end is dropped, a backslash before `$` or `%` quotes it, and all else is copied |
| EnvExpansion.TriggersIff | common/common.cpp:306-311 | another pass follows exactly when there are an opening and a closing bracket, or per cent signs for them, and the first and the last are not one and the same |
| EnvExpansion.Expand | common/common.cpp:136-314 | the recursion with its visited set ends at the first pass that leaves no more brackets or repeats a string, and returns that string |
| EnvExpansion.ExpandEnvVarSubstitutions | common/common.cpp:317-327 | the same for a call from outside, whenever the recursion ends at all |
| EnvExpansion.DepthBound | common/common.cpp:138-143 | a finite set that confines a run bounds its passes by its size plus one |
| EnvExpansion.TerminatesIffConfined | common/common.cpp:306-311 | the recursion ends exactly when some finite set of strings confines it |
| EnvRanks.RankedExpands | common/common.cpp:136-314 | where variables mention only variables of lower rank every expansion ends, within one pass more than the rank, and is the text with each reference replaced by the full text of its variable |
| EnvExpansion.PlainValuesTerminate | common/common.cpp:136-314 | when no variable's value contains a `$` every expansion ends; when none contains a backslash either, within two passes or one more than the string has of these characters |
| EnvExpansion.SelfMentionDivergesIff | common/common.cpp:138-143 | a variable that stands for a text and itself makes the recursion run forever exactly when the text is not empty |
| EnvPaths.NormalizeAbsolutePaths | common/env_paths.cpp:27-68 | true exactly when the first path is a directory above the second, with the directories in between appended |
| EnvPaths.NormalizePath | common/env_paths.cpp:71-137 | the variable chosen contains the file, is the deepest and the first of the deepest, and is never the root; the project comes only when none fits, or behind what a nameless variable left over |
| EnvPaths.VariableMeans | common/env_paths.cpp:71-137 | the named variable chosen, and that the path is its reference and what the full path has behind its directory |
| EnvPaths.ProjectMeans | common/env_paths.cpp:113-137 | the same for `${KIPRJMOD}`, taken when no variable's directory contains the file |
| EnvPaths.WholeMeans | common/env_paths.cpp:113-126 | otherwise the path is left whole |
| EnvPaths.NormalizeThenExpand | common/env_paths.cpp:122-136 | expanding the shortened path takes one pass and gives the path back exactly when the variable spells its directory canonically |
| EnvPaths.ProjectThenExpand | common/env_paths.cpp:113-134 | the same for the project fallback |
| EnvPaths.TrailingSlashDoubles | common/env_paths.cpp:128-133 | for every path, a trailing slash in the variable comes out doubled behind its directory |
| BezierChord.ChordCoordinate | bitmap2component/bitmap2component.cpp:595-608 | the error of a chord is exactly half the product of the distances to its ends times the second derivative at their mean |
| BezierChord.DeCasteljau | bitmap2component/bitmap2component.cpp:595-608 | the polynomial the code evaluates is the curve of de Casteljau's construction |
| BezierChord.ChordWithin | bitmap2component/bitmap2component.cpp:580-593 | a step whose square times the larger end bend is small enough keeps the curve within delta of its chord |
| BezierFlattening.StepSizeIsFine | bitmap2component/bitmap2component.cpp:585-593 | the step the code computes is small enough in that sense, positive and at most one |
| BezierFlattening.StepSizeMeans | bitmap2component/bitmap2component.cpp:580-593 | the step is one when six times the larger second difference is below 2, and otherwise the root of 2 by that |
| BezierFlattening.BezierToPolyline | bitmap2component/bitmap2component.cpp:570-611 | the loop ends and pushes the curve at every whole step inside the unit interval, then the end point |
| BezierFlattening.CurveNearPolyline | bitmap2component/bitmap2component.cpp:580-610 | every point of the curve is within a quarter pixel of the polyline, the short last edge included |
| BezierFlattening.PolylineNearCurve | bitmap2component/bitmap2component.cpp:580-610 | every point of the polyline is within a quarter pixel of the curve |
| BezierFlattening.PathCorners | bitmap2component/bitmap2component.cpp:474-494 | the corners of a path form a chain closed on the path's last point, and chain and outline lie within a quarter pixel of each other both ways |
| BezierFlattening.OutlineToChain | bitmap2component/bitmap2component.cpp:580-610 | spelled out: the squared distance from any point of the outline to some point of the chain is at most 1/16 |
| BezierFlattening.ChainToOutline | bitmap2component/bitmap2component.cpp:580-610 | and the other way round |
| DsnNumber.IsNumber | common/dsnlexer.cpp:469-516 | true exactly for the numerals of the grammar |
| DsnNumber.NumeralIff | common/dsnlexer.cpp:469-516 | those numerals are the texts made of a sign or nothing, digits, nothing or a point and digits, and nothing or an exponent with a digit, with a digit before the exponent |
| DsnNumber.CodeVersusComment | common/dsnlexer.cpp:471-513 | the code accepts what the regular expression in the comment describes and, besides, exactly the numerals with a bare point |
| DsnTokens.Progress | common/dsnlexer.cpp:519-799 | every token consumes input and leaves the place inside the line |
| DsnLexer.Lexer.NextTok | common/dsnlexer.cpp:519-799 | the token, text and place of the reference lexer; a word is a number exactly when it is a numeral, otherwise the keyword it is known as or a symbol; the end is final; an unterminated string leaves the last token in place and the text read so far |
| DsnLexer.Lexer.Advance | common/dsnlexer.cpp:529-583 | blanks, blank lines and comment lines are passed, or a comment is taken as a token |
| DsnLexer.Lexer.ReadEscape | common/dsnlexer.cpp:618-678 | each escape, hexadecimal and octal digits included, without reading past the NUL behind the line |
| DsnLexer.Lexer.ReadQuoted | common/dsnlexer.cpp:606-699 | the text of a quoted string and the place behind it, or that it does not end on its line and what was read of it |
| DsnLexer.Lexer.InitParserState | common/dsnlexer.cpp:156-163 | the parser state is reset and the place kept |
| DsnLexer.Drain | common/dsnlexer.cpp:519-799 | calling NextTok to the end yields the stream of tokens |
| DsnStreams.CommentsOnlyAdd | common/dsnlexer.cpp:549-573 | dropping the comment tokens from a stream gives the stream without comments |
| DsnStreams.StreamsConcatenate | common/dsnlexer.cpp:529-583 | the stream of two lists of lines is the concatenation of their streams unless the first leaves a string open |
| DsnRoundTrip.Quotes | common/richio.cpp:491-528 | quoting escapes exactly line ends, quotes and backslashes |
| DsnRoundTrip.QuotedMeans | common/richio.cpp:491-528 | the quoted text, character by character |
| DsnRoundTrip.QuotedOnOneLine | common/richio.cpp:491-528 | a quoted text contains no line end |
| DsnRoundTrip.QuotedReads | common/dsnlexer.cpp:606-693 | the lexer reads back any quoted string, wherever it stands and whatever follows |
| DsnRoundTrip.HexEscapeReads | common/dsnlexer.cpp:639-656 | two hexadecimal digits, in either case, spell every byte |
| DsnRoundTrip.OctalEscapeReads | common/dsnlexer.cpp:658-677 | three octal digits are read as their number, cut to a byte |
| DsnRoundTrip.SingleEscapes | common/dsnlexer.cpp:618-636 | the character each letter escape stands for |
| DsnRoundTrip.OtherEscapes | common/dsnlexer.cpp:638-677 | any other character is left for itself behind the backslash, and an `x` without digits is an `x` |
| DsnRoundTrip.PrintedLinesLex | common/dsnlexer.cpp:519-799 | any printed parentheses, words and strings, with enough blanks between them, lex to what was printed and then the end, a line that starts a comment as one token or none |
| DsnRoundTrip.PrintedTokens | common/dsnlexer.cpp:580-799 | each item of a printed line, anywhere on it, lexes to its parenthesis or string, and a word to a number exactly when it is a numeral, otherwise to its keyword or a symbol |
| DsnRoundTrip.PrintThenLex | common/dsnlexer.cpp:519-799 | without such a line, to exactly what was printed |
| DsnRoundTrip.PrintThenLexIff | common/dsnlexer.cpp:549-573 | printed lines lex back to what was printed exactly when none of them starts a comment, whether or not comments are tokens |
| DsnRoundTrip.SingleSpacedValid | common/dsnlexer.cpp:519-799 | items with one blank between them and an end of line are such a printed line, unless the first is a word that starts a comment |
| DsnRoundTrip.LexPrinted | common/dsnlexer.cpp:519-799 | the same for the lexer object, called until its end |

## Left out

* Machine integers, floating-point rounding and the encoding of characters: integers and reals are
  mathematical, and a text is a sequence of characters.
* Specctra mode of the lexer, its offsets and texts for error messages, and the reading of files; a line
  reader is a list of non-empty lines.
* The regular expression engine, a library: for the syntax a compiled wildcard can use it is taken to compile
  and to find the leftmost and then longest match; of other expressions nothing is assumed.
* The combined matcher outside a search: scores, positions and the contexts for libraries, net classes and
  signals. `wxString::Matches`, a library function, is the glob without quoting.
* The Windows branches of the expander, and the table of model directories, which is part
  of the lookup; `PathIsInsideProject` and `ResolveFile`; wxFileName's treatment of `~` and of volumes.
* Sockets and timeouts of the sender; an access to a flag outside the mutex is one atomic step.
* Staging of containers and of picked-item lists, which repeat single stagings; undo, push and revert.
* Tracing, polygon operations and the output formats of the bitmap converter; segment tags other than
  corner and curve.
* Staggered and circular arrays.
- CommitStaging.Commit.Stage: what `makeImage` returns is an argument, because it is abstract in the source.
