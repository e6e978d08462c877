# Eliza response engine in Dafny

This project models the response engine of a Go ELIZA chatbot (`chatbot.go`):

- **The rule-file loader (`ReadReplacersFromFile`).** It reads a file made of sections. Each section is a regular expression on one line, followed by that pattern's reply templates, one per line. Blank lines end a section, and lines starting with `#` are comments.
- **The chatbot (`Eliza`, `ElizaFromFiles`, `RespondTo`).** It holds two rule lists, loaded from two files:
  - response rules, which map an input pattern to reply templates;
  - substitution rules, which map a token pattern to replacement words.

  `RespondTo` answers an input like this:
  - It finds the first response rule whose pattern matches the input.
  - It picks one of that rule's templates at random.
  - Each captured group is split into tokens on runs of whitespace and `,.?!`. Each token is replaced at random by a word from the first substitution rule that matches it. The tokens are then joined with spaces.
  - The k-th group replaces every `$k` in the template.
  - When no rule matches, the answer is "I don't know what to say.".
- **`Reflect`.** It turns a phrase from the speaker's point of view to the listener's. It tries a fixed table of 14 trigger/replacement pairs in order, and the first trigger found inside a token wins. The token "you" is a special case: it becomes "me" after one of nine prepositions and "I" otherwise.
- **`ElizaResponse`.** This is the fixed responder. A mention of "father" wins. Otherwise an "I am ..." statement is echoed back reflected. Otherwise one of three stock replies is chosen at random.

Modules:

- `Common` holds `Option` and the first-match-wins search `FirstIndex`. All three rule lists use that search.
- `Strings` holds the parts of Go's `strings`, `strconv` and `regexp.Split` that the engine uses.
- `Loader` holds the loader.
- `Reflection` holds `Reflect`.
- `Engine` holds `Eliza`, `ElizaFromFiles` and `RespondTo`.
- `Simple` holds `ElizaResponse`.

Each loop of the Go code is a Dafny method with a `while` loop, proved equal to a specification function. The properties are proved as lemmas about those functions:

- The loader's loop, `ReadReplacers`, is specified by a grammar written in recursive-descent style: `Sections`, `ExpectPattern` and `CollectTemplates`.
- The in-place token rewriting of `Reflect` is specified by `Reflected`. This function reflects every token on its own, against the original phrase. The proof that the in-place lookback gives the same result rests on two facts, proved for the fixed tables:
  - a preposition is never rewritten;
  - no rewritten form is a preposition.
- The loops of `RespondTo` are specified by `Respond`, `FillGroups`, `GroupSubstitution` and `TokenSubstitution`.

The regular-expression engine and the random source come from outside the model:

- `FindStringSubmatch` and `MatchString` of a compiled pattern are functions in `Engine.Oracles`.
- The k-th call of `rand.Intn(n)` while answering one input returns `rng(k) % n`.

## Model

| member | source | states |
|---|---|---|
| Common.FirstIndex | chatbot.go:200-203 | The index found satisfies the predicate, and no earlier element does; None exactly when no element does |
| Common.FirstIndexAt | chatbot.go:200-203 | A match with no match before it is the first match |
| Common.FirstIndexSkipsPrefix | chatbot.go:200-203 | Non-matching elements in front only shift the first match by their number |
| Common.FirstIndexIgnoresSuffix | chatbot.go:200-203 | Elements behind an existing match do not change the first match |
| Strings.Join | chatbot.go:228 | `strings.Join`: the tokens in order with the separator between neighbours; its laws are `JoinEmptyIsConcat` and `JoinEmptyCons` |
| Strings.Contains | chatbot.go:115 | A literal trigger matches a token exactly when it occurs in it at some index |
| Strings.MissingChar | chatbot.go:115 | A string holding a character that the token lacks does not occur in the token |
| Strings.JoinEmptyIsConcat | chatbot.go:124 | Joining with the empty separator is plain concatenation |
| Strings.JoinEmptyCons | chatbot.go:124 | Joining without separator is the first token followed by the join of the rest |
| Strings.ReplaceAll | chatbot.go:228 | `strings.Replace(s, pat, rep, -1)`: every occurrence, scanned left to right without overlap, becomes the replacement; its laws are `ReplaceAllAbsent`, `ReplaceAllAfter` and `ReplaceAllJoin` |
| Strings.ReplaceAllAbsent | chatbot.go:228 | Replacing a pattern that does not occur leaves the string unchanged |
| Strings.ReplaceAllAfter | chatbot.go:228 | An occurrence with no occurrence starting in front of it is the first one replaced, and the scan goes on behind it |
| Strings.ReplaceAllJoin | chatbot.go:228 | Every occurrence is replaced: parts with the pattern between them become the same parts with the replacement between them, when no part holds the pattern and its first character does not recur in it |
| Strings.NoStraddle | chatbot.go:228 | No occurrence starts inside a part that does not hold the pattern when the pattern follows the part |
| Strings.InsidePart | chatbot.go:228 | An occurrence lying inside the part is an occurrence in the part |
| Strings.AcrossPart | chatbot.go:228 | An occurrence cannot reach past the part into the pattern after it when the pattern's first character does not recur |
| Strings.NatToString | chatbot.go:228 | The decimal form of the marker number is non-empty and made of digits |
| Strings.DecimalRoundTrip | chatbot.go:228 | Reading back the decimal form gives the number again |
| Strings.DropSeparators | chatbot.go:212 | The result is no longer than the input and is empty or starts with a non-separator |
| Strings.DroppedAreSeparators | chatbot.go:212 | The result of `DropSeparators` is a suffix of the input, and every character dropped in front of it is a separator |
| Strings.SplitFields | chatbot.go:207-212 | `Split` on `[\s,.?!]+` with no limit; where it breaks is stated by `SplitFieldsAtRun`, what it keeps by `SplitFieldsSound` |
| Strings.FieldsFrom | chatbot.go:207-212 | The fields of the rest of a string, the first continuing a field already begun; where it breaks is stated by `FieldsFromRun` |
| Strings.FieldsFromSound | chatbot.go:209-212 | Splitting gives at least one field, no field holds a separator, and the fields concatenate to the input without its separators |
| Strings.SplitFieldsSound | chatbot.go:209-212 | The same for the split of a whole group |
| Strings.FieldsFromRun | chatbot.go:207-212 | A maximal separator run between two parts ends the field before it and starts a new one: the parts split on their own |
| Strings.SplitFieldsAtRun | chatbot.go:207-212 | The same for a whole group: the fields of "a run b" are the fields of a followed by those of b |
| Strings.LeadingRunEmptyField | chatbot.go:207-212 | A separator run at the start of a group gives an empty first field |
| Strings.TrailingRunEmptyField | chatbot.go:207-212 | A separator run at the end of a group gives an empty last field |
| Strings.DropRun | chatbot.go:207-212 | A separator run in front of a field is dropped up to the field |
| Strings.DropSeparatorsAppend | chatbot.go:207-212 | Dropping leading separators of a string ending in a field does not reach what follows it |
| Strings.ShorterAfterDrop | chatbot.go:207-212 | Dropping the leading run of a string that starts with a separator and ends in a field shortens it and keeps its last character |
| Strings.FieldsFromNoSeparator | chatbot.go:209-212 | A group without separators is one token |
| Loader.Replacer | chatbot.go:130-133 | A pattern (kept as its source text) with the replacements offered for a match |
| Loader.IsComment | chatbot.go:162 | A line starting with `#` |
| Loader.Sections | chatbot.go:146-180 | The replacers a rule file defines, in file order; what the loop returns (`ReadReplacers`), with its laws in the lemmas below |
| Loader.ExpectPattern | chatbot.go:158-176 | Every replacer read has a content pattern and content templates only |
| Loader.CollectTemplates | chatbot.go:170-176 | The replacer being read comes first, keeps its pattern and only gains templates at the end |
| Loader.ReadReplacers | chatbot.go:146-180 | The loop's result is exactly the sections of the grammar, including a last section without a blank line after it |
| Loader.ResumeStep | chatbot.go:160-176 | A comment keeps the state; a blank line ends the section; a pattern line opens a replacer with no templates; any other line is appended to the last replacer only |
| Loader.ResumeEnd | chatbot.go:177-179 | At the end of the file the replacer being read is returned as it is |
| Loader.SectionsSplitAtBlank | chatbot.go:165-166 | A blank line closes the section: the file splits into two files read independently |
| Loader.SectionsIgnoreComment | chatbot.go:162-163 | A comment line anywhere changes nothing, and it does not end a section |
| Loader.SectionOfBlock | chatbot.go:170-175 | A pattern line and its template lines give one replacer, with the templates in file order |
| Loader.PatternWithoutTemplates | chatbot.go:170-172 | A pattern line alone gives a replacer with an empty replacement list |
| Reflection.TableReflect | chatbot.go:94-118 | A token other than "you" after the table: the replacement of the first entry whose trigger occurs in it, or the token itself; stated by `TableReflectFirst` and `TableReflectNone` |
| Reflection.ReflectAt | chatbot.go:97-118 | The reflection of one token against the original phrase: "you" by the token two places back, any other by the table |
| Reflection.Reflected | chatbot.go:93-121 | The reflection of a phrase, token by token; the in-place loop is proved to compute it (`Reflect`) |
| Reflection.TableReflectFirst | chatbot.go:94-118 | The first table entry whose trigger occurs in the token decides the token's reflection |
| Reflection.TableReflectNone | chatbot.go:94-118 | A token containing no trigger is left as it is |
| Reflection.ReflectedPointwise | chatbot.go:93-121 | A sequence agreeing with the per-token reflection at every index is the reflection |
| Reflection.ReflectStep | chatbot.go:97-118 | What the loop writes at i, looking back at the rewritten token, is the reflection of the original token |
| Reflection.Reflect | chatbot.go:54-124 | The in-place rewrite followed by the join is the concatenation of the per-token reflections of the original tokens |
| Reflection.ReflectToken | chatbot.go:94-120 | "you" gets the form chosen by the token two places back, and any other token gets its table reflection |
| Reflection.YouForm | chatbot.go:100-111 | The form of "you": "me" when the token two places back is one of the nine prepositions, otherwise "I"; the loop computing it is `YouLookback` |
| Reflection.YouLookback | chatbot.go:100-113 | "me" when the earlier token is a preposition, otherwise "I" |
| Reflection.Prepositions | chatbot.go:61-71 | The nine prepositions, in source order |
| Reflection.Reflections | chatbot.go:74-90 | The 14 trigger/replacement pairs in source order; the commented-out entry for "you" is not among them |
| Reflection.ForEachEntry | chatbot.go:74-90 | A property of each of the 14 entries holds for every entry of the table |
| Reflection.BeforeYour | chatbot.go:74-86 | The same for the 11 entries before the one for "your" |
| Reflection.LongerNotContained | chatbot.go:115 | A trigger longer than the token does not match it |
| Reflection.PrepositionLettersIQuote | chatbot.go:61-71 | No preposition holds an upper-case I or an apostrophe |
| Reflection.PrepositionLettersSM | chatbot.go:61-71 | No preposition holds an s or an m |
| Reflection.PrepositionLettersWEY | chatbot.go:61-71 | No preposition holds both w and e, and none of four letters or more holds a y |
| Reflection.PrepositionInitials | chatbot.go:61-71 | Every preposition starts with a letter other than y, I and m, and the one starting with w has seven letters |
| Reflection.NoPronounTriggerIn | chatbot.go:74-90 | A word without I, s and m holds none of the triggers built on "I", nor "was", "my" or "me" |
| Reflection.NoOtherTriggerIn | chatbot.go:82-87 | A word without an apostrophe or s, not holding both w and e, and without y if four letters or longer, holds none of the triggers for "you" forms, "were", "your" and "yours" |
| Reflection.NoTriggerListed | chatbot.go:94-118 | A token holding none of the 14 triggers is left as it is |
| Reflection.NoTriggerBeforeYour | chatbot.go:75-85 | A word without w, I, m or an apostrophe holds none of the 11 triggers tried before "your" |
| Reflection.NoTriggerInPreposition | chatbot.go:61-118 | A word with the letters of a preposition is left as it is by the table |
| Reflection.NoPrepositionProduced | chatbot.go:61-90 | No replacement of the table is a preposition |
| Reflection.ReflectionKeepsPrepositions | chatbot.go:97-118 | A token's reflection is a preposition exactly when the token is |
| Reflection.PlainTokenUnchanged | chatbot.go:74-118 | A token without w, I, m or y is left as it is |
| Reflection.IShadowsContractions | chatbot.go:75-80 | "I'm", "I'd", "I've" and "I'll" become "you", because the entry for "I" comes first |
| Reflection.YourShadowsYours | chatbot.go:85-87 | Every word starting with "your", with no letter of an earlier trigger, becomes "my"; "yours" is one such word |
| Reflection.YouAfterPreposition | chatbot.go:100-105 | "you" after "to" becomes "me" |
| Reflection.YouAfterOtherWord | chatbot.go:108-111 | "you" after a word that is not a preposition becomes "I" |
| Reflection.IBecomesYou | chatbot.go:76 | "I" becomes "you" |
| Reflection.ReflectAtTable | chatbot.go:115-117 | At a token other than "you" only the table applies |
| Reflection.ReflectedByTable | chatbot.go:93-121 | Without "you", the reflection is the table applied to each token |
| Reflection.MyBecomesYour | chatbot.go:81 | "my" becomes "your" |
| Engine.Eliza | chatbot.go:183-186 | The response rules and the substitution rules of a chatbot |
| Engine.ElizaFromFiles | chatbot.go:189-196 | The chatbot holds the sections of the response file and of the substitution file |
| Engine.Pick | chatbot.go:205 | A random pick is one of the choices |
| Engine.FirstResponse | chatbot.go:201-203 | The scan over the response rules as a first-match search (`FirstIndex`) on "the pattern finds a match in the input" |
| Engine.FirstResponseAt | chatbot.go:201-203 | The rule where the scan stops is the first response rule that matches |
| Engine.FirstSubstitution | chatbot.go:216-222 | The scan over the substitution rules as a first-match search (`FirstIndex`) on "the pattern matches the token" |
| Engine.FirstSubstitutionAt | chatbot.go:216-222 | The rule where the token scan stops is the first substitution rule that matches |
| Engine.TokenSubstitution | chatbot.go:216-224 | An unmatched token stays and uses no draw; a matched token becomes a replacement of the first matching rule and uses one draw |
| Engine.GroupSubstitution | chatbot.go:214-225 | Substitution keeps the number of tokens and uses at most one draw per token |
| Engine.GroupSubstitutionPointwise | chatbot.go:214-225 | Each token is left as it is or replaced from the first rule that matches it |
| Engine.Marker | chatbot.go:228 | The marker of group k is "$" followed by decimal digits only, and those digits read back as k |
| Engine.MarkerDollarOnce | chatbot.go:228 | The `$` of a marker does not recur in it |
| Engine.TokenCount | chatbot.go:210-212 | The number of tokens the remaining groups split into, the bound on the draws the filling makes |
| Engine.FillGroups | chatbot.go:210-229 | Filling uses at least no draw and at most one draw per token of the groups (`TokenCount`); what it puts in place of a marker is stated by `FillOneMarker` and `FillWithoutMarkers` |
| Engine.Respond | chatbot.go:199-236 | The answer to an input: the fallback when no rule matches, otherwise the drawn template of the first matching rule with its groups filled in; its laws are the lemmas below |
| Engine.RespondTo | chatbot.go:199-236 | The loops compute `Respond`: the fallback or the filled template of the first matching rule |
| Engine.SubstituteGroup | chatbot.go:214-225 | The in-place token loop computes the group's substitution and the next draw |
| Engine.GroupStep | chatbot.go:214-225 | Substituting from index t is substituting token t and then the rest |
| Engine.SubstituteToken | chatbot.go:216-224 | The substitution scan for one token computes its substitution |
| Engine.Fallback | chatbot.go:235 | The fixed answer when no response rule matches: "I don't know what to say." |
| Engine.NoMatchFallback | chatbot.go:234-235 | When no response rule matches, the answer is "I don't know what to say." |
| Engine.LaterRulesIrrelevant | chatbot.go:201-231 | Once a rule matches, rules added after the others change nothing |
| Engine.NonMatchingRulesSkipped | chatbot.go:201-203 | Rules that do not match the input can be put in front without changing the answer |
| Engine.FillWithoutMarkers | chatbot.go:210-229 | A template holding none of the markers of the groups still to fill is unchanged by the filling, so a marker numbered beyond the last group stays literal |
| Engine.NoDollarNoMarker | chatbot.go:228 | Text without "$" holds no marker |
| Engine.FillOneMarker | chatbot.go:210-229 | With one group, every occurrence of `$1` is replaced by the group split, substituted and re-joined with single spaces; the text between the markers is kept, other markers such as `$3` included |
| Engine.FillAroundOne | chatbot.go:210-229 | One `$1` between two texts without `$1` is replaced by the processed group and the texts are kept |
| Engine.FillLeadingOne | chatbot.go:210-229 | A template starting with `$1` followed by text without `$1` becomes the processed group followed by that text |
| Engine.HigherMarkerNotOne | chatbot.go:228 | A single-digit marker other than `$1`, after text without `$`, holds no `$1` |
| Engine.OneGroupKeepsHigherMarker | chatbot.go:210-229 | With one group, "`$1`…`$k`" for k from 2 to 9 becomes the processed group and the text with `$k` left literal |
| Engine.TenReadAsOneWithOneGroup | chatbot.go:210-229 | With one group, `$10` becomes the processed group followed by "0", because the replacement of `$1` matches its front |
| Engine.AnswerFillsGroup | chatbot.go:203-231 | A drawn template made of parts without `$1` between occurrences of `$1` is answered, for one captured group, with the substituted group in each marker's place |
| Engine.AnswerIsWinningTemplate | chatbot.go:203-231 | When a rule matches and its templates hold no marker, the answer is one of that rule's templates |
| Engine.MatchIsNoFallback | chatbot.go:201-235 | A matching rule whose templates hold no "$" and differ from the fallback text never gives the fallback |
| Engine.AnswerWithWord | chatbot.go:203-231 | With no substitution rules, a template with one `$1` and a captured word without separators is answered with the word in the marker's place |
| Engine.FilledTemplateCanBeFallback | chatbot.go:203-235 | A matching rule can still answer with the fallback text: "I don't know what to $1." with the captured word "say" fills to it |
| Engine.EveryTemplateReachable | chatbot.go:205 | With no groups, each template of the matching rule is the answer for some random draw, with its markers left literal |
| Engine.UnmatchedGroupUnchanged | chatbot.go:214-225 | A group in which no rule matches any token comes back unchanged and uses no draw |
| Simple.Fallbacks | chatbot.go:43-47 | The three stock replies, in the order the random index selects them |
| Simple.MentionsFather | chatbot.go:32 | What `(?i).*\bfather\b.*` matches: "father" in any mix of ASCII cases with a word boundary on each side; its laws are the lemmas below |
| Simple.Response | chatbot.go:30-52 | The answer of the fixed responder: the father reply, the reflected "I am" statement, or the drawn stock reply; stated by `FatherWins`, `IAmBranch` and `StockReplies` |
| Simple.ElizaResponse | chatbot.go:30-52 | The tiers in order: the father reply, the reflected "I am" statement through `Reflect`, or a stock reply |
| Simple.FatherWins | chatbot.go:32-34 | A mention of "father" gives the father reply, whatever the other tiers would say |
| Simple.FatherBetweenSpaces | chatbot.go:32 | "father" as a separate word is found anywhere in a sentence |
| Simple.FatherInCapitals | chatbot.go:32 | The match ignores case |
| Simple.NoFatherWithoutH | chatbot.go:32 | A text without the letter h never mentions "father" |
| Simple.GrandfatherIsNoFather | chatbot.go:32 | "father" inside a longer word is not a mention |
| Simple.OfMyReflected | chatbot.go:36-40 | In "X of my Y", "my" becomes "your" and plain words pass through |
| Simple.OfMyStatement | chatbot.go:36-41 | "I am tired of my job." is answered "How do you know you are tired of your job?" (with any such X and Y) |
| Simple.JoinOfYour | chatbot.go:124 | The reflected tokens join into "X of your Y" |
| Simple.IAmBranch | chatbot.go:36-41 | Without "father", a matching "I am" statement is answered with the reply prefix and its reflection |
| Simple.StockReplies | chatbot.go:43-51 | Otherwise the answer is a stock reply, and each stock reply is the answer for some draw |

## Left out

- HTTP handlers, templates, the JSON envelopes and `main`: network and page I/O outside the engine.
- Opening the rule files, `log.Fatal` on failure and `bufio.Scanner`'s 64 KiB line limit: the loader takes the file's lines.
- The regular-expression engine:
  - `MustCompile` is not modelled, and patterns are kept as text. A pattern that fails to compile is outside the model.
  - `FindStringSubmatch` and `MatchString` on rule patterns are functions supplied in `Engine.Oracles`.
  - The "I am" pattern of `ElizaResponse` and its `ReplaceAllString` are the function `iAm`.
- Reflection.Reflect: takes the phrase already split into tokens. The boundary pattern at chatbot.go:57 uses a `(?=` look-ahead, which Go's regular expressions reject. `MustCompile` would therefore panic, so the split itself has no defined behaviour to model. `ElizaResponse` takes the tokenizer as a parameter for the same reason.
- Reflection.Reflect: requires that "you" is not the first or second token. The Go loop reads the token two places back and would index out of range there.
- `rand.Intn`: the distribution is not modelled. Every possible outcome is covered through `rng`.
- Engine.RespondTo: requires `Valid`, meaning every response and every substitution rule has at least one replacement. The Go code would panic in `rand.Intn(0)` only for a rule with no replacements that is actually chosen, so this precondition is stronger than needed. The loader does not enforce it.
- Engine.RespondTo: "the answer is the fallback exactly when no rule matches" is stated as two lemmas, `NoMatchFallback` and `AnswerIsWinningTemplate`. The converse fails whenever a filled template equals the fallback text (`FilledTemplateCanBeFallback`). `MatchIsNoFallback` proves it where it holds: the winning rule's templates hold no "$" and none is the fallback text.
- Engine.FillGroups: filling is proved for one captured group: every `$1` is replaced and the rest of the template, other markers included, is kept (`FillOneMarker`); markers beyond the number of groups stay literal (`OneGroupKeepsHigherMarker`, `FillWithoutMarkers`); and `$10` is read as `$1` followed by "0" (`TenReadAsOneWithOneGroup`). With several groups the filling is given by the definition alone: a substituted group holding "$" can there create a marker for a later group.
- Simple.MentionsFather: case folding covers ASCII letters. No non-ASCII character folds to a letter of "father".
