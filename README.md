# cmdValidator's `Validator`, modelled in Dafny

`Validator` is a command-line argument validator driven by small textual
descriptors. A program registers argument sets with `AddArgumentSet`. Each
set has a descriptor such as `cmd,v[erbose],(o[ut]:"l)` and a callback.
`CheckArgs` then splits a command line into tokens and tries every
registered set against the one working token list. A set whose schemes are
all satisfied, in order, makes the answer true. It also fires its callback
with the tokens left over, unless unknown parameters are not ignored and
some are left.

The model follows the class part by part:

- `Text`: the string and list helpers the class relies on. These are
  `Split`, `Trim`, `ToLower`, `IndexOf`, `StartsWith`, `Contains`, `List.Remove`,
  `RemoveLastAndFirstChar` and `CheckFirstAndLastCharOfString`.
- `Tokenizer`: `SplitArgs`, a scanner for the split pattern of line 35.
- `Identifiers`: the alias expander `SplitIdentifiers`/`GetIdentifiers`, a
  scanner for the identifier pattern of line 34. `PrintAll`/`Spellings`
  give the independent meaning of an alias expression.
- `Grammar`: `IsValid`, a recogniser for the argument pattern of line 36.
  It comes with a printer for the descriptor parts, proved to accept
  exactly the printed parts.
- `Compiler`: `GetValues`, `GetArgument`, `GetArgumentScheme` and
  `GetArgumentSchemes`. Thrown exceptions become `Failure` values.
- `Prefixes`: the longest-first prefix ordering, `IsOption` and the alias
  lookup `GetIdentifier`.
- `Registration` and `Matcher`: value-level meanings of `AddArgumentSet` and
  of matching one scheme, one set and every set. `CheckArgs`'s result,
  leftovers and callbacks are stated on these.
- `Registry`: the classes `ArgumentScheme`, `ArgumentSet` and `Validator`.
  Parsed values are updated in place, and the working list is threaded
  through the calls as the shared list object is. Every method is proved
  against the functions above.

The collaborators `ArgumentScheme`, `ArgumentSet` and the `GetArguments`
delegate are defined outside `Validator.cs`; they are not part of this
model beyond minimal shapes:

- A scheme has its six compiled fields and a mutable `parsedValues`.
- A set has its `argSchemes` and its callback. `GetCmd()` is taken to
  return `argSchemes[0]`, the command scheme.
- A callback is an opaque identity. Triggering it appends an event, holding
  the leftover tokens, to a ghost log of the validator.

Quirks of the code that the model keeps:

- One working list object is shared by every set in a `CheckArgs(List)`
  call. It is not a fresh copy per set. Removals made while trying a set,
  even a set that then fails, persist into the later sets and into the
  caller's list (`Matcher.FailedSetConsumes`).
- `args.Remove(identifier)` removes the first token equal to the
  prefix-stripped alias, not the token that matched. So `-v` stays in the
  list when `v` matched it (`Matcher.StrippedAliasIsRemoved`).
- A `Single` value is appended to the values parsed earlier. A `List` value
  replaces them.
- The duplicate-command test is substring containment, checked only as
  "an existing identifier contains the new one". It is therefore not
  symmetric (`Registration.DuplicateIsAsymmetric`).
- A bare (unprefixed) token that names a scheme is reported at index 0,
  whatever its position.
- Only `:` can pass the argument pattern. The `=` fallback of `GetArgument`
  is therefore never taken (`Grammar.ValidHasNoEqualsOrComma`).
- The value clause, allowed literals included, is lower-cased before it is
  used.

## Model

| member | source | states |
|---|---|---|
| Text.Split | cmdValidator/CMDValidator/Validator.cs:309-312 | `string.Split` gives at least one piece, no piece holds the separator, and joining the pieces gives back the text |
| Text.SplitJoin | cmdValidator/CMDValidator/Validator.cs:423-426 | splitting the join of separator-free pieces gives back the pieces |
| Text.IndexOf | cmdValidator/CMDValidator/Validator.cs:352-356 | `IndexOf` is -1 exactly when the character is absent, else the position of its first occurrence |
| Text.ContainsAt | cmdValidator/CMDValidator/Validator.cs:73 | `Contains` holds exactly when the needle starts at some position of the text |
| Text.Trim | cmdValidator/CMDValidator/Validator.cs:307 | the trimmed text is no longer than the text, and is empty or starts and ends with a non-white-space character |
| Text.TrimIsSlice | cmdValidator/CMDValidator/Validator.cs:307 | the trimmed text is a slice of the text with nothing but white space before and after it |
| Text.TrimNoEdges | cmdValidator/CMDValidator/Validator.cs:307 | a text without white space at either end is left unchanged by `Trim` |
| Text.ToLower | cmdValidator/CMDValidator/Validator.cs:381 | lower-casing keeps the length and maps every character on its own |
| Text.LowerChar | cmdValidator/CMDValidator/Validator.cs:381 | `A`..`Z` map to `a`..`z`, every other character is kept, and no upper-case letter is left |
| Text.RemoveFirst | cmdValidator/CMDValidator/Validator.cs:133 | `List.Remove` leaves the list unchanged when the item is absent, else drops exactly its first occurrence |
| Text.RemoveLastAndFirstChar | cmdValidator/CMDValidator/Validator.cs:472-484 | a text of length 3 or more loses exactly its first and last characters; a shorter one is returned unchanged |
| Text.RemoveWrapped | cmdValidator/CMDValidator/Validator.cs:472-484 | unwrapping a non-empty text put between two characters gives back that text |
| Text.CheckFirstAndLastCharOfString | cmdValidator/CMDValidator/Validator.cs:485-488 | true exactly when the text has length at least 2 and starts and ends with the given characters |
| Tokenizer.SplitArgs | cmdValidator/CMDValidator/Validator.cs:287-304 | every token is non-empty |
| Tokenizer.QuotedToken | cmdValidator/CMDValidator/Validator.cs:35 | a quoted run with at least one character yields its contents without the quotes, and a comma after it is consumed |
| Tokenizer.RunToken | cmdValidator/CMDValidator/Validator.cs:35 | outside quotes a token is a maximal run of characters other than white space, `,`, `(`, `)` and the bar, and a comma after it is consumed |
| Tokenizer.UnterminatedQuote | cmdValidator/CMDValidator/Validator.cs:35 | an opening quote with no closing quote is an ordinary character of a run |
| Tokenizer.SkipsSeparator | cmdValidator/CMDValidator/Validator.cs:290-302 | a position where the pattern does not match is skipped |
| Tokenizer.SplitJoinWithSpaces | cmdValidator/CMDValidator/Validator.cs:287-304 | plain tokens written with single spaces between them are split back into the same tokens |
| Tokenizer.SplitJoinQuoted | cmdValidator/CMDValidator/Validator.cs:287-304 | quote-free tokens written as `"t1","t2",...` are split back into the same tokens |
| Identifiers.SplitIdentifiers | cmdValidator/CMDValidator/Validator.cs:435-471 | one alias part yields one or two identifiers |
| Identifiers.SplitIdentifiersOfPrinted | cmdValidator/CMDValidator/Validator.cs:435-471 | `A` gives `[A]`, `A[B]C` gives `[A+C, A+B+C]`, `A[B]` gives `[A, A+B]` and `[B]A` gives `[B+A, A]` |
| Identifiers.MatchStartOfPrinted | cmdValidator/CMDValidator/Validator.cs:34 | the identifier pattern matches a well-formed part at its start, with capture groups holding exactly its pieces |
| Identifiers.AliasPartIffPrinted | cmdValidator/CMDValidator/Validator.cs:34 | a text is one whole alias part exactly when it is the printing of a well-formed part |
| Identifiers.GetIdentifiers | cmdValidator/CMDValidator/Validator.cs:420-434 | an expression yields at least as many identifiers as it has bar-separated parts |
| Identifiers.GetIdentifiersOfPrinted | cmdValidator/CMDValidator/Validator.cs:420-434 | a bar-joined expression yields the identifiers of its parts concatenated in order |
| Identifiers.VerboseExample | cmdValidator/CMDValidator/Validator.cs:445-458 | `v[erbose]` expands to `v` and `verbose` |
| Identifiers.UninstallExample | cmdValidator/CMDValidator/Validator.cs:465-469 | `[un]install` expands to `uninstall` and `install` |
| Grammar.MatchesWholeIffPrinted | cmdValidator/CMDValidator/Validator.cs:36 | the argument pattern accepts a text exactly when it prints a well-formed part: aliases, then optionally `:` and a value clause |
| Grammar.PrintedBodyMatches | cmdValidator/CMDValidator/Validator.cs:415-419 | `IsValid` accepts every printed well-formed part |
| Grammar.ValidChars | cmdValidator/CMDValidator/Validator.cs:415-419 | a valid argument holds only grammar characters, apart from one final line feed that the `\Z` anchor allows |
| Grammar.ValidHasNoEqualsOrComma | cmdValidator/CMDValidator/Validator.cs:352-356 | a valid argument holds no `=` and no `,`, so the `=` fallback is never taken |
| Grammar.ParseValue | cmdValidator/CMDValidator/Validator.cs:36 | every value clause the pattern accepts is the printing of a well-formed clause |
| Grammar.ParseAliases | cmdValidator/CMDValidator/Validator.cs:36 | every list of alias parts the pattern accepts is the printing of well-formed parts |
| Compiler.GetValues | cmdValidator/CMDValidator/Validator.cs:379-414 | outer parentheses of the lower-cased clause set `optionalValues`, the type is never `None`, a list takes no allowed values, and no allowed value holds an upper-case letter |
| Compiler.GetValuesOfPrinted | cmdValidator/CMDValidator/Validator.cs:379-414 | `"list`/`"l` gives `List` and `"single`/`"s` gives `Single`, both without allowed values, in any letter case; any other clause gives `Single` with the lower-cased literals split at each bar |
| Compiler.GetArgument | cmdValidator/CMDValidator/Validator.cs:341-378 | a compiled scheme has the given command flag, is optional exactly when the part is wrapped in parentheses, and has at least one identifier |
| Compiler.GetArgumentAccepts | cmdValidator/CMDValidator/Validator.cs:343-349 | a part compiles exactly when it is valid once its wrapping parentheses are removed |
| Compiler.GetArgumentOfPrinted | cmdValidator/CMDValidator/Validator.cs:341-378 | a printed well-formed part compiles to the scheme its aliases and value clause stand for |
| Compiler.GetArgumentIffPrinted | cmdValidator/CMDValidator/Validator.cs:341-378 | a part without line feeds compiles exactly when it is the printing of a well-formed part |
| Compiler.GetArgumentScheme | cmdValidator/CMDValidator/Validator.cs:328-339 | a part with no scheme gives a corrupt-argument-scheme failure naming that part; otherwise the scheme |
| Compiler.CompileFromMeaning | cmdValidator/CMDValidator/Validator.cs:319-323 | compilation succeeds exactly when every part has a scheme, and then yields those schemes in order |
| Compiler.CompileDescriptor | cmdValidator/CMDValidator/Validator.cs:305-326 | a compiled descriptor has one scheme per `,`-separated part of the trimmed text |
| Compiler.CompiledFlags | cmdValidator/CMDValidator/Validator.cs:318-323 | only the first scheme is the command, and a scheme is optional exactly when its part is wrapped in parentheses |
| Compiler.CompileOfPrinted | cmdValidator/CMDValidator/Validator.cs:305-326 | a descriptor printed from well-formed parts compiles to what those parts stand for, the first being the command |
| Compiler.GetArgumentSchemes | cmdValidator/CMDValidator/Validator.cs:305-326 | the loop over the parts computes the descriptor's compilation, failing at the first corrupt part |
| Compiler.CompileNext | cmdValidator/CMDValidator/Validator.cs:322-323 | one loop step either fails with the whole compilation's failure or extends the schemes compiled so far |
| Compiler.DescriptorExample | cmdValidator/CMDValidator/Validator.cs:305-326 | `v[erbose],(o[ut]:"l)` compiles to a command `v`/`verbose` and an optional list argument `o`/`out` |
| Prefixes.SortByLengthDescending | cmdValidator/CMDValidator/Validator.cs:54-60 | the result is a permutation of the input in non-increasing length order |
| Prefixes.SortIsStable | cmdValidator/CMDValidator/Validator.cs:54-60 | prefixes of equal length keep their input order |
| Prefixes.SortOfSorted | cmdValidator/CMDValidator/Validator.cs:54-60 | an input already in order is left unchanged |
| Prefixes.DefaultPrefixOrder | cmdValidator/CMDValidator/Validator.cs:37-50 | the default prefixes are used in the order `--`, `-`, `/` |
| Prefixes.OptionIndex | cmdValidator/CMDValidator/Validator.cs:269-282 | `IsOption` is the index of the first prefix the argument starts with, or -1 exactly when it starts with none |
| Prefixes.IsOptionLongest | cmdValidator/CMDValidator/Validator.cs:269-282 | with sorted prefixes the one found is at least as long as any other the argument starts with |
| Prefixes.FindIdentifier | cmdValidator/CMDValidator/Validator.cs:218-246 | `GetIdentifier` finds the first token whose prefix-stripped or bare text is an alias, reported at its position when prefixed and at 0 when bare; it gives `""` and -1 exactly when no token names an alias |
| Prefixes.FoundIsIdentifier | cmdValidator/CMDValidator/Validator.cs:218-246 | an identifier found is one of the aliases, reported at a position of the list |
| Prefixes.BareMatchAtZero | cmdValidator/CMDValidator/Validator.cs:234-240 | a bare alias is reported at index 0 whatever its position |
| Prefixes.PrefixedExample | cmdValidator/CMDValidator/Validator.cs:224-232 | `--verbose` at position 1 is found as `verbose` at index 1 |
| Matcher.TakeValues | cmdValidator/CMDValidator/Validator.cs:169-179 | a list value is the longest run of tokens, from the one after the alias, that start with no prefix |
| Matcher.MatchScheme | cmdValidator/CMDValidator/Validator.cs:117-204 | an empty working list always fails, even for an optional scheme; a failed scheme keeps its parsed values |
| Matcher.MatchNotFound | cmdValidator/CMDValidator/Validator.cs:195-201 | when no token names the scheme it succeeds only if it is optional, and changes nothing |
| Matcher.MatchNone | cmdValidator/CMDValidator/Validator.cs:129-135 | a `None` scheme succeeds exactly when it is named or optional, takes no value, and when named removes the first token equal to its alias |
| Matcher.MatchSingle | cmdValidator/CMDValidator/Validator.cs:136-166 | a named `Single` scheme succeeds by appending the unprefixed, permitted token after the alias and removing the alias; a prefixed token makes it fail even with optional values; a token it does not permit leaves it satisfied exactly when its values are optional and removes nothing; at the end of the list it succeeds exactly when its values are optional |
| Matcher.MatchList | cmdValidator/CMDValidator/Validator.cs:167-192 | a named `List` scheme succeeds exactly when the run of unprefixed tokens after the alias is non-empty or its values are optional, takes that run as its values when non-empty, and removes the alias even when it fails |
| Matcher.MatchRemovesAlias | cmdValidator/CMDValidator/Validator.cs:133-181 | the working list is either unchanged or loses the first token equal to the alias found |
| Matcher.MatchRemovesAtMostOne | cmdValidator/CMDValidator/Validator.cs:117-204 | one scheme removes at most one token and adds none |
| Matcher.MatchIgnoresParsed | cmdValidator/CMDValidator/Validator.cs:117-204 | whether a scheme succeeds, and what it removes, do not depend on the values parsed for it before |
| Matcher.StrippedAliasIsRemoved | cmdValidator/CMDValidator/Validator.cs:133 | a `None` scheme `v` matched by `-v` succeeds but leaves `-v` in the list |
| Matcher.MatchSchemes | cmdValidator/CMDValidator/Validator.cs:101-116 | a set yields one parsed-value list per scheme |
| Matcher.FailureKeepsLaterParsed | cmdValidator/CMDValidator/Validator.cs:105-109 | when a set fails, the schemes from the one that failed on keep their earlier values |
| Matcher.MatchFromStep | cmdValidator/CMDValidator/Validator.cs:105-112 | a satisfied scheme passes the list it leaves to the next scheme |
| Matcher.MatchFromFails | cmdValidator/CMDValidator/Validator.cs:107-109 | the first unsatisfied scheme ends the set's attempt |
| Matcher.CheckFrom | cmdValidator/CMDValidator/Validator.cs:82-100 | checking keeps the number of sets, their schemes and callbacks, and leaves the sets already passed unchanged |
| Matcher.CheckFromStep | cmdValidator/CMDValidator/Validator.cs:85-98 | each set is tried on the list the previous set left; a satisfied set makes the result true and fires its callback with the leftovers when unknown parameters are ignored or none are left |
| Matcher.EventsGated | cmdValidator/CMDValidator/Validator.cs:92-95 | a callback fires only with unknown parameters ignored or no leftovers, only when the result is true, and with unknown parameters ignored the result is true exactly when some callback fires |
| Matcher.ResultIffSomeSetMatched | cmdValidator/CMDValidator/Validator.cs:84-99 | the result is true exactly when some set's schemes all succeed in order |
| Matcher.CheckOne | cmdValidator/CMDValidator/Validator.cs:82-100 | with one set, the result and leftovers are that set's, and the callback fires only as gated |
| Matcher.SatisfiedWithoutCallback | cmdValidator/CMDValidator/Validator.cs:92-96 | a satisfied set with leftovers makes the result true without firing its callback when unknown parameters are not ignored |
| Matcher.FailedSetConsumes | cmdValidator/CMDValidator/Validator.cs:88-109 | a set that fails still removes the tokens its satisfied schemes matched from the shared list |
| Registration.Cmds | cmdValidator/CMDValidator/Validator.cs:71-72 | each set's command identifiers are those of its first scheme |
| Registration.FirstClash | cmdValidator/CMDValidator/Validator.cs:71-74 | the first new identifier that some existing identifier contains, or none exactly when there is no such identifier |
| Registration.DuplicateFrom | cmdValidator/CMDValidator/Validator.cs:70-74 | a new command identifier contained in an existing set's command identifier is reported; none exactly when no such pair exists |
| Registration.DuplicateIsAsymmetric | cmdValidator/CMDValidator/Validator.cs:73 | registering `v` after `verbose` is refused, but `verbose` after `v` is not |
| Registration.NewSet | cmdValidator/CMDValidator/Validator.cs:76 | a new set holds its schemes with no values parsed |
| Registration.Register | cmdValidator/CMDValidator/Validator.cs:61-77 | registration succeeds exactly when the descriptor compiles and no clash is found, and then appends one set and keeps the others |
| Registration.RegisterAppends | cmdValidator/CMDValidator/Validator.cs:61-77 | the appended set is the new one; a refused registration reports a duplicative identifier of the new command, or the compilation failure |
| Registry.ArgumentScheme.constructor | cmdValidator/CMDValidator/Validator.cs:364-370 | a new scheme holds its compiled fields and no parsed values |
| Registry.ArgumentSet.constructor | cmdValidator/CMDValidator/Validator.cs:76 | a new set holds its schemes and callback |
| Registry.Validator.constructor | cmdValidator/CMDValidator/Validator.cs:29-31 | the public constructor uses the default prefixes sorted by length, keeps the flag and registers no set |
| Registry.Validator.WithSeparators | cmdValidator/CMDValidator/Validator.cs:32-53 | the prefixes are the given separators, or the defaults, sorted by length; the flag is kept and no set is registered |
| Registry.Validator.SortedPrefixes | cmdValidator/CMDValidator/Validator.cs:37-50 | chooses the separators or the defaults and sorts them by length |
| Registry.Validator.SetIgnoreUnknownParameters | cmdValidator/CMDValidator/Validator.cs:24-27 | the setter changes the flag and nothing else |
| Registry.Validator.IsOption | cmdValidator/CMDValidator/Validator.cs:269-282 | the loop returns the index of the first matching prefix, or -1 |
| Registry.Validator.GetIdentifier | cmdValidator/CMDValidator/Validator.cs:218-246 | the loop returns the alias lookup of `Prefixes.FindIdentifier` |
| Registry.Validator.GetParsedArgumentScheme | cmdValidator/CMDValidator/Validator.cs:117-204 | the scheme object is returned exactly when the scheme is satisfied; its parsed values and the working list become those of `Matcher.MatchScheme` |
| Registry.Validator.ParseValues | cmdValidator/CMDValidator/Validator.cs:125-192 | once the alias is found, the value-type switch updates the scheme and the list as `Matcher.MatchFound` says |
| Registry.Validator.GetValuesAfter | cmdValidator/CMDValidator/Validator.cs:169-179 | the value-collecting loop yields the run of unprefixed tokens after the alias |
| Registry.Validator.GetParsedArgumentSet | cmdValidator/CMDValidator/Validator.cs:101-116 | the set is returned exactly when all its schemes are satisfied in order; the schemes' values and the list become those of `Matcher.MatchSchemes`, and the unknown options are a copy of the list left |
| Registry.Validator.ParseSchemes | cmdValidator/CMDValidator/Validator.cs:103-112 | the loop over a set's schemes stops at the first unsatisfied one and otherwise collects all of them |
| Registry.Validator.ParseSchemeAt | cmdValidator/CMDValidator/Validator.cs:105-112 | one loop step parses one scheme and keeps the loop's account of the set's outcome |
| Registry.Validator.CheckArgs | cmdValidator/CMDValidator/Validator.cs:82-100 | result, leftover list, the sets' parsed values and the callbacks fired are those of `Matcher.CheckFrom`; the registered sets stay the same |
| Registry.Validator.CheckStep | cmdValidator/CMDValidator/Validator.cs:85-98 | one loop step tries one set and keeps the loop's account of the whole run |
| Registry.Validator.ParseSetAt | cmdValidator/CMDValidator/Validator.cs:87-97 | one set is tried on the list; when satisfied it is stored back and its callback fires as gated |
| Registry.Validator.ParseSetIn | cmdValidator/CMDValidator/Validator.cs:88 | trying one set changes that set's parsed values and no other set's |
| Registry.Validator.CheckArgsLine | cmdValidator/CMDValidator/Validator.cs:78-81 | checking a line is checking the tokens `SplitArgs` gives for it |
| Registry.Validator.AddArgumentSet | cmdValidator/CMDValidator/Validator.cs:61-77 | the error and the new registry are those of `Registration.Register`: a corrupt descriptor or a duplicative command leaves the sets unchanged, otherwise exactly one set is appended |
| Registry.Validator.AddCompiled | cmdValidator/CMDValidator/Validator.cs:65-76 | after compilation, the duplicate check decides between the error and the append |
| Registry.Validator.FindDuplicate | cmdValidator/CMDValidator/Validator.cs:70-74 | the nested loops find the clash `Registration.DuplicateFrom` describes |
| Registry.Validator.FirstClashOf | cmdValidator/CMDValidator/Validator.cs:71-74 | the loop over the new identifiers finds the first one that clashes with one existing set |
| Registry.Validator.ClashIn | cmdValidator/CMDValidator/Validator.cs:72-73 | the innermost loop tells whether some existing identifier contains the new one |
| Registry.Validator.AppendSet | cmdValidator/CMDValidator/Validator.cs:76 | appends one set built from the compiled schemes, with no values parsed, and keeps the others |
| Registry.Validator.NewSchemes | cmdValidator/CMDValidator/Validator.cs:63-65 | allocates one distinct, new scheme object per compiled scheme, with no values parsed |

## Left out

- The callback: `TriggerEvent` and the `GetArguments` delegate are defined
  outside `Validator.cs`. A trigger is modelled as an event, holding the
  callback and the leftover tokens, appended to a ghost log.
- The .NET regular-expression engine: the patterns of lines 34-36 are
  modelled by scanners and recognisers written for them. Leftmost matching
  is modelled, and so is the one trailing line feed that `\Z` admits.
- `\w` is modelled as ASCII letters, digits and `_`. .NET's `\w` also
  admits other Unicode letters and digits.
- `ToLower` and `StartsWith` are culture-sensitive in .NET. They are
  modelled as ASCII lower-casing and a plain prefix test.
- `RemoveItems` (lines 205-217) is left out: every call to it is commented out.
- `GetOptionWithoutSeparator` (lines 283-286) is left out: nothing calls it.
- The commented-out `GetIdentifier` (lines 247-268) is not modelled.
- The empty-array check at lines 315-316 is left out: `Split` always
  returns at least one piece (`Text.Split`).
- Lazy `IEnumerable`/`yield` results and the `Cast`/`ToArray` conversions
  are modelled as plain sequences.
- Exception message text: only the failure kind and the offending part or
  identifier are kept (`Compiler.Error`).
- The `ArgumentSet` built at line 65 for the duplicate check is discarded.
  The model runs the check on the compiled schemes and allocates the scheme
  objects once, for the set it appends (`Registry.Validator.NewSchemes`).
- `Registry.Validator.CheckArgs`: the model reads the caller's list as a
  value and returns its final contents (`argsOut`). It does not model the
  `List<string>` object as shared with the caller.
