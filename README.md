# Regent builder, modelled in Dafny

Regent is a PHP library. Its `Builder` class writes a PCRE regular
expression one piece at a time. A builder object holds three things:

- a delimiter, such as `~`, `/` or `#`;
- the pattern text;
- the trailing flags string, such as `im`.

The builder's methods append fragments to the pattern, add or remove flags,
insert inline-modifier groups such as `(?i-m)`, and render the result as
`delimiter pattern delimiter flags`. A process-wide default delimiter, `~` at
start-up, is used by builders that have no delimiter of their own. Invalid
delimiters, flags and modifiers raise `RegentException`. Each message names
the allowed values and the value that was passed.

The project has these modules:

| module | file | contents |
|---|---|---|
| `Php` | `php.dfy` | the PHP built-ins the builder relies on: `trim`, `empty`, `mb_strpos !== false`, `str_replace` with an empty replacement, `implode`, decimal rendering of an `int`, `preg_quote`; each with its laws and an inverse where one exists |
| `Vocabulary` | `vocabulary.dfy` | the three allow-lists, the default delimiter, the error kinds, and `validateInList` with its delimiter, modifier and flag forms |
| `Flags` | `flags.dfy` | `flag()` in both modes, and `massFlags`, `massFlagsAssoc` and `inlineFlags`, as functions of the old flags string |
| `Modifiers` | `modifiers.dfy` | `insertModifiers` as a function: validation order, duplicate suppression, and the shape of the group |
| `Fragments` | `fragments.dfy` | the fixed fragments (class escapes, lookaround signs, back references, quantifier tokens), each with a parser that reads it back, and the rendering of the final regex literal with its splitting inverse |
| `RegentException` | `exceptions.dfy` | the exception messages |
| `Regent` | `builder.dfy` | the `Config` class holding the static default delimiter, and the `Builder` class with one method per PHP method; each method is proved against the functions above |
| `Scenarios` | `scenarios.dfy` | client code that drives the classes as the repository's feature tests do |

A PHP method that throws returns `Err(e)` in the model. The fields then hold
exactly what PHP leaves in them at the throw. A batch of flags keeps the
changes made before its first invalid element. `insertModifiers` leaves the
pattern untouched.

Three behaviours of the code that a reader might not expect:

- `insertModifiers` appends its group to the current pattern; it does not
  replace the pattern (`src/Builder.php:212`).
- `look(true, …)` writes `?<=` or `?<!`, which is a lookbehind, although the
  parameter is named `$ahead`. `look(false, …)` writes `?=` or `?!`
  (`src/Builder.php:697-700`).
- The validators trim their argument by reference. The stored delimiter and
  the value quoted in an error message are therefore the trimmed strings.

Two behaviours of the code are modelled exactly as written:

- **The `"0"` flag.** `validateFlag` lets PHP-empty values through, and PHP's
  `empty` treats `"0"` as empty. As a result, `flag("0")` on empty flags appends
  `"0"`, and a second call appends another. `Flags.ZeroFlagRepeats` states
  this. The well-formedness lemmas exclude `"0"` tokens.
- **Directly written fields.** `pattern` and `flags` are public, and clients
  (the tests among them) assign them directly. For that reason "the flags are
  well-formed" is a lemma precondition, not a class invariant.

## Model

| member | source | states |
|---|---|---|
| Vocabulary.ValidateInList | src/Builder.php:106-112 | the value handed back is the trimmed input; it is accepted exactly when it is in the list, or when empties are allowed and it is PHP-empty |
| Vocabulary.ValidateDelimiter | src/Builder.php:147-151 | success exactly when the trimmed value is an allowed delimiter; success yields the trimmed value; failure is `InvalidDelimiter` carrying it |
| Vocabulary.ValidateModifier | src/Builder.php:222-226 | same, for the inline-modifier list, with `InvalidModifier`; the empty string is refused |
| Vocabulary.ValidateFlag | src/Builder.php:315-319 | same, for the flag list, with `InvalidFlag`; PHP-empty values are accepted |
| Vocabulary.ValidationIgnoresPadding | src/Builder.php:108 | surrounding whitespace never changes a verdict or the value validated |
| Vocabulary.ListedDelimiterAccepted | src/Builder.php:19 | every listed delimiter, padded or not, validates to itself |
| Vocabulary.EmptyValueAsymmetry | src/Builder.php:110-111 | `""` is refused as a delimiter and as a modifier, but `""` and `"0"` pass as flags |
| Vocabulary.FlagListIsLetters | src/Builder.php:20 | a value is a listed flag exactly when it is one flag letter |
| Vocabulary.DelimiterShape | src/Builder.php:19 | every delimiter is one non-empty character, not a flag letter and not `0` |
| Vocabulary.ModifierShape | src/Builder.php:21 | every modifier is one flag letter, distinct from the `(?`, `-` and `)` pieces of a group |
| Php.Trim | src/Builder.php:108 | `trim` with PHP's default character set; its laws are `Php.TrimPadded`, `Php.TrimUnpadded`, `Php.TrimIdempotent` and `Php.TrimShape` |
| Php.Empty | src/Builder.php:110 | PHP's `empty` on a string, true for `""` and for `"0"`; `Vocabulary.EmptyValueAsymmetry` and `Flags.ZeroFlagRepeats` show its effect |
| Php.Contains | src/Builder.php:246 | `mb_strpos(...) !== false`: the needle occurs as a contiguous substring; `Php.ContainsChar` reduces it to membership for one character |
| Php.Implode | src/Builder.php:478 | `implode`: the pieces in order with the glue between neighbours; `Php.ImplodeAppend` and `RegentException.ValidListAppend` state its laws |
| Php.TrimPadded | src/Builder.php:108 | `trim` removes any padding made of its six whitespace characters |
| Php.TrimUnpadded | src/Builder.php:108 | `trim` leaves a string unchanged when it neither starts nor ends with whitespace |
| Php.TrimIdempotent | src/Builder.php:108 | trimming twice is trimming once |
| Php.TrimShape | src/Builder.php:108 | a trimmed string neither starts nor ends with whitespace |
| Php.ContainsChar | src/Builder.php:246 | `mb_strpos` of one character finds it exactly when it occurs |
| Php.Remove | src/Builder.php:250 | `str_replace` with an empty replacement never lengthens the string and keeps only characters of the input |
| Php.RemoveAbsent | src/Builder.php:250 | removing the empty needle, or a needle that does not occur, changes nothing |
| Php.RemoveChar | src/Builder.php:250 | removing one character deletes every copy and keeps every other character with its count |
| Php.RemoveDistinct | src/Builder.php:250 | removal keeps a repetition-free string repetition-free |
| Php.ImplodeAppend | src/Builder.php:478 | `implode('')` of a concatenation of lists is the concatenation of the results |
| Php.IntToString | src/Builder.php:683 | an integer renders as a non-empty string without `,` or `}` |
| Php.IntRoundTrip | src/Builder.php:683 | the decimal rendering of any integer reads back to that integer |
| Php.PregQuote | src/Builder.php:466-467 | quoting never shortens a string |
| Php.QuoteRoundTrip | src/Builder.php:466-467 | for every delimiter the builder allows, unquoting the quoted string gives the input back |
| Php.QuoteIdentity | src/Builder.php:466-467 | `preg_quote` leaves a string unchanged exactly when the string holds no metacharacter, NUL or delimiter character |
| Php.QuoteAppend | src/Builder.php:466-467 | quoting distributes over concatenation |
| Flags.AddFlag | src/Builder.php:241-247 | `flag($f, true)`: succeeds exactly when the value validates as a flag, fails with `InvalidFlag` of the trimmed value otherwise, and on success the flags are unchanged or extended by the trimmed value |
| Flags.RemoveFlag | src/Builder.php:249-250 | `flag($f, false)` deletes the untrimmed value; `Flags.RemoveFlagLetter`, `Flags.RemoveAbsentFlag` and `Flags.RemoveFlagWellFormed` state what it does |
| Flags.FlagStep | src/Builder.php:239-253 | one `flag()` call; it can fail only in add mode, and only with `InvalidFlag` of the trimmed value |
| Flags.ApplyFlags | src/Builder.php:268-271 | the `foreach` over a batch; it can fail only in add mode, and only with `InvalidFlag` |
| Flags.MassFlags | src/Builder.php:263-274 | `massFlags`: fails with `NoFlagsProvided` exactly when the batch is empty |
| Flags.ApplyFlagsAssoc | src/Builder.php:288-291 | the `foreach` over a map of value and mode; it can fail only with `InvalidFlag` |
| Flags.MassFlagsAssoc | src/Builder.php:283-294 | `massFlagsAssoc`: fails with `NoFlagsProvided` exactly when the map is empty; `Flags.AssocAgreesWithMassFlags` ties it to `massFlags` |
| Flags.Chars | src/Builder.php:305 | `mb_str_split`: one one-character string per character, in order |
| Flags.AddListedFlag | src/Builder.php:239-248 | adding a listed flag succeeds; afterwards the flag is present; the flags are unchanged or extended by exactly that flag |
| Flags.AddFlagIdempotent | src/Builder.php:239-248 | adding the same flag twice is adding it once, except for `"0"` |
| Flags.AddFlagWellFormed | src/Builder.php:239-248 | adding keeps a string of distinct flag letters so |
| Flags.AddNewLetter | src/Builder.php:245-247 | a flag letter not yet present is appended |
| Flags.ZeroFlagRepeats | src/Builder.php:245-247 | the `"0"` quirk: empty flags become `"0"`, then `"00"`, which is not well-formed |
| Flags.RemoveFlagLetter | src/Builder.php:249-250 | removing a letter deletes every copy and leaves the other letters as they were |
| Flags.RemoveAbsentFlag | src/Builder.php:249-250 | removing the empty value, or a value that does not occur (an invalid name among them), changes nothing |
| Flags.RemoveFlagWellFormed | src/Builder.php:249-250 | removal keeps the flags well-formed |
| Flags.AddThenRemove | src/Builder.php:239-253 | adding a new letter and then removing it restores the flags |
| Flags.ListedFlagStep | src/Builder.php:239-253 | a call with a listed flag never fails, in either mode |
| Flags.ApplyFlagsAppend | src/Builder.php:268-271 | processing a batch in two halves is processing it at once; the second half is skipped after an error |
| Flags.ValidBatchCompletes | src/Builder.php:268-271 | a batch of valid values completes without an error |
| Flags.AddBatchStopsAtFirstInvalid | src/Builder.php:268-271 | an adding batch applies the values before the first invalid one, then fails with `InvalidFlag` of that value |
| Flags.RemoveBatchCompletes | src/Builder.php:268-271 | a removing batch never fails |
| Flags.BatchKeepsWellFormed | src/Builder.php:268-271 | a batch without `"0"` keeps the flags well-formed |
| Flags.AddNewLetters | src/Builder.php:263-274 | adding distinct new letters appends them in order |
| Flags.RemoveLeadingLetters | src/Builder.php:263-274 | removing the letters a well-formed string starts with leaves the rest |
| Flags.EmptyBatchRefused | src/Builder.php:265-266 | an empty list or map fails with `NoFlagsProvided` and changes nothing; so does the empty map at src/Builder.php:285-286 |
| Flags.AssocAgreesWithMassFlags | src/Builder.php:283-294 | a map giving every value the same mode behaves as `massFlags` with that mode |
| Flags.EmptyInlineFlagsRefused | src/Builder.php:303-306 | `inlineFlags("")` fails with `NoFlagsProvided` |
| Flags.FirstInvalidFlag | src/Builder.php:268-271 | the index of the first invalid value: all values before it are valid, and the value at it is not |
| Modifiers.InsertModifiers | src/Builder.php:178-213 | `insertModifiers` as a function of the old pattern; `Modifiers.InsertModifiersOutcome`, `Modifiers.ActiveCheckedFirst`, `Modifiers.DeactiveCheckedNext` and the `Group` lemmas state what it does |
| Modifiers.FirstInvalidModifier | src/Builder.php:191-195 | the index of the first invalid value: all values before it are valid, and the value at it is not |
| Modifiers.Unseen | src/Builder.php:193-207 | the values written from a list are those not already written, each once, in order |
| Modifiers.UnseenAppend | src/Builder.php:191-208 | writing two lists in turn is writing their concatenation |
| Modifiers.UnseenSameSeen | src/Builder.php:197-198 | only the set of values already written matters, not their order or multiplicity |
| Modifiers.RepeatedActiveIgnored | src/Builder.php:197-198 | repeating an active value does not change the group |
| Modifiers.GroupText | src/Builder.php:188-210 | the group is `(?`, then the new active modifiers, then `-` and the new deactive modifiers when there are any, then `)` |
| Modifiers.GroupDistinct | src/Builder.php:188-210 | the group starts with `(?`, ends with `)` and holds no character twice |
| Modifiers.GroupDash | src/Builder.php:200-204 | the group holds `-` exactly when some deactive modifier is not also active |
| Modifiers.GroupLetters | src/Builder.php:188-210 | a flag letter is in the group exactly when it was passed as an active or a deactive modifier |
| Modifiers.InsertModifiersOutcome | src/Builder.php:178-213 | `NoModifiersProvided` exactly when both lists are empty; success exactly when some list is non-empty and every value is valid; success appends the group to the old pattern |
| Modifiers.ActiveCheckedFirst | src/Builder.php:183-195 | an invalid active value is reported before any deactive value is looked at |
| Modifiers.DeactiveCheckedNext | src/Builder.php:183-195 | with all active values valid, the first invalid deactive value is reported |
| Modifiers.InsertModifiersBuilt | src/Builder.php:188-212 | with every value valid, the pattern becomes the old pattern followed by the group |
| Modifiers.ModifierTrimmed | src/Builder.php:195 | an inline modifier is its own trimmed value |
| Modifiers.DeactiveOnlySample | src/Builder.php:178-213 | one deactive modifier alone gives `(?-m)` |
| Modifiers.OnOffSample | src/Builder.php:178-213 | one active and one other deactive modifier give `(?m-n)` |
| Modifiers.OnAndOffSample | src/Builder.php:178-213 | a modifier passed as both active and deactive gives `(?m)`, with no `-` |
| Fragments.Escape | src/Builder.php:560-618 | the escape each class method appends; `Fragments.EscapeExceptIsUpper` and `Fragments.EscapeInjective` state its laws |
| Fragments.EscapeExceptIsUpper | src/Builder.php:560-618 | each class escape is a backslash and a letter, and its `except` form is the upper-case letter |
| Fragments.EscapeInjective | src/Builder.php:560-618 | different escapes or modes never give the same text |
| Fragments.LookSign | src/Builder.php:695-704 | the sign starts with `?`; it holds `<` exactly when `ahead`, `!` exactly when `except`, and `=` otherwise |
| Fragments.LookSignTable | src/Builder.php:695-704 | the four signs `?=`, `?<=`, `?<!` and `?!`; different arguments give different signs |
| Fragments.BackReference | src/Builder.php:681-684 | a backslash and the decimal group number; `Fragments.BackReferenceRoundTrip` is its inverse |
| Fragments.BackReferenceRoundTrip | src/Builder.php:681-684 | a back reference is a backslash followed by text that reads back as the number |
| Fragments.SwitchToLazy | src/Builder.php:750-756 | the quantifier with `?` appended when lazy; `Fragments.QuantifierRoundTrip` reads the laziness back |
| Fragments.Token | src/Builder.php:766-858 | the greedy token of each quantifier method; `Fragments.BracesRoundTrip` and `Fragments.QuantifierRoundTrip` are its inverse |
| Fragments.ExactlyRoundTrip | src/Builder.php:810-815 | the braces of `exactly` read back as `Exactly(n)` |
| Fragments.AtLeastRoundTrip | src/Builder.php:824-829 | the braces of `atLeast` read back as `AtLeast(n)` |
| Fragments.AtMaxRoundTrip | src/Builder.php:838-843 | the braces of `atMax` read back as `AtMax(n)` |
| Fragments.BetweenRoundTrip | src/Builder.php:853-858 | the braces of `between` read back as `Between(min, max)`, including when min > max |
| Fragments.BracesRoundTrip | src/Builder.php:810-858 | every brace quantifier token reads back as its quantifier |
| Fragments.QuantifierRoundTrip | src/Builder.php:750-858 | every quantifier token, lazy or not, reads back as the quantifier together with its laziness |
| Fragments.Render | src/Builder.php:93-96 | the finished literal; `Fragments.RenderRoundTrip` and `Fragments.BuilderLiteralSplits` split it back |
| Fragments.RenderRoundTrip | src/Builder.php:93-96 | a one-character delimiter that does not occur in the flags lets the rendered literal be split back into delimiter, pattern and flags |
| Fragments.BuilderLiteralSplits | src/Builder.php:93-96 | every literal the builder renders with well-formed flags splits back into its three parts |
| RegentException.ValidListAsString | src/Exceptions/RegentException.php:72-77 | `getValidListAsString`: each value in single quotes, joined by `, `; `RegentException.ValidListAppend` states how it grows |
| RegentException.InvalidDelimiterMessage | src/Exceptions/RegentException.php:16-20 | the `invalidDelimiter` message over the delimiter list; `RegentException.PassedValueReadBack` reads the value back |
| RegentException.InvalidModifierMessage | src/Exceptions/RegentException.php:28-32 | the `invalidModifier` message over the modifier list |
| RegentException.InvalidFlagMessage | src/Exceptions/RegentException.php:50-54 | the `invalidFlag` message over the flag list |
| RegentException.Message | src/Exceptions/RegentException.php:16-64 | the message of each error, with the fixed texts of `notPassedModifiers` and `notPassedFlags`; `RegentException.MessageInjective` shows no two errors share one |
| RegentException.ValidListAppend | src/Exceptions/RegentException.php:72-77 | the list text is the values, each in single quotes, joined by `, ` |
| RegentException.PassedValueReadBack | src/Exceptions/RegentException.php:16-54 | an invalid-value message is the fixed prefix for its kind, the passed value and `'.`; the value can be read back from it |
| RegentException.MessageInjective | src/Exceptions/RegentException.php:16-64 | different errors never produce the same message |
| Regent.Config.constructor | src/Builder.php:14 | a fresh process starts with the default delimiter `~` |
| Regent.Config.GetDelimiterDefault | src/Builder.php:123-126 | the default is always an allowed, non-empty delimiter |
| Regent.Config.SetDelimiterDefault | src/Builder.php:134-138 | an accepted value is stored trimmed; a refused value fails with `InvalidDelimiter` and leaves the default unchanged |
| Regent.Builder.CurrentDelimiter | src/Builder.php:158-164 | the delimiter in effect: the instance's own when it has one, and otherwise the current default; always an allowed delimiter |
| Regent.Builder.constructor | src/Builder.php:49-58 | a new builder has the given delimiter, an empty pattern and empty flags |
| Regent.Builder.Init | src/Builder.php:49-73 | without an argument, the builder takes the default delimiter in effect at that moment; with one, it takes the trimmed argument if that is accepted, and otherwise fails with `InvalidDelimiter` |
| Regent.Builder.Clear | src/Builder.php:81-86 | pattern and flags become empty; the delimiter is dropped exactly when `withDelimiter` is set |
| Regent.Builder.GetDelimiter | src/Builder.php:158-164 | returns the delimiter in effect and stores it in the instance from then on |
| Regent.Builder.ToString | src/Builder.php:93-96 | the literal is delimiter, pattern, delimiter, flags, with the delimiter in effect before the call |
| Regent.Builder.InsertModifiers | src/Builder.php:178-213 | the outcome and the new pattern are those of `Modifiers.InsertModifiers`; on an error the pattern is unchanged |
| Regent.Builder.WriteActive | src/Builder.php:188-207 | the pass over the active list yields `(?` and the new active modifiers, or the first invalid active value |
| Regent.Builder.WriteDeactive | src/Builder.php:190-208 | the pass over the deactive list completes the group, or yields the first invalid deactive value |
| Regent.Builder.Flag | src/Builder.php:239-253 | the outcome and the new flags are those of one `FlagStep`; on an error the flags are unchanged |
| Regent.Builder.MassFlags | src/Builder.php:263-274 | the outcome and the new flags are those of `Flags.MassFlags`; changes made before an error are kept |
| Regent.Builder.MassFlagsAssoc | src/Builder.php:283-294 | the outcome and the new flags are those of `Flags.MassFlagsAssoc` |
| Regent.Builder.InlineFlags | src/Builder.php:303-306 | `massFlags` over the characters of the string |
| Regent.Builder.Caseless | src/Builder.php:327-330 | never fails; the flags become those of a `flag("i")` call |
| Regent.Builder.Multiline | src/Builder.php:338-341 | never fails; `flag("m")` |
| Regent.Builder.DotAll | src/Builder.php:349-352 | never fails; `flag("s")` |
| Regent.Builder.Extended | src/Builder.php:360-363 | never fails; `flag("x")` |
| Regent.Builder.Anchored | src/Builder.php:371-374 | never fails; `flag("A")` |
| Regent.Builder.DollarEndOnly | src/Builder.php:382-385 | never fails; `flag("D")` |
| Regent.Builder.ExtraAnalysisOfPattern | src/Builder.php:393-396 | never fails; `flag("S")` |
| Regent.Builder.Ungreedy | src/Builder.php:404-407 | never fails; `flag("U")` |
| Regent.Builder.Extra | src/Builder.php:415-418 | never fails; `flag("X")` |
| Regent.Builder.InfoJChanged | src/Builder.php:426-429 | never fails; `flag("J")` |
| Regent.Builder.Utf8 | src/Builder.php:437-440 | never fails; `flag("u")` |
| Regent.Builder.ClearFlags | src/Builder.php:447-451 | the flags become empty |
| Regent.Builder.Quote | src/Builder.php:464-468 | the string, quoted with the delimiter in effect when asked to; quoting fixes that delimiter in the instance |
| Regent.Builder.Concat | src/Builder.php:476-480 | the pattern becomes the pieces joined together |
| Regent.Builder.AddPattern | src/Builder.php:489-493 | the (optionally quoted) string is appended |
| Regent.Builder.StartsWith | src/Builder.php:502-506 | `^` and the (optionally quoted) string are put in front of the old pattern |
| Regent.Builder.EndsWith | src/Builder.php:515-519 | the (optionally quoted) string and `$` are appended |
| Regent.Builder.Or | src/Builder.php:528-532 | `|` and the (optionally quoted) string are appended |
| Regent.Builder.OpenGroup | src/Builder.php:539-542 | `(` is appended |
| Regent.Builder.CloseGroup | src/Builder.php:549-552 | `)` is appended |
| Regent.Builder.AlphaNum | src/Builder.php:560-563 | `\w` is appended, or `\W` with `except` |
| Regent.Builder.WhiteSpace | src/Builder.php:571-574 | `\s` is appended, or `\S` |
| Regent.Builder.WhiteSpaceVertical | src/Builder.php:582-585 | `\v` is appended, or `\V` |
| Regent.Builder.WhiteSpaceHorizontal | src/Builder.php:593-596 | `\h` is appended, or `\H` |
| Regent.Builder.Digit | src/Builder.php:604-607 | `\d` is appended, or `\D` |
| Regent.Builder.BorderOfWord | src/Builder.php:615-618 | `\b` is appended, or `\B` |
| Regent.Builder.StartOfLine | src/Builder.php:625-628 | `\A` is appended |
| Regent.Builder.EndOfLine | src/Builder.php:635-638 | `\Z` is appended |
| Regent.Builder.EndOfAction | src/Builder.php:645-648 | `\G` is appended |
| Regent.Builder.OpenAnyOf | src/Builder.php:656-663 | `[` is appended, or `[^` with `except` |
| Regent.Builder.CloseAnyOf | src/Builder.php:670-673 | `]` is appended |
| Regent.Builder.BackReference | src/Builder.php:681-684 | a backslash and the group number are appended |
| Regent.Builder.Look | src/Builder.php:695-704 | the lookaround sign and the (optionally quoted) string are appended |
| Regent.Builder.AnyCharacter | src/Builder.php:711-714 | `.` is appended |
| Regent.Builder.Range | src/Builder.php:723-726 | from, `-` and to are appended |
| Regent.Builder.ClearPattern | src/Builder.php:733-737 | the pattern becomes empty |
| Regent.Builder.ZeroOrMore | src/Builder.php:766-771 | the (optionally quoted) string and `*` are appended, with `?` after it when lazy |
| Regent.Builder.OneOrMore | src/Builder.php:781-786 | the string and `+` are appended, with `?` when lazy |
| Regent.Builder.ZeroOrOne | src/Builder.php:796-801 | the string and `?` are appended, with another `?` when lazy |
| Regent.Builder.Exactly | src/Builder.php:810-815 | `{n}` is appended, with `?` when lazy |
| Regent.Builder.AtLeast | src/Builder.php:824-829 | `{n,}` is appended, with `?` when lazy |
| Regent.Builder.AtMax | src/Builder.php:838-843 | `{,n}` is appended, with `?` when lazy |
| Regent.Builder.Between | src/Builder.php:853-858 | `{min,max}` is appended, with `?` when lazy; min > max is not checked |
| Scenarios.DelimiterDefaultScenario | tests/Feature/DelimiterTest.php:5-25 | a builder created before the default changes to `%` keeps `~`; one created after gets `%`; one given `#` keeps `#` |
| Scenarios.ToStringScenario | tests/Feature/CommonTest.php:11-25 | fields set directly are rendered between two default delimiters |
| Scenarios.ClearScenario | tests/Feature/CommonTest.php:27-46 | clear empties pattern and flags, and falls back to the default delimiter only when asked to |
| Scenarios.FlagScenario | tests/Feature/FlagsTest.php:14-41 | for any flag letters: padding is trimmed; repeats and `""` are ignored; a second letter is appended; removing the first letter, `""` or an unused letter leaves the second |

## Left out

- The Laravel facade and service provider (`src/Facades/Regent.php`, `src/Providers/RegentServiceProvider.php`) are not part of this model. Static calls such as `Regent::init()` are modelled as calls on a `Config` object that stands for the class's static state.
- Method chaining is not modelled. PHP methods return `$this`; the model's methods return `Result<()>` or the computed value, and the caller keeps the reference.
- Exceptions are modelled by their kind and message only. The class hierarchy and stack traces are not modelled.
- PHP's loose typing is not modelled. Array elements that are not strings and the `string` coercion of arguments are out of scope; lists are `seq<string>`.
- Integer width is not modelled. PHP `int` is 64-bit; the model renders unbounded integers, and every 64-bit value is among them.
- Regex semantics are not modelled. The builder writes text and never compiles or matches it, so the model proves properties of the text only.
- Byte and multibyte encoding are not modelled. Strings are sequences of characters; `trim`, `mb_strpos` and `mb_str_split` work on characters here.
- Flags.MassFlagsAssoc: the PHP map is modelled as a sequence of (flag, mode) pairs. PHP turns numeric-string keys into integers and merges duplicate keys before the loop runs; the model takes the pairs as they come.
- Php.PregQuote: modelled from the documented escape set (the regex metacharacters, `#`, NUL written as `\000`, and the delimiter's character). PHP's implementation is not part of this model.
- In `insertModifiers`, PHP's `in_array` compares loosely. The model compares strings exactly. The two agree here, because modifiers are letters and never numeric.
- The PHP loop in `insertModifiers` is a single loop over both lists. The model runs it as two consecutive passes, `WriteActive` then `WriteDeactive`, over the same state.
- A proof-level limitation: a few all-concrete examples from the tests could not be proved within the verifier's resource limit. Examples are the seven-letter group `(?imsx-UJ)` and the three-letter `massFlags` batches. They are covered instead by lemmas over arbitrary letters (`OnOffSample`, `AddNewLetters`, `RemoveLeadingLetters`).
