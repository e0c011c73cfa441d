# Whisperfish: emoji engine and observing-model macro

This project models two components of Whisperfish and proves properties of them with Dafny 4.11.
`dafny verify dfyconfig.toml` checks everything.

**The emoji engine** (`qml/js/emoji.js`) replaces each emoji of a text by an image reference. It
decodes UTF-16 into icon names, searches installed versions of an emoji style, chooses a raster
size, and keeps two caches, the second of which stores results obtained through the first.

**The observing-model macro** (`whisperfish-model-macro`) is a small compiler. It splits its
attribute at commas, parses role declarations and property annotations, rewrites and injects
struct fields, and emits methods that these fields call by name.

## How it is modelled

| file | contents |
|---|---|
| `JsStrings.dfy`, `Splitting.dfy`, `Utf16.dfy`, `Wrappers.dfy` | 16-bit strings, number printing, join and split, RFC 2781 encoding and decoding |
| `IconNames.dfy` | the decoder loop and the icon name of a match |
| `IconAmbiguity.dfy` | which texts share their icon name with others |
| `Rewriting.dfy` | leftmost matches of an abstract pattern, replacement, `parseString` |
| `Pictures.dfy` | what the engine puts in place of an emoji, read back from the outside |
| `Styles.dfy` | cache keys, version search, installation status, raster size: everything without caches |
| `StyleCaches.dfy` | each operation on cache values, runs of calls, the joint invariant |
| `Transparency.dfy` | for which sets of styles the caches are never noticed |
| `Staleness.dfy` | which outdated answers survive a change of the world, and until when |
| `Histories.dfy` | where every answer comes from in runs without any discipline |
| `Answers.dfy` | the answers of each call in terms of what is served where, without caches |
| `EmojiEngine.dfy` | the script as a class whose methods update the two caches in place |
| `Tokens.dfy`, `TypePaths.dfy` | token trees, the parse buffer, type paths |
| `AttributeList.dfy`, `RoleGrammar.dfy`, `QtProperties.dfy` | the three grammars, as parse methods and as functions with printers |
| `ObservingModel.dfy`, `ModelMacro.dfy` | the passes on field lists, the struct changed in place, the pipeline |
| `Output.dfy` | the required output written out token by token, as the reference for the passes |
| `PipelineGuarantees.dfy`, `MethodClashes.dfy` | what every expansion guarantees, and when its methods clash |

A JavaScript string is a sequence of 16-bit units. The emoji pattern is an arbitrary function
giving the length of the match at a position. The outside world (base directory, path resolution,
which requests succeed) is a parameter of each operation, so that runs can let it change. A desired
size is a real number, an effective size an integer; an absent `maxRasterSize` is 0 and absent
flags are their defaults. `Style.kind` is the `type` field, where the code treats everything but
`'r'` and `'s'` as a vector style.

In the macro, a panic and a returned error are different outcomes of the parsers, and both end the
expansion. Fields and their types are token sequences, so the names a field calls are read back
from the tokens it was given. Emitted methods are modelled by name, target and kind. What the macro
leaves to Rust's own grammar is a parameter, `Grammar`: which tokens are an expression, and what
stands where a type or generic argument is due, be it a path, a path with parenthesised arguments or
something else. Parsed types keep their spelling, such as `::<` and trailing commas.

Where the code falls short of what one might expect, the exact condition is proved:

- Cache keys are not injective for all integers: a negative size can move its minus sign into the
  style key. `CacheKeyKernel` says exactly when two keys coincide, and `TransparentIffSeparate` what
  that means for runs: with unique keys, every disciplined run over a set of styles, of any sizes and
  in any world, answers as without caches if and only if no style of the set has the key of another
  with a dash appended (one of them with versions to search, or both raster styles). The shipped
  styles meet this (`ShippedStylesAreSeparate`). For other sets only the negative sizes of the style
  with the shorter key have to be avoided (`CachesAreTransparent`).
- The icon name does not separate all texts. Among texts in which every high surrogate is last or
  followed by a low one, `PairedKernel` is the exact kernel, and only a trailing high surrogate is
  lost. A text is taken for another, well-formed one exactly when it is ill-formed and its values are
  scalar (`MistakableExact`). Over all texts, a name belongs to one text alone, but for a high
  surrogate pending at its end, exactly when none of its values lies between 0x2400 and 0x111BFF
  (`UniqueExact`). `FaithfulIffWellFormed` says when decoding is faithful.
- Without a flush, outdated answers stay. A raster path that every search would by now replace, such
  as the empty one of a style that was missing, is answered exactly until a call rewrites its key:
  a flush, or a `noCache` settings request with that key (`StaleRasterExact`, `MissingRasterSticks`).
  The status of a found style, be it updated or removed since, is answered exactly until a flush or
  a `noCache` search for it that succeeds (`StaleStatusExact`, `StaleVectorSettings`). A failed
  version search is never remembered (`FoundOnceInstalled`, `VectorFoundOnceInstalled`). In all runs
  whatsoever, each answer is the one given without caches in some world since the last flush
  (`EveryAnswerIsExplained`).
- A role type that starts with `Option` is always taken for an optional field, and one under a self
  type, such as `<T as A>::B`, panics unless it is wrapped, so a record is recovered from its
  declaration exactly under the condition of `RoleRoundTrip`. `RoleExact` and `PanicExact` say which
  streams declare a role, and which make the parser panic.
- Raw identifiers are stripped of `r#` in role getters, but as READ or WRITE targets and as role
  variants they make the macro panic; `DeclaredRoleExpands` states when expansion succeeds.
- Nothing prevents two emitted methods from having one name; `MethodsDistinct` says, from the role
  and the annotations alone, exactly when that does not happen, and three lemmas show it happening.

## Model

| member | source | states |
|---|---|---|
| JsStrings.RadixRoundTrip | qml/js/emoji.js:407-412 | reading a number printed in base 10 or 16 gives the number back |
| JsStrings.NumeralExact | qml/js/emoji.js:407-412 | what is printed for a number is its one and only numeral: lower-case digits, no leading zero, that value |
| JsStrings.NumberExact | qml/js/emoji.js:215-233 | so for integers in base ten, with a minus sign in front of negative ones |
| Splitting.SplitJoin | qml/js/emoji.js:415 | splitting a joined list at a separator none of its parts contains gives the parts back |
| Splitting.JoinSplit | whisperfish-model-macro/src/lib.rs:8-18 | joining the parts of a split gives the input back, and no part contains the separator |
| Utf16.DecodeEncode | qml/js/emoji.js:398-416 | RFC 2781 decoding, the reference for the loop, undoes encoding on all scalar value sequences |
| Utf16.EncodeDecode | qml/js/emoji.js:398-416 | encoding undoes decoding on every well-formed text, whose values are all scalar |
| Utf16.DeleteKeepsWellFormed | qml/js/emoji.js:345-347 | deleting a non-surrogate unit keeps text well formed |
| IconNames.ToCodePoint | qml/js/emoji.js:398-416 | the loop gives the hexadecimal numerals of the decoded values between dashes, or between another separator if a non-empty one is given; on well-formed text these are the RFC's values |
| IconNames.ValuesRefineRfc | qml/js/emoji.js:404-414 | on well-formed text the loop computes what section 2.2 of RFC 2781 does and leaves no surrogate pending |
| IconNames.FaithfulIffWellFormed | qml/js/emoji.js:404-414 | the loop's values are scalar and encode to the input exactly when the input is well formed |
| IconNames.ValuesConcat | qml/js/emoji.js:404-414 | decoding a concatenation carries exactly the pending surrogate across the cut |
| IconNames.ValuesRange | qml/js/emoji.js:406-412 | on arbitrary units no value exceeds 0x111FFF, and pairs give at least 0x2400 |
| IconNames.PairRange | qml/js/emoji.js:406-408 | both bounds are met; a proper pair gives the RFC's value in 0x10000..0x10FFFF |
| IconNames.ValuesEmpty | qml/js/emoji.js:404-414 | nothing is pushed only for the empty text and a single high surrogate |
| IconNames.IconRoundTrip | qml/js/emoji.js:398-416 | encode, name, split at dashes, parse hexadecimal: every scalar value sequence comes back |
| IconNames.IconNameExact | qml/js/emoji.js:398-416 | a sequence of values has exactly one such name |
| IconNames.NameOfEmoji | qml/js/emoji.js:343-349 | the file name of an emoji is that of its code points, without U+FE0F unless U+200D is among them |
| IconNames.DeleteIsJoin | qml/js/emoji.js:346 | deleting a unit is splitting at it and joining the parts |
| IconNames.IconDeterminesValues | qml/js/emoji.js:398-416 | names are equal iff the decoded values are; on well-formed texts iff the texts are |
| IconNames.IconKernel | qml/js/emoji.js:343-349 | two well-formed matches share an icon iff both lack U+200D and agree after deleting U+FE0F, or contain it and are equal |
| IconNames.PairedKernel | qml/js/emoji.js:343-349 | the same for all texts in which every high surrogate is last or before a low one, up to a trailing high surrogate |
| IconNames.PairedIcons | qml/js/emoji.js:404-415 | on such texts names agree iff the texts do but for a trailing high surrogate |
| IconAmbiguities.MistakableExact | qml/js/emoji.js:404-415 | a text shares its name with another, well-formed one iff it is ill-formed and its values are scalar |
| IconAmbiguities.UnpairedCollides | qml/js/emoji.js:404-415 | an unpaired high surrogate anywhere in well-formed text is joined with its successor, and the whole is mistakable iff their value is scalar |
| IconAmbiguities.UniqueExact | qml/js/emoji.js:404-415 | over all texts a name has one text, up to a pending high surrogate, iff no value lies between 0x2400 and 0x111BFF |
| IconNames.TruncatedPairIsLost | qml/js/emoji.js:404-415 | without well-formedness the kernel fails: a trailing high surrogate leaves no trace |
| IconNames.EmptyIcon | qml/js/emoji.js:343-349 | for all texts, when the icon is empty; for well-formed ones iff they consist of U+FE0F only |
| Rewriting.MatchesAreLeftmost | qml/js/emoji.js:331-333 | the scan's result is the one and only list of leftmost disjoint matches |
| Rewriting.SpliceLength | qml/js/emoji.js:331-333 | replaced text plus matched length is input length plus output length |
| Rewriting.SpliceIdentity | qml/js/emoji.js:331-333 | replacing matches by themselves changes nothing |
| Rewriting.SpliceAround | qml/js/emoji.js:331-333 | each output stands between the rewriting of what precedes and of what follows its match |
| Rewriting.ParseString | qml/js/emoji.js:366-395 | the loop over matches yields one count per match, the length without matches, and the text with each match replaced by what `EmitExact` and `EachMatch` say |
| Rewriting.Conservation | qml/js/emoji.js:366-395 | emojiCount is the number of matches, plainCount plus matched length is the input length, text length is plainCount plus all outputs |
| Rewriting.SystemFontKeepsText | qml/js/emoji.js:366-395 | with the system font and plain text kept the text is unchanged and the counts are those of any options |
| Rewriting.EachMatch | qml/js/emoji.js:366-395 | the output for any one match stands between the rewritten text before and behind it |
| Rewriting.NoMatch | qml/js/emoji.js:366-395 | a text without emoji comes back unchanged |
| Pictures.PictureExact | qml/js/emoji.js:376-384 | the image tag is the one text whose parts between quotes are the given source and twice the printed size, in their places |
| Pictures.EmitExact | qml/js/emoji.js:368-392 | an emoji with given code points becomes the file `stylePath/name.ext`, in a tag or alone, iff a style is available and it is more than U+FE0F; otherwise it is kept or dropped |
| Pictures.OneEmojiKernel | qml/js/emoji.js:366-395 | for one-emoji texts, tags and bare files alike are shared by exactly the variants of one emoji |
| Rewriting.SingleUrlKernel | qml/js/emoji.js:422-424 | for one-emoji texts the URL is shared by exactly the variants with the same icon |
| Styles.CacheKeyKernel | qml/js/emoji.js:215 | exactly when two cache keys coincide, for all style keys and all sizes or null |
| Styles.CacheKeyInjective | qml/js/emoji.js:215 | for non-negative sizes and null the key determines style key and size |
| Styles.StrayKeyIsNoCacheKey | qml/js/emoji.js:222-225 | the entry written under the unset variable is never looked up |
| Styles.KeysIdentify | qml/js/emoji.js:215 | among styles with unique keys, the key of an admissible size determines style and size |
| Styles.ShippedStylesAreSeparate | qml/js/emoji.js:71-136 | with the shipped style keys no two styles can be confused, so sizes of either sign are admissible |
| Styles.RequestedDirectories | qml/js/emoji.js:227-235 | split at slashes, the requested path is the base directory, `sailor-emoji`, the style key, the version and, for raster styles only, the printed size |
| Styles.PlainDirectories | qml/js/emoji.js:66 | for keys and versions without slashes these are the documented directories |
| Styles.FileUrlPath | qml/js/emoji.js:230-237 | if the requested path is resolved to a file URL, it is stored as the plain path through these directories |
| Styles.OtherUrlPath | qml/js/emoji.js:237 | any other resolved path is stored as it is |
| Styles.PresentIsServed | qml/js/emoji.js:237-242 | a version is present iff the file `2764` with the style's extension is served in its directories |
| Styles.LookupIsEarliest | qml/js/emoji.js:230-247 | the search returns the earliest present version, up to date iff it is the first |
| Styles.LookupFails | qml/js/emoji.js:222-254 | nothing is found iff the style is the system style or no version is present |
| Styles.RasterInstallCode | qml/js/emoji.js:181-210 | for a raster style -1 iff no listed size is found, else 1 if some listed size is missing plus 2 if some is outdated |
| Styles.OtherInstallCode | qml/js/emoji.js:181-210 | for a vector style the code of its one search, for the system style 0 |
| Styles.RasterChoiceOptimal | qml/js/emoji.js:264-297 | for decreasing positive sizes the source is the least that needs no upscaling of the wish capped by the largest |
| Styles.RasterChoiceMonotone | qml/js/emoji.js:264-297 | source and effective size grow with the desired size |
| Styles.FallbackIsIdle | qml/js/emoji.js:289-292 | fallback and final clamp never change the choice, for any list without negative sizes |
| Styles.RasterSettings | qml/js/emoji.js:256-313 | a raster style's settings name the path of that least size, the capped effective size, and the system font iff the path is empty |
| Styles.OtherSettings | qml/js/emoji.js:256-313 | a vector style's settings name the version found, the system style's none, in the desired size |
| Styles.EffectiveSizeExact | qml/js/emoji.js:258-268 | the desired size is a raster style's positive maximum, else the integer nearest to the wish or to 1.15 times it, halves upwards |
| StyleCaches.StylePathFresh | qml/js/emoji.js:212-254 | getStylePath answers as without cache if the cache agrees or is bypassed, and keeps it agreeing |
| StyleCaches.StylePathsFresh | qml/js/emoji.js:187-194 | so does the loop of isInstalled over the expected sizes |
| StyleCaches.SettingsFresh | qml/js/emoji.js:256-313 | so does getParseSettings for both caches together |
| StyleCaches.StepFresh | qml/js/emoji.js:169-313 | every call answers freshly under the joint invariant or when it ignores the caches; the invariant is kept, and restored by flushing |
| StyleCaches.CachesAreTransparent | qml/js/emoji.js:159-313 | in every run in which changes of the world are followed by a flush before cached calls, all answers are those given without caches |
| StyleCaches.RunsFromStartAreFresh | qml/js/emoji.js:159-313 | so from the script's initial, empty caches on |
| Histories.StepExplained | qml/js/emoji.js:169-440 | if every cache entry is what a search found in some world since the last flush, so is every answer, and the entries stay so |
| Histories.EveryAnswerIsExplained | qml/js/emoji.js:159-440 | in every run, disciplined or not, each answer is given without caches by a world since the last flush, by the current one if the call ignores the caches; installation codes combine such searches |
| Histories.ExplainedIsFresh | qml/js/emoji.js:159-313 | with the discipline this alone makes all answers fresh |
| Answers.InstalledAnswer | qml/js/emoji.js:181-210 | what isInstalled answers, over all listed sizes |
| Answers.SettingsAnswer | qml/js/emoji.js:256-313 | what getParseSettings answers, from the wish to directory and size |
| Answers.ParseAnswer | qml/js/emoji.js:427-440 | in the answer to parse every emoji of any text stands replaced by its output, under the settings and the extension of the style |
| Answers.ParsedPicture | qml/js/emoji.js:66-440 | an emoji in a found style becomes `base/sailor-emoji/key/version/[size/]codepoints.ext`, alone or in a tag of the right size |
| StyleCaches.SystemStyleStrays | qml/js/emoji.js:222-225 | a search for the system style finds nothing and writes only the stray entry |
| Transparency.TransparentIffSeparate | qml/js/emoji.js:159-313 | over styles with unique keys, all disciplined runs of any sizes in any world answer as without caches iff no two styles can be confused |
| Transparency.ConfusableIsNoticed | qml/js/emoji.js:215-244 | for every confusable pair there is a disciplined run of two cached calls that the caches spoil |
| Transparency.SearchConfused | qml/js/emoji.js:215-244 | two cached searches with one key: the second style is answered with the path of the first |
| Transparency.RastersConfused | qml/js/emoji.js:273-296 | two settings requests with one key: even without versions the second gets the first one's effective size |
| Staleness.RasterEntryPersists | qml/js/emoji.js:273-296 | a raster entry survives all calls but a flush and a noCache settings request with that very key |
| Staleness.StaleRasterExact | qml/js/emoji.js:256-302 | a cached raster path that all searches would by now replace is still answered iff no call has rewritten its key |
| Staleness.MissingRasterSticks | qml/js/emoji.js:273-302 | a raster style resolved to nothing stays on the system font until a call rewrites its key, and once it can be found, only until then |
| Staleness.StaleStatusExact | qml/js/emoji.js:212-254 | a found status that all searches would by now contradict is still answered iff there was no flush and no successful noCache search for its key |
| Staleness.StaleVectorSettings | qml/js/emoji.js:298-302 | so for the path in the settings of an updated or removed vector style |
| Staleness.StepKeepsAbsent | qml/js/emoji.js:218-253 | a style that cannot be found leaves no entry, whatever is called |
| Staleness.FoundOnceInstalled | qml/js/emoji.js:218-253 | a style never found during a run is found as soon as it is installed, without a flush |
| Staleness.VectorFoundOnceInstalled | qml/js/emoji.js:298-440 | so settings and rewriting with a vector style are up to date as soon as it is installed |
| StyleCaches.UnavailableStyleKeepsText | qml/js/emoji.js:418-440 | with an unavailable style parseAsMarkup keeps the text, with the counts of any other style |
| StyleCaches.UnavailableStyleKeepsTextCached | qml/js/emoji.js:418-440 | so with any caches that agree with the world, and every match is still counted |
| EmojiEngines.EmojiEngine.GetStylePath | qml/js/emoji.js:212-254 | the version loop gives the answer and the caches of the modelled operation |
| EmojiEngines.EmojiEngine.IsInstalled | qml/js/emoji.js:181-210 | the counting loop gives the two-bit code of all expected sizes and the threaded caches |
| EmojiEngines.ClassifyIsCode | qml/js/emoji.js:196-209 | counting missing sizes and noting outdated ones amounts to -1 for nothing found, else 1 for missing plus 2 for outdated |
| EmojiEngines.EmojiEngine.GetParseSettings | qml/js/emoji.js:256-313 | settings and both caches are those of the modelled operation |
| EmojiEngines.EmojiEngine.SelectSource | qml/js/emoji.js:284-287 | the loop finds the last listed size not below the wanted one |
| EmojiEngines.EmojiEngine.Parse | qml/js/emoji.js:427-440 | null for what is no style, else the rewritten text under the settings found |
| EmojiEngines.EmojiEngine.Play | qml/js/emoji.js:159-440 | a whole session on the script's state answers as the modelled run and leaves its caches; a disciplined one answers as without caches |
| AttributeLists.MetaExact | whisperfish-model-macro/src/observing_model.rs:110 | tokens parse to a meta iff it is valid, with an expression as the value of a `name = value`, and prints to them |
| AttributeLists.OneWordMeta | whisperfish-model-macro/src/observing_model.rs:110 | a meta's path words are identifiers and `super`, `self`, `Self`, `crate` |
| AttributeLists.ParseUntil | whisperfish-model-macro/src/lib.rs:8-18 | takes the tokens up to the first comma and leaves the rest |
| AttributeLists.ParseAttribute | whisperfish-model-macro/src/observing_model.rs:104-121 | values and commas are pushed in alternation, and success consumes all input |
| AttributeLists.SplitExact | whisperfish-model-macro/src/observing_model.rs:104-121 | a list is parsed iff it alternates, is free of top-level commas, and prints with its trailing comma to exactly the input |
| TypePaths.TypeExact | whisperfish-model-macro/src/observing_model.rs:24 | a type with a rest is parsed iff it prints in front of the rest to exactly the input, in any spelling and nested to any depth, and fits there |
| TypePaths.WordOpensArgs | whisperfish-model-macro/src/observing_model.rs:24 | generic arguments follow all path words but `super`, `self` and `crate`, with or without `::` |
| RoleGrammar.ParsePropertyList | whisperfish-model-macro/src/observing_model.rs:55-67 | the loop parses name and role pairs, with the remaining tokens left in the buffer |
| RoleGrammar.ParseRoleProperties | whisperfish-model-macro/src/observing_model.rs:19-77 | the parser accepts, rejects or panics as the grammar says |
| RoleGrammar.UnwrapExact | whisperfish-model-macro/src/observing_model.rs:25-46 | an `Option` means its first argument, optionally, any other path means itself, and everything else panics |
| RoleGrammar.RoleExact | whisperfish-model-macro/src/observing_model.rs:19-77 | a stream declares a role iff it is field, colon, a type in any spelling that means the role's, NOTIFY, signal and a printing of the properties |
| RoleGrammar.PanicExact | whisperfish-model-macro/src/observing_model.rs:24-50 | the parser panics iff a readable type is under a self type or an `Option` of no path type, or another word than NOTIFY stands behind it |
| RoleGrammar.BadTypePanics | whisperfish-model-macro/src/observing_model.rs:24-46 | a type under a self type, or an `Option` of no path type, panics whatever follows |
| RoleGrammar.PropertiesExact | whisperfish-model-macro/src/observing_model.rs:55-67 | a property list is accepted iff it is a printing of the result with or without trailing comma |
| RoleGrammar.RoleRoundTrip | whisperfish-model-macro/src/observing_model.rs:19-77 | a printed declaration parses to its record iff the type is wrapped, or is a path without self type that does not itself start with `Option` |
| QtProperties.ParseQtProperty | whisperfish-model-macro/src/observing_model.rs:142-179 | the parser loop computes the entries' property, or fails |
| QtProperties.EntriesParse | whisperfish-model-macro/src/observing_model.rs:149-170 | any list of entries is accepted in any order, and the last entry of a key wins |
| QtProperties.EntriesExact | whisperfish-model-macro/src/observing_model.rs:142-179 | an annotation is accepted with a result iff it is a printing of entries that come to it |
| QtProperties.QtRoundTrip | whisperfish-model-macro/src/observing_model.rs:142-179 | a printed annotation parses to its property |
| QtProperties.WrappersAgree | whisperfish-model-macro/src/observing_model.rs:182-250 | a property's attributes name its wrappers in order: to read the one that calls the READ method with the property's type, to write the one that calls the WRITE method |
| ObservingModels.ExpandableExact | whisperfish-model-macro/src/observing_model.rs:142-276 | an annotation expands iff it is a list of printed entries and the last READ and WRITE names are not raw |
| ObservingModels.LiteralNamesAgree | whisperfish-model-macro/src/observing_model.rs:253-285 | over a whole struct the rewritten fields read and write through exactly the emitted wrappers, in order |
| ObservingModels.LiteralPassShape | whisperfish-model-macro/src/observing_model.rs:256-277 | field count, order and names are kept, exactly the annotated fields change, none stays annotated |
| ObservingModels.LiteralPassIdempotent | whisperfish-model-macro/src/observing_model.rs:253-285 | a second run changes no field and emits no method |
| ObservingModels.NamedExact | whisperfish-model-macro/src/observing_model.rs:123-131 | an attribute has a name iff its path is that one word, with nothing in front |
| ObservingModels.SharedGetter | whisperfish-model-macro/src/observing_model.rs:313-320 | two properties share a getter iff their names agree after removing `r#` |
| Outputs.AnnotationExpands | whisperfish-model-macro/src/observing_model.rs:182-273 | an annotated field becomes `name: qt_property!(type; ...)` with the last READ and WRITE names underscored and ALIAS and NOTIFY passed on, and is worth wrappers of its type around those methods |
| Outputs.RoleMembersExact | whisperfish-model-macro/src/observing_model.rs:301-369 | each role property gets, in order, a field that reads its getter and notifies the role's signal, and a getter with the role's field, type, variant and optionality |
| Outputs.BaseFieldsAre | whisperfish-model-macro/src/observing_model.rs:292-439 | the base fields, token by token, and the four methods every model gets |
| ObservingModels.RoleNamesAgree | whisperfish-model-macro/src/observing_model.rs:301-369 | the getters read by injected role fields are those generated, in order |
| ObservingModels.GettersSucceed | whisperfish-model-macro/src/observing_model.rs:339-348 | getters are generated iff no role variant is a raw identifier |
| ModelMacros.GetFindsFirst | whisperfish-model-macro/src/observing_model.rs:80-93 | for all segment lists: the first segment of the name is found iff it and all before it can be read, none iff all can be read and none has the name, else a panic |
| ModelMacros.ExtractFieldAttr | whisperfish-model-macro/src/observing_model.rs:123-132 | the first attribute of the name is removed, everything else kept |
| ModelMacros.ItemStruct.InjectRoleFields | whisperfish-model-macro/src/observing_model.rs:301-326 | appends one field per role property, or panics |
| ModelMacros.ItemStruct.InjectStructFields | whisperfish-model-macro/src/observing_model.rs:287-290 | base fields first, then role fields |
| ModelMacros.ItemStruct.GenerateMethods | whisperfish-model-macro/src/observing_model.rs:328-439 | the getters `RoleMembersExact` writes out, with field, role type, variant and optionality, then the methods every model gets, or a panic |
| ModelMacros.ItemStruct.InjectLiteralProperties | whisperfish-model-macro/src/observing_model.rs:253-285 | the loop over fields rewrites in place what the literal pass prescribes |
| ModelMacros.ObservingModel | whisperfish-model-macro/src/lib.rs:21-40 | the pipeline on a struct, with its compile errors and panics |
| PipelineGuarantees.LiteralPassOfInjected | whisperfish-model-macro/src/lib.rs:31-33 | the final pass leaves injected fields alone and depends on the struct's own fields only |
| PipelineGuarantees.PipelineShape | whisperfish-model-macro/src/lib.rs:31-33 | field names are the original ones, the two base fields, then one per role property |
| PipelineGuarantees.PipelineNamesAgree | whisperfish-model-macro/src/lib.rs:31-39 | over the whole output the names read and written through are those of the readers and writers defined, in order |
| PipelineGuarantees.ExpansionExact | whisperfish-model-macro/src/lib.rs:31-39 | every expansion is, field by field, method by method and wrapper by wrapper, the output written out for its role and struct |
| PipelineGuarantees.CompileErrorExact | whisperfish-model-macro/src/lib.rs:21-29 | refused with a compile error iff the struct has no named fields or the attribute is no printing of a valid list |
| PipelineGuarantees.DeclaredRoleExpands | whisperfish-model-macro/src/lib.rs:21-40 | any attribute whose first `properties_from_role` segment declares a role, in any spelling, expands to the output written out for that role, with the exact condition for success on tokens |
| PipelineGuarantees.BadDeclarationPanics | whisperfish-model-macro/src/lib.rs:21-40 | if that segment declares no role, the expansion panics |
| PipelineGuarantees.UndeclaredExpands | whisperfish-model-macro/src/lib.rs:21-40 | without such a segment the base fields and methods are added iff all segments can be read and all annotations expanded |
| MethodClashes.MethodsDistinct | whisperfish-model-macro/src/observing_model.rs:182-369 | with or without a role, no two emitted methods have the same name iff property names differ in more than `r#`, no READ or WRITE name occurs twice, and none equals `get_role_` and a property |
| MethodClashes.RawMarkerClashes | whisperfish-model-macro/src/observing_model.rs:339-348 | properties `kind` and `r#kind` give two getters of one name |
| MethodClashes.SharedSetterClashes | whisperfish-model-macro/src/observing_model.rs:226-246 | one setter named in two annotations gives two wrappers of one name |
| MethodClashes.GetterTakenClashes | whisperfish-model-macro/src/observing_model.rs:182-369 | a setter called like a getter without its underscore gives a wrapper with the getter's name |

## Left out

- The emoji pattern's contents: a data table; the pattern is any function of text and position.
- `Qt.resolvedUrl`, `XMLHttpRequest`, console output and `pathErrorShown`: input and output; path resolution and success of a request are parameters.
- Floating-point rounding of `1.15*size`, NaN sizes, fractional `maxRasterSize`, and the exponent form in which JavaScript prints integers from 10^21 on: sizes are reals, then integers printed in full.
- Conversion of non-string texts by `String(...)`, and a null `style`, on which the original throws.
- Rust's grammar of expressions, of types other than plain path types and of lifetimes, constants and associated types as generic arguments: any grammar, as a parameter.
- Spans, token spacing (`::` is one token), invisible groups, and the wording of error messages.
- Bodies of the emitted Rust methods: they depend on actix, qmetaobject and store code that is not part of this model.
- Parsing of the struct itself: the macro's struct argument is given as named fields or as another kind of struct.
- `transferplugin`, build scripts, country tables, translations, stores, workers and GUI modules: no part of the two components.
