# SsRefactor property and command refactorings, modelled in Dafny

SsRefactor is a Visual Studio extension that rewrites C# MVVM code in the
editor selection. This project models its text-processing core.

- **Property recogniser.** `PropertyRegexHelper` strips comments and cuts a
  selection into property blocks. It classifies a block as an
  `[ObservableProperty]` field, an auto-property, or one of five kinds of
  full property, and returns a `PropertyInfo` record. It also extracts a
  field's initial value and the names a setter notifies.
- **Emitters.** `ConvertToAutoProperty` turns a recognised property into a
  one-line auto-property. `ConvertToFullProperty` turns it into a six-line
  full property.
- **Full-property batch conversion.** The loop of the full-property menu
  command converts every block of a selection and joins the results with a
  blank line.
- **Observable conversion.** The `[ObservableProperty]` command runs two
  patterns of its own over the selection. It emits one `[ObservableProperty]`
  field per match.
- **RelayCommand conversion.** `IsRelayCommandCandidate` recognises a
  command creation. `TryConvertToRelayCommand` applies four successive
  regular-expression substitutions and reports no result when the text is
  unchanged.

Every regular expression is modelled as a dedicated matcher over
`seq<char>`, next to a declarative predicate saying what a match is. The
deterministic patterns are token lists (module `PropertyPatterns`). One
generic matcher runs them, and module `Tokens` proves once that it finds
exactly the parse the predicate describes. A leftmost match is the first
start position at which the predicate holds. Lazy and backtracking patterns
are explicit searches that try the alternatives in the engine's priority
order. `Regex.Replace` is a left-to-right scan that resumes after each
rewritten match (`ConvertToRelayCommandCommand.ReplaceFrom`).

`Environment.NewLine` and `StringBuilder.AppendLine` use the constant
`"\r\n"`. Whitespace (`\s`, `char.IsWhiteSpace`) is the six ASCII whitespace
characters. `\w` is ASCII letters, digits and `_`.

`PropertyInfo` is a datatype whose nullable fields are `Option`s. A
successful match is `IsSuccess`; the failure record is `NoMatch`.

Two points where the code and its own description part ways; the model
follows the code:

- A field declaration followed by a property whose setter calls
  `OnPropertyChanged()` is caught by the backing-field rule, which comes
  first. It is therefore classified as `FullWithBacking`, not
  `NotifyFullWithBacking`. `AgeExample.AgeFullBlock` proves this for the
  `_age`/`Age` block, and `PropertyRegexHelper.NotifyNeedsNoBacking`
  states that the Notify kind requires the backing-field rule to fail.
- The expression-bodied rule is tagged `FullWithBacking`, not a kind of its
  own.

## Model

| member | source | states |
|---|---|---|
| `Text.Trim` | SsRefactor/PropertyRegexHelper.cs:36 | `string.Trim`: the result is a slice of the input with only whitespace cut on either side, and it starts and ends with a non-whitespace character |
| `Text.TrimTrimmed` | SsRefactor/PropertyRegexHelper.cs:36 | trimming an already trimmed text changes nothing |
| `Text.FieldNameFor` | SsRefactor/ConvertToFullPropertyCommand.cs:15 | the synthesised field name is `_`, then the lower-cased first letter, then the rest of the property name |
| `Text.Capitalize` | SsRefactor/PropertyRegexHelper.cs:60 | the property name is the field's name with only its first character upper-cased |
| `Text.UpperLowerInverse` | SsRefactor/PropertyRegexHelper.cs:60 | lower-casing undoes upper-casing on a lower-case ASCII letter |
| `Text.FieldNameForCapitalize` | SsRefactor/ConvertToFullPropertyCommand.cs:15 | when the captured name does not start with an upper-case letter, the field synthesised from the name an Observable match gives back is `_` followed by the captured name |
| `Text.CapitalizeFieldNameFor` | SsRefactor/PropertyRegexHelper.cs:60 | when the property name does not start with a lower-case letter, capitalising the synthesised field name, without its `_`, gives back the property name |
| `Text.Split` | SsRefactor/ConvertToFullPropertyMenuCommand.cs:102 | `Split('\n')` yields at least one part, and no part contains the separator |
| `Text.JoinSplit` | SsRefactor/ConvertToFullPropertyMenuCommand.cs:102 | joining the parts of a split with the separator gives back the text |
| `Text.SplitAppendLines` | SsRefactor/ConvertToFullPropertyMenuCommand.cs:93-99 | the text of lines appended with `AppendLine` splits at line feeds into those lines, each ending in `\r`, and an empty last part |
| `Text.TrimEndNewlines` | SsRefactor/ConvertToFullPropertyMenuCommand.cs:100 | `TrimEnd('\r','\n')`: the result is a prefix of the input, does not end in `\r` or `\n`, and only such characters were cut |
| `Text.TrimEndLineBreak` | SsRefactor/ConvertToFullPropertyMenuCommand.cs:100 | trimming removes exactly the final `AppendLine` line break |
| `Text.IndentAfterNewlines` | SsRefactor/ConvertToFullPropertyMenuCommand.cs:102 | `Replace("\n", "\n" + indent)` with an empty indent leaves the text unchanged, and otherwise never shortens it |
| `Tokens.MatchAtComplete` | SsRefactor/PropertyRegexHelper.cs:55 | a token pattern matches at a position exactly with the parse the declarative predicate describes, so the captures are the engine's |
| `Tokens.FindLeftmost` | SsRefactor/PropertyRegexHelper.cs:55 | `Regex.Match` succeeds whenever the pattern occurs, at the leftmost position at which it occurs, with that occurrence's captures |
| `Tokens.FindIffOccurs` | SsRefactor/PropertyRegexHelper.cs:55 | `Regex.Match` succeeds exactly when the pattern occurs somewhere in the text |
| `Tokens.MatchSpan` | SsRefactor/PropertyRegexHelper.cs:57 | a captured `[\w...]+` group is non-empty and holds only characters of its class |
| `Tokens.OneOfUnique` | SsRefactor/PropertyRegexHelper.cs:65 | the access-modifier alternation matches exactly the modifier written, because no modifier is a prefix of another |
| `PropertyPatterns.ObservableFound` | SsRefactor/PropertyRegexHelper.cs:55 | the Observable pattern is found exactly when it occurs |
| `PropertyPatterns.AutoFound` | SsRefactor/PropertyRegexHelper.cs:65 | the auto-property pattern is found exactly when it occurs |
| `PropertyPatterns.ExpressionBodiedFound` | SsRefactor/PropertyRegexHelper.cs:105 | the expression-bodied pattern is found exactly when it occurs |
| `PropertyPatterns.NotifierFound` | SsRefactor/PropertyRegexHelper.cs:117-132 | the Prism and Notify patterns are found exactly when they occur |
| `PropertyPatterns.VisibilitiesPrefixFree` | SsRefactor/PropertyRegexHelper.cs:65 | no access modifier of the alternation is a prefix of another |
| `PropertyRegexHelper.RemoveComments` | SsRefactor/PropertyRegexHelper.cs:20-27 | the comment-free text: line comments are removed first and block comments second, no `//` and no closed block comment is left, and the text never grows |
| `PropertyRegexHelper.NoCommentLeft` | SsRefactor/PropertyRegexHelper.cs:20-27 | for every text, the result of the two passes holds no `//` and no block-comment closer after an opener |
| `PropertyRegexHelper.BlockPassClean` | SsRefactor/PropertyRegexHelper.cs:25 | on text without `//`, as the line pass leaves it, the block pass leaves no comment: removing one cannot join the text around it into a new one |
| `PropertyRegexHelper.LineCommentRemoved` | SsRefactor/PropertyRegexHelper.cs:23 | the line pass removes a `//` comment up to its line feed, keeping the text before it and the line feed |
| `PropertyRegexHelper.BlockCommentRemoved` | SsRefactor/PropertyRegexHelper.cs:25 | the block pass removes a closed `/*...*/` comment whole, up to its first closer, and keeps the text before it |
| `PropertyRegexHelper.BlockPassDoesNotRescan` | SsRefactor/PropertyRegexHelper.cs:25 | the block pass on its own is one left-to-right replacement: removing `/**/` from `//**/*x*/` leaves the new comment `/*x*/`; inside RemoveComments the line pass removes this input first |
| `PropertyRegexHelper.SameCodeSameClass` | SsRefactor/PropertyRegexHelper.cs:50-83 | two texts with the same comment-free form get the same kind and the same record, the initial value apart |
| `PropertyRegexHelper.LineCommentInsensitive` | SsRefactor/PropertyRegexHelper.cs:20-27 | a `//` comment at the end of a line, such as after `get;`, changes neither the kind nor any captured name |
| `PropertyRegexHelper.StripLineNoComment` | SsRefactor/PropertyRegexHelper.cs:23 | no `//` is left once line comments are removed |
| `PropertyRegexHelper.CommentFreeUnchanged` | SsRefactor/PropertyRegexHelper.cs:20-27 | text with neither `//` nor `/*` is returned unchanged |
| `PropertyRegexHelper.SegmentsCover` | SsRefactor/PropertyRegexHelper.cs:33 | the pieces and separators of the split concatenate back to the text |
| `PropertyRegexHelper.SplitCapturesBlank` | SsRefactor/PropertyRegexHelper.cs:33 | every captured separator that `Regex.Split` returns is whitespace only |
| `PropertyRegexHelper.ExtractPropertyBlocks` | SsRefactor/PropertyRegexHelper.cs:29-42 | the blocks are the trimmed non-blank split pieces, in order, and each is non-empty and trimmed |
| `PropertyRegexHelper.BlocksInOrder` | SsRefactor/PropertyRegexHelper.cs:33-40 | the blocks are the kept pieces of the text between separators, in source order, with the separators dropped |
| `PropertyRegexHelper.SingleBlock` | SsRefactor/PropertyRegexHelper.cs:33-40 | a non-blank text with no run of two or more line breaks yields exactly one block, its trimmed text |
| `PropertyRegexHelper.GetLeadingWhitespace` | SsRefactor/PropertyRegexHelper.cs:44-48 | the result is the longest whitespace prefix of the text |
| `PropertyRegexHelper.TrimmedHasNoIndent` | SsRefactor/PropertyRegexHelper.cs:44-48 | a trimmed block has no leading whitespace |
| `PropertyRegexHelper.ExtractInitialValueFromField` | SsRefactor/PropertyRegexHelper.cs:157-165 | null exactly when no position holds `field = ... ;`; otherwise the trimmed value of the leftmost such assignment, without `;` |
| `PropertyRegexHelper.InitialValueAt` | SsRefactor/PropertyRegexHelper.cs:159-162 | an assignment at a position yields the trimmed text between the blanks after `=` and the first `;` |
| `PropertyRegexHelper.FirstAssignment` | SsRefactor/PropertyRegexHelper.cs:159 | the leftmost position at which the assignment pattern matches, and none before it |
| `PropertyRegexHelper.AssignmentFound` | SsRefactor/PropertyRegexHelper.cs:159 | every declarative occurrence of the assignment pattern is found by the scanner |
| `PropertyRegexHelper.InitialValueExample` | SsRefactor/PropertyRegexHelper.cs:157-165 | the initial value of `_age` in `private int _age = 5;` is `5` |
| `PropertyRegexHelper.InitialValueFound` | SsRefactor/PropertyRegexHelper.cs:159 | an occurrence of `field = ... ;` always yields a value |
| `PropertyRegexHelper.NoFieldNoValue` | SsRefactor/PropertyRegexHelper.cs:159-164 | text that does not mention the field yields null |
| `PropertyRegexHelper.NotifiedNames` | SsRefactor/PropertyRegexHelper.cs:172-175 | every name captured from `OnPropertyChanged(nameof(X))` or `OnPropertyChanged("X")` is a non-empty word, and there are no more names than characters scanned |
| `PropertyRegexHelper.NotifyCallIff` | SsRefactor/PropertyRegexHelper.cs:172 | a call is recognised at a position exactly when one of the two call patterns parses there |
| `PropertyRegexHelper.FirstCall` | SsRefactor/PropertyRegexHelper.cs:173 | the leftmost position at which a call is recognised, and none before it |
| `PropertyRegexHelper.NamesNext` | SsRefactor/PropertyRegexHelper.cs:173-175 | the first name is that of the leftmost call, and the scan resumes where that call ends |
| `PropertyRegexHelper.NamesByFirstCall` | SsRefactor/PropertyRegexHelper.cs:173-175 | no names when no call follows; otherwise the leftmost call's name followed by the names after its end, so the names come in order of appearance |
| `PropertyRegexHelper.KeepNotified` | SsRefactor/PropertyRegexHelper.cs:176-177 | every non-empty name other than the current property is kept as often as it occurs, and nothing else is kept |
| `PropertyRegexHelper.ExtractDependentProperties` | SsRefactor/PropertyRegexHelper.cs:168-180 | the loop returns the notified names, in the order of the calls (NamesByFirstCall), with the empty ones and the current property dropped |
| `PropertyRegexHelper.PlainThenNameofCall` | SsRefactor/PropertyRegexHelper.cs:168-180 | a plain `OnPropertyChanged()` adds nothing; a following `OnPropertyChanged(nameof(D))` makes `D` the one dependent |
| `PropertyRegexHelper.DisplayNameDependent` | SsRefactor/PropertyRegexHelper.cs:168-180 | the setter `Name = value; OnPropertyChanged(); OnPropertyChanged(nameof(DisplayName));` has the one dependent `DisplayName` |
| `PropertyRegexHelper.DependentsKeepDuplicates` | SsRefactor/PropertyRegexHelper.cs:176-177 | every other name is kept as many times as it is notified |
| `PropertyRegexHelper.NoCallNoDependents` | SsRefactor/PropertyRegexHelper.cs:172-179 | a setter without `OnPropertyChanged` has no dependent properties |
| `PropertyRegexHelper.ObservableRule` | SsRefactor/PropertyRegexHelper.cs:55-62 | matches exactly when the Observable pattern occurs; the field is `_` + the name and the property is the name capitalised |
| `PropertyRegexHelper.AutoRule` | SsRefactor/PropertyRegexHelper.cs:65-71 | matches exactly when the auto-property pattern occurs; no field, no dependents, no initial value |
| `PropertyRegexHelper.BackingRule` | SsRefactor/PropertyRegexHelper.cs:90-102 | the field is the identifier the getter returns, the initial value is trimmed, and the dependents exclude the property itself; when it matches is stated by BackingRuleSpec |
| `PropertyRegexHelper.GetterAtSpec` | SsRefactor/PropertyRegexHelper.cs:91 | the getter part matches exactly when `get { return f; }` is followed by a setter with no `}` between; the last such setter is taken |
| `PropertyRegexHelper.PropertyAfterFieldSpec` | SsRefactor/PropertyRegexHelper.cs:91 | the part after the field's `;` matches exactly when a property with the field's type, a getter and a setter follows; the last getter, then the last setter, is taken |
| `PropertyRegexHelper.InitSearchSpec` | SsRefactor/PropertyRegexHelper.cs:91 | with an initializer, the match is found exactly when one exists, ending at the lowest `;` |
| `PropertyRegexHelper.PlainMatchSpec` | SsRefactor/PropertyRegexHelper.cs:91 | without an initializer, the match is found exactly when the property follows the `;` right after the name |
| `PropertyRegexHelper.BackingAtSpec` | SsRefactor/PropertyRegexHelper.cs:90-93 | the backing-field pattern matches at a position exactly when its declarative form holds there, and it reports the match the engine prefers |
| `PropertyRegexHelper.FindBackingSpec` | SsRefactor/PropertyRegexHelper.cs:90-93 | the search succeeds exactly when the pattern occurs, at the leftmost occurrence, with the preferred match there |
| `PropertyRegexHelper.BackingRuleSpec` | SsRefactor/PropertyRegexHelper.cs:90-102 | the rule matches exactly when the backing-field pattern occurs; type, field, name and initial value are those of the leftmost preferred match, and the dependents are the names notified in its setter body |
| `AgeExample.AgeBackingRule` | SsRefactor/PropertyRegexHelper.cs:90-102 | the `_age` field with its `Age` property calling `OnPropertyChanged()` is recognised with type `int`, field `_age`, name `Age`, no initial value and no dependents |
| `AgeExample.FindBackingReaches` | SsRefactor/PropertyRegexHelper.cs:90-93 | the search reaches a position when there is a match there and none before it |
| `AgeExample.AgeNoDependents` | SsRefactor/PropertyRegexHelper.cs:168-180 | a setter body whose only call is `OnPropertyChanged()` has no dependents |
| `PropertyRegexHelper.ExpressionRule` | SsRefactor/PropertyRegexHelper.cs:105-114 | matches exactly when the expression-bodied pattern occurs; tagged `FullWithBacking`, with the initial value looked up in the original text |
| `PropertyRegexHelper.NotifierRule` | SsRefactor/PropertyRegexHelper.cs:117-140 | matches exactly when the Prism or Notify pattern occurs, whose setter assigns the field the getter returns |
| `PropertyRegexHelper.FullRule` | SsRefactor/PropertyRegexHelper.cs:143-151 | a general full property has no field and no initial value, and its dependents exclude the property itself; when it matches is stated by FullRuleSpec |
| `PropertyRegexHelper.FullAtSpec` | SsRefactor/PropertyRegexHelper.cs:143 | the general pattern matches at a position exactly when its declarative form holds there; the captured setter is the last `set` after a `get` |
| `PropertyRegexHelper.FindFullSpec` | SsRefactor/PropertyRegexHelper.cs:143 | the search succeeds exactly when the general pattern occurs, at its leftmost occurrence |
| `PropertyRegexHelper.FullRuleSpec` | SsRefactor/PropertyRegexHelper.cs:143-151 | the rule matches exactly when the general pattern occurs; type and name are those of the leftmost match and the dependents are the names notified in its setter body |
| `PropertyRegexHelper.MatchFullPropertyBlock` | SsRefactor/PropertyRegexHelper.cs:86-154 | null exactly when all five full-property rules fail; otherwise the result of the first rule that matches, in the order backing field, expression-bodied, Prism, Notify, general |
| `AgeExample.AgeFullBlock` | SsRefactor/PropertyRegexHelper.cs:86-154 | the `_age` field with its Notify-style `Age` property is classified `FullWithBacking`, not `NotifyFullWithBacking` |
| `PropertyRegexHelper.MatchProperty` | SsRefactor/PropertyRegexHelper.cs:50-83 | never null: either a successful match or the fixed failure record |
| `PropertyRegexHelper.ObservableIff` | SsRefactor/PropertyRegexHelper.cs:52-62 | the kind is Observable exactly when the comment-free text contains the Observable pattern |
| `PropertyRegexHelper.AutoIff` | SsRefactor/PropertyRegexHelper.cs:64-71 | the kind is Auto exactly when the Observable pattern is absent and the auto pattern present |
| `PropertyRegexHelper.FullNeedsLineBreak` | SsRefactor/PropertyRegexHelper.cs:74-79 | a full kind is only given to multi-line text in which the first two rules failed |
| `PropertyRegexHelper.NoMatchIff` | SsRefactor/PropertyRegexHelper.cs:82 | the failure record comes back exactly when no rule applies |
| `PropertyRegexHelper.NotifyNeedsNoBacking` | SsRefactor/PropertyRegexHelper.cs:130-140 | the Notify kind is given only when the backing-field, expression-bodied and Prism rules all fail and the Notify pattern occurs; AgeFullBlock shows a Notify-style block that the backing-field rule takes first |
| `ConvertToAutoPropertyCommand.ConvertToAutoProperty` | SsRefactor/ConvertToAutoPropertyCommand.cs:12-18 | always `public`, the type, the name and `{ get; set; }`; the failure record gives empty type and name |
| `ConvertToAutoPropertyCommand.AutoTextIgnoresRest` | SsRefactor/ConvertToAutoPropertyCommand.cs:17 | the output depends on the type and the property name only |
| `ConvertToAutoPropertyCommand.CanonicalNotObservable` | SsRefactor/ConvertToAutoPropertyCommand.cs:14 | the canonical auto-property text is not taken for an Observable field |
| `ConvertToAutoPropertyCommand.CanonicalAutoRule` | SsRefactor/PropertyRegexHelper.cs:65-71 | the auto rule reads the type and the name back from the canonical auto-property |
| `ConvertToAutoPropertyCommand.AutoRoundTrip` | SsRefactor/ConvertToAutoPropertyCommand.cs:14-17 | converting the canonical auto-property `public T N { get; set; }` gives back the same text |
| `ConvertToFullPropertyCommand.BackingField` | SsRefactor/ConvertToFullPropertyCommand.cs:15 | the recognised field name when there is one, otherwise the field synthesised from the property name |
| `ConvertToFullPropertyCommand.ObservableFieldKept` | SsRefactor/ConvertToFullPropertyCommand.cs:15 | an Observable match keeps its own underscore field name |
| `ConvertToFullPropertyCommand.FullPropertySixLines` | SsRefactor/ConvertToFullPropertyCommand.cs:19-24 | the output is exactly the six lines of the template, with the same type and the same field in field, getter and setter |
| `ConvertToFullPropertyCommand.AppendFullProperty` | SsRefactor/ConvertToFullPropertyCommand.cs:18-25 | the six `AppendLine` calls build the full-property template |
| `ConvertToFullPropertyCommand.ConvertToFullProperty` | SsRefactor/ConvertToFullPropertyCommand.cs:8-26 | on a successful match, the template filled with its type, field and name |
| `ConvertToFullPropertyMenuCommand.Convert` | SsRefactor/ConvertToFullPropertyMenuCommand.cs:87-104 | a block yields output exactly when it is recognised without a failure reason |
| `ConvertToFullPropertyMenuCommand.ConvertBlock` | SsRefactor/ConvertToFullPropertyMenuCommand.cs:87-103 | the loop body converts one block with its own indentation |
| `ConvertToFullPropertyMenuCommand.ConvertBlocks` | SsRefactor/ConvertToFullPropertyMenuCommand.cs:84-105 | the loop keeps the conversions of the accepted blocks, in block order |
| `ConvertToFullPropertyMenuCommand.ConvertSelection` | SsRefactor/ConvertToFullPropertyMenuCommand.cs:82-111 | the output of the trimmed selection, and the selection is replaced exactly when the output is not blank |
| `ConvertToFullPropertyMenuCommand.UnindentedIsTemplate` | SsRefactor/ConvertToFullPropertyMenuCommand.cs:100-103 | with no indentation, a block becomes the template without its final line break |
| `ConvertToFullPropertyMenuCommand.BlocksUnindented` | SsRefactor/ConvertToFullPropertyMenuCommand.cs:101 | every block of the selection has an empty indentation |
| `ConvertToFullPropertyMenuCommand.UnindentedConversions` | SsRefactor/ConvertToFullPropertyMenuCommand.cs:101-103 | with empty indentations the re-indent step changes nothing |
| `ConvertToFullPropertyMenuCommand.OutputIsTemplates` | SsRefactor/ConvertToFullPropertyMenuCommand.cs:83-106 | the output is the templates of the accepted blocks joined with a blank line |
| `ConvertToFullPropertyMenuCommand.TemplatesEmptyIff` | SsRefactor/ConvertToFullPropertyMenuCommand.cs:88 | no template is produced exactly when every block failed to match |
| `ConvertToFullPropertyMenuCommand.OutputEmptyIff` | SsRefactor/ConvertToFullPropertyMenuCommand.cs:106-111 | the output is empty, and blank, exactly when no block was accepted |
| `ConvertToObservablePropertyCommand.MatchAtPosSound` | SsRefactor/ConvertToObservablePropertyCommand.cs:81-84 | a match found at a position is an occurrence of the pattern there |
| `ConvertToObservablePropertyCommand.MatchAtPosComplete` | SsRefactor/ConvertToObservablePropertyCommand.cs:81-84 | an occurrence of the pattern at a position is found there, with its type and name |
| `ConvertToObservablePropertyCommand.FullTailEndComplete` | SsRefactor/ConvertToObservablePropertyCommand.cs:84 | the full-property tail ends at the first `}` after the head |
| `ConvertToObservablePropertyCommand.AutoEndsAtLastBrace` | SsRefactor/ConvertToObservablePropertyCommand.cs:81 | the greedy `.*` of the auto pattern runs to the last `}` of the text |
| `ConvertToObservablePropertyCommand.MatchesIffOccurs` | SsRefactor/ConvertToObservablePropertyCommand.cs:81-84 | `Regex.Matches` finds something exactly when the pattern occurs |
| `ConvertToObservablePropertyCommand.MatchesIncreasing` | SsRefactor/ConvertToObservablePropertyCommand.cs:81-84 | successive matches start at strictly increasing positions, that is in text order |
| `ConvertToObservablePropertyCommand.AutoAtMostOne` | SsRefactor/ConvertToObservablePropertyCommand.cs:81 | the auto pattern matches at most once, because its `.*` reaches the last `}` |
| `ConvertToObservablePropertyCommand.MatchesFacts` | SsRefactor/ConvertToObservablePropertyCommand.cs:81-84 | every captured type is non-empty and only word characters, `<`, `>`, `[`, `]` and `.`, and every name is a non-empty word |
| `ConvertToObservablePropertyCommand.GetPropertyMatches` | SsRefactor/ConvertToObservablePropertyCommand.cs:77-87 | all auto-pattern matches followed by all full-pattern matches |
| `ConvertToObservablePropertyCommand.HasAnyProperty` | SsRefactor/ConvertToObservablePropertyCommand.cs:71-74 | true exactly when either pattern occurs |
| `ConvertToObservablePropertyCommand.Fields` | SsRefactor/ConvertToObservablePropertyCommand.cs:130-139 | one `[ObservableProperty]` field per match, in match order |
| `ConvertToObservablePropertyCommand.ConvertAllPropertiesToObservableFields` | SsRefactor/ConvertToObservablePropertyCommand.cs:126-141 | the fields of all matches joined with two line breaks |
| `ConvertToObservablePropertyCommand.ConvertSelection` | SsRefactor/ConvertToObservablePropertyCommand.cs:101-107 | the selection is trimmed and converted, and replaced exactly when the output is not blank |
| `ConvertToObservablePropertyCommand.OutputEmptyIff` | SsRefactor/ConvertToObservablePropertyCommand.cs:140 | the output is empty, and blank, exactly when neither pattern occurs |
| `ConvertToObservablePropertyCommand.OutputOfTwo` | SsRefactor/ConvertToObservablePropertyCommand.cs:81-85 | when both patterns find the same single property, the output holds its field twice |
| `ConvertToObservablePropertyCommand.AutoSampleConvertedTwice` | SsRefactor/ConvertToObservablePropertyCommand.cs:81-85 | `public int X { get; set; }` becomes two copies of `[ObservableProperty] private int _x;` |
| `ConvertToObservablePropertyCommand.UnclaimedSpec` | SsRefactor/ConvertToObservablePropertyCommand.cs:81-85 | dropping the full-pattern matches at an auto match's start keeps exactly the others, in order |
| `ConvertToObservablePropertyCommand.DistinctPropertyMatchesSpec` | SsRefactor/ConvertToObservablePropertyCommand.cs:81-85 | with duplicates dropped, no two matches share a start, and every start at which some property was found keeps a match |
| `ConvertToObservablePropertyCommand.AutoSampleConvertedOnce` | SsRefactor/ConvertToObservablePropertyCommand.cs:81-85 | with duplicates dropped, `public int X { get; set; }` becomes one field |
| `ConvertToRelayCommandCommand.CandidateIff` | SsRefactor/ConvertToRelayCommandCommand.cs:69-74 | a candidate exactly when `new`, whitespace, `RelayCommand`, `AsyncRelayCommand` or `Command`, an optional generic, and `(` occur |
| `ConvertToRelayCommandCommand.CreatedIff` | SsRefactor/ConvertToRelayCommandCommand.cs:72-73 | the left-to-right scan finds a creation exactly when one occurs |
| `ConvertToRelayCommandCommand.OpensAfterIff` | SsRefactor/ConvertToRelayCommandCommand.cs:72 | after the name, `(\s*<.*?>)?\s*\(` matches exactly when an argument list opens, directly or after a generic |
| `ConvertToRelayCommandCommand.TryConvertToRelayCommand` | SsRefactor/ConvertToRelayCommandCommand.cs:112-148 | the result of the four passes, or null exactly when they leave the text unchanged |
| `ConvertToRelayCommandCommand.ReplaceUntouched` | SsRefactor/ConvertToRelayCommandCommand.cs:117 | `Regex.Replace` leaves text without a match unchanged |
| `ConvertToRelayCommandCommand.ReplaceLeftmost` | SsRefactor/ConvertToRelayCommandCommand.cs:117 | `Regex.Replace` copies the text up to the leftmost match, puts in its replacement and resumes after it |
| `ConvertToRelayCommandCommand.NoNewUnchanged` | SsRefactor/ConvertToRelayCommandCommand.cs:117-145 | no pass changes text without `new` |
| `ConvertToRelayCommandCommand.NoNewNotConverted` | SsRefactor/ConvertToRelayCommandCommand.cs:147 | text without `new` is reported as not converted |
| `ConvertToRelayCommandCommand.CommandToRelaySpec` | SsRefactor/ConvertToRelayCommandCommand.cs:117 | `new Command` is rewritten exactly where it occurs, to `new RelayCommand` with the generic up to the first `>` kept |
| `ConvertToRelayCommandCommand.NoArrowAfterIff` | SsRefactor/ConvertToRelayCommandCommand.cs:123 | the negative lookahead fails exactly when `=>` follows after whitespace |
| `ConvertToRelayCommandCommand.MethodGroupIff` | SsRefactor/ConvertToRelayCommandCommand.cs:123 | `\((\s*)(name)\s*\)` not followed by `=>` matches exactly a lone identifier argument |
| `ConvertToRelayCommandCommand.MethodGroupRewriteSound` | SsRefactor/ConvertToRelayCommandCommand.cs:122-133 | a rewritten method group becomes `() => M()`, or `async () => await M()` for the async command; as written it is the first lone identifier in parentheses on the same line, and with the correction the text before it must be a generic |
| `ConvertToRelayCommandCommand.AsyncArrowIff` | SsRefactor/ConvertToRelayCommandCommand.cs:138 | `\(\s*async\s*=>` matches exactly a parameterless async arrow |
| `ConvertToRelayCommandCommand.AsyncArrowRewriteSound` | SsRefactor/ConvertToRelayCommandCommand.cs:137-139 | `async =>` becomes `async () =>` with the generic text kept |
| `ConvertToRelayCommandCommand.AsyncParamsRewriteSound` | SsRefactor/ConvertToRelayCommandCommand.cs:143-145 | `async (params) =>` is rewritten with the parameters up to the first `)` kept |
| `ConvertToRelayCommandSample.PiecesConverted` | SsRefactor/ConvertToRelayCommandCommand.cs:122-133 | as written, `new RelayCommand(() => Save(item))` becomes `new RelayCommand(() => Save(() => item()))` |
| `ConvertToRelayCommandSample.PiecesUnchanged` | SsRefactor/ConvertToRelayCommandCommand.cs:122-133 | with the generic text restricted to `(<.*?>)?`, the same command is left unchanged |

## Left out

- The Visual Studio host glue is not modelled. This covers `InitializeAsync`, the menu command registration, the `Instance` singletons and `MenuItem_BeforeQueryStatus`. It also covers each `Execute`'s DTE selection lookup, `sel.Delete`/`sel.Insert`, `ShowMessageBox` and the logging `catch` blocks. These are editor I/O and main-thread switching. Each command's `ConvertSelection` method takes the selection text as a parameter and returns what would be inserted.
- SsRefactor/RelayCommandRoslynRefactor.cs is not part of this model. It is a wrapper over Roslyn syntax trees.
- The .NET regular-expression engine is not modelled in general. Only the patterns the core uses are modelled, each by its own matcher.
- Whitespace, `\w` and case mapping are ASCII only. `char.ToUpperInvariant` and `ToLowerInvariant` change only `a`-`z` and `A`-`Z`.
- `Environment.NewLine` is the Windows line break `"\r\n"`, not a platform-dependent value.
- The dead null guards are not modelled. `MatchProperty` never returns null (ConvertToAutoPropertyCommand.cs:15, ConvertToFullPropertyCommand.cs:11). `Regex.Matches` never yields a null match and these patterns always have four groups (ConvertToObservablePropertyCommand.cs:132).
- The full-property menu is shown for every non-blank selection. Its visibility test compares `MatchProperty` with null, which never holds, and this is part of the host glue above.
- ConvertToFullPropertyCommand.ConvertToFullProperty: requires a successful match. On the failure record the source reads the first character of a null property name and throws a null reference exception, which is not modelled.
- `List<T>` is a `seq`, and a `StringBuilder` is a `string` that the methods reassign.

## Findings

| source | as written | input that shows it | evidently intended | confidence | as-written member | corrected member |
|---|---|---|---|---|---|---|
| SsRefactor/ConvertToObservablePropertyCommand.cs:81-85 | the auto and full patterns both match an auto-property, and both matches are converted | `public int X { get; set; }` gives `[ObservableProperty]` `private int _x;` twice | one field per property: a full-pattern match at the start of an auto match is dropped | medium, not executed | `ConvertToObservablePropertyCommand.AutoSampleConvertedTwice` | `ConvertToObservablePropertyCommand.AutoSampleConvertedOnce` |
| SsRefactor/ConvertToRelayCommandCommand.cs:122-133 | `(.*?)` lets the generic text run past the command's own `(` to a later lone identifier in parentheses | `new RelayCommand(() => Save(item))` becomes `new RelayCommand(() => Save(() => item()))` | only a generic argument list such as `<T>` may come between the command name and the argument | high, not executed | `ConvertToRelayCommandSample.PiecesConverted` | `ConvertToRelayCommandSample.PiecesUnchanged` |
