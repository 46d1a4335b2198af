# lucky_case in Dafny

A model of the `LuckyCase` module of the Ruby gem lucky_case
(`lib/lucky_case.rb`), which detects and converts the letter case of
strings. It models these parts:

- the table `CASES` of twelve styles, each with its anchored pattern;
- `case`, `cases`, the `?` checks, `valid_case_string?` and `valid_case_type?`;
- the tokenizer `split_case_string` and the eleven deterministic
  converters;
- `capital` / `capitalize`, `upper_case` / `lower_case` and their checks;
- `swap_case`, with its in-place rewrite of the characters;
- `mixed_case`, with its random draws passed in;
- `convert_case` and the `InvalidCaseError` it raises;
- the name-building halves of `constantize` and `deconstantize`;
- the helpers `cut_underscores_at_start` and `underscores_at_start`.

Modules, one per file:

| module | file | models |
|---|---|---|
| `Wrappers` | `wrappers.dfy` | Option and Result |
| `Text` | `text.dfy` | ASCII character classes, `upcase`/`downcase`, `gsub`, `split`, `join`, `reject(&:empty?)` |
| `Prefix` | `prefix.dfy` | the leading `_` run |
| `CaseRegistry` | `registry.dfy` | `CASES` and its patterns |
| `Classifier` | `classifier.dfy` | `case`, `cases` and the checks |
| `Tokenizer` | `tokenizer.dfy` | `split_case_string` |
| `Converter` | `converter.dfy` | `capital` and the converters |
| `SwapCase` | `swapcase.dfy` | `swap_case` |
| `Mixed` | `mixed.dfy` | `mixed_case` |
| `Dispatch` | `dispatch.dfy` | `convert_case` and `valid_case_type?` |
| `PathCodec` | `pathcodec.dfy` | `constantize` and `deconstantize` |
| `Stability` | `stability.dfy` | what converting twice does |

Some of the source works by loops that update counters and lists. Those
are methods with loop invariants, each proved equal to the function that
specifies it:

| source loop | method |
|---|---|
| the prefix counters | `Prefix.CountUnderscoresAtStart` |
| the pattern scans of `case` and `cases` | `Classifier.Case`, `Classifier.Cases` |
| the character rewrite of `swap_case`, on an array | `SwapCase.Swap` |
| the retry loop of `mixed_case` | `Mixed.MixedCase` |

The rest is pure and is modelled by functions and lemmas.

## Model

| member | source | states |
|---|---|---|
| Text.UpperCase | lib/lucky_case.rb:136-138 | same length; no lower-case letter remains; each lower-case letter becomes its capital; every other character is kept |
| Text.LowerCase | lib/lucky_case.rb:160-162 | same length; no capital remains; each capital becomes its lower-case letter; every other character is kept |
| Text.IsUpperCase | lib/lucky_case.rb:144-146 | true exactly when the string holds no lower-case letter |
| Text.IsLowerCase | lib/lucky_case.rb:168-170 | true exactly when the string holds no capital |
| Text.Gsub | lib/lucky_case.rb:806-807 | the result holds only characters of the input other than the pattern, or characters of the replacement |
| Text.GsubConcat | lib/lucky_case.rb:806-807 | replacing distributes over concatenation |
| Text.GsubAbsent | lib/lucky_case.rb:806-807 | a string without the pattern character is left as it is |
| Text.SplitOn | lib/lucky_case.rb:809 | the pieces between separators, the empty ones included; there is at least one |
| Text.RubySplit | lib/lucky_case.rb:809 | `split`: the pieces between separators with the trailing empty ones dropped |
| Text.Join | lib/lucky_case.rb:187 | `join`: the parts with the separator between each two |
| Text.DropTrailingEmpty | lib/lucky_case.rb:809 | Ruby's `split` drops trailing empty pieces: the result is a prefix of the pieces, ends in a non-empty piece (or is empty), and only empty pieces were dropped |
| Text.RejectEmpty | lib/lucky_case.rb:809 | `reject(&:empty?)` keeps exactly the non-empty pieces |
| Text.JoinSplitOn | lib/lucky_case.rb:809 | joining the pieces of a split with the separator gives the string back |
| Text.SplitOnJoin | lib/lucky_case.rb:809 | splitting a join gives back pieces that do not contain the separator |
| Text.RubySplitJoin | lib/lucky_case.rb:809 | Ruby's `split` of a join gives back non-empty pieces that do not contain the separator |
| Text.SplitOnConcat | lib/lucky_case.rb:809 | splitting at a separator character distributes over a concatenation at that character |
| Text.RejectEmptyDropTrailing | lib/lucky_case.rb:809 | dropping trailing empty pieces before `reject(&:empty?)` changes nothing |
| Text.UpperCaseJoin | lib/lucky_case.rb:220 | upcasing a join equals joining the upcased pieces |
| Text.LowerCaseJoin | lib/lucky_case.rb:809 | downcasing a join equals joining the downcased pieces |
| Text.GsubJoin | lib/lucky_case.rb:718 | replacing the separator of a join equals joining with the replacement |
| Prefix.PrefixLength | lib/lucky_case.rb:771-778 | the counter: the first `n` characters are `_` and the next one is not |
| Prefix.LeadingUnderscores | lib/lucky_case.rb:786-796 | the result is all `_` and is a prefix of the string |
| Prefix.WithoutLeadingUnderscores | lib/lucky_case.rb:770-780 | the result does not start with `_`, and the prefix run followed by it is the string |
| Prefix.PrefixOfConcat | lib/lucky_case.rb:770-796 | a `_` run before a body that does not start with `_` is exactly the prefix, and the body is the rest |
| Prefix.CountUnderscoresAtStart | lib/lucky_case.rb:771-778 | the counting loop stops at the first non-`_` and returns the length of the run |
| Prefix.CutUnderscoresAtStart | lib/lucky_case.rb:770-780 | returns the suffix after the run; it does not start with `_` |
| Prefix.UnderscoresAtStart | lib/lucky_case.rb:786-796 | returns the run of `_`, which is a prefix of the string |
| CaseRegistry.Parse | lib/lucky_case.rb:97 | a name parses to a style exactly when it is that style's key; an unknown name parses to nothing |
| CaseRegistry.RankOf | lib/lucky_case.rb:13-26 | the position of the style at index `k` in `CASES` is `k` |
| CaseRegistry.RankInverse | lib/lucky_case.rb:13-26 | every style sits in `CASES` at its position |
| CaseRegistry.RegistryComplete | lib/lucky_case.rb:13-26 | every style is in `CASES` and its name parses back to it |
| CaseRegistry.RegistryDistinct | lib/lucky_case.rb:13-26 | `CASES` lists each style once |
| CaseRegistry.ParseMixed | lib/lucky_case.rb:25 | only the key `mixed_case` names the mixed style |
| CaseRegistry.Matches | lib/lucky_case.rb:819-821 | `_case_match?`: the string matches the pattern `CASES` gives the style |
| CaseRegistry.SnakePattern | lib/lucky_case.rb:14 | a lower-case letter, then one or more lower-case letters, `_` or digits |
| CaseRegistry.UpperSnakePattern | lib/lucky_case.rb:15 | a capital, then one or more capitals, `_` or digits |
| CaseRegistry.PascalPattern | lib/lucky_case.rb:16 | a capital, then one or more letters or digits |
| CaseRegistry.CamelPattern | lib/lucky_case.rb:17 | a lower-case letter, then one or more letters or digits |
| CaseRegistry.DashPattern | lib/lucky_case.rb:18 | a lower-case letter, then lower-case letters, `-` or digits, ending in a lower-case letter or digit |
| CaseRegistry.UpperDashPattern | lib/lucky_case.rb:19 | a capital, then capitals, `-` or digits, ending in a capital or digit |
| CaseRegistry.TrainPattern | lib/lucky_case.rb:20 | `-`-separated pieces, each capitalized (a capital then lower-case letters or digits) or numeric, the last one capitalized |
| CaseRegistry.WordPattern | lib/lucky_case.rb:21 | a lower-case letter, then one or more lower-case letters, spaces or digits |
| CaseRegistry.UpperWordPattern | lib/lucky_case.rb:22 | a capital, then one or more capitals, spaces or digits |
| CaseRegistry.CapitalWordPattern | lib/lucky_case.rb:23 | space-separated pieces, each capitalized or numeric, the last one capitalized |
| CaseRegistry.SentencePattern | lib/lucky_case.rb:24 | a capital, then one or more lower-case letters, spaces or digits |
| CaseRegistry.MixedPattern | lib/lucky_case.rb:25 | a letter, then any letters, `_`, `-`, digits or spaces |
| CaseRegistry.SegmentsChars | lib/lucky_case.rb:19-23 | a train or capital-word string holds only letters, digits and its separator |
| CaseRegistry.MixedIsBroadest | lib/lucky_case.rb:13-25 | a string of any other style that starts with a letter also matches the mixed pattern, so `cases` must drop it |
| Classifier.FirstMatchFrom | lib/lucky_case.rb:53-58 | returns the first style from position `k` whose pattern matches, and nothing exactly when none matches |
| Classifier.ClassifyOne | lib/lucky_case.rb:47-60 | `case`: the first style of `CASES` whose pattern matches the possibly prefix-stripped string, or nil |
| Classifier.Select | lib/lucky_case.rb:78-86 | the rule of `cases`: nil for no match, the matches without mixed for several, the single match alone |
| Classifier.ClassifyAll | lib/lucky_case.rb:66-87 | `cases`: the rule applied to the matching styles in `CASES` order |
| Classifier.IsCase | lib/lucky_case.rb:200-207 | a `?` check: the style's pattern matches the string, without its `_` run when that is allowed |
| Classifier.WithoutMixed | lib/lucky_case.rb:82-83 | keeps exactly the styles other than mixed |
| Classifier.WithoutMixedOrdered | lib/lucky_case.rb:82-83 | dropping mixed keeps the other styles in `CASES` order |
| Classifier.ClassifyAllOrdered | lib/lucky_case.rb:66-87 | `cases` lists its styles in strictly increasing `CASES` order, so each once |
| Classifier.Case | lib/lucky_case.rb:47-60 | the scanning loop returns the first style in `CASES` order that matches the possibly prefix-stripped string, or nil |
| Classifier.CollectMatches | lib/lucky_case.rb:72-77 | the loop collects the matching styles in `CASES` order |
| Classifier.Cases | lib/lucky_case.rb:66-87 | the loop and the selection return the classification of all matches |
| Classifier.MatchingStep | lib/lucky_case.rb:73-77 | one step of the collecting loop keeps the collected list plus the rest of the scan invariant |
| Classifier.ValidCaseString | lib/lucky_case.rb:120-122 | true exactly when some style matches the prefix-stripped string |
| Classifier.FirstMatchIsLeast | lib/lucky_case.rb:53-59 | the first match is a matching style that precedes every other match; there is none exactly when nothing matches |
| Classifier.ClassifyOneFirstMatch | lib/lucky_case.rb:47-60 | `case` returns a style exactly when it matches and no earlier style matches; it returns nil exactly when no style matches |
| Classifier.MatchingFromMembers | lib/lucky_case.rb:72-77 | the collected list holds exactly the matching styles from position `k` |
| Classifier.MatchingDistinct | lib/lucky_case.rb:72-77 | the collected list is strictly in `CASES` order, so it has no duplicates |
| Classifier.SelectNone | lib/lucky_case.rb:78-79 | `cases` returns nil exactly when no style matches |
| Classifier.SelectMembers | lib/lucky_case.rb:78-86 | a style is in the result exactly when it matches, and mixed only when it is the sole match |
| Classifier.SelectSeveral | lib/lucky_case.rb:80-83 | with several matches, the result holds exactly the non-mixed matches, and there is one |
| Classifier.SelectSingle | lib/lucky_case.rb:84-85 | with a single match, the result is that match |
| Classifier.OnlyMatchAlone | lib/lucky_case.rb:84-85 | a single match means no other style matches |
| Classifier.SelectOthersBesideMixed | lib/lucky_case.rb:80-83 | with several matches, the first one is not mixed |
| Classifier.ClassifyAllMembers | lib/lucky_case.rb:66-87 | `cases` in terms of the patterns: nil exactly when none matches; otherwise a style is listed exactly when it matches, mixed only when alone |
| Classifier.SelectMixedAlone | lib/lucky_case.rb:78-86 | when mixed is the first match, `cases` is exactly `[mixed_case]` |
| Classifier.FirstHeadsSelect | lib/lucky_case.rb:53-86 | when some style matches, the selected list starts with the first match |
| Classifier.ClassifyOneHeadsClassifyAll | lib/lucky_case.rb:47-87 | `case` is nil exactly when `cases` is, and otherwise `case` is the head of `cases` |
| Classifier.SinglePatterns | spec/lucky_case_spec.rb:1255-1258 | "Single" matches exactly the Pascal, train, capital-word, sentence and mixed patterns |
| Classifier.SingleExample | spec/lucky_case_spec.rb:1255-1258 | `cases("Single")` is Pascal, train, capital word and sentence case |
| Classifier.LowerWordPatterns | spec/lucky_case_spec.rb:1247-1250 | a word of two or more lower-case letters matches exactly the snake, camel, dash, word and mixed patterns |
| Classifier.LowerWordExample | spec/lucky_case_spec.rb:1247-1250 | `cases` of any such word (e.g. "lotofcases") is snake, camel, dash and word case |
| Tokenizer.InsertUnderscores | lib/lucky_case.rb:805 | the `gsub` that puts `_` before every capital |
| Tokenizer.Pieces | lib/lucky_case.rb:808-809 | the non-empty `_`-pieces of the downcased string |
| Tokenizer.SplitCaseString | lib/lucky_case.rb:803-810 | every token is non-empty, has no capital and contains no `_`, `-` or space |
| Tokenizer.SeparatorsReplaced | lib/lucky_case.rb:806-807 | after the two replacements no space or dash remains |
| Tokenizer.SplitCaseStringNormalize | lib/lucky_case.rb:803-810 | the tokens are the `_`-pieces of the prefix-free rest, with capitals marked unless that rest has no lower-case letter |
| Tokenizer.UpperInputNotShredded | lib/lucky_case.rb:805 | a string without lower-case letters tokenizes like its downcased form: its capitals do not start words |
| Tokenizer.InsertUnderscoresConcat | lib/lucky_case.rb:805 | marking capitals distributes over concatenation |
| Tokenizer.InsertUnderscoresNoUpper | lib/lucky_case.rb:805 | a string without capitals is left unmarked |
| Tokenizer.PiecesUnderscorePrefix | lib/lucky_case.rb:808-809 | a leading `_` run adds no token |
| Tokenizer.PiecesWord | lib/lucky_case.rb:809 | a non-empty piece without `_` is one token |
| Tokenizer.TokensAvoid | lib/lucky_case.rb:803-810 | a character that is not a letter or `_` and is absent from the input is absent from every token |
| Converter.CapitalAsWritten | lib/lucky_case.rb:567-580 | `capital` as written fails exactly when skipping is on and the string is a non-empty run of `_` |
| Converter.Capital | lib/lucky_case.rb:567-580 | same length; only the first character after the skipped run changes, and it becomes its capital |
| Converter.CapitalAgrees | lib/lucky_case.rb:567-580 | wherever the written `capital` returns, it returns the corrected result |
| Converter.CapitalOfUnderscores | lib/lucky_case.rb:574 | on a run of `_` with skipping on, `capital` as written fails and the corrected one returns the run |
| Converter.CapitalIdempotent | lib/lucky_case.rb:567-589 | capitalizing twice equals capitalizing once; only the empty string capitalizes to empty |
| Converter.Reattach | lib/lucky_case.rb:188-192 | re-attaching the prefix gives a string whose `_` run is the input's run (or none), followed by the body |
| Converter.TokenUpper | lib/lucky_case.rb:220 | an upcased token is non-empty, has no separator, and downcases back to the token |
| Converter.TokenCapital | lib/lucky_case.rb:257 | a capitalized token starts with a capital, has no separator, and downcases back to the token |
| Converter.Assembled | lib/lucky_case.rb:187-192 | splitting the body of a joined, prefixed result at the separator gives the parts back, and the prefix is the chosen one |
| Converter.UpperAssembled | lib/lucky_case.rb:220-225 | the same for upcased parts; the result has no lower-case letter and equals upcasing the joined parts |
| Converter.SnakeCase | lib/lucky_case.rb:185-193 | the prefix is kept or dropped as asked, and splitting the body at `_` gives the input's tokens; the body does not end in `_` |
| Converter.UpperSnakeCase | lib/lucky_case.rb:218-226 | as snake case, with every token upcased, and no lower-case letter in the result; the body does not end in `_` |
| Converter.PascalCase | lib/lucky_case.rb:255-263 | the prefix is kept or dropped as asked; the body downcases to the tokens concatenated; when there are tokens the body starts with a non-lower-case character; character by character, the body is the tokens concatenated with the first character of every token upcased and every other character the token's own |
| Converter.PascalBody | lib/lucky_case.rb:257 | concatenated capitalized tokens downcase to the concatenated tokens and start with a capital-or-digit |
| Converter.CapitalizedJoin | lib/lucky_case.rb:257 | concatenating the capitalized tokens upcases the character where each token starts and keeps every other character |
| Converter.CamelCaseAsWritten | lib/lucky_case.rb:292-300 | `camel_case` as written fails exactly when the input has no token |
| Converter.CamelOfEmpty | lib/lucky_case.rb:294 | on the empty string `camel_case` as written fails, and the corrected one returns the empty string |
| Converter.CamelCase | lib/lucky_case.rb:292-300 | the prefix is kept or dropped as asked; the body downcases to the tokens concatenated and starts with the first token unchanged; character by character, the body is the tokens concatenated with the first character of every token after the first upcased and every other character the token's own |
| Converter.CamelParts | lib/lucky_case.rb:294 | the first token followed by the capitalized rest downcases to the tokens concatenated and starts with the first token |
| Converter.CamelJoin | lib/lucky_case.rb:294 | the first token followed by the capitalized rest keeps the first token and upcases the character where each later token starts, and nothing else |
| Converter.DashCase | lib/lucky_case.rb:329-337 | the prefix as asked; splitting the body at `-` gives the input's tokens; the body does not end in `-` |
| Converter.UpperDashCase | lib/lucky_case.rb:362-365 | the prefix as asked; splitting the body at `-` gives the upcased tokens; no lower-case letter remains; the body does not end in `-` |
| Converter.TrainCase | lib/lucky_case.rb:394-402 | the prefix as asked; splitting the body at `-` gives the capitalized tokens; the body does not end in `-` |
| Converter.WordCase | lib/lucky_case.rb:431-439 | the prefix as asked; splitting the body at spaces gives the input's tokens; the body does not end in a space |
| Converter.UpperWordCase | lib/lucky_case.rb:464-472 | the prefix as asked; splitting the body at spaces gives the upcased tokens; no lower-case letter remains; the body does not end in a space |
| Converter.CapitalWordCase | lib/lucky_case.rb:497-505 | the prefix as asked; splitting the body at spaces gives the capitalized tokens; the body does not end in a space |
| Converter.SentenceCase | lib/lucky_case.rb:534-542 | the prefix as asked; the downcased body splits at spaces into the input's tokens; the body does not start with a lower-case letter; no character after the first is a capital; the body does not end in a space |
| Converter.SentenceBody | lib/lucky_case.rb:536 | capitalizing the tokens joined by spaces leaves them unchanged up to case, and starts with a non-lower-case character; no later character is a capital and the last is no space |
| Converter.Convert | lib/lucky_case.rb:95-102 | every deterministic converter keeps or drops the prefix as asked |
| SwapCase.SwapChar | lib/lucky_case.rb:685-693 | `_` and `-` trade places, letters flip case, every other character is kept |
| SwapCase.Swap | lib/lucky_case.rb:677-701 | the loop over the character array returns the swapped string: the kept prefix unchanged, every later character swapped |
| SwapCase.SwappedPositions | lib/lucky_case.rb:677-701 | the swapped string has the input's length, keeps the prefix when asked, and swaps every later character |
| SwapCase.SwapInvolution | lib/lucky_case.rb:677-701 | without prefix keeping, swapping twice gives the input back |
| SwapCase.SwapInvolutionPreserved | lib/lucky_case.rb:677-701 | with prefix keeping, swapping twice gives the input back unless the body starts with `-` |
| SwapCase.SwapGrowsPrefix | lib/lucky_case.rb:677-701 | a `-` right after the prefix becomes `_` and joins the prefix, so swapping twice need not give the input back |
| SwapCase.SwapExample | spec/lucky_case_spec.rb:1271 | "EXAMPLE-FIVE" swaps to "example_five" |
| SwapCase.SwapKeepsPrefix | spec/lucky_case_spec.rb:1283-1297 | with prefix keeping, the `_` run stays and the body is swapped as without it |
| Mixed.Attempts | lib/lucky_case.rb:632-637 | one candidate per attempt |
| Mixed.FirstAccepted | lib/lucky_case.rb:638 | the returned candidate passes the exit test; nothing is returned exactly when no candidate passes |
| Mixed.FirstAcceptedIsFirst | lib/lucky_case.rb:632-639 | the returned candidate is the first that passes the exit test |
| Mixed.MixedSpec | lib/lucky_case.rb:629-645 | a result differs from the input; there is none exactly when no attempt passes the exit test |
| Mixed.MixedCase | lib/lucky_case.rb:629-645 | the retry loop returns the specified result, which differs from the input |
| Mixed.RunAttempt | lib/lucky_case.rb:633-637 | the inner loop builds the attempt: the converted tokens concatenated, converted once more |
| Mixed.AttemptStep | lib/lucky_case.rb:638 | one iteration either exits with the candidate or moves to the next attempt |
| Mixed.PartsStep | lib/lucky_case.rb:634-636 | one iteration of the inner loop appends the converted token |
| Dispatch.Names | lib/lucky_case.rb:100 | one name per style, and every style's name is listed |
| Dispatch.ErrorMessage | lib/lucky_case.rb:100 | the message of `InvalidCaseError`: the rejected name and the keys of `CASES` joined by `, ` |
| Dispatch.ValidCaseType | lib/lucky_case.rb:108-114 | true exactly when the name is a key of `CASES` |
| Dispatch.Run | lib/lucky_case.rb:97-98 | a deterministic style gives its converter's result; the mixed style gives the mixed result, which differs from the input |
| Dispatch.ConvertCase | lib/lucky_case.rb:95-102 | an unknown name gives exactly `InvalidCaseError` with the listed message; a known name gives its converter's result |
| Dispatch.ConvertCaseByName | lib/lucky_case.rb:95-102 | converting by a deterministic style's name is that style's converter |
| PathCodec.Segments | lib/lucky_case.rb:748-752 | the `::`-pieces of the name when it contains `::`, otherwise the name alone |
| PathCodec.SegmentChars | lib/lucky_case.rb:748-752 | segments hold only characters of the name |
| PathCodec.NoColons | lib/lucky_case.rb:748 | a name without `:` does not contain `::` |
| PathCodec.SegmentsOfJoin | lib/lucky_case.rb:748-752 | splitting a `::`-join of non-empty colon-free parts gives them back |
| PathCodec.SlashSegments | lib/lucky_case.rb:718-723 | after the replacement, the segments of a colon-free path are its `/`-pieces |
| PathCodec.PascalSegments | lib/lucky_case.rb:724 | one Pascal-cased segment per segment |
| PathCodec.PascalSegment | lib/lucky_case.rb:724 | a segment's Pascal form is empty exactly when it has no token, otherwise starts with a non-lower-case character, and holds no separator |
| PathCodec.PascalSegmentFree | lib/lucky_case.rb:724 | a non-empty Pascal segment is a constant segment and introduces no foreign character |
| PathCodec.RejectEmptyParts | lib/lucky_case.rb:724 | the kept parts are all constant segments |
| PathCodec.ConstantParts | lib/lucky_case.rb:718-724 | every part of the constant name is a non-empty constant segment |
| PathCodec.ConstantName | lib/lucky_case.rb:717-724 | the constant name contains no `/` |
| PathCodec.ConstantOfPath | lib/lucky_case.rb:718-724 | for a colon-free path, the parts are the Pascal-cased `/`-pieces without the empty ones |
| PathCodec.ConstantNameSplits | lib/lucky_case.rb:724 | splitting the constant name at `::` gives back its parts |
| PathCodec.DefaultCase | lib/lucky_case.rb:739-746 | the default style is snake case for a path and Pascal case for a string, and is valid |
| PathCodec.Collect | lib/lucky_case.rb:753 | succeeds exactly when every segment converts, with each value in place; otherwise fails with the error of a segment |
| PathCodec.PlainResults | lib/lucky_case.rb:753 | in a deterministic style every segment converts to that style with its prefix kept |
| PathCodec.InvalidResults | lib/lucky_case.rb:753 | with an unknown style every segment fails with `InvalidCaseError` |
| PathCodec.Deconstantize | lib/lucky_case.rb:737-760 | with an unknown style and at least one segment it raises `InvalidCaseError`, and that error arises only then; with a deterministic style, or with none (snake case for a path, Pascal case for a string), it returns the segments converted to that style with their prefixes kept, joined by `/` for a path and by `::` for a string |
| PathCodec.DeconstantizeCases | lib/lucky_case.rb:739-753 | the same facts for the collected segment results |
| PathCodec.CollectPlain | lib/lucky_case.rb:753 | in a deterministic style the segments collect to their converted forms |
| PathCodec.StyleCollects | lib/lucky_case.rb:753 | whatever deterministic style a name parses to, the segments collect to their forms in it |
| PathCodec.PathOfSegments | lib/lucky_case.rb:755-756 | the `/`-pieces of the path are exactly the converted segments |
| PathCodec.PathPieces | lib/lucky_case.rb:737-760 | for a deterministic style, the path's `/`-pieces are the segments in that style |
| PathCodec.StringPieces | lib/lucky_case.rb:737-760 | for a deterministic style and a name of non-empty colon-free segments, the string's `::`-pieces are the segments in that style |
| PathCodec.ConstantOfSegments | lib/lucky_case.rb:717-724 | words without `/` or `:` build the same constant joined by `/` as joined by `::`; when none is empty, its parts are the Pascal-cased words without the empty ones |
| PathCodec.ConstantOfSlashWords | lib/lucky_case.rb:717-724 | "/w1/w2" for two lower-case words builds "W1::W2" |
| PathCodec.ConstantPathExample | spec/lucky_case_spec.rb:1331 | "/test/man" builds "Test::Man" |
| Stability.PlainStable | lib/lucky_case.rb:185-439 | tokenizing the snake, dash or word form gives the input's tokens back |
| Stability.UpperStable | lib/lucky_case.rb:218-472 | the same for the upper snake, upper dash and upper word forms |
| Stability.CapitalStable | lib/lucky_case.rb:394-505 | the same for the train and capital-word forms |
| Stability.SentenceStable | lib/lucky_case.rb:534-542 | the same for the sentence form |
| Stability.ConvertKeepsTokens | lib/lucky_case.rb:185-542 | every converter except Pascal and camel keeps the input's tokens |
| Stability.ConvertByTokens | lib/lucky_case.rb:185-542 | a conversion depends only on the tokens and, when kept, the prefix |
| Stability.ConvertIdempotent | lib/lucky_case.rb:185-542 | every converter except Pascal and camel is idempotent |
| Stability.PascalNotIdempotent | lib/lucky_case.rb:255-263 | two one-letter words Pascal-case to two capitals, which Pascal-case again to a capital and a lower-case letter |
| Stability.CamelMergesDigits | lib/lucky_case.rb:292-300 | a letter and a digit camel-case into one token, so tokens are not kept |
| Stability.TokensOfWords | lib/lucky_case.rb:803-810 | tokens joined by any separator tokenize back to themselves |
| Stability.ConvertAvoids | lib/lucky_case.rb:185-542 | a converter introduces no character that is not a letter or separator and was absent from the input |
| Stability.CamelAvoids | lib/lucky_case.rb:292-300 | the same for camel case |
| Stability.UpperSnakeExample | spec/lucky_case_spec.rb:31-33 | "UPPER_SNAKE_CASE_STRING" tokenizes to upper, snake, case, string |

## Left out

- Characters outside ASCII: `[[:upper:]]`, `[[:lower:]]`, `upcase` and `downcase` act on ASCII letters only here.
- Line anchors: the patterns' `^` and `$` are read as whole-string anchors. This agrees with Ruby only for strings without a newline.
- The `String` extension methods of lib/lucky_case/string.rb: one-line delegations to the module functions modelled here; their `!` variants, which replace the receiver's contents in place, are not modelled.
- `Object.const_get` in `constantize` and `constant.name` in `deconstantize`: constant lookup is outside a pure model. `PathCodec.ConstantName` is the name that would be looked up. `PathCodec.Deconstantize` takes the constant's name.
- Targets other than `:path` and `:string` in `deconstantize`: `Target` has only the two. With a `case_type` given, the source converts every segment and then returns nil for such a target (lib/lucky_case.rb:754-759). Without one, `case_type` stays nil (lib/lucky_case.rb:740-747) and the first `convert_case` raises NoMethodError on `nil.to_sym` (lib/lucky_case.rb:96).
- `capital?` / `capitalized?` (lib/lucky_case.rb:596-612) and the table `FORMATS` (lib/lucky_case.rb:28-32): the checks look their pattern up in `CASES`, which has no `:capital` key, rather than in `FORMATS`. They are left out rather than modelled as if they read `FORMATS`. Nothing else reads `FORMATS`.
- The randomness of `mixed_case`: the draws are a parameter, a finite list of attempts; running out of draws is `None` (or `DrawsExhausted`) where the source would loop on. A draw of `mixed_case` itself inside `mixed_case` is not modelled; draws name only the eleven deterministic styles. In `deconstantize`, each segment has its own draws.
- Pascal and camel forms are not stable under re-conversion; for these only counterexamples are proved (`Stability.PascalNotIdempotent`, `Stability.CamelMergesDigits`).
- Converter.Convert: for the camel style it uses the corrected `Converter.CamelCase`, so on a string without tokens it returns the prefix where the source raises NoMethodError (see Findings).
- Dispatch.Run: the same; `convert_case("", :camel_case)` raises in the source (lib/lucky_case.rb:98, then 294) and returns `""` here.
- Dispatch.ConvertCase: the same, through `Dispatch.Run`.
- Dispatch.ConvertCaseByName: the same, for the camel style's name.
- Mixed.MixedSpec: the same; an attempt whose whole-string style is camel case and whose parts give no token (e.g. `mixed_case("-")`) raises in the source (lib/lucky_case.rb:637) and gives an empty candidate here.
- Mixed.MixedCase: the same, through the attempts it runs.
- PathCodec.Deconstantize: the same, for a segment without tokens converted to camel case.
- PathCodec.ConstantName: its value is stated for names without `:` (`PathCodec.ConstantOfPath`, `PathCodec.ConstantNameSplits`) and for words joined by `/` or `::` (`PathCodec.ConstantOfSegments`); for a segment holding a lone `:` only the absence of `/` is stated.
- The swap examples `_example_underscoreOne` and `___example_underscoreTwo` and the classification example "LOTOFCASES" are not modelled one by one; `SwapCase.SwapKeepsPrefix` covers any `_` run in front.

## Findings

| source | as written | input that shows it | evidently intended | confidence | as-written member | corrected member |
|---|---|---|---|---|---|---|
| lib/lucky_case.rb:292-300 | `camel_case` takes `a[1..-1]` of the token list; on an empty list that is nil and `map` raises NoMethodError | `""` (or `"___"`, or `"-"`) | the empty string, as every other converter returns | not executed | Converter.CamelCaseAsWritten, Converter.CamelOfEmpty | Converter.CamelCase |
| lib/lucky_case.rb:567-580 | `capital` with `skip_prefixed_underscores: true` takes `s[0]` of the empty rest; that is nil and `upcase` raises NoMethodError | `"_"` | the string unchanged, as for the empty string | not executed | Converter.CapitalAsWritten, Converter.CapitalOfUnderscores | Converter.Capital |
