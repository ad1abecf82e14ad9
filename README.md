# Flashcard generator: a verified model of its core

The flashcard generator turns either a topic or a block of pasted `term: definition` lines into a
numbered set of flashcards, asking a language model for whatever the user did not supply, and
exports the set as CSV or as tab-separated text for Anki. This project models the part of it that
decides what the cards are:

- `Pairs` — `parsePairs`: the pasted text is split into lines at `\r?\n`, each line is trimmed,
  blank lines are dropped, and each line is cut at its first `:`, else its first `-`, else its
  first `,`, or is taken whole as a term with an empty definition.
- `Enrichment` — the pairs branch of `handleGenerate`: which terms are looked up (those whose
  definition is empty, in order, duplicates kept), how the lookup's array becomes a
  lower-cased-term map (later entries win), how empty definitions are filled from it, how cards that
  are still incomplete are dropped, and how the survivors are numbered from 0.
- `Gemini` — `generateFlashcardsFromTopic` and `defineTerms`: the response schema (hint and example
  only under their flags; term, definition and difficulty always required), the fixed lookup
  temperature 0.3, the array check, the filter on `term`/`definition` being strings, and the
  replacement of every failure by one fixed message. The SDK call and `JSON.parse` are a `Reply`
  parameter: either something was thrown, or a parsed JSON value.
- `Orchestrator` — the `App` component's state as a class: the form inputs, and `loading`,
  `error` and `cards`, which `HandleGenerate` sets as `handleGenerate` does (start, `try`, `catch`,
  `finally`). The two branches are specified by the functions `PairsRun` and `TopicRun`, which say
  which calls to the model a run makes and what it publishes or throws. Also `canGenerate`, the
  40/40/20 fallback for a mix that does not add up to 100, and the fallback error text.
- `Slug` — `slugify` and the export file-name part `slugify(topic || 'pairs')`.
- `Export` — `csvEscape`, `toCSV` and `toTSVForAnki`. A CSV reader following RFC 4180, section 2,
  with LF as the record separator, is given beside the writer: reading the export back gives the
  header and each card's five fields.
- `Types`, `Strings`, `Sequences`, `Wrappers` — the records and enumerations of `types.ts`, and the
  JavaScript string and array primitives the core uses (`trim`, `indexOf`, `split`, `join`, ASCII
  `toLowerCase`, single-character `replace`, `filter`, `map`).
- `Scenarios` — worked examples proved from the general lemmas, up to a whole pairs run on three
  pasted lines, one of which has to be looked up.

Four behaviours of the code that are easy to miss, and that the model keeps:

- Topic cards whose `term` or `definition` is the empty string are kept. The filter in
  `geminiService.ts` checks only that both are strings (`Gemini.FilterCardsSingle`).
- A term can be empty. A pasted line such as `: x` gives a card with an empty term, and so does a
  topic card whose `term` is `""`. The pasted card is published when its definition is non-empty;
  the topic card is published whatever its definition, as the point above says.
- A card whose term maps to the empty string in the lookup map keeps an empty definition (the
  `|| ''` of the lookup), so it is dropped before numbering.
- The length test of `canGenerate` counts UTF-16 code units, as JavaScript's `length` does, so
  a trimmed input of two characters passes when one of them lies outside the Basic Multilingual
  Plane (`Strings.Utf16Length`, `Orchestrator.CanGenerateFor`).

## Model

| member | source | states |
|---|---|---|
| Strings.Trim | App.tsx:42 | the result has no white space at either end and is no longer than the input; it is empty exactly when every character is white space |
| Strings.TrimInfix | App.tsx:42 | the result is the input with a run of white space, and only white space, cut from each end |
| Strings.TrimIdempotent | App.tsx:42 | trimming a trimmed line changes nothing |
| Strings.TrimDropsTrailingSpace | App.tsx:42 | a trailing white-space character, such as the CR of a CRLF line end, does not survive trimming |
| Strings.TrimDropsLeadingSpace | App.tsx:51-52 | a leading white-space character does not survive trimming |
| Strings.FirstIndex | App.tsx:50 | the index found holds the character and no earlier index does |
| Strings.FirstIndexOf | App.tsx:50 | the first occurrence is found after a prefix without the character, whatever follows |
| Strings.Split | App.tsx:42 | there is always at least one piece, and no piece holds the separator |
| Strings.SplitLines | App.tsx:42 | there is always at least one line, and no line holds an LF |
| Strings.Join | components/ActionButtons.tsx:26-31 | one piece joins to itself and no pieces to the empty string; JoinSplit and SplitJoin make it the inverse of Split |
| Strings.SplitAppend | App.tsx:42 | splitting at a separator gives the pieces of each side, in order |
| Strings.JoinSplit | App.tsx:42 | splitting at a character and joining with it again gives back the text |
| Strings.SplitJoin | components/ActionButtons.tsx:31 | joining pieces without the separator and splitting again gives back the pieces |
| Strings.SplitLinesAgainstSplit | App.tsx:42 | each `\r?\n` line is the matching LF piece, or that piece without its final CR |
| Strings.TrimmedLines | App.tsx:42 | after trimming, the `\r?\n` lines and the LF pieces are the same |
| Strings.LowerChar | App.tsx:82 | a capital ASCII letter becomes the small letter at the same place in the alphabet; no capital is left and every other character is kept |
| Strings.LowerCharEqual | App.tsx:82-84 | two characters fold to the same one exactly when they differ at most in ASCII case |
| Strings.LowerEqual | App.tsx:82-84 | two terms match in the lookup map exactly when they have the same length and differ at most in ASCII case, character by character |
| Strings.Utf16Length | App.tsx:36-37 | the JavaScript length lies between the number of characters and twice it, and equals it exactly when no character lies above U+FFFF |
| Strings.Utf16LengthAppend | App.tsx:36-37 | the length of a concatenation is the sum of the lengths |
| Strings.Lower | App.tsx:84 | same length, each character lower-cased |
| Strings.ReplaceChar | components/ActionButtons.tsx:31 | same length; the given character is replaced everywhere and nothing else changes |
| Types.WithId | App.tsx:87 | the card carries the given id, and its other fields are the draft's |
| Pairs.ParseLine | App.tsx:43-66 | every parsed card has hint `''`, example `''` and difficulty medium, and a trimmed term and definition |
| Pairs.NonBlank | App.tsx:42 | `filter(Boolean)` on a trimmed line keeps it exactly when it is not all white space |
| Pairs.ParsePairs | App.tsx:41-67 | every card of the pasted text has hint `''`, example `''` and difficulty medium |
| Pairs.ParseLineColon | App.tsx:49-52 | a line with a `:` is cut at its first `:` even when a `-` or `,` comes first; the trimmed sides are term and definition |
| Pairs.ParseLineDash | App.tsx:53-56 | without `:`, a line is cut at its first `-` |
| Pairs.ParseLineComma | App.tsx:57-60 | without `:` or `-`, a line is cut at its first `,` |
| Pairs.ParseLineNoDelimiter | App.tsx:61-64 | without any delimiter, the trimmed line is the term and the definition is empty |
| Pairs.ParsePairsLine | App.tsx:42 | text without a line break gives no card if it is blank, else the one card of its trimmed line |
| Pairs.ParsePairsAppend | App.tsx:42-43 | a line break separates the cards before it from those after it, in order |
| Enrichment.TermsWithoutDefs | App.tsx:77 | no more terms than cards, and each looked-up term is the term of a card with an empty definition |
| Enrichment.TermsWithoutDefsAppend | App.tsx:77 | the looked-up terms come from the cards in input order |
| Enrichment.TermsWithoutDefsSingle | App.tsx:77 | a card adds its term exactly when its definition is empty |
| Enrichment.NoTermsWithoutDefs | App.tsx:77-80 | nothing is looked up exactly when every card has a non-empty definition |
| Enrichment.Entries | App.tsx:82 | it succeeds exactly when every entry is an object with a string `term`, and then gives one lower-cased pair per entry, in order; otherwise the run fails with the TypeError |
| Enrichment.DefinitionMap | App.tsx:82 | the map has at most one key per entry |
| Enrichment.DefinitionMapKeys | App.tsx:82 | a key is in the map exactly when some entry has it |
| Enrichment.DefinitionMapLastWins | App.tsx:82 | a key maps to the definition of the last entry with that key |
| Enrichment.Lookup | App.tsx:84 | a present key gives the map's value under it (the empty string when that is the value), and a missing key gives `''` |
| Enrichment.Fill | App.tsx:83-85 | a card with a definition is unchanged; an empty definition is replaced by the looked-up value of the lower-cased term; term, hint, example and difficulty are kept |
| Enrichment.LookupMissing | App.tsx:84 | the looked-up definition is `''` unless some entry has the key |
| Enrichment.Enrich | App.tsx:83-85 | the length is kept; a card with a definition is unchanged; a card without one gets the map's value under its lower-cased term, or `''`, and keeps its other fields |
| Enrichment.EnrichAllDefined | App.tsx:78-86 | when no term needs a lookup, enriching with any map changes nothing, so skipping the lookup is the same |
| Enrichment.EnrichFromEntries | App.tsx:82-85 | an empty definition is filled from the last entry whose key is the card's lower-cased term, or stays empty when none matches; other fields are kept |
| Enrichment.Complete | App.tsx:87 | no more cards than before, and each kept card is one of them with a non-empty definition |
| Enrichment.CompleteAppend | App.tsx:87 | dropping incomplete cards keeps the order of the rest |
| Enrichment.CompleteSingle | App.tsx:87 | a card is kept exactly when its definition is non-empty |
| Enrichment.Number | App.tsx:87 | card `i` gets id `i` and keeps the fields of draft `i` |
| Enrichment.NumberFields | App.tsx:101 | dropping the ids gives back the drafts, and the ids are distinct |
| Enrichment.Publish | App.tsx:87 | the published cards are the complete cards in order, numbered from 0, each with a non-empty definition |
| Gemini.TopicProperties | services/geminiService.ts:25-36 | the properties are term, definition and difficulty, plus hint exactly when asked for and example exactly when asked for, with their fixed descriptions and the difficulty enum |
| Gemini.TopicSchema | services/geminiService.ts:38-45 | an array of objects with those properties, of which term, definition and difficulty are required |
| Gemini.BuildTopicSchema | services/geminiService.ts:25-45 | the dictionary built step by step is the schema of TopicSchema |
| Gemini.TopicRequest | services/geminiService.ts:22-69 | the request carries the topic, count, language, Bloom level, mix and temperature given, and the schema for the flags |
| Gemini.DefineTermsRequest | services/geminiService.ts:89-117 | the request lists the terms joined by `, `, uses temperature 0.3 and requires term and definition |
| Gemini.ArrayOf | services/geminiService.ts:71-76 | the reply gives its items exactly when it parsed to an array; a thrown reply keeps its message, and any other value throws the not-an-array message |
| Gemini.Rewrap | services/geminiService.ts:83-86 | success passes through unchanged, and any failure becomes the given message |
| Gemini.FilterCards | services/geminiService.ts:78-81 | no more cards than elements, and each card is read from an element with a string term and a string definition |
| Gemini.FilterCardsAppend | services/geminiService.ts:78-81 | filtering keeps the order of the returned array |
| Gemini.FilterCardsSingle | services/geminiService.ts:78-81 | an element is kept exactly when it is an object with a string term and a string definition, empty strings included, and it keeps them |
| Gemini.GenerateFlashcardsFromTopic | services/geminiService.ts:60-86 | it succeeds exactly when the reply parsed to an array, then gives the filtered elements; any failure becomes the fixed generation message |
| Gemini.DefineTerms | services/geminiService.ts:108-131 | it succeeds exactly when the reply parsed to an array, then gives it unfiltered; any failure becomes the fixed lookup message |
| Orchestrator.EffectiveMix | App.tsx:97 | the mix sent adds up to 100: the user's when it does, otherwise 40/40/20 |
| Orchestrator.CanGenerateFor | App.tsx:34-39 | generating is allowed exactly when no run is in flight and the trimmed input of the current mode is longer than two UTF-16 code units; three characters always suffice and one never does |
| Orchestrator.ErrorText | App.tsx:105 | the shown error is the thrown message when that is non-empty, and the fixed fallback text when it is empty; it is never empty |
| Orchestrator.PairsRun | App.tsx:75-87 | a lookup is made exactly when some parsed card lacks a definition, once, with exactly those terms. The run fails exactly when that lookup fails, with the fixed lookup message, or an entry has no string term, with the TypeError. Published cards have definitions, are numbered from 0, and are the complete parsed cards, enriched when a lookup was made |
| Orchestrator.TopicRun | App.tsx:89-101 | one generation request with the given options; the run succeeds exactly when the reply is an array, and then publishes the filtered cards numbered by position; otherwise it throws the fixed message |
| Orchestrator.GeneratePairs | App.tsx:75-87 | the step-by-step pairs branch makes the calls and gives the outcome of PairsRun |
| Orchestrator.GenerateTopic | App.tsx:90-101 | the step-by-step topic branch makes the call and gives the outcome of TopicRun |
| Orchestrator.App.constructor | App.tsx:17-29 | the initial state: topic mode, empty inputs, 10 cards, English, hint and example on, Understand, 40/40/20, temperature 0.5, not loading, no error, no cards |
| Orchestrator.App.IsMixWarning | App.tsx:31-32 | the warning shows exactly when the mix sent would differ from the user's |
| Orchestrator.App.CanGenerate | App.tsx:34-39 | never while a run is in flight; otherwise exactly when the trimmed input of the current mode is longer than two UTF-16 code units |
| Orchestrator.App.Options | App.tsx:90-99 | the options carry the topic, count, language, hint and example flags, Bloom level and temperature as set, and the mix replaced by 40/40/20 exactly when it shows the warning |
| Orchestrator.App.Start | App.tsx:70-72 | entering a run: loading, no error, no cards |
| Orchestrator.App.Compute | App.tsx:74-102 | the `try` body gives the calls and outcome of the run the current mode calls for |
| Orchestrator.App.Finish | App.tsx:103-108 | leaving a run: not loading; the published cards and no error, or no cards and the error text; an error is shown exactly when the run threw |
| Orchestrator.App.HandleGenerate | App.tsx:69-109 | the calls made are the run's; afterwards not loading; cards are set only on success and the error text only on failure; generating is allowed again exactly when the input is longer than two UTF-16 code units |
| Slug.Hyphenate | App.tsx:112 | the replacement of every run of characters other than `[a-z0-9]` by one hyphen: never longer than the input and empty exactly for empty input; HyphenateShape, HyphenateAppend and HyphenateRun pin its result |
| Slug.HyphenateShape | App.tsx:112 | only `[a-z0-9-]` is left, no two hyphens in a row, the letters and digits are those of the input in order, and the result starts with a hyphen exactly when the input starts with another character |
| Slug.HyphenateAppend | App.tsx:112 | replacing runs distributes over a split made just after a letter or digit: the two halves are replaced on their own and joined |
| Slug.HyphenateRun | App.tsx:112 | a whole run of other characters in front, followed by a letter, a digit or nothing, becomes exactly one hyphen |
| Slug.DropLeadingHyphen | App.tsx:112 | a leading hyphen, when there is one, is cut and nothing else changes; otherwise the string is returned as it is; afterwards no hyphen leads when there was no `--` |
| Slug.DropTrailingHyphen | App.tsx:112 | a trailing hyphen, when there is one, is cut and nothing else changes; otherwise the string is returned as it is; afterwards no hyphen ends the string when there was no `--` |
| Slug.TrimHyphens | App.tsx:112 | a leading hyphen is cut, then a trailing hyphen of what is left, and nothing else; the letters and digits are kept; on hyphenated text the result is empty or a slug |
| Slug.Slugify | App.tsx:111-113 | the result is a slug (non-empty, only `[a-z0-9-]`, no hyphen at either end, no `--`); it is `cards` when the lower-cased input has no letter or digit, and otherwise it is exactly the lower-cased input with its runs replaced and its end hyphens trimmed, so it holds the input's lower-cased letters and digits, in order |
| Slug.FileNameSlug | App.tsx:155 | the export file-name part is a slug: `pairs` for an empty topic, else the topic's slug |
| Slug.HyphenateFixed | App.tsx:112 | replacing runs leaves a string of slug characters without `--` unchanged |
| Slug.SlugifySlug | App.tsx:111-113 | a slug is its own slug |
| Slug.SlugifyIdempotent | App.tsx:111-113 | slugifying twice is slugifying once |
| Export.DoubleQuotes | components/ActionButtons.tsx:20 | never shorter than the input, and unchanged when there is no quote |
| Export.DoubleQuotesLength | components/ActionButtons.tsx:20 | one extra character per quote |
| Export.DoubleQuotesAppend | components/ActionButtons.tsx:20 | doubling quotes works piece by piece |
| Export.CsvEscape | components/ActionButtons.tsx:17-22 | a missing value is `''`; text without quote, comma or LF is kept; other text is wrapped in quotes |
| Export.CsvEscapeLength | components/ActionButtons.tsx:20 | a quoted value is its text plus two outer quotes plus one per inner quote |
| Export.Row | components/ActionButtons.tsx:26 | a record read back alone gives the five column texts of its card |
| Export.ToCSV | components/ActionButtons.tsx:24-28 | the export starts with the header line and its LF, and is no more than that exactly when there are no cards |
| Export.HeaderLine | components/ActionButtons.tsx:25-27 | the header line is `term,definition,hint,example,difficulty` |
| Export.ToCSVEmpty | components/ActionButtons.tsx:24-28 | with no cards the export is the header line and an LF |
| Export.ReadHeaderThenRows | components/ActionButtons.tsx:26-27 | the header line, an LF and the records read back as the header and then each card's five fields |
| Export.ReadQuotedDoubled | components/ActionButtons.tsx:20 | a reader of a quoted field gets back the text whose quotes were doubled, and stops at the closing quote |
| Export.ReadPlainText | components/ActionButtons.tsx:21 | an unquoted field reads back up to the comma or LF that ends it |
| Export.ReadEscapedField | components/ActionButtons.tsx:17-22 | every escaped value reads back as its text (a missing value as the empty field) and the reader stops where the field ends |
| Export.ReadEscapedRecord | components/ActionButtons.tsx:26 | a record of escaped values joined by commas reads back as the values' texts |
| Export.ReadRows | components/ActionButtons.tsx:26 | records joined by LF read back one by one, in order |
| Export.ReadHeader | components/ActionButtons.tsx:25-27 | the header line reads back as the five column names |
| Export.CsvRoundTrip | components/ActionButtons.tsx:24-28 | reading the CSV export back gives the header and then each card's five fields, in order |
| Export.Detab | components/ActionButtons.tsx:31 | no tab is left and the length is kept: each tab becomes a space and every other character stays where it was |
| Export.ToTSVForAnki | components/ActionButtons.tsx:30-32 | no header: the export is empty exactly when there are no cards |
| Export.TsvTabCount | components/ActionButtons.tsx:30-32 | the Anki export holds exactly one tab per card |
| Export.TsvRowFields | components/ActionButtons.tsx:31 | a line cut at its tab gives back term and definition, their own tabs turned into spaces |
| Export.TsvLines | components/ActionButtons.tsx:30-32 | when no term or definition has a line break, the lines of the export are the cards' lines, in order |
| Scenarios.ColonScenario | App.tsx:49-52 | `A:B` gives term `A` and definition `B` |
| Scenarios.ColonOverDashScenario | App.tsx:49-56 | `A-B:C` is cut at the colon, not the earlier dash |
| Scenarios.CommaScenario | App.tsx:57-60 | `A,B` gives term `A` and definition `B` |
| Scenarios.TermOnlyScenario | App.tsx:61-64 | `A` gives term `A` and an empty definition |
| Scenarios.EnrichScenario | App.tsx:83-87 | `X` is filled from the key `x`; a card whose term is not in the map is not published |
| Scenarios.MixFallbackScenario | App.tsx:97 | a 50/30/30 mix is sent as 40/40/20 |
| Scenarios.SchemaScenario | services/geminiService.ts:31-36 | with hints off and examples on, the schema has `example` and no `hint` |
| Scenarios.QuotesAroundDoubled | components/ActionButtons.tsx:20 | quotes around quote-free text are doubled and the rest is kept |
| Scenarios.DoubledScenario | components/ActionButtons.tsx:20 | the quotes of `He said, "hi"` are doubled |
| Scenarios.CsvEscapeScenario | components/ActionButtons.tsx:20 | `He said, "hi"` is written `"He said, ""hi"""` |
| Scenarios.SpacedColonRecord | App.tsx:49-52 | the spaces around a colon are trimmed off both sides |
| Scenarios.SpacedColonLine | App.tsx:42-52 | a `term : definition` line alone is one card |
| Scenarios.CommaLine | App.tsx:42-60 | a `term,definition` line alone is one card |
| Scenarios.TermLine | App.tsx:42-64 | a bare term alone is one card with an empty definition |
| Scenarios.ThreeLines | App.tsx:42-43 | three lines parse line by line |
| Scenarios.ThreeRecords | App.tsx:42-43 | three one-card lines give the three cards in order |
| Scenarios.ScenarioParse | App.tsx:41-67 | `Derivative : instantaneous rate of change`, `TCP,Transmission Control Protocol`, `Foo` parse to three cards, the last without a definition |
| Scenarios.ScenarioLookupTerms | App.tsx:77 | only the term of the card without a definition is looked up |
| Scenarios.ScenarioEnrich | App.tsx:81-85 | the lookup's answer for `Foo` fills its definition and leaves the others alone |
| Scenarios.ScenarioPublish | App.tsx:87 | three complete cards are published as ids 0, 1, 2 |
| Scenarios.PairsScenario | App.tsx:75-87 | the whole pairs run on those lines makes one lookup, for `Foo` alone, and publishes the three cards numbered 0 to 2 |

## Left out

- I/O, rendering and the React machinery: `useState`, `useMemo`, `useCallback`, the components, `console.error`, downloads, the clipboard copy of the JSON, and the form controls that set the inputs.
- The language-model SDK, the network, the `API_KEY` check at module load, the prompt texts and the model name. The outcome of `generateContent` and `JSON.parse` is the `Reply` parameter.
- Asynchrony: a run is modelled as one atomic step. A second run started before the first resolves is not modelled.
- Floating point: the temperature is an opaque `real` that is passed through and never computed with. JSON numbers are integers.
- Strings.Lower: only ASCII letters are lower-cased. JavaScript's full Unicode case mapping is not modelled, for example `İ` becoming `i` plus a combining dot, which `slugify` would keep as `i`.
- Strings.Utf16Length: a model string is a sequence of Unicode scalar values, so a JavaScript string holding an unpaired surrogate cannot be written down; its length would count that surrogate once.
- Strings.IsSpace: the white-space set is the ASCII one plus NBSP, BOM, LS and PS, not every Unicode space separator that `trim` removes.
- Gemini.ToDraft: a topic card's `hint`, `example` or `difficulty` that is not a string is read as missing.
- Gemini.DifficultyField: a difficulty string other than `easy`, `medium` or `hard` is read as missing, where the source would keep it and export it as text.
- Enrichment.Entry: a lookup entry whose `definition` is not a string is read as `''`. The source would keep such a truthy value as the definition.
- Enrichment.Entries: every entry without a string `term` throws one stand-in TypeError text. This covers a null entry, a missing term and a non-string term, whose real engine messages differ.
- The card count is any integer. The form's `parseInt` handling and its bounds are not part of this model.
- The JSON copy of the cards (`JSON.stringify`) is not part of this model.
