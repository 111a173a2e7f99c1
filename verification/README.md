# Prompt templates of the catalogue page, in Dafny

This project models the text logic of `script.js`, the page script of a
static prompt catalogue. The script does the following:

- It reads the catalogue from CSV text (`parseCSV`).
- It shows the records as cards, filtered by audience.
- It searches the records by keyword.
- It finds the `${name}` and `${name:default}` placeholders of a prompt
  (`extractVariables`).
- It builds one input per placeholder (`createVariableInputs`).
- It renders a preview with the values filled in (`updatePromptPreview`).
- It builds the final text for the clipboard or a chat platform
  (`buildPrompt`, `openInChat`).

The modules follow the script:

- `Strings`: the JavaScript string primitives the script relies on:
  `trim`, ASCII `toUpperCase`/`toLowerCase`, `includes`, `split`,
  `replace(/"/g, '')`, and number-to-text conversion.
- `Scanner`: the two regular expressions. The extractor's
  `/\${([^:}]+)(?::([^}]*))?}/g` and each per-name `/\$\{NAME[^}]*\}/g` both
  match `${`, then a run without `}`, then `}`. They differ only in what they
  ask of the text between the braces. `Tokenize` is the global scan
  `exec`/`replace` performs: match at the current position, or move on by one
  character.
- `Extractor`: `extractVariables`. It reads both groups of each match, trims
  them, and removes repeated `{name, default}` pairs while keeping the first
  occurrence.
- `Substitution`: one `text.replace(pattern, replacement)` pass, and the
  `forEach` fold of such passes.
- `Templates`: the central theorem. A prompt is written as literal pieces and
  `${...}` holes. Folding the replace passes over it gives the same text as
  replacing each hole by the replacement of the first pass whose name is a
  prefix of the hole's inner text. A hole that no pass fits stays as written.
- `Renderer`: the variable form, `updatePromptPreview` with and without a
  form, and `buildPrompt` with the directive sentence it appends.
- `Quirks`: three behaviours that follow from keying every pass by the
  trimmed name alone. They are stated on concrete prompt shapes.
- `Chat`: the link `openInChat` builds for each platform.
- `Catalog`: `parseCSV`, the audience filter, the search filter and the
  count label.
- `Modal`: what the modal's chat button sends (see "Findings").

Three behaviours of the script worth noting:

- `buildPrompt` ignores the values typed into the form. Its text always takes
  the default, else the bare name. The copy button and the chat buttons
  therefore never see the user's values as plain text.
- Without a form, a default is inserted as it is, not in bold. Only a name
  without a default is shown in bold.
- Grok's link continues the platform address with `&q=`, not `?q=`.

## Model

| member | source | states |
|---|---|---|
| Strings.Trim | script.js:24 | `trim` returns the infix of the text that remains after cutting only white space (ECMAScript WhiteSpace and LineTerminator) from both ends; the result neither starts nor ends with white space |
| Strings.TrimUnique | script.js:24 | the contract of `trim` determines its result: any unpadded infix with only white space around it is the trimmed text |
| Strings.TrimIdempotent | script.js:24 | trimming a trimmed text changes nothing |
| Strings.TrimKeepsChars | script.js:24 | trimming only removes characters |
| Strings.Unquote | script.js:214 | removing `"` leaves no quote, keeps every other character, and leaves a text without quotes unchanged |
| Strings.UnquoteAppend | script.js:214 | removing quotes works piece by piece: on a concatenation it is the concatenation of the pieces with quotes removed |
| Strings.UnquoteLength | script.js:214 | the result is shorter than the text by exactly its number of quotes |
| Strings.Split | script.js:213-214 | `split` gives at least one piece; no piece holds the separator; joining the pieces with the separator gives the text back |
| Strings.SplitCount | script.js:213-214 | `split` gives one piece more than the text has separators |
| Strings.SplitJoin | script.js:213-214 | splitting undoes joining, for pieces that do not hold the separator |
| Strings.Contains | script.js:453-454 | `includes` holds exactly when the needle occurs at some position of the text |
| Strings.DecimalRoundTrip | script.js:480 | the decimal text of a count reads back as that count |
| Scanner.MatchLength | script.js:19 | a match at the head of the text is found exactly when some prefix of the text is a match, and what is found is such a match |
| Scanner.Tokenize | script.js:22 | the global scan covers the whole text, and every hit is a match; no match starts at a character the scan stepped over |
| Scanner.TokenizeFlatten | script.js:22 | the scan is the only canonical reading of a text: scanning the text of any canonical token sequence gives that sequence back |
| Scanner.HitsEmptyIff | script.js:22 | the scan finds no hit exactly when no substring of the text is a match |
| Extractor.PlaceholderTextRoundTrip | script.js:19 | every well-formed pair of groups spells exactly one extractor match, and reading that match gives the same groups |
| Extractor.SplitUnsplit | script.js:19 | splitting the inner text at its first `:` inverts writing the groups out |
| Extractor.Scan | script.js:22-23 | one well-formed pair of groups per hit of the scan, in order, each spelling that hit |
| Extractor.ToVariable | script.js:24 | an entry's name is its first group with only surrounding white space cut and none left, and likewise its default for a present second group; a missing second group gives the empty default |
| Extractor.Dedup | script.js:27 | removing repeats keeps every element, leaves none twice, and never lengthens the list |
| Extractor.DedupKeepsFirstOccurrenceOrder | script.js:27 | the elements kept are in the order of their first occurrences |
| Extractor.Extract | script.js:17-28 | the result holds exactly the trimmed entries of all matches, with no entry twice |
| Extractor.ExtractOrder | script.js:27 | entries appear in the order in which they first occur in the text |
| Extractor.ExtractEmptyIff | script.js:22-27 | the result is empty exactly when the text holds no placeholder |
| Substitution.ReplaceAll | script.js:72 | a pass over a text that holds no match of its pattern leaves the text unchanged |
| Substitution.Substitute | script.js:69-73 | a fold of passes none of whose patterns matches the text leaves the text unchanged |
| Substitution.SubstituteAppend | script.js:69-73 | the passes run one after another: the fold over two lists of passes is the fold over the second applied to the fold over the first |
| Templates.ReplaceAllRender | script.js:70-72 | one pass over a prompt replaces exactly the holes whose inner text starts with the name, each by the whole replacement, and nothing else |
| Templates.SubstituteRender | script.js:69-73 | the fold of passes gives the same text as resolving each hole by its first fitting pass |
| Templates.ExtractRender | script.js:17-28 | the extractor's entries for a prompt are its holes' variables, in order, without repeats |
| Templates.SubstituteWithoutRepeat | script.js:76-84 | dropping a pass whose name an earlier pass already has leaves the text unchanged |
| Renderer.Hint | script.js:45 | an input's placeholder is never empty: it is a non-empty default itself, or, for an empty default, the text `Enter ` followed by the name |
| Renderer.CreateForm | script.js:35-47 | one empty input per variable, in order, each showing its hint |
| Renderer.FormVariablesOfCreateForm | script.js:35-47 | the form stands for exactly the variables it was built from |
| Renderer.Preview | script.js:59-88 | a text without placeholders is returned unchanged, with or without a form |
| Renderer.UnboundReplacement | script.js:71 | without a form, a hole shows what the final text will hold there, in bold exactly when the variable has no default |
| Renderer.BoundReplacement | script.js:82-83 | with a form, a hole is always shown in bold; it shows the trimmed value when one was typed, and otherwise what the final text will hold there |
| Renderer.FinalReplacement | script.js:418 | in the final text a hole becomes the default, else the name when the default is empty, and gains no character that neither holds |
| Renderer.PreviewUnboundTemplate | script.js:68-73 | without a form, each hole becomes the default, else the name in bold, of the first extracted variable whose name prefixes it |
| Renderer.PreviewBoundTemplate | script.js:74-85 | with a form, each hole becomes the bold value, else default, else name of the first input whose name prefixes it |
| Renderer.LaterInputIgnored | script.js:76-84 | what is typed into an input that follows another input of the same name never shows in the preview |
| Renderer.LaterDefaultIgnored | script.js:69-73 | without a form, a variable extracted after another of the same name has no effect on the preview |
| Renderer.ExtractedNamesTrimmed | script.js:24 | no extracted name starts with white space |
| Renderer.UnpaddedTemplateResolved | script.js:69-84 | when no hole starts with white space, the passes named after the extracted variables leave no `$` and no placeholder |
| Renderer.PaddedHoleKeptInPreview | script.js:70 | without a form, a hole whose inner text starts with white space is left as written, unless some extracted name is empty |
| Renderer.PreviewUnboundComplete | script.js:68-73 | without a form, a prompt whose holes are unpadded has no placeholder left in its preview |
| Renderer.PreviewBoundComplete | script.js:74-85 | with the form built for the prompt, the same holds for the bound preview |
| Renderer.Directive | script.js:427-431 | the directive sentence is ` Reply in `, the chosen language, ` using `, the chosen tone, ` tone for `, the audience and a full stop; a language or tone selected as `custom` is replaced by its custom field |
| Renderer.BuildPrompt | script.js:412-434 | the final text always ends with the directive sentence, and a text without placeholders is followed by it unchanged |
| Renderer.BuildPromptTemplate | script.js:416-419 | in the final text each hole becomes the default, else the name, of its first fitting variable, never in bold |
| Renderer.BuildPromptExtendsPreview | script.js:71 | when every variable has a default, the final text is the unbound preview followed by the directive |
| Renderer.BuildPromptComplete | script.js:412-434 | when no hole starts with white space, the final text holds no placeholder before the directive |
| Quirks.PrefixNameTakesLongerPlaceholder | script.js:70-72 | in `${a} ${ab}` the pass for `a` also replaces `${ab}`, so both show `a` in bold |
| Quirks.FirstDefaultFillsAll | script.js:69-72 | in `${n:x} ${n:y}` both entries are extracted, but both holes show the first default `x` |
| Quirks.PaddedPlaceholderStays | script.js:70 | `${ x }` is extracted as `x`, yet its preview is the prompt unchanged |
| Chat.ChatUrl | script.js:386-407 | the query each platform takes: `?prompt=` for chatgpt and github-copilot, `&q=` for grok, `/search?q=` for perplexity, `?q=` otherwise |
| Chat.ChatUrlRoundTrip | script.js:386-407 | the encoded text can be read back from every link |
| Chat.ChatUrlInjective | script.js:386-407 | different encoded texts give different links for the same platform |
| Chat.OpenInChat | script.js:378-409 | no link without an active platform; otherwise the link carries the encoded final text of the prompt |
| Catalog.Clean | script.js:214 | a cleaned cell is the cell with its quotes removed and then only the surrounding white space cut, so it holds no quote and is unpadded |
| Catalog.CleanValue | script.js:214 | those properties determine the cleaned cell: a quote-free unpadded text sitting in the unquoted cell with only white space around it is its clean form |
| Catalog.Headers | script.js:214 | one column name per comma-separated cell of the first line, each being that cell unquoted, then trimmed |
| Catalog.HeadersReadCells | script.js:213-214 | a first line of cells without commas, however the cells quote or pad their names, reads back as exactly those names, whatever follows it |
| Catalog.HeadersCount | script.js:213-214 | there is one column name more than the first line has commas |
| Catalog.HeadersRoundTrip | script.js:213-214 | a first line written from trimmed, quote-free names without commas reads back as exactly those names, whatever follows it |
| Catalog.CellFor | script.js:222-225 | the `for_devs` column, and only it, gets a flag; every other column gets its token unquoted, then trimmed |
| Catalog.AssignedIsLastColumns | script.js:221-227 | assigning the columns in order leaves each name with the field of its last column |
| Catalog.Record | script.js:219-229 | a record has one key per column name, holding the field of the name's last column |
| Catalog.ForDevsField | script.js:223-225 | the `for_devs` field is a flag that is set exactly when its token reads `TRUE` once upper-cased |
| Catalog.UpperTrue | script.js:224 | upper-casing gives `TRUE` exactly for the four-letter spellings of `true` in any mix of cases |
| Catalog.ParseCsv | script.js:212-232 | the records kept are exactly the records of the lines after the first that have a truthy `act` and `prompt`, in line order and with repeats kept; they are fewer than the lines |
| Catalog.Filter | script.js:231 | filtering keeps exactly the elements that pass the test, never lengthens the list, and keeps a single element exactly when it passes |
| Catalog.FilterAppend | script.js:231 | filtering works piece by piece, so order and repeats are kept: filtering a concatenation concatenates the filtered pieces |
| Catalog.FilterIdempotent | script.js:231 | filtering twice with the same test is filtering once |
| Catalog.Cards | script.js:241-245 | developers see the records marked `for_devs`, filtered in order with repeats kept; everyone else sees all records unchanged |
| Catalog.Search | script.js:441-455 | an empty query finds nothing; otherwise the results are the records whose lower-cased `act` or `prompt` contains the lower-cased query, filtered in order with repeats kept |
| Catalog.SearchNarrows | script.js:452-455 | every record found for a query is also found for any non-empty part of it |
| Catalog.CountLabel | script.js:479-483 | the label is `All Prompts` exactly when nothing is filtered out |
| Catalog.CountLabelInjective | script.js:478-483 | when records are hidden, the label names both counts: equal labels mean equal counts |
| Modal.ButtonContent | script.js:309-328 | the chat button holds the prompt until the user types into the form, and always for a prompt without placeholders |
| Modal.ModalChatText | script.js:350-355 | the chat text ends with the directive, and before any typing it equals the copy button's text |
| Modal.NameBeforeTyping | script.js:328 | for `${x}`, before any typing, the chat gets the name `x` followed by the directive |
| Modal.BoldReachesChat | script.js:317-321 | for `${x}`, once the form is typed into, the chat gets the value, or the name when the value was erased again, wrapped in `<b>...</b>` |
| Modal.CorrectedChatText | script.js:350-355 | the corrected chat text ends with the directive and agrees with the script before any typing |
| Modal.CorrectedMatchesPreview | script.js:74-85 | the corrected text puts, in every hole, exactly the markup-free text that the preview shows in bold there |
| Modal.CorrectedBlankFormIsCopyText | script.js:330 | with the prompt's own form left blank, the corrected chat text is the copy button's text |
| Modal.CorrectedOneHole | script.js:317-321 | for `${x}`, after typing, the corrected chat text is the typed value, else the name, followed by the directive |

## Left out

- The DOM, `localStorage`, `fetch`, the clipboard, `window.open`,
  `setTimeout`, dark mode, keyboard shortcuts and the card markup are not
  modelled. They are I/O or presentation. The preferences that
  `buildPrompt` reads from the page are a parameter.
- The CSV value tokenizer `/(".*?"|[^,\s]+)(?=\s*,|\s*$)/g` is a function
  parameter of `Catalog.ParseCsv`, and `encodeURIComponent` is a parameter of
  `Chat.OpenInChat`. The model states what the script does around both, not
  how they split or encode.
- Regular-expression metacharacters in a variable name and `$` in a
  replacement are excluded by preconditions (`Renderer.Substitutable`,
  `Renderer.FormSubstitutable`). For such a name the script builds a
  different pattern, and for one holding an unbalanced `(` or `[` the
  `RegExp` constructor throws, so no preview or final text is produced; a
  `$` in a replacement would expand `$&`-style references.
- The template theorem and the results built on it assume a prompt in the
  shape `Templates.Clean` describes: no literal part holds `$`, and every
  hole's inner text is non-empty, holds neither `$` nor `}`, and does not
  start with `:`.
  Texts outside that shape are still covered by `Renderer.Preview` and
  `Renderer.BuildPrompt`, but only through their weaker general contracts.
- Strings.Upper, Strings.Lower: case mapping is modelled for ASCII letters
  only.
- Strings are sequences of code points rather than UTF-16 code units, so
  lengths differ for characters outside the Basic Multilingual Plane.
- Catalog.Record: a column named like a JavaScript prototype property
  (`__proto__`) is an ordinary key here.
- The search's re-fetch of the CSV file is not modelled. `Catalog.Search`
  filters the records it is given.
- `extractVariables` removes repeats through `JSON.stringify`. The model
  compares `{name, default}` pairs directly, which is the same test for
  these string-only objects.

## Findings

| source | as written | input that shows it | evidently intended | confidence | as-written member | corrected member |
|---|---|---|---|---|---|---|
| script.js:317-321 | every keystroke stores the HTML preview in the chat button, and `openModalChat` sends `buildPrompt` of that HTML, so the chat text holds `<b>...</b>` markup | the prompt `${x}`: type `v` and erase it again, and the chat text goes from `x Reply in ...` to `<b>x</b> Reply in ...` | send the values the user typed, without markup | not executed | Modal.BoldReachesChat | Modal.CorrectedChatText |
