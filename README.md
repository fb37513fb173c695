# SPE exam tickets — a Dafny model

The repository is a small offline flash-card app for exam tickets. Each ticket
has a number, a question and an answer. It has two halves:

- `convert_excel_to_json.py` turns a spreadsheet into `tickets.json`. It
  recognises the number, question and answer columns by words in their
  names. It cleans every cell to a string and drops the rows that are
  completely empty.
- `app.js` loads `tickets.json` and shows one card at a time. A tolerant
  resolver (`getValue`) finds each field under several spellings. The user
  turns the card with a button, a right swipe, ArrowLeft or Enter; turning
  it face up marks the ticket studied. The user moves to the next ticket,
  cyclically, with a button, a left swipe, ArrowRight or space. The current
  index and the studied set are kept in `localStorage`.

The model has one module per concern:

- `Text`: the string operations both halves rely on. These are
  strip/trim, lower-casing, substring search, `replace` and `indexOf`.
- `Resolver`: `getValue`, as pure functions over a ticket modelled as an
  ordered list of own properties.
- `Display`: what `updateDisplay` derives from a ticket before writing it to
  the page. That is the number label, the question and the answer, with
  their fallbacks.
- `Input`: the classification of swipes and keys into commands.
- `Session`: the mutable controller, as a class. Its fields are the
  module-level state of app.js, what the page shows, and the two
  `localStorage` entries. Its methods are `loadData`, `updateDisplay`,
  `flipCard`, `nextTicket` and the two input handlers.
- `Converter`: the imperative core of `convert_excel_to_json`. That is the
  column-mapping loop, the cell cleaning, and the row-building and filtering
  loop.
- `Pipeline`: lemmas connecting the two halves. A converted ticket is read
  by the app under the converter's column names.

JavaScript's `%` is the remainder of truncating division. It is modelled
explicitly (`JsRem`), because a negative saved index survives `loadData`:
only an index at or past the end is reset. At a negative index
`tickets[currentIndex]` is `undefined`, so the resolver throws before
anything is written. The model reports this as a failed render. One might
expect advancing to be modulo the ticket count and every operation to be a
no-op without tickets. The code differs, and the model follows it:

- from an index in [-n, -1), where n is the ticket count, advancing climbs
  by one and stays negative; from below -n it lands on the truncated
  remainder, somewhere in (-n, 0] (`NextIndex`);
- `flipCard` toggles the card and records the index even when there are no
  tickets.

## Model

| member | source | states |
|---|---|---|
| Text.Strip | convert_excel_to_json.py:41 | the stripped text is empty exactly when the input is blank, has no whitespace at either end, and is no longer than the input |
| Text.StripKeepsWords | convert_excel_to_json.py:41-47 | a word without whitespace occurs in the stripped name exactly when it occurs in the name |
| Text.Lower | convert_excel_to_json.py:41 | lower-casing works character by character and keeps the length |
| Text.ContainsAt | convert_excel_to_json.py:42-47 | the word test `w in s` holds exactly when `w` occurs at some position of `s` |
| Text.StripIsSubstring | convert_excel_to_json.py:66 | stripping adds no character and makes no word occur that did not occur before |
| Text.ReplaceAbsent | convert_excel_to_json.py:68 | `replace` leaves a text without an occurrence of the pattern unchanged |
| Text.ReplaceChar | convert_excel_to_json.py:68 | replacing one character by another maps the text character by character |
| Text.ReplaceAll | convert_excel_to_json.py:68 | replacing inside a non-empty text with a non-empty replacement never yields the empty text; what each occurrence becomes is stated by ReplaceLeftmost and ReplaceKeepsAbsent |
| Text.ReplaceLeftmost | convert_excel_to_json.py:68 | the leftmost occurrence of the pattern is replaced and the scan resumes after the whole match: when the pattern starts nowhere inside `a`, `a + pat + b` becomes `a + rep` followed by the replacement of `b` |
| Text.ReplaceSkips | convert_excel_to_json.py:68 | a prefix in which the pattern starts nowhere, not even overlapping what follows, is copied unchanged |
| Text.ReplaceKeepsAbsent | convert_excel_to_json.py:68 | after a replacement whose text shares no character with a word, the word does not occur if it did not occur before, and the pattern itself never occurs |
| Text.ReplaceRemovesChar | convert_excel_to_json.py:68 | after replacing a character by a text without it, the character no longer occurs |
| Text.IndexOf | app.js:79 | a found position holds the value and no earlier position does; `-1` (None) exactly when the value is absent |
| Text.IndexOfFirst | app.js:79 | `indexOf` returns the first position holding the value |
| Resolver.Keys | app.js:76-81 | one name per property, and a name is listed exactly when some property carries it |
| Resolver.Hit | app.js:68-82 | a candidate qualifies in a pass when the property it names (exactly, or ignoring case in the second pass) holds an acceptable value |
| Resolver.HitNamesProperty | app.js:68-82 | a candidate qualifies only when it names a property; with empty values allowed, naming one is enough |
| Resolver.Get | app.js:68-69 | a property is found exactly when its name is among the keys, and then its value is that of an entry with that name |
| Resolver.FoldLookup | app.js:76-81 | the case-insensitive lookup finds a value exactly when some key equals the candidate ignoring case |
| Resolver.LowerKeys | app.js:76 | the property names lower-cased, in property order |
| Resolver.Acceptable | app.js:70 | with empty values allowed every present value qualifies; otherwise `undefined`, `null` and `''` do not |
| Resolver.AsString | app.js:71 | the text returned for a value: `String(value)`, or `''` for `null` and `undefined` |
| Resolver.UnacceptableNoHit | app.js:67-84 | a candidate misses in both passes when every property matching it, even ignoring case, holds `null`, `undefined` or `''` |
| Resolver.NoAcceptableValue | app.js:65-88 | when every property matching some candidate holds an unacceptable value, the result is as if none were there: `null`, or `''` with empty values allowed |
| Resolver.FirstHit | app.js:67-74 | one pass stops at the first candidate that is present with an acceptable value; none earlier qualifies; none at all when it finds nothing |
| Resolver.Pass | app.js:67-86 | a pass yields text exactly when some candidate qualifies in it |
| Resolver.GetValue | app.js:65-88 | the exact pass decides whenever any candidate qualifies in it; `null` exactly when empty values are not allowed and no candidate qualifies in either pass; `''` when empty values are allowed and nothing qualifies |
| Resolver.ExactMatchWins | app.js:67-74 | the first candidate that qualifies by exact name gives the result, before any case-insensitive comparison |
| Resolver.FirstPresentCandidate | app.js:67-74 | when the earlier candidates are absent, the first candidate present with an acceptable value gives the result |
| Resolver.FoldMatchFallback | app.js:75-86 | when no candidate qualifies by exact name, the first that qualifies ignoring case gives the result |
| Resolver.FoldLookupFirst | app.js:78-81 | ignoring case, the value examined is that of the first property whose lowered name matches |
| Resolver.FoldShadowing | app.js:78-84 | an earlier property with the same lowered name shadows a later one in the case-insensitive pass |
| Resolver.NoMatchingKey | app.js:87 | when no property name matches any candidate, even ignoring case, the result is `''` with empty values allowed and `null` otherwise |
| Resolver.NoKeyNoHit | app.js:68-82 | a candidate that no property name matches qualifies in neither pass |
| Resolver.AllowEmptyNeverNull | app.js:87 | with empty values allowed the resolver never returns `null` |
| Display.Truthy | app.js:98-99 | the test behind the `\|\|` fallbacks: a resolved text counts only when it is neither `null` nor `''` |
| Display.AnswerText | app.js:100 | the answer text is exactly what the resolver returns with empty values allowed: it never returns `null`, so `\|\| ''` changes nothing |
| Display.DeriveCard | app.js:94-112 | question and answer shown are never empty; a number label is never empty; the empty-answer style is set exactly when the answer is blank, and then the placeholder is shown, otherwise the answer verbatim |
| Display.NumberFallback | app.js:98 | the label is the 1-based position exactly when the number resolves to `null` or `''`, otherwise the resolved text |
| Display.QuestionFallback | app.js:99 | when the question resolves to `null` or `''` the placeholder is shown, otherwise the resolved text |
| Display.EmptyQuestionShowsPlaceholder | app.js:99 | a question property that is present but holds `null`, `undefined` or `''` counts as missing and the placeholder is shown |
| Display.EmptyQuestionExample | app.js:99 | the ticket {"Вопрос": ""} shows "Вопрос не найден" |
| Display.MissingNumberShowsPosition | app.js:98 | a ticket without a number-like property is labelled with its position |
| Display.MissingQuestionShowsPlaceholder | app.js:99 | a ticket without a question-like property shows "Вопрос не найден" |
| Display.MissingAnswerShowsPlaceholder | app.js:100-108 | a ticket without an answer-like property shows "(Ответ пока не добавлен)" with the empty-answer style |
| Display.ExactAnswerShown | app.js:106-111 | a non-blank answer under "Ответ" is shown verbatim without the empty-answer style |
| Display.WalkThroughFirstCard | app.js:94-112 | the ticket {"Вопрос":"Q1","Ответ":"A1"} at position 0 shows label 1, Q1 and A1 |
| Display.WalkThroughSecondCard | app.js:94-112 | the ticket {"question":"Q2"} at position 1 shows label 2, Q2 and the answer placeholder |
| Input.ClassifySwipe | app.js:171-184 | a move of more than 50 pixels to the left advances, more than 50 to the right flips, anything else is ignored |
| Input.ClassifyKey | app.js:187-195 | ArrowRight and space advance; ArrowLeft and Enter flip; other keys do nothing |
| Input.PreventsDefault | app.js:188-193 | the default action is suppressed exactly for the keys that act |
| Session.UsablePayload | app.js:30 | the payload is an array with at least one element |
| Session.JsRem | app.js:150 | JavaScript's `%`: the remainder of the quotient rounded toward zero, bounded by the divisor in magnitude, never positive for a non-positive operand, the mathematical remainder for non-negative operands, a small negative operand unchanged |
| Session.JsRemNegative | app.js:150 | `-7 % 3` is `-1`, not `2` |
| Session.NextIndex | app.js:150 | the new index is `i + 1` less a multiple of n rounded toward zero; from an index in range it stays in range and wraps from the last ticket to the first; from -1 it reaches 0; from [-n, -1) it climbs by one; from below -n it lands in (-n, 0] |
| Session.NextIndexClimbs | app.js:149-152 | below the last ticket, k advances move k places forward |
| Session.NextIndexCompose | app.js:149-152 | a advances followed by b advances are a + b advances |
| Session.CycleReturns | app.js:149-152 | as many advances as there are tickets return to the starting ticket |
| Session.RestoreIndex | app.js:40-46 | a restored index is below the ticket count (or 0 without tickets); a saved index below the count is kept, one at or past it becomes 0; without one the index is unchanged |
| Session.Session.constructor | app.js:1-4 | the initial state: no tickets, index 0, nothing studied, face down, nothing rendered, the storage entries as given |
| Session.Session.UpdateDisplay | app.js:91-132 | no effect without tickets; fails without writing anything at a negative index; otherwise the card is rendered from the current ticket (its texts then follow by ShowsCurrentTicket), the counter and counts are refreshed, the flip is cleared when asked, the index is saved, and nothing else changes |
| Session.Session.Resume | app.js:34-48 | the payload becomes the ticket list, the studied set and the index are restored from storage (an index past the end becomes 0) without losing any studied ticket, and the first render runs face down; when it throws the page is as it was |
| Session.Session.Load | app.js:21-62 | a rejected fetch, a response that is not OK, a body that is not JSON and a payload that is not a non-empty array each show their diagnostic and leave no tickets, the index, the studied set and the page unchanged; a usable payload is resumed without losing any studied ticket, the card showing the texts of the restored ticket, and a render that throws shows its diagnostic with the page unchanged |
| Session.Session.FlipCard | app.js:135-146 | toggles the flip; turning face up adds the current index to the studied set, saves it and refreshes the counts; nothing is removed from the set |
| Session.Session.NextTicket | app.js:149-152 | moves to `(currentIndex + 1) % n`; at a ticket position the card shows that ticket's texts face down, the counter and counts are refreshed and the index saved; at a negative one the render throws and the page stays; the render fails only from an index below -1 |
| Session.Session.Perform | app.js:176-193 | advance has the whole effect of `nextTicket` on tickets, index, page and storage; flip has the whole effect of `flipCard`; ignore changes nothing |
| Session.Session.HandleSwipe | app.js:171-184 | a long left swipe has the whole effect of `nextTicket`, a long right swipe that of `flipCard`, a short one changes nothing |
| Session.Session.HandleKey | app.js:187-195 | ArrowRight and space have the whole effect of `nextTicket`, ArrowLeft and Enter that of `flipCard`, and all four suppress the default; any other key changes nothing |
| Session.ShowsCurrentTicket | app.js:94-112 | after a render the card shows the number, question and answer derived from the current ticket |
| Session.Reopen | app.js:34-48 | a new session over the storage a rendered session left, given the same tickets, renders successfully at the index that was on screen, with the stored studied set (none stored: nothing studied) |
| Session.WalkThrough | app.js:135-152 | two tickets taken, Enter, ArrowRight, space: back at index 0 with ticket 0 studied, one studied and one remaining |
| Converter.ClassifyName | convert_excel_to_json.py:42-47 | "Номер билета" exactly when "номер" or "билет" occurs; "Вопрос" exactly when "вопрос" occurs and neither number word does; "Ответ" exactly when only "ответ" of the four occurs; no target name exactly when none does |
| Converter.Classify | convert_excel_to_json.py:41-47 | the target name depends only on which words the lower-cased name contains, whatever whitespace surrounds it |
| Converter.WordsIgnoreStrip | convert_excel_to_json.py:41 | stripping the lower-cased name does not change its classification |
| Converter.NumberNameIsFixed | convert_excel_to_json.py:42-43 | a column already named "Номер билета" keeps that name |
| Converter.QuestionNameIsFixed | convert_excel_to_json.py:44-45 | a column already named "Вопрос" keeps that name |
| Converter.AnswerNameIsFixed | convert_excel_to_json.py:46-47 | a column already named "Ответ" keeps that name |
| Converter.NormalName | convert_excel_to_json.py:41-51 | an unrecognised column keeps its name; a lower-cased name containing "номер" or "билет" becomes "Номер билета", otherwise one containing "вопрос" becomes "Вопрос", otherwise one containing "ответ" becomes "Ответ" |
| Converter.NormalNameIdempotent | convert_excel_to_json.py:39-51 | normalising column names twice is the same as once |
| Converter.ColumnMapping | convert_excel_to_json.py:39-47 | the mapping's keys are exactly the recognised columns, each mapped to its target name |
| Converter.Rename | convert_excel_to_json.py:50-51 | mapped columns take their new name, the others keep theirs |
| Converter.CleanCell | convert_excel_to_json.py:63-68 | a cleaned cell never holds a carriage return, and is empty exactly when the cell was missing or blank |
| Converter.CleanCellNoEscape | convert_excel_to_json.py:68 | no `_x000D_` escape survives cleaning, including one the later rewrites might have formed |
| Converter.CleanCellExample | convert_excel_to_json.py:63-68 | the cell " a_x000D_b\r\nc\rd " is cleaned to "a\nb\nc\nd": the escape, the Windows line end and the lone carriage return each become one line feed |
| Converter.CleanPlainCell | convert_excel_to_json.py:63-68 | a cell without carriage returns and without `_x000D_` is only stripped |
| Converter.CleanLoneCarriageReturns | convert_excel_to_json.py:66-68 | without `_x000D_` and Windows line ends, every carriage return left after stripping becomes a line feed and nothing else changes |
| Converter.MakeTicket | convert_excel_to_json.py:59-70 | the ticket has exactly the frame's columns as keys, in column order, each with its cleaned cell |
| Converter.TicketContent | convert_excel_to_json.py:63-73 | no ticket value holds a carriage return; a ticket has content exactly when some cell of its row is present and not blank |
| Converter.Emitted | convert_excel_to_json.py:57-74 | at most one ticket per row; every emitted ticket has content and one entry per column |
| Converter.Kept | convert_excel_to_json.py:72-74 | the emitted rows are exactly those with a present, non-blank cell, in increasing position |
| Converter.EmittedSelectsRows | convert_excel_to_json.py:57-74 | the k-th ticket is the ticket of the k-th kept row: the rows with content, in their original order |
| Converter.HasContent | convert_excel_to_json.py:73 | `any(ticket.values())`: some value is a non-empty string |
| Converter.DropMissingRows | convert_excel_to_json.py:54 | only rows with some present cell remain, each one of the original rows |
| Converter.DropMissingRowsKeeps | convert_excel_to_json.py:54 | every row with some present cell is kept |
| Converter.DropMissingRowsRedundant | convert_excel_to_json.py:54-74 | dropping the entirely missing rows does not change the tickets emitted |
| Converter.BuildTickets | convert_excel_to_json.py:57-74 | the row loop emits exactly the tickets of the rows with content, in order |
| Converter.BuildTicket | convert_excel_to_json.py:59-70 | the column loop builds the row's dictionary: one entry per column, in column order, holding the cleaned cell |
| Converter.Convert | convert_excel_to_json.py:38-74 | the columns carry their normalised names, and the tickets are those of the rows with content |
| Pipeline.ConvertedQuestionShown | app.js:99 | a non-empty converted question column is what the app shows as the question |
| Pipeline.ConvertedAnswerShown | app.js:100-111 | a non-blank converted answer column is shown verbatim without the empty-answer style |
| Pipeline.ConvertedNumberShown | app.js:98 | a non-empty converted number column labels the card |

## Left out

- sw.js (caching through the browser's Cache Storage and `fetch`) and
  create_icons.py (image drawing and PNG output) are not part of this model.
- DOM writes, event-listener wiring, service-worker registration and the
  loading overlay's HTML are not modelled. The page is represented by the
  fields `shown`, `counter`, `stats`, `flipped` and `overlay`.
- `fetch`, `response.json()` and `localStorage` are modelled as inputs. The
  stored index arrives already parsed as an integer: `parseInt` yielding
  `NaN` and an empty stored string (falsy, so ignored) are not modelled. The
  stored studied set arrives as a set, so its order in storage is not
  modelled.
- A payload that is not an array leaves the ticket list empty in the model.
  The source stores that value in `tickets` before rejecting it.
- A `null` ticket, on which `hasOwnProperty` throws (app.js:68), is not
  modelled. Nor are tickets that are numbers, booleans or strings, which do
  not throw: they have no own properties matching a candidate name (a
  string's own keys are its indices), so they are shown as a record without
  any matching key would be. Values other than strings are carried with
  their `String(value)` text.
- The progress bar width (app.js:123) is floating-point division and is not
  modelled.
- Session.Session.NextTicket: requires a non-empty ticket list, and so do
  Perform, HandleSwipe and HandleKey on an advancing input. Without tickets
  (an ArrowRight, space or left swipe before the data arrives) the source
  sets the index to `NaN` and the render does nothing. When no index is
  saved, `loadData` keeps that `NaN`, the first render throws on
  `tickets[NaN]` and the load fails with the diagnostic shown.
- Session.Session.Load: requires a session that has not loaded yet, since
  the source calls `loadData` once.
- Screen coordinates of touches are modelled as integers.
- Text.Lower: lower-cases ASCII letters and the Cyrillic capitals
  U+0400–U+042F only, not the whole of Unicode.
- Text.IsSpace: whitespace is the ASCII set. Python's `strip` also removes
  U+001C to U+001F, which JavaScript's `trim` keeps, and both remove other
  Unicode spaces.
- The spreadsheet reading fallbacks (openpyxl, xlrd, CSV with `;` then `,`)
  and `str()` of non-string cells are not modelled. The table arrives as
  column names and rows of optional strings.
- The JSON output, console messages and the interactive command line of the
  converter are not modelled.
- Converter.MakeTicket: two columns renamed to the same name are kept as two
  entries. In the source the renamed frame then has a duplicated label:
  `row[col]` (convert_excel_to_json.py:61) is a Series rather than one cell,
  `if pd.isna(value)` (line 63) raises ValueError, and the handler at lines
  86-92 prints the error and returns False, so no tickets.json is written.
  Such a collision arises from plausible headers: "Ответ на вопрос" contains
  "вопрос", which is tested before "ответ" (line 44), so it is renamed
  "Вопрос" beside the real question column. The model does not capture this
  failure.
- Session.Session.UpdateDisplay: the page keeps the index of the ticket
  rendered (`shown`), not a copy of the texts; `ShownCard` derives the texts
  from it, and the `Display` lemmas state what they are.
- Session.Session.Perform: requires loaded tickets for an advancing
  command, for the `NaN` index described on the NextTicket line. On an
  advancing input the contract states `Advanced()`, which fixes the
  rendered index; the card's texts follow from it by ShowsCurrentTicket
  rather than being repeated in the contract. The same holds for
  HandleSwipe and HandleKey.
- Session.Session.HandleSwipe: requires loaded tickets for a left swipe of
  more than 50 pixels; before the data arrives the source sets the index to
  `NaN`, as on the NextTicket line.
- Session.Session.HandleKey: requires loaded tickets for ArrowRight and
  space; before the data arrives the source sets the index to `NaN`, as on
  the NextTicket line.
- Converter.DropMissingRows: the order of the kept rows is not stated on
  its own; DropMissingRowsRedundant shows that the tickets emitted after the
  drop are those of the whole table, in order.
- `json.dump` (convert_excel_to_json.py:77-78) and `JSON.parse` (app.js:27)
  are not modelled; `AsRecord` reads a converted ticket back with its keys
  in the written order. JavaScript lists keys that are array indices (a
  column named "1", say) first, in ascending order, so such a column would
  move; the lemmas about converted tickets assume the order is kept.
