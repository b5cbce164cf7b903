# Course site search: a Dafny model

This project models the two pieces of the course website that carry logic.

- **The autocomplete search block** (`blocks/search/search.js`). Its event handlers share a few
  closure variables: the focus index `currentFocus`, the last results `searchResults`, and the
  debounce timer. They also share the input value, the open/closed look, the results listbox,
  `aria-expanded` and the live status text. The model is the class `SearchWidget.Widget`, with
  those fields and one method per event: open, close, the keydown handler (Escape, ArrowDown,
  ArrowUp, Enter), input, the timer firing, and hovering or clicking an option. The matching step
  behind `fetchSearchResults` is a pure filter followed by "take five". It is the function
  `SearchQuery.FetchSearchResults`.
- **The course indexer** (`scripts/index.js`). `generateIndex` walks the rows of the rendered
  course table, skips the two header rows, and pushes one record per row of at least eight
  columns. The model is the loop method `CourseIndex.GenerateIndex`. It is proved equal to the
  recursive function `CourseIndex.Index`, and the lemmas about `Index` state the properties.

The JavaScript built-ins these rely on are modelled in `JsText` and `UriComponent`:

- `trim`, with the exact ECMAScript whitespace set
- `toLowerCase`
- `includes`
- `length`, counted in UTF-16 code units
- the decimal rendering of a count
- `encodeURIComponent`, with a decoder that proves the encoding loses nothing

Effects become values:

- A navigation is a returned `Action` (`Stay`, `Go(path)` or `SearchPage(query)`).
- The debounce timer is a pending query (`Option<string>`).
- The timer firing is an explicit event. It carries the fetched index as an
  `Option<seq<SearchRecord>>`, where `None` stands for a failed fetch or parse.

The model follows the code, including where it does less than a careful autocomplete would:

- A completed search does not reset the focus, so the focus can point past the end of the new
  results. `SearchScenarios.SearchKeepsStaleFocus` shows the consequence.
- Closing does not cancel an armed timer. `SearchScenarios.CloseKeepsArmedSearch` shows a closed
  widget whose listbox is shown again once the timer fires.
- A query of one or two UTF-16 code units hides the listbox, but keeps the results and the focus.
- A search that finds nothing leaves `aria-expanded` as it was.
- The code has no guard against an out-of-order response, so a slow fetch for an earlier query
  could overwrite the results of a later one. The model cannot express that race, because a fetch
  settles in the same event that fires its timer (see the line on asynchronous interleaving under
  "## Left out").

Files:

- `wrappers.dfy`: the `Option` datatype.
- `js_text.dfy`: the JavaScript string built-ins.
- `uri_component.dfy`: `encodeURIComponent` and its inverse.
- `search_query.dfy`: record matching, filtering and taking the first five.
- `search_widget.dfy`: the widget's state and event handlers.
- `search_scenarios.dfy`: short sequences of events.
- `course_index.dfy`: `generateIndex`.

## Model

| member | source | states |
|---|---|---|
| SearchQuery.Filter | blocks/search/search.js:98-102 | The filtered list is no longer than the index, and a record is in it iff it is in the index and its lowered title or description contains the lowered query. |
| SearchQuery.FetchSearchResults | blocks/search/search.js:90-110 | A failed fetch gives no results. Otherwise the results are the first min(5, number of matches) matching records, in index order. Every result matches and comes from the index. There are never more than five. |
| SearchQuery.FilterAppend | blocks/search/search.js:98-102 | Filtering keeps index order: filtering a concatenation concatenates the filtered parts. |
| SearchQuery.AllMatchesShownWhenFew | blocks/search/search.js:98-104 | When at most five records match, every matching record of the index is among the results. |
| SearchQuery.UntitledNeverMatches | blocks/search/search.js:99-101 | A record whose title and description are each absent or empty never matches, whatever the query. |
| SearchQuery.VerbatimTitleMatches | blocks/search/search.js:95-101 | A record whose title contains the query verbatim matches: the comparison is case-insensitive. |
| SearchQuery.MatchesLoweredQuery | blocks/search/search.js:95 | Lowering the query before the search changes nothing about which records match. |
| JsText.TrimStart | blocks/search/search.js:243 | Removing leading whitespace leaves a string that is no longer and starts with a non-blank. |
| JsText.TrimStartSplits | blocks/search/search.js:243 | What is kept is a suffix of the string, and everything dropped before it is whitespace. |
| JsText.TrimEnd | blocks/search/search.js:243 | Removing trailing whitespace leaves a string that is no longer and ends with a non-blank. |
| JsText.TrimEndSplits | blocks/search/search.js:243 | What is kept is a prefix of the string, and everything dropped after it is whitespace. |
| JsText.Trim | blocks/search/search.js:243 | `trim` returns a string no longer than its argument with no whitespace at either end. |
| JsText.TrimSplits | scripts/index.js:12-19 | `trim` returns the infix left once the leading and trailing whitespace is dropped: everything outside it is whitespace. |
| JsText.TrimIdempotent | blocks/search/search.js:232 | Trimming twice is trimming once. |
| JsText.TrimOfTrimmed | blocks/search/search.js:232 | A string whose ends are not blank is left unchanged by `trim`. |
| JsText.TrimEmptyIff | blocks/search/search.js:262 | The trimmed query is empty iff the input is all whitespace. |
| JsText.TrimChars | scripts/index.js:19 | `trim` introduces no character that was not in its argument. |
| JsText.LowerChar | blocks/search/search.js:95 | A lowered character is never an upper-case ASCII letter. An upper-case letter moves to its lower-case partner, and any other character is kept. |
| JsText.ToLowerCase | blocks/search/search.js:95 | Lowering keeps the length and lowers each character in place. |
| JsText.ToLowerCaseIdempotent | blocks/search/search.js:95 | Lowering twice is lowering once. |
| JsText.IncludesIff | blocks/search/search.js:99-100 | `includes` holds iff the query occurs at some position of the text. |
| JsText.IncludesLowered | blocks/search/search.js:99-100 | A substring stays a substring once both sides are lowered. |
| JsText.Utf16Length | blocks/search/search.js:248 | The `length` of a string is between its number of code points and twice that. A single code point counts two exactly when it is above U+FFFF. |
| JsText.Utf16LengthAppend | blocks/search/search.js:248 | The `length` of a concatenation is the sum of the parts' lengths. With the one-code-point case, this fixes the exact count the three-unit threshold compares. |
| JsText.DigitChar | blocks/search/search.js:257 | A value below ten renders as the decimal digit of that value. |
| JsText.NumberToString | blocks/search/search.js:257 | A count renders as a non-empty string of decimal digits with no leading zero. |
| JsText.NumberToStringRoundTrip | blocks/search/search.js:257 | Reading the rendered count back gives the count. |
| UriComponent.Utf8 | blocks/search/search.js:234 | A code point encodes in shortest-form UTF-8: one byte below U+0080, two below U+0800, three below U+10000, else four. Every byte after the first is a continuation byte (0x80 to 0xBF). |
| UriComponent.HexDigit | blocks/search/search.js:234 | Escapes use upper-case hexadecimal digits. |
| UriComponent.PercentBytes | blocks/search/search.js:234 | Each escaped byte takes three characters, each unreserved or `%`. |
| UriComponent.PercentBytesLayout | blocks/search/search.js:234 | Byte `i` is written at positions `3i` to `3i + 2`: `%`, then the upper-case hexadecimal digits of its high and low halves. |
| UriComponent.Encode | blocks/search/search.js:234 | The encoded query is at least as long as the query, and every character of it is unreserved or `%`: it is safe inside a URL parameter. |
| UriComponent.EscapedAll | blocks/search/search.js:234 | The escaped units of a byte string are escapes, one per byte, each holding its byte. |
| UriComponent.HexDigitValue | blocks/search/search.js:234 | A hexadecimal digit reads back as the value it was written for. |
| UriComponent.UnescapeOneEscape | blocks/search/search.js:234 | One escape `%XY` reads back as its byte, in front of whatever follows it reads as. |
| UriComponent.UnescapePercentBytes | blocks/search/search.js:234 | Reading back percent-escaped bytes gives those bytes, followed by whatever the rest reads as. |
| UriComponent.TwoByteArithmetic | blocks/search/search.js:234 | A two-byte UTF-8 sequence has a valid lead byte and decodes to its code point. |
| UriComponent.ThreeByteArithmetic | blocks/search/search.js:234 | A three-byte UTF-8 sequence has a valid lead byte and decodes to its code point. |
| UriComponent.FourByteArithmetic | blocks/search/search.js:234 | A four-byte UTF-8 sequence has a valid lead byte and decodes to its code point. |
| UriComponent.Utf8Decodes | blocks/search/search.js:234 | The lead byte of each character's encoding announces the encoding's length, and the bytes decode back to the character. |
| UriComponent.UnescapeEncode | blocks/search/search.js:234 | Unescaping an encoded query gives back, for each character, the literal or the escaped UTF-8 bytes it was written as. |
| UriComponent.Utf8DecodeUnits | blocks/search/search.js:234 | Those units decode to the original characters. |
| UriComponent.EncodeRoundTrip | blocks/search/search.js:234 | Decoding `encodeURIComponent(q)` gives `q` back for every query: the encoding loses nothing. |
| SearchWidget.SearchPageCarriesQuery | blocks/search/search.js:234 | The search-page URL is `/search?q=` followed by a parameter that decodes to the query. |
| SearchWidget.Options | blocks/search/search.js:114 | The navigable options are no more than the listbox's children. |
| SearchWidget.OptionsAppend | blocks/search/search.js:114 | The navigable options of consecutive parts of the listbox are the parts' options, in document order. |
| SearchWidget.OptionsStep | blocks/search/search.js:114-115 | One more child adds one navigable position when it is an option, and none for the placeholder. |
| SearchWidget.Render | blocks/search/search.js:127-170 | No results render as the "No results found." placeholder alone. Otherwise each result renders as one unselected option, in order. |
| SearchWidget.ShownOptions | blocks/search/search.js:114 | A listbox showing some results offers exactly those results as navigable options. The placeholder is not navigable. |
| SearchWidget.RenderShows | blocks/search/search.js:127-170 | A rendered listbox shows its results. |
| SearchWidget.Highlighted | blocks/search/search.js:113-124 | Marking the focused option keeps the number of children. |
| SearchWidget.HighlightedShows | blocks/search/search.js:113-124 | Marking the focused option keeps what the listbox shows. |
| SearchWidget.OptionsGrow | blocks/search/search.js:114-115 | An option further down the listbox has a later position among the navigable options. |
| SearchWidget.HighlightedMarksAtMostOne | blocks/search/search.js:115-122 | After `updateFocus`, no two options are marked. |
| SearchWidget.HighlightedMarksFocus | blocks/search/search.js:115-118 | After `updateFocus`, the option at a valid focus is marked and holds the focused result. |
| SearchWidget.FocusDown | blocks/search/search.js:218 | With some options and a focus of at least -1, ArrowDown lands on an option. It lands on the first option iff the focus was on or past the last option, or there was no focus. |
| SearchWidget.FocusUp | blocks/search/search.js:224 | With some options, ArrowUp moves a positive focus up one, and sends a focus of 0 or -1 to the last option. It lands on an option unless the focus was more than one place past the end (focus > n), in which case it stays past the end. |
| SearchWidget.FocusUpDownInverse | blocks/search/search.js:215-226 | On a focused option, ArrowUp undoes ArrowDown and ArrowDown undoes ArrowUp. |
| SearchWidget.FocusDownTimes | blocks/search/search.js:218 | Repeated ArrowDown from an option stays on an option. |
| SearchWidget.FocusDownCycles | blocks/search/search.js:215-220 | Up to `n` presses of ArrowDown move the focus that many places on, wrapping past the last option. So `n` presses return to the start. |
| SearchWidget.FocusDownReachesAll | blocks/search/search.js:215-220 | Every option is reached from any focused option in fewer than `n` presses of ArrowDown. |
| SearchWidget.EnterOutcome | blocks/search/search.js:227-236 | Enter goes to a result iff the focus names an option, and then to that result's path. Otherwise it goes to the search page for the trimmed, non-empty input. It does nothing iff there is no focused option and the trimmed input is empty. |
| SearchWidget.ResultStatus | blocks/search/search.js:256-260 | With results, the status is "N result found for Q." or "N results found for Q.", with the plural iff N is not 1. With none, it is "Q - did not return any results.". |
| SearchWidget.ResultStatusCount | blocks/search/search.js:257 | The number at the head of a results message reads back as the number of results. |
| SearchWidget.ResultStatusNamesQuery | blocks/search/search.js:256-260 | The status message always contains the query. |
| SearchWidget.Widget.constructor | blocks/search/search.js:39-87 | A freshly built widget is closed, with an empty hidden listbox, no focus, no results and no timer. |
| SearchWidget.Widget.Open | blocks/search/search.js:173-184 | Opening shows the bar, sets the prompt status and collapses the combobox. Nothing else changes. |
| SearchWidget.Widget.Close | blocks/search/search.js:187-203 | From any state, closing gives an empty input, focus -1, no results, an emptied hidden listbox, `aria-expanded` false and an empty status. The timer is untouched. |
| SearchWidget.Widget.UpdateFocus | blocks/search/search.js:113-124 | The loop marks exactly the navigable option at position `currentFocus` and unmarks every other option. The placeholder is skipped. |
| SearchWidget.Widget.MoveDown | blocks/search/search.js:215-220 | With options, the focus moves down with wrap-around, always landing on an option, and the marks follow. With none, nothing changes. |
| SearchWidget.Widget.MoveUp | blocks/search/search.js:221-226 | With options, the focus moves up with wrap-around (from -1 to the last option), and the marks follow. With none, nothing changes. |
| SearchWidget.Widget.Submit | blocks/search/search.js:227-236 | Enter's outcome as above, read off the current state: a focused option's path, the search page for the trimmed input, or nothing. |
| SearchWidget.Widget.KeyDown | blocks/search/search.js:210-238 | Escape closes. The arrows move the focus and change nothing else. Enter changes nothing and returns its outcome. Other keys do nothing. |
| SearchWidget.Widget.HoverOption | blocks/search/search.js:159-162 | Hovering an option focuses it and marks it, keeping the results. |
| SearchWidget.Widget.ClickOption | blocks/search/search.js:154-156 | Clicking an option goes to the path of the result it was rendered for. |
| SearchWidget.Widget.Input | blocks/search/search.js:242-276 | The earlier timer is always cancelled. A trimmed query of three or more code units arms a timer for it and shows "Searching...". An empty query clears the listbox, focus and results. A one- or two-unit query hides the listbox and collapses the combobox, keeping focus and results. |
| SearchWidget.Widget.FireTimer | blocks/search/search.js:252-261 | The results become the first five matches for the pending query, rendered into a shown listbox. The status reports them. `aria-expanded` turns on only when something was found. The focus is not reset. |
| SearchScenarios.TypingSupersedesPendingSearch | blocks/search/search.js:242-261 | After two input events, only the second one's query can be pending. |
| SearchScenarios.CloseKeepsArmedSearch | blocks/search/search.js:187-261 | A search armed before closing still fires: the closed widget ends with a shown listbox and a status message. |
| SearchScenarios.SearchKeepsStaleFocus | blocks/search/search.js:127-261 | A search returning fewer results than the focused position leaves the focus past the end. Enter then does not follow a result, and ArrowUp stays past the end. |
| CourseIndex.StripQuotesAndNewlines | scripts/index.js:19 | The replacement leaves no double quote and no line feed, and adds no character. |
| CourseIndex.StripAppend | scripts/index.js:19 | The replacement works character by character: the result for a concatenation is the parts' results, concatenated. So every character other than a quote or line feed is kept, in order. |
| CourseIndex.StripOneChar | scripts/index.js:19 | A single character is removed exactly when it is a double quote or a line feed. |
| CourseIndex.StripKeepsCleanText | scripts/index.js:19 | Text without quotes or line feeds passes through unchanged. |
| CourseIndex.RowRecord | scripts/index.js:10-20 | A record has the page's path. Its code, title, description, type, mode, campus and duration are the trimmed columns 0 to 6, and its area is column 7 without quotes and line feeds, trimmed. |
| CourseIndex.RowRecordClean | scripts/index.js:12-19 | Every text field of a record is trimmed, and the area contains neither a double quote nor a line feed. |
| CourseIndex.RowRecordIgnoresExtraColumns | scripts/index.js:8-19 | Columns past the eighth play no part in a record. |
| CourseIndex.SourceRowsQualify | scripts/index.js:7-9 | Each row that becomes a record is past the two header rows and has at least eight columns. |
| CourseIndex.SourceRowsIncrease | scripts/index.js:7 | The rows that become records come in table order. |
| CourseIndex.SourceRowsComplete | scripts/index.js:7-9 | Every row past the header with at least eight columns becomes a record. |
| CourseIndex.IndexFromSources | scripts/index.js:7-21 | There is one record per qualifying row, and record `k` is the record of the `k`-th qualifying row. |
| CourseIndex.IndexLength | scripts/index.js:5-22 | There are at most `max(0, rows - 2)` records. |
| CourseIndex.IndexPaths | scripts/index.js:11 | Every record carries the page's path. |
| CourseIndex.IndexIgnoresHeader | scripts/index.js:7 | The two header rows never affect the records. |
| CourseIndex.IndexStep | scripts/index.js:7-21 | Each row past the header appends its record, if it has one, to the records of the rows before it. |
| CourseIndex.GenerateIndex | scripts/index.js:1-25 | The loop's output is the recursive `Index` of the rows, so every lemma above holds of it. |

## Left out

- The DOM and its styling are not modelled: element construction, CSS classes, inline styles,
  attribute strings and the focus call on the input. Only the abstract flags are kept: open,
  listbox hidden, `aria-expanded`, the status text and the option marks.
- `Math.random` for the block's unique id is left out: it only wires element ids.
- `fetch('/query-index.json')` and `response.json()` are network I/O. The parsed record list, or
  its failure, is an argument of `Widget.FireTimer`.
- The 300 ms delay of `setTimeout`/`clearTimeout` and the asynchronous interleaving of the timer
  and the fetch are not modelled. A timer is a pending query that fires as one event, which is
  why `FireTimer` requires an armed timer.
- `window.location.href` is not assigned. A navigation is returned as an `Action`, and `Href`
  gives its URL.
- JsText.ToLowerCase: lowers only the ASCII letters. JavaScript's full Unicode case mapping,
  including mappings that change the length, is not modelled.
- UriComponent.Decode: is stated only to prove that encoding loses nothing. It rejects surrogate
  code points, but it does not reject overlong forms, and it does not check that the bytes after a
  lead byte are continuation bytes (0x80 to 0xBF), as `decodeURIComponent` would.
- UriComponent.Encode: does not model the `URIError` that `encodeURIComponent` throws for a lone
  surrogate, because a Dafny `char` is always a Unicode scalar value and a query cannot hold one.
- SearchQuery.SearchRecord: the `path` of an index entry is taken to be a string. A missing path,
  and title or description values that are not strings, are not modelled. In the code, a `null`
  entry, or a truthy title or description that is not a string, makes the filter throw, and the
  `catch` then turns the whole search into no results. The model covers that outcome only as a
  fetch passed in as `None`.
- CourseIndex.GenerateIndex: the table rows are given as the texts of their column `div`s.
  `querySelectorAll('.courses-list > div')`, `querySelectorAll('div')` and `textContent` are not
  modelled. That includes how nested `div`s inside a column would be counted as extra columns.
- `blocks/teaser/teaser.js` and `blocks/alertbanner/alertbanner.js` are not part of this model.
  They only arrange DOM nodes and hide a banner.
