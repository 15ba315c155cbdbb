# Cookie manager extension: whitelist parsing and the cookie filter

A Dafny model of the two pieces of decision logic in the Chrome cookie
manager extension (`Project3/ChromeExtensionACM`):

- **The whitelist editor** on the options page. On submit, the text typed
  into the whitelist input is split at every comma, each piece is trimmed
  and the empty pieces are dropped; the resulting list of domains is what
  gets stored. On load, a stored list is written back into the input as
  `join(', ')`. The model has `Whitelist.ParseWhitelist` and
  `Whitelist.RenderWhitelist`. It also has `Whitelist.LoadInput`, which is
  the load handler's guard: only a stored array replaces the input.
- **The cookie filter** of the popup (`filterCookies`). The filter text is
  lower-cased. Every row of the cookie table is then shown when that text
  occurs in the lower-cased name, value or domain cell (cells 1, 2 and 3),
  and hidden otherwise. The model works on a sequence of `CookieFilter.Row`
  values, each holding its cell texts and its display flag. It also models
  what happens on a row with fewer than four cells: reading a missing cell
  throws a TypeError. The rows before that row have already been updated
  and the rest stay untouched (`CookieFilter.Outcome`).

The JavaScript string built-ins these rely on are modelled in `Strings`:

- `split` on a one-character separator, `join` and `trim`;
- `toLowerCase`;
- `includes`, with a recursive scan shown equal to the existence of an
  occurrence.

`trim` removes exactly the ECMAScript WhiteSpace and LineTerminator code
points.

Files: `strings.dfy` (module `Strings`), `whitelist.dfy` (module
`Whitelist`), `cookie_filter.dfy` (module `CookieFilter`).

## Model

| member | source | states |
|---|---|---|
| Whitelist.ParseWhitelist | Project3/ChromeExtensionACM/options.js:29-36 | every parsed domain is non-empty, has no white space at either end and contains no comma; there are at most one more domains than commas in the input |
| Whitelist.ParseAppend | Project3/ChromeExtensionACM/options.js:30-36 | parsing `a + "," + b` gives the domains of `a` followed by those of `b`, so order is kept and nothing is merged or removed across a comma |
| Whitelist.ParseSingle | Project3/ChromeExtensionACM/options.js:31-36 | a comma-free piece parses to its trimmed text, or to nothing when that is empty |
| Whitelist.ParseEmptyIff | Project3/ChromeExtensionACM/options.js:30-36 | the parse is empty exactly when the input consists only of commas and white space, the empty input included |
| Whitelist.ParseEmpty | Project3/ChromeExtensionACM/options.js:29-36 | the empty input has no domains |
| Whitelist.ParseSpace | Project3/ChromeExtensionACM/options.js:31-36 | a lone space parses to no domain |
| Whitelist.ParseLeadingSpace | Project3/ChromeExtensionACM/options.js:31-33 | a white-space character in front of the input does not change the parse |
| Whitelist.ParseEntry | Project3/ChromeExtensionACM/options.js:29-36 | a well-formed domain typed on its own parses to itself |
| Whitelist.ParsePadded | Project3/ChromeExtensionACM/options.js:31-33 | a well-formed domain with a space on either side parses to itself |
| Whitelist.ParseKeepsDuplicates | Project3/ChromeExtensionACM/options.js:30-36 | a domain entered twice is kept twice |
| Whitelist.SaveExample | Project3/ChromeExtensionACM/options.js:29-36 | for any two domains a and b, the input " a, , b ,a" is stored as [a, b, a]: padding is trimmed, the empty piece is dropped, order and duplicates are kept |
| Whitelist.RenderCons | Project3/ChromeExtensionACM/options.js:21 | `join(', ')` writes a comma and a space between the first domain and the rest |
| Whitelist.RoundTrip | Project3/ChromeExtensionACM/options.js:21-36 | rendering a list of well-formed domains and parsing the text gives the same list back |
| Whitelist.ParseRenderParse | Project3/ChromeExtensionACM/options.js:21-36 | re-rendering and re-parsing a parsed list changes nothing |
| Whitelist.LoadInput | Project3/ChromeExtensionACM/options.js:19-23 | only a stored array replaces the input text; when the array holds well-formed domains, submitting the loaded text unchanged stores the same list again |
| Whitelist.RenderWhitelist | Project3/ChromeExtensionACM/options.js:21 | the load handler's `join(', ')`; its meaning is stated by `RenderCons` (a comma and a space between entries) and `RoundTrip` (parsing the text gives the list back) |
| Whitelist.TrimEach | Project3/ChromeExtensionACM/options.js:31-33 | the `map(trim)` step keeps the number of pieces; `TrimEachAt` states that piece k is piece k of the input, trimmed |
| Whitelist.LoadRoundTrip | Project3/ChromeExtensionACM/options.js:19-23 | for any stored list, if every entry is one the parser could produce, parsing its rendering gives the list back |
| Whitelist.DropEmpty | Project3/ChromeExtensionACM/options.js:34-36 | the kept pieces are non-empty and are all among the input pieces |
| Whitelist.DropEmptyAppend | Project3/ChromeExtensionACM/options.js:34-36 | dropping empty pieces distributes over concatenation, so the kept pieces stay in order |
| Whitelist.TrimEachAt | Project3/ChromeExtensionACM/options.js:31-33 | piece k of the mapped list is piece k of the input, trimmed |
| Whitelist.TrimEachEntries | Project3/ChromeExtensionACM/options.js:30-33 | trimming comma-free pieces gives trimmed, comma-free strings |
| Strings.Join | Project3/ChromeExtensionACM/options.js:21 | `Array.prototype.join`; `JoinSplit` states that it undoes `split` with the same separator |
| Strings.Trim | Project3/ChromeExtensionACM/options.js:32 | `String.prototype.trim`; `TrimCore` and `TrimUnique` together state that it returns the one slice with only white space around it and none at its ends |
| Strings.Lower | Project3/ChromeExtensionACM/popup.js:31 | `toLowerCase`, character by character on ASCII letters; `LowerIdempotent` states that it is idempotent and leaves no upper-case letter |
| Strings.Contains | Project3/ChromeExtensionACM/popup.js:38 | `String.prototype.includes`; `ContainsIffSubstring` states that it holds exactly when the pattern occurs somewhere in the text |
| Strings.Split | Project3/ChromeExtensionACM/options.js:30 | `split(',')` gives one more piece than there are commas, and no piece contains a comma |
| Strings.JoinSplit | Project3/ChromeExtensionACM/options.js:30 | joining the pieces of a split with the separator gives back the original text |
| Strings.SplitAppend | Project3/ChromeExtensionACM/options.js:30 | splitting `a + "," + b` gives the pieces of `a` followed by those of `b` |
| Strings.SplitNoSeparator | Project3/ChromeExtensionACM/options.js:30 | a text without a comma splits into itself alone |
| Strings.TrimStartSpec | Project3/ChromeExtensionACM/options.js:32 | removing leading white space leaves a suffix of the text, removes only white space and stops at a non-space character |
| Strings.TrimEndSpec | Project3/ChromeExtensionACM/options.js:32 | removing trailing white space leaves a prefix of the text, removes only white space and stops at a non-space character |
| Strings.TrimCore | Project3/ChromeExtensionACM/options.js:32 | `trim` returns a slice of its input that neither starts nor ends with white space, with only white space cut on either side |
| Strings.TrimUnique | Project3/ChromeExtensionACM/options.js:32 | any slice with only white space around it and none at its ends is exactly what `trim` returns |
| Strings.TrimEmptyIff | Project3/ChromeExtensionACM/options.js:32-35 | `trim` gives the empty string exactly when the text is all white space |
| Strings.TrimTrimmed | Project3/ChromeExtensionACM/options.js:32 | `trim` leaves a text without outer white space unchanged |
| Strings.TrimLeadingSpace | Project3/ChromeExtensionACM/options.js:32 | a leading white-space character does not change the result of `trim` |
| Strings.TrimIsTrimmed | Project3/ChromeExtensionACM/options.js:32 | the result of `trim` has no white space at either end |
| Strings.TrimChars | Project3/ChromeExtensionACM/options.js:32 | every character of the result of `trim` occurs in its input |
| Strings.LowerIdempotent | Project3/ChromeExtensionACM/popup.js:31 | lower-casing twice is lower-casing once, and a lower-cased text has no upper-case letter |
| Strings.ContainsIffSubstring | Project3/ChromeExtensionACM/popup.js:38 | `includes` holds exactly when the pattern occurs at some position of the text |
| Strings.ContainsEmpty | Project3/ChromeExtensionACM/popup.js:38 | every text includes the empty string |
| Strings.SubstringTransitive | Project3/ChromeExtensionACM/popup.js:38 | a substring of a substring is a substring |
| Strings.SubstringLower | Project3/ChromeExtensionACM/popup.js:31-37 | lower-casing keeps a substring a substring |
| CookieFilter.RowMatches | Project3/ChromeExtensionACM/popup.js:35-38 | the per-row test of `filterCookies`; `RowMatchesIff` states that it holds exactly when the lower-cased filter is a substring of the lower-cased name, value or domain |
| CookieFilter.Show | Project3/ChromeExtensionACM/popup.js:38-42 | sets a row's display flag from the test; `ApplyFilterRow` states that a reached row gets the test's verdict and keeps its cells |
| CookieFilter.ApplyFilter | Project3/ChromeExtensionACM/popup.js:30-44 | one run over the table keeps the number of rows |
| CookieFilter.ApplyFilterOutcome | Project3/ChromeExtensionACM/popup.js:33-37 | the run completes exactly when every row has its name, value and domain cells; otherwise it throws at the first row without them |
| CookieFilter.ApplyFilterRow | Project3/ChromeExtensionACM/popup.js:33-43 | a row's cells never change; a row the run reached gets the filter's verdict, and a row after the failing one is left as it was |
| CookieFilter.ApplyFilterSpec | Project3/ChromeExtensionACM/popup.js:30-44 | the outcome and per-row facts above, for all rows at once |
| CookieFilter.RowMatchesIff | Project3/ChromeExtensionACM/popup.js:31-38 | a row passes exactly when the lower-cased filter is a substring of its lower-cased name, value or domain |
| CookieFilter.VisibleIff | Project3/ChromeExtensionACM/popup.js:31-42 | on a well-formed table the run completes, and a row ends up visible exactly when the lower-cased filter occurs in one of its lower-cased text cells |
| CookieFilter.EmptyFilterShowsAll | Project3/ChromeExtensionACM/popup.js:38-39 | with the empty filter every row the run reaches is shown |
| CookieFilter.CaseInsensitive | Project3/ChromeExtensionACM/popup.js:31-37 | two filters equal after lower-casing have the same effect on any table |
| CookieFilter.LowerFilterSame | Project3/ChromeExtensionACM/popup.js:31 | typing the filter in any mix of cases is the same as typing it in lower case |
| CookieFilter.Idempotent | Project3/ChromeExtensionACM/popup.js:33-43 | running the filter a second time gives the same table as running it once |
| CookieFilter.ClearRestores | Project3/ChromeExtensionACM/popup.js:30-44 | on a table whose rows all have four cells, clearing the filter after any filter shows every row again, with the rows, their order and their text as they were |
| CookieFilter.MatchMonotonic | Project3/ChromeExtensionACM/popup.js:38 | a row that passes a filter passes every substring of that filter |
| CookieFilter.FilterMonotonic | Project3/ChromeExtensionACM/popup.js:38-42 | on any table, a row visible under a filter is also visible under every substring of that filter |
| CookieFilter.OnlyTextCellsMatter | Project3/ChromeExtensionACM/popup.js:35-37 | when every row up to it has its four cells, rows that agree on cells 1 to 3 get the same display flag, whatever their other cells, their earlier flag and any short row after them |

## Left out

- `background.js` only logs install and cookie-change events; it makes no decisions.
- `loadCookies` in `popup.js` is an empty function, so there is nothing to model. Building the table from the cookie API is not part of the source.
- DOM access is not modelled: `getElementById`, `querySelectorAll`, `style.display`, `textContent` and the input's `value`. Rows are plain values, and the input text is a string argument.
- `chrome.storage.sync.get` and `set` are not modelled, being asynchronous storage I/O. `LoadInput` takes the stored value as a parameter instead.
- The "Whitelist saved!" alert and all event-listener registration are not modelled, as they are UI and wiring.
- `Strings.Lower`: maps only `A`-`Z` to `a`-`z`. JavaScript's `toLowerCase` applies full Unicode case mapping, which can also change a string's length. The model is exact on ASCII text.
- `Strings.SubstringLower`: holds because `Lower` maps one character at a time. JavaScript's `toLowerCase` applies the context-sensitive Final_Sigma rule: "ΑΣ" becomes "ας" but "ΑΣΒ" becomes "ασβ". So lower-casing a substring does not always give a substring of the lower-cased text.
- `CookieFilter.MatchMonotonic`: relies on `SubstringLower`, so it holds for per-character lower-casing only. In the program a name cell "ΑΣΒ" passes the filter "ΑΣΒ" but fails its part "ΑΣ", because of Greek final sigma.
- `CookieFilter.FilterMonotonic`: the same restriction as `MatchMonotonic`. In the program, a part of a filter that ends in a capital sigma can hide a row that the whole filter shows.
- JavaScript strings are UTF-16 code units. The model's `char` is a Unicode scalar value. For text without surrogate pairs the two coincide.
- `Whitelist.LoadInput`: the stored value is either absent, not an array, or an array of strings. Arrays that hold non-strings, where `join` would call `toString` on each element, are not modelled.
- The check of a cookie's domain against the whitelist is not modelled: none of `options.js`, `popup.js` and `background.js` contains it.
- `CookieFilter.ApplyFilter`: its function contract states only that the row count is kept. Everything else it does is stated in the lemmas `ApplyFilterOutcome`, `ApplyFilterRow` and `ApplyFilterSpec`, so that the facts are not re-proved at every use.
