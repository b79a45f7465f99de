# Bsky "Click'n'Save" mini — a verified model of its core

The userscript `bsky-click-and-save.user.js` saves Bluesky images. A timer scans the page for feed thumbnails and gives each one a `contextmenu` listener. A right click on a thumbnail:

- turns the thumbnail URL into the full-size URL;
- derives the asset name from the URL's last segment;
- reads the author handle and post id from the post link, and the post date from the link's `aria-label`;
- saves the image as `[bsky] <handle>—<YYYY.MM.DD>—<post>—<asset>`.

The script also carries helpers: a response wrapper around `GM_xmlhttpRequest` (its `ok` flag and the header parser `parseHeaders`) and a small date formatter (`formatDate`, `pad0`, `DateFormatter`, `firefoxDateFix`, `dateToDayDateString`).

This project models these parts in Dafny and proves their properties. Modules:

- `Text` and `Decimal`: the JavaScript string and number primitives the script relies on.
  - `String.prototype.replace` with a string pattern replaces the first occurrence only.
  - `trim`, `toLowerCase`, `split`/`join` on one character.
  - `Number.prototype.toString`, `padStart`.
- `DateFormat`: the `DateFormatter` getters, the left-to-right token substitution of `formatDate`, `firefoxDateFix` and `dateToDayDateString`.
  - A `Date` is its UTC calendar fields, or `None` for an invalid date, whose getters give `NaN`.
  - The browser's date parser is a function parameter.
- `Http`: the `ok` rule and `parseHeaders`. `parseHeaders` is a loop method that builds a map and is proved equal to a fold over the lines.
- `AssetName`: the full-size URL, the last path segment, the first-`@` rewrite and the `jpeg` → `jpg` rewrite.
- `PostInfo`: `parseInfo` and the file-name template. `parseInfo` is the regular expression's leftmost match, proved against an independent description of a match.
- `Handler`: the `contextmenu` listener as a method that reassigns `filename` step by step. It returns the download request it would start.
- `Scanner`: the polling dedupe over `ws`.
  - A class holds the seen set and a count of attached listeners per element.
  - Its `Tick` method is proved against a step function.
  - The lemmas show that every element gets exactly one listener however many ticks see it.

## Model

| member | source | states |
|---|---|---|
| Text.ReplaceFirst | bsky-click-and-save.user.js:46 | with no occurrence of the pattern the string is returned unchanged; otherwise the first occurrence, and only it, is replaced |
| Text.Trim | bsky-click-and-save.user.js:139-141 | the result is a slice of the input that neither starts nor ends with white space, and everything cut off on both sides is white space |
| Text.ToLower | bsky-click-and-save.user.js:135 | same length, every character lower-cased one by one |
| Text.ToLowerIdempotent | bsky-click-and-save.user.js:141 | lower-casing twice is lower-casing once |
| Text.Split | bsky-click-and-save.user.js:139-140 | a split yields at least one piece and no piece contains the separator |
| Text.JoinSplit | bsky-click-and-save.user.js:140-141 | joining the pieces of a split with the same separator gives back the string |
| Text.SplitJoin | bsky-click-and-save.user.js:76 | splitting a join of separator-free pieces gives back the pieces |
| Text.SplitAtFirst | bsky-click-and-save.user.js:140 | the first piece is the text before the first separator, the rest are the pieces of the text after it |
| Text.SplitNoSeparator | bsky-click-and-save.user.js:140 | a string without the separator splits into itself alone |
| Decimal.NatToString | bsky-click-and-save.user.js:192 | non-empty, all decimal digits, no leading zero except for 0 itself |
| Decimal.IntToString | bsky-click-and-save.user.js:122 | the text starts with a minus sign exactly for a negative number, followed by the digits of its absolute value; a non-negative number prints as its digits |
| Decimal.DigitsValueOfNatToString | bsky-click-and-save.user.js:192 | reading back the printed digits gives the number |
| Decimal.NatToStringLength | bsky-click-and-save.user.js:192 | a number prints in at most w digits exactly when it is below 10^w |
| Decimal.PadStart | bsky-click-and-save.user.js:192 | the result has length max(\|s\|, width), ends with s and is filled with the pad character in front |
| Decimal.Pad0 | bsky-click-and-save.user.js:191-193 | the number's text, padded with zeros in front to the width, and unchanged when already that long |
| Decimal.Pad0Fixed | bsky-click-and-save.user.js:191-193 | a value below 10^width pads to exactly width digits that read back as the value |
| DateFormat.TokenAt | bsky-click-and-save.user.js:177 | a token found at the front of the pattern is a prefix of it; when none is found no token is a prefix |
| DateFormat.TokenAtFirstAlternative | bsky-click-and-save.user.js:177 | no alternative listed earlier than the chosen one also matches there, so `YYYY` wins over `YY` |
| DateFormat.YearText | bsky-click-and-save.user.js:204 | the `YYYY` getter yields at least four characters, so the model's `[2..]` slice, which stands for `YY`'s `slice(2)`, is defined |
| DateFormat.ReplaceTokensNoToken | bsky-click-and-save.user.js:177-180 | a pattern without token letters is copied unchanged |
| DateFormat.TokenAtAppend | bsky-click-and-save.user.js:177 | text appended after a non-token letter does not change the token matched at the front |
| DateFormat.ReplaceTokensAppend | bsky-click-and-save.user.js:177-180 | substitution distributes over concatenation at a boundary that is not inside a token |
| DateFormat.DayPattern | bsky-click-and-save.user.js:167-169 | `YYYY.MM.DD` renders as the `YYYY`, `MM` and `DD` getters' texts joined by dots |
| DateFormat.FieldDigits | bsky-click-and-save.user.js:199-205 | for an in-range date each getter prints fixed-width digits (four for `YYYY`, two otherwise) that read back as the field; `MM` is month0 + 1, `YY` the year modulo 100 |
| DateFormat.LastTwoDigits | bsky-click-and-save.user.js:205 | the last two of four digits read back as the value modulo 100 |
| DateFormat.FirstDottedDate | bsky-click-and-save.user.js:184 | the index found is the first at or after the start where `dddd.dd.dd` stands; none found means no match anywhere |
| DateFormat.Dashed | bsky-click-and-save.user.js:184 | the replacement `$<y>-$<m>-$<d>` turns the two dots into dashes and keeps every other character |
| DateFormat.FirefoxDateFix | bsky-click-and-save.user.js:182-187 | a non-string is returned as it is; a string keeps its length and is unchanged without a match |
| DateFormat.FirefoxDateFixFirstOnly | bsky-click-and-save.user.js:184 | only the two dots of the first match become dashes; every other character, later matches included, stays |
| DateFormat.FirefoxDateFixRemovesFirst | bsky-click-and-save.user.js:184 | after the fix no `dddd.dd.dd` starts at or before the repaired one |
| DateFormat.DayDateShape | bsky-click-and-save.user.js:167-169 | an in-range date gives ten characters: four year digits, a dot, month0 + 1 in two digits, a dot and the day in two digits, each reading back as its field |
| DateFormat.InvalidDayDate | bsky-click-and-save.user.js:172-176 | an invalid date formats as `0NaN.NaN.NaN` |
| Http.OkIffLeadingTwo | bsky-click-and-save.user.js:122 | `ok` holds exactly for a non-negative status whose leading decimal digit is 2 |
| Http.OkStatusClass | bsky-click-and-save.user.js:122 | for a status from 100 to 599, `ok` holds exactly for 200 to 299 |
| Http.Lines | bsky-click-and-save.user.js:139 | the trimmed block yields at least one line |
| Http.HeaderLineAtFirstColon | bsky-click-and-save.user.js:140-141 | the key is the trimmed, lower-cased text before the first colon; the value is the trimmed text after it, inner colons kept |
| Http.HeaderLineNoColon | bsky-click-and-save.user.js:140-141 | a line without a colon is stored under its trimmed, lower-cased text with the empty value |
| Http.ParseHeaders | bsky-click-and-save.user.js:132-144 | the loop builds the same map as assigning every line's key and value in order |
| Http.GetIgnoresCase | bsky-click-and-save.user.js:134-136 | `get` answers for a name as for its lower-cased form, so two names that lower-case alike read the same header |
| Http.AssignDomain | bsky-click-and-save.user.js:141 | a key is set exactly when some assignment names it |
| Http.AssignLast | bsky-click-and-save.user.js:141 | a key holds the value of its last assignment |
| Http.HeaderMapDomain | bsky-click-and-save.user.js:139-141 | a header is present exactly when some line has that key |
| Http.HeaderMapLast | bsky-click-and-save.user.js:139-141 | a later line with the same key overwrites an earlier one |
| Http.HeaderMapKeysLower | bsky-click-and-save.user.js:141 | every stored key is already lower case |
| Http.GetFindsLastLine | bsky-click-and-save.user.js:134-141 | `get` with a name in any case returns the value of the last line whose key is that name lower-cased |
| Http.GetMissing | bsky-click-and-save.user.js:134-136 | `get` of a name that no line has returns `undefined` |
| Http.GetStoredKey | bsky-click-and-save.user.js:134-141 | every stored header can be read back through `get` under its own key |
| AssetName.FullSizeUrlUnchangedIff | bsky-click-and-save.user.js:46 | the full-size URL equals the source exactly when the source has no `/feed_thumbnail/`; otherwise it is one character shorter |
| AssetName.LastSegment | bsky-click-and-save.user.js:47-50 | absent exactly when the URL is empty or ends with a slash; otherwise the longest non-empty slash-free suffix |
| AssetName.AtToDotAtFirst | bsky-click-and-save.user.js:51 | the first `@` becomes a dot and the text around it, later `@`s included, is kept |
| AssetName.AtToDotAfter | bsky-click-and-save.user.js:51 | in a name whose first `@` follows an `@`-free prefix, that `@` becomes a dot and the rest stays |
| AssetName.AtToDotNoAt | bsky-click-and-save.user.js:51 | a name without `@` is unchanged |
| AssetName.AtToDotCount | bsky-click-and-save.user.js:51 | the length is kept, and exactly one `@` disappears when there is one |
| AssetName.FixJpeg | bsky-click-and-save.user.js:52-54 | the result never ends in `jpeg` |
| AssetName.FixJpegEffect | bsky-click-and-save.user.js:52-54 | a trailing `jpeg` becomes `jpg` with the prefix kept; any other name is unchanged; the rewrite is idempotent |
| AssetName.AssetFilename | bsky-click-and-save.user.js:46-54 | the handler has a name exactly when the URL has a last segment; the name is non-empty and never ends in `jpeg` |
| PostInfo.MatchAtIff | bsky-click-and-save.user.js:67 | matching at an index yields groups p and q exactly when `/profile/p/post/q` stands there, with p and q non-empty and slash-free and q running up to a slash or the end |
| PostInfo.FirstMatch | bsky-click-and-save.user.js:67 | no match starts before the one returned, nor anywhere when none is returned |
| PostInfo.ParseInfoLeftmost | bsky-click-and-save.user.js:66-68 | `parseInfo` gives the groups of the leftmost `/profile/p/post/q`, and nothing when the link has none |
| PostInfo.ParseInfoPostLink | bsky-click-and-save.user.js:66-68 | a link `/profile/p/post/q` yields exactly p and q |
| PostInfo.FilenameFields | bsky-click-and-save.user.js:76 | a name whose parts hold no em dash splits at its em dashes back into `[bsky] ` with the handle, the day when there is one, the post id and the asset name |
| PostInfo.FilenameWithoutInfo | bsky-click-and-save.user.js:67-76 | without a match both groups print as `undefined` |
| Handler.OnContextMenu | bsky-click-and-save.user.js:36-83 | nothing is downloaded without a post link, an `aria-label` or a last segment; otherwise the request is for the full-size URL under the assembled name, which starts with `[bsky] ` and never ends in `jpeg` |
| Handler.NameShape | bsky-click-and-save.user.js:52-76 | the assembled name starts with `[bsky] ` and, since an em dash precedes the asset name, ends in `jpeg` only if the asset name does |
| Handler.DateStrInvalid | bsky-click-and-save.user.js:61-74 | a label the browser cannot parse leaves the date out of the name |
| Handler.DateStrDay | bsky-click-and-save.user.js:61-74 | a parsed label contributes an em dash and the ten-character day of the date read back from its `toString` text |
| Handler.SavedNameFields | bsky-click-and-save.user.js:70-76 | the saved name of a dated post splits at its em dashes into the handle part, the day, the post id and the asset name |
| Handler.ExampleDay | bsky-click-and-save.user.js:167-169 | 18 November 2024 formats as `2024.11.18` |
| Handler.ExampleAsset | bsky-click-and-save.user.js:51-54 | the asset `xyz@jpeg` is saved as `xyz.jpg` |
| Handler.ExampleName | bsky-click-and-save.user.js:46-76 | the worked example gives `[bsky] alice.bsky.social—2024.11.18—abc123—xyz.jpg` |
| Handler.ExampleNameWithoutInfo | bsky-click-and-save.user.js:66-76 | without date and groups the name is `[bsky] undefined—undefined—xyz.jpg` |
| Scanner.Unseen | bsky-click-and-save.user.js:27 | the filtered elements are exactly the queried ones not in `ws` |
| Scanner.UnseenDistinct | bsky-click-and-save.user.js:27 | filtering a query without repeats leaves no repeats |
| Scanner.UnseenAllSeen | bsky-click-and-save.user.js:27 | when every queried element is in `ws`, nothing passes the filter |
| Scanner.AttachCount | bsky-click-and-save.user.js:32-33 | attaching over distinct elements adds one listener to each of them and none elsewhere |
| Scanner.AttachKeys | bsky-click-and-save.user.js:32-33 | after attaching, the elements with a listener are those that had one plus the listed ones |
| Scanner.StepSeen | bsky-click-and-save.user.js:88-90 | a tick adds exactly the queried elements to `ws`, which only grows |
| Scanner.StepGood | bsky-click-and-save.user.js:24-33 | a tick over a query without repeats keeps "the elements of `ws` carry exactly one listener each, no other element carries one" |
| Scanner.StepIdempotent | bsky-click-and-save.user.js:25-90 | a second tick over the same elements changes nothing and attaches no listener |
| Scanner.RunSeen | bsky-click-and-save.user.js:24-91 | after any sequence of ticks, `ws` holds exactly the elements some tick queried |
| Scanner.RunGood | bsky-click-and-save.user.js:24-91 | ticks whose queries have no repeats keep "the elements of `ws` carry exactly one listener each, no other element carries one" from the empty start on |
| Scanner.RunExactlyOnce | bsky-click-and-save.user.js:24-91 | after any sequence of ticks without repeats in a query, an element carries one listener if some tick saw it and none otherwise |
| Scanner.Scanner.constructor | bsky-click-and-save.user.js:24 | `ws` starts empty, with no listener attached |
| Scanner.Scanner.Filter | bsky-click-and-save.user.js:27 | the loop returns the queried elements not in `ws`, in query order |
| Scanner.Scanner.AttachListeners | bsky-click-and-save.user.js:32-33 | one listener is added per listed element, in order, and `ws` is untouched |
| Scanner.Scanner.MarkSeen | bsky-click-and-save.user.js:88-90 | the listed elements are added to `ws` and the listeners are untouched |
| Scanner.Scanner.Tick | bsky-click-and-save.user.js:25-90 | returns `elemsFiltered`, attaches one listener per filtered element, adds them to `ws`, and keeps the exactly-one-listener invariant for a query without repeats |

## Left out

- `GM_fetch` (lines 97-131): the request through `GM_xmlhttpRequest`, the ready-state callback and the body promises are asynchronous network I/O. Only the `ok` expression and `parseHeaders` are modelled.
- `downloadBlob` (lines 149-165) and the `download` wrapper (lines 79-83): anchor creation, object URLs and the timed release are browser side effects. `Handler.OnContextMenu` returns the URL and name it would hand to them.
- The browser's `Date` is not modelled:
  - `new Date(string)` is the parameter `parse`, with `None` for an invalid date;
  - `Date.prototype.toString` is the parameter `show`;
  - a `Date` value is its UTC calendar fields.
- `formatDate`'s default argument `new Date()` reads the clock. It is not modelled; every caller passes a value.
- `DateFormatter`'s local-time getters (`utc = false`) are not modelled. `dateToDayDateString` always uses the UTC ones.
- DOM traversal is not modelled: `querySelectorAll`, `closest`, `querySelector`, `getAttribute`, `addEventListener` and `preventDefault`.
  - Their results are inputs: the queried elements as a sequence of identities, and the post link as an optional value with an optional `aria-label`.
  - A missing `aria-label` makes `replace` throw; the model yields no download.
- The `setInterval` period and the `console.log`/`console.warn` calls are timing and logging.
- `WeakSet` holds its elements weakly, so garbage-collected elements disappear from it; the model's set never forgets an element.
- `parseHeaders` builds a `Headers` object on a plain JavaScript object, so inherited or special property names behave differently from the model's map:
  - a header literally named `get` shadows the `get` method;
  - `get` of an inherited name that is not stored (`constructor`, `__proto__`) returns a function or object instead of `undefined`;
  - assigning a `__proto__` key stores nothing.
  The script never calls `get`, and the model's map stores every key.
- Text.ToLower: lower-cases the ASCII letters A-Z only, not the full Unicode case mapping of `toLowerCase`.
- Strings are sequences of characters. The script works on UTF-16 code units, so lengths of text outside the Basic Multilingual Plane differ.
- The `isString` test is the `DateArg` datatype's constructor choice. Only strings and `Date` objects are passed to `formatDate`.
