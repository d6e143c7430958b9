# Discord chat-log scraper, modelled in Dafny

`index.js` reads an HTML export of a Discord channel and turns it into message records.
It also computes statistics over them and derives a BlocksMC support-ticket summary from
the ticket bot's messages. This project models that logic with the DOM replaced by plain
data, and proves what the code guarantees about its output.

- `wrappers.dfy`: `Option` and `Result`.
- `text.dfy` (`Text`): the JavaScript string operations the scraper uses.
  - `trim` over the ECMAScript white-space and line-terminator set.
  - `replace(/\s+/g, ' ')`.
  - `replace` with a string pattern, which changes the first occurrence only.
  - `indexOf` and `includes`.
  - The `split(sep)[0]` and `split(sep).pop()` idioms.
  - ASCII lower-casing.
- `numbers.dfy` (`Numbers`): `parseInt`, `match(/\d+/g)`, `toString(16)` and `padStart(2, '0')`.
  - `parseInt` handles leading white space, a sign, a `0x` prefix, and radix 10 or 16.
  - It returns `None` for NaN.
- `uri.dfy` (`Uri`): `decodeURIComponent` as ECMA-262 defines it, UTF-8 sequences included.
  - Decoding returns `None` where JavaScript throws `URIError`.
  - `Encode` (`encodeURIComponent` of every character) is its proved inverse.
- `proxy.dfy` (`Proxy`): `removeDiscordProxy`.
  - Its two regular expressions become leftmost-match searches that return the first capture group.
- `dom.dfy` (`Dom`): the parts of the exported page the scraper reads.
  - Each `querySelector` is an `Option`.
  - Each `querySelectorAll` is a sequence in document order.
- `extract.dfy` (`Extract`): the records, and `extractEmbed`, `extractReactions` and `extractMessage` as functions.
  - `Step` is one container of the `scrapeAll` loop: the header carried forward, and the record, skip or error.
  - `Scrape` runs the loop over a whole document.
  - `LastHeader`, `Unbroken`, `Records` and `CountBodies` are independent reference definitions, and the lemmas connect the two.
- `stats.dfy` (`Stats`): `getStats`, with its author-counting loop as the method `CountAuthors`.
  - It counts bot, user, embed and reaction messages and tallies messages per author.
  - Entries are in first-appearance order, sorted by a stable insertion sort on decreasing count, then cut to five.
- `scraper.dfy` (`Scraper`): the class `ChatScraper`, with the `messages`, `ticketId` and `lastAuthor` fields the source mutates.
  - Its methods loop and assign as `scrapeAll`, `extractMessage`, `extractEmbed`, `extractReactions`, `getStats` and `messages.pop()` do.
  - Each is proved equal to the functions of `Extract` and `Stats`, or to a stated new state.
- `ticket.dfy` (`Ticket`): the command-line ticket block.
  - It holds the guards, the first ticket-details message, the `saving...` message, the `pop()` and the totals.
  - `ScrapeTicket` composes the whole run.

Where `index.js` dereferences `null` it throws `TypeError`. `scrapeAll` then stops with the records pushed so far kept in `messages`. The command line treats that as a failed scrape. The model makes both of these explicit results.
- `Failed(NoHeaderSeen)` is line 45: a message body without a header before any header has been seen.
- `Failed(NoContent)` is line 60: a body without a `.chatlog__content` element.

`lastAuthor` is still updated at line 41 before the line-60 error. The model keeps that order.

Some behaviours of `index.js` that are easy to misread:
- A body without a header, before any header has been seen, throws at line 45; it gets no default author fields (`Extract.StepNoHeader`).
- The timestamp is the `title` of whichever timestamp element is found first, the short one before the link, and only without a title its trimmed text (`Extract.TimestampPreference`).
- A reaction count whose text has no digits after optional white space and sign is NaN (`None`). It is 0 only when the count element is absent (`Extract.ReactionCountNaN`, `Extract.ReactionNoDigits`, `Extract.ReactionCounts`).
- `removeDiscordProxy` is not idempotent. An external-proxy URL whose decoded target is itself an external-proxy URL is unwrapped one level per call (`Proxy.NotIdempotent`).
- Calling `scrapeAll` twice on one scraper appends the second call's records to the first ones, and the second call starts from the carried `lastAuthor` (`Scraper.ChatScraper.ScrapeAll`).

After a `TypeError`, `scrapeChat` catches it and returns nothing, so the command line derives no ticket from that document (`Ticket.ScrapeTicket`).

## Model

| member | source | states |
|---|---|---|
| Proxy.RemoveEmpty | index.js:234 | the empty address maps to the empty string |
| Proxy.NoProxyUnchanged | index.js:233-257 | an address containing neither `media.discordapp.net` nor `images-ext-` is returned unchanged |
| Proxy.NoMatchUnchanged | index.js:237-256 | an address that neither the media pattern nor the external pattern matches is returned unchanged, whichever host it names |
| Proxy.FirstCapture | index.js:238 | the capture is taken at the leftmost position where the pattern matches; no match anywhere gives None |
| Proxy.MediaRewrite | index.js:237-241 | `https://media.discordapp.net/attachments/<path>` becomes `https://cdn.discordapp.com/attachments/<path>` with the path unchanged |
| Proxy.MediaRewriteShape | index.js:237-241 | any matching media-proxy address becomes the CDN prefix followed by the rest of the line after the leftmost position where the pattern matches; no earlier position matches |
| Proxy.ExternalMatch | index.js:246 | the external-proxy pattern on `https://images-ext-<digits>.discordapp.net/external/<id>/<rest>` captures exactly `<rest>` |
| Proxy.ExternalTargetHttps | index.js:249 | a captured `https/<x>` without `http/` or `%` becomes `https://<x>` |
| Proxy.ExternalTargetPlain | index.js:249 | a capture with neither scheme marker nor `%` is its own target |
| Proxy.RemoveExternal | index.js:245-253 | for an external-proxy address, the result is the decoded capture after the two replacements, or the original address when decoding fails |
| Proxy.ExternalRewrite | index.js:245-253 | an external-proxy address that the media pattern does not match, with a decodable rest, is rewritten to the decoded target |
| Proxy.ExternalNoMedia | index.js:237-241 | an external-proxy address whose parts hold no `:` is not matched by the media pattern, so the media branch does not take it |
| Proxy.NotIdempotent | index.js:233-257 | for every nested external-proxy address of this shape, one call unwraps one level, and a second call gives a different address |
| Uri.DecodeEncode | index.js:249 | decoding the percent-encoding of any string gives back that string |
| Uri.DecodePlain | index.js:249 | a string without `%` decodes to itself |
| Uri.DecodeBadEscape | index.js:249-251 | a `%` at any position not followed by two hex digits makes decoding of the whole string fail, which is the `URIError` the `catch` turns into the original address |
| Numbers.DigitRuns | index.js:104 | every element of the `match(/\d+/g)` list is a non-empty run of decimal digits |
| Numbers.DigitRunsCoverDigits | index.js:104 | the runs, concatenated, are exactly the digits of the string in order |
| Numbers.DigitRunsRun | index.js:104 | a maximal run of digits at the front is the first element of the list |
| Numbers.ParseIntDigits | index.js:106-108 | `parseInt` of a string of decimal digits is the number they denote |
| Numbers.ParseIntDecimal | index.js:152 | `parseInt` of the decimal numeral of n is n |
| Numbers.ParseIntNaN | index.js:152 | when, after white space and a sign, no digit follows, `parseInt` is NaN |
| Numbers.HexDigits | index.js:109 | `toString(16)` of n is a non-empty hex numeral whose value is n, at most two digits below 256 |
| Numbers.Hex2RoundTrip | index.js:109 | below 256 the padded hex is exactly two hex digits whose value is n |
| Text.TrimShape | index.js:59 | `trim` returns a contiguous slice with only white space cut away on both sides, and its ends are not white space |
| Text.TrimClean | index.js:59 | a string with non-white-space ends is unchanged by `trim` |
| Text.NormalizeSpacesJoinsWords | index.js:59 | trimming and collapsing white-space runs gives the words of the text joined by single spaces |
| Text.NormalizeSpacesShape | index.js:59 | the normalised content has no white space at either end and only single spaces between words |
| Text.NormalizeSpacesIdempotent | index.js:59 | normalising normalised content changes nothing |
| Text.WordsProper | index.js:59 | every word the split produces is non-empty and holds no white space |
| Text.WordsOfJoin | index.js:59 | joining words by single spaces and splitting again gives back the same words |
| Text.IndexOf | index.js:65 | the found index is the first occurrence of the pattern; None means there is no occurrence |
| Text.ReplaceFirstAt | index.js:65 | `replace` with a string pattern replaces only its first occurrence |
| Text.ReplaceFirstAbsent | index.js:65 | `replace` leaves a string without the pattern unchanged |
| Text.BeforeFirst | index.js:349 | `split(sep)[0]` is the longest prefix without `sep`, ending at the first `sep` |
| Text.AfterLast | index.js:347 | `split(sep).pop()` is the longest suffix without `sep`, starting after the last `sep` |
| Text.BeforeFirstOf | index.js:349 | the part before the first separator of `x + sep + y` is `x` when `x` holds no separator |
| Text.AfterLastOf | index.js:347 | the part after the last separator of `p + sep + d` is `d` when `d` holds no separator |
| Extract.FieldsOfAppend | index.js:117-123 | field records follow the field elements in document order: two runs of elements give the first run's records then the second's |
| Extract.FieldDefaults | index.js:117-123 | one record per field element at the same index; a missing name or value reads as `''`, a present one as its trimmed text |
| Extract.EmbedDefaults | index.js:97-133 | every missing part of an embed, including the author link and the colour pill, reads as `''` |
| Extract.ReactionsOfAppend | index.js:138-157 | no reactions block gives `[]`; reaction records follow the reaction elements in document order over any split |
| Extract.ReactionParts | index.js:146-153 | one record per reaction element: `url` and `name` are the emoji's `src` and `alt`, or both `''` without an emoji; the count comes from the count element |
| Extract.ReactionCounts | index.js:152 | a missing count element counts 0 and a decimal numeral counts its value |
| Extract.ReactionCountNaN | index.js:152 | a count text with no digit after white space and an optional sign is NaN |
| Extract.ReactionNoDigits | index.js:152 | a count text holding no digit at all is NaN |
| Extract.ColorPassThrough | index.js:99-113 | a background not starting with `rgb` is the colour unchanged; no colour pill gives `''` |
| Extract.ColorTooFewRuns | index.js:102-105 | an `rgb` background with fewer than three digit runs gives `''` |
| Extract.ComponentOf | index.js:106-109 | a component below 256 becomes two hex digits whose value is the component |
| Extract.RunsOfRgb | index.js:104 | the first three digit runs of an `rgb(r, g, b…)` text are the numerals of r, g and b; anything after them (alpha) comes later |
| Extract.ColorRgb | index.js:99-114 | `rgb(r, g, b…)` with components below 256 becomes `#` and three two-digit hex components, seven characters, alpha ignored |
| Extract.StepSkips | index.js:29-30 | a container without a message body produces nothing and keeps the carried header |
| Extract.StepCases | index.js:36-60 | a body either fails for the missing header (line 45), or fails for the missing content (line 60) after updating the carried header, or produces its record |
| Extract.StepNoHeader | index.js:38-45 | a headerless body before any header has been seen is the line-45 error |
| Extract.StepProduced | index.js:28-86 | a produced record comes from a body with a header in effect and a content element, and is built from them |
| Extract.StepOwnHeader | index.js:36-50 | a body with its own header carries that header forward, and takes its bot flag and trimmed author name (or `Unknown`) from it |
| Extract.StepCarriesAuthor | index.js:36-50 | a headerless body takes the author name, id and bot flag from the carried header and keeps carrying it |
| Extract.StepOwnParts | index.js:44-55 | the id, avatar, timestamp, content, mentions, embed and reactions of a record do not depend on the carried header; avatar and timestamp come from the body itself |
| Extract.ContentShape | index.js:58-59 | a record's content is the element's words joined by single spaces |
| Extract.EmbedPresence | index.js:88-90 | a record has an embed exactly when its body has an embed element |
| Extract.MentionsOfAppend | index.js:60-67 | mentions of consecutive element lists are concatenated in order |
| Extract.MentionsInOrder | index.js:60-67 | each mention contributes its title with the first `#0000` removed, at its place in document order, and nothing when its title is missing or empty |
| Extract.MentionFirstTagOnly | index.js:65 | only the first `#0000` of a title is removed; later ones stay |
| Extract.LastHeaderSnoc | index.js:36-41 | the carried header after one more container is that container's header if it has a body with a header, otherwise the previous one |
| Extract.ScrapeFailedPrefix | index.js:18-23 | once the loop has failed, later containers change nothing |
| Extract.ScrapeSnoc | index.js:18-23 | one more container adds exactly what its step produces to an unfailed run |
| Extract.StepReference | index.js:18-23 | each step agrees with the reference definitions: carried header, failure condition and records pushed |
| Extract.ScrapeMatchesReference | index.js:16-25 | a run without error carries the last header seen and pushes exactly the reference records |
| Extract.ScrapeFailsIff | index.js:16-23 | the run fails if and only if some container is a body with no header in effect or no content element |
| Extract.RecordsCount | index.js:16-23 | a run without error pushes exactly one record per container that has a message body |
| Stats.BotsAndUsers | index.js:193-195 | bot messages plus user messages is the total |
| Stats.CountBotsAppend | index.js:194 | one for a bot's message, none for another, added up over concatenation |
| Stats.CountEmbedsAppend | index.js:196 | `messagesWithEmbeds` counts one per message with an embed and adds up over concatenation |
| Stats.CountReactedAppend | index.js:197 | `messagesWithReactions` counts one per message with at least one reaction and adds up over concatenation |
| Stats.Tally | index.js:200-203 | an author has an entry exactly when some message has that author name |
| Stats.TallySnoc | index.js:201-203 | one more message adds one to its author's count, and adds a new key at the end only for a new author |
| Stats.CountAuthors | index.js:200-203 | the loop over the records builds exactly the tally and the key order of the reference definitions |
| Stats.TallyKeys | index.js:200-211 | keys appear once each, and each author's count is the number of messages with that name |
| Stats.UniqueAuthors | index.js:211 | `uniqueAuthors` is the number of distinct author names |
| Stats.EntriesSum | index.js:200-212 | the per-author counts sum to the number of messages |
| Stats.InsertPermutes | index.js:213 | one insertion step adds exactly the inserted entry |
| Stats.InsertSorted | index.js:213 | inserting into a non-increasing list keeps it non-increasing |
| Stats.SortByCountSorts | index.js:213 | the sort returns a non-increasing permutation of the entries |
| Stats.SortByCountStable | index.js:213 | entries with equal counts keep their first-appearance order |
| Stats.Top5OfSorted | index.js:214 | exactly min(5, number of entries) entries, a prefix of the sorted list, none with a count below any entry left out |
| Stats.ReportCounts | index.js:192-211 | the total is the number of messages, bot plus user is the total, the per-author counts sum to the total, and `uniqueAuthors` counts distinct names |
| Stats.ReportTop | index.js:212-214 | `topAuthors` has exactly min(5, number of distinct authors) entries, non-increasing, a prefix of a sorted permutation of all entries, and none beats an entry left out |
| Scraper.TicketIdOf | index.js:14-15 | the ticket id is non-empty and holds no `-`; with fewer than two preamble entries there is none |
| Scraper.TicketIdAfterDash | index.js:14-15 | a second preamble entry `x-<id>` gives the ticket id `<id>` |
| Scraper.ChatScraper.constructor | index.js:5-11 | a new scraper has no messages, no ticket id and no last author |
| Scraper.ChatScraper.ScrapeAll | index.js:13-26 | sets the ticket id and appends the records of the run to `messages`; `lastAuthor` ends as the run's carried header; the result is the message list, or the error that stopped the loop |
| Scraper.ChatScraper.ExtractMessage | index.js:28-86 | the outcome and the new `lastAuthor` are those of one step on the old `lastAuthor` |
| Extract.TimestampPreference | index.js:53-55 | with a short timestamp the link is ignored, without one the link is read, without either there is no time; a non-empty `title` gives the parsed title whatever the text, an empty one the parsed trimmed text |
| Scraper.ChatScraper.CollectMentions | index.js:60-67 | the loop collects exactly the mention list of the titles |
| Scraper.ChatScraper.ExtractEmbed | index.js:88-134 | no embed element gives null; otherwise the embed record, fields in order |
| Scraper.ChatScraper.ExtractReactions | index.js:138-157 | the loop builds exactly the reaction list of the container |
| Scraper.ChatScraper.GetStats | index.js:192-216 | the method computes exactly the report whose properties `Stats.ReportCounts` and `Stats.ReportTop` state |
| Scraper.ChatScraper.PopMessage | index.js:342 | removes and returns the last message; on an empty list returns nothing and changes nothing |
| Ticket.Filter | index.js:311-313 | the kept messages are those that satisfy the predicate |
| Ticket.FirstWhere | index.js:321-333 | `find` gives the first message satisfying the predicate, and None exactly when none does |
| Ticket.TimeValue | index.js:341-342 | `toISOString` succeeds exactly on a numeric timestamp within ±8.64e15 ms |
| Ticket.FirstWhereFilter | index.js:311-323 | finding in the bot messages is finding by the conjunction of both predicates in all messages |
| Ticket.FieldValueFirst | index.js:345-346 | `rank` and `hours` are the value of the first field whose lower-cased name matches, `Unknown` when that value is empty |
| Ticket.FieldValueMissing | index.js:345-346 | with no matching field the value is `Unknown` |
| Ticket.CategoryBeforeColon | index.js:349 | the category is the trimmed title before the first `:`, or `Unknown` for an empty title |
| Ticket.DiscordIdLastSegment | index.js:347 | `discordId` is the last `/`-segment of the author link |
| Ticket.TicketErrors | index.js:302-328 | no messages, no ticket-bot message, and no ticket-bot message with fields are each reported exactly when they hold |
| Ticket.TicketTotals | index.js:331-356 | without a `saving...` bot message the last message is popped, so the total is one less; bot plus user is the total; the ticket id is kept |
| Ticket.TicketDetails | index.js:321-351 | the summary's opening time, author, category, description and URL come from the first ticket-bot message with embed fields |
| Ticket.DeriveTicket | index.js:307-357 | on a scraper, computes the ticket and leaves `messages` as the summary predicts, popped or not |
| Ticket.ScrapeTicket | index.js:262-357 | a scrape error yields no ticket; otherwise the ticket is derived from the records with the preamble's ticket id |

## Left out

- JSDOM parsing and CSS selector matching (index.js:2, 6-7) are a foreign library. The page is the `Dom` datatypes, and each lookup is a field.
- URL resolution JSDOM performs when reading `.src` (index.js:46, 129, 150) is left out; the attribute string is taken as given.
- `new Date(..).getTime()` (index.js:55, 341-342) is the function parameter `parseDate`.
  - `toISOString` is modelled only through its validity range, ±8.64e15 ms, outside which it throws.
  - The formatted date strings are left out. `TicketData` keeps the millisecond values.
- File I/O, console output and `process.exit` are plumbing:
  - `saveToJSON`, `saveToCSV`, `printStats` and the output at the end of the ticket block (index.js:158-190, 218-232, 359-369);
  - the file checks of `scrapeChat` and the command line (index.js:262-300).
  - The guards of index.js:302-328 are modelled as `TicketError` values.
- `toLowerCase` (index.js:312, 332, 345-346) is modelled on ASCII letters only.
- JavaScript strings are UTF-16 code units; the model works on Unicode scalar values. A lone surrogate, which `decodeURIComponent` and `trim` treat as a code unit, cannot be expressed.
- `parseInt` and `toString(16)` are modelled on unbounded integers. Digit strings too long for a double lose precision in JavaScript and not in the model.
- `Object.keys`/`Object.entries` list integer-like keys first in ascending order. The model lists all author names in first-appearance order. Every author name is an ordinary key in the model.
- Bump, Tally: names that the `authors` object inherits from `Object.prototype` are not modelled. For `constructor`, `toString`, `valueOf`, `hasOwnProperty` and the like, `authors[name] || 0` at line 202 reads the inherited function, so the count becomes a string by concatenation and the comparator at line 213 compares it as NaN. `__proto__` is not even stored as an own key. The model counts all of these as ordinary names.
- `parseInt("-0")` is `-0` in JavaScript; the model's `Numbers.ParseInt` gives 0, which serialises the same.
- `scrapeAll` returns the very array it keeps in `this.messages`. The model returns the sequence as a value, so later aliasing through the returned array is not captured.

