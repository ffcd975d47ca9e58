# Base-link resolution of the `baselink` Discord command, in Dafny

The bot answers the `/baselink` slash command: it sends the uploaded base
screenshot to the OCR.space service, uses the recognised text as a YouTube
search query, looks at the descriptions of the videos found, and replies
with the first `https://link.clashofclans.com/…` base link it sees. This
project models the decision logic of that command as pure functions over
strings and sequences, and proves what the command promises:

- `Text` — whitespace as Python sees it (`str.isspace`, which is also what
  `\s` matches in a `str` pattern) and `str.strip()`.
- `Links` — `re.search(BASE_LINK_REGEX, description)` as a hand-written scan
  (`FindLink`), proved equal to a declarative leftmost-greedy meaning
  (`IsSearchResult`) that determines the result uniquely.
- `Resolver` — the candidate loop: search items in order, only items of kind
  `youtube#video` with a non-empty detail answer contribute, the first link
  wins, and any exception raised by the search or a lookup before that
  becomes a search error (sending the reply is inside the same `try`; see
  "Left out").
- `Bot` — OCR answer to text, the blank-text check, the four replies and
  their message texts.
- `Wrappers` — the `Option` type.

The YouTube client, OCR.space and Discord are inputs: an `OcrResponse`
value, and a function from query text to a `SearchResponse` whose items
carry the detail answer each video would get if it were looked up. Since
the loop only looks up the video items it reaches, a detail answer past
the first link has no effect on the result, exactly as with the `break`.

Two behaviours of the command worth stating plainly:
- There is no separate reply for an OCR answer that reports an error:
  `extract_text_from_image` returns `""` when `IsErroredOnProcessing` is
  true or absent, and `""` gets the could-not-read reply. (An exception
  from the OCR call itself gets no reply at all; see "Left out".)
- The search request has no type filter; the loop skips every item whose
  `id.kind` is not exactly `youtube#video`.

## Model

| member | source | states |
|---|---|---|
| Text.IsSpaceMatchesTable | main.py:27 | the range form of the whitespace predicate used for `\s` and `str.strip()` equals the enumerated list of the 29 code points CPython treats as whitespace (the list itself is transcribed, not derived) |
| Text.Strip | main.py:75 | `t.strip()` is the piece of `t` left after removing a whitespace-only prefix and suffix; a non-empty result starts and ends with a non-whitespace character |
| Text.StripEmptyIffBlank | main.py:75 | `not text.strip()` holds exactly when every character of the text is whitespace, the empty text included |
| Links.RunEnd | main.py:27 | the greedy `[^\s]+` run from a position stops at the first whitespace or at the end of the text |
| Links.FindStart | main.py:100 | the scan returns the leftmost position at or after its start where the prefix is followed by a non-whitespace character, or reports that there is none |
| Links.FindLink | main.py:100-102 | the link found is the description's text from the leftmost position where the prefix is followed by a non-whitespace character up to the next whitespace or the end; nothing is found exactly when no such position exists |
| Links.SearchResultUnique | main.py:27 | the leftmost-greedy meaning admits at most one result for a description, so `FindLink` is the only function meeting it |
| Links.LinkShape | main.py:100-102 | a returned link starts with `https://link.clashofclans.com/`, has at least one more character, has no whitespace after the prefix, and occurs contiguously in the description |
| Links.NoLinkIff | main.py:100-101 | no link is found exactly when no occurrence of the prefix is followed by a non-whitespace character |
| Links.LinkAtStart | main.py:27 | a description made of the prefix, a non-whitespace run and then whitespace or nothing yields the prefix plus that run, whatever follows the whitespace |
| Resolver.Step | main.py:91-103 | one item raises exactly when its kind is missing or it is a video whose lookup fails; it yields a link exactly when it is a video with a description in which a link is found, and that link is the one found; an error carries the text of the item's own exception |
| Resolver.Scan | main.py:90-103 | a link returned by the loop is the link found in the description of some eligible item; an error returned comes from some faulty item |
| Resolver.Resolve | main.py:80-86 | an exception from the search call itself is reported as a search error with that exception's text |
| Resolver.ScanIsFirstStop | main.py:87-103 | the loop's result is what the first item that stops it produces, and it is not-found exactly when every item lets the loop move on |
| Resolver.FirstMatchWins | main.py:101-103 | a link or error met in a prefix of the items stands whatever follows; a prefix yielding nothing leaves the decision to the rest |
| Resolver.SkipPassing | main.py:91-98 | an item that is not a video, a video without detail items, or a description without a link can be removed without changing the result |
| Resolver.EligibleDescriptions | main.py:91-99 | the descriptions handed to the regex are exactly those of the items of kind `youtube#video` with a non-empty detail answer: every one of them appears, and nothing else does |
| Resolver.EligibleDescriptionsOne | main.py:91-99 | a single item contributes its description exactly when it is a video with a non-empty detail answer |
| Resolver.EligibleDescriptionsAppend | main.py:90-99 | the filter keeps search order: filtering a concatenation concatenates the filtered parts |
| Resolver.FirstLink | main.py:100-103 | a first link exists exactly when some description has one, and it is the link found in the first description that has one |
| Resolver.ScanIsFilterThenFirst | main.py:90-103 | with no failing lookup, the loop equals filtering the eligible descriptions and taking the first link found among them, or not-found |
| Bot.OcrText | main.py:58-60 | an OCR answer that reports an error or lacks the error flag gives the empty text; otherwise the first parsed text |
| Bot.ReplyFor | main.py:105-110 | a found link, no link and a caught exception map to the found, not-found and search-error replies, never to could-not-read |
| Bot.Handle | main.py:74-77 | the reply is could-not-read exactly when the OCR text is empty or whitespace only |
| Bot.ReadableTextIsSearched | main.py:79-85 | readable OCR text is the search query unchanged and the reply is the one for that search's outcome |
| Bot.BlankNeverSearches | main.py:75-77 | on blank OCR text the reply does not depend on the search at all |
| Bot.OcrErrorCouldNotRead | main.py:58-59 | an errored OCR answer, or one without the flag, ends in the could-not-read reply |
| Bot.SearchErrorReported | main.py:109-110 | a failing search call on readable text is reported as a search error carrying the exception's text |
| Bot.ReplyText | main.py:105-110 | the found and search-error messages end with the link and the exception text respectively |
| Bot.ReplyTextInjective | main.py:75-110 | different replies are sent as different messages |
| Bot.ExampleLinkFound | main.py:87-106 | OCR text `TH14 base layout` with one video whose description is `https://link.clashofclans.com/ABC123` gets the found reply with that link |
| Bot.SecondLinkWinsOverLaterItem | main.py:98-106 | when the first item lets the loop pass and the second is a video whose description holds a link, the reply is that link, whatever the third item is, even one whose lookup would fail |
| Bot.NoLinkInAnyVideo | main.py:105-108 | search items that all carry a description without a base link give the not-found reply, not a search error |

## Left out

- Discord wiring (bot setup, intents, command registration, `defer`, `followup.send`, `on_ready`): framework I/O; a reply is a returned `Reply` value and its text is `ReplyText`.
- The OCR.space HTTP request, the multipart form and JSON decoding, and saving the attachment under `/tmp`: network and file I/O; the OCR answer is an input.
- An exception raised by the OCR call itself (a network error, an answer that is not JSON) escapes before the `try` at main.py:80, so the command sends no reply; only an answer whose error flag is set or absent gets the could-not-read reply. The model takes the OCR answer as already decoded.
- `ParsedResults[0]` on an empty list and a missing `ParsedText` key: they raise outside any `try`, so the command ends with an unhandled exception and no reply; the model assumes the first parsed text is present.
- Bot.OcrText: a non-boolean `IsErroredOnProcessing` value is treated by Python by its truthiness; the model takes the flag as a boolean or absent.
- Bot.ReplyFor: does not model a failing send. The found and not-found `followup.send` calls are inside the same `try`, so one that raises (say, a message over Discord's length limit) is caught and answered with the search-error reply; the model treats sending as always succeeding and maps a found link to the found reply unconditionally.
- The `googleapiclient` search and video calls, and the `maxResults=5` cap: a remote API; its answers are inputs, the cap is the service's promise and the loop does not depend on it.
- The Flask keep-alive server and its thread: HTTP and threading plumbing outside the command.
- Environment configuration (tokens, API keys, port).
- Idempotence of the resolver on identical answers holds because every member is a pure function; it needs no lemma.
