# ljdhar: a Dafny model of `getPostToLJDH`

`getPostToLJDH(numStories)` in index.ts opens the `/newest` page of the
Journal du hacker link aggregator in a headless browser. It collects the
listing elements (`#inside ol li`) and keeps the first `numStories` of them.
For each kept element it builds a `Story` record: title, url, score, tags,
comment count and username. The browser work is plumbing. The logic is:

- the truncation (`slice(0, numStories)`);
- the per-listing extraction, which reads the username from the byline
  sentence with the pattern `/écrit par\s+(.+)\s+il y a/` and reads the
  comment count from the first run of digits in the comment label;
- the all-or-nothing batch (`Promise.all`). If one kept element lacks a
  sub-element, the whole call rejects.

This project models that logic as pure functions and proves what it does.

Files and modules:

- `wrappers.dfy`, module `Wrappers`: `Option` and `Result`.
- `js_text.dfy`, module `JsText`: the ECMAScript character classes `\s`,
  line terminators and `\d`, plus `String.prototype.trim`.
- `byline.dfy`, module `Byline`: the byline pattern as a declarative match
  relation, the matcher's backtracking priority, and the reported group 1.
  Module `BylineFacts` holds lemmas about whole bylines.
- `comment_count.dfy`, module `CommentCount`: the first digit run and
  `parseInt`, with a decimal renderer as its inverse.
- `listing.dfy`, module `Listing`: the listing element and `Story`
  datatypes, per-element extraction, `slice` and `Promise.all`. Module
  `ListingFacts` holds lemmas that relate several calls.

A listing element is a record of what the page driver would return for
each sub-element. `.link a` (text and `href`), `.score`, `.byline` and
`.comments_label a` may be missing, because `$eval` rejects when its
selector finds nothing. `.tags a` is a list, because `$$eval` yields an
empty list instead of failing.

How the byline pattern behaves. The matcher reports the leftmost match.
For that start, it prefers the longest opening `\s+`, then the longest
`(.+)`, then the longest closing `\s+`. `Byline.Preferred` is this order,
and `Byline.FirstMatch` is proved to return the least match under it.
Greedy `(.+)` may take whitespace, but never a line terminator. When the
gap before `il y a` holds no line terminator, the capture keeps the whole
gap except its last character: `écrit par bob  il y a 1 jour` yields
`bob ` (two spaces in the byline, one kept in the name). Otherwise it ends
at the first line terminator after the name: `écrit par bob \n il y a`
also yields `bob `. When no match exists, the username is the sentinel
`anonyme`.

index.ts fetches only `/newest`. It has no pagination, no tag or search
URL and no score sort. An incomplete element fails the whole call instead
of being skipped. Score and tags are not trimmed. The sentinel is
`anonyme`.

## Model

| member | source | states |
|---|---|---|
| JsText.Trim | index.ts:21 | the trimmed byline is a contiguous piece of the text with no `\s` at either end, and only `\s` is cut away on each side |
| JsText.TrimIdempotent | index.ts:21 | trimming an already trimmed byline changes nothing |
| Byline.FirstMatch | index.ts:22-23 | `String.prototype.match` finds a match exactly when the pattern matches somewhere, and what it reports comes before every other match in the matcher's order: leftmost start, then the longest opening `\s+`, the longest `(.+)`, the longest closing `\s+` |
| Byline.AuthorName | index.ts:22-24 | group 1 is present exactly when the pattern matches. It is the capture of the reported match, it is non-empty, and it holds no line terminator |
| Byline.Username | index.ts:21-24 | the username comes from the trimmed byline. It is `anonyme` when the pattern does not match and the reported capture when it does, and it is always non-empty and free of line terminators |
| BylineFacts.BylineName | index.ts:22-24 | for `écrit par <name><gap>il y a<rest>`, with no `\s` in the name, a non-empty gap of `\s`, and no `il y a` in the rest, the captured name is the name plus the gap up to its first line terminator, or plus all of the gap except its last character when it has none |
| BylineFacts.NoLeadNoMatch | index.ts:22-24 | a byline without `é` never matches |
| BylineFacts.UsernamePlain | index.ts:21-24 | `écrit par alice il y a 3 heures` gives the username `alice` |
| BylineFacts.UsernameDoubleSpace | index.ts:21-24 | `écrit par bob  il y a 1 jour` gives `bob `, with one trailing space kept by greedy `(.+)` |
| BylineFacts.UsernameLineBreak | index.ts:21-24 | `écrit par bob \n il y a 2 jours`, the shape of an indented byline, gives `bob `: `(.+)` stops at the line break |
| BylineFacts.UsernameGarbage | index.ts:21-24 | `garbage text` gives the sentinel `anonyme` |
| CommentCount.FirstDigitRun | index.ts:26 | `/(\d+)/` captures nothing exactly when the label has no ASCII digit. Otherwise it captures the leftmost digit and every digit that follows it |
| CommentCount.Count | index.ts:25-28 | the comment count is 0 when the label has no digit. Otherwise it is the decimal value of the first maximal digit run |
| CommentCount.DecimalValue | index.ts:27 | `parseInt` on a digit string: its value is 0 exactly when every digit is `0` |
| CommentCount.DecimalRoundTrip | index.ts:27 | `parseInt` reads back the decimal rendering of any count |
| CommentCount.DecimalCanonical | index.ts:27 | any digit string without a leading zero is the rendering of its own value, so rendering and `parseInt` are inverse |
| CommentCount.LeadingZero | index.ts:27 | a leading `0` does not change what `parseInt` reads |
| CommentCount.CountOfRendered | index.ts:25-28 | a label that prints a count after digit-free text, followed by a non-digit, yields exactly that count |
| CommentCount.CountExamples | index.ts:25-28 | `12 commentaires` gives 12 and `discuter` gives 0 |
| Listing.ExtractStory | index.ts:16-29 | an element yields a story exactly when its link, score, byline and comment label are all present. A rejection names a missing part, and every part read before it is present. Title, url, score and tags are copied unchanged, and the username and comment count are the parsed ones |
| Listing.Keep | index.ts:15 | `slice(0, n)` keeps `min(n, length)` elements, which are the first ones in page order |
| Listing.AllOrNothing | index.ts:16-30 | the ordered map succeeds exactly when every application succeeds, and then gives the results in input order. Otherwise it reports the first failing position and its error |
| Listing.ExtractAll | index.ts:16-30 | the kept elements give their stories in order when all are complete. Otherwise the batch fails, naming the first incomplete element and the part it lacks |
| Listing.GetPostToLJDH | index.ts:14-32 | the call succeeds exactly when the first `min(numStories, page length)` elements are complete. It then returns that many stories, the i-th extracted from the i-th element. On failure the element it names is one of the kept ones and lacks the named part |
| ListingFacts.IgnoresBeyondLimit | index.ts:15-16 | elements after the first `numStories` are never read, so appending elements to the page does not change the result |
| ListingFacts.SmallerLimitIsPrefix | index.ts:15-16 | when the first `n` elements are complete, the call with `n` succeeds, and a call with a smaller `numStories` returns a prefix of its stories in the same order |

## Left out

- Browser launch, page creation, navigation, the `$$` query and
  `browser.close` (index.ts:6-8, 12, 14, 31) are browser-driver I/O. The
  model takes the listing elements the driver returned as its input.
- `waitForSelector` (index.ts:13) rejects when no listing element appears
  in time. This is a driver timeout, so it is not modelled. For an empty
  page and `numStories > 0`, `Listing.GetPostToLJDH` returns `Success([])`,
  whereas the program rejects at index.ts:13 when that wait times out.
- Request interception, dialog dismissal and the `navigator.webdriver`
  override (index.ts:9-11) are driver configuration. They have no effect
  on the returned stories.
- `Promise.all` concurrency (index.ts:16) is modelled as a sequential
  ordered map. The order of results and the all-or-nothing outcome are the
  same.
- Listing.ExtractAll: names the first incomplete element in page order.
  With real concurrency, `Promise.all` rejects with whichever rejection
  settles first, so the reported element may be a later incomplete one.
  `Listing.GetPostToLJDH` states only that the named element is kept and
  incomplete.
- CommentCount.Count: returns the exact value of the digit run. `parseInt`
  loses precision above 2^53, and that is not modelled.
- Negative or fractional `numStories` are not modelled: `numStories` is a
  `nat`. JavaScript's `slice` counts negative bounds from the end.
- `href` is taken as the string the driver returns. The browser's
  resolution of relative links is not modelled.
- Strings are sequences of code points. JavaScript strings are UTF-16 code
  units, and `.` without the `u` flag matches each half of a surrogate
  pair. Neither half is a line terminator, so the captured name is the
  same.
- install.js downloads the browser binary. It is installation I/O and is
  not modelled.
