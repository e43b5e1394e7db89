# CacheDemo: cache negotiation of a Koa file server, in Dafny

index.js is a small Koa server that demonstrates four browser caching
strategies. A process-wide variable `type` records the strategy the user
picked last. A visit to one of five trigger URLs (`/`, `/expires`,
`/cacheControl`, `/lastModified`, `/etag`) sets it and serves the landing
page. `/favicon.ico` gets an empty body. Every other URL is served from the
file system with a `Content-Type` from the `mimes` table (`parseMime`) and
with headers picked by `switch (type)`:

- `expires`: an `Expires` header 5000 ms ahead of the clock;
- `cacheControl`: `Cache-Control: max-age=5`;
- `lastModified`: `Cache-Control: no-cache` and a conditional GET on the exact
  string `If-Modified-Since` against the file's GMT modification time;
- `etag`: `Cache-Control: no-cache` and a conditional GET on the exact
  string `If-None-Match` against the quoted MD5 hex digest of the file;
- anything else: the file bytes only.

The model has six modules:

- `Optional`: the Option type.
- `NodePath`: the two Node library calls the server depends on.
  - `path.extname` (POSIX), read backwards by index as Node does.
  - `String.prototype.replace` with a one-character pattern and a replacement without `$`.
- `Mime`: the `mimes` table as the list of its entries, and `parseMime`.
- `CacheServer`: the middleware.
  - The class `Server` holds `type` as its field `mode`.
  - `Server.Handle` is one run of the middleware. It sets a local status, header map and body step by step, in the order index.js does, including the second `Content-Type` write of the two revalidating modes.
  - `Server.ResetMode` is what the `resetType` timer does when it fires.
  - `Handle` is proved against the specification function `Respond`, and against `NextMode` for the new value of `type`.
- `CacheProperties` and `Scenarios`: what the source promises, stated over `Respond` and over sequences of `Handle` calls on one server.

Everything the middleware takes from outside is a field of `Env`:

- the clock (`Date.now()`);
- the landing page bytes;
- the requested file's bytes and modification time;
- `toUTCString`, which also stands for `toGMTString` since the two are aliases;
- the MD5 hex digest.

A header value is `Option<string>`, where None is the `undefined` that
`parseMime` gives for an unknown extension. The status is None when the
middleware sets none, and the body is None when it assigns none.

Three facts about the code that the model keeps as they are:

- The middleware sets no status other than 304. In every other response
  Koa supplies the status (200 once a body is assigned), so the model's
  status is None there.
- A URL without extension looks up the key `unknown`, which the table lacks,
  so it gets `undefined`.
- `Expires` is exactly `now + 5000` milliseconds, formatted by `toUTCString`.

## Model

| member | source | states |
|---|---|---|
| NodePath.ReplaceFirst | index.js:62 | `s.replace(c, rep)` with a one-character pattern and a replacement without `$` (index.js:62 passes `''`); its contract states that a leading `c` is replaced by `rep`; ReplaceFirstSpec pins it for every string |
| NodePath.ReplaceFirstSpec | index.js:62 | `url.replace('/', '')` replaces only the first `/`, and leaves a string without `/` as it is |
| NodePath.IndexOfSpec | index.js:62 | the first occurrence that `replace` acts on is an occurrence, with none before it |
| NodePath.ExtName | index.js:30 | `path.extname` (POSIX): past trailing `/`, the last component's text from its last `.`, or `''` when that `.` is missing, leads the component, or the component is `..`; pinned by ExtNameShape, ExtNameIgnoresTrailingSlash, ExtNameOfFileName and ExtNameWithoutDot |
| NodePath.ExtNameShape | index.js:30 | `path.extname` gives `''` or a `.` followed by text containing no `.` and no `/` |
| NodePath.ExtNameIgnoresTrailingSlash | index.js:30 | a trailing `/` does not change the extension |
| NodePath.ExtNameOfFileName | index.js:30 | the extension of `dir/stem.ext` is `.ext`, except for the name `..`, which has none |
| NodePath.ExtNameWithoutDot | index.js:30 | a last component without `.` has no extension |
| Mime.Find | index.js:32 | the value of the first entry with the key, or None; FindSpec and FindDistinct pin it |
| Mime.Lookup | index.js:32 | `mimes[key]` over the 19 entries; LookupFindsEntry and NoEntryOfOtherLength pin it |
| Mime.ParseMime | index.js:28-33 | `parseMime(url)`: the entry for the extension without its dot, or for `unknown`; ParseMimeIsTableEntry, ParseMimeOfFileName and ParseMimeWithoutExtension pin it |
| Mime.FindSpec | index.js:32 | the lookup gives the value of an entry with that key, and `undefined` exactly when no entry has it |
| Mime.LookupFindsEntry | index.js:5-25 | no key is listed twice, and every listed extension looks up its own type |
| Mime.NoEntryOfOtherLength | index.js:5-25 | every key of the table has 2 to 4 characters, so `unknown` and the empty key have no entry |
| Mime.ParseMimeIsTableEntry | index.js:28-33 | `parseMime` gives a table type for the extension without its dot, `undefined` when the extension is not listed, and `undefined` for every URL without extension |
| Mime.ParseMimeOfFileName | index.js:28-33 | a file `stem.ext` in any directory gets the table entry of `ext` |
| Mime.ParseMimeWithoutExtension | index.js:28-33 | a file name without a dot gets `undefined` |
| Mime.CssAndLessAreStylesheets | index.js:5-7 | `.css` and `.less` files are both `text/css` |
| Mime.QueryStringHidesType | index.js:28-33 | the query string is part of the extension, so `/style.css?v=2` gets `undefined` |
| CacheServer.ModeName | index.js:71-117 | the `case` label of each branch, `''` for the default branch; ModeNameRoundTrip and ValidModeSelectsItsBranch pin it |
| CacheServer.ModeOf | index.js:71-119 | the `switch` takes the branch whose label is `type`, and the default branch when no label matches |
| CacheServer.ModeNameRoundTrip | index.js:71-119 | the five branch labels select their own branch |
| CacheServer.NextMode | index.js:60-62 | the new `type`: `url.replace('/', '')` for a trigger URL, the old value otherwise; TriggerSelectsMode and CacheProperties.OtherUrlsKeepMode pin it |
| CacheServer.TriggerUrlShape | index.js:60-62 | every trigger URL is `/` followed by one of the five values `type` can take |
| CacheServer.DropLeadingSlash | index.js:62 | `replace('/', '')` on a URL that starts with `/` gives the rest of the URL, and `/` followed by that rest is the URL again |
| CacheServer.TriggerSelectsMode | index.js:60-64 | after a trigger URL, `type` is the URL without its `/`, one of the five labels, and selects the branch the URL names |
| CacheServer.ValidModeSelectsItsBranch | index.js:51-71 | every value `type` can hold selects the branch labelled by it, so the default branch is taken only for `''` |
| CacheServer.Policy | index.js:67-120 | the response to a file URL in each branch of the `switch`; pinned by the CacheProperties lemmas for each mode |
| CacheServer.Respond | index.js:60-120 | the response to any URL: landing page, empty favicon, or Policy for the current `type`; Server.Handle follows it, and CacheProperties states its promises |
| CacheServer.Server.constructor | index.js:51 | `type` starts as `''` |
| CacheServer.Server.ResetMode | index.js:55-59 | the timer sets `type` back to `''` |
| CacheServer.Server.Handle | index.js:53-122 | one run of the middleware gives the response `Respond` specifies for the old `type`, and leaves `type` as `NextMode` says |
| CacheProperties.TriggerServesLandingPage | index.js:60-64 | a trigger URL gets `Content-Type: text/html`, the landing page and no status, and selects the mode it names |
| CacheProperties.FaviconIsEmpty | index.js:65-66 | `/favicon.ico` gets an empty body, no header and no status, and leaves `type` alone |
| CacheProperties.OtherUrlsKeepMode | index.js:60-66 | only trigger URLs change `type` |
| CacheProperties.FileUrlsCarryParsedType | index.js:70 | every file response carries `Content-Type: parseMime(url)` in every mode |
| CacheProperties.NoBodyExactlyWhenNotModified | index.js:53-122 | 304 is the only status the middleware sets, and a response lacks a body exactly when it is a 304 |
| CacheProperties.NotModifiedExactlyOnMatch | index.js:86-116 | a 304 is sent exactly when a conditional mode is active and the request carries that mode's validator, character for character |
| CacheProperties.DefaultModeServesBytes | index.js:117-119 | default mode sets only `Content-Type`, serves the file bytes and ignores both validator headers |
| CacheProperties.ExpiresModeSetsExpiry | index.js:73-78 | `expires` mode sets `Content-Type` and `Expires` = the UTC string of now + 5000 ms, nothing else, and serves the bytes |
| CacheProperties.CacheControlModeSetsMaxAge | index.js:80-84 | `cacheControl` mode sets `Content-Type` and `Cache-Control: max-age=5`, nothing else, and serves the bytes |
| CacheProperties.LastModifiedModeRevalidates | index.js:86-97 | `lastModified` mode: `no-cache` and the parsed type always; 304 without body or `Last-Modified` exactly when `If-Modified-Since` equals the GMT mtime; otherwise that string as `Last-Modified` and the bytes; an absent header never matches |
| CacheProperties.ETagModeRevalidates | index.js:100-116 | `etag` mode: `no-cache` and the parsed type always; 304 without body or `Etag` exactly when `If-None-Match` equals the quoted MD5 hex; otherwise that tag as `Etag` and the hashed bytes as body; an absent header never matches |
| CacheProperties.EchoedLastModifiedIsNotModified | index.js:92-95 | sending back the `Last-Modified` of a full response, for an unchanged file, gives a 304 |
| CacheProperties.EchoedETagIsNotModified | index.js:106-113 | sending back the `Etag` of a full response, for unchanged bytes, gives a 304 |
| CacheProperties.RepeatedRequestIsIdempotent | index.js:53-122 | the same request sent again, with the same file and clock, gets the same response and leaves the same `type` |
| CacheProperties.OnlyExpiresReadsClock | index.js:75 | at another instant the status, body, header names and every header but `Expires` are the same |
| Scenarios.Visit | index.js:60-64 | a visit to a trigger URL serves the landing page and sets `type` to the URL without its `/` |
| Scenarios.ETagRevisit | index.js:100-116 | visiting `/etag`, fetching a file, then fetching it again with the tag received gives a full response with the tag, then a 304 without body or tag |
| Scenarios.LastModifiedRevisit | index.js:86-97 | the same round trip in `lastModified` mode gives a full response with the GMT mtime, then a 304 |
| Scenarios.ModeLapsesAfterReset | index.js:55-59 | after the reset timer fires, a file is served in the default mode again, without `Cache-Control` |
| Scenarios.EarlierTimerClearsLaterMode | index.js:55-63 | a reset timer that fires after a second trigger visit clears the mode that visit selected, so the next file gets no caching header; which visit scheduled the timer is not modelled |

## Left out

- Koa app wiring, `ctx` plumbing, `app.listen` and its console log (index.js:1-4, 52, 124-126): framework and network I/O.
- File reads and stat (`parseStatic`, `getFileStat`, index.js:36-49) and `path.resolve` (index.js:68): file system I/O. The file's bytes and modification time come in through `Env.file`. The model reads them as one snapshot, although the `lastModified` branch stats the file and then reads it separately.
- A missing or unreadable file. In the `lastModified` branch the ignored stat error (index.js:45) leaves `fileStat` undefined, so `fileStat.mtime.toGMTString()` (index.js:92) throws a TypeError before any read. In the other branches `readFileSync` throws and the awaited promise rejects (index.js:38). The model has no failing file.
- MD5 via `crypto` (index.js:104-106), `Date.now()` and the `toUTCString`/`toGMTString` formatting (index.js:75, 92, 95): foreign libraries and the clock, modelled as the fields `md5Hex`, `now` and `utcString` of `Env`, with no properties assumed.
- The 100 ms `setTimeout` of `resetType` (index.js:55-59, 63): timers and concurrency. `Server.ResetMode` is what the timer does when it fires, and the scenarios place it explicitly between requests. Interleavings of concurrent requests are not modelled.
- Koa's own handling of what the middleware leaves on `ctx` is outside the repository and not modelled:
  - the status it picks when the middleware sets none (404 until a body is assigned, then 200);
  - `ctx.set` writing `undefined` as the string `undefined`;
  - the implicit `Content-Type` that assigning a body adds when none is set, as for the favicon's empty string;
  - case-insensitive header names.
- NodePath.ReplaceFirst: the `$` patterns (`$$`, `$&`, `` $` ``, `$'`) that JavaScript expands in a replacement string are not modelled; `rep` is inserted literally. The only call, at index.js:62, passes `''`, where the two agree.
- Mime.Lookup: keys that a JavaScript object inherits from its prototype, such as `constructor`, are absent from the model's table. In the source they would give a non-string value.
- Characters are JavaScript UTF-16 code units; no encoding or normalisation is modelled.
