# URL shortener handlers, modelled in Dafny

The service has two request handlers that share one datastore table, `links`,
which maps a `short_code` to an `original_url`:

- `POST` in function/shorten.ts turns a long URL into a short one. It reads the
  JSON body and validates `url`. It is then written to look for a row that
  already holds the URL and, if there is none, to try up to five hashed
  candidate codes, checking each one for availability and inserting the first
  free one (as shown below, it never gets that far).
- `handler` in function/redirect.ts takes the last segment of the request path.
  It checks that segment against `^[a-zA-Z0-9]{6,}$` and answers 301 with the
  stored URL, 404 when there is no row, or 400 when the code is malformed.

The model has five modules:

- `Js` (js.dfy) holds the JavaScript values the handlers inspect: decoded JSON,
  a property that may be absent, and values that may be `null` or `undefined`.
- `LinkStore` (link_store.dfy) holds the `links` table. It is a class with a
  `rows: map<string, string>` field, plus the three queries the handlers send.
  A failing query is described by a *fault*: the PostgREST error code it
  reports.
- `Shorten` (shorten.ts as written) holds `isValidUrl`, the `checkURLinDB`
  decision, the three guards, `POST`, the reuse stage and the
  generate-check-insert loop.
- `Redirect` (redirect.ts) holds `split('/')`, `pop()`, the code pattern and
  `handler`.
- `ShortenCorrected` holds the shorten pipeline with its three `||` guards
  corrected (see "## Findings"). It also holds the service's end-to-end
  promises: a created short URL redirects to its URL, and shortening a URL
  twice reuses the first code.

As written, the guard at shorten.ts:41 holds for every value. So `POST` only
ever answers 400 "Need a proper URL", or 500 "Internal Server Error" when the
body cannot be decoded or destructured. `Shorten.Post` is therefore a function
of the decoded request alone: it never touches the table. Lines 48-81 cannot be
reached from it. The reuse stage and the loop are modelled as methods of their
own, `Shorten.ReuseStage` and `Shorten.GenerateLoop`, with their guards exactly
as written.

Nondeterminism becomes parameters:
- The hash is an oracle `cand: nat -> string`, where `cand(i)` is the candidate
  of attempt `i`.
- URL parsing is an abstract protocol: `Option<string>`, or
  `protocolOf: string -> Option<string>`.
- Datastore failures are the faults `Option<ErrorCode>`. The availability check
  of attempt `i` has the fault `checkFault(i)`.

The test file function/shorten.test.ts does not match shorten.ts. It imports
`handler` where shorten.ts exports `POST` (test:20). It expects OPTIONS to be
answered 200 (test:72-79) and other methods 405 (test:81-87). It expects the
messages "Invalid JSON", "URL is required" and "Need proper URL"
(test:89-111), and a BaseUrl prefix on a reused code (test:125). shorten.ts
does none of this, and the model follows shorten.ts.

## Model

| member | source | states |
|---|---|---|
| LinkStore.ByCode | function/shorten.ts:28 | a lookup by short code returns the stored row exactly when the query succeeds and the code is a key; a failed query carries its error code and no data |
| LinkStore.Links.SelectByUrl | function/shorten.ts:55 | the reuse lookup returns a row exactly when the query succeeds and some key maps to `url`, and that row's key maps to `url` in the table |
| LinkStore.InsertError | function/shorten.ts:69 | an insert reports no error exactly when the request succeeds and the code is not yet a key; a repeated key is a unique violation |
| LinkStore.Inserted | function/shorten.ts:69 | an insert never changes or removes an existing row, adds at most the row `{code -> url}`, and grows the table by one exactly when it reports no error |
| LinkStore.Links.Insert | function/shorten.ts:69 | the insert's reported error and the new table are InsertError and Inserted of the old table |
| Shorten.IsValidUrl | function/shorten.ts:18-24 | a URL is valid exactly when parsing succeeds with protocol `http:` or `https:`; a parse failure is invalid |
| Shorten.IsTaken | function/shorten.ts:30-34 | an error other than `PGRST116` gives "not taken" whatever the data; otherwise the code is taken exactly when a row came back |
| Shorten.CheckUrlInDb | function/shorten.ts:27-35 | `checkURLinDB` reports a code taken exactly when its query succeeds and the code is a key of the table |
| Shorten.UrlOf | function/shorten.ts:39 | destructuring `url` throws exactly on a `null` body; an object with a `url` key yields that property, and every other body (a primitive, an array, an object without the key) yields `undefined` |
| Shorten.Line41GuardAlwaysHolds | function/shorten.ts:41 | `url !== null \|\| typeof url !== 'string'` holds of every value |
| Shorten.Line57GuardAlwaysHolds | function/shorten.ts:57 | `existing !== null \|\| existing !== undefined` holds of every value |
| Shorten.Line71GuardAlwaysHolds | function/shorten.ts:71 | `error !== null \|\| error !== undefined` holds of every value |
| Shorten.Post | function/shorten.ts:37-89 | `POST` answers 500 "Internal Server Error" exactly when the body fails to decode or is `null`, and 400 "Need a proper URL" to every other request; it has no access to the table |
| Shorten.PostRejectsProperUrl | function/shorten.ts:39-45 | a body `{"url": "https://example.com"}` is answered 400 "Need a proper URL" |
| Shorten.PostNeverShortens | function/shorten.ts:37-89 | `POST` answers only 400 or 500, always with an error body |
| Shorten.ReuseStage | function/shorten.ts:55-63 | with a row holding `url`: 200 with that bare short code and `alreadyExists`; without one (or on a query error): 500 "Internal Server Error"; the table is not modified |
| Shorten.FirstFree | function/shorten.ts:65-68 | the first attempt below 5 whose candidate is reported free, with every earlier attempt reported taken; None exactly when all five are reported taken |
| Shorten.GenerateLoop | function/shorten.ts:65-81 | the loop checks attempts 0..4 in order; if all are taken it answers 500 "failed to generate unique code" after 5 checks with the table unchanged; otherwise it stops after checking the first free candidate, inserts it (Inserted) and answers 500 "Internal Server Error" |
| Redirect.Split | function/redirect.ts:8 | `split('/')` yields at least one piece and no piece contains a slash |
| Redirect.SplitJoin | function/redirect.ts:8 | joining the pieces of `split('/')` with slashes gives the path back |
| Redirect.Pop | function/redirect.ts:8 | `pop()` never yields `null`, and yields `undefined` only for an empty array |
| Redirect.LastSegment | function/redirect.ts:8 | the last segment is a slash-free suffix of the path, preceded by a slash unless it is the whole path |
| Redirect.PopSplitIsLastSegment | function/redirect.ts:8-10 | `path.split('/').pop()` is always the last segment, so the `code === null` test never fires |
| Redirect.LastSegmentAfterSlash | function/redirect.ts:8 | the last segment of `prefix + "/" + code` is `code` when `code` has no slash |
| Redirect.Handler | function/redirect.ts:7-24 | a malformed last segment (shorter than 6 or not alphanumeric) gives 400 "invalid code"; a well-formed one gives 301 with the stored URL when the lookup finds it, else 404 "Not found"; the handler only reads the table |
| Redirect.RedirectsToStoredUrl | function/redirect.ts:8-23 | a request for `.../code` is redirected exactly when `code` is well formed and stored, and then to the stored URL |
| ShortenCorrected.CorrectedGuardsPassNormalCase | function/shorten.ts:41 | unlike the written guards, the corrected ones let a string URL, a missing row and an error-free insert through |
| ShortenCorrected.StringUrl | function/shorten.ts:39-41 | a request names a URL exactly when its body destructures and its `url` is a string, and the URL named is that string |
| ShortenCorrected.HexDigestIsValidCode | function/redirect.ts:10 | every 10-character lowercase-hex code, the shape `hash` returns at shorten.ts:14, passes the redirect pattern and has no slash |
| ShortenCorrected.CreatedUrlRedirects | function/shorten.ts:74 | the short URL built from a stored hex code redirects (301) to the URL stored under it |
| ShortenCorrected.ReuseIntended | function/shorten.ts:55-63 | with line 57 corrected, a found row gives 200 with its code, and a missing row (or a query error) lets the pipeline continue |
| ShortenCorrected.GenerateIntended | function/shorten.ts:65-81 | with line 71 corrected, the first free candidate is inserted and answered 200 with BaseUrl + code when the insert reports no error, else 500; five taken candidates give 500 "failed to generate unique code" and no insert |
| ShortenCorrected.ShortenIntended | function/shorten.ts:37-89 | the corrected pipeline: 500 for an undecodable body, 400 "Need a proper URL" for a non-string `url`, 400 "Invalid URL" for a non-http(s) URL, reuse of an existing row (200 with its code and `alreadyExists`), else the loop; rows are never changed or deleted; a row is added only for a valid URL with a 200; a created short URL redirects to the requested URL |
| ShortenCorrected.ShortenTwice | function/shorten.ts:55-81 | when a first request creates a short URL, the same request again is answered 200 with the same code and `alreadyExists` true, and the table has grown by exactly one row |

## Findings

| source | as written | input that shows it | evidently intended | confidence | as-written member | corrected member |
|---|---|---|---|---|---|---|
| function/shorten.ts:41 | the two tests are joined by "or", so the guard holds of every value and every decodable request is refused | body `{"url": "https://example.com"}` is answered 400 "Need a proper URL" | refuse only `null` or a non-string (`url === null` or `typeof url !== 'string'`) | high, not executed | Shorten.PostRejectsProperUrl | ShortenCorrected.ShortenIntended |
| function/shorten.ts:57 | the two tests are joined by "or", so the reuse branch is always taken and dereferences `null` when no row holds the URL | a valid URL that is not yet in the table is answered 500 "Internal Server Error" | reuse only when a row was found (`existing !== null` and `existing !== undefined`) | high, not executed | Shorten.ReuseStage | ShortenCorrected.ReuseIntended |
| function/shorten.ts:71 | the two tests are joined by "or", so the handler throws after every insert, successful or not | a free first candidate is inserted, and the request is still answered 500 "Internal Server Error" | throw only when the insert reported an error | high, not executed | Shorten.GenerateLoop | ShortenCorrected.GenerateIntended |

## Left out

- The internals of `hash` (shorten.ts:9-16) are left out: trimming and lower-casing, the salt from the clock and `Math.random`, and SHA-256. They are replaced by the oracle `cand`. The end-to-end properties assume what `hash` guarantees by construction: every candidate is 10 lowercase hex digits.
- WHATWG `URL` parsing in `isValidUrl` is a foreign library. It is represented by the protocol it yields, or None when it throws.
- The Supabase client and the environment variables (shorten.ts:1-7, redirect.ts:1-5) are replaced by the in-memory table and faults.
- `maybeSingle` and `single` semantics are left out. A lookup by URL that matches several rows returns one of them, not an error. The redirect lookup's "no rows" error is not produced, because the handler ignores `error`.
- The columns a query selects are left out: every query returns the whole row.
- The HTTP plumbing is left out: `Response` objects, headers, JSON serialisation and `console.error`. A shorten response is a status and a body datatype. A redirect reply is a status with a body or a `Location`.
- A failure to read the request body and a body that is not JSON are both the same "decoding rejects" case. JSON numbers are integers.
- Redirect.Handler takes `event.path` as a string. A request without a path, where `split` would throw outside any `catch`, is not modelled.
- Concurrency is left out: in particular the check-then-insert race between concurrent shorten requests. The model is sequential.
- Shorten.Post does not reach the "Invalid URL" check at shorten.ts:48-53, because line 41 always returns first. That check is modelled in ShortenCorrected.ShortenIntended.
- The success response at shorten.ts:73-77 cannot be reached as written. It is modelled in ShortenCorrected.GenerateIntended.
