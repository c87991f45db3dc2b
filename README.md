# node-cgi request runtime, modelled in Dafny

node-cgi runs one JavaScript page per CGI request. Each request builds a
context:

- **Environment partition.** The CGI environment is split into request
  headers and server variables.
- **Cookies.** The cookie header is parsed into a store.
- **Session.** A file-backed session is chosen, created or re-created, and
  checked against the client's address.
- **Request.** It records the method and whether the body is multipart. It
  collects the body and decodes an URL-encoded form.
- **Response.** It writes exactly one header block, the session cookie
  included, before any body text.

The typed sources (`src/*.ts`) and the older bundled runtime
(`lib/node-cgi.js`) do this in nearly the same way. This project models both.

The operating system is abstracted:

- **Files.** The session directory is the value `Sessions.Disk`: whether the
  directory exists, and a map from path to the stored record and its
  modification time. Operations on it take the directory and return the new
  one.
- **Standard output.** It is the field `out: seq<string>` of the response.
- **Standard input.** It is a list of chunks. Each chunk is the text of one
  `data` event decoded on its own, since `data +=` turns each Buffer into a
  string separately; a multi-byte character split across two chunks is
  already U+FFFD in them. So `Concat(chunks)` is not the decoding of the
  whole body.
- **Clock and ids.** The clock is the parameter `now`. The md5 id of a new
  session is the parameter `freshId`.
- **Environment.** `process.env` is a list of (name, value or undefined)
  pairs, in enumeration order.
- **JSON files.** A session file holds its record directly. Only the effect
  of `JSON.stringify` followed by `JSON.parse` is modelled (`Values.Persisted`):
  - it drops `undefined` members;
  - it throws on a BigInt.

Modules and what they model:

- `Wrappers`: `Option` and `Result`.
- `Text`: the JavaScript string operations the sources use, such as `split`,
  `indexOf`, `substring`, `trim` and `toLowerCase`.
- `Percent`: `encodeURIComponent` and `decodeURIComponent` over UTF-8. This is
  the percent-encoding of section 2.1 of RFC 3986. A decode that would throw
  gives `None`.
- `CookieCodec`: `src/Cookies.ts`.
- `HeaderTable`: the `Headers` objects and the bundle's `Map`s. Each is an
  insertion-ordered table from a name to its list of values. `set` replaces
  the list and `get` reads its first value.
- `Values`: JavaScript values and what JSON does to them.
- `Sessions`: `src/Session.ts` and `src/Config.ts`.
- `FormCodec`: `application/x-www-form-urlencoded` decoding.
  - It follows section 5.1 of the WHATWG URL Standard, as `URLSearchParams`
    does.
  - It also has the grouping of Node's `querystring.parse`.
- `Requests`: `src/Request.ts`.
- `Responses`: `src/Response.ts`.
- `Contexts`: the constructor of `src/Context.ts`.
- `Legacy`: the places where `lib/node-cgi.js` differs from the typed
  sources, and its dispatch. Its cookies and sessions are the typed ones
  (`CookieCodec.Cookies`, `Sessions.Session`), because the bundle's code for
  them is the same.

Behaviour worth knowing:

- **Stale form alias.** `Context.post.form` is the form object the request
  had when the context was built. `parsePost` gives the request a new form
  object, so after the body is parsed `context.post.form` is still the empty
  one. `Contexts.Context.Open` and `Requests.Request.ParsePost` state both
  facts.
- **Case-sensitive lookups.** The model treats the `Headers` class as
  case-sensitive, because it is not part of this model and nothing shows
  that it folds case. The typed context stores server variables under their
  own names, such as `REQUEST_METHOD`, and then looks up lower-case names:
  - `request_method`, so the method reads as `get`;
  - `remote_addr`, which the session records as the client address;
  - `content_type`.

  The bundle lower-cases server names first. `Legacy.UpperCaseMethod` shows
  the difference on one environment.
- **Legacy header block.** The bundle's response writes no header lines. Its
  loop walks `Object.entries` of a `Map`, which is empty.
- **No `__proto__` in `data`.** The `data` getters of cookies and sessions
  fill a `{}` by assignment. For the key `__proto__` that assignment calls
  the prototype setter instead of storing a pair, so `data`, and the file
  `save` writes, never hold that key.
- **End is final.** `end` terminates the process. The model keeps the
  response in an `exited` state in which nothing more is written.

## Model

| member | source | states |
|---|---|---|
| Text.IndexOf | src/Cookies.ts:26 | the result is -1 exactly when the character is absent; otherwise it is the position of its first occurrence |
| Text.Split | src/Cookies.ts:22 | `split(c)` gives at least one piece, and no piece holds `c` |
| Text.JoinSplit | src/Cookies.ts:22 | joining the pieces of `split(c)` with `c` gives the input back |
| Text.SplitJoin | src/Cookies.ts:22 | splitting pieces joined by `c` (none holding `c`) gives those pieces back |
| Text.Substring | src/Request.ts:61 | `substring(start, end)` clamps both ends to the string and swaps them when reversed |
| Text.TrimStart | src/Cookies.ts:31 | the result is a suffix of the input, it does not start with white space, and only white space was dropped |
| Text.TrimEnd | src/Cookies.ts:32 | the result is a prefix of the input, it does not end with white space, and only white space was dropped |
| Text.TrimNoSpace | src/Cookies.ts:31-32 | a string without white space is left unchanged by `trim` |
| Text.ToLower | src/Request.ts:37 | `toLowerCase` keeps the length and maps each character by the ASCII case mapping |
| Text.ToLowerIdempotent | src/Context.ts:33 | lower-casing twice is lower-casing once |
| Text.Contains | src/Request.ts:37 | `indexOf(sub) > -1` holds exactly when `sub` occurs at some position |
| Text.ConcatAppend | src/Response.ts:38-41 | writing two lists of texts one after the other writes their concatenations one after the other |
| Text.DecimalRoundTrip | lib/node-cgi.js:344 | the decimal text `String(n)` gives a natural number reads back as that number |
| Text.IntToDecimal | lib/node-cgi.js:344 | `String(n)` starts with `-` exactly for a negative number; the rest are digits without a leading zero that read back as the magnitude |
| Percent.Encode | src/Cookies.ts:59 | `encodeURIComponent` leaves only unreserved characters and `%` |
| Percent.Decode | src/Cookies.ts:39 | `decodeURIComponent` never lengthens the text, and throws only on text holding a `%` |
| Percent.DecodeEncode | src/Cookies.ts:38-39 | `decodeURIComponent(encodeURIComponent(s)) == s` for every string, over UTF-8 |
| Percent.DecodePlain | src/Cookies.ts:38-39 | text without `%` decodes to itself |
| Percent.DecodeRejects | src/Cookies.ts:38-42 | a lone `%`, a non-hex escape, an overlong UTF-8 sequence and a truncated one make decoding throw |
| CookieCodec.Unquote | src/Cookies.ts:34-36 | a value of two or more characters starting with `"` is exactly its first character, then the result, then its last character; a lone `"` gives the empty string; any other value is kept |
| CookieCodec.SegmentEntry | src/Cookies.ts:26-32 | a segment contributes nothing exactly when it has no `=` |
| CookieCodec.ParseHeader | src/Cookies.ts:18-44 | the parsed store never has a name holding `;` or `=` |
| CookieCodec.ParseEmpty | src/Cookies.ts:19-20 | a missing or empty cookie header gives an empty store |
| CookieCodec.EntryStoreLookup | src/Cookies.ts:38-42 | a key is stored exactly when some segment has it, and it holds the value of the last such segment |
| CookieCodec.ParseSegmentsLookup | src/Cookies.ts:22-43 | parsed segments store a key exactly when a segment with `=` names it, and the last one wins |
| CookieCodec.ParseSegmentsSkip | src/Cookies.ts:27-29 | a segment without `=` leaves the store as it was |
| CookieCodec.ParseSegmentsStore | src/Cookies.ts:31-42 | a segment with `=` stores the trimmed key and the trimmed, unquoted, decoded-or-raw value, replacing any earlier value |
| CookieCodec.ParseSegmentsStep | src/Cookies.ts:24-43 | one more segment leaves the store as it was when it has no `=`, and otherwise stores its key and value, replacing any earlier value |
| CookieCodec.CookiePairRoundTrip | src/Cookies.ts:31-39 | parsing `name=encodeURIComponent(value)` maps the name back to exactly that value (for a name without `;`, `=` or surrounding space) |
| CookieCodec.QuotedPairRoundTrip | src/Cookies.ts:31-39 | parsing `name="encodeURIComponent(value)"` also maps the name back to exactly that value: the quotes are removed before decoding |
| CookieCodec.SerializeCookie | src/Cookies.ts:58-80 | the serialized cookie starts with `name=encodeURIComponent(value)`, and is that pair alone exactly when no attribute is truthy |
| CookieCodec.SerializeSplits | src/Cookies.ts:58-80 | the serialized cookie is `name=encode(value)` followed by its present attributes, in order, each after `"; "` |
| CookieCodec.SerializeParsesName | src/Cookies.ts:59 | the first segment of a serialized cookie parses back to the cookie's name and value |
| CookieCodec.SerializeBare | src/Cookies.ts:61-78 | a cookie with no truthy attribute serializes to `name=encode(value)` alone |
| CookieCodec.Cookies.constructor | src/Cookies.ts:18-44 | the store is the parse of the header, empty for a missing or empty one |
| CookieCodec.Cookies.ParsePairs | src/Cookies.ts:22-43 | the segment loop stores, segment by segment, what the parse function gives |
| CookieCodec.Cookies.ReadPair | src/Cookies.ts:25-42 | one segment gives a pair exactly when it holds `=`, and then the trimmed key and the unquoted, decoded-or-raw value the parse names |
| CookieCodec.Cookies.Get | src/Cookies.ts:46-48 | `get` gives a value exactly when the key is stored, and then the stored value |
| CookieCodec.Cookies.Data | src/Cookies.ts:50-56 | the `data` record holds exactly the store's pairs, except a `__proto__` key, which assignment to a `{}` does not store |
| HeaderTable.Find | src/Context.ts:45 | the position of the first entry with the name, or -1 when none has it |
| HeaderTable.PutLookup | src/Context.ts:46-47 | after `set(k, v)`, `get(k)` is `v` and every other name reads as before |
| HeaderTable.PutNames | src/Response.ts:22 | `set` of a known name keeps the order of names; a new name is appended |
| HeaderTable.PutSetBuilt | src/Context.ts:37-39 | tables built by `set` have distinct names and one value each |
| HeaderTable.PutAllSnoc | src/Context.ts:31-42 | one more pair in the loop is one more `set` |
| HeaderTable.LastValue | src/Context.ts:31-42 | the last value set for a name, none exactly when no pair has that name |
| HeaderTable.PutAllLookup | src/Context.ts:31-42 | after a run of `set` calls a name reads as the last value set for it, or as before when none was |
| HeaderTable.Headers.Set | src/Context.ts:37 | `set` replaces the table by its update with `k` holding `[v]` |
| HeaderTable.Headers.Get | src/Context.ts:45-47 | `get(k)` is the first value of the first entry named `k`, and nothing when no entry names `k` |
| HeaderTable.Headers.Raw | src/Response.ts:22 | `raw()` is every name with its values, in insertion order |
| Values.Json | lib/node-cgi.js:346 | `JSON.stringify` gives text exactly when no BigInt is inside the value |
| Values.UnescapeEscaped | lib/node-cgi.js:346 | the body of a JSON string literal reads back as the string |
| Values.Kept | src/Session.ts:119 | JSON keeps exactly the members whose value is not `undefined`, in order |
| Values.Persisted | src/Session.ts:119 | a value survives `JSON.stringify` exactly when it holds no BigInt |
| Values.PersistedPlain | src/Session.ts:119 | a value without BigInt or `undefined` comes back from JSON unchanged |
| Values.PersistedIsPlain | src/Session.ts:119 | what comes back from JSON holds no `undefined` |
| Sessions.NewCookieSelects | src/Session.ts:33-35 | the `name=value` pair of the cookie a new session sets, read back on the next request, selects exactly that session's id (any non-empty id) |
| Sessions.ResolveId | src/Session.ts:33-41 | the id settled on always has a file in the directory afterwards |
| Sessions.OpenRecord | src/Session.ts:32-56 | construction throws nothing but `"Invalid session ID"`, and yields a record only for the requesting address |
| Sessions.PersistData | src/Session.ts:110-119 | the data map can be written exactly when none of its values holds a BigInt |
| Sessions.OpenExisting | src/Session.ts:33-47 | a cookie naming an existing file selects it, writes nothing, and succeeds exactly when the recorded address is `remote_addr` |
| Sessions.OpenFresh | src/Session.ts:38-41 | with no usable cookie or no file, exactly one new record is written under the fresh id, and it passes the address check |
| Sessions.OpenFailsIff | src/Session.ts:45-47 | construction throws `"Invalid session ID"` exactly when the cookie names an existing file recorded for another address |
| Sessions.PersistDataPlain | src/Session.ts:116 | data made of plain values is written as it is |
| Sessions.SaveThenOpen | src/Session.ts:110-120 | a saved session is what the next request with its cookie and address loads, with its data as JSON keeps it and without a `__proto__` key, and nothing is written |
| Sessions.SaveThenOpenPlain | src/Session.ts:110-120 | a saved session with plain data is loaded back exactly, less a `__proto__` key |
| Sessions.SaveRecord | src/Session.ts:110-120 | saving succeeds exactly when the directory exists and the data can be written; then the session's file is stamped `now`, holds no key the store lacks, and every other file is as it was |
| Sessions.SaveDropsProto | src/Session.ts:102-108 | a saved session file never holds a `__proto__` data key |
| Sessions.DiskStaysValid | src/Session.ts:35-41 | creating and saving keep the directory a real one: no files without the directory |
| Sessions.Expired | src/Session.ts:131 | only a file last written before `now` expires, and one exactly 900 seconds old does not |
| Sessions.SweptIff | src/Session.ts:131 | cleanup keeps exactly the files with `mtime + 900000 >= now`, unchanged; a file exactly at the limit stays |
| Sessions.NewCookieSerialized | src/Session.ts:72-78 | a new session's cookie serializes to `__NODE_SESSION__=<id>; HttpOnly; SameSite=Lax` |
| Sessions.Session.Load | src/Session.ts:49-55 | after loading, id, cookie, path, address and store equal the record's fields and data |
| Sessions.Session.Create | src/Session.ts:58-88 | `create` returns the fresh id, the directory exists, and exactly the new record (empty data, `remote_addr`, cookie not sent) is written at its path |
| Sessions.Session.Open | src/Session.ts:32-56 | the constructor's directory effect and its outcome are those of the id resolution and the address check |
| Sessions.Session.Get | src/Session.ts:90-92 | `get` gives a value exactly when the key is stored, and then its value |
| Sessions.Session.Set | src/Session.ts:94-96 | `set` updates only the store, at one key |
| Sessions.Session.Unset | src/Session.ts:98-100 | `unset` removes the key, reports whether it was there, and changes nothing else |
| Sessions.Session.Data | src/Session.ts:102-108 | the `data` record holds exactly the stored pairs, except a `__proto__` key |
| Sessions.Session.MarkCookieSent | src/Response.ts:30-31 | only the cookie's `notSent` flag changes, to false |
| Sessions.Session.Save | src/Session.ts:110-120 | `save` overwrites the file at `path` with the record as JSON keeps it; it fails without the directory or on a BigInt |
| Sessions.Session.Cleanup | src/Session.ts:122-135 | `cleanup` removes exactly the expired files; it fails without the directory |
| FormCodec.Plus | src/Request.ts:69 | `+` reads as a space and every other character is kept |
| FormCodec.LenientAgrees | src/Request.ts:69 | where strict percent-decoding succeeds, the form decoder gives the same text |
| FormCodec.LenientEncode | src/Request.ts:69 | the form decoder undoes `encodeURIComponent` |
| FormCodec.LenientKeepsBadEscape | src/Request.ts:69 | a malformed escape `%zz` is kept as it is |
| FormCodec.LenientKeepsTrailingPercent | src/Request.ts:69 | a `%` at the end of the text is kept |
| FormCodec.LenientReplacesInvalid | src/Request.ts:69 | each byte of an invalid UTF-8 sequence becomes U+FFFD |
| FormCodec.LenientDecodesValid | src/Request.ts:69 | a valid escape decodes and a bare `%` after it is kept |
| FormCodec.RawSegment | src/Request.ts:69 | an empty sequence gives no pair |
| FormCodec.RawSegmentCut | src/Request.ts:69 | a sequence is cut at its first `=`: the name holds no `=`, and name, `=` and value give the sequence back |
| FormCodec.RawSegmentBare | src/Request.ts:69 | a sequence without `=` is a name with the empty value |
| FormCodec.SegmentEncodePair | src/Request.ts:69 | one encoded pair decodes to itself |
| FormCodec.SearchParams | src/Request.ts:69 | without a leading `?`, the `URLSearchParams` pairs grouped by key are what the model's `querystring.parse` gives; the two share one decoder here, which the real `querystring` departs from on text it cannot percent-decode |
| FormCodec.FormRoundTrip | src/Request.ts:69 | decoding pairs written as `encode(name)=encode(value)` joined by `&` gives them back in order, with or without a leading `?` |
| FormCodec.ExampleTwoPairs | src/Request.ts:68-69 | `a=1&b=2` decodes to `a` with `1` and `b` with `2` |
| FormCodec.GroupLookup | lib/node-cgi.js:291 | `querystring.parse` has a key exactly when some pair has it, holding all of that key's values in order |
| FormCodec.QueryParse | lib/node-cgi.js:291 | a key is present exactly when some pair names it, and holds all of its values in order |
| FormCodec.QueryRoundTrip | lib/node-cgi.js:291 | encoded pairs parse back under `querystring.parse` to the same pairs grouped by key |
| FormCodec.QueryKeepsQuestionMark | lib/node-cgi.js:291 | unlike `URLSearchParams`, `querystring.parse` keeps a leading `?` in the first name |
| Requests.IsMultiPart | src/Request.ts:37-39 | the body is multipart exactly when some slice of the content type lower-cases to `multipart/form-data` |
| Requests.MultiPartExample | src/Request.ts:37 | `Multipart/Form-Data; boundary=xyz` is multipart |
| Requests.MultiPartLower | src/Request.ts:37 | the test does not depend on the case of the content type |
| Requests.Boundary | src/Request.ts:60-61 | the boundary is a prefix of the body holding no newline |
| Requests.BoundaryFirstLine | src/Request.ts:60-61 | the boundary is the first line without its last character |
| Requests.BoundaryCrLf | src/Request.ts:60-61 | for a first line ended by CR LF, the boundary is the text before the CR |
| Requests.BoundaryNoNewline | src/Request.ts:60-61 | with no newline the boundary is empty |
| Requests.FormData.constructor | src/Request.ts:69 | a new form holds the decoded pairs of its text |
| Requests.Post.constructor | src/Request.ts:24-30 | the default record has an empty form, no files or parts, no data, and is not multipart |
| Requests.Request.constructor | src/Request.ts:32-40 | the request keeps url, method and headers, has the default record, and is multipart exactly when the content type says so |
| Requests.Request.AppendChunk | src/Request.ts:43-45 | one chunk of the body is appended to `data` and nothing else changes |
| Requests.Request.ParsePost | src/Request.ts:54-71 | a multipart body changes nothing; any other body gets a new form holding its decoded pairs |
| Requests.Request.ReadPost | src/Request.ts:42-52 | `data` gains every chunk in order; when asked, the body is then parsed as `parsePost` does it |
| Responses.EntryLines | src/Response.ts:23-25 | one `key:value` line per value of a header, in order |
| Responses.HeaderLinesIff | src/Response.ts:22-26 | the header lines are exactly the `key:value` lines of every value of every header |
| Responses.HeaderLinesSetBuilt | src/Response.ts:22-26 | for headers built by `set`, one line per header, in the table's order |
| Responses.BlockShape | src/Response.ts:21-35 | the block starts with the content type, ends with its only blank line, and has the `Set-Cookie` line just before it exactly when the cookie was not sent |
| Responses.OutputText | src/Response.ts:38-41 | the output text is the header block's text followed by the written texts |
| Responses.Response.constructor | src/Response.ts:10-16 | a new response has sent nothing |
| Responses.Response.SendHeaders | src/Response.ts:18-36 | the first call writes the header block and marks the cookie sent; later calls write nothing |
| Responses.Response.SendBlock | src/Response.ts:20-35 | from the pending state, exactly the header block of the current headers and cookie is written, and the cookie is marked sent |
| Responses.Response.WriteHeaderLines | src/Response.ts:22-26 | the `key:value` lines of every header are appended, header by header, and nothing else changes |
| Responses.Response.WriteEntry | src/Response.ts:23-25 | one `key:value` line per value of one header is appended, in order |
| Responses.Response.WriteCookieLine | src/Response.ts:28-33 | the `Set-Cookie` line is appended exactly when the cookie was unsent, and the cookie ends up marked sent |
| Responses.Response.Write | src/Response.ts:38-41 | the header block if pending, then the text; the output stays one header block followed by the written texts |
| Responses.Response.End | src/Response.ts:43-46 | the header block if pending, then the terminal state with no further output |
| Contexts.HeaderPairsIff | src/Context.ts:35-37 | the headers set are exactly the defined `http_` entries, lower-cased and without the prefix |
| Contexts.ServerPairsIff | src/Context.ts:35-39 | the server variables set are exactly the other defined entries, under their own names |
| Contexts.PartitionCount | src/Context.ts:31-42 | every defined entry is set once, in one table; undefined entries are skipped |
| Contexts.ServerLookup | src/Context.ts:39 | a server variable reads as the last defined non-header entry of that name |
| Contexts.RequestMethod | src/Context.ts:60 | the method is never empty, and any method but `get` is the server's `request_method` |
| Contexts.ContextHeadersLookup | src/Context.ts:46-47 | `content_type` and `content_length` are always present, taken from the server variables or empty, overriding any request header; other headers read as their last `http_` entry |
| Contexts.RequestMethodDefault | src/Context.ts:60 | the method is `request_method`, or `get` when that is missing or empty |
| Contexts.PairsStep | src/Context.ts:31-42 | one more entry adds nothing when undefined, a header pair for an `http_` name, and a server pair otherwise |
| Contexts.Context.Assemble | src/Context.ts:64-68 | `post` holds the request's own form, files and parts |
| Contexts.Context.Partition | src/Context.ts:31-42 | the loop builds the header and server tables from the partition, in order |
| Contexts.Context.Tables | src/Context.ts:29-47 | the tables after the loop and the `content_type` and `content_length` overrides, with the content type always present |
| Contexts.Context.Build | src/Context.ts:59-68 | the request with the URL and the method or `get`, the response over the same headers and session, and `post` aliasing the request's form, files and parts |
| Contexts.Context.Open | src/Context.ts:27-68 | the context's tables, version, cookies, session, request, response and post aliases; it fails exactly when the session does |
| Legacy.LegacyPartition | lib/node-cgi.js:376-387 | the bundle's partition is the typed one on lower-cased names: the same headers, server names lower-cased |
| Legacy.LegacyServerPairs | lib/node-cgi.js:376-387 | at most one `server.set` per entry, always under a lower-case name |
| Legacy.UpperCaseMethod | lib/node-cgi.js:402 | for `REQUEST_METHOD=POST` the bundle's method is `POST` and the typed runtime's is `get` |
| Legacy.LegacyFindsMethod | lib/node-cgi.js:376-402 | for `REQUEST_METHOD=POST` the bundle stores `request_method` and reads the method `POST` |
| Legacy.TypedMissesMethod | src/Context.ts:31-60 | for `REQUEST_METHOD=POST` the typed runtime finds no `request_method` and uses `get` |
| Legacy.LegacyPairsStep | lib/node-cgi.js:376-387 | one more entry adds nothing when undefined, a header pair for an `http_` name, and a lower-cased server pair otherwise |
| Legacy.LegacyText | lib/node-cgi.js:334-347 | `write` gives text for every value, except an array or object that JSON cannot write |
| Legacy.LegacyTextAgrees | lib/node-cgi.js:338-347 | strings are written as they are; numbers as JSON writes them; a BigInt by `String` although JSON would throw |
| Legacy.LegacyResponse.constructor | lib/node-cgi.js:304-310 | a new response has sent nothing |
| Legacy.LegacyResponse.SendHeaders | lib/node-cgi.js:312-330 | the first call writes a block with no header lines, at most the `Set-Cookie` line, and the blank line |
| Legacy.LegacyResponse.Write | lib/node-cgi.js:332-348 | the headers if pending, then the value's text by its type; a throw from JSON leaves only the headers |
| Legacy.LegacyResponse.End | lib/node-cgi.js:350-353 | the headers if pending, then the terminal state |
| Legacy.LegacyPost.constructor | lib/node-cgi.js:246-252 | the default record: `form` is `{}`, no files or parts, no data, not multipart |
| Legacy.LegacyRequest.constructor | lib/node-cgi.js:254-262 | the request keeps url, method and headers, and is multipart exactly when the content type says so |
| Legacy.LegacyRequest.ParsePost | lib/node-cgi.js:276-293 | a multipart body changes nothing; any other body sets `form` to `querystring.parse(data)` |
| Legacy.LegacyRequest.ReadPost | lib/node-cgi.js:264-274 | `data` gains every chunk in order, and the body is then parsed when asked |
| Legacy.RunsNowExamples | lib/node-cgi.js:520 | `POST`, `Post` and `post` wait for the body; `GET`, `get` and `PUT` run at once |
| Legacy.RunsNow | lib/node-cgi.js:520 | the page waits for the body exactly when the method is the four letters `p`, `o`, `s`, `t`, each in either case |
| Legacy.RunsNowCase | lib/node-cgi.js:520 | the decision ignores the case of the method |
| Legacy.LegacyContext.Partition | lib/node-cgi.js:376-387 | the loop builds the headers as the typed runtime does, and the server table under lower-cased names |
| Legacy.LegacyContext.Assemble | lib/node-cgi.js:388-405 | the context holds exactly the tables, version, cookies, session, request and response it was built from |
| Legacy.LegacyContext.Tables | lib/node-cgi.js:374-392 | the bundle's tables after the loop and the `content_type` and `content_length` overrides, with the content type always present |
| Legacy.LegacyContext.Build | lib/node-cgi.js:401-405 | the request with the pathname and the method or `get`, and the response over the same headers and session |
| Legacy.LegacyContext.Open | lib/node-cgi.js:372-405 | the bundle's context: tables, version, cookies, session, request with the URL's pathname, and response; it fails exactly when the session does |
| Legacy.Dispatch | lib/node-cgi.js:520-524 | the body is read and parsed exactly when the lower-cased method is `post`; otherwise the request is left as it is |

## Left out

- Asynchronous reads of standard input. `readPost` is modelled as a list of
  chunks that arrive in order, and `onFinishedRead` is not modelled.
- The split of a multipart body by its boundary. The source discards the
  pieces, so only the boundary is computed.
- `include`, `vm` and `ejs`: dynamic code evaluation and a foreign template
  engine.
- `info` and `drawObject`: an HTML debug dump.
- `src/Exec.ts` and the bundle's `uncaughtException` and `exit` hooks. They
  are process control. The exit hook's `save` and `cleanup` are modelled as
  `Sessions.Session.Save` and `Sessions.Session.Cleanup`.
- md5, `Math.random` and `Date`, which give the id of a new session. They are
  replaced by the parameter `freshId`, so the model cannot say that an id is
  unique. The clock is the parameter `now`.
- The text of JSON files. Records are stored directly. Files that do not
  parse, and number formatting, are left out.
- `toUTCString` of an expiry date. It is an opaque string in the cookie.
- `url.URL` and `url.parse`. The page's `href` (typed) or `pathname`
  (bundle) is a parameter.
- `query`, built from the URL: src/Context.ts:57 and lib/node-cgi.js:399.
- `path.join` normalisation. A session path is the directory, `/` and the id.
- src/Headers.ts is not part of this model. Its table is assumed to be
  case-sensitive, with `set` replacing a name's values in place.
- Concurrent requests writing the same session file.
- `session.cookie` aliasing. The cookie record is a value in the session's
  field, and `sendHeaders` assigns the updated value back.
- The enumeration order of a session's store. It is a Dafny `map`, so the
  order in which `data` lists its keys is not modelled.
- Floating-point numbers. `Values.JsValue` numbers are integers.
- Values.Json, Legacy.LegacyText: a number is an unbounded integer written
  with all its digits. JavaScript numbers are doubles: from 10^21 on
  `String` and `JSON.stringify` switch to exponent form (`1e+21`), and not
  every integer above 2^53 is representable, so for such numbers the model
  writes text the program never writes.
- The ordering JavaScript gives to integer-like object keys.
- Lone surrogates. Dafny's `char` is a Unicode scalar value, so
  `encodeURIComponent`'s throw on a lone surrogate cannot arise.
- CookieCodec.Unquote, Requests.Boundary, Requests.BoundaryFirstLine: JavaScript's `slice` and
  `substring` count UTF-16 code units, while the model counts characters.
  Cutting one unit next to a character above U+FFFF leaves a lone surrogate
  in the program but removes the whole character here. For the cookie
  header `a="😀` the program stores `a` with the lone surrogate `\uD83D`,
  where the model stores `a` with `""`; for the body `ab😀` followed by a
  newline the program's boundary is `ab\uD83D` and the model's is `ab`.
- Text.ToLower: ASCII case mapping only; JavaScript maps every Unicode letter.
- FormCodec.LenientDecode: writes one U+FFFD per rejected escape. The WHATWG
  UTF-8 decoder writes one per maximal ill-formed subsequence, so a truncated
  multi-byte sequence may give more replacement characters here.
- FormCodec.QueryParse: decodes with `FormCodec.LenientDecode`. Node's
  `querystring` decodes a part only when a valid `%XX` or a `+` marks it as
  encoded, and when `decodeURIComponent` throws it falls back to
  `unescapeBuffer`, which truncates each UTF-16 code unit to one byte before
  UTF-8 decoding. So on such text the model differs: `a=é%41%` gives
  `"\uFFFDA%"` in Node but `"éA%"` here, and `a=中%41%` gives `"-A%"` in Node
  but `"中A%"` here. The fallback is not modelled.
- FormCodec.QueryParse: a key with one value holds a one-element list, where
  `querystring.parse` holds the string itself; `maxKeys` (1000) is not
  modelled.
- Sessions.Session.Cleanup: directory entries that are themselves
  directories, and `statSync` failures, are not modelled.
