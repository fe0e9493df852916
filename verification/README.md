# Request parsing and routing of a minimal HTTP/1.1 server, in Dafny

This project models three sequential, I/O-free pieces of the request pipeline
of a small Java HTTP server (a Tomcat-like `coyote`/`catalina` stack) and
proves what they do:

- **`HttpURL.from`** (module `HttpUrl`, `http_url.dfy`): a request-target is
  split into the full URL, the path before the first `?`, and the query
  segment after it. The query-pair parser is not part of the model, so the
  query parameters are `Empty` or `FromQuery(segment)`, where `segment` is the
  exact text that parser would receive.
- **`HttpRequest`** (module `Request`, `http_request.dfy`): the accessors,
  the replaceable body (`setBody`), form-body decoding (`parseFormBody`,
  `getFormValue`), and the session-cookie scan (`getSessionId`).
- **`RequestMapping`** (module `Routing`, `request_mapping.dfy`): the
  registry built by `initControllers`, and `getController`. `getController`
  tries a static resource first, then the path-keyed registry, and falls back
  to the not-found controller.

All three rest on `java.lang.String.split`. Module `JavaString`
(`java_string.dfy`) models it for a one-character separator:

- **`Split`** (the default limit 0): when the separator does not occur, the
  result is `[s]`, so `""` gives `[""]`. Otherwise `s` is cut at every
  separator and trailing empty strings are dropped. When every piece is
  empty, the result is the empty array.
- **`SplitLimit2`** (limit 2): cuts at the first separator only.

Indexing past the end of a split result, dereferencing a null body, and a
duplicate key in `Collectors.toMap` each raise a Java exception. They are
modelled as `Failure` values of `Wrappers.Result`, carrying
`IndexOutOfBounds`, `NullPointer` or `DuplicateKey(key)`. A null body is
`None`.

Behaviour worth knowing, all proved:

- `parsePath` throws on a target made only of `?` (`"?"`, `"??"`), because
  the split is then empty.
- `isQueryPartExist` returns true when there is *no* usable query part.
- `parseFormBody` throws on an empty body and on an empty interior pair
  (`"a=1&&b=2"`). It also throws on a pair without `=` and on a pair with
  nothing but `=` after its first `=`.
- A trailing `&` in a form body is harmless, and a body of just `"&"`
  decodes to the empty map.
- A pair's value is the text between its first and second `=`, so
  `"a==1"` gives the value `""`.
- In a form body, the last pair with a given key wins.
- `getSessionId` returns `""` when there is no `Cookie` header or no cookie
  mentions `JSESSIONID`. It throws when the first such cookie has no value.

The model follows the Java code as written:

- Duplicate controller paths make registry construction throw. They do not
  overwrite.
- A missing session id is the empty string, not an absent value.
- Malformed form pairs make decoding throw. They are not skipped.

## Model

| member | source | states |
|---|---|---|
| `JavaString.Split` | tomcat/src/main/java/org/apache/coyote/http11/request/HttpURL.java:18 | without the separator the split is `[s]`; otherwise it is a prefix of the full list of pieces, and no string in it contains the separator |
| `JavaString.SplitLimit2` | tomcat/src/main/java/org/apache/coyote/http11/request/HttpURL.java:22 | without the separator the result is `[s]`; otherwise it is exactly two strings with `s == before + [sep] + after` and no separator in `before` |
| `JavaString.SplitEmptyIff` | tomcat/src/main/java/org/apache/coyote/http11/request/HttpURL.java:18 | split returns the empty array if and only if the string is non-empty and made only of the separator |
| `JavaString.SplitHasSecondIff` | tomcat/src/main/java/org/apache/coyote/http11/request/HttpRequest.java:29-30 | split has an element at index 1 if and only if some character other than the separator follows the first separator |
| `JavaString.SplitFields` | tomcat/src/main/java/org/apache/coyote/http11/request/HttpRequest.java:29-30 | element 0 of a split is the text before the first separator; element 1 is the text between the first and second separator |
| `JavaString.SplitReconstructs` | tomcat/src/main/java/org/apache/coyote/http11/request/HttpURL.java:18 | re-joining the split gives a prefix of the input, and everything after that prefix is separators: split only drops trailing separators |
| `JavaString.SplitTrailingSeparator` | tomcat/src/main/java/org/apache/coyote/http11/request/HttpRequest.java:27 | for a non-empty string, one extra trailing separator does not change the split |
| `JavaString.JoinCons` | tomcat/src/main/java/org/apache/coyote/http11/request/HttpURL.java:18 | joining a piece in front of a non-empty list puts one separator between them |
| `JavaString.JoinPieces` | tomcat/src/main/java/org/apache/coyote/http11/request/HttpURL.java:18 | cutting at every separator and re-joining gives the original string |
| `JavaString.PiecesJoin` | tomcat/src/main/java/org/apache/coyote/http11/request/HttpURL.java:18 | joining separator-free pieces and cutting again gives the same pieces |
| `JavaString.SplitOfJoin` | tomcat/src/main/java/org/apache/coyote/http11/request/HttpRequest.java:27 | split of a join of at least two separator-free pieces, the last one non-empty, gives those pieces back |
| `HttpUrl.ParsePath` | tomcat/src/main/java/org/apache/coyote/http11/request/HttpURL.java:17-19 | fails with index-out-of-bounds if and only if the target is non-empty and made only of `?`; otherwise the path has no `?`, is a prefix of the target, and ends at the first `?` or at the end |
| `HttpUrl.PathIsFirstField` | tomcat/src/main/java/org/apache/coyote/http11/request/HttpURL.java:17-19 | when the path is defined, it is exactly the text before the first `?` (the whole target when there is none) |
| `HttpUrl.ParseQueryParameters` | tomcat/src/main/java/org/apache/coyote/http11/request/HttpURL.java:21-31 | empty when there is no `?`; with a `?`, empty if and only if nothing follows the first `?`, and otherwise the parser receives exactly the text after the first `?` |
| `HttpUrl.QueryPartExistIff` | tomcat/src/main/java/org/apache/coyote/http11/request/HttpURL.java:29-31 | `isQueryPartExist` on the limit-2 split holds if and only if the target has no `?` or nothing follows its first `?` |
| `HttpUrl.From` | tomcat/src/main/java/org/apache/coyote/http11/request/HttpURL.java:13-15 | fails if and only if the path parse fails; on success `fullUrl` is stored unchanged and the path has no `?`; without `?` the path is the whole target and the query is empty |
| `HttpUrl.FromReconstructs` | tomcat/src/main/java/org/apache/coyote/http11/request/HttpURL.java:17-26 | with a `?` present, `path + "?" + querySegment == fullUrl` |
| `HttpUrl.FromKeepsLaterDelimiters` | tomcat/src/main/java/org/apache/coyote/http11/request/HttpURL.java:21-26 | `"/a?b?c"` gives path `"/a"` and query segment `"b?c"`: later `?` stay in the query |
| `HttpUrl.FromSplitsAtFirstDelimiter` | tomcat/src/main/java/org/apache/coyote/http11/request/HttpURL.java:13-31 | for a target `path + "?" + query` with no `?` in `path` (and not only `?`), the path is `path` and the query is empty if `query` is empty and otherwise exactly `query`, later `?` included |
| `HttpUrl.FromBoundaryCases` | tomcat/src/main/java/org/apache/coyote/http11/request/HttpURL.java:13-19 | `""` gives path `""` and no query; `"??"` fails with index-out-of-bounds |
| `HttpUrl.FromQueryOnly` | tomcat/src/main/java/org/apache/coyote/http11/request/HttpURL.java:17-26 | `"?a=1"` gives path `""` and query `"a=1"` |
| `HttpUrl.FromTrailingDelimiter` | tomcat/src/main/java/org/apache/coyote/http11/request/HttpURL.java:21-31 | `"/a?"` gives path `"/a"` and no query |
| `Request.GetBody` | tomcat/src/main/java/org/apache/coyote/http11/request/HttpRequest.java:59-61 | fails with a null-pointer error if and only if the body is null |
| `Request.SetBody` | tomcat/src/main/java/org/apache/coyote/http11/request/HttpRequest.java:43-65 | after `setBody(s)`, `getBody()` returns `s`; `getMethod`, `getPath`, `getVersion` and `getHeaders` return what they returned before |
| `Request.PairDecodes` | tomcat/src/main/java/org/apache/coyote/http11/request/HttpRequest.java:29-30 | `param.split("=")[1]` exists if and only if the pair is well formed, and then elements 0 and 1 are the pair's key and value |
| `Request.PutPairs` | tomcat/src/main/java/org/apache/coyote/http11/request/HttpRequest.java:27-31 | the decoding loop fails only with index-out-of-bounds and never removes a key already in the map |
| `Request.FormPairs` | tomcat/src/main/java/org/apache/coyote/http11/request/HttpRequest.java:27 | `body.split("&")`: no pair contains `&`; re-joined, the pairs give the body up to a tail of `&`; there are no pairs if and only if the body is non-empty and only `&` |
| `Request.ParseFormBody` | tomcat/src/main/java/org/apache/coyote/http11/request/HttpRequest.java:22-33 | a null body gives the empty map; any failure is index-out-of-bounds |
| `Request.PutPairsFailsIff` | tomcat/src/main/java/org/apache/coyote/http11/request/HttpRequest.java:27-31 | the decoding loop fails if and only if some pair is not well formed |
| `Request.WellFormedWhenDecoded` | tomcat/src/main/java/org/apache/coyote/http11/request/HttpRequest.java:28-31 | after a successful decoding, every pair was well formed |
| `Request.PutPairsStep` | tomcat/src/main/java/org/apache/coyote/http11/request/HttpRequest.java:28-31 | one loop iteration puts the first pair's key and value, then decodes the rest |
| `Request.PutPairsKeys` | tomcat/src/main/java/org/apache/coyote/http11/request/HttpRequest.java:28-31 | after decoding, a key is in the map if and only if it was there before or some pair carries it |
| `Request.PutPairsUntouched` | tomcat/src/main/java/org/apache/coyote/http11/request/HttpRequest.java:28-31 | a key that no pair carries keeps its earlier value |
| `Request.PutPairsLastWins` | tomcat/src/main/java/org/apache/coyote/http11/request/HttpRequest.java:28-31 | the key of the last pair carrying it maps to that pair's value: later pairs overwrite earlier ones |
| `Request.FormBodyDecodes` | tomcat/src/main/java/org/apache/coyote/http11/request/HttpRequest.java:22-33 | for a present body, decoding fails if and only if some `&`-pair is malformed; on success the keys are exactly the pairs' keys |
| `Request.GetFormValue` | tomcat/src/main/java/org/apache/coyote/http11/request/HttpRequest.java:35-41 | fails if and only if decoding fails; `None` if and only if the key is absent from the decoded map; otherwise the map's value |
| `Request.FormValueAbsentIff` | tomcat/src/main/java/org/apache/coyote/http11/request/HttpRequest.java:35-41 | on a decodable body, `getFormValue(k)` is empty if and only if no pair has key `k` |
| `Request.FormValueIsLastPair` | tomcat/src/main/java/org/apache/coyote/http11/request/HttpRequest.java:35-41 | on a decodable body, `getFormValue` of a pair's key is the value of the last pair with that key |
| `Request.TrailingSeparatorIgnored` | tomcat/src/main/java/org/apache/coyote/http11/request/HttpRequest.java:27 | for a non-empty body, a trailing `&` does not change the decoding |
| `Request.FormBodyTwoPairs` | tomcat/src/main/java/org/apache/coyote/http11/request/HttpRequest.java:22-33 | `"a=1&b=2"` decodes to `{a: "1", b: "2"}` |
| `Request.SinglePairBody` | tomcat/src/main/java/org/apache/coyote/http11/request/HttpRequest.java:27-31 | a body without `&` decodes if and only if it is a well-formed pair |
| `Request.MalformedSinglePairs` | tomcat/src/main/java/org/apache/coyote/http11/request/HttpRequest.java:22-31 | the bodies `""`, `"a"` and `"a="` each fail to decode with index-out-of-bounds |
| `Request.EmptyInteriorPairFails` | tomcat/src/main/java/org/apache/coyote/http11/request/HttpRequest.java:27-30 | `"a=1&&b=2"` fails with index-out-of-bounds |
| `Request.FormBodyOnlySeparators` | tomcat/src/main/java/org/apache/coyote/http11/request/HttpRequest.java:27-31 | `"&"` splits into nothing and decodes to the empty map |
| `Request.ScanCookies` | tomcat/src/main/java/org/apache/coyote/http11/request/HttpRequest.java:80-86 | with no cookie mentioning `JSESSIONID` the result is `""`; a result never contains `=`, and contains no `;` when no cookie does; any failure is index-out-of-bounds |
| `Request.CookieValue` | tomcat/src/main/java/org/apache/coyote/http11/request/HttpRequest.java:78-79 | `getOrDefault("Cookie", "")`: the header value when present, otherwise the empty string |
| `Request.GetSessionId` | tomcat/src/main/java/org/apache/coyote/http11/request/HttpRequest.java:77-87 | the result is `""` when there is no `Cookie` header or none of its `;`-segments mentions `JSESSIONID`; a successful result contains neither `;` nor `=` |
| `Request.FirstSessionCookieDecides` | tomcat/src/main/java/org/apache/coyote/http11/request/HttpRequest.java:81-85 | the first cookie containing `JSESSIONID` decides: its value between the first and second `=`, or a failure when it has none |
| `Request.SessionIdIsFirstMatch` | tomcat/src/main/java/org/apache/coyote/http11/request/HttpRequest.java:77-87 | the first `;`-segment of the `Cookie` header that contains `JSESSIONID` supplies the text between its first and second `=`; when it has none, getSessionId fails with index-out-of-bounds |
| `Request.SessionIdReadsCookieOnly` | tomcat/src/main/java/org/apache/coyote/http11/request/HttpRequest.java:78-80 | two requests whose `Cookie` values are equal get the same session id |
| `Request.SessionIdFirstWins` | tomcat/src/main/java/org/apache/coyote/http11/request/HttpRequest.java:81-84 | `Cookie: JSESSIONID=abc;JSESSIONID=def` gives `"abc"` |
| `Request.SessionIdWithoutValueFails` | tomcat/src/main/java/org/apache/coyote/http11/request/HttpRequest.java:80-84 | a `Cookie` value that mentions `JSESSIONID` but has no `;` and no `=` makes getSessionId fail with index-out-of-bounds |
| `Request.BareSessionCookieFails` | tomcat/src/main/java/org/apache/coyote/http11/request/HttpRequest.java:77-84 | `Cookie: JSESSIONID` (the name with no value) makes getSessionId fail with index-out-of-bounds |
| `Routing.Collect` | tomcat/src/main/java/com/techcourse/controller/RequestMapping.java:52 | collecting never drops an existing key, and can fail only with a duplicate-key error |
| `Routing.InitControllers` | tomcat/src/main/java/com/techcourse/controller/RequestMapping.java:43-52 | a failure is a duplicate-key error naming a path that two controllers both report; a success keys every entry by its controller's own matched path |
| `Routing.NewRequestMapping` | tomcat/src/main/java/com/techcourse/controller/RequestMapping.java:37-41 | construction fails if and only if `initControllers` fails; otherwise the registry is its map |
| `Routing.GetController` | tomcat/src/main/java/com/techcourse/controller/RequestMapping.java:55-68 | static controller if and only if the path is a static resource; the not-found controller if and only if it is neither static nor registered; otherwise the handler registered under the path |
| `Routing.PathTakenStep` | tomcat/src/main/java/com/techcourse/controller/RequestMapping.java:52 | after the first handler is added, a clash among the rest is the same as a clash in the whole list |
| `Routing.CollectFailsIff` | tomcat/src/main/java/com/techcourse/controller/RequestMapping.java:52 | collecting fails if and only if some handler's path is already in the map, or two handlers share a path |
| `Routing.CollectReportsClash` | tomcat/src/main/java/com/techcourse/controller/RequestMapping.java:52 | the key a failed collection reports is some handler's path that is already in the map or claimed by an earlier handler |
| `Routing.InitFailsIffDuplicate` | tomcat/src/main/java/com/techcourse/controller/RequestMapping.java:43-52 | building the registry fails if and only if two controllers report the same matched path |
| `Routing.CollectRegistersAll` | tomcat/src/main/java/com/techcourse/controller/RequestMapping.java:52 | a successful collection stores each handler under its own matched path, adds no other keys, and keeps earlier entries |
| `Routing.InitRegistersEachHandler` | tomcat/src/main/java/com/techcourse/controller/RequestMapping.java:43-52 | with distinct paths, the registry keys are exactly the matched paths and `controllers[c.matchedPath()] == c` for every controller |
| `Routing.RoutesToClaimingHandler` | tomcat/src/main/java/com/techcourse/controller/RequestMapping.java:55-68 | for a registry built from distinct handlers: static wins; otherwise the handler claiming the path; otherwise the not-found controller |
| `Routing.MethodDoesNotRoute` | tomcat/src/main/java/com/techcourse/controller/RequestMapping.java:55-57 | requests with the same path get the same controller whatever their HTTP method |
| `Routing.DuplicatePathExample` | tomcat/src/main/java/com/techcourse/controller/RequestMapping.java:52 | two controllers claiming `/login` make construction fail with `DuplicateKey("/login")` |

## Left out

- The singleton holder and the reflective instantiation of controller classes (RequestMapping.java:19-23, 29-51). The registry is built from an explicit list of already constructed handlers, so the instantiation failure (`IllegalArgumentException`) is not modelled.
- `StaticResourceReader.isExist` reads the file system. It is the parameter `isExist: string -> bool` of `GetController`.
- Logging in `getController`, and `HttpRequest.toString`.
- `QueryParamNameValuePairs` and `NameValuePairs` are not part of this model. The query result is the segment handed to them. Whether that parser itself fails, or which of two equal names wins, is not modelled.
- `HttpHeader`, `RequestLine`, `RequestBody` and the `HttpMethod` enum are not part of this model. They are plain records, and the method is an opaque name.
- `getMethod`, `getPath`, `getVersion` and `getHeaders` are field projections with no contract of their own. What they promise is stated through `Request.SetBody` and `Routing.MethodDoesNotRoute`.
- Java `null` strings are not modelled. This covers `setBody(null)`, a header map holding `null` for `Cookie`, and null keys in `Collectors.toMap`. Only a null body field is modelled.
- The `Controller` interface and its `service` dispatch, response rendering, `Content-Length`, the 405 default and the processor loop. Their sources (`AbstractController`, `HttpResponse`, `Http11Processor`, the dispatcher) are not part of this model, so the end-to-end scenarios of `Http11ProcessorTest.java` are not modelled either.
