# formdata — a Dafny model of the form-body mutation filter

The formdata plugin is an HTTP middleware. It rewrites request bodies of two content types,
`application/x-www-form-urlencoded` and `multipart/form-data`. Three configured
operations change the form's text fields:

- `delete` removes listed keys;
- `set` overwrites a key with a single value;
- `append` adds one value to a key.

The plugin then re-serialises the body and passes the request to the next handler.
A multipart body keeps each file's field name, file name and content bytes.

This project models that core as pure functions over immutable values, in these modules:

- `Mutation` (`mutation.dfy`): the shared mutation pass `applyOpsToValues` on a multi-map
  `map<string, seq<string>>`. Each of the three loops is a recursive function. Go visits the
  `set` and `append` maps in a random order, so the model takes that order as a parameter. It
  proves that the composed pass equals `Expected`, a closed form stated key by key that uses no
  iteration order. The result therefore does not depend on Go's map order.
- `Http` (`http.dfy`): the part of the request the plugin touches. That is the headers, the
  body bytes, `ContentLength` and the `GetBody` replay snapshot. It also holds the two
  observable effects of `ServeHTTP`: an `http.Error` response and the call to the next handler.
- `UrlEncoded` (`urlencoded.dfy`): `handleURLEncoded`. It parses, mutates, encodes and swaps
  the body.
- `Multipart` (`multipart.dfy`): `handleMultipart`, `writeValues` and `writeFiles`. The
  writer is modelled as the list of parts it is asked to emit. Every step can fail, and the
  first failure stops the rebuild. Reference part lists (`TextParts`, `FileParts`) say what
  the writer must emit. Lemmas read the rebuilt list back field by field.
- `Plugin` (`plugin.dfy`): `New` with its non-empty configuration check, the content-type
  switch, and `ServeHTTP` as a sequence of effects.
- `Scenarios` (`scenarios.dfy`): the repository's tests, stated as lemmas. Each holds for
  every iteration order and every library outcome that fits the test input.

External library code becomes parameters, gathered in `Plugin.Env`:

- the outcome of `req.ParseForm` (its `PostForm`);
- the outcome of `req.ParseMultipartForm`: an error, a nil form, or the form;
- `url.Values.Encode`;
- the multipart writer's random boundary, its byte sink and its wire framing. The plugin's sink
  is a `bytes.Buffer`, whose writes never fail. The model lets the sink fail on any part or on
  `Close` anyway. This is a deliberate over-approximation: in the program, only `Open` and the read
  side of the copy can produce a 500;
- the iteration order of each Go map the code ranges over.

Where the description of the system and the code differ, the model follows the code:

- `delete` is a list, not a set. It may repeat a key, and `DeleteKeysIdempotent` shows that
  repeats and order do not matter.
- A multipart parse that succeeds but leaves `req.MultipartForm` nil is a silent no-op: no
  error response and no rewrite.
- After a parse or writer error the downstream handler is still called, with the request
  fields as they were. `ServeHTTP` states this as it is written.

## Model

| member | source | states |
|---|---|---|
| Mutation.DeleteKeys | formdata.go:132-134 | Deleting each listed key leaves exactly the keys not in the list, each with its list unchanged. |
| Mutation.SetFields | formdata.go:135-137 | After the set loop, every visited key holds exactly its one configured value. Every other key keeps its list. |
| Mutation.AppendFields | formdata.go:138-140 | After the append loop, every visited key holds its old list (empty if absent) followed by its one appended value. Every other key is unchanged. |
| Mutation.ApplyOpsToValues | formdata.go:130-141 | For any valid iteration order over `set` and `append`, the pass yields the order-free closed form `Expected`. |
| Mutation.ApplyOpsKeyByKey | formdata.go:131-141 | A key that is only deleted is absent. A set key holds `[set]`, or `[set, append]` when it is also appended. An appended, unset key holds its prior list (empty if deleted or absent) plus the appended value, so prior values stay as a prefix. An untouched key keeps its list. |
| Mutation.PassMatchesExpected | formdata.go:131-141 | The delete, set and append loops, composed in that order, give the closed form for any valid map iteration order. |
| Mutation.ApplyOpsOrderIndependent | formdata.go:77-85 | Any two iteration orders over `set` and `append` give the same mutated form. |
| Mutation.DeleteKeysIdempotent | formdata.go:77-79 | Deleting the same keys twice, or in another order or with repeats, gives the same map. |
| Http.ReplaceBody | formdata.go:87-90 | After the body swap, body, `ContentLength` and the replay snapshot describe the same bytes. Headers are kept. |
| UrlEncoded.HandleURLEncoded | formdata.go:69-91 | A parse error gives a 400 with the parser's message and the request unchanged. Otherwise there is no error, the headers are kept, and the body, length and replay all equal the encoding of the mutated form. |
| Multipart.WriteFieldValues | formdata.go:146-150 | Writing one field's values succeeds exactly when the sink accepts each of its parts. It then appends one text part per value, in order. |
| Multipart.WriteValues | formdata.go:144-153 | `writeValues` succeeds exactly when the sink accepts every text part. It then appends exactly the reference text parts for the visited fields. |
| Multipart.WriteFile | formdata.go:158-172 | One file succeeds exactly when it opens, the sink takes its part and the copy reads it fully. It then appends one part with the field name, file name and content. |
| Multipart.WriteFileHeaders | formdata.go:158-173 | One field's files succeed exactly when all are readable and all parts are accepted. They then append one file part per file, in order. |
| Multipart.WriteFiles | formdata.go:156-176 | `writeFiles` succeeds exactly when every file of every visited field is readable and every part accepted. It then appends exactly the reference file parts. |
| Multipart.Rebuild | formdata.go:107-121 | The rebuild succeeds exactly when all text and file parts are written and `Close` succeeds. The bytes are then the framing of the text parts followed by the file parts, under the writer's boundary. |
| Multipart.HandleMultipart | formdata.go:94-128 | A parse error gives a 400 and a nil form a silent no-op, both with the request unchanged. After parsing, a write or close error gives a 500 with the request unchanged. Otherwise body, length and replay agree on the rebuilt bytes. Content-Type holds exactly one value, `multipart/form-data; boundary=` plus the new boundary, and other headers are kept. |
| Multipart.TextPartsFaithful | formdata.go:144-153 | Reading the text parts back by name gives each visited field's values exactly, one part per value, in order. They hold no file parts. |
| Multipart.FilePartsFaithful | formdata.go:156-176 | Reading the file parts back by field gives each visited field's files exactly, one part per file, in upload order. They hold no text values. |
| Multipart.FilePartsOfVerbatim | formdata.go:163-171 | The i-th file part of a field carries the field name, the i-th file's name and the bytes its copy delivers. |
| Multipart.TextBeforeFiles | formdata.go:110-117 | In the rebuilt part list, every text part precedes every file part. |
| Multipart.RebuiltPartsFaithful | formdata.go:104-117 | For any iteration order, the rebuilt part list gives back each mutated text field's values and each file field's files exactly. |
| Plugin.New | formdata.go:43-55 | Construction fails exactly when `set`, `append` and `delete` are all empty. Otherwise the plugin holds the three unchanged, and its name. |
| Plugin.RouteOfExact | formdata.go:58-64 | The URL-encoded path runs exactly for the URL-encoded prefix and the multipart path exactly for the multipart prefix. No header has both prefixes, so the order of the switch cases does not matter. |
| Plugin.ServeHTTP | formdata.go:57-66 | The next handler runs exactly once, last, after at most one error response. Other content types are forwarded untouched. The URL-encoded route keeps headers and forwards the encoded mutated form, or the original request after a 400. The multipart route forwards the rebuilt body with the original headers, except that Content-Type is replaced by the single new-boundary value. Otherwise it forwards the original request after a 400, a nil form or a 500. |
| Scenarios.EmptyConfigRefused | formdata_test.go:136-143 | An empty configuration is refused. |
| Scenarios.UrlEncodedMutations | formdata_test.go:145-177 | `a=1&a=2&b=x` under delete `a`, set `b=y,c=z`, append `b=w,d=q` becomes `b=[y,w]`, `c=[z]`, `d=[q]`, with no `a`. |
| Scenarios.UrlEncodedRequest | formdata_test.go:157-182 | End to end, that request reaches the next handler with no error and a self-consistent body encoding exactly that form, for every iteration order. |
| Scenarios.MultipartMutations | formdata_test.go:185-234 | The multipart test's fields `a=1,a=2,b=x` become `b=[y,w]`, `d=[q]`, with no `a`. |
| Scenarios.SetOnEmptyForm | formdata_test.go:238-244 | A form with no text fields under `set x=1` becomes `x=[1]`. |
| Scenarios.FilePreservedThroughServeHTTP | formdata_test.go:238-272 | Through `ServeHTTP`, with a sink that takes every part, that request reaches the next handler with no error. Its self-consistent body frames exactly `x=1` followed by the `file`/`hello.txt` part with bytes `hello world`, under the new boundary. |
| Scenarios.FilePreserved | formdata_test.go:238-268 | The rebuilt parts of the file-preservation test give back `x=[1]` and exactly one file part `file`/`hello.txt` with bytes `hello world`. |

## Left out

- The `net/http` plumbing. The response writer is represented only by the `RespondError` effect (status and message). The next handler is represented only by the `CallNext` effect.
- `CreateConfig`, the JSON/YAML tags and Traefik plugin registration: configuration defaults, not behaviour.
- Form parsing (`req.ParseForm`, `req.ParseMultipartForm` with its 32 MiB memory threshold and temp-file spill). This is library code, so its outcome is a parameter. The threshold shows only as a possible parse error.
- Percent-encoding and the key sort inside `url.Values.Encode` are library code, so the encoder is a function parameter. The decode-after-encode round trip is therefore not stated.
- Multipart wire framing and random boundary generation (`mime/multipart`). The framing is a function parameter and the boundary a string parameter. That the boundary does not occur in the content, and that it differs from the old one, is not modelled.
- The MIME headers of the uploaded parts. `CreateFormFile` passes on only the field name and file name, and `WriteField` only the name. The model's file header therefore has no header field, and a part's own `Content-Type` is not carried into the rebuilt body.
- Closing file handles after the copy. This is resource discipline, with no effect on the bytes produced.
- The bytes the library parsers read from the original body stream. "Unchanged" means the filter did not replace the body, length, replay or headers. The stream itself has been consumed by the parser.
- The parsed-form caches Go keeps on the request (`PostForm`, `Form`, `MultipartForm`). The in-place mutation also changes `PostForm` and `MultipartForm.Value`. The model tracks only the body, length, replay and headers.
- `ContentLength` is `int64` in Go. Lengths here are unbounded integers, since no body that fits in memory reaches the `int64` limit.
- Header keys are assumed to be in canonical form, as `Header.Get`/`Header.Set` produce them.
- Concurrency across requests: the configuration is read-only.
- Multipart.HandleMultipart: on a write or close error it states status 500 and an unchanged request, but not which step's error message is reported.
- Multipart.Rebuild: states when the rebuild fails, but not which error message it carries. The same holds for `WriteValues`, `WriteFiles` and their inner loops.
