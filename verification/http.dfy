/** The slice of Go's `net/http` request the plugin reads and writes: headers, the
    body, `ContentLength` and the `GetBody` replay function, plus the observable
    effects of a handler (an error response, the call to the next handler). */
module Http {
  import opened Results

  newtype byte = b: int | 0 <= b < 256

  type Bytes = seq<byte>

  /** Header map with canonical keys, each holding its list of values. */
  type Header = map<string, seq<string>>

  const ContentTypeKey: string := "Content-Type"

  const StatusBadRequest: int := 400
  const StatusInternalServerError: int := 500

  /** `body` is what reading `req.Body` yields. `getBody` is `req.GetBody`: `None`
      when nil, `Some(snapshot)` when every call returns a fresh reader that yields
      `snapshot` from its first byte. */
  datatype Request = Request(header: Header, body: Bytes, contentLength: int, getBody: Option<Bytes>)

  /** An `http.Error` written to the response writer. */
  datatype HttpError = HttpError(status: int, message: string)

  /** What a codec path leaves behind: the request to forward and the error it
      reported, if any. */
  datatype Outcome = Outcome(req: Request, response: Option<HttpError>)

  /** What `ServeHTTP` does, in order, as seen from outside. */
  datatype Effect = RespondError(err: HttpError) | CallNext(req: Request)

  /** `Header.Get`: the first value under `key`, or "" when there is none. */
  function HeaderGet(h: Header, key: string): string {
    if key in h && |h[key]| > 0 then h[key][0] else ""
  }

  /** `Header.Set`: `key` now holds exactly `value`; every other key is untouched. */
  function HeaderSet(h: Header, key: string, value: string): (r: Header)
    ensures key in r && r[key] == [value] && HeaderGet(r, key) == value
    ensures r.Keys == h.Keys + {key}
    ensures forall k :: k in h && k != key ==> r[k] == h[k]
  {
    h[key := [value]]
  }

  function ContentType(req: Request): string {
    HeaderGet(req.header, ContentTypeKey)
  }

  /** The promise made to the downstream handler after a rewrite: the body, its
      declared length and the replay function all describe the same bytes. */
  predicate SelfConsistent(req: Request) {
    req.contentLength == |req.body| && req.getBody == Some(req.body)
  }

  /** The body swap both codecs end with: `req.Body` reads `data`, `ContentLength`
      is its length and `GetBody` replays a snapshot of `data`. */
  function ReplaceBody(req: Request, data: Bytes): (r: Request)
    ensures SelfConsistent(r) && r.body == data
    ensures r.header == req.header
  {
    req.(body := data, contentLength := |data|, getBody := Some(data))
  }
}
