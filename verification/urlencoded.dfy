/** The `application/x-www-form-urlencoded` path: parse, mutate, re-encode, swap
    the body. Parsing (`req.ParseForm`) and encoding (`url.Values.Encode`, with its
    percent-encoding and key sort) are library code: the parse outcome and the
    encoder are parameters. */
module UrlEncoded {
  import opened Results
  import opened Mutation
  import opened Http

  /** `handleURLEncoded`. `parsed` is the outcome of `req.ParseForm` (its
      `PostForm` on success); `setOrder`/`appendOrder` are the map iteration orders. */
  function HandleURLEncoded(config: Config, req: Request, parsed: Result<Values>, encode: Values -> Bytes,
                            setOrder: seq<string>, appendOrder: seq<string>): (r: Outcome)
    requires Enumerates(setOrder, config.setTo.Keys)
    requires Enumerates(appendOrder, config.appendTo.Keys)
    ensures parsed.Failure? ==> r.req == req && r.response == Some(HttpError(StatusBadRequest, parsed.error))
    ensures parsed.Success? ==>
              && r.response.None?
              && SelfConsistent(r.req)
              && r.req.body == encode(Expected(parsed.value, config))
              && r.req.header == req.header
  {
    match parsed
    case Failure(e) => Outcome(req, Some(HttpError(StatusBadRequest, e)))
    case Success(form) =>
      var encoded := encode(ApplyOpsToValues(form, config, setOrder, appendOrder));
      Outcome(ReplaceBody(req, encoded), None)
  }
}
