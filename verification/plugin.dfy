/** The plugin itself: construction with the non-empty configuration check, and
    `ServeHTTP`, which routes on the Content-Type prefix to one codec path and then
    always hands the request to the next handler. */
module Plugin {
  import opened Results
  import opened Mutation
  import opened Http
  import UrlEncoded
  import Multipart

  /** A constructed plugin: the operations it applies and its name. The next
      handler is not a value here; calling it is the `CallNext` effect. */
  datatype Formdata = Formdata(config: Config, name: string)

  /** `New`: refuses a configuration whose three operation sets are all empty and
      otherwise keeps the three exactly as given. */
  function New(config: Config, name: string): (r: Result<Formdata>)
    ensures r.Failure? <==> |config.setTo| == 0 && |config.appendTo| == 0 && |config.deleteKeys| == 0
    ensures r.Success? ==> r.value.config == config && r.value.name == name
  {
    if |config.setTo| == 0 && |config.appendTo| == 0 && |config.deleteKeys| == 0 then
      Failure("at least one of set, append, or delete must be provided")
    else
      Success(Formdata(config, name))
  }

  const UrlEncodedPrefix: string := "application/x-www-form-urlencoded"

  datatype Route = UrlEncodedRoute | MultipartRoute | PassThrough

  /** The `switch` in `ServeHTTP`: first matching prefix wins. */
  function RouteOf(ct: string): Route {
    if UrlEncodedPrefix <= ct then UrlEncodedRoute
    else if Multipart.MultipartPrefix <= ct then MultipartRoute
    else PassThrough
  }

  /** No Content-Type starts with both prefixes, so the order of the two cases in
      the `switch` does not matter: the route is determined by which prefix, if
      any, the header starts with. */
  lemma RouteOfExact(ct: string)
    ensures RouteOf(ct) == UrlEncodedRoute <==> UrlEncodedPrefix <= ct
    ensures RouteOf(ct) == MultipartRoute <==> Multipart.MultipartPrefix <= ct
    ensures RouteOf(ct) == PassThrough <==> !(UrlEncodedPrefix <= ct) && !(Multipart.MultipartPrefix <= ct)
  {
    if Multipart.MultipartPrefix <= ct {
      assert ct[0] == 'm' != UrlEncodedPrefix[0];
    }
  }

  /** Everything `ServeHTTP` gets from outside the plugin for one request: the
      outcomes of the library parsers, the URL encoder, the multipart writer's
      boundary, sink and wire framing, and the map iteration orders. */
  datatype Env = Env(
    urlForm: Result<Values>,
    multipartForm: Multipart.ParsedMultipart,
    encode: Values -> Bytes,
    boundary: string,
    sink: Multipart.Sink,
    frame: (string, seq<Multipart.Part>) -> Bytes,
    setOrder: seq<string>,
    appendOrder: seq<string>,
    valueOrder: seq<string>,
    fileOrder: seq<string>)

  /** The iteration orders are ones Go's `range` could produce. */
  predicate ValidEnv(config: Config, env: Env) {
    && Enumerates(env.setOrder, config.setTo.Keys)
    && Enumerates(env.appendOrder, config.appendTo.Keys)
    && (env.multipartForm.Parsed? ==>
          Multipart.ValidOrders(config, env.multipartForm.form, env.setOrder, env.appendOrder, env.valueOrder, env.fileOrder))
  }

  /** The request the next handler receives. */
  function Forwarded(effects: seq<Effect>): Request
    requires |effects| > 0 && effects[|effects| - 1].CallNext?
  {
    effects[|effects| - 1].req
  }

  function Respond(o: Outcome): seq<Effect> {
    match o.response
    case Some(e) => [RespondError(e), CallNext(o.req)]
    case None => [CallNext(o.req)]
  }

  /** `ServeHTTP`. */
  function ServeHTTP(f: Formdata, req: Request, env: Env): (effects: seq<Effect>)
    requires ValidEnv(f.config, env)
    // the next handler runs exactly once, last, after at most one error response
    ensures 1 <= |effects| <= 2 && effects[|effects| - 1].CallNext?
    ensures forall i :: 0 <= i < |effects| - 1 ==> effects[i].RespondError?
    // any other content type: forwarded untouched
    ensures !(UrlEncodedPrefix <= ContentType(req)) && !(Multipart.MultipartPrefix <= ContentType(req)) ==>
              effects == [CallNext(req)]
    // URL-encoded: headers kept; the body is the encoded mutated form, or untouched after a 400
    ensures UrlEncodedPrefix <= ContentType(req) ==>
              && Forwarded(effects).header == req.header
              && (env.urlForm.Failure? ==>
                    effects == [RespondError(HttpError(StatusBadRequest, env.urlForm.error)), CallNext(req)])
              && (env.urlForm.Success? ==>
                    && |effects| == 1
                    && SelfConsistent(Forwarded(effects))
                    && Forwarded(effects).body == env.encode(Expected(env.urlForm.value, f.config)))
    // multipart: the rebuilt body under the new boundary, or untouched
    ensures !(UrlEncodedPrefix <= ContentType(req)) && Multipart.MultipartPrefix <= ContentType(req) ==>
              && (env.multipartForm.ParseFailed? ==>
                    effects == [RespondError(HttpError(StatusBadRequest, env.multipartForm.error)), CallNext(req)])
              && (env.multipartForm.NoForm? ==> effects == [CallNext(req)])
              && (env.multipartForm.Parsed? ==>
                    var mutated := Multipart.Form(Expected(env.multipartForm.form.value, f.config), env.multipartForm.form.file);
                    && (|effects| == 1 <==> Multipart.Writable(mutated, env.valueOrder, env.fileOrder, env.sink))
                    && (|effects| == 2 ==> Forwarded(effects) == req && effects[0].err.status == StatusInternalServerError)
                    && (|effects| == 1 ==>
                          && SelfConsistent(Forwarded(effects))
                          && ContentType(Forwarded(effects)) == Multipart.MultipartContentType(env.boundary)
                          && Forwarded(effects).header == req.header[ContentTypeKey := [Multipart.MultipartContentType(env.boundary)]]
                          && Forwarded(effects).body ==
                               env.frame(env.boundary, Multipart.TextParts(mutated.value, env.valueOrder)
                                                       + Multipart.FileParts(mutated.file, env.fileOrder))))
  {
    match RouteOf(ContentType(req))
    case UrlEncodedRoute =>
      Respond(UrlEncoded.HandleURLEncoded(f.config, req, env.urlForm, env.encode, env.setOrder, env.appendOrder))
    case MultipartRoute =>
      Respond(Multipart.HandleMultipart(f.config, req, env.multipartForm, env.boundary, env.sink, env.frame,
                                        env.setOrder, env.appendOrder, env.valueOrder, env.fileOrder))
    case PassThrough =>
      [CallNext(req)]
  }
}
