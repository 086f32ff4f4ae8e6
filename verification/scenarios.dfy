/** The behaviours the repository's tests pin down, stated for every map
    iteration order and every library outcome consistent with the test input. */
module Scenarios {
  import opened Results
  import opened Mutation
  import opened Http
  import Multipart
  import opened Plugin

  /** An empty configuration is refused. */
  lemma EmptyConfigRefused(name: string)
    ensures New(Config(map[], map[], []), name).Failure?
  {
  }

  /** The configuration of the URL-encoded test. */
  function UrlTestConfig(): Config {
    Config(map["b" := "y", "c" := "z"], map["b" := "w", "d" := "q"], ["a"])
  }

  /** The form `a=1&a=2&b=x` under the URL-encoded test's configuration. */
  lemma {:induction false} UrlEncodedMutations()
    ensures Expected(map["a" := ["1", "2"], "b" := ["x"]], UrlTestConfig())
            == map["b" := ["y", "w"], "c" := ["z"], "d" := ["q"]]
  {
    var e := Expected(map["a" := ["1", "2"], "b" := ["x"]], UrlTestConfig());
    assert Deleted(UrlTestConfig()) == {"a"} by {
      assert Elements(["a"]) == {"a"};
    }
    assert map["a" := ["1", "2"], "b" := ["x"]].Keys - Deleted(UrlTestConfig()) == {"b"};
    assert e.Keys == {"b", "c", "d"};
    assert e["b"] == ["y", "w"] && e["c"] == ["z"] && e["d"] == ["q"];
  }

  /** The URL-encoded test end to end: the next handler receives, as its only
      effect, a self-consistent request whose body encodes `b=[y,w]`, `c=[z]`,
      `d=[q]` and no `a`. */
  lemma UrlEncodedRequest(req: Request, env: Env)
    requires ContentType(req) == "application/x-www-form-urlencoded"
    requires env.urlForm == Success(map["a" := ["1", "2"], "b" := ["x"]])
    requires ValidEnv(UrlTestConfig(), env)
    ensures var effects := ServeHTTP(Formdata(UrlTestConfig(), "test"), req, env);
            && |effects| == 1
            && SelfConsistent(Forwarded(effects))
            && Forwarded(effects).body == env.encode(map["b" := ["y", "w"], "c" := ["z"], "d" := ["q"]])
  {
    UrlEncodedMutations();
    assert UrlEncodedPrefix <= ContentType(req);
  }

  /** The text fields of the multipart test under its configuration. */
  lemma {:induction false} MultipartMutations()
    ensures Expected(map["a" := ["1", "2"], "b" := ["x"]], Config(map["b" := "y"], map["b" := "w", "d" := "q"], ["a"]))
            == map["b" := ["y", "w"], "d" := ["q"]]
  {
    var config := Config(map["b" := "y"], map["b" := "w", "d" := "q"], ["a"]);
    var e := Expected(map["a" := ["1", "2"], "b" := ["x"]], config);
    assert Deleted(config) == {"a"} by {
      assert Elements(["a"]) == {"a"};
    }
    assert map["a" := ["1", "2"], "b" := ["x"]].Keys - Deleted(config) == {"b"};
    assert e.Keys == {"b", "d"};
    assert e["b"] == ["y", "w"] && e["d"] == ["q"];
  }

  function HelloWorld(): Bytes {
    [104, 101, 108, 108, 111, 32, 119, 111, 114, 108, 100]
  }

  /** The text fields of the file-preservation test: an empty form under `set x=1`. */
  lemma {:induction false} SetOnEmptyForm()
    ensures Expected(map[], Config(map["x" := "1"], map[], [])) == map["x" := ["1"]]
  {
    var e := Expected(map[], Config(map["x" := "1"], map[], []));
    assert e.Keys == {"x"};
    assert e["x"] == ["1"];
  }

  /** The file-preservation test: a form holding only `file=hello.txt`, rebuilt
      after `set x=1`, gives back `x=[1]` and the one file part, its name and
      bytes intact. */
  lemma FilePreserved()
    ensures var fh := Multipart.FileHeader("hello.txt", Multipart.Opened(HelloWorld(), None));
            var ps := Multipart.TextParts(map["x" := ["1"]], ["x"]) + Multipart.FileParts(map["file" := [fh]], ["file"]);
            && Multipart.FieldValues(ps, "x") == ["1"]
            && Multipart.FilesOf(ps, "file") == [Multipart.FilePart("file", "hello.txt", HelloWorld())]
  {
    var fh := Multipart.FileHeader("hello.txt", Multipart.Opened(HelloWorld(), None));
    var values := map["x" := ["1"]];
    var files := map["file" := [fh]];
    assert Elements(["x"]) == {"x"} && Elements(["file"]) == {"file"};
    Multipart.RebuiltPartsFaithful(values, files, ["x"], ["file"], "x");
    Multipart.RebuiltPartsFaithful(values, files, ["x"], ["file"], "file");
    Multipart.FilePartsOfVerbatim("file", [fh]);
  }

  /** The file-preservation test end to end, through `ServeHTTP`: a multipart
      request holding only `file=hello.txt`, under `set x=1`, with a writer whose
      sink accepts every part and closes cleanly. The next handler is the only effect, with no error, and
      receives a self-consistent body that frames exactly the text part `x=1`
      followed by the unchanged file part, under the new boundary. */
  lemma FilePreservedThroughServeHTTP(req: Request, urlForm: Result<Values>, encode: Values -> Bytes,
                                      sink: Multipart.Sink, frame: (string, seq<Multipart.Part>) -> Bytes)
    requires ContentType(req) == Multipart.MultipartContentType("old")
    requires forall p :: sink.partError(p).None?
    requires sink.closeError.None?
    ensures var fh := Multipart.FileHeader("hello.txt", Multipart.Opened(HelloWorld(), None));
            var env := Env(urlForm, Multipart.Parsed(Multipart.Form(map[], map["file" := [fh]])), encode,
                           "B", sink, frame, ["x"], [], ["x"], ["file"]);
            var config := Config(map["x" := "1"], map[], []);
            && ValidEnv(config, env)
            && var effects := ServeHTTP(Formdata(config, "test"), req, env);
               && |effects| == 1
               && SelfConsistent(Forwarded(effects))
               && ContentType(Forwarded(effects)) == Multipart.MultipartContentType("B")
               && Forwarded(effects).body ==
                    frame("B", [Multipart.FieldPart("x", "1"), Multipart.FilePart("file", "hello.txt", HelloWorld())])
  {
    var fh := Multipart.FileHeader("hello.txt", Multipart.Opened(HelloWorld(), None));
    var form := Multipart.Form(map[], map["file" := [fh]]);
    var config := Config(map["x" := "1"], map[], []);
    SetOnEmptyForm();
    assert Elements(["x"]) == {"x"} && Elements(["file"]) == {"file"} && Elements([]) == {};
    assert UrlEncodedPrefix[0] != ContentType(req)[0];
    assert Multipart.MultipartPrefix <= ContentType(req);
    var mutated := Multipart.Form(map["x" := ["1"]], form.file);
    assert Multipart.FieldPartsOf("x", ["1"]) == [Multipart.FieldPart("x", "1")];
    assert Multipart.TextParts(mutated.value, ["x"]) == [Multipart.FieldPart("x", "1")];
    assert Multipart.FilePartsOf("file", [fh]) == [Multipart.FilePart("file", "hello.txt", HelloWorld())];
    assert Multipart.FileParts(mutated.file, ["file"]) == [Multipart.FilePart("file", "hello.txt", HelloWorld())];
    assert Multipart.Writable(mutated, ["x"], ["file"], sink);
    assert Multipart.TextParts(mutated.value, ["x"]) + Multipart.FileParts(mutated.file, ["file"])
        == [Multipart.FieldPart("x", "1"), Multipart.FilePart("file", "hello.txt", HelloWorld())];
    var env := Env(urlForm, Multipart.Parsed(form), encode, "B", sink, frame, ["x"], [], ["x"], ["file"]);
    assert Expected(form.value, config) == mutated.value;
    assert Enumerates(["x"], config.setTo.Keys);
    assert Enumerates([], config.appendTo.Keys);
    assert Enumerates(["x"], Expected(form.value, config).Keys);
    assert Enumerates(["file"], form.file.Keys);
    assert ValidEnv(config, env);
  }
}
