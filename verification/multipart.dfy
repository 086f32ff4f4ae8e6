/** The `multipart/form-data` path: parse, mutate the text fields, rebuild a fresh
    multipart body (text fields first, then one part per uploaded file keeping its
    field name, file name and content bytes), swap the body and the Content-Type
    header.

    The library pieces are parameters: the outcome of `req.ParseMultipartForm`, the
    random boundary of `multipart.NewWriter`, the wire framing of a part list, and
    the errors the writer's byte sink may report (an over-approximation; see
    `Sink`). The model works on the abstract part
    list the writer is asked to emit. */
module Multipart {
  import opened Results
  import opened Mutation
  import opened Http

  /** What opening a file header (`fh.Open`) and copying it out (`io.Copy`) yields:
      an open error, or the file's bytes with the read error the copy hit, if any. */
  datatype FileSource = OpenFails(error: string) | Opened(content: Bytes, readError: Option<string>)

  /** `multipart.FileHeader`: the client's file name and access to the content. */
  datatype FileHeader = FileHeader(fileName: string, source: FileSource)

  /** `multipart.Form.File`: field name to its uploaded files, in order. */
  type Files = map<string, seq<FileHeader>>

  /** `multipart.Form`: text fields and file fields. */
  datatype Form = Form(value: Values, file: Files)

  /** Outcome of `req.ParseMultipartForm`: an error, success with a nil
      `req.MultipartForm`, or the parsed form. */
  datatype ParsedMultipart = ParseFailed(error: string) | NoForm | Parsed(form: Form)

  /** One part the writer emits: a text field (`WriteField`) or a file
      (`CreateFormFile` followed by the content copy). */
  datatype Part = FieldPart(name: string, value: string) | FilePart(field: string, fileName: string, content: Bytes)

  /** The byte sink under the writer: the error it reports when a part is written
      to it (None: accepted), and the error reported by `Close`. The plugin writes
      into a `bytes.Buffer`, whose writes never fail, so there only `Open` and the
      read side of the copy can fail; letting the sink fail as well is a deliberate
      over-approximation that keeps every `err != nil` branch reachable. */
  datatype Sink = Sink(partError: Part -> Option<string>, closeError: Option<string>)

  /** `multipart.Writer`: its boundary and the parts written so far. */
  datatype Writer = Writer(boundary: string, parts: seq<Part>)

  const MultipartPrefix: string := "multipart/form-data"

  /** The Content-Type the rebuilt request carries. */
  function MultipartContentType(boundary: string): string {
    MultipartPrefix + "; boundary=" + boundary
  }

  // ---------------------------------------------------------------------------
  // Reference part lists: what the writer should be asked to emit

  /** One text part per value of field `name`, in value order. */
  function FieldPartsOf(name: string, vals: seq<string>): (ps: seq<Part>)
    ensures |ps| == |vals|
    ensures forall p :: p in ps ==> p.FieldPart?
  {
    if |vals| == 0 then [] else [FieldPart(name, vals[0])] + FieldPartsOf(name, vals[1..])
  }

  /** The text parts for the fields visited in `order`. */
  function TextParts(values: Values, order: seq<string>): (ps: seq<Part>)
    requires Elements(order) <= values.Keys
    ensures forall p :: p in ps ==> p.FieldPart?
    decreases |order|
  {
    if |order| == 0 then []
    else
      assert Elements(order[1..]) <= Elements(order);
      FieldPartsOf(order[0], values[order[0]]) + TextParts(values, order[1..])
  }

  /** The bytes a file header's content copy delivers (nothing when it cannot be opened). */
  function ContentOf(fh: FileHeader): Bytes {
    if fh.source.Opened? then fh.source.content else []
  }

  /** A file header whose open and copy both succeed. */
  predicate Readable(fh: FileHeader) {
    fh.source.Opened? && fh.source.readError.None?
  }

  /** One file part per uploaded file of field `field`, in upload order, carrying
      the file name and the content unchanged. */
  function FilePartsOf(field: string, fhs: seq<FileHeader>): (ps: seq<Part>)
    ensures |ps| == |fhs|
    ensures forall p :: p in ps ==> p.FilePart?
  {
    if |fhs| == 0 then [] else [FilePart(field, fhs[0].fileName, ContentOf(fhs[0]))] + FilePartsOf(field, fhs[1..])
  }

  /** The i-th file part of a field is the i-th uploaded file: same field name,
      same file name, and the bytes its copy delivers. */
  lemma {:induction false} FilePartsOfVerbatim(field: string, fhs: seq<FileHeader>)
    ensures forall i :: 0 <= i < |fhs| ==>
              FilePartsOf(field, fhs)[i] == FilePart(field, fhs[i].fileName, ContentOf(fhs[i]))
    decreases |fhs|
  {
    if |fhs| > 0 {
      FilePartsOfVerbatim(field, fhs[1..]);
      var ps := FilePartsOf(field, fhs);
      forall i | 1 <= i < |fhs|
        ensures ps[i] == FilePart(field, fhs[i].fileName, ContentOf(fhs[i]))
      {
        assert ps[i] == FilePartsOf(field, fhs[1..])[i - 1];
        assert fhs[i] == fhs[1..][i - 1];
      }
    }
  }

  /** The file parts for the file fields visited in `order`. */
  function FileParts(files: Files, order: seq<string>): (ps: seq<Part>)
    requires Elements(order) <= files.Keys
    ensures forall p :: p in ps ==> p.FilePart?
    decreases |order|
  {
    if |order| == 0 then []
    else
      assert Elements(order[1..]) <= Elements(order);
      FilePartsOf(order[0], files[order[0]]) + FileParts(files, order[1..])
  }

  /** Every file header of the fields visited in `order` can be opened and copied. */
  predicate FilesReadable(files: Files, order: seq<string>)
    requires Elements(order) <= files.Keys
  {
    forall k, fh :: k in order && fh in files[k] ==> Readable(fh)
  }

  /** The sink accepts every part of `ps`. */
  predicate Accepts(sink: Sink, ps: seq<Part>) {
    forall p :: p in ps ==> sink.partError(p).None?
  }

  // ---------------------------------------------------------------------------
  // The writer, step by step as `writeValues` / `writeFiles` run

  function WriteField(w: Writer, name: string, value: string, sink: Sink): Result<Writer> {
    var part := FieldPart(name, value);
    match sink.partError(part)
    case Some(e) => Failure(e)
    case None => Success(w.(parts := w.parts + [part]))
  }

  /** `Accepts` splits over concatenation. */
  lemma AcceptsConcat(sink: Sink, a: seq<Part>, b: seq<Part>)
    ensures Accepts(sink, a + b) <==> Accepts(sink, a) && Accepts(sink, b)
  {
    assert forall p :: p in a + b <==> p in a || p in b;
  }

  /** The inner loop of `writeValues`: every value of one field, stopping at the first error. */
  function WriteFieldValues(w: Writer, name: string, vals: seq<string>, sink: Sink): (r: Result<Writer>)
    ensures r.Success? <==> Accepts(sink, FieldPartsOf(name, vals))
    ensures r.Success? ==> r.value == Writer(w.boundary, w.parts + FieldPartsOf(name, vals))
    decreases |vals|
  {
    if |vals| == 0 then Success(w)
    else
      var part := FieldPart(name, vals[0]);
      var rest := FieldPartsOf(name, vals[1..]);
      assert FieldPartsOf(name, vals) == [part] + rest;
      AcceptsConcat(sink, [part], rest);
      match WriteField(w, name, vals[0], sink)
      case Failure(e) => Failure(e)
      case Success(w1) =>
        var r := WriteFieldValues(w1, name, vals[1..], sink);
        assert w.parts + [part] + rest == w.parts + ([part] + rest);
        r
  }

  /** `writeValues`: the fields of `values` visited in `order`, each value becoming
      one text part, stopping at the first error. */
  function WriteValues(w: Writer, values: Values, order: seq<string>, sink: Sink): (r: Result<Writer>)
    requires Elements(order) <= values.Keys
    ensures r.Success? <==> Accepts(sink, TextParts(values, order))
    ensures r.Success? ==> r.value == Writer(w.boundary, w.parts + TextParts(values, order))
    decreases |order|
  {
    if |order| == 0 then Success(w)
    else
      assert Elements(order[1..]) <= Elements(order);
      var head := FieldPartsOf(order[0], values[order[0]]);
      var tail := TextParts(values, order[1..]);
      assert TextParts(values, order) == head + tail;
      AcceptsConcat(sink, head, tail);
      match WriteFieldValues(w, order[0], values[order[0]], sink)
      case Failure(e) => Failure(e)
      case Success(w1) =>
        var r := WriteValues(w1, values, order[1..], sink);
        assert w.parts + head + tail == w.parts + (head + tail);
        r
  }

  /** One iteration of `writeFiles`' inner loop: open, create the part, copy. */
  function WriteFile(w: Writer, field: string, fh: FileHeader, sink: Sink): (r: Result<Writer>)
    ensures var part := FilePart(field, fh.fileName, ContentOf(fh));
            && (r.Success? <==> Readable(fh) && sink.partError(part).None?)
            && (r.Success? ==> r.value == Writer(w.boundary, w.parts + [part]))
  {
    match fh.source
    case OpenFails(e) => Failure(e)
    case Opened(content, readError) =>
      var part := FilePart(field, fh.fileName, content);
      match sink.partError(part)
      case Some(e) => Failure(e)
      case None =>
        match readError
        case Some(e) => Failure(e)
        case None => Success(w.(parts := w.parts + [part]))
  }

  /** The inner loop of `writeFiles`: every file of one field, stopping at the first error. */
  function WriteFileHeaders(w: Writer, field: string, fhs: seq<FileHeader>, sink: Sink): (r: Result<Writer>)
    ensures r.Success? <==> (forall fh :: fh in fhs ==> Readable(fh)) && Accepts(sink, FilePartsOf(field, fhs))
    ensures r.Success? ==> r.value == Writer(w.boundary, w.parts + FilePartsOf(field, fhs))
    decreases |fhs|
  {
    if |fhs| == 0 then Success(w)
    else
      var part := FilePart(field, fhs[0].fileName, ContentOf(fhs[0]));
      var rest := FilePartsOf(field, fhs[1..]);
      assert FilePartsOf(field, fhs) == [part] + rest;
      AcceptsConcat(sink, [part], rest);
      assert forall fh :: fh in fhs <==> fh == fhs[0] || fh in fhs[1..];
      match WriteFile(w, field, fhs[0], sink)
      case Failure(e) => Failure(e)
      case Success(w1) =>
        var r := WriteFileHeaders(w1, field, fhs[1..], sink);
        assert w.parts + [part] + rest == w.parts + ([part] + rest);
        r
  }

  /** Splits `FilesReadable` at the first visited field. */
  lemma FilesReadableSplit(files: Files, order: seq<string>)
    requires |order| > 0 && Elements(order) <= files.Keys
    ensures Elements(order[1..]) <= files.Keys
    ensures FilesReadable(files, order) <==>
              (forall fh :: fh in files[order[0]] ==> Readable(fh)) && FilesReadable(files, order[1..])
  {
    assert forall k :: k in order <==> k == order[0] || k in order[1..];
  }

  /** `writeFiles`: the file fields of `files` visited in `order`, each file
      becoming one file part, stopping at the first error. */
  function WriteFiles(w: Writer, files: Files, order: seq<string>, sink: Sink): (r: Result<Writer>)
    requires Elements(order) <= files.Keys
    ensures r.Success? <==> FilesReadable(files, order) && Accepts(sink, FileParts(files, order))
    ensures r.Success? ==> r.value == Writer(w.boundary, w.parts + FileParts(files, order))
    decreases |order|
  {
    if |order| == 0 then Success(w)
    else
      FilesReadableSplit(files, order);
      var head := FilePartsOf(order[0], files[order[0]]);
      var tail := FileParts(files, order[1..]);
      assert FileParts(files, order) == head + tail;
      AcceptsConcat(sink, head, tail);
      match WriteFileHeaders(w, order[0], files[order[0]], sink)
      case Failure(e) => Failure(e)
      case Success(w1) =>
        var r := WriteFiles(w1, files, order[1..], sink);
        assert w.parts + head + tail == w.parts + (head + tail);
        r
  }

  /** Everything the rebuild needs to succeed: every part accepted, every file
      readable, and `Close` without error. */
  predicate Writable(form: Form, valueOrder: seq<string>, fileOrder: seq<string>, sink: Sink)
    requires Elements(valueOrder) <= form.value.Keys && Elements(fileOrder) <= form.file.Keys
  {
    && Accepts(sink, TextParts(form.value, valueOrder))
    && FilesReadable(form.file, fileOrder)
    && Accepts(sink, FileParts(form.file, fileOrder))
    && sink.closeError.None?
  }

  /** Lines 107-121 of `handleMultipart`: a fresh writer, the text fields, the
      files, `Close`; `frame` turns the boundary and part list into wire bytes. */
  function Rebuild(form: Form, boundary: string, valueOrder: seq<string>, fileOrder: seq<string>,
                   sink: Sink, frame: (string, seq<Part>) -> Bytes): (r: Result<Bytes>)
    requires Elements(valueOrder) <= form.value.Keys && Elements(fileOrder) <= form.file.Keys
    ensures r.Success? <==> Writable(form, valueOrder, fileOrder, sink)
    ensures r.Success? ==> r.value == frame(boundary, TextParts(form.value, valueOrder) + FileParts(form.file, fileOrder))
  {
    var w0 := Writer(boundary, []);
    var w1 :- WriteValues(w0, form.value, valueOrder, sink);
    var w2 :- WriteFiles(w1, form.file, fileOrder, sink);
    assert w2.boundary == boundary;
    assert w2.parts == TextParts(form.value, valueOrder) + FileParts(form.file, fileOrder);
    match sink.closeError
    case Some(e) => Failure(e)
    case None => Success(frame(w2.boundary, w2.parts))
  }

  /** The map iteration orders `handleMultipart` runs with are valid ones: `setOrder`
      and `appendOrder` enumerate the configuration maps, `valueOrder` the mutated
      text fields and `fileOrder` the file fields. */
  predicate ValidOrders(config: Config, form: Form, setOrder: seq<string>, appendOrder: seq<string>,
                        valueOrder: seq<string>, fileOrder: seq<string>)
  {
    && Enumerates(setOrder, config.setTo.Keys)
    && Enumerates(appendOrder, config.appendTo.Keys)
    && Enumerates(valueOrder, Expected(form.value, config).Keys)
    && Enumerates(fileOrder, form.file.Keys)
  }

  /** `handleMultipart`. The text fields are mutated, the rebuilt body replaces the
      old one and the Content-Type header names the new boundary; on a parse error
      (400), a nil form, or any writer error (500) the request is left as it was. */
  function HandleMultipart(config: Config, req: Request, parsed: ParsedMultipart, boundary: string,
                           sink: Sink, frame: (string, seq<Part>) -> Bytes,
                           setOrder: seq<string>, appendOrder: seq<string>,
                           valueOrder: seq<string>, fileOrder: seq<string>): (r: Outcome)
    requires Enumerates(setOrder, config.setTo.Keys)
    requires Enumerates(appendOrder, config.appendTo.Keys)
    requires parsed.Parsed? ==> ValidOrders(config, parsed.form, setOrder, appendOrder, valueOrder, fileOrder)
    ensures parsed.ParseFailed? ==> r.req == req && r.response == Some(HttpError(StatusBadRequest, parsed.error))
    ensures parsed.NoForm? ==> r.req == req && r.response.None?
    ensures parsed.Parsed? ==>
              var form := Form(Expected(parsed.form.value, config), parsed.form.file);
              && (r.response.None? <==> Writable(form, valueOrder, fileOrder, sink))
              && (r.response.Some? ==> r.req == req && r.response.value.status == StatusInternalServerError)
              && (r.response.None? ==>
                    && SelfConsistent(r.req)
                    && r.req.body == frame(boundary, TextParts(form.value, valueOrder) + FileParts(form.file, fileOrder))
                    && ContentTypeKey in r.req.header
                    && r.req.header[ContentTypeKey] == [MultipartContentType(boundary)]
                    && ContentType(r.req) == MultipartContentType(boundary)
                    && r.req.header.Keys == req.header.Keys + {ContentTypeKey}
                    && (forall k :: k in req.header && k != ContentTypeKey ==> r.req.header[k] == req.header[k]))
  {
    match parsed
    case ParseFailed(e) => Outcome(req, Some(HttpError(StatusBadRequest, e)))
    case NoForm => Outcome(req, None)
    case Parsed(m) =>
      var mutated := Form(ApplyOpsToValues(m.value, config, setOrder, appendOrder), m.file);
      match Rebuild(mutated, boundary, valueOrder, fileOrder, sink, frame)
      case Failure(e) => Outcome(req, Some(HttpError(StatusInternalServerError, e)))
      case Success(body) =>
        var replaced := ReplaceBody(req, body);
        Outcome(replaced.(header := HeaderSet(req.header, ContentTypeKey, MultipartContentType(boundary))), None)
  }

  // ---------------------------------------------------------------------------
  // What the rebuilt part list promises a downstream parser

  /** The values of the text parts named `name`, in part order. */
  function FieldValues(ps: seq<Part>, name: string): seq<string> {
    if |ps| == 0 then []
    else (if ps[0].FieldPart? && ps[0].name == name then [ps[0].value] else []) + FieldValues(ps[1..], name)
  }

  /** The file parts of field `field`, in part order. */
  function FilesOf(ps: seq<Part>, field: string): seq<Part> {
    if |ps| == 0 then []
    else (if ps[0].FilePart? && ps[0].field == field then [ps[0]] else []) + FilesOf(ps[1..], field)
  }

  lemma {:induction false} FieldValuesAppend(a: seq<Part>, b: seq<Part>, name: string)
    ensures FieldValues(a + b, name) == FieldValues(a, name) + FieldValues(b, name)
    decreases |a|
  {
    if |a| == 0 {
      assert a + b == b;
    } else {
      assert (a + b)[1..] == a[1..] + b;
      FieldValuesAppend(a[1..], b, name);
    }
  }

  lemma {:induction false} FilesOfAppend(a: seq<Part>, b: seq<Part>, field: string)
    ensures FilesOf(a + b, field) == FilesOf(a, field) + FilesOf(b, field)
    decreases |a|
  {
    if |a| == 0 {
      assert a + b == b;
    } else {
      assert (a + b)[1..] == a[1..] + b;
      FilesOfAppend(a[1..], b, field);
    }
  }

  /** Reading the text parts of one field back gives its values, one part each, in order. */
  lemma {:induction false} FieldPartsOfFaithful(name: string, vals: seq<string>, other: string)
    ensures FieldValues(FieldPartsOf(name, vals), other) == if other == name then vals else []
    ensures FilesOf(FieldPartsOf(name, vals), other) == []
    decreases |vals|
  {
    if |vals| > 0 {
      var ps := FieldPartsOf(name, vals);
      assert ps[1..] == FieldPartsOf(name, vals[1..]);
      FieldPartsOfFaithful(name, vals[1..], other);
    }
  }

  /** Reading the file parts of one field back gives its files, one part each, in order. */
  lemma {:induction false} FilePartsOfFaithful(field: string, fhs: seq<FileHeader>, other: string)
    ensures FilesOf(FilePartsOf(field, fhs), other) == if other == field then FilePartsOf(field, fhs) else []
    ensures FieldValues(FilePartsOf(field, fhs), other) == []
    decreases |fhs|
  {
    if |fhs| > 0 {
      var ps := FilePartsOf(field, fhs);
      assert ps[1..] == FilePartsOf(field, fhs[1..]);
      FilePartsOfFaithful(field, fhs[1..], other);
      if other == field {
        assert ps == [ps[0]] + ps[1..];
      }
    }
  }

  /** Each value of each text field yields exactly one text part, in value order,
      and the text parts carry no file. */
  lemma {:induction false} TextPartsFaithful(values: Values, order: seq<string>, k: string)
    requires Elements(order) <= values.Keys
    requires Distinct(order)
    ensures FieldValues(TextParts(values, order), k) == if k in order then values[k] else []
    ensures FilesOf(TextParts(values, order), k) == []
    decreases |order|
  {
    if |order| > 0 {
      assert Elements(order[1..]) <= Elements(order);
      var head := FieldPartsOf(order[0], values[order[0]]);
      var tail := TextParts(values, order[1..]);
      assert TextParts(values, order) == head + tail;
      FieldValuesAppend(head, tail, k);
      FilesOfAppend(head, tail, k);
      FieldPartsOfFaithful(order[0], values[order[0]], k);
      TextPartsFaithful(values, order[1..], k);
      if k == order[0] {
        forall j | 0 <= j < |order[1..]|
          ensures order[1..][j] != k
        {
          assert order[1..][j] == order[j + 1];
        }
      } else {
        assert k in order <==> k in order[1..];
      }
    }
  }

  /** Each uploaded file yields exactly one file part under its field, in upload
      order, with its file name and content unchanged; the file parts carry no text. */
  lemma {:induction false} FilePartsFaithful(files: Files, order: seq<string>, k: string)
    requires Elements(order) <= files.Keys
    requires Distinct(order)
    ensures FilesOf(FileParts(files, order), k) == if k in order then FilePartsOf(k, files[k]) else []
    ensures FieldValues(FileParts(files, order), k) == []
    decreases |order|
  {
    if |order| > 0 {
      assert Elements(order[1..]) <= Elements(order);
      var head := FilePartsOf(order[0], files[order[0]]);
      var tail := FileParts(files, order[1..]);
      assert FileParts(files, order) == head + tail;
      FieldValuesAppend(head, tail, k);
      FilesOfAppend(head, tail, k);
      FilePartsOfFaithful(order[0], files[order[0]], k);
      FilePartsFaithful(files, order[1..], k);
      if k == order[0] {
        forall j | 0 <= j < |order[1..]|
          ensures order[1..][j] != k
        {
          assert order[1..][j] == order[j + 1];
        }
      } else {
        assert k in order <==> k in order[1..];
      }
    }
  }

  /** In the part list a successful rebuild frames, every text part comes before
      every file part. */
  lemma TextBeforeFiles(values: Values, files: Files, valueOrder: seq<string>, fileOrder: seq<string>)
    requires Elements(valueOrder) <= values.Keys && Elements(fileOrder) <= files.Keys
    ensures var ps := TextParts(values, valueOrder) + FileParts(files, fileOrder);
            forall i, j :: 0 <= i < j < |ps| && ps[i].FilePart? ==> ps[j].FilePart?
  {
    var text := TextParts(values, valueOrder);
    var fileParts := FileParts(files, fileOrder);
    var ps := text + fileParts;
    forall i | 0 <= i < |text|
      ensures ps[i].FieldPart?
    {
      assert ps[i] == text[i] && text[i] in text;
    }
    forall j | |text| <= j < |ps|
      ensures ps[j].FilePart?
    {
      assert ps[j] == fileParts[j - |text|] && fileParts[j - |text|] in fileParts;
    }
  }

  /** Reading the rebuilt part list back field by field: each text field gives back
      exactly its values, and each file field exactly its files, name and bytes
      intact, whatever order the two maps were visited in. */
  lemma RebuiltPartsFaithful(values: Values, files: Files, valueOrder: seq<string>, fileOrder: seq<string>, k: string)
    requires Enumerates(valueOrder, values.Keys) && Enumerates(fileOrder, files.Keys)
    ensures var ps := TextParts(values, valueOrder) + FileParts(files, fileOrder);
            && FieldValues(ps, k) == Lookup(values, k)
            && FilesOf(ps, k) == (if k in files then FilePartsOf(k, files[k]) else [])
  {
    var text := TextParts(values, valueOrder);
    var fileParts := FileParts(files, fileOrder);
    TextPartsFaithful(values, valueOrder, k);
    FilePartsFaithful(files, fileOrder, k);
    FieldValuesAppend(text, fileParts, k);
    FilesOfAppend(text, fileParts, k);
    assert k in valueOrder <==> k in values;
    assert k in fileOrder <==> k in files;
  }
}
