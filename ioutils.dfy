/** The loader: format negotiation, parser and writer dispatch, and the
    load entry points that drive a parser into a fresh graph. */
module IOUtils {
  import opened Wrappers
  import opened Strings
  import opened Formats
  import opened Errors
  import opened RdfTerms
  import opened Graphs
  import opened StatementHandling

  // ---------------------------------------------------------------------
  // Parser and writer dispatch

  datatype ParserKind = RdfXmlParser | TurtleParser | N3Parser | RdfaParser | TrixParser
  datatype WriterKind = RdfXmlWriter | N3Writer | TurtleWriter | TrixWriter

  /** The formats each parser reads: RDFa has two descriptors, the one the
      loader registers and the one of the RDFa parser library. */
  predicate Reads(k: ParserKind, f: Format) {
    match k
    case RdfXmlParser => f == RdfXml
    case TurtleParser => f == Turtle
    case N3Parser => f == N3
    case RdfaParser => f == Rdfa || f == RdfaHtml
    case TrixParser => f == TriX
  }

  /** The format each writer produces. */
  predicate Writes(k: WriterKind, f: Format) {
    match k
    case RdfXmlWriter => f == RdfXml
    case N3Writer => f == N3
    case TurtleWriter => f == Turtle
    case TrixWriter => f == TriX
  }

  /** createParser: the parser for the format, or an IOException naming it. */
  function CreateParser(f: Format): (r: Result<ParserKind, Exception>)
    ensures r.Success? ==> Reads(r.value, f)
    ensures r.Failure? ==> forall k :: !Reads(k, f)
    ensures r.Failure? ==> r.error == IOException(UnknownRdfSyntax(f), None)
  {
    if f == RdfXml then Success(RdfXmlParser)
    else if f == Turtle then Success(TurtleParser)
    else if f == N3 then Success(N3Parser)
    else if f == Rdfa || f == RdfaHtml then Success(RdfaParser)
    else if f == TriX then Success(TrixParser)
    else Failure(IOException(UnknownRdfSyntax(f), None))
  }

  /** createWriter: the writer for the format, or an IOException naming it. */
  function CreateWriter(f: Format): (r: Result<WriterKind, Exception>)
    ensures r.Success? ==> Writes(r.value, f)
    ensures r.Failure? ==> forall k :: !Writes(k, f)
    ensures r.Failure? ==> r.error == IOException(UnknownRdfSyntax(f), None)
  {
    if f == RdfXml then Success(RdfXmlWriter)
    else if f == N3 then Success(N3Writer)
    else if f == Turtle then Success(TurtleWriter)
    else if f == TriX then Success(TrixWriter)
    else Failure(IOException(UnknownRdfSyntax(f), None))
  }

  /** Dispatch is exclusive: each format has at most one parser. */
  lemma ParserDispatchExclusive(f: Format, k1: ParserKind, k2: ParserKind)
    requires Reads(k1, f) && Reads(k2, f)
    ensures k1 == k2
  {
  }

  /** Every format that can be written can be read back, but RDFa can only
      be read. */
  lemma WritableFormatsAreReadable(f: Format)
    ensures CreateWriter(f).Success? ==> CreateParser(f).Success?
    ensures CreateParser(Rdfa).Success? && CreateWriter(Rdfa).Failure?
  {
  }

  // ---------------------------------------------------------------------
  // Content negotiation

  /** The Content-Type header lower-cased and cut before its first ';',
      unless that ';' is the very first character. */
  function NormaliseContentType(header: string): (r: string)
    ensures r <= Lower(header)
    ensures ';' !in header || header[0] == ';' ==> r == Lower(header)
    ensures ';' in header && header[0] != ';' ==> 0 < |r| && ';' !in r && r + [';'] <= Lower(header)
  {
    var lower := Lower(header);
    var delimiter := IndexOf(lower, ';');
    LowerKeepsDelimiter(header, ';');
    if delimiter > 0 then
      assert ';' in header && header[0] != ';' by {
        assert lower[0] != ';';
      }
      assert lower[..delimiter + 1] == lower[..delimiter] + [';'];
      lower[..delimiter]
    else
      assert ';' !in header || header[0] == ';' by {
        if delimiter == 0 {
          assert lower[0] == ';';
        }
      }
      lower
  }

  /** Normalising twice changes nothing more. */
  lemma NormaliseIdempotent(header: string)
    ensures NormaliseContentType(NormaliseContentType(header)) == NormaliseContentType(header)
  {
    var r := NormaliseContentType(header);
    LowerOfLowerCase(r);
    if ';' in r {
      assert header[0] == ';' && r == Lower(header);
      assert r[0] == ';';
    }
  }

  /** The format for a normalised content type: the registry's match wins;
      failing that, text/turtle gives Turtle, text/n3 gives N3, and
      anything else RDF/XML. */
  function FormatForContentType(contentType: string): (f: Format)
    ensures ForMimeType(contentType).Some? ==> f == ForMimeType(contentType).value
    ensures ForMimeType(contentType).None? ==>
      && (f == Turtle <==> contentType == "text/turtle")
      && (f == N3 <==> contentType == "text/n3")
      && (f == RdfXml <==> contentType != "text/turtle" && contentType != "text/n3")
    ensures Registered(Registry, f)
  {
    match ForMimeType(contentType)
    case Some(f) => f
    case None =>
      assert Registry[0].format == RdfXml && Registry[2].format == Turtle && Registry[3].format == N3;
      if contentType == "text/turtle" then Turtle
      else if contentType == "text/n3" then N3
      else RdfXml
  }

  /** Content-Encoding asks for decompression exactly when it is present and
      is "gzip" in any case. */
  predicate GunzipRequested(contentEncoding: Option<string>): (r: bool)
    ensures r ==> contentEncoding.Some? && |contentEncoding.value| == 4
  {
    contentEncoding.Some? && EqualsIgnoreCase(contentEncoding.value, "gzip")
  }

  /** The gzip decision ignores case, and an encoding already in lower case
      asks for it exactly when it is "gzip". */
  lemma GunzipIgnoresCase(encoding: string)
    ensures GunzipRequested(Some(encoding)) == GunzipRequested(Some(Lower(encoding)))
    ensures IsLowerCase(encoding) ==> (GunzipRequested(Some(encoding)) <==> encoding == "gzip")
  {
    LowerIdempotent(encoding);
    var gzip := "gzip";
    LowerOfLowerCase(gzip);
    if IsLowerCase(encoding) {
      LowerOfLowerCase(encoding);
    }
  }

  /** The two overrides: neither MIME type is in the registry, so a Turtle
      or N3 response still reaches its own parser. */
  lemma OverridesApply(contentType: string)
    requires contentType == "text/turtle" || contentType == "text/n3"
    ensures FormatForContentType(contentType) == if contentType == "text/turtle" then Turtle else N3
  {
    TurtleAndN3TypesUnregistered(contentType);
  }

  /** A prefix with no ';' that is followed by ';' ends at the first ';'. */
  lemma CutAtFirstDelimiter(s: string, r: string)
    requires ';' !in r && r + [';'] <= s
    ensures |r| < |s| && s[|r|] == ';' && r == s[..|r|]
    ensures forall i :: 0 <= i < |r| ==> s[i] != ';'
  {
    assert forall i :: 0 <= i < |r| ==> s[i] == r[i];
  }

  /** Two prefixes of a string that each stop just before a ';' and hold
      none are the same. */
  lemma CutIsUnique(s: string, r1: string, r2: string)
    requires ';' !in r1 && r1 + [';'] <= s
    requires ';' !in r2 && r2 + [';'] <= s
    ensures r1 == r2
  {
    CutAtFirstDelimiter(s, r1);
    CutAtFirstDelimiter(s, r2);
  }

  /** Parameters do not matter: a media type followed by ';' and any
      parameters normalises to the lower-cased media type. */
  lemma NormaliseDropsParameters(mediaType: string, parameters: string)
    requires |mediaType| > 0 && ';' !in mediaType
    ensures NormaliseContentType(mediaType + ";" + parameters) == Lower(mediaType)
  {
    var header := mediaType + ";" + parameters;
    var lower := Lower(header);
    assert header[0] != ';' && header[|mediaType|] == ';';
    var r := NormaliseContentType(header);
    assert ';' !in r && r + [';'] <= lower;
    LowerKeepsDelimiter(mediaType, ';');
    assert Lower(mediaType) + [';'] <= lower by {
      LowerPrefix(header, |mediaType| + 1);
      assert header[..|mediaType| + 1] == mediaType + [';'];
      LowerOfSuffixed(mediaType, ';');
    }
    CutIsUnique(lower, r, Lower(mediaType));
  }

  /** Case does not matter: a header and its lower-case form normalise
      alike. */
  lemma NormaliseIgnoresCase(header: string)
    ensures NormaliseContentType(Lower(header)) == NormaliseContentType(header)
  {
    LowerIdempotent(header);
    LowerKeepsDelimiter(header, ';');
    if ';' in header && header[0] != ';' {
      CutIsUnique(Lower(header), NormaliseContentType(Lower(header)), NormaliseContentType(header));
    }
  }

  /** Negotiation always names a registered format, and only the registry
      rows for N-Triples and TriG lead to a format without a parser. */
  lemma NegotiatedFormatHasParser(contentType: string)
    ensures CreateParser(FormatForContentType(contentType)).Failure? <==>
      ForMimeType(contentType) == Some(NTriples) || ForMimeType(contentType) == Some(TriG)
  {
    var f := FormatForContentType(contentType);
    RegisteredFormats(f);
    if ForMimeType(contentType).None? {
      assert f == Turtle || f == N3 || f == RdfXml;
    }
  }

  /** A text/plain response, in any letter case, names N-Triples and so
      has no parser. */
  lemma PlainTextHasNoParser(contentType: string)
    requires Lower(contentType) == "text/plain"
    ensures CreateParser(FormatForContentType(contentType)) == Failure(IOException(UnknownRdfSyntax(NTriples), None))
  {
    assert Lower(contentType) in Registry[1].mimeTypes;
    RegisteredMimeTypesResolve(1, contentType);
    NTriplesHasNoParser(contentType);
  }

  /** A content type registered to N-Triples negotiates N-Triples, for
      which parser creation fails. */
  lemma NTriplesHasNoParser(contentType: string)
    requires ForMimeType(contentType) == Some(NTriples)
    ensures CreateParser(FormatForContentType(contentType)) == Failure(IOException(UnknownRdfSyntax(NTriples), None))
  {
  }

  // ---------------------------------------------------------------------
  // Parsing into a fresh graph

  /** An input stream: none (a null reference), the bytes of a resource,
      or a buffering or gunzipping wrapper around another stream. */
  datatype Stream = NoStream | Source(bytes: seq<bv8>) | Buffered(inner: Stream) | Gunzipped(inner: Stream)

  /** How a parser's run over one input ends. */
  datatype ParseEnd = Completed | Threw(thrown: Exception)

  /** The statements a parser reports, in order, while every one is
      accepted, and how the run ends after the last of them. */
  datatype ParseRun = ParseRun(statements: seq<Statement>, end: ParseEnd)

  /** What the surroundings supply: the java.net.URI syntax check, and the
      run each parser makes over an input stream with a base URI. */
  datatype Env = Env(isUri: string -> bool, document: (ParserKind, Stream, string) -> ParseRun)

  /** A parser throws only what its signature declares: an IOException or
      an RDF parse exception. */
  predicate ThrowsDeclared(run: ParseRun) {
    run.end.Threw? ==> run.end.thrown.IOException? || run.end.thrown.RdfParseException?
  }

  /** The catch clause of parse: a library exception caused by an
      IOException surfaces as that IOException, any other library exception
      is wrapped in a new IOException, and everything else passes through. */
  function ParseFailure(e: Exception): (r: Exception)
    ensures e.IsOpenRdf() ==> r.IOException?
    ensures e.IsOpenRdf() && e.Cause().Some? && e.Cause().value.IOException? ==> r == e.Cause().value
    ensures e.IsOpenRdf() && !(e.Cause().Some? && e.Cause().value.IOException?) ==> r.Cause() == Some(e)
    ensures !e.IsOpenRdf() ==> r == e
  {
    if e.IsOpenRdf() then
      if e.Cause().Some? && e.Cause().value.IOException? then e.Cause().value
      else WrapInIOException(e)
    else e
  }

  /** What parse yields: the parser for the format is created, its run is
      fed through the statement handler, and the result is the translated
      triples or the first failure as parse reports it. */
  function ParseResult(format: Format, input: Stream, base: string, env: Env): (r: Result<seq<Triple>, Exception>)
    ensures r.Success? ==> CreateParser(format).Success?
    ensures r.Success? ==> env.document(CreateParser(format).value, input, base).end.Completed?
    ensures r.Success? ==> forall i :: 0 <= i < |r.value| ==> WellRoled(r.value[i])
  {
    match CreateParser(format)
    case Failure(e) => Failure(e)
    case Success(parser) =>
      var run := env.document(parser, input, base);
      match TranslateAll(run.statements, env.isUri)
      case Failure(e) => Failure(ParseFailure(HandlerFailure(e)))
      case Success(triples) =>
        match run.end
        case Completed => Success(triples)
        case Threw(e) => Failure(ParseFailure(e))
  }

  /** The triples of a returned graph, or the failure. */
  ghost function Triples(r: Result<Graph, Exception>): Result<seq<Triple>, Exception>
    reads if r.Success? then {r.value} else {}
  {
    match r
    case Success(g) => Success(g.triples)
    case Failure(e) => Failure(e)
  }

  /** parse(format, in, baseURI, factory): one fresh graph, filled by the
      handler as the parser reports statements, returned only when the
      whole run completes. */
  method Parse(format: Format, input: Stream, base: string, env: Env) returns (r: Result<Graph, Exception>)
    ensures r.Success? ==> fresh(r.value) && r.value.Valid()
    ensures Triples(r) == ParseResult(format, input, base, env)
  {
    var parser := CreateParser(format);
    if parser.Failure? {
      return Failure(parser.error);
    }
    var graph := new Graph();
    var handler := new StatementHandler(graph);
    var run := env.document(parser.value, input, base);
    var i := 0;
    while i < |run.statements|
      invariant 0 <= i <= |run.statements|
      invariant fresh(graph) && handler.graph == graph && graph.Valid()
      invariant TranslateAll(run.statements[..i], env.isUri) == Success(graph.triples)
    {
      var thrown := handler.HandleStatement(run.statements[i], env.isUri);
      assert run.statements[..i + 1][..i] == run.statements[..i];
      if thrown.Some? {
        TranslateAllKeepsFailure(run.statements, i + 1, env.isUri);
        return Failure(ParseFailure(thrown.value));
      }
      i := i + 1;
    }
    assert run.statements[..i] == run.statements;
    match run.end
    case Completed =>
      return Success(graph);
    case Threw(e) =>
      return Failure(ParseFailure(e));
  }

  /** Every failure of parse is an IOException, with one exception: a
      literal datatype that java.net.URI.create rejects escapes as the
      unchecked IllegalArgumentException. */
  lemma {:induction false} ParseFailuresAreIOExceptions(format: Format, input: Stream, base: string, env: Env)
    requires forall k :: ThrowsDeclared(env.document(k, input, base))
    ensures ParseResult(format, input, base, env).Failure? ==>
      || ParseResult(format, input, base, env).error.IOException?
      || (ParseResult(format, input, base, env).error.IllegalArgumentException?
          && !env.isUri(ParseResult(format, input, base, env).error.input))
  {
    var parser := CreateParser(format);
    if parser.Success? {
      var run := env.document(parser.value, input, base);
      var translated := TranslateAll(run.statements, env.isUri);
      if translated.Failure? {
        TranslateAllFirstFailure(run.statements, env.isUri);
        var k :| 0 <= k < |run.statements|
          && TranslateStatement(run.statements[k], env.isUri) == Failure(translated.error)
          && forall i :: 0 <= i < k ==> TranslateStatement(run.statements[i], env.isUri).Success?;
      }
    }
  }

  /** A successful parse holds one triple per reported statement, the i-th
      converted from the i-th, and nothing else. */
  lemma ParseKeepsEveryStatement(format: Format, input: Stream, base: string, env: Env)
    requires ParseResult(format, input, base, env).Success?
    ensures var run := env.document(CreateParser(format).value, input, base);
      && |ParseResult(format, input, base, env).value| == |run.statements|
      && forall i :: 0 <= i < |run.statements| ==>
        Restore(ParseResult(format, input, base, env).value[i]) == run.statements[i]
  {
    var run := env.document(CreateParser(format).value, input, base);
    TranslateAllRoundTrip(run.statements, env.isUri);
  }

  /** The graph does not depend on the syntax: two formats whose parsers
      report the same run give the same triples or the same failure. */
  lemma ParseIsFormatIndependent(f1: Format, f2: Format, input: Stream, base: string, env: Env)
    requires CreateParser(f1).Success? && CreateParser(f2).Success?
    requires env.document(CreateParser(f1).value, input, base) == env.document(CreateParser(f2).value, input, base)
    ensures ParseResult(f1, input, base, env) == ParseResult(f2, input, base, env)
  {
  }

  // ---------------------------------------------------------------------
  // Entry points

  /** A URL as far as the loader looks at it: its text and its file part. */
  datatype Url = Url(text: string, file: Option<string>)

  /** The response to the connection the URL entry point opens. */
  datatype Response = Response(contentType: Option<string>, contentEncoding: Option<string>, body: seq<bv8>)

  /** The outcome of opening a stream on a URL. */
  datatype Fetch = Fetched(bytes: seq<bv8>) | FetchFailed(detail: string)

  /** _loadGraph: the format comes from the URL's file name, RDF/XML by
      default. */
  method LoadFromUrl(url: Url, base: string, fetched: Fetch, env: Env) returns (r: Result<Graph, Exception>)
    ensures r.Success? ==> fresh(r.value) && r.value.Valid()
    ensures url.file.None? ==> r == Failure(IOException(NoFileNameFound, None))
    ensures url.file.Some? && fetched.FetchFailed? ==> r == Failure(IOException(Detail(fetched.detail), None))
    ensures url.file.Some? && fetched.Fetched? ==>
      Triples(r) == ParseResult(ForFileNameOr(url.file.value, RdfXml), Source(fetched.bytes), base, env)
  {
    if url.file.None? {
      return Failure(IOException(NoFileNameFound, None));
    }
    var format := ForFileNameOr(url.file.value, RdfXml);
    if fetched.FetchFailed? {
      return Failure(IOException(Detail(fetched.detail), None));
    }
    r := Parse(format, Source(fetched.bytes), base, env);
  }

  /** loadGraph(File): a file is loaded through its own URL, which is also
      the base URI. */
  method LoadFile(file: Url, fetched: Fetch, env: Env) returns (r: Result<Graph, Exception>)
    ensures r.Success? ==> fresh(r.value) && r.value.Valid()
    ensures file.file.Some? && fetched.FetchFailed? ==> r == Failure(IOException(Detail(fetched.detail), None))
    ensures file.file.Some? && fetched.Fetched? ==>
      Triples(r) == ParseResult(ForFileNameOr(file.file.value, RdfXml), Source(fetched.bytes), file.text, env)
  {
    r := LoadFromUrl(file, file.text, fetched, env);
  }

  /** loadGraph(URL): with a declared content type, the format is
      negotiated from it and the body is gunzipped when the encoding asks
      for it; without one, the URL is loaded by its file name. */
  method LoadUrl(url: Url, response: Response, reopened: Fetch, env: Env) returns (r: Result<Graph, Exception>)
    ensures r.Success? ==> fresh(r.value) && r.value.Valid()
    ensures !env.isUri(url.text) ==> r == Failure(WrapInIOException(UriSyntaxException(url.text)))
    ensures env.isUri(url.text) && response.contentType.Some? ==>
      var raw := Buffered(Source(response.body));
      Triples(r) == ParseResult(
        FormatForContentType(NormaliseContentType(response.contentType.value)),
        if GunzipRequested(response.contentEncoding) then Gunzipped(raw) else raw,
        url.text, env)
    ensures env.isUri(url.text) && response.contentType.None? && url.file.None? ==>
      r == Failure(IOException(NoFileNameFound, None))
    ensures env.isUri(url.text) && response.contentType.None? && url.file.Some? && reopened.FetchFailed? ==>
      r == Failure(IOException(Detail(reopened.detail), None))
    ensures env.isUri(url.text) && response.contentType.None? && url.file.Some? && reopened.Fetched? ==>
      Triples(r) == ParseResult(ForFileNameOr(url.file.value, RdfXml), Source(reopened.bytes), url.text, env)
  {
    if !env.isUri(url.text) {
      return Failure(WrapInIOException(UriSyntaxException(url.text)));
    }
    var base := url.text;
    if response.contentType.Some? {
      var contentType := Lower(response.contentType.value);
      var delimiter := IndexOf(contentType, ';');
      if delimiter > 0 {
        contentType := contentType[..delimiter];
      }
      var input := Buffered(Source(response.body));
      if response.contentEncoding.Some? && EqualsIgnoreCase(response.contentEncoding.value, "gzip") {
        input := Gunzipped(input);
      }
      var format := ForMimeType(contentType);
      var chosen: Format;
      if format.Some? {
        chosen := format.value;
      } else if contentType == "text/turtle" {
        chosen := Turtle;
      } else if contentType == "text/n3" {
        chosen := N3;
      } else {
        chosen := RdfXml;
      }
      r := Parse(chosen, input, base, env);
      return;
    }
    r := LoadFromUrl(url, base, reopened, env);
  }

  /** A classpath resource: its URL and its bytes. */
  datatype ClasspathEntry = ClasspathEntry(url: Url, bytes: seq<bv8>)

  /** What loadGraph(String, URI) yields, as written: the one-argument
      file-name lookup gives null for an extension no row lists, and
      createParser dereferences that null when it builds its message, so
      the load throws NullPointerException before any graph exists. */
  function ResourceLoadAsWritten(fileName: string, input: Stream, base: string, env: Env)
    : (r: Result<seq<Triple>, Exception>)
    ensures r.Success? ==> ForFileName(fileName).Some?
    ensures ForFileName(fileName).None? ==> r == Failure(NullPointerException)
  {
    match ForFileName(fileName)
    case None => Failure(NullPointerException)
    case Some(f) => ParseResult(f, input, base, env)
  }

  /** As written, a classpath load throws NullPointerException exactly when
      the extension is unregistered, as long as the parser throws only
      what it declares. */
  lemma {:induction false} AsWrittenNullPointerExactlyForUnknownExtension(
    fileName: string, input: Stream, base: string, env: Env)
    requires forall k :: ThrowsDeclared(env.document(k, input, base))
    ensures ResourceLoadAsWritten(fileName, input, base, env) == Failure(NullPointerException)
      <==> ForFileName(fileName).None?
  {
    if ForFileName(fileName).Some? {
      ParseFailuresAreIOExceptions(ForFileName(fileName).value, input, base, env);
    }
  }

  /** A classpath resource with an unregistered extension, such as a JSON
      file, makes the load as written throw NullPointerException instead of
      an IOException. */
  lemma UnknownResourceExtensionThrowsNullPointer(stem: string, ext: string, input: Stream, base: string, env: Env)
    requires ext == "json"
    ensures ResourceLoadAsWritten(stem + "." + ext, input, base, env) == Failure(NullPointerException)
  {
    ExtensionOfDottedName(stem, ext);
    LowerOfLowerCase(ext);
    NoRowListsJson(ext);
  }

  /** The format for a classpath resource, with the RDF/XML default the
      file path applies. */
  function ResourceFormat(fileName: string): (f: Format)
    ensures ForFileName(fileName).Some? ==> f == ForFileName(fileName).value
    ensures ForFileName(fileName).None? ==> f == RdfXml
    ensures Registered(Registry, f)
  {
    assert Registry[0].format == RdfXml;
    ForFileNameOr(fileName, RdfXml)
  }

  /** What loadGraph(String, URI) evidently means to do: parse the resource
      in the format of its file name, RDF/XML by default. It agrees with the
      code wherever the code does not dereference null. */
  function ResourceLoadCorrected(fileName: string, input: Stream, base: string, env: Env)
    : (r: Result<seq<Triple>, Exception>)
    ensures ForFileName(fileName).Some? ==> r == ResourceLoadAsWritten(fileName, input, base, env)
    ensures ForFileName(fileName).None? ==> r == ParseResult(RdfXml, input, base, env)
  {
    ParseResult(ResourceFormat(fileName), input, base, env)
  }

  /** With the default in place, a classpath load fails at worst with an
      IOException, or with the unchecked exception of a literal datatype the
      URI check rejects, and never with NullPointerException; a resource
      whose extension no row lists always has a parser. */
  lemma ResourceLoadFailuresAreIOExceptions(fileName: string, input: Stream, base: string, env: Env)
    requires forall k :: ThrowsDeclared(env.document(k, input, base))
    ensures var r := ResourceLoadCorrected(fileName, input, base, env);
      r.Failure? ==>
        r.error.IOException? || (r.error.IllegalArgumentException? && !env.isUri(r.error.input))
    ensures ForFileName(fileName).None? ==> CreateParser(ResourceFormat(fileName)).Success?
  {
    ParseFailuresAreIOExceptions(ResourceFormat(fileName), input, base, env);
  }

  /** The JSON resource that the code fails on is parsed as RDF/XML by the
      corrected load. */
  lemma UnknownResourceExtensionParsesAsRdfXml(stem: string, ext: string, input: Stream, base: string, env: Env)
    requires ext == "json"
    ensures ResourceLoadCorrected(stem + "." + ext, input, base, env) == ParseResult(RdfXml, input, base, env)
  {
    ExtensionOfDottedName(stem, ext);
    LowerOfLowerCase(ext);
    NoRowListsJson(ext);
  }

  /** loadGraph(String, URI), as written: the resource's stream (none when
      the name does not resolve) parsed in the format of its file name, or
      NullPointerException when no row lists the extension. */
  method LoadResourceWithBase(fileName: string, base: string, contents: Option<seq<bv8>>, env: Env)
    returns (r: Result<Graph, Exception>)
    ensures r.Success? ==> fresh(r.value) && r.value.Valid()
    ensures ForFileName(fileName).None? ==> r == Failure(NullPointerException)
    ensures Triples(r) == ResourceLoadAsWritten(fileName,
      if contents.Some? then Source(contents.value) else NoStream, base, env)
  {
    var input := if contents.Some? then Source(contents.value) else NoStream;
    var format := ForFileName(fileName);
    if format.None? {
      return Failure(NullPointerException);
    }
    r := Parse(format.value, input, base, env);
  }

  /** loadGraph(String, URI) with the RDF/XML default: the corrected load. */
  method LoadResourceWithDefault(fileName: string, base: string, contents: Option<seq<bv8>>, env: Env)
    returns (r: Result<Graph, Exception>)
    ensures r.Success? ==> fresh(r.value) && r.value.Valid()
    ensures Triples(r) == ResourceLoadCorrected(fileName,
      if contents.Some? then Source(contents.value) else NoStream, base, env)
  {
    var input := if contents.Some? then Source(contents.value) else NoStream;
    r := Parse(ResourceFormat(fileName), input, base, env);
  }

  /** loadGraph(String): a name that does not resolve on the classpath fails
      with "File not found" and never yields a graph; otherwise the resource
      is loaded with its own URL as the base URI. */
  method LoadResource(fileName: string, resource: Option<ClasspathEntry>, env: Env)
    returns (r: Result<Graph, Exception>)
    ensures r.Success? ==> resource.Some? && fresh(r.value) && r.value.Valid()
    ensures resource.None? ==> r == Failure(IOException(FileNotFound(fileName), None))
    ensures resource.Some? && !env.isUri(resource.value.url.text) ==>
      r == Failure(WrapInIOException(UriSyntaxException(resource.value.url.text)))
    ensures resource.Some? && env.isUri(resource.value.url.text) && ForFileName(fileName).None? ==>
      r == Failure(NullPointerException)
    ensures resource.Some? && env.isUri(resource.value.url.text) ==>
      Triples(r) == ResourceLoadAsWritten(fileName, Source(resource.value.bytes), resource.value.url.text, env)
  {
    if resource.None? {
      return Failure(IOException(FileNotFound(fileName), None));
    }
    var baseUrl := resource.value.url;
    if !env.isUri(baseUrl.text) {
      return Failure(WrapInIOException(UriSyntaxException(baseUrl.text)));
    }
    r := LoadResourceWithBase(fileName, baseUrl.text, Some(resource.value.bytes), env);
  }
}
