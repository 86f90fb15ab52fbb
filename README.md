# MRG I/O: loading RDF documents into an MRG graph

This project is a Dafny model of the I/O layer of MRG (`mrg-io`). It covers
two classes:

- `IOUtils` picks an RDF syntax for a document, builds a parser for it and
  fills a fresh graph with what the parser reports. The syntax comes from an
  HTTP content type, from a file name or from a classpath resource name.
- `StatementHandler` turns each statement the parser reports into MRG's own
  nodes and appends the resulting triple to the graph.

The modules are:

- `Wrappers`: `Option` and `Result`.
- `Strings`: ASCII lower-casing, `indexOf` and `equalsIgnoreCase`.
- `Formats`: the table of known RDF formats and the two lookups through it,
  by MIME type and by file extension. The table holds the parser library's
  formats plus the RDFa format that `IOUtils` registers.
- `Errors`: the exceptions that can leave the loader, as one datatype.
  IOException, the RDF parse exception and the RDF handler exception keep
  their cause; the URI exceptions and NullPointerException have none.
- `RdfTerms`: the parser's terms (URI, blank node, literal) and statements.
  The subject and predicate positions are subset types, as they are typed in
  the parser API.
- `Graphs`: MRG nodes and triples, plus the graph as a class whose triple
  sequence `insert` extends in place.
- `StatementHandling`: the three `toNode` conversions, the handler class and
  the translation of a whole statement sequence.
- `IOUtils`:
  - parser and writer dispatch;
  - content-type normalisation and format negotiation;
  - `parse`, written as a loop over the statements the parser reports;
  - the `loadGraph` entry points.

Whatever the model cannot see becomes a parameter:

- The response of a URL connection, the bytes of a file and the classpath
  lookup are inputs.
- `java.net.URI`'s syntax check is an opaque predicate `isUri`.
- The parser is an opaque function `document`. For a parser kind, an input
  stream and a base URI, it gives the statements the parser reports and
  how the parse ends: it completes, or it throws.

`Parse` is a method that feeds those statements one at a time to
`StatementHandler.HandleStatement`, as the parser's callbacks do. It is
proved equal to the specification function `ParseResult`. The lemmas are
then proved about `ParseResult` and `TranslateAll`.

The error paths follow the code rather than a uniform "everything is an
IOException" reading:

- A literal datatype is converted with `java.net.URI.create`. That call throws
  the unchecked `IllegalArgumentException`, which `handleStatement` does not
  catch and `parse` does not map. So it reaches the caller unchanged (see
  `ParseFailuresAreIOExceptions`).
- `loadGraph(String, URI)` passes the one-argument `forFileName` result to
  `createParser` without a null check. The classpath loaders
  (`LoadResourceWithBase`, `LoadResource`) keep that behaviour: an
  unregistered extension gives NullPointerException. The load with the
  RDF/XML default that the code evidently intends stands beside them as
  `ResourceLoadCorrected` and `LoadResourceWithDefault`; see Findings.
- A failure inside `parse` follows the code's mapping. An OpenRDF exception
  whose cause is an IOException rethrows that cause. Any other OpenRDF
  exception is wrapped in a new IOException.

## Model

| member | source | states |
|---|---|---|
| Strings.Lower | mrg-io/src/main/java/org/mulgara/mrg/io/IOUtils.java:156 | the lower-cased header has the same length, maps each character by the ASCII case mapping and is entirely lower case |
| Strings.IndexOf | mrg-io/src/main/java/org/mulgara/mrg/io/IOUtils.java:158 | the result is -1 exactly when the character is absent; otherwise it is the index of its first occurrence |
| Formats.Lookup | mrg-io/src/main/java/org/mulgara/mrg/io/IOUtils.java:168 | a lookup finds nothing exactly when no registered format lists the lower-cased key; otherwise it gives the format of the first row that lists it |
| Formats.ForMimeType | mrg-io/src/main/java/org/mulgara/mrg/io/IOUtils.java:168 | no format exactly when no row lists the lower-cased MIME type; a found format is registered |
| Formats.ForFileName | mrg-io/src/main/java/org/mulgara/mrg/io/IOUtils.java:220 | no format exactly when the name has no extension or no row lists it in lower case; a found format is registered |
| Formats.ForFileNameOr | mrg-io/src/main/java/org/mulgara/mrg/io/IOUtils.java:259 | the extension's format, else the fallback; with a registered fallback the result is always registered |
| Formats.LookupFindsRow | mrg-io/src/main/java/org/mulgara/mrg/io/IOUtils.java:168 | the first row that lists a key is the one the lookup returns (first registration wins) |
| Formats.RegisteredFormats | mrg-io/src/main/java/org/mulgara/mrg/io/IOUtils.java:60-69 | every registered format is one of the six library formats (RDF/XML, N-Triples, Turtle, N3, TriX, TriG) or the RDFa format |
| Formats.RegisteredMimeTypesResolve | mrg-io/src/main/java/org/mulgara/mrg/io/IOUtils.java:60-69 | a MIME type whose lower-case form a row of the registry lists, RDFa's two included, resolves to that row's format |
| Formats.RegisteredExtensionsResolve | mrg-io/src/main/java/org/mulgara/mrg/io/IOUtils.java:60-69 | a file name `stem.ext` whose extension, lower-cased, a row lists resolves to that row's format; ".xml", listed by two rows, resolves to the earlier one, RDF/XML |
| Formats.ExtensionOfDottedName | mrg-io/src/main/java/org/mulgara/mrg/io/IOUtils.java:259 | the extension of `stem.ext` is `ext` whenever `ext` holds no dot or path separator |
| Formats.TurtleAndN3TypesUnregistered | mrg-io/src/main/java/org/mulgara/mrg/io/IOUtils.java:169-176 | "text/turtle" and "text/n3" are not registered MIME types, so the lookup finds nothing for them |
| IOUtils.CreateParser | mrg-io/src/main/java/org/mulgara/mrg/io/IOUtils.java:115-133 | a parser is returned only for a format it reads (RDF/XML, Turtle, N3, RDFa, TriX); every other format fails with "Unknown RDF syntax" naming the format |
| IOUtils.ParserDispatchExclusive | mrg-io/src/main/java/org/mulgara/mrg/io/IOUtils.java:115-133 | no format is read by two parser kinds, so the dispatch order does not matter |
| IOUtils.CreateWriter | mrg-io/src/main/java/org/mulgara/mrg/io/IOUtils.java:99-113 | a writer is returned only for RDF/XML, N3, Turtle and TriX; every other format fails with "Unknown RDF syntax" naming the format |
| IOUtils.WritableFormatsAreReadable | mrg-io/src/main/java/org/mulgara/mrg/io/IOUtils.java:99-133 | every format that can be written can also be parsed back |
| IOUtils.NormaliseContentType | mrg-io/src/main/java/org/mulgara/mrg/io/IOUtils.java:156-162 | the normalised type is a prefix of the lower-cased header; it is the whole header when there is no ';' or ';' comes first, otherwise it is the non-empty, ';'-free part before the first ';' |
| IOUtils.NormaliseIdempotent | mrg-io/src/main/java/org/mulgara/mrg/io/IOUtils.java:156-162 | normalising an already normalised content type changes nothing |
| IOUtils.NormaliseDropsParameters | mrg-io/src/main/java/org/mulgara/mrg/io/IOUtils.java:158-162 | a non-empty media type followed by ';' and any parameters normalises to the lower-cased media type alone |
| IOUtils.NormaliseIgnoresCase | mrg-io/src/main/java/org/mulgara/mrg/io/IOUtils.java:156 | headers that differ only in letter case normalise to the same type |
| IOUtils.FormatForContentType | mrg-io/src/main/java/org/mulgara/mrg/io/IOUtils.java:168-180 | a registered MIME type gives its format; otherwise "text/turtle" gives Turtle, "text/n3" gives N3, and anything else gives RDF/XML; the chosen format is always registered |
| IOUtils.OverridesApply | mrg-io/src/main/java/org/mulgara/mrg/io/IOUtils.java:169-176 | "text/turtle" negotiates Turtle and "text/n3" negotiates N3 |
| IOUtils.NegotiatedFormatHasParser | mrg-io/src/main/java/org/mulgara/mrg/io/IOUtils.java:168-180 | a negotiated format lacks a parser exactly when the content type is registered to N-Triples or TriG |
| IOUtils.PlainTextHasNoParser | mrg-io/src/main/java/org/mulgara/mrg/io/IOUtils.java:168-180 | a "text/plain" response, in any letter case, negotiates N-Triples, for which parser creation fails |
| IOUtils.GunzipIgnoresCase | mrg-io/src/main/java/org/mulgara/mrg/io/IOUtils.java:163-167 | the gzip decision ignores the case of the Content-Encoding value, and a lower-case value asks for it exactly when it is "gzip" |
| IOUtils.GunzipRequested | mrg-io/src/main/java/org/mulgara/mrg/io/IOUtils.java:165 | only a Content-Encoding header that is present and four characters long can ask for decompression |
| IOUtils.ParseResult | mrg-io/src/main/java/org/mulgara/mrg/io/IOUtils.java:284-298 | parsing fails when the format has no parser; otherwise it yields the triples of every reported statement, in order, or a failure |
| IOUtils.ParseFailure | mrg-io/src/main/java/org/mulgara/mrg/io/IOUtils.java:291-296 | a library exception always leaves parse as an IOException: its own cause when that is an IOException, otherwise a new IOException caused by it; any other exception passes through unchanged |
| IOUtils.Parse | mrg-io/src/main/java/org/mulgara/mrg/io/IOUtils.java:284-298 | a fresh, valid graph whose triples are what `ParseResult` specifies, built by handing each reported statement to the handler |
| IOUtils.ParseFailuresAreIOExceptions | mrg-io/src/main/java/org/mulgara/mrg/io/IOUtils.java:288-296 | when the parser throws only what it declares, every failure of `parse` is an IOException, except the IllegalArgumentException of a literal datatype the URI check rejects |
| IOUtils.ParseKeepsEveryStatement | mrg-io/src/main/java/org/mulgara/mrg/io/IOUtils.java:284-298 | a successful parse holds one triple per reported statement, and restoring each triple gives that statement back |
| IOUtils.ParseIsFormatIndependent | mrg-io/src/main/java/org/mulgara/mrg/io/IOUtils.java:284-289 | two formats whose parsers both exist and report the same run over the input give the same triples or the same failure: the graph depends on the syntax only through what its parser reports |
| IOUtils.LoadUrl | mrg-io/src/main/java/org/mulgara/mrg/io/IOUtils.java:142-189 | a URL that fails the URI check is an IOException around the URISyntaxException; with a content type, the normalised and negotiated format parses the buffered (and, for gzip, gunzipped) body with the URL as base; without one, the URL is loaded by its file name |
| IOUtils.LoadFromUrl | mrg-io/src/main/java/org/mulgara/mrg/io/IOUtils.java:254-260 | no file name fails with "No file name found"; a failed stream is an IOException; otherwise the format of the file name, RDF/XML by default, parses the stream |
| IOUtils.LoadFile | mrg-io/src/main/java/org/mulgara/mrg/io/IOUtils.java:230-244 | a file is loaded through its URL with that URL as base URI |
| IOUtils.LoadResource | mrg-io/src/main/java/org/mulgara/mrg/io/IOUtils.java:198-209 | a name not on the classpath fails with "File not found" naming it and never yields a graph; a base URL the URI check rejects is an IOException around the URISyntaxException; otherwise the resource is loaded as written with its own URL as base, so an unregistered extension throws NullPointerException |
| IOUtils.LoadResourceWithBase | mrg-io/src/main/java/org/mulgara/mrg/io/IOUtils.java:219-221 | as written: NullPointerException when no row lists the extension, otherwise the resource's stream parsed in its extension's format, as `ResourceLoadAsWritten` says |
| IOUtils.ResourceLoadAsWritten | mrg-io/src/main/java/org/mulgara/mrg/io/IOUtils.java:219-221 | as written, a load succeeds only for a registered extension, and an unregistered one throws NullPointerException |
| IOUtils.AsWrittenNullPointerExactlyForUnknownExtension | mrg-io/src/main/java/org/mulgara/mrg/io/IOUtils.java:220 | when the parser throws only what it declares, the load as written throws NullPointerException exactly when no row lists the extension |
| IOUtils.UnknownResourceExtensionThrowsNullPointer | mrg-io/src/main/java/org/mulgara/mrg/io/IOUtils.java:220 | a resource named `stem.json` makes the load as written throw NullPointerException |
| IOUtils.ResourceFormat | mrg-io/src/main/java/org/mulgara/mrg/io/IOUtils.java:220 | the resource's format is the one its extension registers, RDF/XML otherwise, and always a registered format |
| IOUtils.ResourceLoadCorrected | mrg-io/src/main/java/org/mulgara/mrg/io/IOUtils.java:219-221 | the corrected load agrees with the code for every registered extension and parses any other resource as RDF/XML |
| IOUtils.ResourceLoadFailuresAreIOExceptions | mrg-io/src/main/java/org/mulgara/mrg/io/IOUtils.java:219-221 | when the parser throws only what it declares, the corrected load fails at worst with an IOException or the datatype IllegalArgumentException, and a resource with an unregistered extension always has a parser |
| IOUtils.UnknownResourceExtensionParsesAsRdfXml | mrg-io/src/main/java/org/mulgara/mrg/io/IOUtils.java:220 | the `stem.json` resource the code fails on is parsed as RDF/XML by the corrected load |
| IOUtils.LoadResourceWithDefault | mrg-io/src/main/java/org/mulgara/mrg/io/IOUtils.java:219-221 | the corrected loader: its graph is what `ResourceLoadCorrected` specifies |
| StatementHandling.TermOf | mrg-io/src/main/java/org/mulgara/mrg/io/StatementHandler.java:70-103 | the term a node came from keeps the node's kind: blank node, URI or literal |
| StatementHandling.UriNode | mrg-io/src/main/java/org/mulgara/mrg/io/StatementHandler.java:72 | a URI node is built exactly when the string passes the URI check; otherwise it fails with URISyntaxException on that string |
| StatementHandling.SubjectNode | mrg-io/src/main/java/org/mulgara/mrg/io/StatementHandler.java:70-73 | a blank node keeps its label and any other resource becomes a URI node; it succeeds exactly when the URI check accepts, and the node stands for the input term |
| StatementHandling.PredicateNode | mrg-io/src/main/java/org/mulgara/mrg/io/StatementHandler.java:82-84 | a predicate becomes a URI node exactly when its URI passes the check, and fails with URISyntaxException otherwise |
| StatementHandling.ObjectNode | mrg-io/src/main/java/org/mulgara/mrg/io/StatementHandler.java:93-103 | blank nodes, literals (label, language, datatype) and URIs convert to the node of the same kind and content; a malformed URI fails with URISyntaxException and a malformed datatype with IllegalArgumentException |
| StatementHandling.TranslateStatement | mrg-io/src/main/java/org/mulgara/mrg/io/StatementHandler.java:52-56 | a statement converts exactly when all three terms do; the triple is well-roled and restores to the statement; failures are reported subject first, then predicate, then object |
| StatementHandling.HandlerFailure | mrg-io/src/main/java/org/mulgara/mrg/io/StatementHandler.java:58-60 | a URISyntaxException leaves as a library exception caused by it, which parse then wraps; a library exception comes out exactly when one went in or a URISyntaxException did; any other exception, such as the datatype IllegalArgumentException, passes through unchanged |
| StatementHandling.StatementHandler.constructor | mrg-io/src/main/java/org/mulgara/mrg/io/StatementHandler.java:44-46 | the handler appends to the graph it is given |
| StatementHandling.StatementHandler.HandleStatement | mrg-io/src/main/java/org/mulgara/mrg/io/StatementHandler.java:52-61 | the graph gains exactly the statement's triple, or is left unchanged while the (mapped) conversion failure is thrown |
| StatementHandling.TranslateAll | mrg-io/src/main/java/org/mulgara/mrg/io/StatementHandler.java:52-61 | translating a document gives one well-roled triple per statement, or a failure |
| StatementHandling.TranslateAllKeepsFailure | mrg-io/src/main/java/org/mulgara/mrg/io/StatementHandler.java:52-61 | once a statement fails, later statements do not change the outcome |
| StatementHandling.TranslateAllPointwise | mrg-io/src/main/java/org/mulgara/mrg/io/StatementHandler.java:52-61 | the document translates exactly when every statement does, and then the i-th triple is the i-th statement's |
| StatementHandling.TranslateAllFirstFailure | mrg-io/src/main/java/org/mulgara/mrg/io/StatementHandler.java:52-61 | a failed translation reports the failure of the first statement that does not convert |
| StatementHandling.BlankNodeLabelsShareOneNode | mrg-io/src/test/java/org/mulgara/mrg/io/TestIOUtils.java:69-79 | every statement whose subject is a given blank-node label gets that same blank node as subject, and likewise for objects, so all occurrences of a label share one node |
| StatementHandling.TranslateAllRoundTrip | mrg-io/src/main/java/org/mulgara/mrg/io/StatementHandler.java:70-103 | translation loses nothing: each triple restores to the statement it came from |
| Errors.WrapInIOException | mrg-io/src/main/java/org/mulgara/mrg/io/IOUtils.java:295 | `new IOException(cause)` is an IOException whose cause is the wrapped exception |
| Graphs.Graph.constructor | mrg-io/src/main/java/org/mulgara/mrg/io/IOUtils.java:286 | a new graph is empty |
| Graphs.Graph.Insert | mrg-io/src/main/java/org/mulgara/mrg/io/StatementHandler.java:54-56 | inserting appends exactly the given triple and keeps subjects as URIs or blank nodes and predicates as URIs |

## Left out

- Network and stream I/O: opening the connection, the request headers (Accept, Accept-Charset, Accept-Encoding, User-Agent), reading the body, `openStream` and `getResourceAsStream`. These appear only as inputs to the model: the response, the fetched bytes and the classpath entry.
- The Accept header's value is only sent to the server, so it is not modelled. Its third media type is spelled "test/n3" (IOUtils.java:90).
- Gzip decompression and buffering only wrap the stream (`Gunzipped`, `Buffered`). A body that is not gzip data fails when the parser reads it, not when the stream is wrapped at IOUtils.java:166. So for a format without a parser, the model reports "Unknown RDF syntax" where the code would first report the gzip error.
- The URL connection's own failures (`getInputStream` throwing for an HTTP error) are not modelled. Only the re-opened stream of the file-name path can fail (`Fetch`).
- Charsets, and the format descriptors' charset and namespace flags, are not modelled.
- The parser grammars are not modelled. Each parser is the opaque `document` function.
- Formats.Lookup: the parser library's own `forMIMEType` and `forFileName` are not part of this model. The lookup is one pass over the table in registration order, so ".xml", which two rows list, resolves to RDF/XML. Any preference the library gives to a format's default type or extension is not modelled.
- The format table is fixed. The static registration of RDFa has already happened, and the library's formats are those of the 2.x parser library (Turtle as "application/x-turtle", N3 as "text/rdf+n3").
- Strings.Lower: covers ASCII letters only. Java's `toLowerCase()` also folds non-ASCII letters and depends on the default locale (under a Turkish locale 'I' becomes a dotless 'ı'); `equalsIgnoreCase` also folds non-ASCII letters.
- Streams are never closed by the code, and the model has no streams to close.
- The `URISyntaxException` catch at IOUtils.java:186-188 is modelled together with the check at line 151. The model has one URI check per string, so a URL that passed at line 151 passes again at 184. The catch at 206-208 is the only URI check in `loadGraph(String)` and is modelled as such in `LoadResource`.
- `loadGraph(File, URI)` is `LoadFromUrl` with the caller's base URI. Turning a file into a URL is not modelled; it does not fail for a file path.
- The three-argument `parse` and `GraphImplFactory` are covered by `Parse`, which always creates a fresh `Graph`.
- `createWriter` returns the writer kind only. The output stream it writes to is not modelled.
- Exception messages are structured values (`UnknownRdfSyntax(format)`, `FileNotFound(name)`) rather than rendered text.
- The graph's query methods, which the tests use, are not part of the I/O layer.

## Findings

| source | as written | input that shows it | evidently intended | confidence | as-written member | corrected member |
|---|---|---|---|---|---|---|
| mrg-io/src/main/java/org/mulgara/mrg/io/IOUtils.java:220 | the one-argument `forFileName` returns null for an unregistered extension; `createParser` then dereferences it when building its message (line 132) and throws NullPointerException | `loadGraph("/graph.json")` for a resource that exists on the classpath | fall back to RDF/XML, as `_loadGraph` does at line 259, so the failure is at worst an IOException | medium, not executed | IOUtils.ResourceLoadAsWritten | IOUtils.ResourceLoadCorrected |
