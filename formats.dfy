/** The RDF serialisation formats and the registry that resolves a MIME type
    or a file name to one of them. */
module Formats {
  import opened Wrappers
  import opened Strings

  /** Format descriptors, compared by identity in the loader. The six library
      constants, the RDFa descriptor the loader registers itself, the
      separate RDFa-in-HTML descriptor of the RDFa parser library, and any
      other descriptor some other code may create. */
  datatype Format =
    | RdfXml
    | NTriples
    | Turtle
    | N3
    | TriX
    | TriG
    | Rdfa
    | RdfaHtml
    | OtherFormat(name: string)

  /** One registry row: a format with its MIME types and file extensions,
      both kept in lower case. */
  datatype Descriptor = Descriptor(format: Format, mimeTypes: seq<string>, extensions: seq<string>)

  datatype KeyKind = ByMimeType | ByExtension

  function Keys(d: Descriptor, kind: KeyKind): seq<string> {
    match kind
    case ByMimeType => d.mimeTypes
    case ByExtension => d.extensions
  }

  /** The registry in registration order: the parsing library's defaults,
      then the RDFa descriptor added when the loader is initialised. */
  const Registry: seq<Descriptor> := [
    Descriptor(RdfXml, ["application/rdf+xml", "application/xml"], ["rdf", "rdfs", "owl", "xml"]),
    Descriptor(NTriples, ["text/plain"], ["nt"]),
    Descriptor(Turtle, ["application/x-turtle"], ["ttl"]),
    Descriptor(N3, ["text/rdf+n3"], ["n3"]),
    Descriptor(TriX, ["application/trix"], ["xml", "trix"]),
    Descriptor(TriG, ["application/x-trig"], ["trig"]),
    Descriptor(Rdfa, ["application/xhtml+xml", "text/html"], ["html", "xhtml", "htm"])
  ]

  predicate Registered(table: seq<Descriptor>, f: Format) {
    exists i :: 0 <= i < |table| && table[i].format == f
  }

  /** Row i is the first row of the table that lists the key. */
  predicate FirstMatch(table: seq<Descriptor>, kind: KeyKind, key: string, i: int) {
    && 0 <= i < |table|
    && key in Keys(table[i], kind)
    && forall j :: 0 <= j < i ==> key !in Keys(table[j], kind)
  }

  /** Looks a lower-cased key up in the table: the format of the first row
      listing it, or nothing when no row does. */
  function Lookup(table: seq<Descriptor>, kind: KeyKind, key: string): (r: Option<Format>)
    ensures r.None? <==> forall i :: 0 <= i < |table| ==> Lower(key) !in Keys(table[i], kind)
    ensures r.Some? ==> exists i :: FirstMatch(table, kind, Lower(key), i) && r.value == table[i].format
  {
    if |table| == 0 then None
    else if Lower(key) in Keys(table[0], kind) then
      assert FirstMatch(table, kind, Lower(key), 0);
      Some(table[0].format)
    else
      var r := Lookup(table[1..], kind, key);
      assert forall i :: 1 <= i < |table| ==> table[i] == table[1..][i - 1];
      assert r.Some? ==> exists i :: FirstMatch(table, kind, Lower(key), i) && r.value == table[i].format by {
        if r.Some? {
          var i :| FirstMatch(table[1..], kind, Lower(key), i) && r.value == table[1..][i].format;
          assert FirstMatch(table, kind, Lower(key), i + 1);
        }
      }
      r
  }

  /** Only one row can be the first to list a key. */
  lemma FirstMatchUnique(table: seq<Descriptor>, kind: KeyKind, key: string, i: int, j: int)
    requires FirstMatch(table, kind, key, i) && FirstMatch(table, kind, key, j)
    ensures i == j
  {
  }

  /** A key listed by row i and by no earlier row resolves to row i's format,
      whatever its case. */
  lemma LookupFindsRow(table: seq<Descriptor>, kind: KeyKind, key: string, i: int)
    requires FirstMatch(table, kind, Lower(key), i)
    ensures Lookup(table, kind, key) == Some(table[i].format)
  {
    var r := Lookup(table, kind, key);
    var j :| FirstMatch(table, kind, Lower(key), j) && r.value == table[j].format;
    FirstMatchUnique(table, kind, Lower(key), i, j);
  }

  /** RDFFormat.forMIMEType. */
  function ForMimeType(mimeType: string): (r: Option<Format>)
    ensures r.None? <==> forall i :: 0 <= i < |Registry| ==> Lower(mimeType) !in Registry[i].mimeTypes
    ensures r.Some? ==> Registered(Registry, r.value)
  {
    Lookup(Registry, ByMimeType, mimeType)
  }

  /** The extension of a file name: what follows its last dot, provided no
      path separator follows that dot. */
  function FileExtension(name: string): (r: Option<string>)
    ensures r.Some? ==> |r.value| < |name| && name == name[..|name| - |r.value| - 1] + "." + r.value
    ensures r.Some? ==> '.' !in r.value && '/' !in r.value && '\\' !in r.value
  {
    if |name| == 0 then None
    else
      var c := name[|name| - 1];
      if c == '.' then Some("")
      else if c == '/' || c == '\\' then None
      else
        match FileExtension(name[..|name| - 1])
        case None => None
        case Some(e) => Some(e + [c])
  }

  /** A name built from a stem, a dot and an extension without dots or path
      separators has exactly that extension. */
  lemma {:induction false} ExtensionOfDottedName(stem: string, ext: string)
    requires '.' !in ext && '/' !in ext && '\\' !in ext
    ensures FileExtension(stem + "." + ext) == Some(ext)
  {
    var name := stem + "." + ext;
    if |ext| == 0 {
      assert name[|name| - 1] == '.';
    } else {
      var last := ext[|ext| - 1];
      var shorter := ext[..|ext| - 1];
      assert name[|name| - 1] == last && last in ext;
      assert name[..|name| - 1] == stem + "." + shorter;
      assert '.' !in shorter && '/' !in shorter && '\\' !in shorter;
      ExtensionOfDottedName(stem, shorter);
      assert shorter + [last] == ext;
    }
  }

  /** RDFFormat.forFileName(name): the format registered for the file's
      extension, or nothing. */
  function ForFileName(name: string): (r: Option<Format>)
    ensures r.None? <==>
      || FileExtension(name).None?
      || forall i :: 0 <= i < |Registry| ==> Lower(FileExtension(name).value) !in Registry[i].extensions
    ensures r.Some? ==> Registered(Registry, r.value)
  {
    match FileExtension(name)
    case None => None
    case Some(ext) => Lookup(Registry, ByExtension, ext)
  }

  /** RDFFormat.forFileName(name, fallback). */
  function ForFileNameOr(name: string, fallback: Format): (f: Format)
    ensures ForFileName(name).Some? ==> f == ForFileName(name).value
    ensures ForFileName(name).None? ==> f == fallback
    ensures Registered(Registry, fallback) ==> Registered(Registry, f)
  {
    ForFileName(name).GetOr(fallback)
  }

  /** No MIME type is listed by two rows of the registry. */
  lemma RegistryMimeTypesDistinct(i: int, mimeType: string)
    requires 0 <= i < |Registry| && mimeType in Registry[i].mimeTypes
    ensures FirstMatch(Registry, ByMimeType, mimeType, i)
  {
    assert forall j :: 0 <= j < i ==> mimeType !in Registry[j].mimeTypes;
  }

  /** A MIME type that, lower-cased, a row of the registry lists resolves
      to that row's format. */
  lemma RegisteredMimeTypesResolve(i: int, mimeType: string)
    requires 0 <= i < |Registry| && Lower(mimeType) in Registry[i].mimeTypes
    ensures ForMimeType(mimeType) == Some(Registry[i].format)
  {
    RegistryMimeTypesDistinct(i, Lower(mimeType));
    LookupFindsRow(Registry, ByMimeType, mimeType, i);
  }

  /** Apart from "xml", listed by RDF/XML and by TriX, no extension is
      listed by two rows of the registry. */
  lemma RegistryExtensionsDistinct(i: int, ext: string)
    requires 0 <= i < |Registry| && ext in Registry[i].extensions
    requires !(Registry[i].format == TriX && ext == "xml")
    ensures FirstMatch(Registry, ByExtension, ext, i)
  {
    assert forall j :: 0 <= j < i ==> ext !in Registry[j].extensions;
  }

  /** A file named stem.ext resolves to the row listing ext in lower case;
      the one extension two rows share, "xml", goes to the earlier row,
      RDF/XML. */
  lemma RegisteredExtensionsResolve(i: int, stem: string, ext: string)
    requires '.' !in ext && '/' !in ext && '\\' !in ext
    requires 0 <= i < |Registry| && Lower(ext) in Registry[i].extensions
    requires !(Registry[i].format == TriX && Lower(ext) == "xml")
    ensures ForFileName(stem + "." + ext) == Some(Registry[i].format)
  {
    ExtensionOfDottedName(stem, ext);
    assert ForFileName(stem + "." + ext) == Lookup(Registry, ByExtension, ext);
    RegistryExtensionsDistinct(i, Lower(ext));
    LookupFindsRow(Registry, ByExtension, ext, i);
  }

  /** No row of the registry lists "json". */
  lemma NoRowListsJson(ext: string)
    requires ext == "json"
    ensures forall i :: 0 <= i < |Registry| ==> ext !in Registry[i].extensions
  {
    forall i, e | 0 <= i < |Registry| && e in Registry[i].extensions
      ensures e != ext
    {
      if |e| == 4 {
        assert e[0] != ext[0];
      }
    }
  }

  /** The formats the registry holds. */
  lemma RegisteredFormats(f: Format)
    requires Registered(Registry, f)
    ensures f in {RdfXml, NTriples, Turtle, N3, TriX, TriG, Rdfa}
  {
  }

  /** No row of the registry lists text/turtle or text/n3: only
      "text/rdf+n3" has the length of one of them, and it differs from
      "text/turtle" after the slash. */
  lemma NoRowListsTurtleOrN3(key: string)
    requires key == "text/turtle" || key == "text/n3"
    ensures forall i :: 0 <= i < |Registry| ==> key !in Registry[i].mimeTypes
  {
    forall i, m | 0 <= i < |Registry| && m in Registry[i].mimeTypes
      ensures m != key
    {
      if m == "text/rdf+n3" && key == "text/turtle" {
        assert m[5] != key[5];
      }
    }
  }

  /** The registry knows neither text/turtle nor text/n3. */
  lemma TurtleAndN3TypesUnregistered(mimeType: string)
    requires mimeType == "text/turtle" || mimeType == "text/n3"
    ensures ForMimeType(mimeType) == None
  {
    LowerOfLowerCase(mimeType);
    NoRowListsTurtleOrN3(mimeType);
  }
}
