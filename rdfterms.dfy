/** The parsing library's term model: the values a parser reports in the
    statements it emits. */
module RdfTerms {
  import opened Wrappers

  datatype Value =
    | BNodeTerm(id: string)
    | UriTerm(uri: string)
    | LiteralTerm(lexicalForm: string, language: Option<string>, typeUri: Option<string>)

  /** A Resource is a blank node or a URI; a predicate is always a URI. */
  type Resource = v: Value | !v.LiteralTerm? witness UriTerm("")
  type UriRef = v: Value | v.UriTerm? witness UriTerm("")

  datatype Statement = Statement(subj: Resource, pred: UriRef, obj: Value)

  /** Value.stringValue: the blank node's label, the URI, or the literal's label. */
  function StringValue(v: Value): string {
    match v
    case BNodeTerm(id) => id
    case UriTerm(uri) => uri
    case LiteralTerm(lexicalForm, _, _) => lexicalForm
  }
}
