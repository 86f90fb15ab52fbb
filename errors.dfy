/** The Java exceptions the loader raises, passes on or wraps. */
module Errors {
  import opened Wrappers
  import opened Formats

  /** The detail message of an IOException. */
  datatype Message =
    | UnknownRdfSyntax(format: Format)  // no parser or writer for the format, named in the message
    | FileNotFound(fileName: string)    // a classpath name that did not resolve
    | NoFileNameFound                   // a URL without a file part
    | Detail(text: string)              // a message supplied by a stream or the network
    | DescribesCause                    // the message of an IOException built around a cause

  datatype Exception =
    | IOException(message: Message, cause: Option<Exception>)
    | UriSyntaxException(input: string)          // java.net.URISyntaxException
    | IllegalArgumentException(input: string)    // raised by java.net.URI.create
    | RdfParseException(detail: string, cause: Option<Exception>)
    | RdfHandlerException(handlerCause: Exception)
    | NullPointerException
  {
    /** The exception's cause, as Throwable.getCause reports it. */
    function Cause(): Option<Exception> {
      match this
      case IOException(_, c) => c
      case RdfParseException(_, c) => c
      case RdfHandlerException(c) => Some(c)
      case _ => None
    }

    /** OpenRDFException and its subclasses, the parsing library's checked
        exceptions. */
    predicate IsOpenRdf() {
      RdfParseException? || RdfHandlerException?
    }
  }

  /** new IOException(cause). */
  function WrapInIOException(cause: Exception): (r: Exception)
    ensures r.IOException? && r.Cause() == Some(cause)
  {
    IOException(DescribesCause, Some(cause))
  }
}
