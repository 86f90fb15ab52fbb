/** The statement handler: converts each statement a parser reports into
    the graph's node model and appends it to the graph. */
module StatementHandling {
  import opened Wrappers
  import opened Errors
  import opened RdfTerms
  import opened Graphs

  /** The parser term a node stands for: the inverse of the conversions. */
  function TermOf(n: Node): (v: Value)
    ensures v.BNodeTerm? <==> n.Bnode?
    ensures v.UriTerm? <==> n.Uri?
    ensures v.LiteralTerm? <==> n.Literal?
  {
    match n
    case Uri(u) => UriTerm(u)
    case Bnode(id) => BNodeTerm(id)
    case Literal(text, lang, typeUri) => LiteralTerm(text, lang, typeUri)
  }

  /** The strings a conversion hands to a URI constructor: the URI itself,
      or a literal's datatype. */
  function UriStrings(v: Value): set<string> {
    match v
    case UriTerm(u) => {u}
    case LiteralTerm(_, _, Some(d)) => {d}
    case _ => {}
  }

  /** Every URI the conversion of v checks is accepted by the URI syntax check. */
  predicate Convertible(v: Value, isUri: string -> bool) {
    forall u :: u in UriStrings(v) ==> isUri(u)
  }

  /** new Uri(String): fails with URISyntaxException on malformed input. */
  function UriNode(u: string, isUri: string -> bool): (r: Result<Node, Exception>)
    ensures r.Success? <==> isUri(u)
    ensures r.Success? ==> TermOf(r.value) == UriTerm(u)
    ensures r.Failure? ==> r.error == UriSyntaxException(u)
  {
    if isUri(u) then Success(Uri(u)) else Failure(UriSyntaxException(u))
  }

  /** toNode(Resource): a blank node keeps its label, any other resource
      becomes a URI node of its string value. */
  function SubjectNode(s: Resource, isUri: string -> bool): (r: Result<Node, Exception>)
    ensures r.Success? <==> Convertible(s, isUri)
    ensures r.Success? ==> IsSubjectNode(r.value) && TermOf(r.value) == s
    ensures r.Failure? ==> r.error == UriSyntaxException(StringValue(s))
  {
    if s.BNodeTerm? then Success(Bnode(StringValue(s)))
    else UriNode(StringValue(s), isUri)
  }

  /** toNode(URI): a predicate always becomes a URI node. */
  function PredicateNode(p: UriRef, isUri: string -> bool): (r: Result<Node, Exception>)
    ensures r.Success? <==> Convertible(p, isUri)
    ensures r.Success? ==> r.value.Uri? && TermOf(r.value) == p
    ensures r.Failure? ==> r.error == UriSyntaxException(p.uri)
  {
    UriNode(p.uri, isUri)
  }

  /** toNode(Value): blank node first, then literal, otherwise URI. A
      literal keeps its text and language; its datatype goes through
      java.net.URI.create, which fails with IllegalArgumentException. */
  function ObjectNode(o: Value, isUri: string -> bool): (r: Result<Node, Exception>)
    ensures r.Success? <==> Convertible(o, isUri)
    ensures r.Success? ==> TermOf(r.value) == o
    ensures r.Failure? && o.UriTerm? ==> r.error == UriSyntaxException(o.uri)
    ensures r.Failure? && !o.UriTerm? ==>
      o.LiteralTerm? && o.typeUri.Some? && r.error == IllegalArgumentException(o.typeUri.value)
  {
    if o.BNodeTerm? then Success(Bnode(StringValue(o)))
    else if o.LiteralTerm? then
      if o.typeUri.Some? && !isUri(o.typeUri.value) then Failure(IllegalArgumentException(o.typeUri.value))
      else Success(Literal(o.lexicalForm, o.language, o.typeUri))
    else UriNode(StringValue(o), isUri)
  }

  /** The statement a well-roled triple was translated from. */
  function Restore(t: Triple): (s: Statement)
    requires WellRoled(t)
  {
    Statement(TermOf(t.subj), TermOf(t.pred), TermOf(t.obj))
  }

  /** The three conversions of one statement, evaluated subject first, then
      predicate, then object; the first failure is the statement's. */
  function TranslateStatement(stmt: Statement, isUri: string -> bool): (r: Result<Triple, Exception>)
    ensures r.Success? <==>
      Convertible(stmt.subj, isUri) && Convertible(stmt.pred, isUri) && Convertible(stmt.obj, isUri)
    ensures r.Success? ==> WellRoled(r.value) && Restore(r.value) == stmt
    ensures !Convertible(stmt.subj, isUri) ==> r == Failure(UriSyntaxException(StringValue(stmt.subj)))
    ensures Convertible(stmt.subj, isUri) && !Convertible(stmt.pred, isUri) ==>
      r == Failure(UriSyntaxException(stmt.pred.uri))
    ensures Convertible(stmt.subj, isUri) && Convertible(stmt.pred, isUri) && !Convertible(stmt.obj, isUri) ==>
      && r.Failure?
      && (r.error.UriSyntaxException? || r.error.IllegalArgumentException?)
      && r.error.input in UriStrings(stmt.obj) && !isUri(r.error.input)
  {
    var s := SubjectNode(stmt.subj, isUri);
    if s.Failure? then Failure(s.error)
    else
      var p := PredicateNode(stmt.pred, isUri);
      if p.Failure? then Failure(p.error)
      else
        var o := ObjectNode(stmt.obj, isUri);
        if o.Failure? then Failure(o.error)
        else Success(Triple(s.value, p.value, o.value))
  }

  /** The catch clause of handleStatement: a URISyntaxException is
      rethrown as an RDFHandlerException, a library exception whose cause
      is the URISyntaxException; the unchecked exception of
      java.net.URI.create passes through. */
  function HandlerFailure(e: Exception): (r: Exception)
    ensures e.UriSyntaxException? ==> r.IsOpenRdf() && r.Cause() == Some(e)
    ensures r.IsOpenRdf() <==> e.UriSyntaxException? || e.IsOpenRdf()
    ensures !e.UriSyntaxException? ==> r == e
  {
    if e.UriSyntaxException? then RdfHandlerException(e) else e
  }

  class StatementHandler {
    const graph: Graph

    constructor (graph: Graph)
      ensures this.graph == graph
    {
      this.graph := graph;
    }

    /** Converts the statement and appends exactly one triple to the graph,
        or throws and leaves the graph as it was. */
    method HandleStatement(stmt: Statement, isUri: string -> bool) returns (thrown: Option<Exception>)
      requires graph.Valid()
      modifies graph
      ensures graph.Valid()
      ensures thrown.None? <==> TranslateStatement(stmt, isUri).Success?
      ensures thrown.None? ==> graph.triples == old(graph.triples) + [TranslateStatement(stmt, isUri).value]
      ensures thrown.Some? ==>
        graph.triples == old(graph.triples) && thrown.value == HandlerFailure(TranslateStatement(stmt, isUri).error)
    {
      var s := SubjectNode(stmt.subj, isUri);
      if s.Failure? {
        return Some(HandlerFailure(s.error));
      }
      var p := PredicateNode(stmt.pred, isUri);
      if p.Failure? {
        return Some(HandlerFailure(p.error));
      }
      var o := ObjectNode(stmt.obj, isUri);
      if o.Failure? {
        return Some(HandlerFailure(o.error));
      }
      graph.Insert(s.value, p.value, o.value);
      return None;
    }
  }

  /** What the handler makes of a sequence of statements: their triples in
      order, or the first statement's failure. */
  function TranslateAll(stmts: seq<Statement>, isUri: string -> bool): (r: Result<seq<Triple>, Exception>)
    ensures r.Success? ==> |r.value| == |stmts|
    ensures r.Success? ==> forall i :: 0 <= i < |r.value| ==> WellRoled(r.value[i])
  {
    if |stmts| == 0 then Success([])
    else
      match TranslateAll(stmts[..|stmts| - 1], isUri)
      case Failure(e) => Failure(e)
      case Success(ts) =>
        match TranslateStatement(stmts[|stmts| - 1], isUri)
        case Failure(e) => Failure(e)
        case Success(t) => Success(ts + [t])
  }

  /** A failure among the first k statements is the failure of them all. */
  lemma {:induction false} TranslateAllKeepsFailure(stmts: seq<Statement>, k: nat, isUri: string -> bool)
    requires k <= |stmts| && TranslateAll(stmts[..k], isUri).Failure?
    ensures TranslateAll(stmts, isUri) == TranslateAll(stmts[..k], isUri)
  {
    if k < |stmts| {
      var front := stmts[..|stmts| - 1];
      assert front[..k] == stmts[..k];
      TranslateAllKeepsFailure(front, k, isUri);
    } else {
      assert stmts[..k] == stmts;
    }
  }

  /** The translation succeeds exactly when every statement converts, and
      then the i-th triple is the i-th statement's. */
  lemma {:induction false} TranslateAllPointwise(stmts: seq<Statement>, isUri: string -> bool)
    ensures TranslateAll(stmts, isUri).Success? <==>
      forall i :: 0 <= i < |stmts| ==> TranslateStatement(stmts[i], isUri).Success?
    ensures TranslateAll(stmts, isUri).Success? ==>
      forall i :: 0 <= i < |stmts| ==> TranslateAll(stmts, isUri).value[i] == TranslateStatement(stmts[i], isUri).value
  {
    if |stmts| > 0 {
      var front := stmts[..|stmts| - 1];
      TranslateAllPointwise(front, isUri);
      assert forall i :: 0 <= i < |front| ==> front[i] == stmts[i];
    }
  }

  /** A failed translation reports the failure of the first statement that
      does not convert; the statements before it all convert. */
  lemma {:induction false} TranslateAllFirstFailure(stmts: seq<Statement>, isUri: string -> bool)
    requires TranslateAll(stmts, isUri).Failure?
    ensures exists k :: (0 <= k < |stmts|
      && TranslateStatement(stmts[k], isUri) == Failure(TranslateAll(stmts, isUri).error)
      && forall i :: 0 <= i < k ==> TranslateStatement(stmts[i], isUri).Success?)
  {
    var front := stmts[..|stmts| - 1];
    assert forall i :: 0 <= i < |front| ==> front[i] == stmts[i];
    if TranslateAll(front, isUri).Failure? {
      TranslateAllFirstFailure(front, isUri);
      var k :| 0 <= k < |front|
        && TranslateStatement(front[k], isUri) == Failure(TranslateAll(front, isUri).error)
        && forall i :: 0 <= i < k ==> TranslateStatement(front[i], isUri).Success?;
      assert TranslateStatement(stmts[k], isUri) == Failure(TranslateAll(stmts, isUri).error);
    } else {
      TranslateAllPointwise(front, isUri);
      var k := |stmts| - 1;
      assert TranslateStatement(stmts[k], isUri) == Failure(TranslateAll(stmts, isUri).error);
    }
  }

  /** Blank-node identity within one document: every occurrence of a label,
      as the subject or the object of any statement, becomes the same
      blank node. */
  lemma BlankNodeLabelsShareOneNode(stmts: seq<Statement>, isUri: string -> bool, id: string)
    requires TranslateAll(stmts, isUri).Success?
    ensures forall i :: 0 <= i < |stmts| && stmts[i].subj == BNodeTerm(id) ==>
      TranslateAll(stmts, isUri).value[i].subj == Bnode(id)
    ensures forall i :: 0 <= i < |stmts| && stmts[i].obj == BNodeTerm(id) ==>
      TranslateAll(stmts, isUri).value[i].obj == Bnode(id)
  {
    TranslateAllPointwise(stmts, isUri);
  }

  /** The translation loses nothing: restoring each triple gives back the
      statement it came from. */
  lemma TranslateAllRoundTrip(stmts: seq<Statement>, isUri: string -> bool)
    requires TranslateAll(stmts, isUri).Success?
    ensures forall i :: 0 <= i < |stmts| ==> Restore(TranslateAll(stmts, isUri).value[i]) == stmts[i]
  {
    TranslateAllPointwise(stmts, isUri);
  }
}
