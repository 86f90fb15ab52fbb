/** The in-memory graph and its three node kinds. */
module Graphs {
  import opened Wrappers

  /** A node: a URI, a blank node known by its label, or a literal with an
      optional language tag and an optional datatype URI. Equality is
      structural, so two nodes are equal exactly when all fields agree. */
  datatype Node =
    | Uri(value: string)
    | Bnode(id: string)
    | Literal(text: string, lang: Option<string>, typeUri: Option<string>)

  /** The nodes a subject position admits (a predicate admits only Uri, an
      object any node). */
  predicate IsSubjectNode(n: Node) {
    n.Uri? || n.Bnode?
  }

  datatype Triple = Triple(subj: Node, pred: Node, obj: Node)

  predicate WellRoled(t: Triple) {
    IsSubjectNode(t.subj) && t.pred.Uri?
  }

  /** A graph that triples are appended to. */
  class Graph {
    var triples: seq<Triple>

    ghost predicate Valid()
      reads this
    {
      forall i :: 0 <= i < |triples| ==> WellRoled(triples[i])
    }

    /** GraphFactory.createGraph: a new, empty graph. */
    constructor ()
      ensures Valid() && triples == []
    {
      triples := [];
    }

    /** AppendableGraph.insert: the typed signature admits only a subject
        node, a URI predicate and an object node. */
    method Insert(subj: Node, pred: Node, obj: Node)
      requires Valid()
      requires IsSubjectNode(subj) && pred.Uri?
      modifies this
      ensures Valid()
      ensures triples == old(triples) + [Triple(subj, pred, obj)]
    {
      triples := triples + [Triple(subj, pred, obj)];
    }
  }
}
