/** An abstract parsed HTML document: the nodes in document order, each with its tag
    name, its text content, its attributes and the index of its parent, together with
    an XPath query capability whose expression semantics is left uninterpreted. */
module Dom {
  import opened Wrappers

  type NodeId = nat

  /** One element: `nodeValue` (its text content), its attributes and its parent. */
  datatype Node = Node(tag: string, text: string, attributes: map<string, string>, parent: Option<NodeId>)

  /** The context an XPath expression is evaluated in: the whole document (no context
      node, or a context node that is null) or a given node. */
  datatype Context = WholeDocument | Relative(node: NodeId)

  datatype RawDocument = RawDocument(nodes: seq<Node>, query: (string, Context) -> seq<NodeId>)

  /** Nodes are numbered in document order, so a parent always precedes its children, and
      every query yields nodes of the document. */
  ghost predicate WellFormed(d: RawDocument) {
    && (forall i :: 0 <= i < |d.nodes| && d.nodes[i].parent.Some? ==> d.nodes[i].parent.value < i)
    && (forall e, c, k :: 0 <= k < |d.query(e, c)| ==> d.query(e, c)[k] < |d.nodes|)
  }

  type Document = d: RawDocument | WellFormed(d) witness RawDocument([], (e, c) => [])

  predicate AllNodes(d: Document, ns: seq<NodeId>) {
    forall k :: 0 <= k < |ns| ==> ns[k] < |d.nodes|
  }

  /** DOMElement::getAttribute: the attribute's value, or the empty string when absent. */
  function AttributeOf(d: Document, n: NodeId, name: string): (r: string)
    requires n < |d.nodes|
    ensures name in d.nodes[n].attributes ==> r == d.nodes[n].attributes[name]
    ensures name !in d.nodes[n].attributes ==> r == ""
  {
    if name in d.nodes[n].attributes then d.nodes[n].attributes[name] else ""
  }

  /** The context an expression is evaluated in when it is evaluated at the parent of `n`. */
  function ParentContext(d: Document, n: NodeId): (c: Context)
    requires n < |d.nodes|
    ensures c.Relative? ==> c.node < n && d.nodes[n].parent == Some(c.node)
    ensures c == WholeDocument <==> d.nodes[n].parent.None?
  {
    match d.nodes[n].parent
    case Some(p) => Relative(p)
    case None => WholeDocument
  }

  /** `a` is a proper ancestor of `i`. */
  predicate IsAncestor(d: Document, a: NodeId, i: NodeId)
    requires i < |d.nodes|
    decreases i
  {
    match d.nodes[i].parent
    case None => false
    case Some(p) => p == a || IsAncestor(d, a, p)
  }

  lemma {:induction false} AncestorPrecedes(d: Document, a: NodeId, i: NodeId)
    requires i < |d.nodes|
    requires IsAncestor(d, a, i)
    ensures a < i
  {
    var p := d.nodes[i].parent.value;
    if p != a {
      AncestorPrecedes(d, a, p);
    }
  }

  /** The descendants of `n` tagged `tag` among the nodes from index `lo` on, in
      document order. */
  function DescendantsFrom(d: Document, n: NodeId, tag: string, lo: nat): (r: seq<NodeId>)
    decreases |d.nodes| - lo
    ensures forall k :: 0 <= k < |r| ==> lo <= r[k] < |d.nodes| && d.nodes[r[k]].tag == tag && IsAncestor(d, n, r[k])
    ensures forall k, l :: 0 <= k < l < |r| ==> r[k] < r[l]
    ensures forall i :: lo <= i < |d.nodes| && d.nodes[i].tag == tag && IsAncestor(d, n, i) ==> i in r
  {
    if lo >= |d.nodes| then []
    else
      var rest := DescendantsFrom(d, n, tag, lo + 1);
      if d.nodes[lo].tag == tag && IsAncestor(d, n, lo) then [lo] + rest else rest
  }

  /** DOMElement::getElementsByTagName: every descendant of `n` (not only its children)
      whose tag is `tag`, each once, in document order. */
  function ElementsByTagName(d: Document, n: NodeId, tag: string): (r: seq<NodeId>)
    ensures AllNodes(d, r)
    ensures forall k :: 0 <= k < |r| ==> d.nodes[r[k]].tag == tag && IsAncestor(d, n, r[k])
    ensures forall k, l :: 0 <= k < l < |r| ==> r[k] < r[l]
    ensures forall i :: 0 <= i < |d.nodes| && d.nodes[i].tag == tag && IsAncestor(d, n, i) ==> i in r
  {
    var r := DescendantsFrom(d, n, tag, n + 1);
    assert forall i :: 0 <= i < |d.nodes| && d.nodes[i].tag == tag && IsAncestor(d, n, i) ==> i in r by {
      forall i | 0 <= i < |d.nodes| && d.nodes[i].tag == tag && IsAncestor(d, n, i) ensures i in r {
        AncestorPrecedes(d, n, i);
      }
    }
    r
  }
}
