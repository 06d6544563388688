/** The generic extractor: a target URL and, once the page is loaded, the query context
    over its document, with lookups that tolerate missing nodes and a lookup relative to
    a node that falls back, once, to that node's parent. */
module Extractor {
  import opened Wrappers
  import opened Dom
  import opened PhpString

  /** A failure: a PHP `Exception` with its message, or the fatal error raised when an
      attribute is read from the null first node of an empty query result. */
  datatype Error = Exception(message: string) | NoMatchingNode(expression: string)

  const NoUrlMessage := "No URL set. Use setUrl() to define the target URL."
  const LoadFailedMessage := "Failed to load HTML from the provided URL."
  const CurlErrorPrefix := "cURL error: "
  const EmptyResponsePrefix := "Empty response from URL: "

  /** getFirstNode: the first match of `expr` over the whole document, or `false`. */
  function FirstNode(d: Document, expr: string): (r: Option<NodeId>)
    ensures r.None? <==> |d.query(expr, WholeDocument)| == 0
    ensures r.Some? ==> r.value < |d.nodes| && r.value == d.query(expr, WholeDocument)[0]
  {
    var result := d.query(expr, WholeDocument);
    if |result| > 0 then Some(result[0]) else None
  }

  /** getValues: every match of `expr` over the whole document, in document order, or
      `false` when there is none. */
  function Values(d: Document, expr: string): (r: Option<seq<NodeId>>)
    ensures r.None? <==> |d.query(expr, WholeDocument)| == 0
    ensures r.Some? ==> |r.value| > 0 && AllNodes(d, r.value) && r.value == d.query(expr, WholeDocument)
  {
    var result := d.query(expr, WholeDocument);
    if |result| > 0 then Some(result) else None
  }

  /** The two lookups agree: getFirstNode finds a node exactly when getValues finds some,
      and it is the first of them. */
  lemma FirstNodeHeadsValues(d: Document, expr: string)
    ensures FirstNode(d, expr).Some? <==> Values(d, expr).Some?
    ensures FirstNode(d, expr).Some? ==> FirstNode(d, expr).value == Values(d, expr).value[0]
  {
  }

  /** getValue: the trimmed text of the first match, or `false`. */
  function Value(d: Document, expr: string): (r: Option<string>)
    ensures r.None? <==> FirstNode(d, expr).None?
    ensures r.Some? ==> r.value == Trim(d.nodes[FirstNode(d, expr).value].text)
    ensures r.Some? ==> NoEdgeTrimChars(r.value)
  {
    match FirstNode(d, expr)
    case Some(n) => Some(Trim(d.nodes[n].text))
    case None => None
  }

  /** getAttribute: the named attribute of the first match, not trimmed (the empty string
      when the node lacks it), or `false` when nothing matches. */
  function Attribute(d: Document, expr: string, name: string): (r: Option<string>)
    ensures r.None? <==> FirstNode(d, expr).None?
    ensures r.Some? ==> r.value == AttributeOf(d, FirstNode(d, expr).value, name)
  {
    match FirstNode(d, expr)
    case Some(n) => Some(AttributeOf(d, n, name))
    case None => None
  }

  /** The node getValueFromNode reads: the first match of `expr` relative to `ctx`, and
      only when there is none, the first match relative to the parent of `ctx`. */
  function LocateFromNode(d: Document, expr: string, ctx: NodeId): (r: Option<NodeId>)
    requires ctx < |d.nodes|
    ensures r.None? <==> |d.query(expr, Relative(ctx))| == 0 && |d.query(expr, ParentContext(d, ctx))| == 0
    ensures |d.query(expr, Relative(ctx))| > 0 ==> r == Some(d.query(expr, Relative(ctx))[0])
    ensures |d.query(expr, Relative(ctx))| == 0 && r.Some? ==> r.value == d.query(expr, ParentContext(d, ctx))[0]
    ensures r.Some? ==> r.value < |d.nodes|
  {
    var result := d.query(expr, Relative(ctx));
    var result := if |result| == 0 then d.query(expr, ParentContext(d, ctx)) else result;
    if |result| > 0 then Some(result[0]) else None
  }

  /** The fallback climbs exactly one level: two documents that agree on the node's own
      parent and on the two queries (at the node and at its parent) give the same node,
      whatever they answer at any other ancestor. */
  lemma LocateFromNodeClimbsOnce(d1: Document, d2: Document, expr: string, ctx: NodeId)
    requires ctx < |d1.nodes| && ctx < |d2.nodes|
    requires d1.nodes[ctx].parent == d2.nodes[ctx].parent
    requires d1.query(expr, Relative(ctx)) == d2.query(expr, Relative(ctx))
    requires d1.query(expr, ParentContext(d1, ctx)) == d2.query(expr, ParentContext(d2, ctx))
    ensures LocateFromNode(d1, expr, ctx) == LocateFromNode(d2, expr, ctx)
  {
  }

  /** getValueFromNode: the trimmed attribute `attribute` (when one is given and is a
      truthy name) or else the trimmed text of the located node. When neither query
      matched, `item(0)` is null: reading an attribute of it is a fatal error, while
      reading its `nodeValue` only warns and yields null, which `trim` turns into "". */
  function ValueFromNode(d: Document, expr: string, ctx: NodeId, attribute: Option<string>): (r: Result<string, Error>)
    requires ctx < |d.nodes|
    ensures r.Failure? <==> LocateFromNode(d, expr, ctx).None? && attribute.Some? && !IsFalsy(attribute.value)
    ensures r.Failure? ==> r.error == NoMatchingNode(expr)
    ensures r.Success? ==> NoEdgeTrimChars(r.value)
    ensures r.Success? && attribute.Some? && !IsFalsy(attribute.value) ==>
              r.value == Trim(AttributeOf(d, LocateFromNode(d, expr, ctx).value, attribute.value))
    ensures LocateFromNode(d, expr, ctx).Some? && (attribute.None? || IsFalsy(attribute.value)) ==>
              r == Success(Trim(d.nodes[LocateFromNode(d, expr, ctx).value].text))
    ensures LocateFromNode(d, expr, ctx).None? && (attribute.None? || IsFalsy(attribute.value)) ==>
              r == Success("")
  {
    var text := attribute.None? || IsFalsy(attribute.value);
    match LocateFromNode(d, expr, ctx)
    case None => if text then Success("") else Failure(NoMatchingNode(expr))
    case Some(n) => if text then Success(Trim(d.nodes[n].text)) else Success(Trim(AttributeOf(d, n, attribute.value)))
  }

  /** What loadHTML makes of the target URL: the guard on an empty URL, then the fetch
      (`transport` stands for cURL: the body, or cURL's error message), the check for an
      empty body, then the parse (`parse` stands for DOMDocument::loadHTML). */
  function LoadDocument(url: string, transport: string -> Result<string, string>, parse: string -> Option<Document>): (r: Result<Document, Error>)
    ensures IsFalsy(url) ==> r == Failure(Exception(NoUrlMessage))
    ensures r.Success? <==> !IsFalsy(url) && transport(url).Success? && !IsFalsy(transport(url).value)
                             && parse(transport(url).value).Some?
    ensures r.Success? ==> r.value == parse(transport(url).value).value
    ensures !IsFalsy(url) && transport(url).Failure? ==>
              r == Failure(Exception(CurlErrorPrefix + transport(url).error))
    ensures !IsFalsy(url) && transport(url).Success? && IsFalsy(transport(url).value) ==>
              r == Failure(Exception(EmptyResponsePrefix + url))
    ensures (!IsFalsy(url) && transport(url).Success? && !IsFalsy(transport(url).value)
             && parse(transport(url).value).None?) ==> r == Failure(Exception(LoadFailedMessage))
  {
    if IsFalsy(url) then Failure(Exception(NoUrlMessage))
    else match transport(url)
      case Failure(message) => Failure(Exception(CurlErrorPrefix + message))
      case Success(html) =>
        if IsFalsy(html) then Failure(Exception(EmptyResponsePrefix + url))
        else match parse(html)
          case None => Failure(Exception(LoadFailedMessage))
          case Some(doc) => Success(doc)
  }

  /** The URL guard comes before any fetch: with an empty URL the outcome does not depend
      on what the transport or the parser would do. */
  lemma LoadGuardPrecedesFetch(url: string, t1: string -> Result<string, string>, t2: string -> Result<string, string>,
                               p1: string -> Option<Document>, p2: string -> Option<Document>)
    requires IsFalsy(url)
    ensures LoadDocument(url, t1, p1) == LoadDocument(url, t2, p2)
  {
  }

  class Extractor {
    var url: string
    var xpath: Option<Document>

    /** A fresh extractor has no URL and no document. */
    constructor ()
      ensures url == "" && xpath == None
    {
      url := "";
      xpath := None;
    }

    /** setUrl: stores the URL, keeps the document, and returns this same extractor. */
    method SetUrl(newUrl: string) returns (self: Extractor)
      modifies this
      ensures self == this
      ensures url == newUrl && xpath == old(xpath)
    {
      url := newUrl;
      self := this;
    }

    /** loadHTML: fails without touching the document when the URL is empty or the page
      cannot be fetched or parsed; otherwise installs the parsed document and returns
      this extractor. */
    method LoadHtml(transport: string -> Result<string, string>, parse: string -> Option<Document>) returns (r: Result<Extractor, Error>)
      modifies this
      ensures url == old(url)
      ensures r.Success? <==> LoadDocument(url, transport, parse).Success?
      ensures r.Success? ==> r.value == this && xpath == Some(LoadDocument(url, transport, parse).value)
      ensures r.Failure? ==> r.error == LoadDocument(url, transport, parse).error && xpath == old(xpath)
    {
      if IsFalsy(url) {
        return Failure(Exception(NoUrlMessage));
      }
      var fetched := transport(url);
      if fetched.Failure? {
        return Failure(Exception(CurlErrorPrefix + fetched.error));
      }
      var html := fetched.value;
      if IsFalsy(html) {
        return Failure(Exception(EmptyResponsePrefix + url));
      }
      var dom := parse(html);
      if dom.None? {
        return Failure(Exception(LoadFailedMessage));
      }
      xpath := Some(dom.value);
      r := Success(this);
    }
  }
}
