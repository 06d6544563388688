/** The marketplace portfolio extractor: finds the product list container, walks every
    list item under it in document order and, for each item with a truthy id, reads a
    six-field record through the relative lookups of the generic extractor. */
module EnvatoExtractor {
  import opened Wrappers
  import opened Dom
  import opened PhpString
  import opened Extractor

  const ProductListExpr := "//ul[@class=\"product-list\"]"
  const HeadingExpr := ".//h3[@class=\"product-list__heading\"]"
  const ImageExpr := ".//div[@class=\"item-thumbnail\"]/div[@class=\"item-thumbnail__image\"]/a/img"
  const SalesExpr := ".//div[@class=\"product-list__sales-desktop\"]"
  const LinkExpr := ".//div[@class=\"item-thumbnail\"]/div[@class=\"item-thumbnail__image\"]/a"

  const ItemTag := "li"
  const ItemIdAttribute := "data-item-id"
  const PreviewAttribute := "data-preview-url"
  const CategoryAttribute := "data-item-category"
  const CostAttribute := "data-item-cost"
  const HrefAttribute := "href"

  const InvalidUrlPrefix := "Invalid URL: "
  const NoPortfolioMessage := "No portfolio found!"

  /** A PHP value handed to safeTrim: a string, or a scalar that is not one. */
  datatype PhpValue = Text(s: string) | Int(i: int) | Bool(b: bool)

  /** PHP's conversion of a scalar to a string, as applied to a `: string` return value:
      a string is kept as it is, and a converted integer or boolean has no character
      `trim` would strip at either end. */
  function ToPhpString(v: PhpValue): (r: string)
    ensures v.Text? ==> r == v.s
    ensures !v.Text? ==> NoEdgeTrimChars(r)
  {
    match v
    case Text(s) => s
    case Int(i) => IntToString(i)
    case Bool(b) => if b then "1" else ""
  }

  /** safeTrim: trims strings; any other value is returned unchanged, converted to a
      string by the declared return type. Either way the result is the trim of the
      value's string form, since a converted scalar has nothing to strip. */
  function SafeTrim(v: PhpValue): (r: string)
    ensures r == Trim(ToPhpString(v))
    ensures !v.Text? ==> r == ToPhpString(v)
  {
    match v
    case Text(s) => Trim(s)
    case Int(i) => TrimOfClean(IntToString(i)); IntToString(i)
    case Bool(b) => TrimOfClean(if b then "1" else ""); if b then "1" else ""
  }

  lemma SafeTrimPadded()
    ensures SafeTrim(Text("   Hello World   ")) == "Hello World"
  {
    assert "   Hello World   " == "   " + "Hello World" + "   ";
    TrimOfPadded("   ", "Hello World", "   ");
  }

  lemma SafeTrimBlank()
    ensures SafeTrim(Text("   ")) == ""
  {
    assert "   " == "   " + "" + "";
    TrimOfPadded("   ", "", "");
  }

  lemma SafeTrimInteger()
    ensures SafeTrim(Int(123)) == "123"
  {
    assert NatToString(1) == "1";
    assert NatToString(12) == "12";
  }

  /** The categories of an item: the category attribute split on `/`, each piece trimmed. */
  function SplitCategories(raw: string): (r: seq<string>)
    ensures |r| == |Explode('/', raw)| == Count('/', raw) + 1
    ensures forall k :: 0 <= k < |r| ==> r[k] == Trim(Explode('/', raw)[k])
  {
    var pieces := Explode('/', raw);
    ExplodeLength('/', raw);
    seq(|pieces|, k requires 0 <= k < |pieces| => SafeTrim(Text(pieces[k])))
  }

  /** Splitting the attribute after the lookup has trimmed it loses no separator: there is
      one category per `/` of the attribute as written, plus one, and joining the untrimmed
      pieces with `/` gives back the looked-up value. */
  lemma CategoriesOfAttribute(attribute: string)
    ensures |SplitCategories(Trim(attribute))| == Count('/', attribute) + 1
    ensures Implode('/', Explode('/', Trim(attribute))) == Trim(attribute)
  {
    TrimKeepsCount('/', attribute);
    ImplodeExplode('/', Trim(attribute));
  }

  predicate IsLetter(c: char) {
    'a' <= c <= 'z' || 'A' <= c <= 'Z'
  }

  predicate IsSchemeChar(c: char) {
    IsLetter(c) || '0' <= c <= '9' || c == '+' || c == '-' || c == '.'
  }

  /** A character that may appear in a host of the simple shape: not a delimiter, no
      port or user information, and no control character (which `parse_url` would
      rewrite to `_`). */
  predicate IsHostChar(c: char) {
    && c != '/' && c != '?' && c != '#' && c != ':' && c != '@'
    && c as int >= 0x20 && c as int != 0x7F
  }

  predicate IsPathStart(c: char) {
    c == '/' || c == '?' || c == '#'
  }

  /** The longest prefix of `s` whose characters all satisfy `p`. */
  function Span(s: string, p: char -> bool): (r: string)
    ensures |r| <= |s| && r == s[..|r|]
    ensures forall k :: 0 <= k < |r| ==> p(r[k])
    ensures |r| < |s| ==> !p(s[|r|])
  {
    if s != [] && p(s[0]) then [s[0]] + Span(s[1..], p) else []
  }

  lemma {:induction false} SpanOfPrefix(a: string, b: string, p: char -> bool)
    requires forall k :: 0 <= k < |a| ==> p(a[k])
    requires b == [] || !p(b[0])
    ensures Span(a + b, p) == a
  {
    if a == [] {
      assert a + b == b;
    } else {
      assert (a + b)[0] == a[0] && (a + b)[1..] == a[1..] + b;
      SpanOfPrefix(a[1..], b, p);
      assert a == [a[0]] + a[1..];
    }
  }

  /** The scheme and host of a URL of the shape scheme://host followed by nothing or by a
      path, query or fragment; None for any other shape. */
  function UrlParts(u: string): (r: Option<(string, string)>)
  {
    var scheme := Span(u, IsSchemeChar);
    var rest := u[|scheme|..];
    if |scheme| == 0 || !IsLetter(scheme[0]) || |rest| < 3 || rest[..3] != "://" then None
    else
      var host := Span(rest[3..], IsHostChar);
      var tail := rest[3 + |host|..];
      if |host| == 0 || (tail != [] && !IsPathStart(tail[0])) then None
      else Some((scheme, host))
  }

  predicate IsSimpleUrl(u: string) {
    UrlParts(u).Some?
  }

  /** The scheme, "://" and the host of a simple URL are where `UrlParts` found them: at
      its start. */
  lemma UrlPartsArePrefix(u: string)
    requires IsSimpleUrl(u)
    ensures UrlParts(u).value.0 + "://" + UrlParts(u).value.1 <= u
  {
    var scheme := Span(u, IsSchemeChar);
    var rest := u[|scheme|..];
    var host := Span(rest[3..], IsHostChar);
    assert UrlParts(u).value == (scheme, host);
    var n := |scheme| + 3 + |host|;
    assert u[..|scheme|] == scheme;
    assert u[|scheme|..|scheme| + 3] == rest[..3] == "://";
    assert u[|scheme| + 3..n] == rest[3..][..|host|] == host;
    assert u[..n] == u[..|scheme|] + u[|scheme|..|scheme| + 3] + u[|scheme| + 3..n];
  }

  /** getBaseUrl on a simple URL: its scheme, "://" and its host, which is a prefix of it. */
  function BaseUrl(u: string): (r: string)
    requires IsSimpleUrl(u)
    ensures r <= u
  {
    UrlPartsArePrefix(u);
    UrlParts(u).value.0 + "://" + UrlParts(u).value.1
  }

  predicate IsScheme(s: string) {
    |s| > 0 && IsLetter(s[0]) && forall k :: 0 <= k < |s| ==> IsSchemeChar(s[k])
  }

  predicate IsHost(h: string) {
    |h| > 0 && forall k :: 0 <= k < |h| ==> IsHostChar(h[k])
  }

  /** The parts of a URL assembled from a scheme, a host and a path. */
  lemma UrlPartsOfParts(scheme: string, host: string, path: string)
    requires IsScheme(scheme) && IsHost(host)
    requires path == [] || IsPathStart(path[0])
    ensures UrlParts(scheme + "://" + host + path) == Some((scheme, host))
  {
    var rest := "://" + host + path;
    var u := scheme + rest;
    assert scheme + "://" + host + path == u;
    assert rest[0] == ':' && !IsSchemeChar(':');
    SpanOfPrefix(scheme, rest, IsSchemeChar);
    assert u[|scheme|..] == rest;
    assert |rest| >= 3 && rest[..3] == "://";
    var after := rest[3..];
    assert after == host + path;
    assert path != [] ==> !IsHostChar(path[0]);
    SpanOfPrefix(host, path, IsHostChar);
    assert after[|host|..] == path;
    assert rest[3 + |host|..] == path;
  }

  /** A URL assembled from a scheme, a host and a path (possibly empty) is simple, and
      getBaseUrl gives back exactly its scheme and host. */
  lemma BaseUrlOfParts(scheme: string, host: string, path: string)
    requires IsScheme(scheme) && IsHost(host)
    requires path == [] || IsPathStart(path[0])
    ensures IsSimpleUrl(scheme + "://" + host + path)
    ensures BaseUrl(scheme + "://" + host + path) == scheme + "://" + host
  {
    UrlPartsOfParts(scheme, host, path);
  }

  /** One portfolio record, with exactly the six fields the source's array has. */
  datatype Portfolio = Portfolio(heading: string, preview: string, categories: seq<string>,
                                 sales: string, price: string, url: string)

  /** getPortfolioHeading: the trimmed text of the item's heading, or "" when there is
      none (the text of the null node is read with a warning only). */
  function PortfolioHeading(d: Document, item: NodeId): (r: string)
    requires item < |d.nodes|
    ensures LocateFromNode(d, HeadingExpr, item).Some? ==> r == Trim(d.nodes[LocateFromNode(d, HeadingExpr, item).value].text)
    ensures LocateFromNode(d, HeadingExpr, item).None? ==> r == ""
  {
    ValueFromNode(d, HeadingExpr, item, None).value
  }

  /** getPortfolioPreviewImage: the trimmed preview URL of the item's thumbnail image. */
  function PortfolioPreviewImage(d: Document, item: NodeId): (r: Result<string, Error>)
    requires item < |d.nodes|
    ensures r.Success? <==> LocateFromNode(d, ImageExpr, item).Some?
    ensures r.Success? ==> r.value == Trim(AttributeOf(d, LocateFromNode(d, ImageExpr, item).value, PreviewAttribute))
  {
    ValueFromNode(d, ImageExpr, item, Some(PreviewAttribute))
  }

  /** getPortfolioCategories: the thumbnail image's category attribute, trimmed by the
      lookup, split on `/` and each piece trimmed. */
  function PortfolioCategories(d: Document, item: NodeId): (r: Result<seq<string>, Error>)
    requires item < |d.nodes|
    ensures r.Success? <==> LocateFromNode(d, ImageExpr, item).Some?
    ensures r.Success? ==>
              var attribute := AttributeOf(d, LocateFromNode(d, ImageExpr, item).value, CategoryAttribute);
              |r.value| == Count('/', attribute) + 1 && r.value == SplitCategories(Trim(attribute))
  {
    var raw :- ValueFromNode(d, ImageExpr, item, Some(CategoryAttribute));
    CategoriesOfAttribute(AttributeOf(d, LocateFromNode(d, ImageExpr, item).value, CategoryAttribute));
    Success(SplitCategories(raw))
  }

  /** getPortfolioSales: the trimmed text of the item's sales element, or "" when there
      is none. */
  function PortfolioSales(d: Document, item: NodeId): (r: string)
    requires item < |d.nodes|
    ensures LocateFromNode(d, SalesExpr, item).Some? ==> r == Trim(d.nodes[LocateFromNode(d, SalesExpr, item).value].text)
    ensures LocateFromNode(d, SalesExpr, item).None? ==> r == ""
  {
    ValueFromNode(d, SalesExpr, item, None).value
  }

  /** getPortfolioPrice: the trimmed cost attribute of the item's thumbnail image. */
  function PortfolioPrice(d: Document, item: NodeId): (r: Result<string, Error>)
    requires item < |d.nodes|
    ensures r.Success? <==> LocateFromNode(d, ImageExpr, item).Some?
    ensures r.Success? ==> r.value == Trim(AttributeOf(d, LocateFromNode(d, ImageExpr, item).value, CostAttribute))
  {
    ValueFromNode(d, ImageExpr, item, Some(CostAttribute))
  }

  /** getPortfolioUrl: the page's scheme and host followed by the trimmed href of the
      item's thumbnail link. */
  function PortfolioUrl(d: Document, url: string, item: NodeId): (r: Result<string, Error>)
    requires IsSimpleUrl(url) && item < |d.nodes|
    ensures r.Success? <==> LocateFromNode(d, LinkExpr, item).Some?
    ensures r.Success? ==> r.value == BaseUrl(url) + Trim(AttributeOf(d, LocateFromNode(d, LinkExpr, item).value, HrefAttribute))
  {
    match ValueFromNode(d, LinkExpr, item, Some(HrefAttribute))
    case Failure(e) => Failure(e)
    case Success(path) => Success(BaseUrl(url) + path)
  }

  /** extractPortfolioData: the six fields, read in the source's order. A missing
      heading or sales element gives an empty field; a missing thumbnail image or link
      aborts the record, reported by the first expression, in the source's order, that
      found nothing. Preview, categories and price come from the one image node, through
      its three attributes. */
  function ExtractPortfolioData(d: Document, url: string, item: NodeId): (r: Result<Portfolio, Error>)
    requires IsSimpleUrl(url) && item < |d.nodes|
    ensures r.Success? <==> LocateFromNode(d, ImageExpr, item).Some? && LocateFromNode(d, LinkExpr, item).Some?
    ensures r.Success? ==>
              var image := LocateFromNode(d, ImageExpr, item).value;
              && r.value.heading == PortfolioHeading(d, item)
              && r.value.preview == Trim(AttributeOf(d, image, PreviewAttribute))
              && r.value.categories == SplitCategories(Trim(AttributeOf(d, image, CategoryAttribute)))
              && r.value.sales == PortfolioSales(d, item)
              && r.value.price == Trim(AttributeOf(d, image, CostAttribute))
              && r.value.url == BaseUrl(url) + Trim(AttributeOf(d, LocateFromNode(d, LinkExpr, item).value, HrefAttribute))
    ensures r.Failure? ==>
              r.error == NoMatchingNode(if LocateFromNode(d, ImageExpr, item).None? then ImageExpr else LinkExpr)
  {
    var heading := PortfolioHeading(d, item);
    match PortfolioPreviewImage(d, item)
    case Failure(e) => Failure(e)
    case Success(preview) =>
      match PortfolioCategories(d, item)
      case Failure(e) => Failure(e)
      case Success(categories) =>
        var sales := PortfolioSales(d, item);
        match PortfolioPrice(d, item)
        case Failure(e) => Failure(e)
        case Success(price) =>
          match PortfolioUrl(d, url, item)
          case Failure(e) => Failure(e)
          case Success(itemUrl) => Success(Portfolio(heading, preview, categories, sales, price, itemUrl))
  }

  /** The id of a list item: its `data-item-id`, empty when absent. */
  function ItemId(d: Document, n: NodeId): string
    requires n < |d.nodes|
  {
    AttributeOf(d, n, ItemIdAttribute)
  }

  /** An item is recorded only when its id is truthy: neither "" nor "0". */
  predicate IsListed(d: Document, n: NodeId)
    requires n < |d.nodes|
  {
    !IsFalsy(ItemId(d, n))
  }

  /** An item is recorded exactly when it carries a `data-item-id` that is neither "" nor
      "0"; an item without the attribute is never recorded. */
  lemma ListedExactly(d: Document, n: NodeId)
    requires n < |d.nodes|
    ensures IsListed(d, n) <==> && ItemIdAttribute in d.nodes[n].attributes
                                && d.nodes[n].attributes[ItemIdAttribute] != ""
                                && d.nodes[n].attributes[ItemIdAttribute] != "0"
  {
    IsFalsyExactly(ItemId(d, n));
  }

  /** The truthy ids among `items`. */
  ghost function ListedIds(d: Document, items: seq<NodeId>): set<string>
    requires AllNodes(d, items)
  {
    set k | 0 <= k < |items| && IsListed(d, items[k]) :: ItemId(d, items[k])
  }

  /** `build` can be applied to every node of `d`. */
  ghost predicate BuildsAll(d: Document, build: NodeId --> Result<Portfolio, Error>) {
    forall n: NodeId :: n < |d.nodes| ==> build.requires(n)
  }

  /** The record builder of getPortfolios: extractPortfolioData on the page at `url`. */
  function RecordBuilder(d: Document, url: string): (build: NodeId --> Result<Portfolio, Error>)
    requires IsSimpleUrl(url)
    ensures BuildsAll(d, build)
    ensures forall n: NodeId :: n < |d.nodes| ==> build(n) == ExtractPortfolioData(d, url, n)
  {
    (n: NodeId) requires n < |d.nodes| => ExtractPortfolioData(d, url, n)
  }

  /** The `foreach` of getPortfolios from `items` on, with the records gathered so far in
      `acc` and `build` making the record of one item: falsy ids are skipped, a truthy id
      (re)binds its record, a record that cannot be built aborts the walk. */
  function CollectFrom(d: Document, items: seq<NodeId>, acc: map<string, Portfolio>,
                       build: NodeId --> Result<Portfolio, Error>): (r: Result<map<string, Portfolio>, Error>)
    requires AllNodes(d, items) && BuildsAll(d, build)
    decreases |items|
    ensures r.Success? ==> acc.Keys <= r.value.Keys
  {
    if items == [] then Success(acc)
    else if !IsListed(d, items[0]) then CollectFrom(d, items[1..], acc, build)
    else match build(items[0])
      case Failure(e) => Failure(e)
      case Success(p) => CollectFrom(d, items[1..], acc[ItemId(d, items[0]) := p], build)
  }

  /** getPortfolios as a value: no container is the "No portfolio found!" failure;
      otherwise the records of every `li` below the container, in document order. A
      success maps exactly the truthy ids of those items. */
  function Portfolios(d: Document, url: string): (r: Result<map<string, Portfolio>, Error>)
    requires IsSimpleUrl(url)
    ensures FirstNode(d, ProductListExpr).None? ==> r == Failure(Exception(NoPortfolioMessage))
    ensures FirstNode(d, ProductListExpr).Some? && r.Success? ==> r.value.Keys == ListedIds(d, Items(d))
    ensures r.Success? ==> forall key :: key in r.value ==> !IsFalsy(key)
  {
    match FirstNode(d, ProductListExpr)
    case None => Failure(Exception(NoPortfolioMessage))
    case Some(container) =>
      CollectKeys(d, Items(d), map[], RecordBuilder(d, url));
      CollectFrom(d, Items(d), map[], RecordBuilder(d, url))
  }

  lemma ListedIdsCons(d: Document, items: seq<NodeId>)
    requires AllNodes(d, items) && items != []
    ensures AllNodes(d, items[1..])
    ensures ListedIds(d, items) == (if IsListed(d, items[0]) then {ItemId(d, items[0])} else {}) + ListedIds(d, items[1..])
  {
    var tail := items[1..];
    assert forall k :: 0 <= k < |tail| ==> tail[k] == items[k + 1];
    forall x | x in ListedIds(d, items)
      ensures x in (if IsListed(d, items[0]) then {ItemId(d, items[0])} else {}) + ListedIds(d, tail)
    {
      var k :| 0 <= k < |items| && IsListed(d, items[k]) && ItemId(d, items[k]) == x;
      if k > 0 {
        assert tail[k - 1] == items[k];
      }
    }
    forall x | x in ListedIds(d, tail) ensures x in ListedIds(d, items) {
      var k :| 0 <= k < |tail| && IsListed(d, tail[k]) && ItemId(d, tail[k]) == x;
      assert items[k + 1] == tail[k];
    }
  }

  /** The accumulator after the first item, when the walk goes on past it. */
  function NextAcc(d: Document, items: seq<NodeId>, acc: map<string, Portfolio>,
                   build: NodeId --> Result<Portfolio, Error>): map<string, Portfolio>
    requires AllNodes(d, items) && BuildsAll(d, build) && items != []
  {
    if IsListed(d, items[0]) && build(items[0]).Success? then acc[ItemId(d, items[0]) := build(items[0]).value] else acc
  }

  /** The keys gathered are those already present plus the truthy ids of the items. */
  lemma {:induction false} CollectKeys(d: Document, items: seq<NodeId>, acc: map<string, Portfolio>,
                                       build: NodeId --> Result<Portfolio, Error>)
    requires AllNodes(d, items) && BuildsAll(d, build)
    ensures CollectFrom(d, items, acc, build).Success? ==>
              CollectFrom(d, items, acc, build).value.Keys == acc.Keys + ListedIds(d, items)
  {
    if items != [] {
      ListedIdsCons(d, items);
      CollectKeys(d, items[1..], NextAcc(d, items, acc, build), build);
    }
  }

  /** A key that no item carries keeps the record it had before the walk. */
  lemma {:induction false} CollectKeepsUnlisted(d: Document, items: seq<NodeId>, acc: map<string, Portfolio>,
                                                build: NodeId --> Result<Portfolio, Error>, key: string)
    requires AllNodes(d, items) && BuildsAll(d, build)
    requires key in acc && key !in ListedIds(d, items)
    requires CollectFrom(d, items, acc, build).Success?
    ensures key in CollectFrom(d, items, acc, build).value
    ensures CollectFrom(d, items, acc, build).value[key] == acc[key]
  {
    if items != [] {
      ListedIdsCons(d, items);
      CollectKeepsUnlisted(d, items[1..], NextAcc(d, items, acc, build), build, key);
    }
  }

  /** No item after position `j` carries the id of the item at `j`. */
  predicate IsLastWithId(d: Document, items: seq<NodeId>, j: nat)
    requires AllNodes(d, items) && j < |items|
  {
    forall j' :: j < j' < |items| ==> ItemId(d, items[j']) != ItemId(d, items[j])
  }

  /** On a duplicate id the record of the last item carrying it, in document order, is the
      one kept. */
  lemma {:induction false} CollectLastWins(d: Document, items: seq<NodeId>, acc: map<string, Portfolio>,
                                           build: NodeId --> Result<Portfolio, Error>, j: nat)
    requires AllNodes(d, items) && BuildsAll(d, build)
    requires j < |items| && IsListed(d, items[j]) && IsLastWithId(d, items, j)
    requires CollectFrom(d, items, acc, build).Success?
    ensures build(items[j]).Success?
    ensures ItemId(d, items[j]) in CollectFrom(d, items, acc, build).value
    ensures CollectFrom(d, items, acc, build).value[ItemId(d, items[j])] == build(items[j]).value
  {
    var tail := items[1..];
    assert AllNodes(d, tail);
    var acc' := NextAcc(d, items, acc, build);
    if j == 0 {
      ListedIdsCons(d, items);
      var id := ItemId(d, items[0]);
      assert id !in ListedIds(d, tail) by {
        forall k | 0 <= k < |tail| && IsListed(d, tail[k]) ensures ItemId(d, tail[k]) != id {
          assert tail[k] == items[k + 1];
        }
      }
      CollectKeepsUnlisted(d, tail, acc', build, id);
    } else {
      assert tail[j - 1] == items[j];
      assert IsLastWithId(d, tail, j - 1) by {
        forall j' | j - 1 < j' < |tail| ensures ItemId(d, tail[j']) != ItemId(d, tail[j - 1]) {
          assert tail[j'] == items[j' + 1];
        }
      }
      CollectLastWins(d, tail, acc', build, j - 1);
    }
  }

  /** The item at `j` has a truthy id and its record cannot be built. */
  predicate FailsAt(d: Document, items: seq<NodeId>, build: NodeId --> Result<Portfolio, Error>, j: nat)
    requires AllNodes(d, items) && BuildsAll(d, build)
  {
    j < |items| && IsListed(d, items[j]) && build(items[j]).Failure?
  }

  lemma FailsAtTail(d: Document, items: seq<NodeId>, build: NodeId --> Result<Portfolio, Error>)
    requires AllNodes(d, items) && BuildsAll(d, build) && items != []
    ensures AllNodes(d, items[1..])
    ensures forall j: nat :: FailsAt(d, items[1..], build, j) <==> FailsAt(d, items, build, j + 1)
  {
    var tail := items[1..];
    forall j: nat ensures FailsAt(d, tail, build, j) <==> FailsAt(d, items, build, j + 1) {
      if j < |tail| { assert tail[j] == items[j + 1]; }
    }
  }

  /** The walk fails exactly when some item with a truthy id has a record that cannot be
      built: items with a falsy id never cause a failure. */
  lemma {:induction false} CollectFailsIff(d: Document, items: seq<NodeId>, acc: map<string, Portfolio>,
                                           build: NodeId --> Result<Portfolio, Error>)
    requires AllNodes(d, items) && BuildsAll(d, build)
    ensures CollectFrom(d, items, acc, build).Failure? <==> exists j: nat :: FailsAt(d, items, build, j)
  {
    if items != [] {
      FailsAtTail(d, items, build);
      if !FailsAt(d, items, build, 0) {
        var acc' := NextAcc(d, items, acc, build);
        assert CollectFrom(d, items, acc, build) == CollectFrom(d, items[1..], acc', build);
        CollectFailsIff(d, items[1..], acc', build);
        if exists j: nat :: FailsAt(d, items, build, j) {
          var j: nat :| FailsAt(d, items, build, j);
          assert FailsAt(d, items[1..], build, j - 1);
        }
      }
    }
  }

  /** A failed walk reports the error of the first item whose record cannot be built. */
  lemma {:induction false} CollectFirstFailure(d: Document, items: seq<NodeId>, acc: map<string, Portfolio>,
                                               build: NodeId --> Result<Portfolio, Error>)
    requires AllNodes(d, items) && BuildsAll(d, build)
    requires CollectFrom(d, items, acc, build).Failure?
    ensures exists j: nat :: && FailsAt(d, items, build, j)
                             && (forall j': nat :: j' < j ==> !FailsAt(d, items, build, j'))
                             && CollectFrom(d, items, acc, build).error == build(items[j]).error
  {
    FailsAtTail(d, items, build);
    if !FailsAt(d, items, build, 0) {
      var tail := items[1..];
      var acc' := NextAcc(d, items, acc, build);
      assert CollectFrom(d, items, acc, build) == CollectFrom(d, tail, acc', build);
      CollectFirstFailure(d, tail, acc', build);
      var j: nat :| && FailsAt(d, tail, build, j)
                    && (forall j': nat :: j' < j ==> !FailsAt(d, tail, build, j'))
                    && CollectFrom(d, tail, acc', build).error == build(tail[j]).error;
      assert tail[j] == items[j + 1];
      assert forall j': nat :: j' < j + 1 ==> !FailsAt(d, items, build, j') by {
        forall j': nat | j' < j + 1 ensures !FailsAt(d, items, build, j') {
          if j' > 0 { assert !FailsAt(d, tail, build, j' - 1); }
        }
      }
    }
  }

  /** The `li` items getPortfolios walks, once the container is found. */
  function Items(d: Document): (items: seq<NodeId>)
    requires FirstNode(d, ProductListExpr).Some?
    ensures AllNodes(d, items)
  {
    ElementsByTagName(d, FirstNode(d, ProductListExpr).value, ItemTag)
  }

  /** On a duplicate id, getPortfolios keeps the record extractPortfolioData builds for the
      last `li` carrying it. */
  lemma PortfoliosLastWins(d: Document, url: string, j: nat)
    requires IsSimpleUrl(url) && FirstNode(d, ProductListExpr).Some?
    requires j < |Items(d)| && IsListed(d, Items(d)[j]) && IsLastWithId(d, Items(d), j)
    requires Portfolios(d, url).Success?
    ensures ExtractPortfolioData(d, url, Items(d)[j]).Success?
    ensures ItemId(d, Items(d)[j]) in Portfolios(d, url).value
    ensures Portfolios(d, url).value[ItemId(d, Items(d)[j])] == ExtractPortfolioData(d, url, Items(d)[j]).value
  {
    CollectLastWins(d, Items(d), map[], RecordBuilder(d, url), j);
  }

  /** With a container, getPortfolios fails exactly when some `li` with a truthy id has a
      record extractPortfolioData cannot build. */
  lemma PortfoliosFailsIff(d: Document, url: string)
    requires IsSimpleUrl(url) && FirstNode(d, ProductListExpr).Some?
    ensures Portfolios(d, url).Failure? <==>
              exists j: nat :: j < |Items(d)| && IsListed(d, Items(d)[j]) && ExtractPortfolioData(d, url, Items(d)[j]).Failure?
  {
    var items, build := Items(d), RecordBuilder(d, url);
    CollectFailsIff(d, items, map[], build);
    if exists j: nat :: FailsAt(d, items, build, j) {
      var j: nat :| FailsAt(d, items, build, j);
      assert j < |items| && IsListed(d, items[j]) && ExtractPortfolioData(d, url, items[j]).Failure?;
    } else {
      forall j: nat | j < |items| && IsListed(d, items[j])
        ensures ExtractPortfolioData(d, url, items[j]).Success?
      {
        assert !FailsAt(d, items, build, j);
      }
    }
  }

  /** A failed getPortfolios reports the error of the first `li` with a truthy id whose
      record cannot be built. */
  lemma PortfoliosFirstFailure(d: Document, url: string)
    requires IsSimpleUrl(url) && FirstNode(d, ProductListExpr).Some?
    requires Portfolios(d, url).Failure?
    ensures exists j: nat :: && j < |Items(d)| && IsListed(d, Items(d)[j])
                             && ExtractPortfolioData(d, url, Items(d)[j]).Failure?
                             && Portfolios(d, url).error == ExtractPortfolioData(d, url, Items(d)[j]).error
                             && forall j': nat :: j' < j && IsListed(d, Items(d)[j']) ==> ExtractPortfolioData(d, url, Items(d)[j']).Success?
  {
    var items, build := Items(d), RecordBuilder(d, url);
    assert Portfolios(d, url) == CollectFrom(d, items, map[], build);
    CollectFirstFailure(d, items, map[], build);
    var j: nat :| && FailsAt(d, items, build, j)
                  && (forall j': nat :: j' < j ==> !FailsAt(d, items, build, j'))
                  && CollectFrom(d, items, map[], build).error == build(items[j]).error;
    assert forall j': nat :: j' < j && IsListed(d, items[j']) ==> ExtractPortfolioData(d, url, items[j']).Success? by {
      forall j': nat | j' < j && IsListed(d, items[j'])
        ensures ExtractPortfolioData(d, url, items[j']).Success?
      {
        assert !FailsAt(d, items, build, j');
      }
    }
  }

  class EnvatoExtractor {
    /** The generic extractor this one builds on, holding the URL and the document. */
    const base: Extractor

    constructor Wrap(base: Extractor)
      ensures this.base == base
    {
      this.base := base;
    }

    /** The constructor: rejects a URL that `isValidUrl` (PHP's URL filter) refuses before
        anything is fetched, then sets the URL and loads the page. */
    static method Create(portfolioUrl: string, isValidUrl: string -> bool,
                         transport: string -> Result<string, string>, parse: string -> Option<Document>)
      returns (r: Result<EnvatoExtractor, Error>)
      ensures !isValidUrl(portfolioUrl) ==> r == Failure(Exception(InvalidUrlPrefix + portfolioUrl))
      ensures isValidUrl(portfolioUrl) && LoadDocument(portfolioUrl, transport, parse).Failure? ==>
                r == Failure(LoadDocument(portfolioUrl, transport, parse).error)
      ensures isValidUrl(portfolioUrl) && LoadDocument(portfolioUrl, transport, parse).Success? ==>
                && r.Success? && fresh(r.value) && fresh(r.value.base)
                && r.value.base.url == portfolioUrl
                && r.value.base.xpath == Some(LoadDocument(portfolioUrl, transport, parse).value)
    {
      if !isValidUrl(portfolioUrl) {
        return Failure(Exception(InvalidUrlPrefix + portfolioUrl));
      }
      var extractor := new Extractor();
      var self := extractor.SetUrl(portfolioUrl);
      var loaded := self.LoadHtml(transport, parse);
      if loaded.Failure? {
        return Failure(loaded.error);
      }
      var result := new EnvatoExtractor.Wrap(extractor);
      r := Success(result);
    }

    /** getPortfolios: walks the `li` items below the product list in document order,
        keying each record by its truthy id. Reads the state and changes nothing, so two
        calls give the same result. */
    method GetPortfolios() returns (r: Result<map<string, Portfolio>, Error>)
      requires base.xpath.Some? && IsSimpleUrl(base.url)
      ensures r == Portfolios(base.xpath.value, base.url)
    {
      var d := base.xpath.value;
      var url := base.url;
      var container := FirstNode(d, ProductListExpr);
      if container.None? {
        return Failure(Exception(NoPortfolioMessage));
      }
      var items := ElementsByTagName(d, container.value, ItemTag);
      var build := RecordBuilder(d, url);
      var details: map<string, Portfolio> := map[];
      var i := 0;
      while i < |items|
        invariant 0 <= i <= |items|
        invariant AllNodes(d, items[i..])
        invariant CollectFrom(d, items[i..], details, build) == CollectFrom(d, items, map[], build)
      {
        assert items[i..][0] == items[i] && items[i..][1..] == items[i + 1..];
        var id := ItemId(d, items[i]);
        if !IsFalsy(id) {
          var record := ExtractPortfolioData(d, url, items[i]);
          assert record == build(items[i]);
          if record.Failure? {
            return Failure(record.error);
          }
          details := details[id := record.value];
        }
        i := i + 1;
      }
      assert items[i..] == [];
      r := Success(details);
    }
  }
}
