# Envato portfolio extractor, modelled in Dafny

The modelled system is a small PHP library that scrapes a marketplace author's
portfolio page. It has two classes:

- the generic `Extractor` holds a target URL and, once `loadHTML` has fetched and
  parsed the page, an XPath context over the document. Its lookups return `false`
  when nothing matches. The relative lookup `getValueFromNode` falls back, once,
  to the context node's parent.
- `EnvatoExtractor` validates the portfolio URL in its constructor and loads the
  page. `getPortfolios` finds the product list and walks every `li` below it in
  document order. Each item whose `data-item-id` is truthy becomes a six-field
  record: heading, preview, categories, sales, price and url.

The model has five modules.

- `Wrappers`: `Option` and `Result`.
- `PhpString`: the PHP built-ins the code relies on:
  - `trim` with its default character set;
  - `explode` and `implode` on `/`;
  - string truthiness, where `""` and `"0"` are falsy;
  - integer-to-string conversion.
- `Dom`: an abstract parsed document.
  - Nodes are numbered in document order, and a parent precedes its children.
  - Each node has a tag, text, attributes and a parent.
  - XPath evaluation is an uninterpreted function of an expression and a context.
  - It also defines `getElementsByTagName`.
- `Extractor`: the lookups as functions; the class with `setUrl` and `loadHTML` as
  methods over its `url` and `xpath` fields. cURL and `DOMDocument::loadHTML` are
  parameters of `loadHTML`.
- `EnvatoExtractor`:
  - the selectors and attribute names;
  - `safeTrim`;
  - the six field getters;
  - `getBaseUrl`;
  - `extractPortfolioData`;
  - the `foreach` of `getPortfolios`, as a fold (`CollectFrom`) over the items with a
    record builder;
  - the class, with its constructor and `getPortfolios` as methods.

  `GetPortfolios` is an imperative loop, proved equal to the fold. The lemmas then
  characterise the fold:
  - which keys the result has;
  - which record a duplicated id keeps;
  - when the walk fails, and with which error.

Failures are explicit `Result` values:
- `Exception(message)` carries the source's exact message text;
- `NoMatchingNode(expression)` stands for the fatal error PHP raises when
  `getValueFromNode` reads an attribute of the null `item(0)` of an empty result
  (app/Extractor.php:135).

Reading `nodeValue` of that null node (app/Extractor.php:138) is not fatal: PHP only
warns, and `trim(null)` gives `""`. So a missing heading or sales element leaves that
field empty, and only a missing thumbnail image or link aborts a record.

The walk in `getPortfolios` behaves as follows:
- The items are all `li` descendants of the product list, at any depth, because
  `getElementsByTagName` searches the whole subtree (app/EnvatoExtractor.php:42).
- An item with a falsy id is skipped (app/EnvatoExtractor.php:45).
- An item whose record cannot be built makes the whole `getPortfolios` call fail. There
  is no per-item error handling (app/EnvatoExtractor.php:46).

## Model

| member | source | states |
|---|---|---|
| PhpString.Trim | app/Extractor.php:113 | `trim` leaves no strippable character at either end, and the result sits inside the input with only strippable characters around it |
| PhpString.TrimOfPadded | app/Extractor.php:135-138 | a clean string padded on both sides by strippable characters trims to exactly that string (characterises `trim`) |
| PhpString.TrimOfClean | app/EnvatoExtractor.php:61 | a string with no strippable character at its ends is its own trim |
| PhpString.TrimIdempotent | app/EnvatoExtractor.php:98 | trimming twice is trimming once (the categories are trimmed by the lookup and again by `safeTrim`) |
| PhpString.TrimKeepsCount | app/EnvatoExtractor.php:95-98 | `trim` removes no `/` (nor any other non-strippable character) |
| PhpString.Explode | app/EnvatoExtractor.php:98 | `explode` always yields at least one piece |
| PhpString.ImplodeExplode | app/EnvatoExtractor.php:98 | joining the pieces of `explode` with the separator gives back the input |
| PhpString.ExplodeLength | app/EnvatoExtractor.php:98 | `explode` yields one more piece than there are separators |
| PhpString.ExplodePiecesHaveNoSeparator | app/EnvatoExtractor.php:98 | no piece contains the separator |
| PhpString.ExplodeImplode | app/EnvatoExtractor.php:98 | splitting a join of separator-free pieces gives back exactly those pieces |
| PhpString.IsFalsyExactly | app/EnvatoExtractor.php:45 | a string is falsy exactly when it is `""` or `"0"` |
| PhpString.NatToString | app/EnvatoExtractor.php:59-61 | the decimal digits of a natural number, with a leading `0` only for zero itself |
| PhpString.NatToStringValue | app/EnvatoExtractor.php:59-61 | those digits denote the number |
| PhpString.IntToString | app/EnvatoExtractor.php:59-61 | a minus sign exactly when the integer is negative, then digits with no leading zero (except `"0"`); never needs trimming |
| PhpString.IntToStringValue | app/EnvatoExtractor.php:59-61 | the digits denote the integer's magnitude, so the conversion is the integer's decimal form |
| Dom.AttributeOf | app/Extractor.php:101 | `getAttribute` gives the attribute's value when present and `""` when absent |
| Dom.ParentContext | app/Extractor.php:131 | the context is the node's parent, which precedes it; a node without a parent gives the whole document, and only such a node does |
| Dom.ElementsByTagName | app/EnvatoExtractor.php:42 | exactly the descendants (at any depth) with the tag, each once, in document order |
| Extractor.FirstNode | app/Extractor.php:159-163 | `false` exactly when the query is empty; otherwise its first node |
| Extractor.Values | app/Extractor.php:147-151 | `false` exactly when the query is empty; otherwise the whole non-empty result |
| Extractor.FirstNodeHeadsValues | app/Extractor.php:147-163 | `getFirstNode` succeeds exactly when `getValues` does, and is its first element |
| Extractor.Value | app/Extractor.php:110-114 | `false` exactly when nothing matches; otherwise the first match's trimmed text |
| Extractor.Attribute | app/Extractor.php:98-102 | `false` exactly when nothing matches; otherwise the first match's attribute, untrimmed, empty when absent |
| Extractor.LocateFromNode | app/Extractor.php:127-132 | the node read: the first match at the node if any, else the first match at its parent; none only when both queries are empty |
| Extractor.LocateFromNodeClimbsOnce | app/Extractor.php:127-132 | the fallback looks only at the node and its parent, never at a further ancestor |
| Extractor.ValueFromNode | app/Extractor.php:124-139 | a truthy attribute name gives the located node's trimmed attribute, and failure (with the expression) exactly when no node is located; otherwise the trimmed text, or `""` when no node is located |
| Extractor.LoadDocument | app/Extractor.php:34-88 | a falsy URL fails with "No URL set…"; a cURL failure with "cURL error: " and cURL's message; an empty body with "Empty response from URL: " and the URL; a parse failure with "Failed to load HTML…"; success exactly when none of these happens, giving the parsed document |
| Extractor.LoadGuardPrecedesFetch | app/Extractor.php:36-40 | with a falsy URL the outcome does not depend on the transport or the parser |
| Extractor.Extractor.constructor | app/Extractor.php:13-14 | a new extractor has no URL and no document |
| Extractor.Extractor.SetUrl | app/Extractor.php:22-26 | stores the URL, keeps the document and returns the same object |
| Extractor.Extractor.LoadHtml | app/Extractor.php:34-57 | succeeds and installs the document exactly when the load succeeds; on failure reports the load's error and leaves the document as it was |
| EnvatoExtractor.ToPhpString | app/EnvatoExtractor.php:59-61 | a string is kept as it is; a converted integer or boolean has nothing `trim` would strip |
| EnvatoExtractor.SafeTrim | app/EnvatoExtractor.php:59-62 | the result is the trim of the value's string form, and a non-string comes back unchanged |
| EnvatoExtractor.SafeTrimPadded | tests/EnvatoExtractorTest.php:44 | `"   Hello World   "` trims to `"Hello World"` |
| EnvatoExtractor.SafeTrimBlank | tests/EnvatoExtractorTest.php:45 | a blank string trims to `""` |
| EnvatoExtractor.SafeTrimInteger | tests/EnvatoExtractorTest.php:46 | the integer 123 comes back as `"123"` |
| EnvatoExtractor.SplitCategories | app/EnvatoExtractor.php:98 | one category per piece of `explode('/')`, as many as separators plus one, each the trimmed piece |
| EnvatoExtractor.CategoriesOfAttribute | app/EnvatoExtractor.php:95-98 | the category count follows the untrimmed attribute's separators, and the looked-up value is recovered by joining its pieces |
| EnvatoExtractor.BaseUrl | app/EnvatoExtractor.php:130-137 | the base URL is a prefix of the URL |
| EnvatoExtractor.UrlPartsOfParts | app/EnvatoExtractor.php:133 | `parse_url` of scheme://host followed by a path, query, fragment or nothing finds that scheme and that host |
| EnvatoExtractor.BaseUrlOfParts | app/EnvatoExtractor.php:130-137 | for scheme://host followed by a path, query, fragment or nothing, the base URL is exactly scheme://host |
| EnvatoExtractor.PortfolioHeading | app/EnvatoExtractor.php:70-73 | never fails: the trimmed text of the located heading, or `""` when none is located |
| EnvatoExtractor.PortfolioPreviewImage | app/EnvatoExtractor.php:81-85 | found exactly when the thumbnail image is located; its trimmed preview attribute |
| EnvatoExtractor.PortfolioCategories | app/EnvatoExtractor.php:93-99 | found exactly when the thumbnail image is located; the split of its category attribute, one more entry than it has `/` |
| EnvatoExtractor.PortfolioSales | app/EnvatoExtractor.php:107-110 | never fails: the trimmed text of the located sales element, or `""` when none is located |
| EnvatoExtractor.PortfolioPrice | app/EnvatoExtractor.php:118-122 | found exactly when the thumbnail image is located; its trimmed cost attribute |
| EnvatoExtractor.PortfolioUrl | app/EnvatoExtractor.php:145-151 | found exactly when the link is located; the page's base URL followed by the trimmed href |
| EnvatoExtractor.ExtractPortfolioData | app/EnvatoExtractor.php:157-167 | a record exactly when the thumbnail image and the link are located, each field as its getter reads it, with preview, categories and price from the one image node; otherwise the error of the first missing expression in field order |
| EnvatoExtractor.ListedExactly | app/EnvatoExtractor.php:43-45 | an item is recorded exactly when it has a `data-item-id` that is neither `""` nor `"0"` |
| EnvatoExtractor.CollectFrom | app/EnvatoExtractor.php:40-48 | the walk never drops a key already gathered |
| EnvatoExtractor.CollectKeys | app/EnvatoExtractor.php:40-48 | a completed walk has as keys the earlier keys plus the truthy ids of the items |
| EnvatoExtractor.CollectKeepsUnlisted | app/EnvatoExtractor.php:40-48 | a key no item carries keeps its earlier record |
| EnvatoExtractor.CollectLastWins | app/EnvatoExtractor.php:45-47 | for a duplicated id, the record of the last item carrying it is kept |
| EnvatoExtractor.CollectFailsIff | app/EnvatoExtractor.php:42-48 | the walk fails exactly when some item with a truthy id has a record that cannot be built |
| EnvatoExtractor.CollectFirstFailure | app/EnvatoExtractor.php:42-48 | a failed walk reports the error of the first such item |
| EnvatoExtractor.Portfolios | app/EnvatoExtractor.php:32-51 | no product list gives "No portfolio found!"; a success is keyed exactly by the truthy ids of the `li` items below the list, and no key is falsy |
| EnvatoExtractor.PortfoliosLastWins | app/EnvatoExtractor.php:42-48 | each id maps to `extractPortfolioData` of the last `li` that carries it |
| EnvatoExtractor.PortfoliosFailsIff | app/EnvatoExtractor.php:42-48 | `getPortfolios` fails exactly when some listed item's record cannot be built |
| EnvatoExtractor.PortfoliosFirstFailure | app/EnvatoExtractor.php:42-48 | a failed `getPortfolios` reports the error of the first listed item whose record cannot be built |
| EnvatoExtractor.EnvatoExtractor.Wrap | app/EnvatoExtractor.php:9 | the portfolio extractor builds on the given generic extractor |
| EnvatoExtractor.EnvatoExtractor.Create | app/EnvatoExtractor.php:17-24 | an invalid URL fails with "Invalid URL: " and the URL, before any fetch; otherwise the load's error, or a fresh extractor holding the URL and the loaded document |
| EnvatoExtractor.EnvatoExtractor.GetPortfolios | app/EnvatoExtractor.php:32-51 | the loop's result equals the fold `Portfolios` over the loaded document and URL |

## Left out

- The cURL request options (redirects, user agent, 30-second timeout) and the network
  itself are not modelled. The fetch is the `transport` parameter, a function from the
  URL to either the body or cURL's error message.
- The HTML parser is the `parse` parameter. libxml's error buffering and the
  `preserveWhiteSpace` setting do not change any result the model states.
- XPath semantics are uninterpreted. The selectors are kept as exact strings, but the
  model says nothing about which nodes they match.
- A malformed expression makes `DOMXPath::query` return `false`. The model's query
  always returns a node list.
- `filter_var(..., FILTER_VALIDATE_URL)` is the `isValidUrl` parameter of `Create`.
- `parse_url` is modelled only for URLs of the shape scheme://host, followed by
  nothing or by a path, query or fragment (`IsSimpleUrl`). A host must not contain a
  control character, which `parse_url` would rewrite to `_`.
- BaseUrl, PortfolioUrl, ExtractPortfolioData, RecordBuilder, Portfolios and
  GetPortfolios require such a URL. For other URLs PHP may warn about a missing
  `host` or `scheme` key or treat user info and ports differently, and the model
  does not capture that.
- PHP turns numeric-string array keys (such as `"123"`) into integers, and
  overwriting a key keeps its first insertion position. The model's record map is
  keyed by the id string and has no order.
- safeTrim's float, null and array inputs (a type error or a float-to-string
  conversion) are not modelled. The model covers strings, integers and booleans.
- The URL property starts as `null` in PHP and as `""` in the model. Both are falsy,
  so `loadHTML` treats them alike.
- `EnvatoExtractor` extends `Extractor` in PHP. The model uses composition instead:
  an `EnvatoExtractor` holds its generic `Extractor` as `base`.
- The constructor's tests against a live portfolio page
  (tests/EnvatoExtractorTest.php:13-35) depend on the network and are not modelled.
- The warnings PHP emits when it reads the text of a missing heading or sales
  element are not modelled. Only the resulting empty value is.
- GetPortfolios: it requires a loaded document. Without one, PHP stops with a fatal
  error on `null`, which the model does not represent.
