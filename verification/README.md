# web-analyzer-be document-analysis engine, in Dafny

The service fetches a web page and reports a structural fingerprint of it. The
fingerprint has five parts:

- the HTML version,
- the page title,
- how many headings of each level the page has,
- whether it looks like it has a login form,
- its links, split into internal and external, plus how many are unreachable.

The engine behind this is the set of extractors in `internal/util/util.go`.
Each one walks the parsed HTML node tree. This project models those extractors
as pure Dafny functions over an immutable node tree, and proves what each one
computes.

- `Dom` (dom.dfy) defines the node tree:
  - `Node` has a kind, data, attributes and children.
  - The children sequence stands for the FirstChild/NextSibling chain.
  - `PreOrder` / `Forest` give the document order that every walk follows. The
    contracts are stated against this order.
- `Strings` (strings.dfy) models the parts of Go's `strings` package the engine
  uses: prefix test, substring test and lower-casing.
- `Version` (version.dfy) models `GetHTMLVersion`.
- `Title` (title.dfy) models `GetTitle`.
- `Headings` (headings.dfy) models `CountHeadings`.
- `Login` (login.dfy) models `ContainsLoginForm` and `containsKeyword`.
- `Url` (url.dfy) models `resolveURL`. The `net/url` parser is a parameter (a
  `UrlLib` value). `FollowsRfc3986` is a hypothesis that this parameter behaves
  as section 5.2.2 of RFC 3986 prescribes for plain URLs.
- `Links` (links.dfy) models `AnalyzeLinks` and the `LinkAnalysis` record. The
  reachability probe `isAccessible` is a parameter (`string -> bool`).
- `Samples` / `SampleChecks` (samples.dfy) build the unit tests' example page.
  They prove the results those tests expect.

The functions follow the Go recursion shape. Each closure `f` becomes a function
over one node plus a function over its sibling list. The variable a closure
captures (`title`, `counts`, `visited` and the counters) becomes a parameter
that is passed in and returned. The contracts then relate each result to a
reference definition over `PreOrder`. For example, a heading count is the number
of elements with that tag in document order. A link total is the size of a set
of resolved URLs.

Two places where the written design of the service and the code disagree; the
model follows the code in both:

- **Which title wins.**
  - The design says the title search stops at the first `title` element.
  - In the code, the `return` at `util.go:32` leaves only the current call. The
    sibling loop of the caller goes on. So a later title overwrites an earlier
    one, and `GetTitle` returns the text of the LAST title element that has a
    child.
  - `Title.KeepsLastTitle` exhibits this.
  - A title nested inside a matched title is not visited (`Title.NestedTitleNotSearched`).
- **Where login keywords are found.**
  - The design says `containsKeyword` looks at the element's attributes and the
    text of its descendants.
  - The code recurses through `containsKeyword` itself (`util.go:111-115`). So
    the attribute values of descendants count as well.

## Model

| member | source | states |
|---|---|---|
| Strings.Contains | internal/util/util.go:19 | the substring test holds exactly when the needle occurs at some offset of the string |
| Strings.Lower | internal/util/util.go:93 | lower-casing keeps the length, maps each upper-case ASCII letter to its lower-case letter, keeps every other character, and leaves no upper-case letter |
| Version.GetHtmlVersion | internal/util/util.go:17-24 | the answer is "HTML5" or "Unknown", and it is "HTML5" exactly when some Content-Type value contains "html"; an empty value list gives "Unknown" |
| Version.TextHtmlIsHtml5 | internal/util/util_test.go:55-63 | the value "text/html" gives "HTML5" |
| Version.UpperCaseIsUnknown | internal/util/util.go:19 | the test is case-sensitive: "TEXT/HTML" alone gives "Unknown" |
| Title.ExposedTitles | internal/util/util.go:29-37 | the titles the search reaches are the title elements with a child among the nodes it visits, in visiting order; the subtree below such a title is not visited; all are in the tree, and the list is empty exactly when the tree has no such title |
| Title.VisitTitle | internal/util/util.go:29-37 | the search leaves the text of the last title it reaches in document order, or the incoming value when it reaches none |
| Title.GetTitle | internal/util/util.go:26-40 | the result is the first child's data of the LAST title the search reaches in visiting order, or empty when it reaches none; empty when the document has no title element with a child, and otherwise the text of such a title in the document |
| Title.LastTitleInDocumentOrder | internal/util/util.go:29-37 | when no title with a child holds another one, the result is the text of the last title with a child in document order |
| Title.NestedTitleNotSearched | internal/util/util.go:30-33 | in `<title><title>x</title></title>` the inner title is never reached: the result is the outer title's first child's data ("title"), not the last title in document order |
| Title.UniqueTitle | internal/util/util.go:26-40 | when exactly one title element with a child exists, at any depth, the result is its first child's data |
| Title.KeepsLastTitle | internal/util/util.go:30-35 | of two sibling titles, the second one's text is returned |
| Headings.CountNode | internal/util/util.go:45-55 | the walk adds, for every tag, the number of heading elements with that tag in the subtree to the incoming count; existing keys stay; new keys are heading tags with a positive count |
| Headings.CountHeadings | internal/util/util.go:42-58 | the keys are heading tags only and every stored count is positive; each heading tag maps to the number of elements with that tag in the document, and is present exactly when that number is positive |
| Headings.CountHeadingsUnique | internal/util/util.go:42-58 | the heading map is the only map with heading-tag keys and positive values that agrees with those element counts |
| Headings.TextIsNotHeading | internal/util/util.go:46 | a text node whose content is "h1" is not counted |
| Headings.NestedHeadingCounted | internal/util/util.go:52-54 | an h1 nested inside a body is counted once and nothing else is counted |
| Login.ScanKeywords | internal/util/util.go:94-98 | the keyword loop answers true exactly when some keyword is a substring of the string |
| Login.ScanAttrs | internal/util/util.go:92-99 | the attribute loop answers true exactly when some attribute value, lower-cased, contains a keyword |
| Login.ContainsKeyword | internal/util/util.go:91-118 | true exactly when some node of the subtree has a lower-cased attribute value containing a keyword, or is a text node whose lower-cased data contains one |
| Login.VisitChain | internal/util/util.go:65-85 | the walk over a node and its following siblings, with its early exits, finds a login form exactly when one lies in those subtrees |
| Login.ContainsLoginForm | internal/util/util.go:60-89 | true exactly when some form, input, button or label element in the document passes the keyword check |
| Login.LoginFormIff | internal/util/util.go:60-118 | the same, with the keyword check unfolded: some login-tag element has a node in its own subtree that mentions a keyword |
| Login.NoKeywordNoLoginForm | internal/util/util.go:60-118 | a document with no keyword in any attribute value or text has no login form |
| Login.PasswordInputSuffices | internal/util/util.go:72-74 | an input element anywhere whose attribute value is "password" makes the answer true |
| Login.ParagraphTextDoesNotCount | internal/util/util.go:66-78 | keyword text in a paragraph, with no login tag above it, does not count |
| Login.ShortStringMentionsNothing | internal/util/util.go:63 | no keyword is shorter than five characters |
| Login.AttributeKeysIgnored | internal/util/util.go:92-93 | attribute keys are not inspected: an input whose only attribute is keyed "password" with a short value is not a login form |
| Url.ResolveUrl | internal/util/util.go:164-174 | the href comes back unchanged when the base or the href fails to parse; otherwise the result is the reference resolution of the href against the base |
| Url.ResolveAbsolutePath | internal/util/util.go:173 | under RFC 3986 resolution, an absolute-path href takes the base's scheme and host with its own path |
| Url.ResolveAbsoluteUrl | internal/util/util.go:173 | under RFC 3986 resolution, an absolute URL href resolves to itself |
| Url.ResolvePathExample | internal/util/util_test.go:65-70 | "/path" against "https://example.com" gives "https://example.com/path" |
| Links.HrefValues | internal/util/util.go:128-130 | the values taken from an element are exactly the values of its attributes keyed "href" |
| Links.VisitHref | internal/util/util.go:130-147 | one href adds its resolved URL (none when empty or fragment-only) to the visited set, and keeps every counter equal to the size of its part of that set |
| Links.AddOne | internal/util/util.go:138-147 | adding a new URL raises the internal count by one when the base URL prefixes it and the external count otherwise, and the inaccessible count by one exactly when the probe rejects it |
| Links.VisitAttrs | internal/util/util.go:128-149 | the attribute loop adds the targets of all href values to the visited set, keeping the counters consistent with it |
| Links.VisitLinks | internal/util/util.go:126-154 | the walk adds the targets of every href of every a element of the subtree, keeping the counters consistent with the visited set |
| Links.AnalyzeLinks | internal/util/util.go:121-162 | over the set of distinct resolved URLs of the document's a hrefs: internal counts those the base URL prefixes, external the rest, and the two add up to the set's size; inaccessible counts those the probe rejects, never more than that size |
| Links.PartitionSize | internal/util/util.go:140-144 | every visited URL is counted as exactly one of internal and external |
| Links.OnlySkippedHrefs | internal/util/util.go:131-133 | when every a href is empty or fragment-only, including when there is none, all three totals are zero |
| Links.SameTargetCountsOnce | internal/util/util.go:135-138 | two links that resolve to the same URL count as one |
| Links.SingleLink | internal/util/util.go:134-147 | one link is counted once, as internal or external by the prefix test, and as inaccessible exactly when the probe rejects it |
| Links.TwoDistinctLinks | internal/util/util.go:138-144 | two links to different URLs are each counted by their own prefix test |
| Links.NonAnchorIgnored | internal/util/util.go:127 | an href on an element other than a is not a link |
| Links.SameHrefsSameAnalysis | internal/util/util.go:121-162 | two documents whose a elements carry the same href values in document order get the same totals |
| Links.TwoLinkPageAsAnchors | internal/util/util.go:126-130 | the html, head and body wrappers and the link text add no href: the parsed two-link page gives the totals of two bare anchors |
| Links.AboutAndContact | internal/util/util_test.go:85-101 | the page `<html><body>` with links "/about" and "/contact" on "https://example.com" has two internal links and no external one |
| Links.HomeAndGoogle | internal/util/util_test.go:103-119 | the page `<html><body>` with links "/home" and "https://google.com" on "https://example.com" has one internal and one external link |
| SampleChecks.SampleTitle | internal/util/util_test.go:32-38 | the test page's title is "Test Page" |
| SampleChecks.SampleHeadings | internal/util/util_test.go:40-46 | the test page has one h1, one h2 and one h3 and no other heading entry |
| SampleChecks.SampleLogin | internal/util/util_test.go:48-53 | the test page has a login form |

## Left out

- `ParseHTML` (`util.go:13-15`) is not modelled. It is the HTML parser, and the model takes the parsed tree as input.
- `isAccessible` (`util.go:176-182`) is not modelled. It makes an HTTP HEAD request, so the model takes the probe as a parameter. Its result for a given URL is fixed within one analysis. The probe tests in `util_test.go:72-83` depend on the network.
- The `net/url` functions `Parse`, `ResolveReference` and `String` are parameters. `FollowsRfc3986` describes them only for plain URLs:
  - lower-case scheme and host;
  - paths without dot segments;
  - no query, fragment, port or escaping.
  Relative paths without a leading '/' are not covered.
- Version.GetHtmlVersion takes the list of Content-Type values as input. Go's canonical header-key lookup is not modelled.
- Strings.Lower lower-cases ASCII letters only. The Unicode case mapping of `strings.ToLower` is not modelled, because Dafny strings carry no Unicode tables.
- Login.ContainsLoginForm starts its walk at the root with no following siblings. This is the case for a document node. For a non-root node, the code would also visit the node's following siblings.
- Counters are unbounded. Go's `int` cannot overflow on any real page.
- Probe ordering and timing are not modelled: probes run one after another and have no timeout in the code. The totals do not depend on the order.
- The sample pages leave out the whitespace text nodes that the HTML parser creates between tags. None of the extractors counts them, because only keyword matches, titles, headings and links matter.
- The request handler, the analyzer service and the server entry point are not part of this model.
