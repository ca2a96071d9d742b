/**
 Link analysis (`AnalyzeLinks`). A pre-order walk over `a` elements: each `href`
 value that is neither empty nor fragment-only is resolved against the page URL;
 a resolved URL seen before is skipped; a new one is counted internal when the
 page URL is a literal prefix of it and external otherwise, and counted
 inaccessible when the reachability probe rejects it. The totals depend only on
 the SET of resolved URLs, which the contracts below make explicit.
 */
module Links {
  import opened Strings
  import opened Dom
  import opened Url

  /** `model.LinkAnalysis`. */
  datatype LinkAnalysis = LinkAnalysis(internalLinks: nat, externalLinks: nat, inaccessibleLinks: nat)

  /** What `AnalyzeLinks` works against: the page URL, `net/url`, and the
      `isAccessible` probe (a HEAD request answering below 400). */
  datatype Context = Context(baseUrl: string, lib: UrlLib, isAccessible: string -> bool)

  /** The walk's state: the `visited` set and the three counters. */
  datatype Tally = Tally(visited: set<string>, internal: nat, external: nat, broken: nat)

  /** Empty and fragment-only hrefs are skipped before resolution. */
  predicate Skipped(href: string) {
    href == "" || HasPrefix(href, "#")
  }

  /** The resolved URLs in `s` that the page URL prefixes. */
  function InternalOf(s: set<string>, base: string): set<string> {
    set u | u in s && HasPrefix(u, base)
  }

  /** The resolved URLs in `s` that the page URL does not prefix. */
  function ExternalOf(s: set<string>, base: string): set<string> {
    set u | u in s && !HasPrefix(u, base)
  }

  /** The resolved URLs in `s` the probe rejects. */
  function InaccessibleOf(s: set<string>, isAccessible: string -> bool): set<string> {
    set u | u in s && !isAccessible(u)
  }

  /** The counters agree with the visited set. */
  predicate Consistent(t: Tally, ctx: Context) {
    && t.internal == |InternalOf(t.visited, ctx.baseUrl)|
    && t.external == |ExternalOf(t.visited, ctx.baseUrl)|
    && t.broken == |InaccessibleOf(t.visited, ctx.isAccessible)|
  }

  /** The resolved URL an href contributes, if it is not skipped. */
  function Target(href: string, ctx: Context): set<string> {
    if Skipped(href) then {} else {ResolveUrl(href, ctx.baseUrl, ctx.lib)}
  }

  /** The resolved URLs of a list of hrefs. */
  function Targets(hrefs: seq<string>, ctx: Context): (r: set<string>)
    ensures forall u :: u in r <==> exists i :: 0 <= i < |hrefs| && u in Target(hrefs[i], ctx)
  {
    if hrefs == [] then {}
    else
      var r := Target(hrefs[0], ctx) + Targets(hrefs[1..], ctx);
      assert forall i :: 1 <= i < |hrefs| ==> hrefs[i] == hrefs[1..][i - 1];
      r
  }

  lemma {:induction false} TargetsAppend(a: seq<string>, b: seq<string>, ctx: Context)
    ensures Targets(a + b, ctx) == Targets(a, ctx) + Targets(b, ctx)
  {
    if a == [] {
      assert a + b == b;
    } else {
      assert (a + b)[1..] == a[1..] + b;
      TargetsAppend(a[1..], b, ctx);
    }
  }

  /** The `href` values of an attribute list, in order. */
  function HrefValues(attrs: seq<Attr>): (r: seq<string>)
    ensures forall v :: v in r <==> exists i :: 0 <= i < |attrs| && attrs[i].key == "href" && attrs[i].val == v
  {
    if attrs == [] then []
    else
      var rest := HrefValues(attrs[1..]);
      assert forall i :: 1 <= i < |attrs| ==> attrs[i] == attrs[1..][i - 1];
      (if attrs[0].key == "href" then [attrs[0].val] else []) + rest
  }

  /** The href values of the `a` elements among `ns`, in order. */
  function AnchorHrefs(ns: seq<Node>): seq<string> {
    if ns == [] then []
    else (if IsElement(ns[0], "a") then HrefValues(ns[0].attrs) else []) + AnchorHrefs(ns[1..])
  }

  lemma {:induction false} AnchorHrefsAppend(a: seq<Node>, b: seq<Node>)
    ensures AnchorHrefs(a + b) == AnchorHrefs(a) + AnchorHrefs(b)
  {
    if a == [] {
      assert a + b == b;
    } else {
      assert (a + b)[1..] == a[1..] + b;
      AnchorHrefsAppend(a[1..], b);
    }
  }

  /** The distinct resolved URLs of the document's links: what the walk visits. */
  function DocumentTargets(doc: Node, ctx: Context): set<string> {
    Targets(AnchorHrefs(PreOrder(doc)), ctx)
  }

  /** One href: skip, resolve, skip if seen, otherwise record and classify. */
  function VisitHref(t: Tally, href: string, ctx: Context): (r: Tally)
    ensures r.visited == t.visited + Target(href, ctx)
    ensures Consistent(t, ctx) ==> Consistent(r, ctx)
  {
    if Skipped(href) then t
    else
      var u := ResolveUrl(href, ctx.baseUrl, ctx.lib);
      if u in t.visited then t
      else
        var r := Tally(
          t.visited + {u},
          t.internal + (if HasPrefix(u, ctx.baseUrl) then 1 else 0),
          t.external + (if HasPrefix(u, ctx.baseUrl) then 0 else 1),
          t.broken + (if ctx.isAccessible(u) then 0 else 1));
        AddOne(t.visited, u, ctx);
        r
  }

  /** Adding a new URL grows exactly the classes it belongs to by one. */
  lemma AddOne(s: set<string>, u: string, ctx: Context)
    requires u !in s
    ensures |InternalOf(s + {u}, ctx.baseUrl)| == |InternalOf(s, ctx.baseUrl)| + (if HasPrefix(u, ctx.baseUrl) then 1 else 0)
    ensures |ExternalOf(s + {u}, ctx.baseUrl)| == |ExternalOf(s, ctx.baseUrl)| + (if HasPrefix(u, ctx.baseUrl) then 0 else 1)
    ensures |InaccessibleOf(s + {u}, ctx.isAccessible)| == |InaccessibleOf(s, ctx.isAccessible)| + (if ctx.isAccessible(u) then 0 else 1)
  {
    if HasPrefix(u, ctx.baseUrl) {
      assert InternalOf(s + {u}, ctx.baseUrl) == InternalOf(s, ctx.baseUrl) + {u};
      assert ExternalOf(s + {u}, ctx.baseUrl) == ExternalOf(s, ctx.baseUrl);
    } else {
      assert InternalOf(s + {u}, ctx.baseUrl) == InternalOf(s, ctx.baseUrl);
      assert ExternalOf(s + {u}, ctx.baseUrl) == ExternalOf(s, ctx.baseUrl) + {u};
    }
    if ctx.isAccessible(u) {
      assert InaccessibleOf(s + {u}, ctx.isAccessible) == InaccessibleOf(s, ctx.isAccessible);
    } else {
      assert InaccessibleOf(s + {u}, ctx.isAccessible) == InaccessibleOf(s, ctx.isAccessible) + {u};
    }
  }

  /** Every URL is either internal or external, never both. */
  lemma PartitionSize(s: set<string>, base: string)
    ensures |InternalOf(s, base)| + |ExternalOf(s, base)| == |s|
  {
    assert InternalOf(s, base) + ExternalOf(s, base) == s;
    assert InternalOf(s, base) !! ExternalOf(s, base);
  }

  /** The inaccessible URLs are some of the URLs. */
  lemma InaccessibleBound(s: set<string>, isAccessible: string -> bool)
    ensures |InaccessibleOf(s, isAccessible)| <= |s|
  {
    var a := InaccessibleOf(s, isAccessible);
    assert a + (s - a) == s;
    assert a !! (s - a);
  }

  /** The attribute loop over one `a` element: only `href` keys are considered. */
  function VisitAttrs(t: Tally, attrs: seq<Attr>, ctx: Context): (r: Tally)
    ensures r.visited == t.visited + Targets(HrefValues(attrs), ctx)
    ensures Consistent(t, ctx) ==> Consistent(r, ctx)
    decreases attrs
  {
    if attrs == [] then t
    else
      var t1 := if attrs[0].key == "href" then VisitHref(t, attrs[0].val, ctx) else t;
      var r := VisitAttrs(t1, attrs[1..], ctx);
      TargetsAppend(if attrs[0].key == "href" then [attrs[0].val] else [], HrefValues(attrs[1..]), ctx);
      assert [attrs[0].val][1..] == [];
      r
  }

  /** The recursive `f` of `AnalyzeLinks`. */
  function VisitLinks(n: Node, t: Tally, ctx: Context): (r: Tally)
    ensures r.visited == t.visited + Targets(AnchorHrefs(PreOrder(n)), ctx)
    ensures Consistent(t, ctx) ==> Consistent(r, ctx)
  {
    var own := if IsElement(n, "a") then HrefValues(n.attrs) else [];
    var t1 := if IsElement(n, "a") then VisitAttrs(t, n.attrs, ctx) else t;
    assert t1.visited == t.visited + Targets(own, ctx);
    var r := VisitLinkChildren(n.children, t1, ctx);
    AnchorHrefsAppend([n], Forest(n.children));
    assert [n][1..] == [];
    assert AnchorHrefs([n]) == own + AnchorHrefs([]);
    assert AnchorHrefs(PreOrder(n)) == own + AnchorHrefs(Forest(n.children));
    TargetsAppend(own, AnchorHrefs(Forest(n.children)), ctx);
    r
  }

  /** The FirstChild/NextSibling loop of `f`. */
  function VisitLinkChildren(cs: seq<Node>, t: Tally, ctx: Context): (r: Tally)
    ensures r.visited == t.visited + Targets(AnchorHrefs(Forest(cs)), ctx)
    ensures Consistent(t, ctx) ==> Consistent(r, ctx)
  {
    if cs == [] then t
    else
      var t1 := VisitLinks(cs[0], t, ctx);
      var r := VisitLinkChildren(cs[1..], t1, ctx);
      AnchorHrefsAppend(PreOrder(cs[0]), Forest(cs[1..]));
      TargetsAppend(AnchorHrefs(PreOrder(cs[0])), AnchorHrefs(Forest(cs[1..])), ctx);
      r
  }

  /** Link totals: over the distinct resolved URLs of the document's `a` hrefs
      (empty and fragment-only ones excluded), those the page URL prefixes,
      those it does not, and those the probe rejects. */
  function AnalyzeLinks(doc: Node, baseUrl: string, lib: UrlLib, isAccessible: string -> bool): (r: LinkAnalysis)
    ensures
      var ctx := Context(baseUrl, lib, isAccessible);
      var targets := DocumentTargets(doc, ctx);
      && r.internalLinks == |set u | u in targets && HasPrefix(u, baseUrl)|
      && r.externalLinks == |set u | u in targets && !HasPrefix(u, baseUrl)|
      && r.internalLinks + r.externalLinks == |targets|
      && r.inaccessibleLinks == |set u | u in targets && !isAccessible(u)|
      && r.inaccessibleLinks <= r.internalLinks + r.externalLinks
  {
    var ctx := Context(baseUrl, lib, isAccessible);
    var t := VisitLinks(doc, Tally({}, 0, 0, 0), ctx);
    var targets := DocumentTargets(doc, ctx);
    assert t.visited == targets;
    PartitionSize(targets, baseUrl);
    InaccessibleBound(targets, isAccessible);
    LinkAnalysis(t.internal, t.external, t.broken)
  }

  /** When every href of every `a` element is empty or fragment-only, nothing is
      counted; in particular a document without links gives all zeros. */
  lemma OnlySkippedHrefs(doc: Node, baseUrl: string, lib: UrlLib, isAccessible: string -> bool)
    requires forall h :: h in AnchorHrefs(PreOrder(doc)) ==> Skipped(h)
    ensures AnalyzeLinks(doc, baseUrl, lib, isAccessible) == LinkAnalysis(0, 0, 0)
  {
    var ctx := Context(baseUrl, lib, isAccessible);
    var hs := AnchorHrefs(PreOrder(doc));
    assert forall i :: 0 <= i < |hs| ==> Target(hs[i], ctx) == {};
    assert DocumentTargets(doc, ctx) == {};
  }

  /** An href that starts with anything but '#' is followed. */
  lemma NotSkipped(h: string)
    requires |h| > 0 && h[0] != '#'
    ensures !Skipped(h)
  {
  }

  /** An `a` element with one `href` attribute and no children. */
  function Anchor(href: string): Node {
    Node(Element, "a", [Attr("href", href)], [])
  }

  /** The hrefs of one anchor. */
  lemma AnchorHref(h: string)
    ensures AnchorHrefs([Anchor(h)]) == [h]
  {
    var attrs := [Attr("href", h)];
    assert attrs[1..] == [];
    assert HrefValues(attrs) == [h] + HrefValues([]);
    assert [Anchor(h)][1..] == [];
    assert AnchorHrefs([Anchor(h)]) == [h] + AnchorHrefs([]);
  }

  /** A node that is not an `a` element contributes no href of its own. */
  lemma NonAnchorFirst(n: Node, ns: seq<Node>)
    requires !IsElement(n, "a")
    ensures AnchorHrefs([n] + ns) == AnchorHrefs(ns)
  {
    assert ([n] + ns)[1..] == ns;
  }

  /** The hrefs of a document whose children are two anchors. */
  lemma TwoAnchorHrefs(h1: string, h2: string)
    ensures AnchorHrefs(PreOrder(Node(Document, "", [], [Anchor(h1), Anchor(h2)]))) == [h1, h2]
  {
    var a1, a2 := Anchor(h1), Anchor(h2);
    var doc := Node(Document, "", [], [a1, a2]);
    assert [a1, a2][1..] == [a2] && [a2][1..] == [];
    assert Forest([a2]) == [a2];
    assert Forest([a1, a2]) == [a1, a2];
    assert PreOrder(doc) == [doc, a1, a2];
    NonAnchorFirst(doc, [a1, a2]);
    AnchorHref(h1);
    AnchorHref(h2);
    AnchorHrefsAppend([a1], [a2]);
    assert [a1] + [a2] == [a1, a2];
  }

  /** Two anchors whose hrefs resolve to the same URL count once, whatever their
      raw text: the result is that of the page with only the first one. */
  lemma SameTargetCountsOnce(h1: string, h2: string, baseUrl: string, lib: UrlLib, isAccessible: string -> bool)
    requires !Skipped(h1) && !Skipped(h2)
    requires ResolveUrl(h1, baseUrl, lib) == ResolveUrl(h2, baseUrl, lib)
    ensures
      var twice := Node(Document, "", [], [Anchor(h1), Anchor(h2)]);
      var once := Node(Document, "", [], [Anchor(h1)]);
      AnalyzeLinks(twice, baseUrl, lib, isAccessible) == AnalyzeLinks(once, baseUrl, lib, isAccessible)
  {
    var ctx := Context(baseUrl, lib, isAccessible);
    var a1 := Anchor(h1);
    var once := Node(Document, "", [], [a1]);
    TwoAnchorHrefs(h1, h2);
    assert [a1][1..] == [];
    assert Forest([a1]) == [a1];
    assert PreOrder(once) == [once, a1];
    NonAnchorFirst(once, [a1]);
    AnchorHref(h1);
    assert AnchorHrefs(PreOrder(once)) == [h1];
    assert Targets([h1, h2], ctx) == Targets([h1], ctx);
  }

  /** A single link is counted once, as internal or external by the prefix test,
      and as inaccessible exactly when the probe rejects it. */
  lemma SingleLink(h: string, baseUrl: string, lib: UrlLib, isAccessible: string -> bool)
    requires !Skipped(h)
    ensures
      var u := ResolveUrl(h, baseUrl, lib);
      var r := AnalyzeLinks(Node(Document, "", [], [Anchor(h)]), baseUrl, lib, isAccessible);
      && r.internalLinks == (if HasPrefix(u, baseUrl) then 1 else 0)
      && r.externalLinks == (if HasPrefix(u, baseUrl) then 0 else 1)
      && r.inaccessibleLinks == (if isAccessible(u) then 0 else 1)
  {
    var ctx := Context(baseUrl, lib, isAccessible);
    var u := ResolveUrl(h, baseUrl, lib);
    var a := Anchor(h);
    var doc := Node(Document, "", [], [a]);
    assert [a][1..] == [];
    assert Forest([a]) == [a];
    assert PreOrder(doc) == [doc, a];
    NonAnchorFirst(doc, [a]);
    AnchorHref(h);
    assert AnchorHrefs(PreOrder(doc)) == [h];
    assert DocumentTargets(doc, ctx) == {u};
    if HasPrefix(u, baseUrl) {
      assert (set v | v in {u} && HasPrefix(v, baseUrl)) == {u};
    } else {
      assert (set v | v in {u} && !HasPrefix(v, baseUrl)) == {u};
    }
    if !isAccessible(u) {
      assert (set v | v in {u} && !isAccessible(v)) == {u};
    }
  }

  /** An href attribute outside an `a` element (here on `link`) is not a link. */
  lemma NonAnchorIgnored(h: string, baseUrl: string, lib: UrlLib, isAccessible: string -> bool)
    ensures
      var link := Node(Element, "link", [Attr("href", h)], []);
      AnalyzeLinks(Node(Document, "", [], [link]), baseUrl, lib, isAccessible) == LinkAnalysis(0, 0, 0)
  {
    var link := Node(Element, "link", [Attr("href", h)], []);
    var doc := Node(Document, "", [], [link]);
    assert [link][1..] == [];
    assert Forest([link]) == [link];
    assert PreOrder(doc) == [doc, link];
    NonAnchorFirst(doc, [link]);
    NonAnchorFirst(link, []);
    assert [link] + [] == [link];
    assert AnchorHrefs(PreOrder(doc)) == [];
    OnlySkippedHrefs(doc, baseUrl, lib, isAccessible);
  }

  /** Two links to different URLs are both counted, each by its own prefix test. */
  lemma TwoDistinctLinks(h1: string, h2: string, baseUrl: string, lib: UrlLib, isAccessible: string -> bool)
    requires !Skipped(h1) && !Skipped(h2)
    requires ResolveUrl(h1, baseUrl, lib) != ResolveUrl(h2, baseUrl, lib)
    ensures
      var u1, u2 := ResolveUrl(h1, baseUrl, lib), ResolveUrl(h2, baseUrl, lib);
      var r := AnalyzeLinks(Node(Document, "", [], [Anchor(h1), Anchor(h2)]), baseUrl, lib, isAccessible);
      && r.internalLinks == (if HasPrefix(u1, baseUrl) then 1 else 0) + (if HasPrefix(u2, baseUrl) then 1 else 0)
      && r.externalLinks == (if HasPrefix(u1, baseUrl) then 0 else 1) + (if HasPrefix(u2, baseUrl) then 0 else 1)
  {
    var ctx := Context(baseUrl, lib, isAccessible);
    var u1, u2 := ResolveUrl(h1, baseUrl, lib), ResolveUrl(h2, baseUrl, lib);
    var doc := Node(Document, "", [], [Anchor(h1), Anchor(h2)]);
    TwoAnchorHrefs(h1, h2);
    assert [h1, h2][1..] == [h2];
    assert [h2][1..] == [];
    assert Targets([h2], ctx) == {u2};
    assert DocumentTargets(doc, ctx) == {u1} + {u2};
    AddOne({u1}, u2, ctx);
    AddOne({}, u1, ctx);
    assert {} + {u1} == {u1};
    assert InternalOf({}, baseUrl) == {} && ExternalOf({}, baseUrl) == {};
  }

  /** The totals depend on the document only through the href values of its
      `a` elements in document order: any wrapping, and any other node, is
      irrelevant. */
  lemma SameHrefsSameAnalysis(d1: Node, d2: Node, baseUrl: string, lib: UrlLib, isAccessible: string -> bool)
    requires AnchorHrefs(PreOrder(d1)) == AnchorHrefs(PreOrder(d2))
    ensures AnalyzeLinks(d1, baseUrl, lib, isAccessible) == AnalyzeLinks(d2, baseUrl, lib, isAccessible)
  {
  }

  /** An `a` element with one `href` attribute and one text child, as the
      parser builds `<a href="...">text</a>`. */
  function TextLink(href: string, text: string): Node {
    Node(Element, "a", [Attr("href", href)], [Node(Text, text, [], [])])
  }

  /** The tree the parser builds for `<html><body>` holding two links: a
      document node over `html`, which holds an empty `head` and the `body`. */
  function TwoLinkPage(a1: Node, a2: Node): Node {
    Node(Document, "", [], [Node(Element, "html", [], [Node(Element, "head", [], []), Node(Element, "body", [], [a1, a2])])])
  }

  /** A node that is not an `a` element and has one child adds no href. */
  lemma WrapperHrefs(n: Node)
    requires !IsElement(n, "a") && |n.children| == 1
    ensures AnchorHrefs(PreOrder(n)) == AnchorHrefs(PreOrder(n.children[0]))
  {
    OneChild(n);
    NonAnchorFirst(n, PreOrder(n.children[0]));
  }

  /** Same, for a node with two children. */
  lemma PairHrefs(n: Node)
    requires !IsElement(n, "a") && |n.children| == 2
    ensures AnchorHrefs(PreOrder(n)) == AnchorHrefs(PreOrder(n.children[0])) + AnchorHrefs(PreOrder(n.children[1]))
  {
    var p0, p1 := PreOrder(n.children[0]), PreOrder(n.children[1]);
    TwoChildren(n);
    assert PreOrder(n) == [n] + (p0 + p1);
    NonAnchorFirst(n, p0 + p1);
    AnchorHrefsAppend(PreOrder(n.children[0]), PreOrder(n.children[1]));
  }

  /** The `html` wrapper, the empty `head` and the `body` add no href. */
  lemma TwoLinkPageHrefs(a1: Node, a2: Node)
    ensures AnchorHrefs(PreOrder(TwoLinkPage(a1, a2))) == AnchorHrefs(PreOrder(a1)) + AnchorHrefs(PreOrder(a2))
  {
    var doc := TwoLinkPage(a1, a2);
    var html := doc.children[0];
    var head, body := html.children[0], html.children[1];
    WrapperHrefs(doc);
    PairHrefs(html);
    assert PreOrder(head) == [head];
    NonAnchorFirst(head, []);
    PairHrefs(body);
  }

  /** The link text is not an href: a text link contributes its href only. */
  lemma TextLinkHrefs(h: string, t: string)
    ensures AnchorHrefs(PreOrder(TextLink(h, t))) == [h]
  {
    var a := TextLink(h, t);
    var text := a.children[0];
    OneChild(a);
    assert PreOrder(text) == [text];
    NonAnchorFirst(text, []);
    AnchorHrefsAppend([a], [text]);
    var attrs := [Attr("href", h)];
    assert attrs[1..] == [];
    assert HrefValues(attrs) == [h] + HrefValues([]);
    assert [a][1..] == [];
    assert AnchorHrefs([a]) == [h] + AnchorHrefs([]);
  }

  /** The parsed page with two text links has the hrefs of the flat document
      with two bare anchors, so the two give the same totals. */
  lemma TwoLinkPageAsAnchors(h1: string, t1: string, h2: string, t2: string, baseUrl: string, lib: UrlLib, isAccessible: string -> bool)
    ensures AnalyzeLinks(TwoLinkPage(TextLink(h1, t1), TextLink(h2, t2)), baseUrl, lib, isAccessible)
         == AnalyzeLinks(Node(Document, "", [], [Anchor(h1), Anchor(h2)]), baseUrl, lib, isAccessible)
  {
    TwoLinkPageHrefs(TextLink(h1, t1), TextLink(h2, t2));
    TextLinkHrefs(h1, t1);
    TextLinkHrefs(h2, t2);
    TwoAnchorHrefs(h1, h2);
    SameHrefsSameAnalysis(TwoLinkPage(TextLink(h1, t1), TextLink(h2, t2)), Node(Document, "", [], [Anchor(h1), Anchor(h2)]), baseUrl, lib, isAccessible);
  }

  /** The URLs of the "/home" and "https://google.com" example. */
  lemma HomeAndGoogleUrls(lib: UrlLib)
    requires FollowsRfc3986(lib)
    ensures ResolveUrl("/home", "https://example.com", lib) == "https://example.com/home"
    ensures ResolveUrl("https://google.com", "https://example.com", lib) == "https://google.com"
    ensures HasPrefix("https://example.com/home", "https://example.com")
    ensures !HasPrefix("https://google.com", "https://example.com")
  {
    var example := Origin("https", "example.com");
    var google := Origin("https", "google.com");
    ExampleComOrigin();
    assert ValidOrigin(google);
    assert Serialize(google, "") == "https://google.com";
    assert IsAbsolutePath("/home");
    ResolveAbsolutePath(lib, example, "", "/home");
    ResolveAbsoluteUrl(lib, example, "", google, "");
    assert Serialize(example, "/home") == "https://example.com/home";
    assert "https://google.com"[8] != "https://example.com"[8];
  }

  /** `<a href="/home">Home</a>` and `<a href="https://google.com">Google</a>`
      in the body of a page on "https://example.com": one internal link and one
      external link, given a `net/url` that follows RFC 3986. */
  lemma HomeAndGoogle(lib: UrlLib, isAccessible: string -> bool)
    requires FollowsRfc3986(lib)
    ensures
      var doc := TwoLinkPage(TextLink("/home", "Home"), TextLink("https://google.com", "Google"));
      var r := AnalyzeLinks(doc, "https://example.com", lib, isAccessible);
      r.internalLinks == 1 && r.externalLinks == 1
  {
    HomeAndGoogleUrls(lib);
    NotSkipped("/home");
    NotSkipped("https://google.com");
    assert "https://example.com/home" != "https://google.com";
    TwoDistinctLinks("/home", "https://google.com", "https://example.com", lib, isAccessible);
    TwoLinkPageAsAnchors("/home", "Home", "https://google.com", "Google", "https://example.com", lib, isAccessible);
  }

  /** The URLs of the "/about" and "/contact" example. */
  lemma AboutAndContactUrls(lib: UrlLib)
    requires FollowsRfc3986(lib)
    ensures ResolveUrl("/about", "https://example.com", lib) == "https://example.com/about"
    ensures ResolveUrl("/contact", "https://example.com", lib) == "https://example.com/contact"
    ensures HasPrefix("https://example.com/about", "https://example.com")
    ensures HasPrefix("https://example.com/contact", "https://example.com")
  {
    var example := Origin("https", "example.com");
    ExampleComOrigin();
    assert IsAbsolutePath("/about") && IsAbsolutePath("/contact");
    ResolveAbsolutePath(lib, example, "", "/about");
    ResolveAbsolutePath(lib, example, "", "/contact");
    assert Serialize(example, "/about") == "https://example.com/about";
    assert Serialize(example, "/contact") == "https://example.com/contact";
  }

  /** `<a href="/about">About</a>` and `<a href="/contact">Contact</a>` in the
      body of a page on "https://example.com": two internal links and no
      external one, given a `net/url` that follows RFC 3986. */
  lemma AboutAndContact(lib: UrlLib, isAccessible: string -> bool)
    requires FollowsRfc3986(lib)
    ensures
      var doc := TwoLinkPage(TextLink("/about", "About"), TextLink("/contact", "Contact"));
      var r := AnalyzeLinks(doc, "https://example.com", lib, isAccessible);
      r.internalLinks == 2 && r.externalLinks == 0
  {
    AboutAndContactUrls(lib);
    NotSkipped("/about");
    NotSkipped("/contact");
    assert "https://example.com/about"[20] != "https://example.com/contact"[20];
    TwoDistinctLinks("/about", "/contact", "https://example.com", lib, isAccessible);
    TwoLinkPageAsAnchors("/about", "About", "/contact", "Contact", "https://example.com", lib, isAccessible);
  }
}
