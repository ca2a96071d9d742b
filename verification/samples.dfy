/**
 The document of the extractors' unit tests: a doctype, then
 `<html><head><title>Test Page</title></head><body>` with an h1, an h2 and an
 h3, a form holding `<input type="password"/>`, and three links. Whitespace-only
 text nodes between tags are left out of the tree; none of the extractors
 depends on them.

 The page is built around its body's children, so that its shape can be reasoned
 about for any children of the same form and the literal children are looked at
 only where their contents matter.
 */
module Samples {
  import opened Dom

  function Leaf(kind: NodeKind, data: string): Node {
    Node(kind, data, [], [])
  }

  function Elem(tag: string, attrs: seq<Attr>, children: seq<Node>): Node {
    Node(Element, tag, attrs, children)
  }

  function Doctype(): Node { Leaf(Other, "html") }
  function TitleElem(): Node { Elem("title", [], [Leaf(Text, "Test Page")]) }
  function Head(): Node { Elem("head", [], [TitleElem()]) }
  function H(tag: string, text: string): Node { Elem(tag, [], [Leaf(Text, text)]) }
  function PasswordInput(): Node { Elem("input", [Attr("type", "password")], []) }
  function Form(): Node { Elem("form", [], [PasswordInput()]) }
  function Link(href: string, text: string): Node { Elem("a", [Attr("href", href)], [Leaf(Text, text)]) }

  function BodyChildren(): seq<Node> {
    [ H("h1", "Main"), H("h2", "Sub"), H("h3", "SubSub"), Form(),
      Link("/internal", "Internal"), Link("https://external.com", "External"),
      Link("http://invalid.localhost.test", "Broken") ]
  }

  function Body(cs: seq<Node>): Node { Elem("body", [], cs) }
  function Html(cs: seq<Node>): Node { Elem("html", [], [Head(), Body(cs)]) }
  function Page(cs: seq<Node>): Node { Node(Document, "", [], [Doctype(), Html(cs)]) }
  function TestDocument(): Node { Page(BodyChildren()) }

  /** Every node of `cs` has exactly one child, and that child is a leaf. */
  predicate OneLeafEach(cs: seq<Node>) {
    forall i :: 0 <= i < |cs| ==> |cs[i].children| == 1 && cs[i].children[0].children == []
  }

  /** Body children like the test's: one leaf child each, no title element among
      them or their children, and no heading among their children. "No heading"
      is stated as "no two-letter tag": every heading tag has two letters, and
      one length comparison is much cheaper for the verifier than six string
      comparisons against the heading tags. */
  predicate PlainBody(cs: seq<Node>) {
    && OneLeafEach(cs)
    && forall i :: 0 <= i < |cs| ==>
      && cs[i].data != "title"
      && cs[i].children[0].data != "title"
      && |cs[i].children[0].data| != 2
  }

  /** Each node of `cs` followed by its one child. */
  function Pairs(cs: seq<Node>): seq<Node>
    requires OneLeafEach(cs)
  {
    if cs == [] then [] else [cs[0], cs[0].children[0]] + Pairs(cs[1..])
  }

  /** A list of nodes with one leaf child each, in document order. */
  lemma {:induction false} ForestOfPairs(cs: seq<Node>)
    requires OneLeafEach(cs)
    ensures Forest(cs) == Pairs(cs)
  {
    if cs != [] {
      ForestOfPairs(cs[1..]);
      ForestSingleton(cs[0].children[0]);
      assert cs[0].children == [cs[0].children[0]];
    }
  }

  /** The nodes of `Pairs(cs)` are those of `cs` and their children. */
  lemma {:induction false} InPairs(cs: seq<Node>, m: Node)
    requires OneLeafEach(cs)
    requires m in Pairs(cs)
    ensures exists i :: 0 <= i < |cs| && (m == cs[i] || m == cs[i].children[0])
  {
    if m != cs[0] && m != cs[0].children[0] {
      InPairs(cs[1..], m);
      var i :| 0 <= i < |cs[1..]| && (m == cs[1..][i] || m == cs[1..][i].children[0]);
      assert cs[1..][i] == cs[i + 1];
    }
  }

  /** When no child is a `tag` element, only the parents count. */
  lemma {:induction false} CountPairs(cs: seq<Node>, tag: string)
    requires OneLeafEach(cs)
    requires forall i :: 0 <= i < |cs| ==> !IsElement(cs[i].children[0], tag)
    ensures CountElements(Pairs(cs), tag) == CountElements(cs, tag)
  {
    if cs != [] {
      CountPairs(cs[1..], tag);
      CountElementsAppend([cs[0], cs[0].children[0]], Pairs(cs[1..]), tag);
      assert [cs[0], cs[0].children[0]][1..] == [cs[0].children[0]];
    }
  }

  /** An h1, an h2 and an h3 come first, and no later node is a heading, again
      stated as "has no two-letter tag". */
  predicate HeadingsFirst(cs: seq<Node>) {
    && |cs| >= 3
    && IsElement(cs[0], "h1") && IsElement(cs[1], "h2") && IsElement(cs[2], "h3")
    && forall i :: 3 <= i < |cs| ==> |cs[i].data| != 2
  }

  /** The test's body children are of both forms. */
  lemma BodyTags()
    ensures PlainBody(BodyChildren())
    ensures HeadingsFirst(BodyChildren())
  {
  }

  /** The head in document order. */
  lemma HeadOrder()
    ensures PreOrder(Head()) == [Head(), TitleElem(), Leaf(Text, "Test Page")]
  {
    OneChild(Head());
    OneChild(TitleElem());
  }

  /** The body in document order. */
  lemma BodyOrder(cs: seq<Node>)
    requires OneLeafEach(cs)
    ensures PreOrder(Body(cs)) == [Body(cs)] + Pairs(cs)
  {
    ForestOfPairs(cs);
  }

  /** The html element in document order. */
  lemma HtmlOrder(cs: seq<Node>)
    ensures PreOrder(Html(cs)) == [Html(cs)] + PreOrder(Head()) + PreOrder(Body(cs))
  {
    TwoChildren(Html(cs));
  }

  /** The whole page in document order. */
  lemma PageOrder(cs: seq<Node>)
    ensures PreOrder(Page(cs)) == [Page(cs), Doctype()] + PreOrder(Html(cs))
  {
    TwoChildren(Page(cs));
  }
}

/** The unit tests' expectations about the test document. */
module SampleChecks {
  import opened Dom
  import opened Samples
  import Title
  import Headings
  import Login

  /** No node of such a body is a title element with children. */
  lemma NoTitleInBody(cs: seq<Node>, m: Node)
    requires PlainBody(cs)
    requires m in PreOrder(Body(cs))
    ensures !Title.IsTitleMatch(m)
  {
    BodyOrder(cs);
    if m != Body(cs) {
      InPairs(cs, m);
    }
  }

  /** A title element with children in the page is the head's title. */
  lemma TitleIsInHead(cs: seq<Node>, m: Node)
    requires PlainBody(cs)
    requires m in PreOrder(Page(cs)) && Title.IsTitleMatch(m)
    ensures m == TitleElem()
  {
    PageOrder(cs);
    HtmlOrder(cs);
    HeadOrder();
    if m in PreOrder(Body(cs)) {
      NoTitleInBody(cs, m);
    }
  }

  /** The head's title is the only title element of the page. */
  lemma OnlyTitle(cs: seq<Node>)
    requires PlainBody(cs)
    ensures TitleElem() in PreOrder(Page(cs))
    ensures forall m :: m in PreOrder(Page(cs)) && Title.IsTitleMatch(m) ==> m == TitleElem()
  {
    PageOrder(cs);
    HtmlOrder(cs);
    HeadOrder();
    forall m | m in PreOrder(Page(cs)) && Title.IsTitleMatch(m) ensures m == TitleElem() {
      TitleIsInHead(cs, m);
    }
  }

  /** The test expects "Test Page". */
  lemma SampleTitle()
    ensures Title.GetTitle(TestDocument()) == "Test Page"
  {
    BodyTags();
    OnlyTitle(BodyChildren());
    Title.UniqueTitle(TestDocument(), TitleElem());
  }

  /** A page whose `i`th body child holds the password input has a login form. */
  lemma PasswordInPage(cs: seq<Node>, i: int)
    requires 0 <= i < |cs| && cs[i].children == [PasswordInput()]
    ensures Login.ContainsLoginForm(Page(cs))
  {
    OneChild(cs[i]);
    ChildInPreOrder(Body(cs), i, PasswordInput());
    HtmlOrder(cs);
    PageOrder(cs);
    Login.PasswordInputSuffices(Page(cs), PasswordInput(), 0);
  }

  /** The test expects a login form: the password input. */
  lemma SampleLogin()
    ensures Login.ContainsLoginForm(TestDocument())
  {
    PasswordInPage(BodyChildren(), 3);
  }

  /** Heading tags are two characters long, unlike every other tag of the test
      document. */
  lemma HeadingTagLength(h: string)
    requires h in Headings.HeadingTags
    ensures |h| == 2
  {
  }

  /** The head holds no heading. */
  lemma HeadHasNoHeading(h: string)
    requires |h| == 2
    ensures CountElements(PreOrder(Head()), h) == 0
  {
    HeadOrder();
    var p := [Head(), TitleElem(), Leaf(Text, "Test Page")];
    assert p[1..][1..][1..] == [];
  }

  /** In such a body, each heading tag occurs as often as among its children. */
  lemma BodyCount(cs: seq<Node>, h: string)
    requires PlainBody(cs)
    requires |h| == 2
    ensures CountElements(PreOrder(Body(cs)), h) == CountElements(cs, h)
  {
    BodyOrder(cs);
    CountPairs(cs, h);
    CountElementsAppend([Body(cs)], Pairs(cs), h);
  }

  /** The html element's count is its body's. */
  lemma HtmlCount(cs: seq<Node>, h: string)
    requires |h| == 2
    ensures CountElements(PreOrder(Html(cs)), h) == CountElements(PreOrder(Body(cs)), h)
  {
    HtmlOrder(cs);
    CountElementsAppend([Html(cs)] + PreOrder(Head()), PreOrder(Body(cs)), h);
    CountElementsAppend([Html(cs)], PreOrder(Head()), h);
    HeadHasNoHeading(h);
  }

  /** The page's count is its html element's. */
  lemma PageCount(cs: seq<Node>, h: string)
    requires |h| == 2
    ensures CountElements(PreOrder(Page(cs)), h) == CountElements(PreOrder(Html(cs)), h)
  {
    PageOrder(cs);
    CountElementsAppend([Page(cs), Doctype()], PreOrder(Html(cs)), h);
    assert [Page(cs), Doctype()][1..][1..] == [];
  }

  /** In the page, each heading tag occurs as often as among the body's children. */
  lemma HeadingsInBody(cs: seq<Node>, h: string)
    requires PlainBody(cs)
    requires h in Headings.HeadingTags
    ensures CountElements(PreOrder(Page(cs)), h) == CountElements(cs, h)
  {
    HeadingTagLength(h);
    PageCount(cs, h);
    HtmlCount(cs, h);
    BodyCount(cs, h);
  }

  function Indicator(b: bool): nat { if b then 1 else 0 }

  /** Counting over three nodes. */
  lemma CountThree(a: Node, b: Node, c: Node, h: string)
    ensures CountElements([a, b, c], h) == Indicator(IsElement(a, h)) + Indicator(IsElement(b, h)) + Indicator(IsElement(c, h))
  {
    assert [a, b, c][1..] == [b, c];
    assert [b, c][1..] == [c];
    assert [c][1..] == [];
    assert CountElements([c], h) == Indicator(IsElement(c, h)) + CountElements([], h);
    assert CountElements([b, c], h) == Indicator(IsElement(b, h)) + CountElements([c], h);
  }

  /** An h1, an h2 and an h3 followed by nodes whose tags are not two letters
      long hold one of each of those headings and nothing else. */
  lemma ThreeHeadingsFirst(cs: seq<Node>, h: string)
    requires HeadingsFirst(cs)
    requires |h| == 2
    ensures CountElements(cs, h) == if h == "h1" || h == "h2" || h == "h3" then 1 else 0
  {
    var front, back := cs[..3], cs[3..];
    assert cs == front + back;
    CountElementsAppend(front, back, h);
    assert forall i :: 0 <= i < |back| ==> back[i] == cs[i + 3];
    CountThree(cs[0], cs[1], cs[2], h);
    assert front == [cs[0], cs[1], cs[2]];
  }

  /** The count of one heading tag in a page with such a body. */
  lemma CountIn(cs: seq<Node>, h: string)
    requires PlainBody(cs) && HeadingsFirst(cs)
    requires h in Headings.HeadingTags
    ensures CountElements(PreOrder(Page(cs)), h) == if h == "h1" || h == "h2" || h == "h3" then 1 else 0
  {
    HeadingsInBody(cs, h);
    ThreeHeadingsFirst(cs, h);
  }

  /** A page whose body starts with an h1, an h2 and an h3 and holds no other
      heading has exactly those three entries. */
  lemma PageHeadings(cs: seq<Node>)
    requires PlainBody(cs) && HeadingsFirst(cs)
    ensures Headings.CountHeadings(Page(cs)) == map["h1" := 1, "h2" := 1, "h3" := 1]
  {
    CountIn(cs, "h1");
    CountIn(cs, "h2");
    CountIn(cs, "h3");
    CountIn(cs, "h4");
    CountIn(cs, "h5");
    CountIn(cs, "h6");
    ThreeHeadings(Page(cs));
  }

  /** The test expects one h1, one h2 and one h3; there is nothing else. */
  lemma SampleHeadings()
    ensures Headings.CountHeadings(TestDocument()) == map["h1" := 1, "h2" := 1, "h3" := 1]
  {
    BodyTags();
    PageHeadings(BodyChildren());
  }

  /** A document with one h1, one h2, one h3 and no other heading has exactly
      those three entries. */
  lemma ThreeHeadings(doc: Node)
    requires CountElements(PreOrder(doc), "h1") == 1
    requires CountElements(PreOrder(doc), "h2") == 1
    requires CountElements(PreOrder(doc), "h3") == 1
    requires CountElements(PreOrder(doc), "h4") == 0
    requires CountElements(PreOrder(doc), "h5") == 0
    requires CountElements(PreOrder(doc), "h6") == 0
    ensures Headings.CountHeadings(doc) == map["h1" := 1, "h2" := 1, "h3" := 1]
  {
    var m := map["h1" := 1, "h2" := 1, "h3" := 1];
    assert m.Keys <= Headings.HeadingTags;
    Headings.CountHeadingsUnique(doc, m);
  }
}
