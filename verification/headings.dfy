/**
 Heading counting (`CountHeadings`): a full pre-order walk that bumps a per-tag
 counter for every element whose tag is h1 to h6. Only tags that occur get an
 entry, so no stored count is zero.
 */
module Headings {
  import opened Dom

  const HeadingTags: set<string> := {"h1", "h2", "h3", "h4", "h5", "h6"}

  /** A map lookup that reads a missing key as 0, as Go's map index does. */
  function Get(m: map<string, nat>, k: string): nat {
    if k in m then m[k] else 0
  }

  /** `counts[tag]++`. */
  function Bump(m: map<string, nat>, k: string): (r: map<string, nat>)
    ensures r.Keys == m.Keys + {k}
    ensures Get(r, k) == Get(m, k) + 1
    ensures forall h :: h != k ==> Get(r, h) == Get(m, h)
  {
    m[k := Get(m, k) + 1]
  }

  /** How many times the walk over `ns` bumps `h`. */
  function Tally(ns: seq<Node>, h: string): nat {
    if h in HeadingTags then CountElements(ns, h) else 0
  }

  /** The recursive `f` of `CountHeadings`, with the captured map passed in and
      returned. Every heading element of the tree adds one to its own tag. */
  function CountNode(n: Node, m: map<string, nat>): (r: map<string, nat>)
    ensures forall h :: Get(r, h) == Get(m, h) + Tally(PreOrder(n), h)
    ensures m.Keys <= r.Keys
    ensures forall h :: h in r && h !in m ==> h in HeadingTags && r[h] >= 1
  {
    var m1 := if n.kind == Element && n.data in HeadingTags then Bump(m, n.data) else m;
    var r := CountChildren(n.children, m1);
    forall h ensures Get(r, h) == Get(m, h) + Tally(PreOrder(n), h) {
      CountElementsAppend([n], Forest(n.children), h);
    }
    r
  }

  /** The FirstChild/NextSibling loop of `f`. */
  function CountChildren(cs: seq<Node>, m: map<string, nat>): (r: map<string, nat>)
    ensures forall h :: Get(r, h) == Get(m, h) + Tally(Forest(cs), h)
    ensures m.Keys <= r.Keys
    ensures forall h :: h in r && h !in m ==> h in HeadingTags && r[h] >= 1
  {
    if cs == [] then m
    else
      var m1 := CountNode(cs[0], m);
      var r := CountChildren(cs[1..], m1);
      forall h ensures Get(r, h) == Get(m, h) + Tally(Forest(cs), h) {
        CountElementsAppend(PreOrder(cs[0]), Forest(cs[1..]), h);
      }
      forall h | h in r && h !in m ensures h in HeadingTags && r[h] >= 1 {
        assert Get(r, h) >= Get(m1, h);
      }
      r
  }

  /** Heading counts: keys are heading tags only, every stored count is positive,
      and each heading tag maps to the number of elements with that tag anywhere
      in the document, present exactly when that number is positive. */
  function CountHeadings(doc: Node): (r: map<string, nat>)
    ensures forall h :: h in r ==> h in HeadingTags && r[h] >= 1
    ensures forall h :: h in r ==> r[h] == CountElements(PreOrder(doc), h)
    ensures forall h :: h in HeadingTags ==> (h in r <==> CountElements(PreOrder(doc), h) > 0)
  {
    var r := CountNode(doc, map[]);
    forall h | h in r ensures r[h] == CountElements(PreOrder(doc), h) {
      assert Get(r, h) == Tally(PreOrder(doc), h);
    }
    forall h | h in HeadingTags ensures h in r <==> CountElements(PreOrder(doc), h) > 0 {
      assert Get(r, h) == Tally(PreOrder(doc), h);
    }
    r
  }

  /** The heading counts are the only map with heading-tag keys and positive
      values that agrees with the number of elements of every heading tag. */
  lemma CountHeadingsUnique(doc: Node, m: map<string, nat>)
    requires forall h :: h in m ==> h in HeadingTags && m[h] >= 1
    requires forall h :: h in HeadingTags ==> Get(m, h) == CountElements(PreOrder(doc), h)
    ensures CountHeadings(doc) == m
  {
    var r := CountHeadings(doc);
    forall h | h in r ensures h in m {
      assert Get(m, h) == r[h];
    }
    forall h | h in m ensures h in r && r[h] == m[h] {
      assert Get(m, h) == m[h];
    }
    assert r.Keys == m.Keys;
  }

  /** A text node whose content is "h1" is not a heading. */
  lemma TextIsNotHeading()
    ensures CountHeadings(Node(Document, "", [], [Node(Text, "h1", [], [])])) == map[]
  {
    var doc := Node(Document, "", [], [Node(Text, "h1", [], [])]);
    var text := Node(Text, "h1", [], []);
    assert [text][1..] == [];
    assert Forest([text]) == [text];
    assert PreOrder(doc) == [doc, text];
    var r := CountHeadings(doc);
    assert forall h :: CountElements(PreOrder(doc), h) == 0;
    assert r.Keys == {};
  }

  /** The document `<body><h1>t</h1></body>`, in document order. */
  lemma NestedHeadingPreOrder(t: string)
    ensures
      var text := Node(Text, t, [], []);
      var h1 := Node(Element, "h1", [], [text]);
      var body := Node(Element, "body", [], [h1]);
      var doc := Node(Document, "", [], [body]);
      && PreOrder(doc) == [doc, body, h1, text]
      && CountElements(PreOrder(doc), "h1") == 1
      && forall h :: h != "h1" && h != "body" ==> CountElements(PreOrder(doc), h) == 0
  {
    var text := Node(Text, t, [], []);
    var h1 := Node(Element, "h1", [], [text]);
    var body := Node(Element, "body", [], [h1]);
    var doc := Node(Document, "", [], [body]);
    var p := [doc, body, h1, text];
    assert [text][1..] == [] && [h1][1..] == [] && [body][1..] == [];
    assert Forest([text]) == [text];
    assert Forest([h1]) == [h1, text];
    assert Forest([body]) == [body, h1, text];
    assert PreOrder(doc) == p;
    assert p[1..] == [body, h1, text];
    assert [body, h1, text][1..] == [h1, text];
    assert [h1, text][1..] == [text];
    assert CountElements([text], "h1") == 0;
    assert CountElements([h1, text], "h1") == 1;
    assert CountElements([body, h1, text], "h1") == 1;
  }

  /** One h1 nested two levels deep is counted once, and nothing else is. */
  lemma NestedHeadingCounted(t: string)
    ensures
      var h1 := Node(Element, "h1", [], [Node(Text, t, [], [])]);
      var body := Node(Element, "body", [], [h1]);
      CountHeadings(Node(Document, "", [], [body])) == map["h1" := 1]
  {
    var text := Node(Text, t, [], []);
    var h1 := Node(Element, "h1", [], [text]);
    var body := Node(Element, "body", [], [h1]);
    var doc := Node(Document, "", [], [body]);
    NestedHeadingPreOrder(t);
    var r := CountHeadings(doc);
    assert "body" !in HeadingTags;
    assert r.Keys == {"h1"};
  }
}
