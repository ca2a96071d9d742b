/**
 Title extraction (`GetTitle`). The search is a pre-order walk that, at an
 element `title` with at least one child, records that child's data and returns
 from the current frame only: the title's own subtree is not searched, but the
 walk over the remaining siblings and ancestors' siblings goes on, so a later
 title overwrites an earlier one. The result is the text of the LAST such title.
 */
module Title {
  import opened Dom

  /** A `title` element that the search takes its text from. */
  predicate IsTitleMatch(n: Node) {
    IsElement(n, "title") && |n.children| > 0
  }

  /** The title matches among `s`, in the order of `s`. */
  function Matches(s: seq<Node>): (r: seq<Node>)
    ensures forall i :: 0 <= i < |r| ==> IsTitleMatch(r[i])
    ensures forall m :: m in r <==> m in s && IsTitleMatch(m)
  {
    if s == [] then []
    else
      assert forall i :: 1 <= i < |s| ==> s[i] == s[1..][i - 1];
      (if IsTitleMatch(s[0]) then [s[0]] else []) + Matches(s[1..])
  }

  lemma {:induction false} MatchesAppend(a: seq<Node>, b: seq<Node>)
    ensures Matches(a + b) == Matches(a) + Matches(b)
  {
    if a == [] {
      assert a + b == b;
    } else {
      assert (a + b)[1..] == a[1..] + b;
      MatchesAppend(a[1..], b);
    }
  }

  /** The nodes the search visits, in the order it visits them: document order,
      except that the subtree below a title match is skipped. */
  function Visible(n: Node): (r: seq<Node>)
    ensures |r| > 0 && r[0] == n
  {
    if IsTitleMatch(n) then [n] else [n] + VisibleForest(n.children)
  }

  function VisibleForest(ns: seq<Node>): seq<Node> {
    if ns == [] then [] else Visible(ns[0]) + VisibleForest(ns[1..])
  }

  /** The title elements the search reaches, in the order it reaches them: the
      title matches among the visited nodes. They all lie in the tree, and there
      is none exactly when the tree has no title match. */
  function ExposedTitles(n: Node): (r: seq<Node>)
    ensures r == Matches(Visible(n))
    ensures forall i :: 0 <= i < |r| ==> IsTitleMatch(r[i]) && r[i] in PreOrder(n)
    ensures r == [] <==> forall m :: m in PreOrder(n) ==> !IsTitleMatch(m)
  {
    if IsTitleMatch(n) then
      assert [n][1..] == [];
      [n]
    else
      MatchesAppend([n], VisibleForest(n.children));
      assert [n][1..] == [];
      ExposedForest(n.children)
  }

  function ExposedForest(ns: seq<Node>): (r: seq<Node>)
    ensures r == Matches(VisibleForest(ns))
    ensures forall i :: 0 <= i < |r| ==> IsTitleMatch(r[i]) && r[i] in Forest(ns)
    ensures r == [] <==> forall m :: m in Forest(ns) ==> !IsTitleMatch(m)
  {
    if ns == [] then []
    else
      var a := ExposedTitles(ns[0]);
      var b := ExposedForest(ns[1..]);
      MatchesAppend(Visible(ns[0]), VisibleForest(ns[1..]));
      TitlesOfForest(ns, a, b);
      a + b
  }

  /** The titles of a first tree followed by those of the remaining trees are
      titles of the whole forest, and there are none exactly when the forest
      has no title match. */
  lemma TitlesOfForest(ns: seq<Node>, a: seq<Node>, b: seq<Node>)
    requires ns != []
    requires forall i :: 0 <= i < |a| ==> IsTitleMatch(a[i]) && a[i] in PreOrder(ns[0])
    requires a == [] <==> forall m :: m in PreOrder(ns[0]) ==> !IsTitleMatch(m)
    requires forall i :: 0 <= i < |b| ==> IsTitleMatch(b[i]) && b[i] in Forest(ns[1..])
    requires b == [] <==> forall m :: m in Forest(ns[1..]) ==> !IsTitleMatch(m)
    ensures forall i :: 0 <= i < |a + b| ==> IsTitleMatch((a + b)[i]) && (a + b)[i] in Forest(ns)
    ensures a + b == [] <==> forall m :: m in Forest(ns) ==> !IsTitleMatch(m)
  {
    assert Forest(ns) == PreOrder(ns[0]) + Forest(ns[1..]);
    assert forall i :: |a| <= i < |a + b| ==> (a + b)[i] == b[i - |a|];
  }

  /** The text of the last title in `ts`, or `fallback` when there is none. */
  function LastTitleText(ts: seq<Node>, fallback: string): string
    requires forall i :: 0 <= i < |ts| ==> IsTitleMatch(ts[i])
  {
    if ts == [] then fallback
    else
      assert IsTitleMatch(ts[|ts| - 1]);
      ts[|ts| - 1].children[0].data
  }

  /** The recursive `f` of `GetTitle`, with the captured `title` variable passed
      in and returned. */
  function VisitTitle(n: Node, title: string): (r: string)
    ensures r == LastTitleText(Matches(Visible(n)), title)
  {
    if IsTitleMatch(n) then n.children[0].data
    else VisitTitleChildren(n.children, title)
  }

  /** The FirstChild/NextSibling loop of `f`. */
  function VisitTitleChildren(cs: seq<Node>, title: string): (r: string)
    ensures r == LastTitleText(Matches(VisibleForest(cs)), title)
  {
    if cs == [] then title
    else
      var t := VisitTitle(cs[0], title);
      MatchesAppend(Visible(cs[0]), VisibleForest(cs[1..]));
      VisitTitleChildren(cs[1..], t)
  }

  /** The page title: the first child's data of the last title match the search
      visits, or "" when it visits none; in particular "" when the document has no
      title element with a child, and otherwise the text of one of them. */
  function GetTitle(doc: Node): (r: string)
    ensures r == LastTitleText(Matches(Visible(doc)), "")
    ensures (forall m :: m in PreOrder(doc) ==> !IsTitleMatch(m)) ==> r == ""
    ensures r != "" ==> exists t :: t in PreOrder(doc) && IsTitleMatch(t) && t.children[0].data == r
  {
    var ts := ExposedTitles(doc);
    assert ts != [] ==> ts[|ts| - 1] in PreOrder(doc);
    VisitTitle(doc, "")
  }

  /** No title match has another title match below it. */
  predicate NoNestedTitle(s: seq<Node>) {
    forall m :: m in s && IsTitleMatch(m) ==> Matches(Forest(m.children)) == []
  }

  /** When no title sits inside another, the search reaches every title match of
      the tree, in document order. */
  lemma {:induction false} VisibleTitlesInPreOrder(n: Node)
    requires NoNestedTitle(PreOrder(n))
    ensures Matches(Visible(n)) == Matches(PreOrder(n))
  {
    MatchesAppend([n], Forest(n.children));
    assert [n][1..] == [];
    if !IsTitleMatch(n) {
      MatchesAppend([n], VisibleForest(n.children));
      VisibleForestInPreOrder(n.children);
    }
  }

  lemma {:induction false} VisibleForestInPreOrder(ns: seq<Node>)
    requires NoNestedTitle(Forest(ns))
    ensures Matches(VisibleForest(ns)) == Matches(Forest(ns))
  {
    if ns != [] {
      MatchesAppend(Visible(ns[0]), VisibleForest(ns[1..]));
      MatchesAppend(PreOrder(ns[0]), Forest(ns[1..]));
      VisibleTitlesInPreOrder(ns[0]);
      VisibleForestInPreOrder(ns[1..]);
    }
  }

  /** When no title sits inside another, the result is the text of the last title
      match in document order. */
  lemma LastTitleInDocumentOrder(doc: Node)
    requires NoNestedTitle(PreOrder(doc))
    ensures GetTitle(doc) == LastTitleText(Matches(PreOrder(doc)), "")
  {
    VisibleTitlesInPreOrder(doc);
  }

  /** With exactly one title element that has a child, its first child's data is
      the title, however deep the element sits. */
  lemma UniqueTitle(doc: Node, t: Node)
    requires t in PreOrder(doc) && IsTitleMatch(t)
    requires forall m :: m in PreOrder(doc) && IsTitleMatch(m) ==> m == t
    ensures GetTitle(doc) == t.children[0].data
  {
    var ts := ExposedTitles(doc);
    assert ts != [];
    assert ts[|ts| - 1] in PreOrder(doc);
  }

  /** Two sibling titles: the second one wins. */
  lemma KeepsLastTitle(a: string, b: string)
    ensures
      var ta := Node(Element, "title", [], [Node(Text, a, [], [])]);
      var tb := Node(Element, "title", [], [Node(Text, b, [], [])]);
      GetTitle(Node(Document, "", [], [ta, tb])) == b
  {
    var ta := Node(Element, "title", [], [Node(Text, a, [], [])]);
    var tb := Node(Element, "title", [], [Node(Text, b, [], [])]);
    assert [ta, tb][1..] == [tb];
    assert [tb][1..] == [];
    assert ExposedForest([tb]) == [tb];
    assert ExposedForest([ta, tb]) == [ta, tb];
  }

  /** A title inside a title is never reached: for `<title><title>x</title></title>`
      the search takes the outer title's first child, the inner element, whose
      data is its tag name, although the inner title is the last title match in
      document order. */
  lemma NestedTitleNotSearched(x: string)
    ensures
      var inner := Node(Element, "title", [], [Node(Text, x, [], [])]);
      var outer := Node(Element, "title", [], [inner]);
      var doc := Node(Document, "", [], [outer]);
      && GetTitle(doc) == "title"
      && LastTitleText(Matches(PreOrder(doc)), "") == x
  {
    var text := Node(Text, x, [], []);
    var inner := Node(Element, "title", [], [text]);
    var outer := Node(Element, "title", [], [inner]);
    NestedOrder(Node(Document, "", [], [outer]), outer, inner, text);
  }

  /** The title matches of one node. */
  lemma MatchesOne(n: Node)
    ensures Matches([n]) == if IsTitleMatch(n) then [n] else []
  {
    assert [n][1..] == [];
  }

  /** A node with one child: its title matches in document order are its own
      followed by its child's. */
  lemma MatchesOneChild(n: Node, c: Node)
    requires n.children == [c]
    ensures Matches(PreOrder(n)) == Matches([n]) + Matches(PreOrder(c))
  {
    ForestSingleton(c);
    MatchesAppend([n], PreOrder(c));
  }

  /** A document holding one title match that holds another: what the search
      visits. */
  lemma NestedOrder(doc: Node, outer: Node, inner: Node, text: Node)
    requires doc.kind == Document && doc.children == [outer]
    requires IsTitleMatch(outer) && outer.children == [inner]
    requires IsTitleMatch(inner) && inner.children == [text]
    requires text.kind == Text && text.children == []
    ensures Matches(Visible(doc)) == [outer]
    ensures Matches(PreOrder(doc)) == [outer, inner]
  {
    assert [outer][1..] == [];
    assert VisibleForest([outer]) == Visible(outer) + VisibleForest([]);
    assert Visible(doc) == [doc] + [outer];
    MatchesAppend([doc], [outer]);
    MatchesOne(doc);
    MatchesOne(outer);
    NestedPreOrder(doc, outer, inner, text);
  }

  /** The same document in document order. */
  lemma NestedPreOrder(doc: Node, outer: Node, inner: Node, text: Node)
    requires doc.kind == Document && doc.children == [outer]
    requires IsTitleMatch(outer) && outer.children == [inner]
    requires IsTitleMatch(inner) && inner.children == [text]
    requires text.kind == Text && text.children == []
    ensures Matches(PreOrder(doc)) == [outer, inner]
  {
    assert PreOrder(text) == [text];
    MatchesOne(text);
    MatchesOne(inner);
    MatchesOneChild(inner, text);
    assert Matches(PreOrder(inner)) == [inner];
    MatchesOne(outer);
    MatchesOneChild(outer, inner);
    assert Matches(PreOrder(outer)) == [outer, inner];
    MatchesOne(doc);
    MatchesOneChild(doc, outer);
  }
}
