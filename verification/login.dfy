/**
 Login-form detection (`ContainsLoginForm` with its helper `containsKeyword`).
 A keyword heuristic: an element `form`, `input`, `button` or `label` whose own
 subtree mentions one of six keywords, case-insensitively, in an attribute value
 or in text.
 */
module Login {
  import opened Strings
  import opened Dom

  /** The keyword list of `ContainsLoginForm`, in its order; all lower-case. */
  const Keywords: seq<string> := ["login", "log in", "sign in", "password", "email", "username"]

  /** The four tags whose elements are examined. */
  predicate IsLoginTag(n: Node) {
    n.kind == Element && (n.data == "form" || n.data == "input" || n.data == "button" || n.data == "label")
  }

  /** `s`, already lower-cased, contains one of `kws`. */
  predicate MentionsAny(s: string, kws: seq<string>) {
    exists k :: 0 <= k < |kws| && Contains(s, kws[k])
  }

  /** The `for _, kw := range keywords` loop: first keyword found ends the scan. */
  function ScanKeywords(s: string, kws: seq<string>): (r: bool)
    ensures r <==> MentionsAny(s, kws)
  {
    if kws == [] then false
    else if Contains(s, kws[0]) then true
    else
      assert forall k :: 1 <= k < |kws| ==> kws[k] == kws[1..][k - 1];
      ScanKeywords(s, kws[1..])
  }

  /** What one node contributes on its own: an attribute value (whatever its
      key) or, for a text node, its text, lower-cased, containing a keyword. */
  predicate SelfMentions(m: Node, kws: seq<string>) {
    || (exists i :: 0 <= i < |m.attrs| && MentionsAny(Lower(m.attrs[i].val), kws))
    || (m.kind == Text && MentionsAny(Lower(m.data), kws))
  }

  /** The attribute loop of `containsKeyword`. */
  function ScanAttrs(attrs: seq<Attr>, kws: seq<string>): (r: bool)
    ensures r <==> exists i :: 0 <= i < |attrs| && MentionsAny(Lower(attrs[i].val), kws)
  {
    if attrs == [] then false
    else if ScanKeywords(Lower(attrs[0].val), kws) then true
    else
      assert forall i :: 1 <= i < |attrs| ==> attrs[i] == attrs[1..][i - 1];
      ScanAttrs(attrs[1..], kws)
  }

  /** `containsKeyword`: attributes first, then the text of a text node, then
      the children in order, stopping at the first hit. The result is true
      exactly when some node of the subtree, `n` included, mentions a keyword
      in an attribute value or in its text. */
  function ContainsKeyword(n: Node, kws: seq<string>): (r: bool)
    ensures r <==> exists m :: m in PreOrder(n) && SelfMentions(m, kws)
  {
    assert n in PreOrder(n);
    if ScanAttrs(n.attrs, kws) then
      assert SelfMentions(n, kws);
      true
    else if n.kind == Text && ScanKeywords(Lower(n.data), kws) then
      assert SelfMentions(n, kws);
      true
    else ScanChildren(n.children, kws)
  }

  /** The child loop of `containsKeyword`. */
  function ScanChildren(cs: seq<Node>, kws: seq<string>): (r: bool)
    ensures r <==> exists m :: m in Forest(cs) && SelfMentions(m, kws)
  {
    if cs == [] then false
    else if ContainsKeyword(cs[0], kws) then true
    else ScanChildren(cs[1..], kws)
  }

  /** A node `ContainsLoginForm` stops at. */
  predicate IsLoginForm(m: Node) {
    IsLoginTag(m) && ContainsKeyword(m, Keywords)
  }

  /** The recursive `f` of `ContainsLoginForm`, called on a node together with its
      following siblings (`chain[0]` and its NextSibling chain). A hit sets the
      flag and returns; otherwise the walk goes to FirstChild and then, while the
      flag is unset, to NextSibling. Since every call happens with the flag unset,
      the flag on return is the result. */
  function VisitChain(chain: seq<Node>): (found: bool)
    requires chain != []
    ensures found <==> exists m :: m in Forest(chain) && IsLoginForm(m)
  {
    var n := chain[0];
    assert Forest(chain) == [n] + Forest(n.children) + Forest(chain[1..]);
    if IsLoginTag(n) && ContainsKeyword(n, Keywords) then
      assert IsLoginForm(n);
      true
    else
      var below := n.children != [] && VisitChain(n.children);
      var after := !below && |chain| > 1 && VisitChain(chain[1..]);
      below || after
  }

  /** Whether the document has a login-like form: some `form`, `input`, `button`
      or `label` element whose subtree mentions a keyword. */
  function ContainsLoginForm(doc: Node): (found: bool)
    ensures found <==> exists m :: m in PreOrder(doc) && IsLoginForm(m)
  {
    ForestSingleton(doc);
    VisitChain([doc])
  }

  /** Some node of the subtree of `m` mentions a keyword. */
  predicate SubtreeMentions(m: Node) {
    exists d :: d in PreOrder(m) && SelfMentions(d, Keywords)
  }

  /** The result with `containsKeyword` unfolded: some login tag `m` has a node in
      its subtree that mentions a keyword. */
  lemma LoginFormIff(doc: Node)
    ensures ContainsLoginForm(doc) <==> exists m :: m in PreOrder(doc) && IsLoginTag(m) && SubtreeMentions(m)
  {
    if ContainsLoginForm(doc) {
      var m :| m in PreOrder(doc) && IsLoginForm(m);
      assert SubtreeMentions(m);
    }
    if exists m :: m in PreOrder(doc) && IsLoginTag(m) && SubtreeMentions(m) {
      var m :| m in PreOrder(doc) && IsLoginTag(m) && SubtreeMentions(m);
      assert IsLoginForm(m);
    }
  }

  /** "password" is a keyword. */
  lemma PasswordIsKeyword()
    ensures MentionsAny(Lower("password"), Keywords)
  {
    LowerOfLower("password");
    ContainsInfix("", "password", "");
    assert "" + "password" + "" == "password";
    assert Keywords[3] == "password";
  }

  /** A bare `<input type="password">` anywhere in the document suffices. */
  lemma PasswordInputSuffices(doc: Node, input: Node, i: int)
    requires input in PreOrder(doc) && IsElement(input, "input")
    requires 0 <= i < |input.attrs| && input.attrs[i].val == "password"
    ensures ContainsLoginForm(doc)
  {
    PasswordIsKeyword();
    assert SelfMentions(input, Keywords);
    assert IsLoginForm(input);
  }

  /** A document that mentions no keyword anywhere has no login form. */
  lemma NoKeywordNoLoginForm(doc: Node)
    requires forall d :: d in PreOrder(doc) ==> !SelfMentions(d, Keywords)
    ensures !ContainsLoginForm(doc)
  {
    if ContainsLoginForm(doc) {
      var m :| m in PreOrder(doc) && IsLoginForm(m);
      var d :| d in PreOrder(m) && SelfMentions(d, Keywords);
      PreOrderTransitive(doc, m, d);
    }
  }

  /** Keyword text with no login tag at or above it does not count: a page whose
      only keyword is in a paragraph has no login form. */
  lemma ParagraphTextDoesNotCount(t: string)
    ensures
      var p := Node(Element, "p", [], [Node(Text, t, [], [])]);
      !ContainsLoginForm(Node(Document, "", [], [p]))
  {
    var text := Node(Text, t, [], []);
    var p := Node(Element, "p", [], [text]);
    var doc := Node(Document, "", [], [p]);
    assert [text][1..] == [] && [p][1..] == [];
    assert Forest([text]) == [text];
    assert Forest([p]) == [p, text];
    assert PreOrder(doc) == [doc, p, text];
  }

  /** No keyword is shorter than five characters. */
  lemma ShortStringMentionsNothing(s: string)
    requires |s| < 5
    ensures !MentionsAny(s, Keywords)
  {
    forall k, i | 0 <= k < |Keywords| ensures !OccursAt(s, Keywords[k], i) {
      assert |Keywords[k]| >= 5;
    }
  }

  /** Attribute keys are never inspected: an `input` whose only attribute has the
      key "password" and a value with no keyword is not a login form. */
  lemma AttributeKeysIgnored(v: string)
    requires |v| < 5
    ensures !ContainsKeyword(Node(Element, "input", [Attr("password", v)], []), Keywords)
  {
    var n := Node(Element, "input", [Attr("password", v)], []);
    ShortStringMentionsNothing(Lower(v));
    assert PreOrder(n) == [n];
  }
}
