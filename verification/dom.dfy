/**
 The parsed HTML node tree the engine reads. `html.Node` keeps its children as a
 FirstChild/NextSibling chain; here the chain is the `children` sequence, in the
 same order. The tree is immutable and the engine never climbs upward, so parent
 and previous-sibling links are not modelled.
 */
module Dom {

  /** The node types the engine distinguishes; comments, doctypes and the
      parser's other node types are `Other`. */
  datatype NodeKind = Document | Element | Text | Other

  /** An attribute as the parser hands it over: key and value. */
  datatype Attr = Attr(key: string, val: string)

  /** `data` is the tag name of an element and the content of a text node. */
  datatype Node = Node(kind: NodeKind, data: string, attrs: seq<Attr>, children: seq<Node>)

  /** An element node with the given tag name. */
  predicate IsElement(n: Node, tag: string) {
    n.kind == Element && n.data == tag
  }

  /** All nodes of the tree rooted at `n`, in document (pre-)order: `n` first,
      then the subtrees of its children from first to last. This is the order in
      which every traversal of the engine visits nodes. */
  function PreOrder(n: Node): (r: seq<Node>)
    ensures |r| > 0 && r[0] == n
  {
    [n] + Forest(n.children)
  }

  /** The pre-orders of a sibling list, concatenated. */
  function Forest(ns: seq<Node>): seq<Node> {
    if ns == [] then [] else PreOrder(ns[0]) + Forest(ns[1..])
  }

  /** A node lies in a forest exactly when it lies in the tree of one of its roots. */
  lemma {:induction false} InForest(ns: seq<Node>, m: Node)
    ensures m in Forest(ns) <==> exists i :: 0 <= i < |ns| && m in PreOrder(ns[i])
  {
    if ns != [] {
      InForest(ns[1..], m);
      assert forall i :: 1 <= i < |ns| ==> ns[i] == ns[1..][i - 1];
    }
  }

  /** Every child's tree is part of its parent's tree. */
  lemma ChildInPreOrder(n: Node, i: int, m: Node)
    requires 0 <= i < |n.children|
    requires m in PreOrder(n.children[i])
    ensures m in PreOrder(n)
  {
    InForest(n.children, m);
  }

  /** Trees nest: a node of a subtree's tree is a node of the whole tree. */
  lemma {:induction false} PreOrderTransitive(n: Node, m: Node, d: Node)
    requires m in PreOrder(n)
    requires d in PreOrder(m)
    ensures d in PreOrder(n)
    decreases n
  {
    if m != n {
      InForest(n.children, m);
      var i :| 0 <= i < |n.children| && m in PreOrder(n.children[i]);
      PreOrderTransitive(n.children[i], m, d);
      ChildInPreOrder(n, i, d);
    }
  }

  /** The forest of a single root is that root's tree. */
  lemma ForestSingleton(n: Node)
    ensures Forest([n]) == PreOrder(n)
  {
    assert [n][1..] == [];
  }

  /** A forest is its first tree followed by the rest. */
  lemma ForestCons(n: Node, ns: seq<Node>)
    ensures Forest([n] + ns) == PreOrder(n) + Forest(ns)
  {
    assert ([n] + ns)[1..] == ns;
  }

  /** A node with one child is followed by that child's tree. */
  lemma OneChild(n: Node)
    requires |n.children| == 1
    ensures PreOrder(n) == [n] + PreOrder(n.children[0])
  {
    assert n.children == [n.children[0]];
    ForestSingleton(n.children[0]);
  }

  /** A node with two children is followed by their trees in order. */
  lemma TwoChildren(n: Node)
    requires |n.children| == 2
    ensures PreOrder(n) == [n] + PreOrder(n.children[0]) + PreOrder(n.children[1])
  {
    assert n.children == [n.children[0]] + [n.children[1]];
    ForestCons(n.children[0], [n.children[1]]);
    ForestSingleton(n.children[1]);
  }

  /** Number of element nodes with tag `tag` in a node sequence. */
  function CountElements(ns: seq<Node>, tag: string): (k: nat)
    ensures k <= |ns|
    ensures k == 0 <==> forall i :: 0 <= i < |ns| ==> !IsElement(ns[i], tag)
  {
    if ns == [] then 0
    else
      var rest := CountElements(ns[1..], tag);
      assert forall i :: 1 <= i < |ns| ==> ns[i] == ns[1..][i - 1];
      (if IsElement(ns[0], tag) then 1 else 0) + rest
  }

  /** Counting distributes over concatenation. */
  lemma {:induction false} CountElementsAppend(a: seq<Node>, b: seq<Node>, tag: string)
    ensures CountElements(a + b, tag) == CountElements(a, tag) + CountElements(b, tag)
  {
    if a == [] {
      assert a + b == b;
    } else {
      assert (a + b)[1..] == a[1..] + b;
      CountElementsAppend(a[1..], b, tag);
    }
  }
}
