/**
  The part of a parsed HTML document (a BeautifulSoup tree) that post.py
  reads and rewrites: text and element nodes, `soup.h1` / `soup.h2` (the
  first element of that name in document order), `get_text()`, the
  replacement of one node in place, and `str(soup)`.
*/
module Html {
  import opened Wrappers

  /** A node of the tree: a run of text, or an element with its attributes
      in order and its children. */
  datatype Node =
    | Text(text: string)
    | Element(name: string, attrs: seq<(string, string)>, children: seq<Node>)

  /** The top-level nodes of a document (the contents of a `BeautifulSoup`). */
  type Forest = seq<Node>

  /** A node's position: the index among the top-level nodes, then the index
      among the children at each level below. */
  type Path = seq<nat>

  // ---------------------------------------------------------------------
  // Paths
  // ---------------------------------------------------------------------

  predicate ValidPath(ns: Forest, p: Path)
    decreases p
  {
    |p| >= 1 && p[0] < |ns|
    && (|p| == 1 || (ns[p[0]].Element? && ValidPath(ns[p[0]].children, p[1..])))
  }

  /** The node at a path. */
  function At(ns: Forest, p: Path): Node
    requires ValidPath(ns, p)
    decreases p
  {
    if |p| == 1 then ns[p[0]] else At(ns[p[0]].children, p[1..])
  }

  /** The tree with the node at `p` replaced by `x`. */
  function ReplaceAt(ns: Forest, p: Path, x: Node): Forest
    requires ValidPath(ns, p)
    decreases p
  {
    var n := ns[p[0]];
    if |p| == 1 then ns[p[0] := x]
    else ns[p[0] := Element(n.name, n.attrs, ReplaceAt(n.children, p[1..], x))]
  }

  /** After a replacement the path still leads to a node, that node is the
      new one, and the other top-level nodes are untouched. */
  lemma {:induction false} ReplaceAtSpec(ns: Forest, p: Path, x: Node)
    requires ValidPath(ns, p)
    ensures |ReplaceAt(ns, p, x)| == |ns|
    ensures ValidPath(ReplaceAt(ns, p, x), p) && At(ReplaceAt(ns, p, x), p) == x
    ensures forall k :: 0 <= k < |ns| && k != p[0] ==> ReplaceAt(ns, p, x)[k] == ns[k]
    decreases p
  {
    if |p| > 1 {
      ReplaceAtSpec(ns[p[0]].children, p[1..], x);
    }
  }

  /** Putting the old node back restores the tree: a replacement changes the
      node at `p` and nothing else. */
  lemma {:induction false} ReplaceAtRestore(ns: Forest, p: Path, x: Node)
    requires ValidPath(ns, p)
    ensures ValidPath(ReplaceAt(ns, p, x), p)
    ensures ReplaceAt(ReplaceAt(ns, p, x), p, At(ns, p)) == ns
    decreases p
  {
    ReplaceAtSpec(ns, p, x);
    if |p| > 1 {
      var n := ns[p[0]];
      ReplaceAtRestore(n.children, p[1..], x);
    }
  }

  // ---------------------------------------------------------------------
  // soup.h1, soup.h2: the first element of a name in document order
  // ---------------------------------------------------------------------

  /** Some element in the forest has this name. */
  predicate HasTag(ns: Forest, name: string)
    decreases ns
  {
    ns != [] && (NodeHasTag(ns[0], name) || HasTag(ns[1..], name))
  }

  /** The node, or an element below it, has this name. */
  predicate NodeHasTag(n: Node, name: string)
    decreases n
  {
    n.Element? && (n.name == name || HasTag(n.children, name))
  }

  /** `p` leads to the first element named `name` in document order: no
      earlier sibling holds one, and the element on the path holds it itself
      or, failing that, further down the path. */
  predicate IsFirstPath(ns: Forest, name: string, p: Path)
    decreases p
  {
    |p| >= 1 && p[0] < |ns|
    && (forall k :: 0 <= k < p[0] ==> !NodeHasTag(ns[k], name))
    && ns[p[0]].Element?
    && (if ns[p[0]].name == name then |p| == 1
        else IsFirstPath(ns[p[0]].children, name, p[1..]))
  }

  /** `soup.find(name)`, which `soup.h1` abbreviates: a preorder search. */
  function FirstPath(ns: Forest, name: string): (r: Option<Path>)
    ensures r.Some? ==> |r.value| >= 1
    decreases ns
  {
    if ns == [] then None
    else
      var later := match FirstPath(ns[1..], name)
        case None => None
        case Some(q) => Some([q[0] + 1] + q[1..]);
      match ns[0]
      case Text(_) => later
      case Element(n, _, ch) =>
        if n == name then Some([0])
        else match FirstPath(ch, name)
          case Some(q) => Some([0] + q)
          case None => later
  }

  /** A path to the first element leaves the forest through the first
      top-level node that holds one. */
  lemma {:induction false} FirstPathShift(ns: Forest, name: string, q: Path)
    requires ns != [] && !NodeHasTag(ns[0], name) && IsFirstPath(ns[1..], name, q)
    ensures IsFirstPath(ns, name, [q[0] + 1] + q[1..])
  {
    var p := [q[0] + 1] + q[1..];
    assert p[1..] == q[1..];
    assert ns[p[0]] == ns[1..][q[0]];
    forall k | 0 <= k < p[0] ensures !NodeHasTag(ns[k], name) {
      if k > 0 { assert ns[k] == ns[1..][k - 1]; }
    }
  }

  /** `FirstPath` finds nothing exactly when there is no such element, and
      otherwise the first one. */
  lemma {:induction false} FirstPathSpec(ns: Forest, name: string)
    ensures FirstPath(ns, name).None? <==> !HasTag(ns, name)
    ensures FirstPath(ns, name).Some? ==> IsFirstPath(ns, name, FirstPath(ns, name).value)
    decreases ns
  {
    if ns != [] {
      FirstPathSpec(ns[1..], name);
      var later := FirstPath(ns[1..], name);
      if later.Some? && !NodeHasTag(ns[0], name) {
        FirstPathShift(ns, name, later.value);
      }
      match ns[0]
      case Text(_) =>
      case Element(n, _, ch) =>
        if n != name {
          FirstPathSpec(ch, name);
          match FirstPath(ch, name)
          case Some(q) =>
            assert ([0] + q)[1..] == q;
          case None =>
        }
    }
  }

  /** The first path leads to an element of that name. */
  lemma {:induction false} FirstPathValid(ns: Forest, name: string, p: Path)
    requires IsFirstPath(ns, name, p)
    ensures ValidPath(ns, p) && At(ns, p).Element? && At(ns, p).name == name
    ensures NodeHasTag(ns[p[0]], name)
    decreases p
  {
    if ns[p[0]].name != name {
      FirstPathValid(ns[p[0]].children, name, p[1..]);
      HasTagAt(ns[p[0]].children, name, p[1..][0]);
    }
  }

  lemma {:induction false} HasTagAt(ns: Forest, name: string, k: nat)
    requires k < |ns| && NodeHasTag(ns[k], name)
    ensures HasTag(ns, name)
    decreases k
  {
    if k > 0 {
      assert ns[1..][k - 1] == ns[k];
      HasTagAt(ns[1..], name, k - 1);
    }
  }

  /** There is only one first element: `IsFirstPath` pins the path down. */
  lemma {:induction false} FirstPathUnique(ns: Forest, name: string, p: Path, q: Path)
    requires IsFirstPath(ns, name, p) && IsFirstPath(ns, name, q)
    ensures p == q
    decreases p
  {
    FirstPathValid(ns, name, p);
    FirstPathValid(ns, name, q);
    assert p[0] == q[0];
    if ns[p[0]].name != name {
      FirstPathUnique(ns[p[0]].children, name, p[1..], q[1..]);
      assert p == [p[0]] + p[1..] && q == [q[0]] + q[1..];
    }
  }

  // ---------------------------------------------------------------------
  // get_text()
  // ---------------------------------------------------------------------

  /** The text of a forest: its text nodes in document order, concatenated. */
  function TextOf(ns: Forest): string
    decreases ns
  {
    if ns == [] then ""
    else
      match ns[0]
      case Text(t) => t + TextOf(ns[1..])
      case Element(_, _, ch) => TextOf(ch) + TextOf(ns[1..])
  }

  /** `tag.get_text()`. */
  function NodeText(n: Node): string {
    TextOf([n])
  }

  /** The text of two forests side by side is the text of the first then
      the text of the second. */
  lemma {:induction false} TextOfAppend(a: Forest, b: Forest)
    ensures TextOf(a + b) == TextOf(a) + TextOf(b)
    decreases a
  {
    if a != [] {
      assert (a + b)[0] == a[0] && (a + b)[1..] == a[1..] + b;
      TextOfAppend(a[1..], b);
    } else {
      assert a + b == b;
    }
  }

  // ---------------------------------------------------------------------
  // str(soup)
  // ---------------------------------------------------------------------

  function AttrsText(attrs: seq<(string, string)>): string {
    if attrs == [] then ""
    else " " + attrs[0].0 + "=\"" + attrs[0].1 + "\"" + AttrsText(attrs[1..])
  }

  /** `str(soup)`: the markup of a forest. Every element writes at least its
      tag; a text node writes its text. */
  function Serialize(ns: Forest): string
    decreases ns
  {
    if ns == [] then ""
    else
      match ns[0]
      case Text(t) => t + Serialize(ns[1..])
      case Element(n, attrs, ch) =>
        "<" + n + AttrsText(attrs) + ">" + Serialize(ch) + "</" + n + ">" + Serialize(ns[1..])
  }

  /** Nothing but empty text. */
  predicate Blank(ns: Forest) {
    forall k :: 0 <= k < |ns| ==> ns[k] == Text("")
  }

  /** A forest serializes to the empty text exactly when it holds nothing
      but empty text nodes. */
  lemma {:induction false} SerializeEmpty(ns: Forest)
    ensures Serialize(ns) == "" <==> Blank(ns)
    decreases ns
  {
    if ns != [] {
      SerializeEmpty(ns[1..]);
      if Blank(ns) {
        assert Blank(ns[1..]) by {
          forall k | 0 <= k < |ns| - 1 ensures ns[1..][k] == Text("") {
            assert ns[1..][k] == ns[k + 1];
          }
        }
      }
      if ns[0] == Text("") && Blank(ns[1..]) {
        forall k | 0 <= k < |ns| ensures ns[k] == Text("") {
          if k > 0 { assert ns[k] == ns[1..][k - 1]; }
        }
      }
      match ns[0]
      case Text(t) =>
      case Element(n, attrs, ch) =>
        var s := Serialize(ns);
        assert s[0] == '<';
    }
  }
}
