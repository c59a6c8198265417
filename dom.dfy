/**
 * The parsed document as the validators see it, and the handful of tree
 * queries they make: `find_all` (pre-order descendants filtered by tag),
 * `find_parent`, `get_text(strip=True)`, attribute look-ups and the direct
 * child elements of a node.
 */
module Dom {
  import opened Wrappers
  import PyStr

  /**
   * A node of the parsed document: a text string or an element. Tag and
   * attribute names are lower case, as the HTML parser leaves them; an
   * attribute written without a value maps to "".
   */
  datatype Node =
    | Text(value: string)
    | Element(name: string, attrs: map<string, string>, children: seq<Node>, sourceline: Option<nat>)

  /** `str(node)`: the parser's serialisation of an element, supplied from outside the model. */
  type Serializer = Node -> string

  /** An element found in the document, with the tag names of its ancestors, outermost first. */
  datatype Located = Located(node: Node, above: seq<string>)

  /** Every element of the forest `ns`, in document order (pre-order), with its ancestors' tags. */
  function Walk(ns: seq<Node>, above: seq<string>): (r: seq<Located>)
    ensures forall i | 0 <= i < |r| :: r[i].node.Element?
    decreases ns
  {
    if ns == [] then []
    else match ns[0]
      case Text(_) => Walk(ns[1..], above)
      case Element(name, _, children, _) =>
        [Located(ns[0], above)] + Walk(children, above + [name]) + Walk(ns[1..], above)
  }

  /** The located elements of `ls` whose tag is one of `tags`, in their order. */
  function Select(ls: seq<Located>, tags: set<string>): (r: seq<Located>)
    ensures forall i | 0 <= i < |r| :: r[i].node.Element? && r[i].node.name in tags
  {
    if ls == [] then []
    else if ls[0].node.Element? && ls[0].node.name in tags then [ls[0]] + Select(ls[1..], tags)
    else Select(ls[1..], tags)
  }

  /** `find_all(tags)` over the forest `ns`, whose ancestors' tags are `above`. */
  function FindAll(ns: seq<Node>, above: seq<string>, tags: set<string>): seq<Located>
  {
    Select(Walk(ns, above), tags)
  }

  /** `soup.find_all(tags)` on a whole document. */
  function FindInDocument(doc: seq<Node>, tags: set<string>): seq<Located>
  {
    FindAll(doc, [], tags)
  }

  /** `e.find_all(tags)`: the matching descendants of the element `e` (never `e` itself). */
  function FindBelow(e: Located, tags: set<string>): seq<Located>
    requires e.node.Element?
  {
    FindAll(e.node.children, e.above + [e.node.name], tags)
  }

  /** Reference definition: some element of the forest, at any depth, has a tag in `tags`. */
  predicate HasElement(ns: seq<Node>, tags: set<string>)
    decreases ns
  {
    ns != [] &&
    ((ns[0].Element? && (ns[0].name in tags || HasElement(ns[0].children, tags))) || HasElement(ns[1..], tags))
  }

  lemma {:induction false} SelectAppend(a: seq<Located>, b: seq<Located>, tags: set<string>)
    ensures Select(a + b, tags) == Select(a, tags) + Select(b, tags)
  {
    if a != [] {
      assert (a + b)[0] == a[0] && (a + b)[1..] == a[1..] + b;
      SelectAppend(a[1..], b, tags);
    } else {
      assert a + b == b;
    }
  }

  /**
   * `find_all(tags)` comes back empty exactly when no element of the forest,
   * at any depth, carries one of `tags`: the truthiness test the validators
   * apply to it.
   */
  lemma {:induction false} FindAllEmpty(ns: seq<Node>, above: seq<string>, tags: set<string>)
    ensures FindAll(ns, above, tags) == [] <==> !HasElement(ns, tags)
    decreases ns
  {
    if ns != [] {
      FindAllEmpty(ns[1..], above, tags);
      match ns[0]
      case Text(_) =>
      case Element(name, _, children, _) =>
        FindAllEmpty(children, above + [name], tags);
        SelectAppend([Located(ns[0], above)] + Walk(children, above + [name]), Walk(ns[1..], above), tags);
        SelectAppend([Located(ns[0], above)], Walk(children, above + [name]), tags);
    }
  }

  /** A forest of elements holding nothing but text walks to those elements, in order. */
  lemma {:induction false} WalkFlat(ns: seq<Node>, above: seq<string>)
    requires forall i | 0 <= i < |ns| :: ns[i].Element? && forall k | 0 <= k < |ns[i].children| :: ns[i].children[k].Text?
    ensures Walk(ns, above) == seq(|ns|, i requires 0 <= i < |ns| => Located(ns[i], above))
    decreases ns
  {
    if ns != [] {
      WalkTexts(ns[0].children, above + [ns[0].name]);
      WalkFlat(ns[1..], above);
    }
  }

  lemma {:induction false} WalkTexts(ns: seq<Node>, above: seq<string>)
    requires forall k | 0 <= k < |ns| :: ns[k].Text?
    ensures Walk(ns, above) == []
    decreases ns
  {
    if ns != [] {
      WalkTexts(ns[1..], above);
    }
  }

  /** `get_text(strip=True)` over a forest: each text piece stripped, empty ones dropped, no separator. */
  function TextOf(ns: seq<Node>): (r: string)
    ensures PyStr.Trimmed(r)
    decreases ns
  {
    if ns == [] then ""
    else
      var head := match ns[0]
        case Text(v) => PyStr.Strip(v)
        case Element(_, _, children, _) => TextOf(children);
      var tail := TextOf(ns[1..]);
      PyStr.TrimmedConcat(head, tail);
      head + tail
  }

  /** `node.get_text(strip=True)` */
  function GetText(n: Node): (r: string)
    requires n.Element?
    ensures PyStr.Strip(r) == r
  {
    TextOf(n.children)
  }

  /** `node.get(key)` */
  function Get(n: Node, key: string): Option<string>
    requires n.Element?
  {
    if key in n.attrs then Some(n.attrs[key]) else None
  }

  /** `node.get(key, default)` */
  function GetOr(n: Node, key: string, default: string): string
    requires n.Element?
  {
    if key in n.attrs then n.attrs[key] else default
  }

  /** The truthiness of `node.get(key)`: the attribute is present and not empty. */
  predicate Truthy(n: Node, key: string)
    requires n.Element?
  {
    key in n.attrs && n.attrs[key] != ""
  }

  /** `node.find_all(recursive=False)` is non-empty: the node has a child element. */
  predicate HasChildElement(n: Node)
    requires n.Element?
  {
    exists i | 0 <= i < |n.children| :: n.children[i].Element?
  }
}
