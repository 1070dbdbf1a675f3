/** The document tree the extractor walks (a parsed HTML page), the fixed
    selectors it queries, and the small accessors of `src/mon.rs`
    (`get_attr`, `first_el_child`, `is_element`).  The HTML parser and the
    CSS selector engine are libraries; the tree is a datatype and every
    selector the program uses is one constructor of `Selector`. */
module Dom {
  import opened Wrappers
  import opened Strings

  /** The HTML namespace, the only element namespace the serializer accepts. */
  const HtmlNs: string := "http://www.w3.org/1999/xhtml"

  /** An attribute: namespace (empty for ordinary HTML attributes), local name and value. */
  datatype Attr = Attr(ns: string, name: string, value: string)

  /** A node of the document tree.  Attributes keep their document order. */
  datatype Node =
    | Element(ns: string, name: string, attrs: seq<Attr>, children: seq<Node>)
    | Text(text: string)
    | Comment(text: string)
    | ProcessingInstruction(target: string, data: string)

  /** The children of a node; only elements have any. */
  function ChildrenOf(n: Node): seq<Node>
  {
    if n.Element? then n.children else []
  }

  // ---------------------------------------------------------------------------
  // Accessors of src/mon.rs

  /** `is_element` */
  predicate IsElement(n: Node)
  {
    n.Element?
  }

  /** `get_attr`: the value of attribute `name` of an element; none for other nodes. */
  function GetAttr(n: Node, name: string): Option<string>
  {
    if n.Element? then LookupAttr(n.attrs, name) else None
  }

  predicate HasAttr(n: Node, name: string)
  {
    GetAttr(n, name).Some?
  }

  /** `first_el_child`: the first child that is an element with local name `tag`. */
  function FirstElChild(n: Node, tag: string): (r: Option<Node>)
    ensures r.Some? ==> r.value in ChildrenOf(n) && r.value.Element? && r.value.name == tag
    ensures r.None? <==> forall c :: c in ChildrenOf(n) ==> !(c.Element? && c.name == tag)
  {
    FirstNamed(ChildrenOf(n), tag)
  }

  function FirstNamed(ns: seq<Node>, tag: string): (r: Option<Node>)
    ensures r.Some? ==> r.value in ns && r.value.Element? && r.value.name == tag
    ensures r.None? <==> forall c :: c in ns ==> !(c.Element? && c.name == tag)
    ensures r.Some? ==> exists i :: (0 <= i < |ns| && ns[i] == r.value
      && forall j :: 0 <= j < i ==> !(ns[j].Element? && ns[j].name == tag))
  {
    if ns == [] then None
    else if ns[0].Element? && ns[0].name == tag then Some(ns[0])
    else
      var r := FirstNamed(ns[1..], tag);
      assert forall c :: c in ns[1..] ==> c in ns;
      assert r.Some? ==> exists i :: (0 <= i < |ns| && ns[i] == r.value
        && forall j :: 0 <= j < i ==> !(ns[j].Element? && ns[j].name == tag)) by {
        if r.Some? {
          var i :| 0 <= i < |ns| - 1 && ns[1..][i] == r.value
            && forall j :: 0 <= j < i ==> !(ns[1..][j].Element? && ns[1..][j].name == tag);
          assert ns[i + 1] == r.value;
          assert forall j :: 0 <= j < i + 1 ==> !(ns[j].Element? && ns[j].name == tag) by {
            forall j | 0 <= j < i + 1
              ensures !(ns[j].Element? && ns[j].name == tag)
            {
              if j > 0 {
                assert ns[j] == ns[1..][j - 1];
              }
            }
          }
        }
      }
      r
  }

  /** `children().filter(is_element)` */
  function ElementChildren(n: Node): (r: seq<Node>)
    ensures forall c :: c in r ==> c.Element? && c in ChildrenOf(n)
  {
    Elements(ChildrenOf(n))
  }

  function Elements(ns: seq<Node>): (r: seq<Node>)
    ensures |r| <= |ns|
    ensures forall c :: c in r ==> c.Element? && c in ns
    ensures forall c :: c in ns && c.Element? ==> c in r
  {
    if ns == [] then []
    else (if ns[0].Element? then [ns[0]] else []) + Elements(ns[1..])
  }

  /** `text_contents`: the text of every text node in the subtree, in document order. */
  function TextContents(n: Node): string
  {
    match n
    case Text(t) => t
    case Element(_, _, _, children) => TextOfAll(children)
    case _ => []
  }

  function TextOfAll(ns: seq<Node>): string
  {
    if ns == [] then [] else TextContents(ns[0]) + TextOfAll(ns[1..])
  }

  // ---------------------------------------------------------------------------
  // Selectors

  /** ASCII white space, which separates the tokens of a `class` attribute. */
  predicate IsAsciiWhitespace(c: char)
  {
    c == ' ' || c == '\t' || c == '\n' || c == '\U{C}' || c == '\r'
  }

  /** `v`, a white-space-separated list, contains the token `cls`. */
  predicate HasToken(v: string, cls: string)
  {
    cls != [] && exists i | 0 <= i <= |v| - |cls| :: (OccursAt(v, cls, i)
      && (i == 0 || IsAsciiWhitespace(v[i - 1]))
      && (i + |cls| == |v| || IsAsciiWhitespace(v[i + |cls|])))
  }

  /** The CSS selectors the program uses, each one a fixed shape. */
  datatype Selector =
    | Tag(tag: string)                                     // `big`, `img`, `tr`
    | TagClass(tag: string, cls: string)                   // `table.roundy`, `sup.reference`
    | Class(cls: string)                                   // `.mw-parser-output`
    | TagHasAttr(tag: string, attr: string)                // `a[title]`
    | AttrEquals(attr: string, value: string)              // `[lang='ja']`
    | TagAttrEndsWith(tag: string, attr: string, suffix: string)  // `a[href$='mon)']`

  predicate Matches(n: Node, sel: Selector)
  {
    n.Element? &&
    match sel
    case Tag(t) => n.name == t
    case TagClass(t, c) => n.name == t && HasToken(GetOr(GetAttr(n, "class"), []), c)
    case Class(c) => HasToken(GetOr(GetAttr(n, "class"), []), c)
    case TagHasAttr(t, a) => n.name == t && HasAttr(n, a)
    case AttrEquals(a, v) => GetAttr(n, a) == Some(v)
    case TagAttrEndsWith(t, a, s) =>
      n.name == t && HasAttr(n, a) && s != [] && EndsWith(GetAttr(n, a).value, s)
  }

  /** `node.select(sel)`: the matching nodes of the subtree rooted at `n`,
      `n` included, in document order. */
  function Select(n: Node, sel: Selector): seq<Node>
  {
    (if Matches(n, sel) then [n] else []) + (if n.Element? then SelectAll(n.children, sel) else [])
  }

  function SelectAll(ns: seq<Node>, sel: Selector): seq<Node>
  {
    if ns == [] then [] else Select(ns[0], sel) + SelectAll(ns[1..], sel)
  }

  /** `node.select_first(sel)` */
  function SelectFirst(n: Node, sel: Selector): (r: Option<Node>)
    ensures r.Some? ==> Matches(r.value, sel)
  {
    var all := Select(n, sel);
    SelectMatches(n, sel);
    if all == [] then None else Some(all[0])
  }

  lemma {:induction false} SelectMatches(n: Node, sel: Selector)
    ensures forall x :: x in Select(n, sel) ==> Matches(x, sel)
  {
    if n.Element? {
      SelectAllMatches(n.children, sel);
    }
  }

  lemma {:induction false} SelectAllMatches(ns: seq<Node>, sel: Selector)
    ensures forall x :: x in SelectAll(ns, sel) ==> Matches(x, sel)
  {
    if ns != [] {
      SelectMatches(ns[0], sel);
      SelectAllMatches(ns[1..], sel);
    }
  }

  /** The first match among the strict descendants of `parent`, with the node
      whose child it is (`img.parent()` in the gallery code). */
  function FirstWithParent(parent: Node, sel: Selector): Option<(Node, Node)>
    decreases parent
  {
    if parent.Element? then FirstWithParentIn(parent, parent.children, sel) else None
  }

  function FirstWithParentIn(parent: Node, ns: seq<Node>, sel: Selector): Option<(Node, Node)>
    decreases ns
  {
    if ns == [] then None
    else if Matches(ns[0], sel) then Some((parent, ns[0]))
    else match FirstWithParent(ns[0], sel)
      case Some(p) => Some(p)
      case None => FirstWithParentIn(parent, ns[1..], sel)
  }

  /** For a root that does not itself match, `FirstWithParent` finds the same
      node as `select_first`, together with a node that has it as a child. */
  lemma FirstWithParentAgrees(n: Node, sel: Selector)
    requires !Matches(n, sel)
    ensures FirstWithParent(n, sel).Some? <==> SelectFirst(n, sel).Some?
    ensures FirstWithParent(n, sel).Some? ==>
      FirstWithParent(n, sel).value.1 == SelectFirst(n, sel).value
      && FirstWithParent(n, sel).value.1 in ChildrenOf(FirstWithParent(n, sel).value.0)
  {
    if n.Element? {
      FirstWithParentInAgrees(n, n.children, sel);
    }
  }

  lemma {:induction false} FirstWithParentInAgrees(parent: Node, ns: seq<Node>, sel: Selector)
    requires forall c :: c in ns ==> c in ChildrenOf(parent)
    ensures FirstWithParentIn(parent, ns, sel).Some? <==> SelectAll(ns, sel) != []
    ensures FirstWithParentIn(parent, ns, sel).Some? ==>
      && FirstWithParentIn(parent, ns, sel).value.1 == SelectAll(ns, sel)[0]
      && FirstWithParentIn(parent, ns, sel).value.1 in ChildrenOf(FirstWithParentIn(parent, ns, sel).value.0)
    decreases ns
  {
    if ns != [] {
      var here := Select(ns[0], sel);
      assert SelectAll(ns, sel) == here + SelectAll(ns[1..], sel);
      if !Matches(ns[0], sel) {
        assert here == (if ns[0].Element? then SelectAll(ns[0].children, sel) else []);
        if ns[0].Element? {
          FirstWithParentInAgrees(ns[0], ns[0].children, sel);
        }
        if FirstWithParent(ns[0], sel).None? {
          assert here == [];
          FirstWithParentInAgrees(parent, ns[1..], sel);
        } else {
          assert here != [];
        }
      }
    }
  }

  // ---------------------------------------------------------------------------
  // Namespaces

  /** Every element and attribute of the subtree is in the HTML namespace (an
      attribute may also have no namespace): the serializer's requirement. */
  predicate HtmlAttrs(attrs: seq<Attr>)
  {
    attrs == [] || ((attrs[0].ns == [] || attrs[0].ns == HtmlNs) && HtmlAttrs(attrs[1..]))
  }

  predicate AllHtml(n: Node)
  {
    match n
    case Element(ns, _, attrs, children) =>
      && ns == HtmlNs
      && HtmlAttrs(attrs)
      && (forall c :: c in children ==> AllHtml(c))
    case _ => true
  }

  lemma {:induction false} SelectAllHtml(n: Node, sel: Selector)
    requires AllHtml(n)
    ensures forall x :: x in Select(n, sel) ==> AllHtml(x)
  {
    if n.Element? {
      SelectAllAllHtml(n.children, sel);
    }
  }

  lemma {:induction false} SelectAllAllHtml(ns: seq<Node>, sel: Selector)
    requires forall c :: c in ns ==> AllHtml(c)
    ensures forall x :: x in SelectAll(ns, sel) ==> AllHtml(x)
  {
    if ns != [] {
      SelectAllHtml(ns[0], sel);
      SelectAllAllHtml(ns[1..], sel);
    }
  }

  /** What `select_first` finds in an HTML subtree is HTML too. */
  lemma SelectFirstHtml(n: Node, sel: Selector)
    requires AllHtml(n) && SelectFirst(n, sel).Some?
    ensures AllHtml(SelectFirst(n, sel).value)
  {
    SelectAllHtml(n, sel);
  }

  /** The children of an HTML node are HTML. */
  lemma ChildrenHtml(n: Node)
    requires AllHtml(n)
    ensures forall c :: c in ChildrenOf(n) ==> AllHtml(c)
  {
  }

  // ---------------------------------------------------------------------------
  // Attribute updates (kuchikiki's `Attributes::insert` and `remove`)

  /** The value of the first non-namespaced attribute called `name`. */
  function LookupAttr(attrs: seq<Attr>, name: string): Option<string>
  {
    if attrs == [] then None
    else if attrs[0].ns == [] && attrs[0].name == name then Some(attrs[0].value)
    else LookupAttr(attrs[1..], name)
  }

  /** `attrs.remove(name)` */
  function RemoveAttr(attrs: seq<Attr>, name: string): (r: seq<Attr>)
    ensures |r| <= |attrs|
  {
    if attrs == [] then []
    else (if attrs[0].ns == [] && attrs[0].name == name then [] else [attrs[0]]) + RemoveAttr(attrs[1..], name)
  }

  /** `attrs.insert(name, value)`: replaces the value in place, or appends a new attribute. */
  function InsertAttr(attrs: seq<Attr>, name: string, value: string): (r: seq<Attr>)
    ensures |r| == |attrs| || |r| == |attrs| + 1
  {
    if attrs == [] then [Attr([], name, value)]
    else if attrs[0].ns == [] && attrs[0].name == name then [Attr([], name, value)] + attrs[1..]
    else [attrs[0]] + InsertAttr(attrs[1..], name, value)
  }

  /** After `remove(name)` the attribute is gone and every other attribute keeps its value. */
  lemma {:induction false} RemoveAttrLookup(attrs: seq<Attr>, name: string, other: string)
    ensures LookupAttr(RemoveAttr(attrs, name), name) == None
    ensures other != name ==> LookupAttr(RemoveAttr(attrs, name), other) == LookupAttr(attrs, other)
  {
    if attrs != [] {
      RemoveAttrLookup(attrs[1..], name, other);
      var rest := RemoveAttr(attrs[1..], name);
      if !(attrs[0].ns == [] && attrs[0].name == name) {
        assert RemoveAttr(attrs, name) == [attrs[0]] + rest;
        assert ([attrs[0]] + rest)[1..] == rest;
      } else {
        assert RemoveAttr(attrs, name) == rest;
      }
    }
  }

  /** After `insert(name, value)` the attribute has the new value and every other attribute keeps its value. */
  lemma {:induction false} InsertAttrLookup(attrs: seq<Attr>, name: string, value: string, other: string)
    ensures LookupAttr(InsertAttr(attrs, name, value), name) == Some(value)
    ensures other != name ==> LookupAttr(InsertAttr(attrs, name, value), other) == LookupAttr(attrs, other)
  {
    if attrs != [] && !(attrs[0].ns == [] && attrs[0].name == name) {
      InsertAttrLookup(attrs[1..], name, value, other);
      var rest := InsertAttr(attrs[1..], name, value);
      assert ([attrs[0]] + rest)[1..] == rest;
    }
  }

  /** `RemoveAttrLookup` and `InsertAttrLookup` for every other attribute at once. */
  lemma OtherAttrsKept(attrs: seq<Attr>, name: string, value: string)
    ensures forall other :: other != name ==> LookupAttr(RemoveAttr(attrs, name), other) == LookupAttr(attrs, other)
    ensures forall other :: other != name ==> LookupAttr(InsertAttr(attrs, name, value), other) == LookupAttr(attrs, other)
  {
    forall other | other != name
      ensures LookupAttr(RemoveAttr(attrs, name), other) == LookupAttr(attrs, other)
      ensures LookupAttr(InsertAttr(attrs, name, value), other) == LookupAttr(attrs, other)
    {
      RemoveAttrLookup(attrs, name, other);
      InsertAttrLookup(attrs, name, value, other);
    }
  }

  /** Removing or inserting an ordinary attribute keeps every attribute in the HTML namespace or in none. */
  lemma {:induction false} HtmlAttrsUpdate(attrs: seq<Attr>, name: string, value: string)
    requires HtmlAttrs(attrs)
    ensures HtmlAttrs(RemoveAttr(attrs, name))
    ensures HtmlAttrs(InsertAttr(attrs, name, value))
  {
    if attrs != [] {
      HtmlAttrsUpdate(attrs[1..], name, value);
      var rest := RemoveAttr(attrs[1..], name);
      if !(attrs[0].ns == [] && attrs[0].name == name) {
        assert RemoveAttr(attrs, name) == [attrs[0]] + rest;
        assert ([attrs[0]] + rest)[0] == attrs[0] && ([attrs[0]] + rest)[1..] == rest;
        var ins := InsertAttr(attrs[1..], name, value);
        assert InsertAttr(attrs, name, value) == [attrs[0]] + ins;
        assert ([attrs[0]] + ins)[0] == attrs[0] && ([attrs[0]] + ins)[1..] == ins;
      } else {
        assert RemoveAttr(attrs, name) == rest;
        assert ([Attr([], name, value)] + attrs[1..])[1..] == attrs[1..];
      }
    }
  }
}
