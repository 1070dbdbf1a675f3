/** `src/xhtml.rs`: the escaper (`XhtmlEscaped`) and the serializer that
    re-emits a document subtree as XHTML, every element explicitly closed. */
module Xhtml {
  import opened Strings
  import opened Dom

  // ---------------------------------------------------------------------------
  // Escaping

  /** What `XhtmlEscaped::fmt` writes for one character. */
  function EscapeChar(c: char, attrMode: bool): string
  {
    if c == '&' then "&amp;"
    else if c == '"' && attrMode then "&quot;"
    else if c == '<' && !attrMode then "&lt;"
    else if c == '>' && !attrMode then "&gt;"
    else [c]
  }

  /** `XhtmlEscaped(s, attrMode)` as a string: every character escaped in turn. */
  function Escape(s: string, attrMode: bool): string
  {
    if s == [] then [] else EscapeChar(s[0], attrMode) + Escape(s[1..], attrMode)
  }

  /** The characters that the given mode rewrites. */
  predicate Special(c: char, attrMode: bool)
  {
    c == '&' || (attrMode && c == '"') || (!attrMode && (c == '<' || c == '>'))
  }

  /** Escaping works character by character, so it distributes over concatenation. */
  lemma {:induction false} EscapeAppend(a: string, b: string, attrMode: bool)
    ensures Escape(a + b, attrMode) == Escape(a, attrMode) + Escape(b, attrMode)
  {
    if a == [] {
      assert a + b == b;
    } else {
      assert (a + b)[0] == a[0] && (a + b)[1..] == a[1..] + b;
      EscapeAppend(a[1..], b, attrMode);
    }
  }

  /** A string without characters the mode rewrites is its own escape. */
  lemma {:induction false} EscapeFixedPoint(s: string, attrMode: bool)
    requires forall i :: 0 <= i < |s| ==> !Special(s[i], attrMode)
    ensures Escape(s, attrMode) == s
  {
    if s != [] {
      EscapeFixedPoint(s[1..], attrMode);
      assert s == [s[0]] + s[1..];
    }
  }

  /** `&` becomes `&amp;` in both modes; in attribute mode `"` becomes `&quot;`
      and `<`, `>` are kept; in text mode `<`, `>` become `&lt;`, `&gt;` and `"`
      is kept. */
  lemma EscapeCharTable(c: char)
    ensures EscapeChar('&', true) == EscapeChar('&', false) == "&amp;"
    ensures EscapeChar('"', true) == "&quot;" && EscapeChar('"', false) == "\""
    ensures EscapeChar('<', true) == "<" && EscapeChar('<', false) == "&lt;"
    ensures EscapeChar('>', true) == ">" && EscapeChar('>', false) == "&gt;"
    ensures c !in "&\"<>" ==> EscapeChar(c, true) == EscapeChar(c, false) == [c]
  {
  }

  /** Attribute-mode output never holds a bare `"`, so it cannot end the quoted value early. */
  lemma {:induction false} AttrEscapeHasNoQuote(s: string)
    ensures '"' !in Escape(s, true)
  {
    if s != [] {
      AttrEscapeHasNoQuote(s[1..]);
    }
  }

  /** Text-mode output never holds `<` or `>`, so it cannot open or close a tag. */
  lemma {:induction false} TextEscapeHasNoAngle(s: string)
    ensures '<' !in Escape(s, false) && '>' !in Escape(s, false)
  {
    if s != [] {
      TextEscapeHasNoAngle(s[1..]);
    }
  }

  /** Decoding the four entities the escaper produces, as an XML reader does. */
  function Unescape(t: string): string
    decreases |t|
  {
    if t == [] then []
    else if |t| >= 5 && t[..5] == "&amp;" then "&" + Unescape(t[5..])
    else if |t| >= 6 && t[..6] == "&quot;" then "\"" + Unescape(t[6..])
    else if |t| >= 4 && t[..4] == "&lt;" then "<" + Unescape(t[4..])
    else if |t| >= 4 && t[..4] == "&gt;" then ">" + Unescape(t[4..])
    else [t[0]] + Unescape(t[1..])
  }

  /** Decoding inverts escaping, in both modes. */
  lemma {:induction false} UnescapeEscape(s: string, attrMode: bool)
    ensures Unescape(Escape(s, attrMode)) == s
  {
    if s != [] {
      var rest := Escape(s[1..], attrMode);
      UnescapeEscape(s[1..], attrMode);
      assert Escape(s, attrMode) == EscapeChar(s[0], attrMode) + rest;
      if s[0] == '&' {
        UnescapeAmp(rest);
      } else if s[0] == '"' && attrMode {
        UnescapeQuot(rest);
      } else if (s[0] == '<' || s[0] == '>') && !attrMode {
        UnescapeAngles(rest);
      } else {
        UnescapeOther(s[0], rest);
      }
      assert s == [s[0]] + s[1..];
    }
  }

  /** `&amp;` decodes to `&`. */
  lemma UnescapeAmp(rest: string)
    ensures Unescape("&amp;" + rest) == "&" + Unescape(rest)
  {
    var t := "&amp;" + rest;
    assert t[..5] == "&amp;" && t[5..] == rest;
  }

  /** `&quot;` decodes to `"`. */
  lemma UnescapeQuot(rest: string)
    ensures Unescape("&quot;" + rest) == "\"" + Unescape(rest)
  {
    var t := "&quot;" + rest;
    assert t[1] == 'q';
    assert t[..6] == "&quot;" && t[6..] == rest;
  }

  /** `&lt;` decodes to `<` and `&gt;` to `>`. */
  lemma UnescapeAngles(rest: string)
    ensures Unescape("&lt;" + rest) == "<" + Unescape(rest)
    ensures Unescape("&gt;" + rest) == ">" + Unescape(rest)
  {
    var lt := "&lt;" + rest;
    assert lt[1] == 'l';
    assert lt[..4] == "&lt;" && lt[4..] == rest;
    var gt := "&gt;" + rest;
    assert gt[1] == 'g';
    assert gt[..4] == "&gt;" && gt[4..] == rest;
  }

  /** Any other character decodes to itself. */
  lemma UnescapeOther(c: char, rest: string)
    requires c != '&'
    ensures Unescape([c] + rest) == [c] + Unescape(rest)
  {
    var t := [c] + rest;
    assert t[0] == c && t[1..] == rest;
    assert |t| >= 4 ==> t[..4][0] == c;
    assert |t| >= 5 ==> t[..5][0] == c;
    assert |t| >= 6 ==> t[..6][0] == c;
  }

  /** Escaping is injective: different strings never escape to the same text. */
  lemma EscapeInjective(s: string, t: string, attrMode: bool)
    requires Escape(s, attrMode) == Escape(t, attrMode)
    ensures s == t
  {
    UnescapeEscape(s, attrMode);
    UnescapeEscape(t, attrMode);
  }

  // ---------------------------------------------------------------------------
  // Serialization

  /** ` name="escaped value"` for one attribute. */
  function AttrMarkup(a: Attr): string
  {
    " " + a.name + "=\"" + Escape(a.value, true) + "\""
  }

  function AttrsMarkup(attrs: seq<Attr>): string
  {
    if attrs == [] then [] else AttrsMarkup(attrs[..|attrs| - 1]) + AttrMarkup(attrs[|attrs| - 1])
  }

  lemma EscapeStep(text: string, i: nat, attrMode: bool)
    requires i < |text|
    ensures Escape(text[..i + 1], attrMode) == Escape(text[..i], attrMode) + EscapeChar(text[i], attrMode)
  {
    EscapeAppend(text[..i], [text[i]], attrMode);
    assert text[..i + 1] == text[..i] + [text[i]];
    assert Escape([text[i]], attrMode) == EscapeChar(text[i], attrMode) + [];
  }

  lemma AttrsMarkupSnoc(attrs: seq<Attr>, i: nat)
    requires i < |attrs|
    ensures AttrsMarkup(attrs[..i + 1]) == AttrsMarkup(attrs[..i]) + AttrMarkup(attrs[i])
  {
    assert attrs[..i + 1][..i] == attrs[..i];
  }

  function StartTag(name: string, attrs: seq<Attr>): string
  {
    "<" + name + AttrsMarkup(attrs) + ">"
  }

  function EndTag(name: string): string
  {
    "</" + name + ">"
  }

  /** What `serialize` writes for a subtree (html5ever's traversal with
      `TraversalScope::IncludeNode`): an element as its start tag, its
      children and its end tag; text escaped in text mode; comments and
      processing instructions verbatim between their delimiters. */
  function Markup(n: Node): string
  {
    match n
    case Element(_, name, attrs, children) => StartTag(name, attrs) + MarkupAll(children) + EndTag(name)
    case Text(t) => Escape(t, false)
    case Comment(t) => "<!--" + t + "-->"
    case ProcessingInstruction(target, data) => "<?" + target + " " + data + ">"
  }

  /** The markup of a sequence of sibling nodes (`inner_xhtml` of their parent). */
  function MarkupAll(ns: seq<Node>): string
  {
    if ns == [] then [] else MarkupAll(ns[..|ns| - 1]) + Markup(ns[|ns| - 1])
  }

  lemma {:induction false} MarkupAllCons(n: Node, ns: seq<Node>)
    ensures MarkupAll([n] + ns) == Markup(n) + MarkupAll(ns)
    decreases |ns|
  {
    if ns != [] {
      var all := [n] + ns;
      assert all[..|all| - 1] == [n] + ns[..|ns| - 1];
      MarkupAllCons(n, ns[..|ns| - 1]);
    } else {
      assert ([n] + ns)[..0] == [];
    }
  }

  /** The writer-backed serializer; `out` is everything written so far. */
  class XhtmlSerializer {
    var out: string

    constructor ()
      ensures out == []
    {
      out := [];
    }

    /** `write_escaped` */
    method WriteEscaped(text: string, attrMode: bool)
      modifies this
      ensures out == old(out) + Escape(text, attrMode)
    {
      ghost var start := out;
      for i := 0 to |text|
        invariant out == start + Escape(text[..i], attrMode)
      {
        var e := EscapeChar(text[i], attrMode);
        EscapeStep(text, i, attrMode);
        AppendAssoc(start, Escape(text[..i], attrMode), e);
        out := out + e;
      }
      assert text[..|text|] == text;
    }

    /** One attribute of `start_elem`: ` name="`, the value escaped in attribute mode, `"`. */
    method WriteAttr(a: Attr)
      modifies this
      ensures out == old(out) + AttrMarkup(a)
    {
      out := out + " " + a.name + "=\"";
      WriteEscaped(a.value, true);
      out := out + "\"";
    }

    /** `start_elem`; an element or attribute outside the HTML namespace is a panic. */
    method StartElem(ns: string, name: string, attrs: seq<Attr>)
      requires ns == HtmlNs
      requires HtmlAttrs(attrs)
      modifies this
      ensures out == old(out) + StartTag(name, attrs)
    {
      ghost var before := out;
      out := out + "<" + name;
      ghost var open := out;
      for i := 0 to |attrs|
        invariant out == open + AttrsMarkup(attrs[..i])
      {
        AttrsMarkupSnoc(attrs, i);
        AppendAssoc(open, AttrsMarkup(attrs[..i]), AttrMarkup(attrs[i]));
        WriteAttr(attrs[i]);
      }
      assert attrs[..|attrs|] == attrs;
      out := out + ">";
      assert before + "<" + name + AttrsMarkup(attrs) + ">" == before + StartTag(name, attrs);
    }

    /** `end_elem` */
    method EndElem(name: string)
      modifies this
      ensures out == old(out) + EndTag(name)
    {
      out := out + "</" + name + ">";
    }

    /** `write_text` */
    method WriteText(text: string)
      modifies this
      ensures out == old(out) + Escape(text, false)
    {
      WriteEscaped(text, false);
    }

    /** `write_comment` */
    method WriteComment(text: string)
      modifies this
      ensures out == old(out) + "<!--" + text + "-->"
    {
      out := out + "<!--" + text + "-->";
    }

    /** `write_processing_instruction` */
    method WriteProcessingInstruction(target: string, data: string)
      modifies this
      ensures out == old(out) + "<?" + target + " " + data + ">"
    {
      out := out + "<?" + target + " " + data + ">";
    }

    /** `serialize`: html5ever's traversal of the subtree, node itself included. */
    method Serialize(n: Node)
      requires AllHtml(n)
      modifies this
      ensures out == old(out) + Markup(n)
      decreases n
    {
      match n
      case Element(ns, name, attrs, children) =>
        ghost var start := out;
        StartElem(ns, name, attrs);
        ghost var open := out;
        for i := 0 to |children|
          invariant out == open + MarkupAll(children[..i])
        {
          assert children[i] in children;
          assert children[..i + 1][..i] == children[..i];
          AppendAssoc(open, MarkupAll(children[..i]), Markup(children[i]));
          Serialize(children[i]);
        }
        assert children[..|children|] == children;
        EndElem(name);
        assert start + StartTag(name, attrs) + MarkupAll(children) + EndTag(name) == start + Markup(n);
      case Text(t) =>
        WriteText(t);
      case Comment(t) =>
        WriteComment(t);
      case ProcessingInstruction(target, data) =>
        WriteProcessingInstruction(target, data);
    }
  }

  /** `outer_xhtml` of `src/mon.rs`: a fresh serializer run over one node. */
  method OuterXhtml(n: Node) returns (s: string)
    requires AllHtml(n)
    ensures s == Markup(n)
  {
    var ser := new XhtmlSerializer();
    ser.Serialize(n);
    s := ser.out;
  }

  /** `inner_xhtml` of `src/mon.rs`: the children of a node, serialized one after another. */
  method InnerXhtml(n: Node) returns (s: string)
    requires AllHtml(n)
    ensures s == MarkupAll(ChildrenOf(n))
  {
    var ser := new XhtmlSerializer();
    var children := ChildrenOf(n);
    for i := 0 to |children|
      invariant ser.out == MarkupAll(children[..i])
    {
      assert children[..i + 1][..i] == children[..i];
      ser.Serialize(children[i]);
    }
    assert children[..|children|] == children;
    s := ser.out;
  }
}
