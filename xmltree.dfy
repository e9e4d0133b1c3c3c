/**
 * The XML document as the current codec sees it: a tree already built by the
 * XML parser (roxmltree) on the reading side, and a token sink (quick-xml's
 * `Writer`) on the writing side. `Markup` is an independent rendering of a
 * tree as text, used to say which tree the writer's output denotes.
 */
module XmlTree {
  import opened Wrappers
  import opened TextSyntax

  /**
   * A parsed node. Elements carry their tag name and children in document
   * order; text nodes carry their text (`None` when the parser gives none);
   * comments and processing instructions are `Comment` nodes, which every
   * scan in the codec passes over.
   */
  datatype Node =
    | Element(tag: string, children: seq<Node>)
    | Text(text: Option<string>)
    | Comment(content: string)

  /** `Node::has_tag_name`: only an element can carry a tag name. */
  predicate HasTagName(n: Node, name: string) {
    n.Element? && n.tag == name
  }

  /** `node.tag_name().name()`: the empty name for anything but an element. */
  function TagName(n: Node): string {
    if n.Element? then n.tag else ""
  }

  function ChildrenOf(n: Node): seq<Node> {
    if n.Element? then n.children else []
  }

  /**
   * The first node of `ns` with tag `name`: the `for child in node.children()
   * { if child.has_tag_name(name) { return ... } }` scan that every reader uses.
   */
  function FirstChildNamed(ns: seq<Node>, name: string): (r: Option<Node>)
    ensures r.Some? ==> r.value in ns && HasTagName(r.value, name)
    ensures r.None? <==> forall i :: 0 <= i < |ns| ==> !HasTagName(ns[i], name)
  {
    if ns == [] then None
    else if HasTagName(ns[0], name) then Some(ns[0])
    else FirstChildNamed(ns[1..], name)
  }

  /** The node the search finds is the first named one: every node before it has another name. */
  lemma {:induction false} FirstChildNamedIsFirst(ns: seq<Node>, name: string)
    requires FirstChildNamed(ns, name).Some?
    ensures exists k :: 0 <= k < |ns| && ns[k] == FirstChildNamed(ns, name).value &&
                        forall j :: 0 <= j < k ==> !HasTagName(ns[j], name)
  {
    if !HasTagName(ns[0], name) {
      FirstChildNamedIsFirst(ns[1..], name);
      var k :| 0 <= k < |ns[1..]| && ns[1..][k] == FirstChildNamed(ns, name).value &&
               forall j :: 0 <= j < k ==> !HasTagName(ns[1..][j], name);
      assert ns[k + 1] == ns[1..][k];
      assert forall j :: 0 <= j < k + 1 ==> !HasTagName(ns[j], name) by {
        forall j | 0 <= j < k + 1 ensures !HasTagName(ns[j], name) {
          if j > 0 { assert ns[j] == ns[1..][j - 1]; }
        }
      }
    } else {
      assert ns[0] == FirstChildNamed(ns, name).value;
    }
  }

  // ---------------------------------------------------------------------------
  // Markup of a tree

  function StartTag(name: string): string {
    "<" + name + ">"
  }

  function EndTag(name: string): string {
    "</" + name + ">"
  }

  /** The XML declaration quick-xml writes for `BytesDecl::new("1.0", None, None)`. */
  const Declaration: string := "<?xml version=\"1.0\"?>"

  /** Text as it stands in a document: escaped with quick-xml's entity set. */
  function CharData(s: string): string {
    Escape(s, MarkupAndQuotes)
  }

  /** The markup of a tree, written with start and end tags (never self-closing). */
  function Markup(n: Node): string
    decreases n, 1
  {
    match n
    case Element(tag, children) => StartTag(tag) + MarkupAll(children) + EndTag(tag)
    case Text(t) => CharData(t.GetOr(""))
    case Comment(c) => "<!--" + c + "-->"
  }

  function MarkupAll(ns: seq<Node>): string
    decreases ns, 0
  {
    if ns == [] then "" else MarkupAll(ns[..|ns| - 1]) + Markup(ns[|ns| - 1])
  }

  // ---------------------------------------------------------------------------
  // Writer tokens

  /** The tokens of `create_element(name).write_inner_content(..)`: start tag, content, end tag. */
  function ElementTokens(name: string, inner: seq<string>): seq<string> {
    [StartTag(name)] + inner + [EndTag(name)]
  }

  /** Tokens written as a start tag, some inner tokens and an end tag form one element. */
  lemma Wrapped(before: seq<string>, name: string, inner: seq<string>)
    ensures before + [StartTag(name)] + inner + [EndTag(name)] == before + ElementTokens(name, inner)
  {
  }

  /** Tokens (or characters) appended one batch after another. */
  lemma Appended<T>(start: seq<T>, done: seq<T>, next: seq<T>)
    ensures start + done + next == start + (done + next)
  {
  }

  /** The tokens of `create_element(name).write_text_content(BytesText::new(text))`. */
  function TextElementTokens(name: string, text: string): seq<string> {
    ElementTokens(name, [CharData(text)])
  }

  /** The tree a text element parses to: an element with one text child, or none for empty text. */
  function TextElementTree(name: string, text: string): Node {
    Element(name, if text == "" then [] else [Text(Some(text))])
  }

  lemma MarkupAllAppend(a: seq<Node>, b: seq<Node>)
    ensures MarkupAll(a + b) == MarkupAll(a) + MarkupAll(b)
    decreases |b|
  {
    if b == [] {
      assert a + b == a;
    } else {
      var init, last := b[..|b| - 1], b[|b| - 1];
      SnocSplit(a, b);
      MarkupAllAppend(a, init);
      MarkupAllSnoc(a + b, a + init, last);
      MarkupAllSnoc(b, init, last);
      Appended(MarkupAll(a), MarkupAll(init), Markup(last));
    }
  }

  /** The markup of a non-empty sequence, with its initial part and its last node named. */
  lemma MarkupAllSnoc(ns: seq<Node>, init: seq<Node>, last: Node)
    requires ns != [] && ns[..|ns| - 1] == init && ns[|ns| - 1] == last
    ensures MarkupAll(ns) == MarkupAll(init) + Markup(last)
  {
  }

  /** Dropping the last element of `a + b` (with `b` non-empty) drops the last element of `b`. */
  lemma SnocSplit<T>(a: seq<T>, b: seq<T>)
    requires b != []
    ensures a + b != [] && (a + b)[..|a + b| - 1] == a + b[..|b| - 1] && (a + b)[|a + b| - 1] == b[|b| - 1]
  {
    assert (a + b)[..|a + b| - 1] == a + b[..|b| - 1];
  }

  lemma MarkupAllSingle(n: Node)
    ensures MarkupAll([n]) == Markup(n)
  {
    assert [n][..0] == [];
  }

  /** An element written from tokens `inner` that spell its children is the markup of that element. */
  lemma ElementTokensMarkup(name: string, inner: seq<string>, children: seq<Node>)
    requires Concat(inner) == MarkupAll(children)
    ensures Concat(ElementTokens(name, inner)) == Markup(Element(name, children))
  {
    ConcatAppend([StartTag(name)] + inner, [EndTag(name)]);
    ConcatAppend([StartTag(name)], inner);
    assert Concat([StartTag(name)]) == StartTag(name);
    assert Concat([EndTag(name)]) == EndTag(name);
  }

  /** The text of an element's tokens: its start tag, its content, its end tag. */
  lemma ConcatElementTokens(name: string, inner: seq<string>)
    ensures Concat(ElementTokens(name, inner)) == StartTag(name) + Concat(inner) + EndTag(name)
  {
    ConcatAppend([StartTag(name)] + inner, [EndTag(name)]);
    ConcatAppend([StartTag(name)], inner);
    assert Concat([StartTag(name)]) == StartTag(name);
    assert Concat([EndTag(name)]) == EndTag(name);
  }

  lemma ConcatTextElement(name: string, text: string)
    ensures Concat(TextElementTokens(name, text)) == StartTag(name) + CharData(text) + EndTag(name)
  {
    ConcatElementTokens(name, [CharData(text)]);
    assert Concat([CharData(text)]) == CharData(text);
  }

  /** A written text element is the markup of the tree the reader receives for it. */
  lemma TextElementMarkup(name: string, text: string)
    ensures Concat(TextElementTokens(name, text)) == Markup(TextElementTree(name, text))
  {
    if text == "" {
      assert Concat([CharData(text)]) == "" == MarkupAll([]);
    } else {
      MarkupAllSingle(Text(Some(text)));
      assert Concat([CharData(text)]) == CharData(text);
    }
    ElementTokensMarkup(name, [CharData(text)], TextElementTree(name, text).children);
  }

  /**
   * quick-xml's `Writer` as a sink of tokens. Every write appends; nothing is
   * ever taken back.
   */
  class Writer {
    var tokens: seq<string>

    constructor ()
      ensures tokens == []
    {
      tokens := [];
    }

    method WriteDeclaration()
      modifies this
      ensures tokens == old(tokens) + [Declaration]
    {
      tokens := tokens + [Declaration];
    }

    method WriteStart(name: string)
      modifies this
      ensures tokens == old(tokens) + [StartTag(name)]
    {
      tokens := tokens + [StartTag(name)];
    }

    method WriteEnd(name: string)
      modifies this
      ensures tokens == old(tokens) + [EndTag(name)]
    {
      tokens := tokens + [EndTag(name)];
    }

    /** `create_element(name).write_text_content(BytesText::new(text))`. */
    method WriteTextElement(name: string, text: string)
      modifies this
      ensures tokens == old(tokens) + TextElementTokens(name, text)
    {
      tokens := tokens + [StartTag(name)] + [CharData(text)] + [EndTag(name)];
    }
  }
}
