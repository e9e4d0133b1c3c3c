/** `literal_text_in_node`: the text a leaf element such as `<i4>` or `<name>` holds. */
module Util {
  import opened Wrappers
  import opened XmlTree

  /**
   * The text of the first text child of `node`, or "" when it has none or
   * the parser gave that child no text. Only direct children are scanned.
   */
  function LiteralTextInNode(node: Node): string {
    FirstText(ChildrenOf(node))
  }

  function FirstText(ns: seq<Node>): (t: string)
    ensures (forall i :: 0 <= i < |ns| ==> !ns[i].Text?) ==> t == ""
  {
    if ns == [] then ""
    else if ns[0].Text? then ns[0].text.GetOr("")
    else FirstText(ns[1..])
  }

  /** Position `i` holds the first text child of `ns`. */
  predicate IsFirstText(ns: seq<Node>, i: int) {
    0 <= i < |ns| && ns[i].Text? && forall j :: 0 <= j < i ==> !ns[j].Text?
  }

  /** The literal text is the text of the first text child, wherever that child stands. */
  lemma {:induction false} FirstTextFound(ns: seq<Node>, i: int)
    requires IsFirstText(ns, i)
    ensures FirstText(ns) == ns[i].text.GetOr("")
  {
    if i > 0 {
      assert !ns[0].Text?;
      assert IsFirstText(ns[1..], i - 1) by {
        forall j | 0 <= j < i - 1 ensures !ns[1..][j].Text? {
          assert ns[1..][j] == ns[j + 1];
        }
      }
      FirstTextFound(ns[1..], i - 1);
    }
  }

  /**
   * Element and comment children are skipped, never looked into: two child
   * lists that agree on which positions hold text, and on those text nodes,
   * give the same literal text, whatever the other children contain.
   */
  lemma {:induction false} FirstTextIgnoresOtherChildren(ns: seq<Node>, ms: seq<Node>)
    requires |ns| == |ms|
    requires forall i :: 0 <= i < |ns| ==> (ns[i].Text? <==> ms[i].Text?)
    requires forall i :: 0 <= i < |ns| && ns[i].Text? ==> ns[i] == ms[i]
    ensures FirstText(ns) == FirstText(ms)
  {
    if ns != [] && !ns[0].Text? {
      FirstTextIgnoresOtherChildren(ns[1..], ms[1..]);
    }
  }

  /** Text inside a child element is not found: `<name><b>x</b></name>` has literal text "". */
  lemma NestedTextNotFound(tag: string, inner: string, x: string)
    ensures LiteralTextInNode(Element(tag, [Element(inner, [Text(Some(x))])])) == ""
  {
  }
}
