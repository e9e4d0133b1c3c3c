/**
 * The current codec's `Value` (src/value.rs): the reader that walks a parsed
 * `<value>` element, the writer that emits one, and the conversions that
 * build a `Value` from Rust collections.
 */
module RpcValue {
  import opened Wrappers
  import opened TextSyntax
  import opened XmlTree
  import opened Util
  import opened HashMaps

  /** An XML-RPC value. A struct is a list of members: order and duplicate names are kept. */
  datatype Value =
    | Int(i: i32)
    | Bool(b: bool)
    | String(s: string)
    | Double(d: Float64)
    | DateTime(t: Timestamp)
    | Base64(bytes: seq<u8>)
    | Array(items: seq<Value>)
    | Struct(members: seq<(string, Value)>)

  /** Why `Value::read_xml` bails. */
  datatype ReadError =
    | UnexpectedTag(found: string)
    | InvalidInt(intText: string)
    | InvalidBool(boolText: string)
    | InvalidDouble(doubleText: string)
    | InvalidDateTime(dateText: string)
    | InvalidBase64(base64Text: string)
    | InvalidChildTag(childTag: string)
    | NoValidChild

  /**
   * Which node the reader reads a payload from, at the two places where the
   * code reads the wrong one. With `membersFromValue`, a struct member's value
   * is read from the member's first `value` child; without it, from the
   * `member` node itself, as `parse_member_value` does. With `faultFromValue`,
   * a fault's payload is read from the first `value` child of `fault`;
   * without it, from `fault` itself, as `Response::read_xml` does. See the
   * findings in the README.
   */
  datatype Reading = Reading(membersFromValue: bool, faultFromValue: bool)

  /** The code as written: both reads start at the enclosing node. */
  const AsWritten := Reading(false, false)

  /** Both reads start at the `value` child. */
  const Corrected := Reading(true, true)

  /** The type tag the writer uses for each variant, and the only one the reader maps to it. */
  function TagOf(v: Value): string {
    match v
    case Int(_) => "i4"
    case Bool(_) => "boolean"
    case String(_) => "string"
    case Double(_) => "double"
    case DateTime(_) => "dateTime.iso8601"
    case Base64(_) => "base64"
    case Array(_) => "array"
    case Struct(_) => "struct"
  }

  const KnownTags: set<string> :=
    {"i4", "boolean", "string", "double", "dateTime.iso8601", "base64", "array", "struct"}

  // ---------------------------------------------------------------------------
  // Reading: the specification

  /** The child of a `<value>` that decides its content: the first text or element child. */
  function FirstContent(ns: seq<Node>): (r: Option<Node>)
    ensures r.Some? ==> r.value in ns && !r.value.Comment?
    ensures r.None? <==> forall i :: 0 <= i < |ns| ==> ns[i].Comment?
  {
    if ns == [] then None
    else if !ns[0].Comment? then Some(ns[0])
    else FirstContent(ns[1..])
  }

  /**
   * `Value::read_xml`. The node must be a `value` element; its first text
   * child makes a `String`, its first element child is dispatched on its tag,
   * and a `value` with neither is an error.
   */
  function ReadValue(ls: LeafSyntax, rd: Reading, node: Node): (r: Result<Value, ReadError>)
    ensures r.Ok? ==> HasTagName(node, "value") && FirstContent(ChildrenOf(node)).Some?
    decreases node, 2
  {
    if !HasTagName(node, "value") then Err(UnexpectedTag(TagName(node)))
    else
      match FirstContent(node.children)
      case None => Err(NoValidChild)
      case Some(c) => if c.Text? then Ok(String(c.text.GetOr(""))) else ReadTyped(ls, rd, c)
  }

  /**
   * The tag dispatch of `read_xml` for an element child `e`. Only the eight
   * tags the writer uses are accepted, each for its own variant.
   */
  function ReadTyped(ls: LeafSyntax, rd: Reading, e: Node): (r: Result<Value, ReadError>)
    ensures r.Ok? ==> TagOf(r.value) == TagName(e)
    ensures r.Err? ==> !r.error.UnexpectedTag? && !r.error.NoValidChild?
    decreases e, 1
  {
    var tag := TagName(e);
    var text := LiteralTextInNode(e);
    if tag == "i4" then
      match ParseI32(text)
      case Some(n) => Ok(Int(n))
      case None => Err(InvalidInt(text))
    else if tag == "boolean" then
      match ParseU8(text)
      case Some(n) => Ok(Bool(n != 0))
      case None => Err(InvalidBool(text))
    else if tag == "string" then
      Ok(String(text))
    else if tag == "double" then
      match ls.parseDouble(text)
      case Some(d) => Ok(Double(d))
      case None => Err(InvalidDouble(text))
    else if tag == "dateTime.iso8601" then
      match ls.parseDateTime(text)
      case Some(t) => Ok(DateTime(t))
      case None => Err(InvalidDateTime(text))
    else if tag == "base64" then
      match ls.decodeBase64(text)
      case Some(b) => Ok(Base64(b))
      case None => Err(InvalidBase64(text))
    else if tag == "array" then
      Ok(Array(ArrayItems(ls, rd, e)))
    else if tag == "struct" then
      Ok(Struct(Members(ls, rd, ChildrenOf(e))))
    else
      Err(InvalidChildTag(tag))
  }

  /** The items of an `<array>`: the decodable children of its first `data` child, or none. */
  function ArrayItems(ls: LeafSyntax, rd: Reading, e: Node): (vs: seq<Value>)
    ensures FirstChildNamed(ChildrenOf(e), "data").None? ==> vs == []
    ensures FirstChildNamed(ChildrenOf(e), "data").Some? ==>
              |vs| <= |ChildrenOf(FirstChildNamed(ChildrenOf(e), "data").value)|
    decreases e, 0
  {
    match FirstChildNamed(ChildrenOf(e), "data")
    case None => []
    case Some(d) => Decoded(ls, rd, d.children)
  }

  /** The values of the nodes `ns` that read successfully, in document order; the others are skipped. */
  function Decoded(ls: LeafSyntax, rd: Reading, ns: seq<Node>): (vs: seq<Value>)
    ensures |vs| <= |ns|
    decreases ns, 0
  {
    if ns == [] then []
    else
      var last := ReadValue(ls, rd, ns[|ns| - 1]);
      Decoded(ls, rd, ns[..|ns| - 1]) + (if last.Ok? then [last.value] else [])
  }

  /**
   * The literal text of the first child tagged `tag`: `parse_member_name`
   * looks up `name` this way, and a request's method name is `methodName`.
   */
  function ChildText(n: Node, tag: string): (r: Option<string>)
    ensures r.Some? <==> exists i :: 0 <= i < |ChildrenOf(n)| && HasTagName(ChildrenOf(n)[i], tag)
    ensures r.Some? ==> exists k :: 0 <= k < |ChildrenOf(n)| && HasTagName(ChildrenOf(n)[k], tag) &&
                                    r.value == LiteralTextInNode(ChildrenOf(n)[k]) &&
                                    forall j :: 0 <= j < k ==> !HasTagName(ChildrenOf(n)[j], tag)
  {
    match FirstChildNamed(ChildrenOf(n), tag)
    case None => None
    case Some(c) =>
      FirstChildNamedIsFirst(ChildrenOf(n), tag);
      Some(LiteralTextInNode(c))
  }

  /**
   * `parse_member_value`: `None` without a `value` child; otherwise the value
   * read from that child (`membersFromValue`) or from the member node itself
   * (as written), `None` when reading fails.
   */
  function ParseMemberValue(ls: LeafSyntax, rd: Reading, m: Node): (r: Option<Value>)
    ensures r.Some? ==> exists i :: 0 <= i < |ChildrenOf(m)| && HasTagName(ChildrenOf(m)[i], "value")
    decreases m, 3
  {
    match FirstChildNamed(ChildrenOf(m), "value")
    case None => None
    case Some(v) => ReadValue(ls, rd, if rd.membersFromValue then v else m).ToOption()
  }

  /** The members of a `<struct>`: each `member` child whose name and value both parse, in order. */
  function Members(ls: LeafSyntax, rd: Reading, ns: seq<Node>): (ms: seq<(string, Value)>)
    ensures |ms| <= |ns|
    decreases ns, 0
  {
    if ns == [] then [] else Members(ls, rd, ns[..|ns| - 1]) + MemberEntry(ls, rd, ns[|ns| - 1])
  }

  /** The member a child of a `<struct>` contributes: one if it is a `member` whose name and value parse. */
  function MemberEntry(ls: LeafSyntax, rd: Reading, m: Node): (r: seq<(string, Value)>)
    ensures |r| <= 1
    decreases m, 4
  {
    if HasTagName(m, "member") then
      match (ChildText(m, "name"), ParseMemberValue(ls, rd, m))
      case (Some(k), Some(v)) => [(k, v)]
      case _ => []
    else []
  }

  /**
   * The tag table: a value read from an element has the variant the writer
   * tags that way, and every tag outside the eight is rejected by name
   * (`int` among them). No other error of the dispatch is a tag or emptiness error.
   */
  lemma ReadTypedTags(ls: LeafSyntax, rd: Reading, e: Node)
    ensures ReadTyped(ls, rd, e).Ok? ==> TagName(e) == TagOf(ReadTyped(ls, rd, e).value)
    ensures TagName(e) !in KnownTags <==> ReadTyped(ls, rd, e) == Err(InvalidChildTag(TagName(e)))
    ensures ReadTyped(ls, rd, e).Err? ==>
              !ReadTyped(ls, rd, e).error.UnexpectedTag? && ReadTyped(ls, rd, e).error != NoValidChild
  {
  }

  /**
   * `read_xml` fails with the tag error exactly when the node is not a
   * `value` element, and with "no valid child" exactly when a `value`
   * element has no text or element child (an empty `<value/>` among them).
   */
  lemma ReadValueErrors(ls: LeafSyntax, rd: Reading, node: Node)
    ensures (ReadValue(ls, rd, node).Err? && ReadValue(ls, rd, node).error.UnexpectedTag?) <==>
              !HasTagName(node, "value")
    ensures ReadValue(ls, rd, node) == Err(NoValidChild) <==>
              HasTagName(node, "value") && forall i :: 0 <= i < |node.children| ==> node.children[i].Comment?
  {
    if HasTagName(node, "value") {
      var c := FirstContent(node.children);
      if c.Some? && c.value.Element? {
        ReadTypedTags(ls, rd, c.value);
      }
    }
  }

  // ---------------------------------------------------------------------------
  // Reading: the methods

  /** `Value::read_xml`: a scan of the children that stops at the first text or element child. */
  method ReadXml(ls: LeafSyntax, rd: Reading, node: Node) returns (r: Result<Value, ReadError>)
    ensures r == ReadValue(ls, rd, node)
    decreases node, 2
  {
    if !HasTagName(node, "value") {
      return Err(UnexpectedTag(TagName(node)));
    }
    var children := node.children;
    var i := 0;
    while i < |children|
      invariant 0 <= i <= |children|
      invariant FirstContent(children[i..]) == FirstContent(children)
    {
      var child := children[i];
      assert children[i..][0] == child && children[i..][1..] == children[i + 1..];
      if child.Text? {
        return Ok(String(child.text.GetOr("")));
      }
      if child.Element? {
        r := ReadChild(ls, rd, child);
        return;
      }
      i := i + 1;
    }
    assert children[i..] == [];
    return Err(NoValidChild);
  }

  /** The `match child.tag_name().name()` of `read_xml`. */
  method ReadChild(ls: LeafSyntax, rd: Reading, e: Node) returns (r: Result<Value, ReadError>)
    ensures r == ReadTyped(ls, rd, e)
    decreases e, 1
  {
    var tag := TagName(e);
    var text := LiteralTextInNode(e);
    if tag == "i4" {
      var n := ParseI32(text);
      r := if n.Some? then Ok(Int(n.value)) else Err(InvalidInt(text));
    } else if tag == "boolean" {
      var n := ParseU8(text);
      r := if n.Some? then Ok(Bool(n.value != 0)) else Err(InvalidBool(text));
    } else if tag == "string" {
      r := Ok(String(text));
    } else if tag == "double" {
      var d := ls.parseDouble(text);
      r := if d.Some? then Ok(Double(d.value)) else Err(InvalidDouble(text));
    } else if tag == "dateTime.iso8601" {
      var t := ls.parseDateTime(text);
      r := if t.Some? then Ok(DateTime(t.value)) else Err(InvalidDateTime(text));
    } else if tag == "base64" {
      var b := ls.decodeBase64(text);
      r := if b.Some? then Ok(Base64(b.value)) else Err(InvalidBase64(text));
    } else if tag == "array" {
      var items := ReadArray(ls, rd, e);
      r := Ok(Array(items));
    } else if tag == "struct" {
      var members := ReadStruct(ls, rd, e);
      r := Ok(Struct(members));
    } else {
      r := Err(InvalidChildTag(tag));
    }
  }

  /** The `"array"` arm: find the first `data` child, read it, then stop. */
  method ReadArray(ls: LeafSyntax, rd: Reading, e: Node) returns (data: seq<Value>)
    ensures data == ArrayItems(ls, rd, e)
    decreases e, 0
  {
    data := [];
    var cs := ChildrenOf(e);
    var j := 0;
    while j < |cs|
      invariant 0 <= j <= |cs|
      invariant FirstChildNamed(cs[j..], "data") == FirstChildNamed(cs, "data")
    {
      assert cs[j..][0] == cs[j] && cs[j..][1..] == cs[j + 1..];
      if HasTagName(cs[j], "data") {
        data := ReadData(ls, rd, cs[j]);
        return;
      }
      j := j + 1;
    }
    assert cs[j..] == [];
  }

  /** The inner loop of the `"array"` arm: push the value of every child of `data` that reads. */
  method ReadData(ls: LeafSyntax, rd: Reading, d: Node) returns (data: seq<Value>)
    requires d.Element?
    ensures data == Decoded(ls, rd, d.children)
    decreases d, 0
  {
    data := [];
    var valueNodes := d.children;
    var k := 0;
    while k < |valueNodes|
      invariant 0 <= k <= |valueNodes|
      invariant data == Decoded(ls, rd, valueNodes[..k])
    {
      var value := ReadXml(ls, rd, valueNodes[k]);
      DecodedStep(ls, rd, valueNodes, k);
      if value.Ok? {
        data := data + [value.value];
      }
      k := k + 1;
    }
    assert valueNodes[..k] == valueNodes;
  }

  /** The `"struct"` arm: push each `member` child whose name and value both parse. */
  method ReadStruct(ls: LeafSyntax, rd: Reading, e: Node) returns (members: seq<(string, Value)>)
    ensures members == Members(ls, rd, ChildrenOf(e))
    decreases e, 0
  {
    members := [];
    var cs := ChildrenOf(e);
    var k := 0;
    while k < |cs|
      invariant 0 <= k <= |cs|
      invariant members == Members(ls, rd, cs[..k])
    {
      var memberNode := cs[k];
      MembersStep(ls, rd, cs, k);
      var entry := ReadMember(ls, rd, memberNode);
      members := members + entry;
      k := k + 1;
    }
    assert cs[..k] == cs;
  }

  /** One iteration of the `"struct"` arm: the member `m` contributes, if it is one and both its parts parse. */
  method ReadMember(ls: LeafSyntax, rd: Reading, m: Node) returns (entry: seq<(string, Value)>)
    ensures entry == MemberEntry(ls, rd, m)
    decreases m, 4
  {
    entry := [];
    if HasTagName(m, "member") {
      var key := ChildText(m, "name");
      var value := ParseMemberValueXml(ls, rd, m);
      if key.Some? && value.Some? {
        entry := [(key.value, value.value)];
      }
    }
  }

  /** `parse_member_value`: the scan for a `value` child, then a read of the node `rd` designates. */
  method ParseMemberValueXml(ls: LeafSyntax, rd: Reading, m: Node) returns (r: Option<Value>)
    ensures r == ParseMemberValue(ls, rd, m)
    decreases m, 3
  {
    var cs := ChildrenOf(m);
    var i := 0;
    while i < |cs|
      invariant 0 <= i <= |cs|
      invariant FirstChildNamed(cs[i..], "value") == FirstChildNamed(cs, "value")
    {
      assert cs[i..][0] == cs[i] && cs[i..][1..] == cs[i + 1..];
      if HasTagName(cs[i], "value") {
        var res := ReadXml(ls, rd, if rd.membersFromValue then cs[i] else m);
        return res.ToOption();
      }
      i := i + 1;
    }
    assert cs[i..] == [];
    return None;
  }

  // ---------------------------------------------------------------------------
  // Reading: properties

  /** A leading text child makes a `String` of its text, whatever follows it (even an element). */
  lemma LeadingTextIsString(ls: LeafSyntax, rd: Reading, t: Option<string>, rest: seq<Node>)
    ensures ReadValue(ls, rd, Element("value", [Text(t)] + rest)) == Ok(String(t.GetOr("")))
  {
    assert ([Text(t)] + rest)[0] == Text(t);
  }

  /** Whitespace before the typed element wins: `<value> <i4>5</i4></value>` reads as the string " ". */
  lemma WhitespaceBeforeElement(ls: LeafSyntax, rd: Reading)
    ensures ReadValue(ls, rd, Element("value", [Text(Some(" ")), TextElementTree("i4", "5")])) == Ok(String(" "))
  {
    LeadingTextIsString(ls, rd, Some(" "), [TextElementTree("i4", "5")]);
  }

  /** A boolean is read as a `u8`: any value in 0..255 is accepted, and only 0 is false. */
  lemma BooleanReading(ls: LeafSyntax, rd: Reading)
    ensures ReadTyped(ls, rd, TextElementTree("boolean", "1")) == Ok(Bool(true))
    ensures ReadTyped(ls, rd, TextElementTree("boolean", "0")) == Ok(Bool(false))
    ensures ReadTyped(ls, rd, TextElementTree("boolean", "256")) == Err(InvalidBool("256"))
    ensures ReadTyped(ls, rd, TextElementTree("boolean", "true")) == Err(InvalidBool("true"))
  {
    ParseU8Examples();
  }

  /** An `<array>` without a `data` child is the empty array. */
  lemma ArrayWithoutData(ls: LeafSyntax, rd: Reading, cs: seq<Node>)
    requires forall i :: 0 <= i < |cs| ==> !HasTagName(cs[i], "data")
    ensures ReadTyped(ls, rd, Element("array", cs)) == Ok(Array([]))
  {
  }

  /** Only the first `data` child of an `<array>` is read; any later one is ignored. */
  lemma ArrayReadsFirstData(ls: LeafSyntax, rd: Reading, before: seq<Node>, ds: seq<Node>, after: seq<Node>)
    requires forall i :: 0 <= i < |before| ==> !HasTagName(before[i], "data")
    ensures ReadTyped(ls, rd, Element("array", before + [Element("data", ds)] + after)) ==
            Ok(Array(Decoded(ls, rd, ds)))
  {
    var cs := before + [Element("data", ds)] + after;
    FirstChildNamedAfter(before, Element("data", ds), after, "data");
  }

  lemma {:induction false} FirstChildNamedAfter(before: seq<Node>, n: Node, after: seq<Node>, name: string)
    requires forall i :: 0 <= i < |before| ==> !HasTagName(before[i], name)
    requires HasTagName(n, name)
    ensures FirstChildNamed(before + [n] + after, name) == Some(n)
  {
    if before != [] {
      assert (before + [n] + after)[1..] == before[1..] + [n] + after;
      FirstChildNamedAfter(before[1..], n, after, name);
    } else {
      assert (before + [n] + after)[0] == n;
    }
  }

  /** Decoding distributes over concatenation: document order is kept. */
  lemma {:induction false} DecodedAppend(ls: LeafSyntax, rd: Reading, a: seq<Node>, b: seq<Node>)
    ensures Decoded(ls, rd, a + b) == Decoded(ls, rd, a) + Decoded(ls, rd, b)
    decreases |b|
  {
    if b == [] {
      assert a + b == a;
    } else {
      assert (a + b)[..|a + b| - 1] == a + b[..|b| - 1];
      DecodedAppend(ls, rd, a, b[..|b| - 1]);
    }
  }

  lemma DecodedSnoc(ls: LeafSyntax, rd: Reading, ns: seq<Node>)
    requires ns != []
    ensures Decoded(ls, rd, ns) == Decoded(ls, rd, ns[..|ns| - 1]) +
              (if ReadValue(ls, rd, ns[|ns| - 1]).Ok? then [ReadValue(ls, rd, ns[|ns| - 1]).value] else [])
  {
  }

  lemma DecodedStep(ls: LeafSyntax, rd: Reading, ns: seq<Node>, k: int)
    requires 0 <= k < |ns|
    ensures Decoded(ls, rd, ns[..k + 1]) == Decoded(ls, rd, ns[..k]) +
              (if ReadValue(ls, rd, ns[k]).Ok? then [ReadValue(ls, rd, ns[k]).value] else [])
  {
    DecodedSnoc(ls, rd, ns[..k + 1]);
    assert ns[..k + 1][..k] == ns[..k];
  }

  lemma MembersStep(ls: LeafSyntax, rd: Reading, ns: seq<Node>, k: int)
    requires 0 <= k < |ns|
    ensures Members(ls, rd, ns[..k + 1]) == Members(ls, rd, ns[..k]) + MemberEntry(ls, rd, ns[k])
  {
    assert ns[..k + 1][..k] == ns[..k];
  }

  /** A node that does not read (whitespace text, a `<param>`, a bad `<i4>`) is skipped without a trace. */
  lemma DecodedSkipsFailure(ls: LeafSyntax, rd: Reading, a: seq<Node>, n: Node, b: seq<Node>)
    requires ReadValue(ls, rd, n).Err?
    ensures Decoded(ls, rd, a + [n] + b) == Decoded(ls, rd, a) + Decoded(ls, rd, b)
  {
    DecodedAppend(ls, rd, a + [n], b);
    DecodedSnoc(ls, rd, a + [n]);
    assert (a + [n])[..|a + [n]| - 1] == a;
  }

  /** A node that reads contributes exactly its value, at its place. */
  lemma DecodedKeepsValue(ls: LeafSyntax, rd: Reading, a: seq<Node>, n: Node, b: seq<Node>)
    requires ReadValue(ls, rd, n).Ok?
    ensures Decoded(ls, rd, a + [n] + b) == Decoded(ls, rd, a) + [ReadValue(ls, rd, n).value] + Decoded(ls, rd, b)
  {
    DecodedAppend(ls, rd, a + [n], b);
    DecodedSnoc(ls, rd, a + [n]);
    assert (a + [n])[..|a + [n]| - 1] == a;
  }

  /**
   * As written, no member ever parses: its value is read from the `member`
   * node itself, which fails the `value` tag check.
   */
  lemma MemberValueAsWritten(ls: LeafSyntax, rd: Reading, m: Node)
    requires !rd.membersFromValue
    requires HasTagName(m, "member")
    ensures ParseMemberValue(ls, rd, m) == None
  {
    ReadValueErrors(ls, rd, m);
  }

  /** So, as written, every `<struct>` reads as the empty struct. */
  lemma {:induction false} MembersAsWritten(ls: LeafSyntax, rd: Reading, ns: seq<Node>)
    requires !rd.membersFromValue
    ensures Members(ls, rd, ns) == []
  {
    if ns != [] {
      var m := ns[|ns| - 1];
      MembersAsWritten(ls, rd, ns[..|ns| - 1]);
      if HasTagName(m, "member") {
        MemberValueAsWritten(ls, rd, m);
      }
      assert MemberEntry(ls, rd, m) == [];
    }
  }

  /** With the member's `value` child read, members distribute over concatenation: order and duplicates are kept. */
  lemma {:induction false} MembersAppend(ls: LeafSyntax, rd: Reading, a: seq<Node>, b: seq<Node>)
    ensures Members(ls, rd, a + b) == Members(ls, rd, a) + Members(ls, rd, b)
    decreases |b|
  {
    if b == [] {
      assert a + b == a;
    } else {
      assert (a + b)[..|a + b| - 1] == a + b[..|b| - 1];
      assert (a + b)[|a + b| - 1] == b[|b| - 1];
      MembersAppend(ls, rd, a, b[..|b| - 1]);
    }
  }

  // ---------------------------------------------------------------------------
  // Writing

  /** The tokens `write_xml` emits: `<value>`, the typed element, `</value>`. */
  function ValueTokens(ls: LeafSyntax, v: Value): (ts: seq<string>)
    ensures |ts| >= 4 && ts[0] == StartTag("value") && ts[1] == StartTag(TagOf(v)) && ts[|ts| - 1] == EndTag("value")
    decreases v, 1
  {
    ElementTokens("value", InnerTokens(ls, v))
  }

  /** Every variant but `Array` and `Struct` is written as one typed element holding text. */
  predicate IsScalar(v: Value) {
    !v.Array? && !v.Struct?
  }

  /** The text inside a scalar's typed element: `to_string`, `1`/`0`, the string itself, RFC 3339, base64. */
  function LeafText(ls: LeafSyntax, v: Value): string
    requires IsScalar(v)
  {
    match v
    case Int(n) => ShowInt(n)
    case Bool(b) => if b then "1" else "0"
    case String(s) => s
    case Double(d) => ls.showDouble(d)
    case DateTime(t) => ls.showDateTime(t)
    case Base64(b) => ls.encodeBase64(b)
  }

  function InnerTokens(ls: LeafSyntax, v: Value): (ts: seq<string>)
    ensures |ts| >= 2 && ts[0] == StartTag(TagOf(v)) && ts[|ts| - 1] == EndTag(TagOf(v))
    decreases v, 0
  {
    if IsScalar(v) then TextElementTokens(TagOf(v), LeafText(ls, v))
    else if v.Array? then ElementTokens("array", ElementTokens("data", ItemsTokens(ls, v.items)))
    else ElementTokens("struct", MembersTokens(ls, v.members))
  }

  function ItemsTokens(ls: LeafSyntax, items: seq<Value>): seq<string>
    decreases items, 2
  {
    if items == [] then []
    else ItemsTokens(ls, items[..|items| - 1]) + ValueTokens(ls, items[|items| - 1])
  }

  function MemberTokens(ls: LeafSyntax, member: (string, Value)): seq<string>
    decreases member, 2
  {
    ElementTokens("member", TextElementTokens("name", member.0) + ValueTokens(ls, member.1))
  }

  function MembersTokens(ls: LeafSyntax, ms: seq<(string, Value)>): seq<string>
    decreases ms, 2
  {
    if ms == [] then []
    else MembersTokens(ls, ms[..|ms| - 1]) + MemberTokens(ls, ms[|ms| - 1])
  }

  /** `Value::write_xml`: every element is opened, filled and closed on the sink, in order. */
  method WriteXml(ls: LeafSyntax, v: Value, w: Writer)
    modifies w
    ensures w.tokens == old(w.tokens) + ValueTokens(ls, v)
    decreases v, 1
  {
    w.WriteStart("value");
    WriteInner(ls, v, w);
    w.WriteEnd("value");
    Wrapped(old(w.tokens), "value", InnerTokens(ls, v));
  }

  /** The closure passed to `write_inner_content` of the `value` element. */
  method WriteInner(ls: LeafSyntax, v: Value, w: Writer)
    modifies w
    ensures w.tokens == old(w.tokens) + InnerTokens(ls, v)
    decreases v, 0
  {
    if IsScalar(v) {
      w.WriteTextElement(TagOf(v), LeafText(ls, v));
    } else if v.Array? {
      w.WriteStart("array");
      ghost var mid := w.tokens;
      w.WriteStart("data");
      WriteItems(ls, v.items, w);
      w.WriteEnd("data");
      Wrapped(mid, "data", ItemsTokens(ls, v.items));
      w.WriteEnd("array");
      Wrapped(old(w.tokens), "array", ElementTokens("data", ItemsTokens(ls, v.items)));
    } else {
      w.WriteStart("struct");
      WriteMembers(ls, v.members, w);
      w.WriteEnd("struct");
      Wrapped(old(w.tokens), "struct", MembersTokens(ls, v.members));
    }
  }

  /** `for item in value { item.write_xml(writer)?; }` */
  method WriteItems(ls: LeafSyntax, items: seq<Value>, w: Writer)
    modifies w
    ensures w.tokens == old(w.tokens) + ItemsTokens(ls, items)
    decreases items, 0
  {
    ghost var start := w.tokens;
    var i := 0;
    while i < |items|
      invariant 0 <= i <= |items|
      invariant w.tokens == start + ItemsTokens(ls, items[..i])
    {
      WriteXml(ls, items[i], w);
      ItemsTokensStep(ls, items, i);
      Appended(start, ItemsTokens(ls, items[..i]), ValueTokens(ls, items[i]));
      i := i + 1;
    }
    assert items[..i] == items;
  }

  /** `for (key, value) in value { ... }`: one `member` element per member, name first. */
  method WriteMembers(ls: LeafSyntax, ms: seq<(string, Value)>, w: Writer)
    modifies w
    ensures w.tokens == old(w.tokens) + MembersTokens(ls, ms)
    decreases ms, 0
  {
    ghost var start := w.tokens;
    var i := 0;
    while i < |ms|
      invariant 0 <= i <= |ms|
      invariant w.tokens == start + MembersTokens(ls, ms[..i])
    {
      WriteMember(ls, ms[i], w);
      MembersTokensStep(ls, ms, i);
      Appended(start, MembersTokens(ls, ms[..i]), MemberTokens(ls, ms[i]));
      i := i + 1;
    }
    assert ms[..i] == ms;
  }

  lemma ItemsTokensStep(ls: LeafSyntax, items: seq<Value>, i: int)
    requires 0 <= i < |items|
    ensures ItemsTokens(ls, items[..i + 1]) == ItemsTokens(ls, items[..i]) + ValueTokens(ls, items[i])
  {
    assert items[..i + 1][..i] == items[..i];
  }

  lemma MembersTokensStep(ls: LeafSyntax, ms: seq<(string, Value)>, i: int)
    requires 0 <= i < |ms|
    ensures MembersTokens(ls, ms[..i + 1]) == MembersTokens(ls, ms[..i]) + MemberTokens(ls, ms[i])
  {
    assert ms[..i + 1][..i] == ms[..i];
  }

  method WriteMember(ls: LeafSyntax, member: (string, Value), w: Writer)
    modifies w
    ensures w.tokens == old(w.tokens) + MemberTokens(ls, member)
    decreases member, 2
  {
    ghost var before := w.tokens;
    w.WriteStart("member");
    ghost var open := w.tokens;
    w.WriteTextElement("name", member.0);
    WriteXml(ls, member.1, w);
    Appended(open, TextElementTokens("name", member.0), ValueTokens(ls, member.1));
    w.WriteEnd("member");
    Wrapped(before, "member", TextElementTokens("name", member.0) + ValueTokens(ls, member.1));
  }

  /**
   * The tree whose markup the writer emits (text unescaped, empty text absent);
   * a parser is assumed to build it from the written text.
   */
  function ValueTree(ls: LeafSyntax, v: Value): Node
    decreases v, 1
  {
    Element("value", [InnerTree(ls, v)])
  }

  function InnerTree(ls: LeafSyntax, v: Value): Node
    decreases v, 0
  {
    if IsScalar(v) then TextElementTree(TagOf(v), LeafText(ls, v))
    else if v.Array? then Element("array", [Element("data", ItemsTrees(ls, v.items))])
    else Element("struct", MembersTrees(ls, v.members))
  }

  function ItemsTrees(ls: LeafSyntax, items: seq<Value>): (ns: seq<Node>)
    ensures |ns| == |items|
    decreases items, 2
  {
    if items == [] then []
    else ItemsTrees(ls, items[..|items| - 1]) + [ValueTree(ls, items[|items| - 1])]
  }

  function MemberTree(ls: LeafSyntax, member: (string, Value)): Node
    decreases member, 2
  {
    Element("member", [TextElementTree("name", member.0), ValueTree(ls, member.1)])
  }

  function MembersTrees(ls: LeafSyntax, ms: seq<(string, Value)>): (ns: seq<Node>)
    ensures |ns| == |ms|
    decreases ms, 2
  {
    if ms == [] then []
    else MembersTrees(ls, ms[..|ms| - 1]) + [MemberTree(ls, ms[|ms| - 1])]
  }

  /** The written text is the markup of `ValueTree`: the writer never self-closes and escapes all text. */
  lemma {:induction false} ValueTokensMarkup(ls: LeafSyntax, v: Value)
    ensures Concat(ValueTokens(ls, v)) == Markup(ValueTree(ls, v))
    decreases v, 1
  {
    InnerTokensMarkup(ls, v);
    MarkupAllSingle(InnerTree(ls, v));
    ElementTokensMarkup("value", InnerTokens(ls, v), [InnerTree(ls, v)]);
  }

  lemma {:induction false} InnerTokensMarkup(ls: LeafSyntax, v: Value)
    ensures Concat(InnerTokens(ls, v)) == Markup(InnerTree(ls, v))
    decreases v, 0
  {
    if IsScalar(v) {
      TextElementMarkup(TagOf(v), LeafText(ls, v));
    } else if v.Array? {
      var items := v.items;
      ItemsTokensMarkup(ls, items);
      var data := Element("data", ItemsTrees(ls, items));
      ElementTokensMarkup("data", ItemsTokens(ls, items), ItemsTrees(ls, items));
      MarkupAllSingle(data);
      ElementTokensMarkup("array", ElementTokens("data", ItemsTokens(ls, items)), [data]);
    } else {
      MembersTokensMarkup(ls, v.members);
      ElementTokensMarkup("struct", MembersTokens(ls, v.members), MembersTrees(ls, v.members));
    }
  }

  lemma {:induction false} ItemsTokensMarkup(ls: LeafSyntax, items: seq<Value>)
    ensures Concat(ItemsTokens(ls, items)) == MarkupAll(ItemsTrees(ls, items))
    decreases items, 2
  {
    if items != [] {
      var init := items[..|items| - 1];
      var last := items[|items| - 1];
      ItemsTokensMarkup(ls, init);
      ValueTokensMarkup(ls, last);
      ConcatAppend(ItemsTokens(ls, init), ValueTokens(ls, last));
      var ns := ItemsTrees(ls, items);
      assert ns[..|ns| - 1] == ItemsTrees(ls, init);
    }
  }

  lemma {:induction false} MembersTokensMarkup(ls: LeafSyntax, ms: seq<(string, Value)>)
    ensures Concat(MembersTokens(ls, ms)) == MarkupAll(MembersTrees(ls, ms))
    decreases ms, 2
  {
    if ms != [] {
      var init := ms[..|ms| - 1];
      var member := ms[|ms| - 1];
      MembersTokensMarkup(ls, init);
      MemberTokensMarkup(ls, member);
      ConcatAppend(MembersTokens(ls, init), MemberTokens(ls, member));
      var ns := MembersTrees(ls, ms);
      assert ns[..|ns| - 1] == MembersTrees(ls, init);
    }
  }

  lemma {:induction false} MemberTokensMarkup(ls: LeafSyntax, member: (string, Value))
    ensures Concat(MemberTokens(ls, member)) == Markup(MemberTree(ls, member))
    decreases member, 2
  {
    var (key, v) := member;
    var name := TextElementTree("name", key);
    TextElementMarkup("name", key);
    ValueTokensMarkup(ls, v);
    ConcatAppend(TextElementTokens("name", key), ValueTokens(ls, v));
    MarkupAllAppend([name], [ValueTree(ls, v)]);
    MarkupAllSingle(name);
    MarkupAllSingle(ValueTree(ls, v));
    assert [name] + [ValueTree(ls, v)] == [name, ValueTree(ls, v)];
    ElementTokensMarkup("member", TextElementTokens("name", key) + ValueTokens(ls, v), [name, ValueTree(ls, v)]);
  }

  /**
   * A scalar is written as its typed element inside `<value>`, with start and
   * end tags (never self-closing, even for empty text) and escaped text.
   */
  lemma WrittenScalar(ls: LeafSyntax, v: Value)
    requires IsScalar(v)
    ensures Concat(ValueTokens(ls, v)) ==
              StartTag("value") + StartTag(TagOf(v)) + CharData(LeafText(ls, v)) + EndTag(TagOf(v)) + EndTag("value")
  {
    ConcatTextElement(TagOf(v), LeafText(ls, v));
    ConcatElementTokens("value", TextElementTokens(TagOf(v), LeafText(ls, v)));
  }

  /** The empty array keeps its `data` element: `<value><array><data></data></array></value>`. */
  lemma WrittenEmptyArray(ls: LeafSyntax)
    ensures Concat(ValueTokens(ls, Array([]))) ==
              StartTag("value") + StartTag("array") + StartTag("data") + EndTag("data") + EndTag("array") + EndTag("value")
  {
    assert ItemsTokens(ls, []) == [];
    ConcatElementTokens("data", []);
    ConcatElementTokens("array", ElementTokens("data", []));
    ConcatElementTokens("value", ElementTokens("array", ElementTokens("data", [])));
  }

  /** The text of the writer's integer example: `-33` for `Int(-33)`. */
  lemma WrittenIntText(ls: LeafSyntax)
    ensures LeafText(ls, Int(-33)) == "-33"
  {
    assert Digits(33) == Digits(3) + [DigitChar(3)];
  }

  /** The text of the writer's escaping example: `abcd&lt;3` for the string `abcd<3`. */
  lemma WrittenEscapedText()
    ensures CharData("abcd<3") == "abcd&lt;3"
  {
    assert Escape("<3", MarkupAndQuotes) == "&lt;3";
    assert Escape("abcd<3", MarkupAndQuotes) == "abcd" + Escape("<3", MarkupAndQuotes);
  }

  // ---------------------------------------------------------------------------
  // Reading what was written

  /** What the reader gives back for a written value: everything, except that as written every struct comes back empty. */
  function Erased(rd: Reading, v: Value): (r: Value)
    ensures TagOf(r) == TagOf(v)
    decreases v, 1
  {
    match v
    case Array(items) => Array(ErasedItems(rd, items))
    case Struct(ms) => if rd.membersFromValue then v else Struct([])
    case _ => v
  }

  function ErasedItems(rd: Reading, items: seq<Value>): (r: seq<Value>)
    ensures |r| == |items|
    decreases items, 0
  {
    if items == [] then [] else ErasedItems(rd, items[..|items| - 1]) + [Erased(rd, items[|items| - 1])]
  }

  /** Nothing is lost when members are read from their `value` child. */
  lemma {:induction false} ErasedCorrected(rd: Reading, v: Value)
    requires rd.membersFromValue
    ensures Erased(rd, v) == v
    decreases v, 1
  {
    if v.Array? {
      ErasedItemsCorrected(rd, v.items);
    }
  }

  lemma {:induction false} ErasedItemsCorrected(rd: Reading, items: seq<Value>)
    requires rd.membersFromValue
    ensures ErasedItems(rd, items) == items
    decreases items, 0
  {
    if items != [] {
      ErasedItemsCorrected(rd, items[..|items| - 1]);
      ErasedCorrected(rd, items[|items| - 1]);
    }
  }

  lemma TextElementLiteral(name: string, text: string)
    ensures LiteralTextInNode(TextElementTree(name, text)) == text
  {
  }

  /** Every double, date-time and base64 leaf of `v` reads back from its own text. */
  predicate LeavesRoundTrip(ls: LeafSyntax, v: Value) {
    match v
    case Double(d) => DoubleRoundTrips(ls, d)
    case DateTime(t) => DateTimeRoundTrips(ls, t)
    case Base64(bytes) => Base64RoundTrips(ls, bytes)
    case Array(items) => forall i :: 0 <= i < |items| ==> LeavesRoundTrip(ls, items[i])
    case Struct(ms) => forall i :: 0 <= i < |ms| ==> LeavesRoundTrip(ls, ms[i].1)
    case _ => true
  }

  /**
   * Reading the tree of a written value gives the value back, provided its
   * leaves read back from their texts. As written, structs lose their members.
   */
  lemma {:induction false} ReadWritten(ls: LeafSyntax, rd: Reading, v: Value)
    requires LeavesRoundTrip(ls, v)
    ensures ReadValue(ls, rd, ValueTree(ls, v)) == Ok(Erased(rd, v))
    decreases v, 1
  {
    var e := InnerTree(ls, v);
    assert FirstContent([e]) == Some(e);
    ReadTypedWritten(ls, rd, v);
  }

  lemma {:induction false} ReadTypedWritten(ls: LeafSyntax, rd: Reading, v: Value)
    requires LeavesRoundTrip(ls, v)
    ensures ReadTyped(ls, rd, InnerTree(ls, v)) == Ok(Erased(rd, v))
    decreases v, 0
  {
    match v
    case Array(items) =>
      var data := Element("data", ItemsTrees(ls, items));
      ReadTypedArray(ls, rd, [data]);
      assert FirstChildNamed([data], "data") == Some(data);
      ReadWrittenItems(ls, rd, items);
    case Struct(ms) =>
      ReadTypedStruct(ls, rd, MembersTrees(ls, ms));
      if rd.membersFromValue {
        ReadWrittenMembers(ls, rd, ms);
      } else {
        MembersAsWritten(ls, rd, MembersTrees(ls, ms));
      }
    case _ =>
      ReadLeafWritten(ls, rd, v);
  }

  lemma ReadTypedArray(ls: LeafSyntax, rd: Reading, cs: seq<Node>)
    ensures ReadTyped(ls, rd, Element("array", cs)) == Ok(Array(ArrayItems(ls, rd, Element("array", cs))))
  {
  }

  lemma ReadTypedStruct(ls: LeafSyntax, rd: Reading, cs: seq<Node>)
    ensures ReadTyped(ls, rd, Element("struct", cs)) == Ok(Struct(Members(ls, rd, cs)))
  {
  }

  /**
   * A written scalar reads back as itself exactly when its text reads back:
   * integers, booleans and strings always do; a double, date-time or base64
   * leaf whose text does not reads back as an error or as another value.
   */
  lemma ReadLeafWritten(ls: LeafSyntax, rd: Reading, v: Value)
    requires IsScalar(v)
    ensures ReadTyped(ls, rd, InnerTree(ls, v)) == Ok(v) <==> LeavesRoundTrip(ls, v)
  {
    TextElementLiteral(TagOf(v), LeafText(ls, v));
    if v.Int? {
      ParseShowInt(v.i);
    } else if v.Bool? {
      ParseU8Examples();
    }
  }

  lemma {:induction false} ReadWrittenItems(ls: LeafSyntax, rd: Reading, items: seq<Value>)
    requires forall i :: 0 <= i < |items| ==> LeavesRoundTrip(ls, items[i])
    ensures Decoded(ls, rd, ItemsTrees(ls, items)) == ErasedItems(rd, items)
    decreases items, 2
  {
    if items != [] {
      var ns := ItemsTrees(ls, items);
      ReadWrittenItems(ls, rd, items[..|items| - 1]);
      ReadWritten(ls, rd, items[|items| - 1]);
      assert ns[..|ns| - 1] == ItemsTrees(ls, items[..|items| - 1]);
    }
  }

  /** A written member, read from its `value` child, gives back its name and value. */
  lemma {:induction false} ReadMemberWritten(ls: LeafSyntax, rd: Reading, member: (string, Value))
    requires rd.membersFromValue
    requires LeavesRoundTrip(ls, member.1)
    ensures ChildText(MemberTree(ls, member), "name") == Some(member.0)
    ensures ParseMemberValue(ls, rd, MemberTree(ls, member)) == Some(member.1)
    ensures MemberEntry(ls, rd, MemberTree(ls, member)) == [member]
    decreases member, 2
  {
    var m := MemberTree(ls, member);
    assert FirstChildNamed(m.children, "name") == Some(TextElementTree("name", member.0));
    TextElementLiteral("name", member.0);
    assert m.children[1..] == [ValueTree(ls, member.1)];
    assert FirstChildNamed(m.children, "value") == Some(ValueTree(ls, member.1));
    ReadWritten(ls, rd, member.1);
    ErasedCorrected(rd, member.1);
  }

  lemma {:induction false} ReadWrittenMembers(ls: LeafSyntax, rd: Reading, ms: seq<(string, Value)>)
    requires rd.membersFromValue
    requires forall i :: 0 <= i < |ms| ==> LeavesRoundTrip(ls, ms[i].1)
    ensures Members(ls, rd, MembersTrees(ls, ms)) == ms
    decreases ms, 2
  {
    if ms != [] {
      var init := ms[..|ms| - 1];
      var member := ms[|ms| - 1];
      var ns := MembersTrees(ls, ms);
      ReadWrittenMembers(ls, rd, init);
      ReadMemberWritten(ls, rd, member);
      MembersTreesSnoc(ls, ms);
      MembersSnoc(ls, rd, ns);
    }
  }

  lemma MembersTreesSnoc(ls: LeafSyntax, ms: seq<(string, Value)>)
    requires ms != []
    ensures MembersTrees(ls, ms)[..|ms| - 1] == MembersTrees(ls, ms[..|ms| - 1])
    ensures MembersTrees(ls, ms)[|ms| - 1] == MemberTree(ls, ms[|ms| - 1])
    ensures ms == ms[..|ms| - 1] + [ms[|ms| - 1]]
  {
    var n := |ms| - 1;
    assert MembersTrees(ls, ms) == MembersTrees(ls, ms[..n]) + [MemberTree(ls, ms[n])];
    assert ms[..n] + [ms[n]] == ms;
  }

  lemma MembersSnoc(ls: LeafSyntax, rd: Reading, ns: seq<Node>)
    requires ns != []
    ensures Members(ls, rd, ns) == Members(ls, rd, ns[..|ns| - 1]) + MemberEntry(ls, rd, ns[|ns| - 1])
  {
  }

  /** The discrepancy, on one value: a written one-member struct reads back empty. */
  lemma StructRoundTripFails(ls: LeafSyntax)
    ensures ReadValue(ls, AsWritten, ValueTree(ls, Struct([("a", Int(1))]))) == Ok(Struct([]))
    ensures ReadValue(ls, Corrected, ValueTree(ls, Struct([("a", Int(1))]))) == Ok(Struct([("a", Int(1))]))
  {
    var v := Struct([("a", Int(1))]);
    assert LeavesRoundTrip(ls, v.members[0].1);
    ReadWritten(ls, AsWritten, v);
    ReadWritten(ls, Corrected, v);
  }

  // ---------------------------------------------------------------------------
  // Conversions

  /** `From<Vec<T>>` and `FromIterator<T>`: an `Array` of the converted elements, one for one, in order. */
  function FromVec<T>(xs: seq<T>, into: T -> Value): (v: Value)
    ensures v.Array? && |v.items| == |xs|
    ensures forall i :: 0 <= i < |xs| ==> v.items[i] == into(xs[i])
  {
    if xs == [] then Array([])
    else
      var init := FromVec(xs[..|xs| - 1], into);
      Array(init.items + [into(xs[|xs| - 1])])
  }

  /** `FromIterator<(String, T)>`: a `Struct` of the pairs with converted values, in order, duplicates kept. */
  function FromPairs<T>(ps: seq<(string, T)>, into: T -> Value): (v: Value)
    ensures v.Struct? && |v.members| == |ps|
    ensures forall i :: 0 <= i < |ps| ==> v.members[i] == (ps[i].0, into(ps[i].1))
  {
    if ps == [] then Struct([])
    else
      var init := FromPairs(ps[..|ps| - 1], into);
      Struct(init.members + [(ps[|ps| - 1].0, into(ps[|ps| - 1].1))])
  }

  /** `From<HashMap<String, T>>`: the entries in the map's iteration order. */
  ghost function FromMap<T>(m: map<string, T>, into: T -> Value): Value {
    var ks := IterationOrder(m);
    FromPairs(seq(|ks|, i requires 0 <= i < |ks| => (ks[i], m[ks[i]])), into)
  }

  /** Whatever order the map hands its entries out in, the struct holds each entry once: collecting it gives the converted map back. */
  lemma FromMapCollects<T>(m: map<string, T>, into: T -> Value)
    ensures FromMap(m, into).Struct?
    ensures Collect(FromMap(m, into).members) == map k | k in m :: into(m[k])
  {
    var ks := IterationOrder(m);
    var ms := FromMap(m, into).members;
    var target := map k | k in m :: into(m[k]);
    assert |ms| == |ks|;
    forall k | k in target ensures exists i :: 0 <= i < |ms| && ms[i].0 == k {
      var i :| 0 <= i < |ks| && ks[i] == k;
      assert ms[i].0 == k;
    }
    CollectDistinct(ms, target);
  }
}
