/**
 * The older `xmlfmt` codec's value type and its string renderer
 * (src/xmlfmt/value.rs): a struct is a hash map, a date-time is kept as text,
 * and `to_xml` renders a value with `format!`.
 */
module XmlfmtValue {
  import opened Wrappers
  import opened TextSyntax
  import opened XmlTree
  import opened HashMaps

  datatype Value =
    | Int(i: i32)
    | Bool(b: bool)
    | String(s: string)
    | Double(d: Float64)
    | DateTime(text: string)
    | Base64(bytes: seq<u8>)
    | Array(items: seq<Value>)
    | Struct(members: map<string, Value>)

  /** The error kinds of src/xmlfmt/error.rs; `Msg` is what `bail!("..")` and `chain_err` produce. */
  datatype Error =
    | Msg(text: string)
    | Decoding(t: string)
    | Encoding(t: string)
    | UnsupportedData(t: string)

  /** The part of serde's `Unexpected` a value reports itself as. */
  datatype Unexpected =
    | Signed(n: int)
    | Boolean(b: bool)
    | Str(s: string)
    | Float(f: Float64)
    | Other(what: string)
    | Bytes(bytes: seq<u8>)
    | Seq
    | Map

  /** `Value::unexpected`: each variant has its own classification, payloads carried over, `Int` widened to 64 bits. */
  function UnexpectedOf(v: Value): (u: Unexpected)
    ensures u.Signed? <==> v.Int?
    ensures u.Boolean? <==> v.Bool?
    ensures u.Str? <==> v.String?
    ensures u.Float? <==> v.Double?
    ensures u.Other? <==> v.DateTime?
    ensures u.Bytes? <==> v.Base64?
    ensures u.Seq? <==> v.Array?
    ensures u.Map? <==> v.Struct?
    ensures u.Signed? ==> u.n == v.i && -0x8000_0000_0000_0000 <= u.n < 0x8000_0000_0000_0000
  {
    match v
    case Int(i) => Signed(i)
    case Bool(b) => Boolean(b)
    case String(s) => Str(s)
    case Double(d) => Float(d)
    case DateTime(_) => Other("dateTime.iso8601")
    case Base64(bytes) => Bytes(bytes)
    case Array(_) => Seq
    case Struct(_) => Map
  }

  datatype Fault = Fault(code: i32, message: string)

  /** `Response` is exactly `Ok(params)` or `Err(fault)`. */
  type Response = Result<seq<Value>, Fault>

  datatype Call = Call(name: string, params: seq<Value>)

  // ---------------------------------------------------------------------------
  // Rendering

  /** How member names are put into the `name` element: as written (`Verbatim`), or escaped like string values. */
  datatype NameRendering = Verbatim | Escaped

  /** `<tag>body</tag>`, as the `format!` strings spell them out. */
  function Tagged(tag: string, body: string): string {
    StartTag(tag) + body + EndTag(tag)
  }

  /**
   * What the body starts and ends with, the element starts and ends with,
   * inside its tags.
   */
  lemma TaggedAround(tag: string, body: string, p: string, q: string)
    requires p <= body && EndsWith(body, q)
    ensures StartTag(tag) + p <= Tagged(tag, body)
    ensures EndsWith(Tagged(tag, body), q + EndTag(tag))
  {
    var r := Tagged(tag, body);
    assert r[..|StartTag(tag)| + |p|] == StartTag(tag) + p;
    assert r[|r| - |q + EndTag(tag)|..] == q + EndTag(tag);
  }

  /** An element starts with its start tag and ends with its end tag. */
  lemma TaggedEnds(tag: string, body: string)
    ensures StartTag(tag) <= Tagged(tag, body)
    ensures EndsWith(Tagged(tag, body), EndTag(tag))
  {
    TaggedAround(tag, body, [], []);
    assert [] + EndTag(tag) == EndTag(tag);
  }

  /** `s` ends with `suffix`. */
  predicate EndsWith(s: string, suffix: string) {
    |suffix| <= |s| && s[|s| - |suffix|..] == suffix
  }

  function NameText(nr: NameRendering, name: string): string {
    if nr == Verbatim then name else Escape(name, PcData)
  }

  /** The name of the element that carries a value of each type. */
  function TypeTag(v: Value): string {
    match v
    case Int(_) => "i4"
    case Bool(_) => "boolean"
    case String(_) => "string"
    case Double(_) => "double"
    case DateTime(_) => "dateTime.iso8601"
    case Base64(_) => "base64"
    case Array(_) => "array"
    case Struct(_) => "struct"
  }

  /** `ToXml for Value`: every value is wrapped in `value`, around an element naming its type. */
  ghost function ToXml(ls: LeafSyntax, nr: NameRendering, v: Value): string
    decreases v, 2
  {
    Tagged("value", TypedXml(ls, nr, v))
  }

  /**
   * The typed element inside `value`: the integer in decimal, a boolean as
   * `1`/`0`, a string escaped, a date-time verbatim, base64 text, or the
   * renderings of the items or members. The members of a struct come in the
   * hash map's iteration order, which is not specified; one order is chosen.
   */
  ghost function TypedXml(ls: LeafSyntax, nr: NameRendering, v: Value): string
    decreases v, 1
  {
    Tagged(TypeTag(v), TypedBody(ls, nr, v))
  }

  /** The text of the typed element. */
  ghost function TypedBody(ls: LeafSyntax, nr: NameRendering, v: Value): string
    decreases v, 0
  {
    match v
    case Int(i) => ShowInt(i)
    case Bool(b) => if b then "1" else "0"
    case String(s) => Escape(s, PcData)
    case Double(d) => ls.showDouble(d)
    case DateTime(text) => text
    case Base64(bytes) => ls.encodeBase64(bytes)
    case Array(items) => Tagged("data", ItemsXml(ls, nr, items))
    case Struct(m) => MembersXml(ls, nr, v, IterationOrder(m))
  }

  /** `v.iter().map(Value::to_xml).collect::<String>()`. */
  ghost function ItemsXml(ls: LeafSyntax, nr: NameRendering, items: seq<Value>): string
    decreases items, 0
  {
    if items == [] then "" else ToXml(ls, nr, items[0]) + ItemsXml(ls, nr, items[1..])
  }

  /** One `member` element: the name, then the rendered value. */
  function MemberXml(nr: NameRendering, name: string, valueXml: string): string {
    Tagged("member", Tagged("name", NameText(nr, name)) + valueXml)
  }

  /** The members of `parent` whose names are `keys`, rendered in that order. */
  ghost function MembersXml(ls: LeafSyntax, nr: NameRendering, parent: Value, keys: seq<string>): string
    requires parent.Struct?
    requires forall i :: 0 <= i < |keys| ==> keys[i] in parent.members
    decreases parent, 0, |keys|
  {
    if keys == [] then ""
    else MemberXml(nr, keys[0], ToXml(ls, nr, parent.members[keys[0]])) + MembersXml(ls, nr, parent, keys[1..])
  }

  /** The templates of `ToXml for Call` and `ToXml for Response`: their text is not part of this model. */
  datatype Templates = Templates(
    call: (string, string) -> string,
    success: string -> string,
    fault: (i32, string) -> string)

  /** The `params` argument of the call and success templates: one `param` element per parameter. */
  ghost function ParamsXml(ls: LeafSyntax, nr: NameRendering, params: seq<Value>): (r: string)
    ensures r == "" <==> params == []
  {
    if params == [] then ""
    else Tagged("param", ToXml(ls, nr, params[0])) + ParamsXml(ls, nr, params[1..])
  }

  /** `ToXml for Call`. */
  ghost function CallXml(tm: Templates, ls: LeafSyntax, nr: NameRendering, c: Call): string {
    tm.call(c.name, ParamsXml(ls, nr, c.params))
  }

  /** `ToXml for Response`: the success template for parameters, the fault template for a fault. */
  ghost function ResponseXml(tm: Templates, ls: LeafSyntax, nr: NameRendering, r: Response): string {
    match r
    case Ok(params) => tm.success(ParamsXml(ls, nr, params))
    case Err(Fault(code, message)) => tm.fault(code, message)
  }

  /** The typed element is named after the value's type: it opens and closes with that name. */
  lemma TypedXmlFrame(ls: LeafSyntax, nr: NameRendering, v: Value)
    ensures StartTag(TypeTag(v)) <= TypedXml(ls, nr, v)
    ensures EndsWith(TypedXml(ls, nr, v), EndTag(TypeTag(v)))
  {
    TaggedEnds(TypeTag(v), TypedBody(ls, nr, v));
  }

  /** A rendered value opens with `<value>` and its type's tag, and closes with the matching end tags. */
  lemma ToXmlFrame(ls: LeafSyntax, nr: NameRendering, v: Value)
    ensures StartTag("value") + StartTag(TypeTag(v)) <= ToXml(ls, nr, v)
    ensures EndsWith(ToXml(ls, nr, v), EndTag(TypeTag(v)) + EndTag("value"))
  {
    TypedXmlFrame(ls, nr, v);
    TaggedAround("value", TypedXml(ls, nr, v), StartTag(TypeTag(v)), EndTag(TypeTag(v)));
  }

  /** The parameters are rendered in order: rendering two runs of parameters is rendering each in turn. */
  lemma {:induction false} ParamsXmlAppend(ls: LeafSyntax, nr: NameRendering, ps: seq<Value>, qs: seq<Value>)
    ensures ParamsXml(ls, nr, ps + qs) == ParamsXml(ls, nr, ps) + ParamsXml(ls, nr, qs)
  {
    if ps == [] {
      assert ps + qs == qs;
    } else {
      var head := Tagged("param", ToXml(ls, nr, ps[0]));
      assert (ps + qs)[0] == ps[0] && (ps + qs)[1..] == ps[1..] + qs;
      ParamsXmlAppend(ls, nr, ps[1..], qs);
      Appended(head, ParamsXml(ls, nr, ps[1..]), ParamsXml(ls, nr, qs));
    }
  }

  /** An array's items are rendered in order, the same way. */
  lemma {:induction false} ItemsXmlAppend(ls: LeafSyntax, nr: NameRendering, xs: seq<Value>, ys: seq<Value>)
    ensures ItemsXml(ls, nr, xs + ys) == ItemsXml(ls, nr, xs) + ItemsXml(ls, nr, ys)
  {
    if xs == [] {
      assert xs + ys == ys;
    } else {
      assert (xs + ys)[0] == xs[0] && (xs + ys)[1..] == xs[1..] + ys;
      ItemsXmlAppend(ls, nr, xs[1..], ys);
      Appended(ToXml(ls, nr, xs[0]), ItemsXml(ls, nr, xs[1..]), ItemsXml(ls, nr, ys));
    }
  }
}
