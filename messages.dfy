/**
 * The current codec's message envelopes (src/messages.rs): a `methodCall`
 * request and a `methodResponse` that carries either parameters or a fault.
 */
module Messages {
  import opened Wrappers
  import opened TextSyntax
  import opened XmlTree
  import opened Util
  import opened HashMaps
  import opened RpcValue

  datatype Request = Request(name: string, params: seq<Value>)

  /** `Response::success` and `Response::failure` are these two constructors. */
  datatype Response =
    | Success(params: seq<Value>)
    | Failure(code: i32, message: string)

  /** Why `Request::read_xml` or `Response::read_xml` bails. */
  datatype MessageError =
    | NotMethodCall
    | MissingMethodName
    | NotMethodResponse
    | FaultUnreadable(cause: ReadError)
    | FaultNotStruct
    | FaultCodeMissing
    | FaultStringMissing

  // ---------------------------------------------------------------------------
  // Parameters

  /** `read_params`: the values of every `params` > `param` > child that reads, in document order. */
  function ParamsIn(ls: LeafSyntax, rd: Reading, ns: seq<Node>): (vs: seq<Value>)
    ensures (forall i :: 0 <= i < |ns| ==> !HasTagName(ns[i], "params")) ==> vs == []
  {
    if ns == [] then []
    else
      var last := ns[|ns| - 1];
      ParamsIn(ls, rd, ns[..|ns| - 1]) + (if HasTagName(last, "params") then ParamList(ls, rd, last.children) else [])
  }

  /** The values inside the `param` children of one `params` element. */
  function ParamList(ls: LeafSyntax, rd: Reading, ns: seq<Node>): seq<Value> {
    if ns == [] then []
    else
      var last := ns[|ns| - 1];
      ParamList(ls, rd, ns[..|ns| - 1]) + (if HasTagName(last, "param") then Decoded(ls, rd, last.children) else [])
  }

  lemma ParamsInStep(ls: LeafSyntax, rd: Reading, ns: seq<Node>, i: int)
    requires 0 <= i < |ns|
    ensures ParamsIn(ls, rd, ns[..i + 1]) ==
              ParamsIn(ls, rd, ns[..i]) + (if HasTagName(ns[i], "params") then ParamList(ls, rd, ns[i].children) else [])
  {
    assert ns[..i + 1][..i] == ns[..i];
  }

  lemma ParamListStep(ls: LeafSyntax, rd: Reading, ns: seq<Node>, i: int)
    requires 0 <= i < |ns|
    ensures ParamList(ls, rd, ns[..i + 1]) ==
              ParamList(ls, rd, ns[..i]) + (if HasTagName(ns[i], "param") then Decoded(ls, rd, ns[i].children) else [])
  {
    assert ns[..i + 1][..i] == ns[..i];
  }

  /** `read_params`: the outer loop over the children of the root. */
  method ReadParams(ls: LeafSyntax, rd: Reading, root: Node) returns (params: seq<Value>)
    ensures params == ParamsIn(ls, rd, ChildrenOf(root))
  {
    params := [];
    var cs := ChildrenOf(root);
    var i := 0;
    while i < |cs|
      invariant 0 <= i <= |cs|
      invariant params == ParamsIn(ls, rd, cs[..i])
    {
      ParamsInStep(ls, rd, cs, i);
      if HasTagName(cs[i], "params") {
        var more := ReadParamList(ls, rd, cs[i]);
        params := params + more;
      }
      i := i + 1;
    }
    assert cs[..i] == cs;
  }

  /** `read_params`: the loop over the children of one `params` element. */
  method ReadParamList(ls: LeafSyntax, rd: Reading, paramsNode: Node) returns (params: seq<Value>)
    requires paramsNode.Element?
    ensures params == ParamList(ls, rd, paramsNode.children)
  {
    params := [];
    var ps := paramsNode.children;
    var j := 0;
    while j < |ps|
      invariant 0 <= j <= |ps|
      invariant params == ParamList(ls, rd, ps[..j])
    {
      ParamListStep(ls, rd, ps, j);
      if HasTagName(ps[j], "param") {
        var values := ReadData(ls, rd, ps[j]);
        params := params + values;
      }
      j := j + 1;
    }
    assert ps[..j] == ps;
  }

  /** Every `params` element counts, not just the first: their parameters are concatenated in order. */
  lemma {:induction false} ParamsInAppend(ls: LeafSyntax, rd: Reading, a: seq<Node>, b: seq<Node>)
    ensures ParamsIn(ls, rd, a + b) == ParamsIn(ls, rd, a) + ParamsIn(ls, rd, b)
    decreases |b|
  {
    if b == [] {
      assert a + b == a;
    } else {
      assert (a + b)[..|a + b| - 1] == a + b[..|b| - 1];
      assert (a + b)[|a + b| - 1] == b[|b| - 1];
      ParamsInAppend(ls, rd, a, b[..|b| - 1]);
    }
  }

  // ---------------------------------------------------------------------------
  // Requests

  /** `Request::read_xml` from the root of the parsed document on. */
  function RequestOf(ls: LeafSyntax, rd: Reading, root: Node): (r: Result<Request, MessageError>)
    ensures r == Err(NotMethodCall) <==> !HasTagName(root, "methodCall")
    ensures r == Err(MissingMethodName) <==> HasTagName(root, "methodCall") && ChildText(root, "methodName").None?
  {
    if !HasTagName(root, "methodCall") then Err(NotMethodCall)
    else
      match ChildText(root, "methodName")
      case None => Err(MissingMethodName)
      case Some(name) => Ok(Request(name, ParamsIn(ls, rd, root.children)))
  }

  method ReadRequest(ls: LeafSyntax, rd: Reading, root: Node) returns (r: Result<Request, MessageError>)
    ensures r == RequestOf(ls, rd, root)
  {
    if !HasTagName(root, "methodCall") {
      return Err(NotMethodCall);
    }
    var name := ChildText(root, "methodName");
    if name.None? {
      return Err(MissingMethodName);
    }
    var params := ReadParams(ls, rd, root);
    return Ok(Request(name.value, params));
  }

  // ---------------------------------------------------------------------------
  // Responses

  /**
   * `Response::read_fault`: nothing without a `fault` child; otherwise the
   * value read from its first `value` child (`faultFromValue`, which falls
   * back to the `fault` element, and so fails, when there is none) or from
   * the `fault` element itself (as written).
   */
  function FaultPayload(ls: LeafSyntax, rd: Reading, root: Node): (r: Result<Option<Value>, ReadError>)
    ensures r == Ok(None) <==> FirstChildNamed(ChildrenOf(root), "fault").None?
    ensures !rd.faultFromValue && FirstChildNamed(ChildrenOf(root), "fault").Some? ==> r == Err(UnexpectedTag("fault"))
  {
    match FirstChildNamed(ChildrenOf(root), "fault")
    case None => Ok(None)
    case Some(f) =>
      var target := if rd.faultFromValue then FirstChildNamed(f.children, "value").GetOr(f) else f;
      match ReadValue(ls, rd, target)
      case Ok(v) => Ok(Some(v))
      case Err(e) => Err(e)
  }

  /**
   * The fault branch of `Response::read_xml`: the members are collected into
   * a map (a later member replaces an earlier one of the same name), then
   * `faultCode` must be an `Int` and `faultString` a `String`; other members
   * are ignored.
   */
  function FaultOf(members: seq<(string, Value)>): (r: Result<Response, MessageError>)
    ensures r.Ok? ==> r.value.Failure?
  {
    var m := Collect(members);
    if !("faultCode" in m && m["faultCode"].Int?) then Err(FaultCodeMissing)
    else if !("faultString" in m && m["faultString"].String?) then Err(FaultStringMissing)
    else Ok(Failure(m["faultCode"].i, m["faultString"].s))
  }

  /** `Response::read_xml` from the root of the parsed document on. */
  function ResponseOf(ls: LeafSyntax, rd: Reading, root: Node): (r: Result<Response, MessageError>)
    ensures r == Err(NotMethodResponse) <==> !HasTagName(root, "methodResponse")
  {
    if !HasTagName(root, "methodResponse") then Err(NotMethodResponse)
    else
      match FaultPayload(ls, rd, root)
      case Err(e) => Err(FaultUnreadable(e))
      case Ok(None) => Ok(Success(ParamsIn(ls, rd, root.children)))
      case Ok(Some(v)) => if v.Struct? then FaultOf(v.members) else Err(FaultNotStruct)
  }

  /** `read_fault`: the scan for the first `fault` child. */
  method ReadFault(ls: LeafSyntax, rd: Reading, root: Node) returns (r: Result<Option<Value>, ReadError>)
    ensures r == FaultPayload(ls, rd, root)
  {
    var cs := ChildrenOf(root);
    var i := 0;
    while i < |cs|
      invariant 0 <= i <= |cs|
      invariant FirstChildNamed(cs[i..], "fault") == FirstChildNamed(cs, "fault")
    {
      assert cs[i..][0] == cs[i] && cs[i..][1..] == cs[i + 1..];
      if HasTagName(cs[i], "fault") {
        var target := if rd.faultFromValue then FirstChildNamed(cs[i].children, "value").GetOr(cs[i]) else cs[i];
        var v := ReadXml(ls, rd, target);
        return if v.Ok? then Ok(Some(v.value)) else Err(v.error);
      }
      i := i + 1;
    }
    assert cs[i..] == [];
    return Ok(None);
  }

  /** The fault branch: `collect::<HashMap<..>>()`, then `remove("faultCode")`, then `remove("faultString")`. */
  method FaultFromMembers(members: seq<(string, Value)>) returns (r: Result<Response, MessageError>)
    ensures r == FaultOf(members)
  {
    var m: map<string, Value> := map[];
    var i := 0;
    while i < |members|
      invariant 0 <= i <= |members|
      invariant m == Collect(members[..i])
    {
      CollectStep(members, i);
      m := m[members[i].0 := members[i].1];
      i := i + 1;
    }
    assert members[..i] == members;
    var code := if "faultCode" in m then Some(m["faultCode"]) else None;
    m := m - {"faultCode"};
    if !(code.Some? && code.value.Int?) {
      return Err(FaultCodeMissing);
    }
    var message := if "faultString" in m then Some(m["faultString"]) else None;
    m := m - {"faultString"};
    if !(message.Some? && message.value.String?) {
      return Err(FaultStringMissing);
    }
    return Ok(Failure(code.value.i, message.value.s));
  }

  method ReadResponse(ls: LeafSyntax, rd: Reading, root: Node) returns (r: Result<Response, MessageError>)
    ensures r == ResponseOf(ls, rd, root)
  {
    if !HasTagName(root, "methodResponse") {
      return Err(NotMethodResponse);
    }
    var fault := ReadFault(ls, rd, root);
    if fault.Err? {
      return Err(FaultUnreadable(fault.error));
    }
    if fault.value.Some? {
      if !fault.value.value.Struct? {
        return Err(FaultNotStruct);
      }
      r := FaultFromMembers(fault.value.value.members);
    } else {
      var params := ReadParams(ls, rd, root);
      r := Ok(Success(params));
    }
  }

  /**
   * As written, a response with a `fault` child always fails: the `fault`
   * element is handed to the value reader, which accepts only `value`.
   */
  lemma FaultAlwaysFailsAsWritten(ls: LeafSyntax, rd: Reading, root: Node)
    requires !rd.faultFromValue
    requires HasTagName(root, "methodResponse")
    requires FirstChildNamed(ChildrenOf(root), "fault").Some?
    ensures ResponseOf(ls, rd, root) == Err(FaultUnreadable(UnexpectedTag("fault")))
  {
  }

  /** Without a `fault` child, a response is a success carrying the parameters, whichever reading. */
  lemma NoFaultIsSuccess(ls: LeafSyntax, rd: Reading, root: Node)
    requires HasTagName(root, "methodResponse")
    requires forall i :: 0 <= i < |root.children| ==> !HasTagName(root.children[i], "fault")
    ensures ResponseOf(ls, rd, root) == Ok(Success(ParamsIn(ls, rd, root.children)))
  {
  }

  /**
   * A fault is accepted exactly when the last `faultCode` member is an `Int`
   * and the last `faultString` member is a `String`; the failure carries those two.
   */
  lemma FaultOfLastWins(members: seq<(string, Value)>)
    ensures FaultOf(members).Ok? <==>
              (exists i :: IsLastWithKey(members, i) && members[i].0 == "faultCode" && members[i].1.Int?) &&
              (exists j :: IsLastWithKey(members, j) && members[j].0 == "faultString" && members[j].1.String?)
    ensures forall i :: IsLastWithKey(members, i) && members[i].0 == "faultCode" && FaultOf(members).Ok? ==>
              members[i].1 == Int(FaultOf(members).value.code)
    ensures forall j :: IsLastWithKey(members, j) && members[j].0 == "faultString" && FaultOf(members).Ok? ==>
              members[j].1 == String(FaultOf(members).value.message)
  {
    var m := Collect(members);
    forall i | IsLastWithKey(members, i) ensures members[i].0 in m && m[members[i].0] == members[i].1 {
      CollectLastWins(members, i);
    }
    if FaultOf(members).Ok? {
      CollectOnlyKeys(members, "faultCode");
      var i :| 0 <= i < |members| && members[i].0 == "faultCode";
      LastWithKeyExists(members, "faultCode", i);
      CollectOnlyKeys(members, "faultString");
      var j :| 0 <= j < |members| && members[j].0 == "faultString";
      LastWithKeyExists(members, "faultString", j);
    }
    CollectHasKeys(members);
  }

  /** Members with other names change nothing: extra members are ignored. */
  lemma FaultIgnoresOtherMembers(members: seq<(string, Value)>, extra: seq<(string, Value)>)
    requires forall i :: 0 <= i < |extra| ==> extra[i].0 != "faultCode" && extra[i].0 != "faultString"
    ensures FaultOf(members + extra) == FaultOf(members)
  {
    CollectAppendOther(members, extra, "faultCode");
    CollectAppendOther(members, extra, "faultString");
  }

  // ---------------------------------------------------------------------------
  // Writing

  /** The tokens of `param` elements, one per value, in order. */
  function ParamTokens(ls: LeafSyntax, vs: seq<Value>): seq<string> {
    if vs == [] then []
    else ParamTokens(ls, vs[..|vs| - 1]) + ParamElement(ls, vs[|vs| - 1])
  }

  function ParamElement(ls: LeafSyntax, v: Value): seq<string> {
    ElementTokens("param", ValueTokens(ls, v))
  }

  /** `Request::write_xml`: the declaration, then `methodCall` with `methodName` and `params`. */
  function RequestTokens(ls: LeafSyntax, req: Request): (ts: seq<string>)
    ensures |ts| >= 4 && ts[0] == Declaration && ts[1] == StartTag("methodCall") && ts[2] == StartTag("methodName")
    ensures ts[|ts| - 1] == EndTag("methodCall")
  {
    [Declaration] + ElementTokens("methodCall", RequestInnerTokens(ls, req))
  }

  /** What `methodCall` holds: the `methodName` element, then the `params` element. */
  function RequestInnerTokens(ls: LeafSyntax, req: Request): (ts: seq<string>)
    ensures |ts| >= 5 && ts[0] == StartTag("methodName") && ts[3] == StartTag("params")
  {
    TextElementTokens("methodName", req.name) + ElementTokens("params", ParamTokens(ls, req.params))
  }

  /** The fault payload the writer sends: a struct with `faultCode` first and `faultString` second. */
  function FaultValue(code: i32, message: string): Value {
    Struct([("faultCode", Int(code)), ("faultString", String(message))])
  }

  /** `Response::write_xml`: the declaration, then `methodResponse` holding `params` or `fault`. */
  function ResponseTokens(ls: LeafSyntax, resp: Response): (ts: seq<string>)
    ensures |ts| >= 4 && ts[0] == Declaration && ts[1] == StartTag("methodResponse")
    ensures ts[2] == StartTag(if resp.Success? then "params" else "fault")
    ensures ts[|ts| - 1] == EndTag("methodResponse")
  {
    [Declaration] + ElementTokens("methodResponse", ResponseInnerTokens(ls, resp))
  }

  /** The content of `methodResponse`: a `params` element, or a `fault` element around the fault struct. */
  function ResponseInnerTokens(ls: LeafSyntax, resp: Response): (ts: seq<string>)
    ensures |ts| >= 2 && ts[0] == StartTag(if resp.Success? then "params" else "fault")
  {
    match resp
    case Success(params) => ElementTokens("params", ParamTokens(ls, params))
    case Failure(code, message) => ElementTokens("fault", ValueTokens(ls, FaultValue(code, message)))
  }

  lemma ParamTokensStep(ls: LeafSyntax, vs: seq<Value>, i: int)
    requires 0 <= i < |vs|
    ensures ParamTokens(ls, vs[..i + 1]) == ParamTokens(ls, vs[..i]) + ParamElement(ls, vs[i])
  {
    assert vs[..i + 1][..i] == vs[..i];
  }

  /** The loop `for param in params { .. create_element("param") .. }`. */
  method WriteParams(ls: LeafSyntax, vs: seq<Value>, w: Writer)
    modifies w
    ensures w.tokens == old(w.tokens) + ParamTokens(ls, vs)
  {
    ghost var start := w.tokens;
    var i := 0;
    while i < |vs|
      invariant 0 <= i <= |vs|
      invariant w.tokens == start + ParamTokens(ls, vs[..i])
    {
      WriteParam(ls, vs[i], w);
      ParamTokensStep(ls, vs, i);
      Appended(start, ParamTokens(ls, vs[..i]), ParamElement(ls, vs[i]));
      i := i + 1;
    }
    assert vs[..i] == vs;
  }

  /** One `param` element around the value. */
  method WriteParam(ls: LeafSyntax, v: Value, w: Writer)
    modifies w
    ensures w.tokens == old(w.tokens) + ParamElement(ls, v)
  {
    w.WriteStart("param");
    WriteXml(ls, v, w);
    w.WriteEnd("param");
    Wrapped(old(w.tokens), "param", ValueTokens(ls, v));
  }

  /** The `params` element of a request or of a successful response. */
  method WriteParamsElement(ls: LeafSyntax, vs: seq<Value>, w: Writer)
    modifies w
    ensures w.tokens == old(w.tokens) + ElementTokens("params", ParamTokens(ls, vs))
  {
    w.WriteStart("params");
    WriteParams(ls, vs, w);
    w.WriteEnd("params");
    Wrapped(old(w.tokens), "params", ParamTokens(ls, vs));
  }

  method WriteRequest(ls: LeafSyntax, req: Request, w: Writer)
    modifies w
    ensures w.tokens == old(w.tokens) + RequestTokens(ls, req)
  {
    w.WriteDeclaration();
    ghost var before := w.tokens;
    w.WriteStart("methodCall");
    ghost var started := w.tokens;
    w.WriteTextElement("methodName", req.name);
    WriteParamsElement(ls, req.params, w);
    Appended(started, TextElementTokens("methodName", req.name), ElementTokens("params", ParamTokens(ls, req.params)));
    w.WriteEnd("methodCall");
    Wrapped(before, "methodCall", RequestInnerTokens(ls, req));
    Appended(old(w.tokens), [Declaration], ElementTokens("methodCall", RequestInnerTokens(ls, req)));
  }

  method WriteResponse(ls: LeafSyntax, resp: Response, w: Writer)
    modifies w
    ensures w.tokens == old(w.tokens) + ResponseTokens(ls, resp)
  {
    w.WriteDeclaration();
    ghost var before := w.tokens;
    w.WriteStart("methodResponse");
    if resp.Success? {
      WriteParamsElement(ls, resp.params, w);
    } else {
      WriteFaultElement(ls, resp.code, resp.message, w);
    }
    w.WriteEnd("methodResponse");
    Wrapped(before, "methodResponse", ResponseInnerTokens(ls, resp));
    Appended(old(w.tokens), [Declaration], ElementTokens("methodResponse", ResponseInnerTokens(ls, resp)));
  }

  /** The `fault` element of a failure: the fault struct built from code and message. */
  method WriteFaultElement(ls: LeafSyntax, code: i32, message: string, w: Writer)
    modifies w
    ensures w.tokens == old(w.tokens) + ElementTokens("fault", ValueTokens(ls, FaultValue(code, message)))
  {
    w.WriteStart("fault");
    WriteXml(ls, FaultValue(code, message), w);
    w.WriteEnd("fault");
    Wrapped(old(w.tokens), "fault", ValueTokens(ls, FaultValue(code, message)));
  }

  // ---------------------------------------------------------------------------
  // The trees of written messages

  function ParamTrees(ls: LeafSyntax, vs: seq<Value>): (ns: seq<Node>)
    ensures |ns| == |vs|
  {
    if vs == [] then []
    else ParamTrees(ls, vs[..|vs| - 1]) + [Element("param", [ValueTree(ls, vs[|vs| - 1])])]
  }

  function RequestTree(ls: LeafSyntax, req: Request): Node {
    Element("methodCall", [TextElementTree("methodName", req.name), Element("params", ParamTrees(ls, req.params))])
  }

  function ResponseTree(ls: LeafSyntax, resp: Response): Node {
    Element("methodResponse", [
      match resp
      case Success(params) => Element("params", ParamTrees(ls, params))
      case Failure(code, message) => Element("fault", [ValueTree(ls, FaultValue(code, message))])
    ])
  }

  lemma {:induction false} ParamTokensMarkup(ls: LeafSyntax, vs: seq<Value>)
    ensures Concat(ParamTokens(ls, vs)) == MarkupAll(ParamTrees(ls, vs))
  {
    if vs != [] {
      var init := vs[..|vs| - 1];
      var last := vs[|vs| - 1];
      var p := Element("param", [ValueTree(ls, last)]);
      ParamTokensMarkup(ls, init);
      ValueTokensMarkup(ls, last);
      MarkupAllSingle(ValueTree(ls, last));
      ElementTokensMarkup("param", ValueTokens(ls, last), [ValueTree(ls, last)]);
      ConcatAppend(ParamTokens(ls, init), ElementTokens("param", ValueTokens(ls, last)));
      var ns := ParamTrees(ls, vs);
      assert ns[..|ns| - 1] == ParamTrees(ls, init);
    }
  }

  lemma ConcatDeclaration(inner: seq<string>)
    ensures Concat([Declaration] + inner) == Declaration + Concat(inner)
  {
    ConcatAppend([Declaration], inner);
    assert Concat([Declaration]) == Declaration;
  }

  /** A written request is the declaration followed by the markup of `RequestTree`. */
  lemma RequestTokensMarkup(ls: LeafSyntax, req: Request)
    ensures Concat(RequestTokens(ls, req)) == Declaration + Markup(RequestTree(ls, req))
  {
    var nameTree := TextElementTree("methodName", req.name);
    var paramsTree := Element("params", ParamTrees(ls, req.params));
    var inner := TextElementTokens("methodName", req.name) + ElementTokens("params", ParamTokens(ls, req.params));
    TextElementMarkup("methodName", req.name);
    ParamTokensMarkup(ls, req.params);
    ElementTokensMarkup("params", ParamTokens(ls, req.params), ParamTrees(ls, req.params));
    ConcatAppend(TextElementTokens("methodName", req.name), ElementTokens("params", ParamTokens(ls, req.params)));
    MarkupAllAppend([nameTree], [paramsTree]);
    MarkupAllSingle(nameTree);
    MarkupAllSingle(paramsTree);
    assert [nameTree] + [paramsTree] == [nameTree, paramsTree];
    ElementTokensMarkup("methodCall", inner, [nameTree, paramsTree]);
    ConcatDeclaration(ElementTokens("methodCall", inner));
  }

  /** A written response is the declaration followed by the markup of `ResponseTree`. */
  lemma ResponseTokensMarkup(ls: LeafSyntax, resp: Response)
    ensures Concat(ResponseTokens(ls, resp)) == Declaration + Markup(ResponseTree(ls, resp))
  {
    var child := ResponseTree(ls, resp).children[0];
    var inner := match resp
      case Success(params) => ElementTokens("params", ParamTokens(ls, params))
      case Failure(code, message) => ElementTokens("fault", ValueTokens(ls, FaultValue(code, message)));
    match resp {
      case Success(params) =>
        ParamTokensMarkup(ls, params);
        ElementTokensMarkup("params", ParamTokens(ls, params), ParamTrees(ls, params));
      case Failure(code, message) =>
        var v := ValueTree(ls, FaultValue(code, message));
        ValueTokensMarkup(ls, FaultValue(code, message));
        MarkupAllSingle(v);
        ElementTokensMarkup("fault", ValueTokens(ls, FaultValue(code, message)), [v]);
    }
    assert Concat(inner) == Markup(child);
    MarkupAllSingle(child);
    ElementTokensMarkup("methodResponse", inner, [child]);
    ConcatDeclaration(ElementTokens("methodResponse", inner));
  }

  // ---------------------------------------------------------------------------
  // Reading what was written

  lemma {:induction false} ReadWrittenParams(ls: LeafSyntax, rd: Reading, vs: seq<Value>)
    requires forall i :: 0 <= i < |vs| ==> LeavesRoundTrip(ls, vs[i])
    ensures ParamList(ls, rd, ParamTrees(ls, vs)) == ErasedItems(rd, vs)
  {
    if vs != [] {
      var init := vs[..|vs| - 1];
      var last := vs[|vs| - 1];
      var ns := ParamTrees(ls, vs);
      assert ns[..|ns| - 1] == ParamTrees(ls, init);
      assert ns[|ns| - 1] == Element("param", [ValueTree(ls, last)]);
      assert ParamList(ls, rd, ns) == ParamList(ls, rd, ParamTrees(ls, init)) + Decoded(ls, rd, [ValueTree(ls, last)]);
      assert forall i :: 0 <= i < |init| ==> init[i] == vs[i];
      ReadWrittenParams(ls, rd, init);
      assert LeavesRoundTrip(ls, vs[|vs| - 1]);
      ReadWritten(ls, rd, last);
      DecodedSnoc(ls, rd, [ValueTree(ls, last)]);
      assert ErasedItems(rd, vs) == ErasedItems(rd, init) + [Erased(rd, last)];
    }
  }

  /** The parameters of a written message, read back from its `params` element. */
  lemma ReadWrittenParamsElement(ls: LeafSyntax, rd: Reading, before: Node, vs: seq<Value>)
    requires forall i :: 0 <= i < |vs| ==> LeavesRoundTrip(ls, vs[i])
    requires !HasTagName(before, "params")
    ensures ParamsIn(ls, rd, [before, Element("params", ParamTrees(ls, vs))]) == ErasedItems(rd, vs)
    ensures ParamsIn(ls, rd, [Element("params", ParamTrees(ls, vs))]) == ErasedItems(rd, vs)
  {
    var p := Element("params", ParamTrees(ls, vs));
    ReadWrittenParams(ls, rd, vs);
    assert [before, p][..1] == [before];
    assert [before][..0] == [] && [p][..0] == [];
    assert ParamsIn(ls, rd, [before]) == [];
    ParamsInStep(ls, rd, [before, p], 1);
  }

  /**
   * A written request reads back with its name and its parameters (structs
   * inside them emptied as written, intact when member values are read from
   * their `value` child), provided the parameters' leaves read back from their texts.
   */
  lemma ReadWrittenRequest(ls: LeafSyntax, rd: Reading, req: Request)
    requires forall i :: 0 <= i < |req.params| ==> LeavesRoundTrip(ls, req.params[i])
    ensures RequestOf(ls, rd, RequestTree(ls, req)) == Ok(Request(req.name, ErasedItems(rd, req.params)))
  {
    var root := RequestTree(ls, req);
    var nameTree := TextElementTree("methodName", req.name);
    assert FirstChildNamed(root.children, "methodName") == Some(nameTree);
    TextElementLiteral("methodName", req.name);
    ReadWrittenParamsElement(ls, rd, nameTree, req.params);
  }

  /** The fault struct has only integer and string leaves, which always read back. */
  lemma FaultValueRoundTrips(ls: LeafSyntax, code: i32, message: string)
    ensures LeavesRoundTrip(ls, FaultValue(code, message))
  {
    var ms := FaultValue(code, message).members;
    assert LeavesRoundTrip(ls, ms[0].1) && LeavesRoundTrip(ls, ms[1].1);
  }

  /**
   * With both reads corrected, every written response reads back as itself
   * (a success provided its parameters' leaves read back from their texts).
   */
  lemma ReadWrittenResponse(ls: LeafSyntax, resp: Response)
    requires resp.Success? ==> forall i :: 0 <= i < |resp.params| ==> LeavesRoundTrip(ls, resp.params[i])
    ensures ResponseOf(ls, Corrected, ResponseTree(ls, resp)) == Ok(resp)
  {
    var root := ResponseTree(ls, resp);
    match resp {
      case Success(params) =>
        assert FirstChildNamed(root.children, "fault") == None;
        ReadWrittenParamsElement(ls, Corrected, root, params);
        ErasedItemsCorrected(Corrected, params);
      case Failure(code, message) =>
        var f := root.children[0];
        var v := ValueTree(ls, FaultValue(code, message));
        assert FirstChildNamed(root.children, "fault") == Some(f);
        assert FirstChildNamed(f.children, "value") == Some(v);
        FaultValueRoundTrips(ls, code, message);
        ReadWritten(ls, Corrected, FaultValue(code, message));
        FaultOfWritten(code, message);
    }
  }

  lemma FaultOfWritten(code: i32, message: string)
    ensures FaultOf(FaultValue(code, message).members) == Ok(Failure(code, message))
  {
    var ms := FaultValue(code, message).members;
    var m := Collect(ms);
    CollectLastWins(ms, 0);
    CollectLastWins(ms, 1);
  }

  /**
   * Correcting only one of the two reads does not make a written fault read
   * back. With the fault's `value` child read but members still read from the
   * `member` nodes, the fault struct comes back empty and lacks `faultCode`;
   * with members corrected but the `fault` element still handed to the value
   * reader, the tag check fails as before.
   */
  lemma FaultNeedsBothCorrections(ls: LeafSyntax, code: i32, message: string)
    ensures ResponseOf(ls, Reading(false, true), ResponseTree(ls, Failure(code, message))) == Err(FaultCodeMissing)
    ensures ResponseOf(ls, Reading(true, false), ResponseTree(ls, Failure(code, message)))
              == Err(FaultUnreadable(UnexpectedTag("fault")))
  {
    var root := ResponseTree(ls, Failure(code, message));
    var f := root.children[0];
    var v := ValueTree(ls, FaultValue(code, message));
    assert FirstChildNamed(root.children, "fault") == Some(f);
    assert FirstChildNamed(f.children, "value") == Some(v);
    FaultValueRoundTrips(ls, code, message);
    ReadWritten(ls, Reading(false, true), FaultValue(code, message));
    assert Collect<Value>([]) == map[];
    FaultAlwaysFailsAsWritten(ls, Reading(true, false), root);
  }

  /**
   * As written, a written success keeps its parameters (structs emptied),
   * provided their leaves read back from their texts, and a written failure
   * cannot be read.
   */
  lemma ReadWrittenResponseAsWritten(ls: LeafSyntax, resp: Response)
    requires resp.Success? ==> forall i :: 0 <= i < |resp.params| ==> LeavesRoundTrip(ls, resp.params[i])
    ensures resp.Success? ==>
              ResponseOf(ls, AsWritten, ResponseTree(ls, resp)) == Ok(Success(ErasedItems(AsWritten, resp.params)))
    ensures resp.Failure? ==>
              ResponseOf(ls, AsWritten, ResponseTree(ls, resp)) == Err(FaultUnreadable(UnexpectedTag("fault")))
  {
    var root := ResponseTree(ls, resp);
    if resp.Success? {
      assert FirstChildNamed(root.children, "fault") == None;
      ReadWrittenParamsElement(ls, AsWritten, root, resp.params);
    } else {
      assert FirstChildNamed(root.children, "fault") == Some(root.children[0]);
      FaultAlwaysFailsAsWritten(ls, AsWritten, root);
    }
  }
}
