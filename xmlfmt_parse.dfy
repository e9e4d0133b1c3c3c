/**
 * The `xmlfmt` reader (src/xmlfmt/parse.rs): serde_xml_rs turns a document
 * into the `Xml*` trees below, and the `Into` conversions turn those into
 * values, calls and responses. `call` and `response` then apply the
 * parameter-count convention and hand the result to a typed decoder.
 */
module XmlfmtParse {
  import opened Wrappers
  import opened TextSyntax
  import opened HashMaps
  import opened XmlfmtValue

  /** The element inside `value`, as serde_xml_rs reads it (`XmlValue`); the tag names are the serde renames. */
  datatype XmlValue =
    | XI4(i: i32)
    | XInt(i: i32)
    | XBool(flag: i32)
    | XStr(s: string)
    | XDouble(text: string)
    | XDateTime(text: string)
    | XBase64(text: string)
    | XArray(values: seq<XmlValue>)
    | XStruct(members: seq<XmlStructItem>)

  /** `XmlStructItem`: one `member` with its `name` and `value`. */
  datatype XmlStructItem = XmlStructItem(name: string, value: XmlValue)

  /** `XmlCall`; its `params` are the values of the `param` elements, in order. */
  datatype XmlCall = XmlCall(name: string, params: seq<XmlValue>)

  /** `XmlResponseResult`: a `params` element or a `fault` element with one value. */
  datatype XmlResponseResult = XSuccess(params: seq<XmlValue>) | XFailure(value: XmlValue)

  /** `CallValue` and `ResponseValue`: the converted trees. */
  datatype CallValue = CallValue(name: string, params: seq<Value>)
  datatype ResponseValue = SuccessValue(params: seq<Value>) | FaultValue(code: i32, message: string)

  /** The `Call<D>` and `Response<D>` that `call` and `response` return, with the data decoded into `D`. */
  datatype TypedCall<D> = TypedCall(name: string, data: D)
  datatype TypedResponse<D> = Success(data: D) | Failure(code: i32, message: string)

  // ---------------------------------------------------------------------------
  // Conversions

  /** `Into<Result<Value>> for XmlValue`. */
  function ValueOf(ls: LeafSyntax, x: XmlValue): (r: Result<Value, Error>)
    ensures r.Err? ==> r.error.Msg?
    ensures r.Ok? ==> (r.value.Int? <==> x.XI4? || x.XInt?) && (r.value.Bool? <==> x.XBool?)
    ensures r.Ok? ==> (r.value.String? <==> x.XStr?) && (r.value.Double? <==> x.XDouble?)
    ensures r.Ok? ==> (r.value.DateTime? <==> x.XDateTime?) && (r.value.Base64? <==> x.XBase64?)
    ensures r.Ok? ==> (r.value.Array? <==> x.XArray?) && (r.value.Struct? <==> x.XStruct?)
    decreases x, 1
  {
    match x
    case XI4(i) => Ok(Int(i))
    case XInt(i) => Ok(Int(i))
    case XBool(flag) => Ok(Bool(flag != 0))
    case XStr(s) => Ok(String(s))
    case XDouble(text) =>
      (match ls.parseDouble(text)
       case None => Err(Msg("Failed to parse double"))
       case Some(d) => Ok(Double(d)))
    case XDateTime(text) => Ok(DateTime(text))
    case XBase64(text) =>
      (match ls.decodeBase64(text)
       case None => Err(Msg("Failed to parse base64"))
       case Some(bytes) => Ok(Base64(bytes)))
    case XArray(values) =>
      (match ValuesOf(ls, values)
       case Err(e) => Err(e)
       case Ok(vs) => Ok(Array(vs)))
    case XStruct(members) =>
      (match MembersOf(ls, members)
       case Err(e) => Err(e)
       case Ok(m) => Ok(Struct(m)))
  }

  /** `.map(Into::into).collect::<Result<Vec<Value>>>()`: the values in order, or the first error. */
  function ValuesOf(ls: LeafSyntax, xs: seq<XmlValue>): (r: Result<seq<Value>, Error>)
    ensures r.Err? ==> r.error.Msg?
    ensures r.Ok? ==> |r.value| == |xs|
    decreases xs, 0
  {
    if xs == [] then Ok([])
    else
      match ValuesOf(ls, xs[..|xs| - 1])
      case Err(e) => Err(e)
      case Ok(vs) =>
        match ValueOf(ls, xs[|xs| - 1])
        case Err(e) => Err(e)
        case Ok(v) => Ok(vs + [v])
  }

  /** `Into<Result<(String, Value)>> for XmlStructItem`. */
  function MemberOf(ls: LeafSyntax, item: XmlStructItem): Result<(string, Value), Error>
    decreases item, 2
  {
    match ValueOf(ls, item.value)
    case Err(e) => Err(e)
    case Ok(v) => Ok((item.name, v))
  }

  /** `Into<Result<HashMap<..>>> for XmlStruct`: members inserted in order, or the first error. */
  function MembersOf(ls: LeafSyntax, items: seq<XmlStructItem>): (r: Result<map<string, Value>, Error>)
    ensures r.Err? ==> r.error.Msg?
    ensures r.Ok? ==> forall k :: k in r.value ==> exists i :: 0 <= i < |items| && items[i].name == k
    decreases items, 0
  {
    if items == [] then Ok(map[])
    else
      match MembersOf(ls, items[..|items| - 1])
      case Err(e) => Err(e)
      case Ok(m) =>
        match MemberOf(ls, items[|items| - 1])
        case Err(e) => Err(e)
        case Ok(p) => Ok(m[p.0 := p.1])
  }

  /** `Into<Result<CallValue>> for XmlCall`. */
  function CallValueOf(ls: LeafSyntax, x: XmlCall): (r: Result<CallValue, Error>)
    ensures r.Err? ==> r.error.Msg?
    ensures r.Ok? ==> r.value.name == x.name && |r.value.params| == |x.params|
  {
    match ValuesOf(ls, x.params)
    case Err(e) => Err(e)
    case Ok(params) => Ok(CallValue(x.name, params))
  }

  /**
   * The payload `FaultStruct` accepts: a struct whose `faultCode` is an
   * integer and whose `faultString` is a string; other members are ignored.
   */
  function FaultFields(v: Value): Option<(i32, string)> {
    if v.Struct? && "faultCode" in v.members && v.members["faultCode"].Int?
       && "faultString" in v.members && v.members["faultString"].String?
    then Some((v.members["faultCode"].i, v.members["faultString"].s))
    else None
  }

  /** `Into<Result<ResponseValue>> for XmlResponseResult` (and for `XmlResponse`, which only unwraps it). */
  function ResponseValueOf(ls: LeafSyntax, x: XmlResponseResult): (r: Result<ResponseValue, Error>)
    ensures r.Err? ==> r.error.Msg?
    ensures r.Ok? ==> (r.value.SuccessValue? <==> x.XSuccess?)
    ensures r.Ok? && x.XSuccess? ==> |r.value.params| == |x.params|
  {
    match x
    case XSuccess(params) =>
      (match ValuesOf(ls, params)
       case Err(e) => Err(e)
       case Ok(vs) => Ok(SuccessValue(vs)))
    case XFailure(value) =>
      (match ValueOf(ls, value)
       case Err(e) => Err(e)
       case Ok(v) =>
         match FaultFields(v)
         case None => Err(Msg("Failed to decode fault structure"))
         case Some(fields) => Ok(FaultValue(fields.0, fields.1)))
  }

  /** The parameter convention: exactly one parameter stands for itself, any other number for an array of them. */
  function ParamsData(params: seq<Value>): (data: Value)
    ensures !data.Array? ==> params == [data]
    ensures data.Array? ==> params == data.items || params == [data]
  {
    if |params| == 1 then params[0] else Array(params)
  }

  const ConvertFailure := "Failed to convert XML-RPC to structure."

  /** `call`: the converted call, its parameters folded by the convention and decoded. */
  function CallOf<D>(ls: LeafSyntax, decode: Value -> Result<D, Error>, x: XmlCall): (r: Result<TypedCall<D>, Error>)
    ensures r.Err? ==> r.error.Msg?
    ensures r.Ok? ==> r.value.name == x.name
  {
    match CallValueOf(ls, x)
    case Err(e) => Err(e)
    case Ok(cv) =>
      match decode(ParamsData(cv.params))
      case Err(_) => Err(Msg(ConvertFailure))
      case Ok(data) => Ok(TypedCall(cv.name, data))
  }

  /** `response`: a success decodes its folded parameters; a fault is passed on as it is. */
  function ResponseOf<D>(ls: LeafSyntax, decode: Value -> Result<D, Error>, x: XmlResponseResult)
    : (r: Result<TypedResponse<D>, Error>)
    ensures r.Err? ==> r.error.Msg?
    ensures r.Ok? ==> (r.value.Success? <==> x.XSuccess?)
  {
    match ResponseValueOf(ls, x)
    case Err(e) => Err(e)
    case Ok(SuccessValue(params)) =>
      (match decode(ParamsData(params))
       case Err(_) => Err(Msg(ConvertFailure))
       case Ok(data) => Ok(Success(data)))
    case Ok(FaultValue(code, message)) => Ok(Failure(code, message))
  }

  /** `call`, taking the single parameter off the vector with `pop`. */
  method ReadCall<D>(ls: LeafSyntax, decode: Value -> Result<D, Error>, x: XmlCall) returns (r: Result<TypedCall<D>, Error>)
    ensures r == CallOf(ls, decode, x)
  {
    var cv := CallValueOf(ls, x);
    if cv.Err? {
      return Err(cv.error);
    }
    var params := cv.value.params;
    var data;
    if |params| == 1 {
      data := params[|params| - 1];
    } else {
      data := Array(params);
    }
    var decoded := decode(data);
    if decoded.Err? {
      return Err(Msg(ConvertFailure));
    }
    return Ok(TypedCall(cv.value.name, decoded.value));
  }

  /** `response`, with the same `pop` for a success. */
  method ReadResponse<D>(ls: LeafSyntax, decode: Value -> Result<D, Error>, x: XmlResponseResult)
    returns (r: Result<TypedResponse<D>, Error>)
    ensures r == ResponseOf(ls, decode, x)
  {
    var rv := ResponseValueOf(ls, x);
    if rv.Err? {
      return Err(rv.error);
    }
    match rv.value {
      case SuccessValue(params) =>
        var data;
        if |params| == 1 {
          data := params[|params| - 1];
        } else {
          data := Array(params);
        }
        var decoded := decode(data);
        if decoded.Err? {
          return Err(Msg(ConvertFailure));
        }
        return Ok(Success(decoded.value));
      case FaultValue(code, message) =>
        return Ok(Failure(code, message));
    }
  }

  // ---------------------------------------------------------------------------
  // Properties of the conversions

  /** `i4` and `int` convert alike; a boolean is true exactly when its number is not 0; date-time text is kept as it is. */
  lemma ScalarConversions(ls: LeafSyntax, i: i32, text: string)
    ensures ValueOf(ls, XI4(i)) == ValueOf(ls, XInt(i)) == Ok(Int(i))
    ensures ValueOf(ls, XBool(i)) == Ok(Bool(true)) <==> i != 0
    ensures ValueOf(ls, XDateTime(text)) == Ok(DateTime(text))
    ensures ValueOf(ls, XBase64(text)).Err? <==> ls.decodeBase64(text).None?
  {
  }

  /** A sequence converts to `vs` exactly when each element converts to the value at its place in `vs`. */
  lemma {:induction false} ValuesOfOk(ls: LeafSyntax, xs: seq<XmlValue>, vs: seq<Value>)
    ensures ValuesOf(ls, xs) == Ok(vs) <==>
              |vs| == |xs| && forall i :: 0 <= i < |xs| ==> ValueOf(ls, xs[i]) == Ok(vs[i])
    decreases |xs|
  {
    if xs == [] {
    } else if vs == [] {
    } else {
      var init, last := xs[..|xs| - 1], xs[|xs| - 1];
      var vinit := vs[..|vs| - 1];
      ValuesOfOk(ls, init, vinit);
      if ValuesOf(ls, xs) == Ok(vs) {
        var r := ValuesOf(ls, init);
        assert r.Ok? && r.value + [ValueOf(ls, last).value] == vs;
        assert r.value == vinit;
      }
      if |vs| == |xs| && forall i :: 0 <= i < |xs| ==> ValueOf(ls, xs[i]) == Ok(vs[i]) {
        forall i | 0 <= i < |init| ensures ValueOf(ls, init[i]) == Ok(vinit[i]) {
          assert init[i] == xs[i];
        }
        assert vinit + [vs[|vs| - 1]] == vs;
      }
    }
  }

  /** The first element that fails to convert decides the error of the whole sequence. */
  lemma {:induction false} ValuesOfFirstError(ls: LeafSyntax, xs: seq<XmlValue>, i: int)
    requires 0 <= i < |xs| && ValueOf(ls, xs[i]).Err?
    requires forall j :: 0 <= j < i ==> ValueOf(ls, xs[j]).Ok?
    ensures ValuesOf(ls, xs) == Err(ValueOf(ls, xs[i]).error)
    decreases |xs|
  {
    var init := xs[..|xs| - 1];
    if i < |xs| - 1 {
      assert init[i] == xs[i];
      ValuesOfFirstError(ls, init, i);
    } else {
      var vs := seq(|init|, j requires 0 <= j < |init| => ValueOf(ls, init[j]).value);
      forall j | 0 <= j < |init| ensures ValueOf(ls, init[j]) == Ok(vs[j]) {
        assert init[j] == xs[j];
      }
      ValuesOfOk(ls, init, vs);
    }
  }

  /** `pairs` holds the name and the converted value of each item, in order. */
  ghost predicate Converted(ls: LeafSyntax, items: seq<XmlStructItem>, pairs: seq<(string, Value)>) {
    |pairs| == |items| &&
    forall i :: 0 <= i < |items| ==> pairs[i].0 == items[i].name && ValueOf(ls, items[i].value) == Ok(pairs[i].1)
  }

  /** When every member converts, the struct is the map the converted pairs collect to (a later name wins). */
  lemma {:induction false} MembersOfCollect(ls: LeafSyntax, items: seq<XmlStructItem>, pairs: seq<(string, Value)>)
    requires Converted(ls, items, pairs)
    ensures MembersOf(ls, items) == Ok(Collect(pairs))
    decreases |items|
  {
    if items != [] {
      var n := |items| - 1;
      assert Converted(ls, items[..n], pairs[..n]) by {
        forall i | 0 <= i < n ensures pairs[..n][i].0 == items[..n][i].name && ValueOf(ls, items[..n][i].value) == Ok(pairs[..n][i].1) {
          assert items[..n][i] == items[i] && pairs[..n][i] == pairs[i];
        }
      }
      MembersOfCollect(ls, items[..n], pairs[..n]);
      CollectStep(pairs, n);
      assert pairs[..n + 1] == pairs;
    }
  }

  /** A struct fails to convert exactly when one of its member values does. */
  lemma {:induction false} MembersOfFails(ls: LeafSyntax, items: seq<XmlStructItem>)
    ensures MembersOf(ls, items).Err? <==> exists i :: 0 <= i < |items| && ValueOf(ls, items[i].value).Err?
    decreases |items|
  {
    if items != [] {
      var n := |items| - 1;
      MembersOfFails(ls, items[..n]);
      if exists i :: 0 <= i < n && ValueOf(ls, items[..n][i].value).Err? {
        var i :| 0 <= i < n && ValueOf(ls, items[..n][i].value).Err?;
        assert items[..n][i] == items[i];
      }
      if exists i :: 0 <= i < |items| && ValueOf(ls, items[i].value).Err? {
        var i :| 0 <= i < |items| && ValueOf(ls, items[i].value).Err?;
        if i < n {
          assert items[..n][i] == items[i];
        }
      }
    }
  }

  /** Of several members with one name, the last one's value is the one kept. */
  lemma StructLastWins(ls: LeafSyntax, items: seq<XmlStructItem>, pairs: seq<(string, Value)>, i: int)
    requires Converted(ls, items, pairs)
    requires IsLastWithKey(pairs, i)
    ensures MembersOf(ls, items).Ok?
    ensures items[i].name in MembersOf(ls, items).value
    ensures Ok(MembersOf(ls, items).value[items[i].name]) == ValueOf(ls, items[i].value)
  {
    MembersOfCollect(ls, items, pairs);
    CollectLastWins(pairs, i);
  }

  /** One array parameter and the same values as separate parameters fold to the same data. */
  lemma ParamsDataAmbiguous(params: seq<Value>)
    requires |params| != 1
    ensures ParamsData([Array(params)]) == ParamsData(params)
  {
  }

  /** A success never yields a fault, and a fault is accepted exactly when its payload carries both fields. */
  lemma ResponseKinds<D>(ls: LeafSyntax, decode: Value -> Result<D, Error>, x: XmlResponseResult)
    ensures x.XSuccess? ==> !(ResponseOf(ls, decode, x).Ok? && ResponseOf(ls, decode, x).value.Failure?)
    ensures x.XFailure? ==>
              (ResponseOf(ls, decode, x).Ok? <==> ValueOf(ls, x.value).Ok? && FaultFields(ValueOf(ls, x.value).value).Some?)
    ensures x.XFailure? && ResponseOf(ls, decode, x).Ok? ==>
              var m := ValueOf(ls, x.value).value.members;
              ResponseOf(ls, decode, x).value == Failure(m["faultCode"].i, m["faultString"].s)
  {
  }

  // ---------------------------------------------------------------------------
  // The trees of rendered values, and reading them back

  /**
   * The tree whose markup is the rendering of `v` (struct members in the order
   * they are rendered); serde_xml_rs is assumed to read this tree from that text.
   */
  ghost function Shape(ls: LeafSyntax, v: Value): XmlValue
    decreases v, 1
  {
    match v
    case Int(i) => XI4(i)
    case Bool(b) => XBool(if b then 1 else 0)
    case String(s) => XStr(s)
    case Double(d) => XDouble(ls.showDouble(d))
    case DateTime(text) => XDateTime(text)
    case Base64(bytes) => XBase64(ls.encodeBase64(bytes))
    case Array(items) => XArray(ShapeItems(ls, items))
    case Struct(m) => XStruct(ShapeMembers(ls, v, IterationOrder(m)))
  }

  ghost function ShapeItems(ls: LeafSyntax, items: seq<Value>): (xs: seq<XmlValue>)
    ensures |xs| == |items|
    decreases items, 0
  {
    seq(|items|, i requires 0 <= i < |items| => Shape(ls, items[i]))
  }

  ghost function ShapeMembers(ls: LeafSyntax, parent: Value, keys: seq<string>): (xs: seq<XmlStructItem>)
    requires parent.Struct?
    requires forall i :: 0 <= i < |keys| ==> keys[i] in parent.members
    ensures |xs| == |keys|
    decreases parent, 0
  {
    seq(|keys|, i requires 0 <= i < |keys| => XmlStructItem(keys[i], Shape(ls, parent.members[keys[i]])))
  }

  /** Every double and base64 leaf of `v` reads back from its own text (date-times are kept as text). */
  predicate LeavesRoundTrip(ls: LeafSyntax, v: Value) {
    match v
    case Double(d) => DoubleRoundTrips(ls, d)
    case Base64(bytes) => Base64RoundTrips(ls, bytes)
    case Array(items) => forall i :: 0 <= i < |items| ==> LeavesRoundTrip(ls, items[i])
    case Struct(m) => forall k :: k in m ==> LeavesRoundTrip(ls, m[k])
    case _ => true
  }

  /** Every rendered value reads back as itself, provided its double and base64 leaves read back from their texts. */
  lemma {:induction false} ValueOfShape(ls: LeafSyntax, v: Value)
    requires LeavesRoundTrip(ls, v)
    ensures ValueOf(ls, Shape(ls, v)) == Ok(v)
    decreases v, 1
  {
    if v.Array? {
      ArrayValueOfShape(ls, v);
    } else if v.Struct? {
      StructValueOfShape(ls, v);
    } else {
      LeafValueOfShape(ls, v);
    }
  }

  lemma {:induction false} ArrayValueOfShape(ls: LeafSyntax, v: Value)
    requires LeavesRoundTrip(ls, v) && v.Array?
    ensures ValueOf(ls, Shape(ls, v)) == Ok(v)
    decreases v, 0
  {
    assert Shape(ls, v) == XArray(ShapeItems(ls, v.items));
    ValuesOfShape(ls, v.items);
  }

  lemma {:induction false} StructValueOfShape(ls: LeafSyntax, v: Value)
    requires LeavesRoundTrip(ls, v) && v.Struct?
    ensures ValueOf(ls, Shape(ls, v)) == Ok(v)
    decreases v, 0, 1
  {
    var items := ShapeMembers(ls, v, IterationOrder(v.members));
    MembersOfShape(ls, v);
    StructValueOf(ls, items, v.members);
  }

  /** A struct tree whose members convert to `m` converts to the struct of `m`. */
  lemma StructValueOf(ls: LeafSyntax, items: seq<XmlStructItem>, m: map<string, Value>)
    requires MembersOf(ls, items) == Ok(m)
    ensures ValueOf(ls, XStruct(items)) == Ok(Struct(m))
  {
  }

  /**
   * A scalar's tree converts back to the scalar exactly when its text reads
   * back: integers, booleans, strings and date-times always do; a double or
   * base64 leaf whose text does not gives an error or another value.
   */
  lemma LeafValueOfShape(ls: LeafSyntax, v: Value)
    requires !v.Array? && !v.Struct?
    ensures ValueOf(ls, Shape(ls, v)) == Ok(v) <==> LeavesRoundTrip(ls, v)
  {
    match v {
      case Double(d) =>
        assert Shape(ls, v) == XDouble(ls.showDouble(d));
      case Base64(bytes) =>
        assert Shape(ls, v) == XBase64(ls.encodeBase64(bytes));
      case Int(_) =>
      case Bool(_) =>
      case String(_) =>
      case DateTime(_) =>
    }
  }

  lemma {:induction false} ValuesOfShape(ls: LeafSyntax, items: seq<Value>)
    requires forall i :: 0 <= i < |items| ==> LeavesRoundTrip(ls, items[i])
    ensures ValuesOf(ls, ShapeItems(ls, items)) == Ok(items)
    decreases items, 0
  {
    var xs := ShapeItems(ls, items);
    forall i | 0 <= i < |xs| ensures ValueOf(ls, xs[i]) == Ok(items[i]) {
      ValueOfShape(ls, items[i]);
    }
    ValuesOfOk(ls, xs, items);
  }

  lemma {:induction false} MembersOfShape(ls: LeafSyntax, v: Value)
    requires v.Struct? && LeavesRoundTrip(ls, v)
    ensures MembersOf(ls, ShapeMembers(ls, v, IterationOrder(v.members))) == Ok(v.members)
    decreases v, 0, 0
  {
    var m := v.members;
    var keys := IterationOrder(m);
    var items := ShapeMembers(ls, v, keys);
    var pairs := Entries(m);
    forall i | 0 <= i < |items| ensures pairs[i].0 == items[i].name && ValueOf(ls, items[i].value) == Ok(pairs[i].1) {
      ValueOfShape(ls, m[keys[i]]);
    }
    MembersOfCollect(ls, items, pairs);
    CollectEntries(m);
  }

  /** The call's tree: its name and the trees of its parameters. */
  ghost function CallShape(ls: LeafSyntax, c: Call): XmlCall {
    XmlCall(c.name, ShapeItems(ls, c.params))
  }

  /** A fault as the struct value the `fault` element holds. */
  function FaultStruct(f: Fault): Value {
    Struct(map["faultCode" := Int(f.code), "faultString" := String(f.message)])
  }

  /** The response's tree: the parameters, or the fault's struct. */
  ghost function ResponseShape(ls: LeafSyntax, r: Response): XmlResponseResult {
    match r
    case Ok(params) => XSuccess(ShapeItems(ls, params))
    case Err(f) => XFailure(Shape(ls, FaultStruct(f)))
  }

  /**
   * A call whose parameters' leaves read back from their texts reads back
   * with its name, and its data is its parameters folded by the convention.
   */
  lemma CallReadsBack<D>(ls: LeafSyntax, decode: Value -> Result<D, Error>, c: Call)
    requires forall i :: 0 <= i < |c.params| ==> LeavesRoundTrip(ls, c.params[i])
    ensures CallValueOf(ls, CallShape(ls, c)) == Ok(CallValue(c.name, c.params))
    ensures decode(ParamsData(c.params)).Ok? ==>
              CallOf(ls, decode, CallShape(ls, c)) == Ok(TypedCall(c.name, decode(ParamsData(c.params)).value))
  {
    ValuesOfShape(ls, c.params);
  }

  /**
   * A response reads back as itself: the same parameters (provided their
   * leaves read back from their texts), or the same fault code and message.
   */
  lemma ResponseReadsBack(ls: LeafSyntax, r: Response)
    requires r.Ok? ==> forall i :: 0 <= i < |r.value| ==> LeavesRoundTrip(ls, r.value[i])
    ensures r.Ok? ==> ResponseValueOf(ls, ResponseShape(ls, r)) == Ok(SuccessValue(r.value))
    ensures r.Err? ==> ResponseValueOf(ls, ResponseShape(ls, r)) == Ok(FaultValue(r.error.code, r.error.message))
  {
    match r {
      case Ok(params) =>
        ValuesOfShape(ls, params);
      case Err(f) =>
        FaultReadsBack(ls, f);
    }
  }

  /** The fault's struct reads back as the fault's code and message. */
  lemma FaultReadsBack(ls: LeafSyntax, f: Fault)
    ensures ResponseValueOf(ls, XFailure(Shape(ls, FaultStruct(f)))) == Ok(FaultValue(f.code, f.message))
  {
    var v := FaultStruct(f);
    assert LeavesRoundTrip(ls, v);
    ValueOfShape(ls, v);
    assert FaultFields(v) == Some((f.code, f.message));
  }

  /** With data decoded as the value itself, one parameter reads back as that value and none as an empty array. */
  lemma SingleAndEmptyResponses(ls: LeafSyntax, v: Value)
    requires LeavesRoundTrip(ls, v)
    ensures ResponseOf(ls, x => Ok(x), ResponseShape(ls, Ok([v]))) == Ok(Success(v))
    ensures ResponseOf(ls, x => Ok(x), ResponseShape(ls, Ok([]))) == Ok(Success(Array([])))
  {
    ResponseReadsBack(ls, Ok([v]));
    ResponseReadsBack(ls, Ok([]));
  }

  // ---------------------------------------------------------------------------
  // The rendering is the markup of the tree

  /** Text that escaping leaves as it is: it holds no `&` or `<`. */
  predicate PlainText(s: string) {
    Escape(s, PcData) == s
  }

  /** The float and base64 printers produce plain text (digits, signs, letters, `+`, `/`, `=`). */
  ghost predicate LeafTextsPlain(ls: LeafSyntax) {
    && (forall d :: PlainText(ls.showDouble(d)))
    && (forall bytes :: PlainText(ls.encodeBase64(bytes)))
  }

  /** Every date-time text in `v` is plain, as ISO 8601 texts are. */
  predicate DateTimesPlain(v: Value) {
    match v
    case DateTime(text) => PlainText(text)
    case Array(items) => forall i :: 0 <= i < |items| ==> DateTimesPlain(items[i])
    case Struct(m) => forall k :: k in m ==> DateTimesPlain(m[k])
    case _ => true
  }

  /** Every member name in `v` is plain. */
  predicate NamesPlain(v: Value) {
    match v
    case Array(items) => forall i :: 0 <= i < |items| ==> NamesPlain(items[i])
    case Struct(m) => forall k :: k in m ==> PlainText(k) && NamesPlain(m[k])
    case _ => true
  }

  /** The markup of a tree, each text escaped as `escape_str_pcdata` escapes it. */
  function RenderXml(x: XmlValue): string
    decreases x, 2
  {
    Tagged("value", RenderTyped(x))
  }

  function RenderTyped(x: XmlValue): string
    decreases x, 1
  {
    match x
    case XI4(i) => Tagged("i4", ShowInt(i))
    case XInt(i) => Tagged("int", ShowInt(i))
    case XBool(flag) => Tagged("boolean", ShowInt(flag))
    case XStr(s) => Tagged("string", Escape(s, PcData))
    case XDouble(text) => Tagged("double", Escape(text, PcData))
    case XDateTime(text) => Tagged("dateTime.iso8601", Escape(text, PcData))
    case XBase64(text) => Tagged("base64", Escape(text, PcData))
    case XArray(xs) => Tagged("array", Tagged("data", RenderValues(xs)))
    case XStruct(items) => Tagged("struct", RenderMembers(items))
  }

  function RenderValues(xs: seq<XmlValue>): string
    decreases xs, 0
  {
    if xs == [] then "" else RenderXml(xs[0]) + RenderValues(xs[1..])
  }

  function RenderMember(item: XmlStructItem): string
    decreases item, 2
  {
    MemberXml(Escaped, item.name, RenderXml(item.value))
  }

  function RenderMembers(items: seq<XmlStructItem>): string
    decreases items, 0
  {
    if items == [] then "" else RenderMember(items[0]) + RenderMembers(items[1..])
  }

  /**
   * With member names escaped, `to_xml` writes exactly the markup of the tree
   * the value reads back from; as written, this holds only when every member
   * name is plain.
   */
  lemma {:induction false} ToXmlIsMarkup(ls: LeafSyntax, nr: NameRendering, v: Value)
    requires LeafTextsPlain(ls) && DateTimesPlain(v)
    requires nr == Escaped || NamesPlain(v)
    ensures ToXml(ls, nr, v) == RenderXml(Shape(ls, v))
    decreases v, 2
  {
    if v.Array? {
      ArrayIsMarkup(ls, nr, v);
    } else if v.Struct? {
      StructIsMarkup(ls, nr, v);
    } else {
      LeafIsMarkup(ls, nr, v);
    }
  }

  lemma {:induction false} ArrayIsMarkup(ls: LeafSyntax, nr: NameRendering, v: Value)
    requires v.Array?
    requires LeafTextsPlain(ls) && DateTimesPlain(v)
    requires nr == Escaped || NamesPlain(v)
    ensures TypedXml(ls, nr, v) == RenderTyped(Shape(ls, v))
    decreases v, 1
  {
    ItemsAreMarkup(ls, nr, v.items);
    assert Shape(ls, v) == XArray(ShapeItems(ls, v.items));
  }

  lemma {:induction false} StructIsMarkup(ls: LeafSyntax, nr: NameRendering, v: Value)
    requires v.Struct?
    requires LeafTextsPlain(ls) && DateTimesPlain(v)
    requires nr == Escaped || NamesPlain(v)
    ensures TypedXml(ls, nr, v) == RenderTyped(Shape(ls, v))
    decreases v, 1
  {
    var keys := IterationOrder(v.members);
    MembersAreMarkup(ls, nr, v, keys);
    assert TypedXml(ls, nr, v) == Tagged("struct", MembersXml(ls, nr, v, keys));
    assert Shape(ls, v) == XStruct(ShapeMembers(ls, v, keys));
  }

  /** The scalar cases: the texts agree because the printed float, base64 and date-time texts are plain. */
  lemma LeafIsMarkup(ls: LeafSyntax, nr: NameRendering, v: Value)
    requires !v.Array? && !v.Struct?
    requires LeafTextsPlain(ls) && DateTimesPlain(v)
    ensures TypedXml(ls, nr, v) == RenderTyped(Shape(ls, v))
  {
    assert TypedXml(ls, nr, v) == Tagged(TypeTag(v), TypedBody(ls, nr, v));
    match v {
      case Bool(b) =>
        assert ShowInt(1) == "1" && ShowInt(0) == "0";
      case Double(d) =>
        assert PlainText(ls.showDouble(d));
      case Base64(bytes) =>
        assert PlainText(ls.encodeBase64(bytes));
      case Int(_) =>
      case String(_) =>
      case DateTime(_) =>
    }
  }

  lemma {:induction false} ItemsAreMarkup(ls: LeafSyntax, nr: NameRendering, items: seq<Value>)
    requires LeafTextsPlain(ls) && forall i :: 0 <= i < |items| ==> DateTimesPlain(items[i])
    requires nr == Escaped || forall i :: 0 <= i < |items| ==> NamesPlain(items[i])
    ensures ItemsXml(ls, nr, items) == RenderValues(ShapeItems(ls, items))
    decreases items, 0
  {
    if items != [] {
      var xs := ShapeItems(ls, items);
      ToXmlIsMarkup(ls, nr, items[0]);
      ItemsAreMarkup(ls, nr, items[1..]);
      assert xs[1..] == ShapeItems(ls, items[1..]);
      ItemsStep(ls, nr, items, RenderXml(xs[0]), RenderValues(xs[1..]));
    }
  }

  /** One step of the item rendering, with the first item's text and the rest's text given. */
  lemma ItemsStep(ls: LeafSyntax, nr: NameRendering, items: seq<Value>, head: string, tail: string)
    requires items != []
    requires ToXml(ls, nr, items[0]) == head && ItemsXml(ls, nr, items[1..]) == tail
    ensures ItemsXml(ls, nr, items) == head + tail
  {
  }

  lemma {:induction false} MembersAreMarkup(ls: LeafSyntax, nr: NameRendering, parent: Value, keys: seq<string>)
    requires parent.Struct? && forall i :: 0 <= i < |keys| ==> keys[i] in parent.members
    requires LeafTextsPlain(ls) && DateTimesPlain(parent)
    requires nr == Escaped || NamesPlain(parent)
    ensures MembersXml(ls, nr, parent, keys) == RenderMembers(ShapeMembers(ls, parent, keys))
    decreases parent, 0, |keys| + 1
  {
    if keys != [] {
      MemberIsMarkup(ls, nr, parent, keys[0]);
      MembersAreMarkup(ls, nr, parent, keys[1..]);
      ShapeMembersSplit(ls, parent, keys);
    }
  }

  lemma {:induction false} MemberIsMarkup(ls: LeafSyntax, nr: NameRendering, parent: Value, k: string)
    requires parent.Struct? && k in parent.members
    requires LeafTextsPlain(ls) && DateTimesPlain(parent)
    requires nr == Escaped || NamesPlain(parent)
    ensures MemberXml(nr, k, ToXml(ls, nr, parent.members[k])) ==
              RenderMember(XmlStructItem(k, Shape(ls, parent.members[k])))
    decreases parent, 0, 0
  {
    ToXmlIsMarkup(ls, nr, parent.members[k]);
    assert NameText(nr, k) == Escape(k, PcData);
  }

  lemma ShapeMembersSplit(ls: LeafSyntax, parent: Value, keys: seq<string>)
    requires parent.Struct? && forall i :: 0 <= i < |keys| ==> keys[i] in parent.members
    requires keys != []
    ensures ShapeMembers(ls, parent, keys) ==
              [XmlStructItem(keys[0], Shape(ls, parent.members[keys[0]]))] + ShapeMembers(ls, parent, keys[1..])
  {
  }

  /** The `param` elements of a parameter list's trees. */
  function RenderParams(xs: seq<XmlValue>): string {
    if xs == [] then "" else Tagged("param", RenderXml(xs[0])) + RenderParams(xs[1..])
  }

  /** The parameter text handed to the call and success templates is the markup of the parameters' trees. */
  lemma {:induction false} ParamsAreMarkup(ls: LeafSyntax, params: seq<Value>)
    requires LeafTextsPlain(ls) && forall i :: 0 <= i < |params| ==> DateTimesPlain(params[i])
    ensures ParamsXml(ls, Escaped, params) == RenderParams(ShapeItems(ls, params))
  {
    if params != [] {
      var xs := ShapeItems(ls, params);
      ToXmlIsMarkup(ls, Escaped, params[0]);
      ParamsAreMarkup(ls, params[1..]);
      assert xs[1..] == ShapeItems(ls, params[1..]);
      ParamsStep(ls, params, RenderXml(xs[0]), RenderParams(xs[1..]));
    }
  }

  /** One step of the parameter rendering, with the first parameter's text and the rest's text given. */
  lemma ParamsStep(ls: LeafSyntax, params: seq<Value>, head: string, tail: string)
    requires params != []
    requires ToXml(ls, Escaped, params[0]) == head && ParamsXml(ls, Escaped, params[1..]) == tail
    ensures ParamsXml(ls, Escaped, params) == Tagged("param", head) + tail
  {
  }

  /** The only name of a one-member struct is the whole iteration order. */
  lemma SingleKeyOrder<V>(k: string, x: V)
    ensures IterationOrder(map[k := x]) == [k]
  {
    var ks := IterationOrder(map[k := x]);
    assert k in ks;
  }

  /**
   * As written, a member name is put into the `name` element unescaped: for
   * the name `<` the rendering holds `<name><</name>` where the markup of the
   * struct holds `<name>&lt;</name>`.
   */
  lemma VerbatimNameIsNotMarkup(ls: LeafSyntax)
    ensures ToXml(ls, Verbatim, Struct(map["<" := Bool(true)])) != RenderXml(Shape(ls, Struct(map["<" := Bool(true)])))
  {
    var inner := ToXml(ls, Verbatim, Bool(true));
    VerbatimNameRendering(ls);
    EscapedNameMarkup(ls);
    EscapedNameIsLonger(inner);
  }

  /** The rendering of the one-member struct, with the name as written. */
  lemma VerbatimNameRendering(ls: LeafSyntax)
    ensures ToXml(ls, Verbatim, Struct(map["<" := Bool(true)]))
         == Tagged("value", Tagged("struct", MemberXml(Verbatim, "<", ToXml(ls, Verbatim, Bool(true)))))
  {
    var v := Struct(map["<" := Bool(true)]);
    SingleKeyOrder("<", Bool(true));
    var inner := ToXml(ls, Verbatim, Bool(true));
    assert MembersXml(ls, Verbatim, v, ["<"]) == MemberXml(Verbatim, "<", inner);
    assert TypedXml(ls, Verbatim, v) == Tagged("struct", MembersXml(ls, Verbatim, v, ["<"]));
  }

  /** The markup of the same struct's tree, with the name escaped. */
  lemma EscapedNameMarkup(ls: LeafSyntax)
    ensures RenderXml(Shape(ls, Struct(map["<" := Bool(true)])))
         == Tagged("value", Tagged("struct", MemberXml(Escaped, "<", ToXml(ls, Verbatim, Bool(true)))))
  {
    var v := Struct(map["<" := Bool(true)]);
    SingleKeyOrder("<", Bool(true));
    TrueIsMarkup(ls, Verbatim);
    var item := XmlStructItem("<", XBool(1));
    assert ShapeMembers(ls, v, ["<"]) == [item];
    assert Shape(ls, v) == XStruct([item]);
    assert RenderMembers([item]) == RenderMember(item);
  }

  lemma TrueIsMarkup(ls: LeafSyntax, nr: NameRendering)
    ensures ToXml(ls, nr, Bool(true)) == RenderXml(XBool(1))
  {
    assert ShowInt(1) == "1";
  }

  lemma EscapedNameIsLonger(valueXml: string)
    ensures |MemberXml(Verbatim, "<", valueXml)| + 3 == |MemberXml(Escaped, "<", valueXml)|
  {
    assert Escape("<", PcData) == "&lt;";
  }
}
