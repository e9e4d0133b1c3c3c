/**
 * The `xmlfmt` serializer (src/xmlfmt/ser.rs): serde's data model is turned
 * into a `Value`. Only booleans, `i32`, `f64`, strings, bytes, unit,
 * sequences, maps with string keys and structs are supported; every other
 * shape fails with `UnsupportedData` naming it.
 */
module XmlfmtSer {
  import opened Wrappers
  import opened TextSyntax
  import opened HashMaps
  import V = XmlfmtValue

  /** serde's data model: one constructor per `serialize_*` method of `Serializer`. */
  datatype Data =
    | Bool(b: bool)
    | I8(n: int)
    | I16(n: int)
    | I32(i: i32)
    | I64(n: int)
    | U8(n: int)
    | U16(n: int)
    | U32(n: int)
    | U64(n: int)
    | F32(f: bv32)
    | F64(d: Float64)
    | Char(c: char)
    | Str(s: string)
    | Bytes(bytes: seq<u8>)
    | NoneValue
    | SomeValue(inner: Data)
    | Unit
    | UnitStruct(name: string)
    | UnitVariant(name: string, index: nat, variant: string)
    | NewtypeStruct(name: string, inner: Data)
    | NewtypeVariant(name: string, index: nat, variant: string, inner: Data)
    | Seq(items: seq<Data>)
    | Tuple(items: seq<Data>)
    | TupleStruct(name: string, items: seq<Data>)
    | TupleVariant(name: string, index: nat, variant: string, items: seq<Data>)
    | Map(entries: seq<(Data, Data)>)
    | Struct(name: string, fields: seq<(string, Data)>)
    | StructVariant(name: string, index: nat, variant: string, fields: seq<(string, Data)>)

  const KeyNotString := "Key must be a string."

  /** `to_value`: what `value.serialize(Serializer)` produces. Every failure is an `UnsupportedData`. */
  function Encode(d: Data): (r: Result<V.Value, V.Error>)
    ensures r.Err? ==> r.error.UnsupportedData?
    decreases d, 1
  {
    match d
    case Bool(b) => Ok(V.Bool(b))
    case I8(_) => Err(V.UnsupportedData("i8"))
    case I16(_) => Err(V.UnsupportedData("i16"))
    case I32(i) => Ok(V.Int(i))
    case I64(_) => Err(V.UnsupportedData("i64"))
    case U8(_) => Err(V.UnsupportedData("u8"))
    case U16(_) => Err(V.UnsupportedData("u16"))
    case U32(_) => Err(V.UnsupportedData("u32"))
    case U64(_) => Err(V.UnsupportedData("u64"))
    case F32(_) => Err(V.UnsupportedData("f32"))
    case F64(x) => Ok(V.Double(x))
    case Char(_) => Err(V.UnsupportedData("char"))
    case Str(s) => Ok(V.String(s))
    case Bytes(bytes) => Ok(V.Base64(bytes))
    case NoneValue => Err(V.UnsupportedData("None"))
    case SomeValue(_) => Err(V.UnsupportedData("Some"))
    case Unit => Ok(V.Struct(map[]))
    case UnitStruct(_) => Ok(V.Struct(map[]))
    case UnitVariant(_, _, _) => Err(V.UnsupportedData("Unit Variant"))
    case NewtypeStruct(_, _) => Err(V.UnsupportedData("Newtype Struct"))
    case NewtypeVariant(_, _, _, _) => Err(V.UnsupportedData("Newtype Variant"))
    case Seq(items) => ArrayOf(EncodeItems(items))
    case Tuple(items) => ArrayOf(EncodeItems(items))
    case TupleStruct(_, items) => ArrayOf(EncodeItems(items))
    case TupleVariant(_, _, _, _) => Err(V.UnsupportedData("Tuple Variant"))
    case Map(entries) => StructOf(EncodeEntries(entries))
    case Struct(_, fields) => StructOf(EncodeFields(fields))
    case StructVariant(_, _, _, _) => Err(V.UnsupportedData("Struct Variant"))
  }

  /** `SerializeVec::end`, or the error that stopped it. */
  function ArrayOf(r: Result<seq<V.Value>, V.Error>): Result<V.Value, V.Error> {
    match r
    case Err(e) => Err(e)
    case Ok(vs) => Ok(V.Array(vs))
  }

  /** `SerializeMap::end`, or the error that stopped it. */
  function StructOf(r: Result<map<string, V.Value>, V.Error>): Result<V.Value, V.Error> {
    match r
    case Err(e) => Err(e)
    case Ok(m) => Ok(V.Struct(m))
  }

  /** The elements pushed by `serialize_element`, in order, or the first error. */
  function EncodeItems(items: seq<Data>): (r: Result<seq<V.Value>, V.Error>)
    ensures r.Err? ==> r.error.UnsupportedData?
    decreases items, 0
  {
    if items == [] then Ok([])
    else
      match EncodeItems(items[..|items| - 1])
      case Err(e) => Err(e)
      case Ok(vs) =>
        match Encode(items[|items| - 1])
        case Err(e) => Err(e)
        case Ok(v) => Ok(vs + [v])
  }

  /** `serialize_key` then `serialize_value`: the key must encode to a string. */
  function EncodeEntry(entry: (Data, Data)): (r: Result<(string, V.Value), V.Error>)
    ensures r.Err? ==> r.error.UnsupportedData?
    decreases entry, 2
  {
    match Encode(entry.0)
    case Err(e) => Err(e)
    case Ok(k) =>
      if !k.String? then Err(V.UnsupportedData(KeyNotString))
      else
        match Encode(entry.1)
        case Err(e) => Err(e)
        case Ok(v) => Ok((k.s, v))
  }

  /** The map built by the entries in order (`insert` replaces an earlier key), or the first error. */
  function EncodeEntries(entries: seq<(Data, Data)>): (r: Result<map<string, V.Value>, V.Error>)
    ensures r.Err? ==> r.error.UnsupportedData?
    decreases entries, 0
  {
    if entries == [] then Ok(map[])
    else
      match EncodeEntries(entries[..|entries| - 1])
      case Err(e) => Err(e)
      case Ok(m) =>
        match EncodeEntry(entries[|entries| - 1])
        case Err(e) => Err(e)
        case Ok(p) => Ok(m[p.0 := p.1])
  }

  /** `SerializeStruct::serialize_field`: the field name always encodes to a string. */
  function EncodeField(field: (string, Data)): (r: Result<(string, V.Value), V.Error>)
    ensures r.Err? ==> r.error.UnsupportedData?
    decreases field, 2
  {
    match Encode(field.1)
    case Err(e) => Err(e)
    case Ok(v) => Ok((field.0, v))
  }

  function EncodeFields(fields: seq<(string, Data)>): (r: Result<map<string, V.Value>, V.Error>)
    ensures r.Err? ==> r.error.UnsupportedData?
    decreases fields, 0
  {
    if fields == [] then Ok(map[])
    else
      match EncodeFields(fields[..|fields| - 1])
      case Err(e) => Err(e)
      case Ok(m) =>
        match EncodeField(fields[|fields| - 1])
        case Err(e) => Err(e)
        case Ok(p) => Ok(m[p.0 := p.1])
  }

  // ---------------------------------------------------------------------------
  // What is supported

  /** The shapes the serializer accepts, stated on their own. */
  predicate Supported(d: Data)
    decreases d, 1
  {
    match d
    case Bool(_) => true
    case I32(_) => true
    case F64(_) => true
    case Str(_) => true
    case Bytes(_) => true
    case Unit => true
    case UnitStruct(_) => true
    case Seq(items) => ItemsSupported(items)
    case Tuple(items) => ItemsSupported(items)
    case TupleStruct(_, items) => ItemsSupported(items)
    case Map(entries) => forall i :: 0 <= i < |entries| ==> EntrySupported(entries[i])
    case Struct(_, fields) => forall i :: 0 <= i < |fields| ==> FieldSupported(fields[i])
    case _ => false
  }

  predicate ItemsSupported(items: seq<Data>)
    decreases items, 0
  {
    forall i :: 0 <= i < |items| ==> Supported(items[i])
  }

  /** A map entry is accepted when its key is a string and its value is supported. */
  predicate EntrySupported(entry: (Data, Data))
    decreases entry, 2
  {
    entry.0.Str? && Supported(entry.1)
  }

  predicate FieldSupported(field: (string, Data))
    decreases field, 2
  {
    Supported(field.1)
  }

  /** Serializing succeeds exactly on the supported shapes. */
  lemma {:induction false} EncodeSucceedsIff(d: Data)
    ensures Encode(d).Ok? <==> Supported(d)
    decreases d, 1
  {
    if d.Seq? || d.Tuple? || d.TupleStruct? {
      ItemsSucceedIff(d.items);
    } else if d.Map? {
      EntriesSucceedIff(d.entries);
    } else if d.Struct? {
      FieldsSucceedIff(d.fields);
    } else {
      LeafSucceedsIff(d);
    }
  }

  /** The shapes with no nested data: exactly the scalars `bool`, `i32`, `f64`, `str`, bytes and unit succeed. */
  lemma LeafSucceedsIff(d: Data)
    requires !(d.Seq? || d.Tuple? || d.TupleStruct? || d.Map? || d.Struct?)
    ensures Encode(d).Ok? <==> (d.Bool? || d.I32? || d.F64? || d.Str? || d.Bytes? || d.Unit? || d.UnitStruct?)
    ensures Supported(d) <==> (d.Bool? || d.I32? || d.F64? || d.Str? || d.Bytes? || d.Unit? || d.UnitStruct?)
  {
  }

  lemma {:induction false} ItemsSucceedIff(items: seq<Data>)
    ensures EncodeItems(items).Ok? <==> ItemsSupported(items)
    decreases items, 0
  {
    if items != [] {
      var init := items[..|items| - 1];
      ItemsSucceedIff(init);
      EncodeSucceedsIff(items[|items| - 1]);
      assert ItemsSupported(items) <==> ItemsSupported(init) && Supported(items[|items| - 1]) by {
        if ItemsSupported(init) && Supported(items[|items| - 1]) {
          forall i | 0 <= i < |items| ensures Supported(items[i]) {
            if i < |init| {
              assert items[i] == init[i];
            }
          }
        }
        if ItemsSupported(items) {
          forall i | 0 <= i < |init| ensures Supported(init[i]) {
            assert init[i] == items[i];
          }
        }
      }
    }
  }

  lemma {:induction false} EntrySucceedsIff(entry: (Data, Data))
    ensures EncodeEntry(entry).Ok? <==> EntrySupported(entry)
    decreases entry, 2
  {
    EncodeSucceedsIff(entry.0);
    EncodeSucceedsIff(entry.1);
  }

  lemma {:induction false} EntriesSucceedIff(entries: seq<(Data, Data)>)
    ensures EncodeEntries(entries).Ok? <==> forall i :: 0 <= i < |entries| ==> EntrySupported(entries[i])
    decreases entries, 0
  {
    if entries != [] {
      var init := entries[..|entries| - 1];
      EntriesSucceedIff(init);
      EntrySucceedsIff(entries[|entries| - 1]);
      if forall i :: 0 <= i < |init| ==> EntrySupported(init[i]) {
        if EntrySupported(entries[|entries| - 1]) {
          forall i | 0 <= i < |entries| ensures EntrySupported(entries[i]) {
            if i < |init| {
              assert entries[i] == init[i];
            }
          }
        }
      }
      if forall i :: 0 <= i < |entries| ==> EntrySupported(entries[i]) {
        forall i | 0 <= i < |init| ensures EntrySupported(init[i]) {
          assert init[i] == entries[i];
        }
      }
    }
  }

  lemma {:induction false} FieldSucceedsIff(field: (string, Data))
    ensures EncodeField(field).Ok? <==> FieldSupported(field)
    decreases field, 2
  {
    EncodeSucceedsIff(field.1);
  }

  lemma {:induction false} FieldsSucceedIff(fields: seq<(string, Data)>)
    ensures EncodeFields(fields).Ok? <==> forall i :: 0 <= i < |fields| ==> FieldSupported(fields[i])
    decreases fields, 0
  {
    if fields != [] {
      var init := fields[..|fields| - 1];
      FieldsSucceedIff(init);
      FieldSucceedsIff(fields[|fields| - 1]);
      if forall i :: 0 <= i < |init| ==> FieldSupported(init[i]) {
        if FieldSupported(fields[|fields| - 1]) {
          forall i | 0 <= i < |fields| ensures FieldSupported(fields[i]) {
            if i < |init| {
              assert fields[i] == init[i];
            }
          }
        }
      }
      if forall i :: 0 <= i < |fields| ==> FieldSupported(fields[i]) {
        forall i | 0 <= i < |init| ensures FieldSupported(init[i]) {
          assert init[i] == fields[i];
        }
      }
    }
  }

  // ---------------------------------------------------------------------------
  // Order, abort and last-wins

  /** Each item encodes to the value at its place in `vs`. */
  ghost predicate EncodesTo(items: seq<Data>, vs: seq<V.Value>) {
    |vs| == |items| && forall i :: 0 <= i < |items| ==> Encode(items[i]) == Ok(vs[i])
  }

  lemma EncodesToSplit(items: seq<Data>, vs: seq<V.Value>)
    requires items != [] && |vs| == |items|
    ensures EncodesTo(items, vs) <==>
              EncodesTo(items[..|items| - 1], vs[..|vs| - 1]) && Encode(items[|items| - 1]) == Ok(vs[|vs| - 1])
  {
    var n := |items| - 1;
    if EncodesTo(items[..n], vs[..n]) && Encode(items[n]) == Ok(vs[n]) {
      forall i | 0 <= i < |items| ensures Encode(items[i]) == Ok(vs[i]) {
        if i < n {
          assert items[..n][i] == items[i] && vs[..n][i] == vs[i];
        }
      }
    }
  }

  /** A sequence encodes to `vs` exactly when each element encodes to the value at its place in `vs`. */
  lemma {:induction false} EncodeItemsOk(items: seq<Data>, vs: seq<V.Value>)
    ensures EncodeItems(items) == Ok(vs) <==> EncodesTo(items, vs)
    decreases |items|
  {
    if items == [] {
    } else if |vs| != |items| {
      EncodeItemsLength(items);
    } else {
      var n := |items| - 1;
      EncodeItemsOk(items[..n], vs[..n]);
      EncodesToSplit(items, vs);
      if EncodeItems(items) == Ok(vs) {
        EncodeItemsLength(items[..n]);
        assert EncodeItems(items[..n]).value + [Encode(items[n]).value] == vs;
        assert vs[..n] == EncodeItems(items[..n]).value;
      }
      if EncodesTo(items, vs) {
        assert vs[..n] + [vs[n]] == vs;
      }
    }
  }

  lemma {:induction false} EncodeItemsLength(items: seq<Data>)
    ensures EncodeItems(items).Ok? ==> |EncodeItems(items).value| == |items|
    decreases |items|
  {
    if items != [] {
      EncodeItemsLength(items[..|items| - 1]);
    }
  }

  /** An element that fails aborts the sequence: the first failing element's error is the result. */
  lemma {:induction false} EncodeItemsFirstError(items: seq<Data>, i: int)
    requires 0 <= i < |items| && Encode(items[i]).Err?
    requires forall j :: 0 <= j < i ==> Encode(items[j]).Ok?
    ensures EncodeItems(items) == Err(Encode(items[i]).error)
    decreases |items|
  {
    var init := items[..|items| - 1];
    if i < |items| - 1 {
      assert init[i] == items[i];
      EncodeItemsFirstError(init, i);
    } else {
      var vs := seq(|init|, j requires 0 <= j < |init| => Encode(init[j]).value);
      assert EncodesTo(init, vs) by {
        forall j | 0 <= j < |init| ensures Encode(init[j]) == Ok(vs[j]) {
          assert init[j] == items[j];
        }
      }
      EncodeItemsOk(init, vs);
    }
  }

  /** `pairs` holds each entry's key string and encoded value, in order. */
  ghost predicate EntriesEncode(entries: seq<(Data, Data)>, pairs: seq<(string, V.Value)>) {
    |pairs| == |entries| &&
    forall i :: 0 <= i < |entries| ==> entries[i].0 == Str(pairs[i].0) && Encode(entries[i].1) == Ok(pairs[i].1)
  }

  /** When every entry encodes, the map is what the pairs collect to: a repeated key keeps its last value. */
  lemma {:induction false} EncodeEntriesCollect(entries: seq<(Data, Data)>, pairs: seq<(string, V.Value)>)
    requires EntriesEncode(entries, pairs)
    ensures EncodeEntries(entries) == Ok(Collect(pairs))
    decreases |entries|
  {
    if entries != [] {
      var n := |entries| - 1;
      EntriesEncodePrefix(entries, pairs, n);
      EncodeEntriesCollect(entries[..n], pairs[..n]);
      EntryEncodes(entries[n], pairs[n]);
      assert EncodeEntries(entries) == Ok(Collect(pairs[..n])[pairs[n].0 := pairs[n].1]);
    }
  }

  lemma EntriesEncodePrefix(entries: seq<(Data, Data)>, pairs: seq<(string, V.Value)>, n: int)
    requires EntriesEncode(entries, pairs) && 0 <= n <= |entries|
    ensures EntriesEncode(entries[..n], pairs[..n])
  {
    forall i | 0 <= i < n
      ensures entries[..n][i].0 == Str(pairs[..n][i].0) && Encode(entries[..n][i].1) == Ok(pairs[..n][i].1)
    {
      assert entries[..n][i] == entries[i] && pairs[..n][i] == pairs[i];
    }
  }

  lemma EntryEncodes(entry: (Data, Data), pair: (string, V.Value))
    requires entry.0 == Str(pair.0) && Encode(entry.1) == Ok(pair.1)
    ensures EncodeEntry(entry) == Ok(pair)
  {
    assert Encode(entry.0) == Ok(V.String(pair.0));
  }

  /** A non-string key stops the map with "Key must be a string." when everything before it encodes. */
  lemma KeyMustBeString(entries: seq<(Data, Data)>, pairs: seq<(string, V.Value)>, key: Data, value: Data)
    requires EntriesEncode(entries, pairs)
    requires Encode(key).Ok? && !Encode(key).value.String?
    ensures EncodeEntries(entries + [(key, value)]) == Err(V.UnsupportedData(KeyNotString))
  {
    EncodeEntriesCollect(entries, pairs);
    assert (entries + [(key, value)])[..|entries|] == entries;
  }

  // ---------------------------------------------------------------------------
  // The serializer states

  /** `SerializeVec`: the values of the elements serialized so far. */
  class SerializeVec {
    var vec: seq<V.Value>

    /** `serialize_tuple(len)` (and `serialize_seq`, `serialize_tuple_struct`): capacity only. */
    constructor (len: nat)
      ensures vec == []
    {
      vec := [];
    }

    /** `serialize_element`: push the element's value, or fail and leave the vector as it was. */
    method SerializeElement(value: Data) returns (r: Result<(), V.Error>)
      modifies this
      ensures r.Ok? <==> Encode(value).Ok?
      ensures r.Ok? ==> vec == old(vec) + [Encode(value).value]
      ensures r.Err? ==> r.error == Encode(value).error && vec == old(vec)
    {
      var v := Encode(value);
      if v.Err? {
        return Err(v.error);
      }
      vec := vec + [v.value];
      return Ok(());
    }

    /** `end`: the array of the pushed values. */
    method End() returns (v: V.Value)
      ensures v == V.Array(vec)
    {
      return V.Array(vec);
    }
  }

  /** `SerializeMap`: the members so far, and the key waiting for its value. */
  class SerializeMap {
    var members: map<string, V.Value>
    var nextKey: Option<string>

    /** `serialize_map` (and `serialize_struct`): no members and no pending key. */
    constructor ()
      ensures members == map[] && nextKey == None
    {
      members := map[];
      nextKey := None;
    }

    /** `serialize_key`: a key that encodes to a string becomes the pending key; any other key fails. */
    method SerializeKey(key: Data) returns (r: Result<(), V.Error>)
      modifies this
      ensures members == old(members)
      ensures Encode(key).Ok? && Encode(key).value.String? ==> r == Ok(()) && nextKey == Some(Encode(key).value.s)
      ensures Encode(key).Ok? && !Encode(key).value.String? ==>
                r == Err(V.UnsupportedData(KeyNotString)) && nextKey == old(nextKey)
      ensures Encode(key).Err? ==> r == Err(Encode(key).error) && nextKey == old(nextKey)
    {
      var k := Encode(key);
      if k.Err? {
        return Err(k.error);
      }
      if !k.value.String? {
        return Err(V.UnsupportedData(KeyNotString));
      }
      nextKey := Some(k.value.s);
      return Ok(());
    }

    /**
     * `serialize_value`: the pending key is taken (the source panics when
     * there is none), then the value is inserted under it, replacing an
     * earlier value; on failure nothing is inserted but the key is gone.
     */
    method SerializeValue(value: Data) returns (r: Result<(), V.Error>)
      requires nextKey.Some?
      modifies this
      ensures nextKey == None
      ensures r.Ok? <==> Encode(value).Ok?
      ensures r.Ok? ==> members == old(members)[old(nextKey).value := Encode(value).value]
      ensures r.Err? ==> r.error == Encode(value).error && members == old(members)
    {
      var key := nextKey.value;
      nextKey := None;
      var v := Encode(value);
      if v.Err? {
        return Err(v.error);
      }
      members := members[key := v.value];
      return Ok(());
    }

    /** `SerializeStruct::serialize_field`: the field name as the key, then the value. */
    method SerializeField(key: string, value: Data) returns (r: Result<(), V.Error>)
      modifies this
      ensures nextKey == None
      ensures r.Ok? <==> Encode(value).Ok?
      ensures r.Ok? ==> members == old(members)[key := Encode(value).value]
      ensures r.Err? ==> r.error == Encode(value).error && members == old(members)
    {
      var k := SerializeKey(Str(key));
      r := SerializeValue(value);
    }

    /** `end`: the struct of the inserted members. */
    method End() returns (v: V.Value)
      ensures v == V.Struct(members)
    {
      return V.Struct(members);
    }
  }

  /** `SerializeFail`: tuple and struct variants are refused before it is built; its methods fail anyway. */
  class SerializeFail {
    /** Present only to mirror the source's type: no input reaches it. */
    constructor () {
    }

    method SerializeField(value: Data) returns (r: Result<(), V.Error>)
      ensures r == Err(V.Msg("Fail"))
    {
      return Err(V.Msg("Fail"));
    }

    method End() returns (r: Result<V.Value, V.Error>)
      ensures r == Err(V.Msg("Fail"))
    {
      return Err(V.Msg("Fail"));
    }
  }

  // ---------------------------------------------------------------------------
  // Driving the states as serde does

  lemma EncodeItemsStep(items: seq<Data>, i: int)
    requires 0 <= i < |items|
    ensures EncodeItems(items[..i + 1]) ==
              match EncodeItems(items[..i])
              case Err(e) => Err(e)
              case Ok(vs) => (match Encode(items[i]) case Err(e) => Err(e) case Ok(v) => Ok(vs + [v]))
  {
    assert items[..i + 1][..i] == items[..i];
  }

  /** Once a prefix of the elements fails, the whole sequence fails with that error. */
  lemma {:induction false} EncodeItemsErrPersists(items: seq<Data>, n: int)
    requires 0 <= n <= |items| && EncodeItems(items[..n]).Err?
    ensures EncodeItems(items) == EncodeItems(items[..n])
    decreases |items| - n
  {
    if n < |items| {
      EncodeItemsStep(items, n);
      EncodeItemsErrPersists(items, n + 1);
    } else {
      assert items[..n] == items;
    }
  }

  /** A sequence's `Serialize`: `serialize_seq`, one `serialize_element` per item (stopping at an error), `end`. */
  method SerializeSequence(items: seq<Data>) returns (r: Result<V.Value, V.Error>)
    ensures r == Encode(Seq(items))
  {
    var s := new SerializeVec(|items|);
    var i := 0;
    while i < |items|
      invariant 0 <= i <= |items|
      invariant EncodeItems(items[..i]) == Ok(s.vec)
    {
      EncodeItemsStep(items, i);
      var res := s.SerializeElement(items[i]);
      if res.Err? {
        EncodeItemsErrPersists(items, i + 1);
        return Err(res.error);
      }
      i := i + 1;
    }
    assert items[..i] == items;
    var value := s.End();
    return Ok(value);
  }

  lemma EncodeEntriesStep(entries: seq<(Data, Data)>, i: int)
    requires 0 <= i < |entries|
    ensures EncodeEntries(entries[..i + 1]) ==
              match EncodeEntries(entries[..i])
              case Err(e) => Err(e)
              case Ok(m) => (match EncodeEntry(entries[i]) case Err(e) => Err(e) case Ok(p) => Ok(m[p.0 := p.1]))
  {
    assert entries[..i + 1][..i] == entries[..i];
  }

  lemma {:induction false} EncodeEntriesErrPersists(entries: seq<(Data, Data)>, n: int)
    requires 0 <= n <= |entries| && EncodeEntries(entries[..n]).Err?
    ensures EncodeEntries(entries) == EncodeEntries(entries[..n])
    decreases |entries| - n
  {
    if n < |entries| {
      EncodeEntriesStep(entries, n);
      EncodeEntriesErrPersists(entries, n + 1);
    } else {
      assert entries[..n] == entries;
    }
  }

  /** A map's `Serialize`: `serialize_map`, then `serialize_key` and `serialize_value` per entry, then `end`. */
  method SerializeMapEntries(entries: seq<(Data, Data)>) returns (r: Result<V.Value, V.Error>)
    ensures r == Encode(Map(entries))
  {
    var s := new SerializeMap();
    var i := 0;
    while i < |entries|
      invariant 0 <= i <= |entries|
      invariant EncodeEntries(entries[..i]) == Ok(s.members)
      invariant s.nextKey == None
    {
      EncodeEntriesStep(entries, i);
      var k := s.SerializeKey(entries[i].0);
      if k.Err? {
        assert EncodeEntry(entries[i]) == Err(k.error);
        EncodeEntriesErrPersists(entries, i + 1);
        return Err(k.error);
      }
      var v := s.SerializeValue(entries[i].1);
      if v.Err? {
        assert EncodeEntry(entries[i]) == Err(v.error);
        EncodeEntriesErrPersists(entries, i + 1);
        return Err(v.error);
      }
      assert EncodeEntries(entries[..i + 1]) == Ok(s.members);
      i := i + 1;
    }
    assert entries[..i] == entries;
    var value := s.End();
    return Ok(value);
  }

  lemma EncodeFieldsStep(fields: seq<(string, Data)>, i: int)
    requires 0 <= i < |fields|
    ensures EncodeFields(fields[..i + 1]) ==
              match EncodeFields(fields[..i])
              case Err(e) => Err(e)
              case Ok(m) => (match EncodeField(fields[i]) case Err(e) => Err(e) case Ok(p) => Ok(m[p.0 := p.1]))
  {
    assert fields[..i + 1][..i] == fields[..i];
  }

  lemma {:induction false} EncodeFieldsErrPersists(fields: seq<(string, Data)>, n: int)
    requires 0 <= n <= |fields| && EncodeFields(fields[..n]).Err?
    ensures EncodeFields(fields) == EncodeFields(fields[..n])
    decreases |fields| - n
  {
    if n < |fields| {
      EncodeFieldsStep(fields, n);
      EncodeFieldsErrPersists(fields, n + 1);
    } else {
      assert fields[..n] == fields;
    }
  }

  /** A derived struct's `Serialize`: `serialize_struct`, one `serialize_field` per field, then `end`. */
  method SerializeStructFields(name: string, fields: seq<(string, Data)>) returns (r: Result<V.Value, V.Error>)
    ensures r == Encode(Struct(name, fields))
  {
    var s := new SerializeMap();
    var i := 0;
    while i < |fields|
      invariant 0 <= i <= |fields|
      invariant EncodeFields(fields[..i]) == Ok(s.members)
    {
      EncodeFieldsStep(fields, i);
      var f := s.SerializeField(fields[i].0, fields[i].1);
      if f.Err? {
        EncodeFieldsErrPersists(fields, i + 1);
        return Err(f.error);
      }
      i := i + 1;
    }
    assert fields[..i] == fields;
    var value := s.End();
    return Ok(value);
  }

  /** `pairs` holds each field's name and encoded value, in order. */
  ghost predicate FieldsEncode(fields: seq<(string, Data)>, pairs: seq<(string, V.Value)>) {
    |pairs| == |fields| &&
    forall i :: 0 <= i < |fields| ==> fields[i].0 == pairs[i].0 && Encode(fields[i].1) == Ok(pairs[i].1)
  }

  /** When every field encodes, the struct's members are what the pairs collect to: each name keeps its last value. */
  lemma {:induction false} EncodeFieldsCollect(fields: seq<(string, Data)>, pairs: seq<(string, V.Value)>)
    requires FieldsEncode(fields, pairs)
    ensures EncodeFields(fields) == Ok(Collect(pairs))
    decreases |fields|
  {
    if fields != [] {
      var n := |fields| - 1;
      assert FieldsEncode(fields[..n], pairs[..n]) by {
        forall i | 0 <= i < n
          ensures fields[..n][i].0 == pairs[..n][i].0 && Encode(fields[..n][i].1) == Ok(pairs[..n][i].1)
        {
          assert fields[..n][i] == fields[i] && pairs[..n][i] == pairs[i];
        }
      }
      EncodeFieldsCollect(fields[..n], pairs[..n]);
      assert EncodeField(fields[n]) == Ok(pairs[n]);
      assert EncodeFields(fields) == Ok(Collect(pairs[..n])[pairs[n].0 := pairs[n].1]);
    }
  }

  /** A struct whose fields all encode has exactly the field names as member names, each holding its encoded value. */
  lemma StructMembers(name: string, fields: seq<(string, Data)>, pairs: seq<(string, V.Value)>)
    requires FieldsEncode(fields, pairs)
    requires forall i, j :: 0 <= i < j < |fields| ==> fields[i].0 != fields[j].0
    ensures Encode(Struct(name, fields)).Ok? && Encode(Struct(name, fields)).value.Struct?
    ensures forall k :: k in Encode(Struct(name, fields)).value.members <==> exists i :: 0 <= i < |fields| && fields[i].0 == k
    ensures forall i :: 0 <= i < |fields| ==> Encode(Struct(name, fields)).value.members[fields[i].0] == pairs[i].1
  {
    var m := Collect(pairs);
    EncodeFieldsCollect(fields, pairs);
    assert Encode(Struct(name, fields)) == Ok(V.Struct(m));
    assert forall i :: 0 <= i < |pairs| ==> pairs[i].0 == fields[i].0;
    CollectDistinctKeys(pairs);
  }
}
