# xml-rpc-rs codec core in Dafny

This project models the XML-RPC codec of the `xml-rpc-rs` crate. It also
proves what the codec promises: the tree of what is written reads back as the
value written, errors happen in the cases the code names, and the last member
with a given name wins. Both of
the crate's codec generations are covered.

**The current codec** (`src/value.rs`, `src/messages.rs`, `src/util.rs`)
- Reading walks a document already parsed by roxmltree. `XmlTree.Node` is the
  parsed tree.
- Writing emits tokens through quick-xml's `Writer`. The model has the class
  `XmlTree.Writer`, whose `tokens` sequence only grows.
- The readers are loops over children (`RpcValue.ReadXml`,
  `RpcValue.ReadStruct`, `Messages.ReadParams`, `Messages.FaultFromMembers`
  and others). Each is proved equal to a recursive specification function.
  The lemmas are stated about those functions.
- The writers are methods that append to the `Writer`. Each is proved to
  append exactly the tokens of a specification function.
  `RpcValue.ValueTokensMarkup`, `Messages.RequestTokensMarkup` and
  `Messages.ResponseTokensMarkup` show that those tokens spell the markup of
  a tree (`XmlTree.Markup`). The `ReadWritten*` lemmas read that tree back.

**The older `xmlfmt` codec** (`src/xmlfmt/value.rs`, `parse.rs`, `ser.rs`)
- `XmlfmtValue.ToXml` renders a value with `format!` strings.
- `XmlfmtParse` converts the trees serde_xml_rs builds (`XmlValue`,
  `XmlCall`, `XmlResponseResult`) into values. It then applies the
  parameter-count convention of `call` and `response`.
- `XmlfmtSer` is the serde `Serializer`. The function `Encode` maps serde's
  data model (`Data`) to a `Value`. The classes `SerializeVec`,
  `SerializeMap` and `SerializeFail` are the serializer's mutable states. The
  methods `SerializeSequence`, `SerializeMapEntries` and
  `SerializeStructFields` drive those states as serde does, and are proved to
  produce `Encode`'s result.

**Shared modules**
- `TextSyntax`: Rust's `i32` and `u8` with their decimal syntax, and
  XML escaping.
- `HashMaps`: `HashMap` built by insertion (`Collect`), and an iteration
  order that is left unspecified.
- `Wrappers`: `Option` and `Result`.

**Leaf text syntaxes.** Floating-point text, RFC 3339 date-times and base64
are printed and parsed by other crates. They are a parameter, `LeafSyntax`. The
round-trip lemmas hold for values whose leaves read back from their printed
text (`LeavesRoundTrip`). Not every leaf does: see "## Left out".

**Behaviours of the code worth noting (the model follows the code):**
- The current reader rejects `<int>`. Only `<i4>` reads as an integer;
  `<int>` gives `InvalidChildTag("int")`.
- An empty `<value/>` is an error (`NoValidChild`), not an empty string.
- Text before the typed element is not skipped. The first text child, even
  whitespace, makes the value a string (`RpcValue.WhitespaceBeforeElement`).
- `None`, `Some`, unit variants, newtype variants and the other unsupported
  shapes are refused by the `xmlfmt` serializer with `UnsupportedData`. They
  are not encoded as arrays or one-member structs.

## Model

| member | source | states |
|---|---|---|
| TextSyntax.ParseShowInt | src/value.rs:118 | every `i32` printed in decimal parses back with `str::parse` to the same integer |
| TextSyntax.ParseU8Examples | src/value.rs:119 | boolean text parsed as `u8` accepts `0` and `1`, and rejects `256`, `-0` and `true` |
| TextSyntax.Escape | src/xmlfmt/value.rs:109-111 | escaped text never contains `<`, so it cannot open markup; with quick-xml's entity set it contains no `>` either |
| TextSyntax.EscapeAmpersands | src/xmlfmt/value.rs:110 | every `&` in escaped text starts an entity reference, as section 2.4 of XML 1.0 requires of character data |
| TextSyntax.ShowInt | src/value.rs:167 | decimal text starts with `-` exactly for a negative number; the rest is digits |
| TextSyntax.ParseI32 | src/value.rs:118 | an `i32` is read only from an optionally signed run of digits, and a negative one only from text starting with `-` |
| TextSyntax.ParseU8 | src/value.rs:119 | a `u8` is read only from digits with at most a leading `+` |
| TextSyntax.UnescapeEscape | src/value.rs:173-176 | replacing entities in escaped text gives the original text back, for both entity sets |
| TextSyntax.EscapePlainText | src/xmlfmt/value.rs:110 | text with no `<`, `>`, `&` or quotes is unchanged by escaping |
| XmlTree.FirstChildNamed | src/value.rs:86-93 | the scan finds an element child with the name; it finds none exactly when no child has that name |
| XmlTree.FirstChildNamedIsFirst | src/value.rs:87-91 | the child found comes before every other child with the name |
| XmlTree.TextElementMarkup | src/value.rs:165-168 | the tokens of a text element spell an element holding one text node, or no node for empty text |
| XmlTree.Writer.WriteDeclaration | src/messages.rs:31-34 | appends the XML declaration and nothing else |
| XmlTree.Writer.WriteStart | src/value.rs:162-164 | appends the start tag of the element and nothing else |
| XmlTree.Writer.WriteEnd | src/value.rs:219-220 | appends the end tag of the element and nothing else |
| XmlTree.Writer.WriteTextElement | src/value.rs:165-168 | appends a start tag, the escaped text and the end tag |
| Util.FirstText | src/util.rs:3-10 | with no text child, the literal text is empty |
| Util.FirstTextFound | src/util.rs:4-7 | the literal text is the first text child's text, or empty when that child carries none |
| Util.FirstTextIgnoresOtherChildren | src/util.rs:3-10 | element and comment children never change the literal text |
| Util.NestedTextNotFound | src/util.rs:4-6 | text inside a child element is not found |
| HashMaps.Collect | src/messages.rs:131 | a map never has more entries than pairs, and the last pair's key holds the last pair's value |
| HashMaps.CollectHasKeys | src/messages.rs:131 | collecting pairs into a hash map keeps every key |
| HashMaps.CollectOnlyKeys | src/messages.rs:131 | the collected map has no key that no pair carries |
| HashMaps.CollectLastWins | src/messages.rs:131 | a key holds the value of the last pair that carries it |
| HashMaps.CollectDistinctKeys | src/xmlfmt/ser.rs:283-289 | pairs with distinct keys collect into a map holding exactly their keys, each with its own pair's value |
| HashMaps.CollectAppendOther | src/messages.rs:131-137 | pairs with other keys leave a key's presence and value unchanged |
| HashMaps.IterationOrder | src/xmlfmt/value.rs:125 | hash-map iteration visits every key exactly once |
| HashMaps.CollectDistinct | src/xmlfmt/parse.rs:241-247 | a map's entries, listed with distinct keys, collect back into the same map |
| RpcValue.FirstContent | src/value.rs:112-116 | the deciding child is the first text or element child; there is none exactly when every child is a comment |
| RpcValue.ReadValue | src/value.rs:105-116 | a node reads only when it is a `value` element with a text or element child |
| RpcValue.ReadTyped | src/value.rs:117-155 | a value read from a typed element has that element's tag as its type; its failures are never the wrong-tag or no-child errors |
| RpcValue.ArrayItems | src/value.rs:126-139 | an array without a `data` child is empty; otherwise it has at most as many items as `data` has children |
| RpcValue.ReadTypedTags | src/value.rs:117-154 | a typed element that reads has the value's own type tag; an unknown tag, and only that, gives the invalid-tag error |
| RpcValue.ReadValueErrors | src/value.rs:105-159 | the wrong-tag error happens exactly when the node is not `value`; "no valid child" happens exactly when all children are comments |
| RpcValue.ReadXml | src/value.rs:105-159 | the reading loop returns what the reader specification gives |
| RpcValue.ReadChild | src/value.rs:117-155 | dispatch on the child's tag returns what the specification gives |
| RpcValue.ReadArray | src/value.rs:126-139 | the array loop reads the first `data` child only |
| RpcValue.ReadData | src/value.rs:130-134 | the values of the children that read, in order |
| RpcValue.ReadStruct | src/value.rs:140-153 | the member loop returns the specified members |
| RpcValue.ReadMember | src/value.rs:143-149 | a member is kept only when both its name and its value are found |
| RpcValue.ParseMemberValueXml | src/value.rs:95-102 | the value scan returns what the specification gives |
| RpcValue.ChildText | src/value.rs:86-93 | a text is found exactly when a child with the asked-for tag exists, and it is the literal text of the first such child (a member's `name`; a request's `methodName` is looked up the same way) |
| RpcValue.ParseMemberValue | src/value.rs:95-102 | a value is found only when a `value` child exists |
| RpcValue.Decoded | src/value.rs:130-134 | never more values than children |
| RpcValue.Members | src/value.rs:142-151 | never more members than children |
| RpcValue.LeadingTextIsString | src/value.rs:113-115 | a first text child makes the value that string, or the empty string when it has no text |
| RpcValue.WhitespaceBeforeElement | src/value.rs:113-115 | whitespace before `<i4>` is read as a string value, and the integer is ignored |
| RpcValue.BooleanReading | src/value.rs:119 | `1` is true, `0` is false, and `256` and `true` are errors |
| RpcValue.ArrayWithoutData | src/value.rs:126-139 | an array with no `data` child is empty |
| RpcValue.ArrayReadsFirstData | src/value.rs:128-137 | only the first `data` child is read |
| RpcValue.DecodedAppend | src/value.rs:130-134 | array items are read in document order |
| RpcValue.DecodedSkipsFailure | src/value.rs:131-133 | an item that does not read is dropped silently |
| RpcValue.DecodedKeepsValue | src/value.rs:131-133 | an item that reads keeps its place among the others |
| RpcValue.MemberValueAsWritten | src/value.rs:98 | as written, a member's value is never found |
| RpcValue.MembersAsWritten | src/value.rs:140-153 | as written, every struct reads as empty |
| RpcValue.MembersAppend | src/value.rs:142-151 | members are read in document order |
| RpcValue.WriteXml | src/value.rs:161-221 | appends exactly the tokens of the value's element |
| RpcValue.WriteInner | src/value.rs:164-219 | appends exactly the tokens of the typed element |
| RpcValue.WriteItems | src/value.rs:195-197 | appends the items' elements in order |
| RpcValue.WriteMembers | src/value.rs:206-215 | appends the members' elements in order |
| RpcValue.WriteMember | src/value.rs:207-214 | appends a `member` holding the name element, then the value |
| RpcValue.ValueTokens | src/value.rs:161-221 | a value is written as `<value>`, then the start tag of its type, and ends with `</value>` |
| RpcValue.InnerTokens | src/value.rs:164-219 | the typed element opens and closes with the tag of the value's type |
| RpcValue.ValueTokensMarkup | src/value.rs:161-221 | the written tokens spell the markup of the value's tree |
| RpcValue.WrittenScalar | src/value.rs:165-188 | a scalar is written as `<value>`, its type tag, the escaped text, and the closing tags |
| RpcValue.WrittenEmptyArray | src/value.rs:189-202 | an empty array is written as `<value><array><data></data></array></value>` |
| RpcValue.WrittenIntText | src/value.rs:167 | -33 is written as `-33` |
| RpcValue.WrittenEscapedText | src/value.rs:175 | `abcd<3` is written as `abcd&lt;3` |
| RpcValue.Erased | src/value.rs:140-153 | what reading back makes of a value keeps its type tag |
| RpcValue.ErasedCorrected | src/value.rs:140-153 | with the corrected member reading, reading back changes nothing |
| RpcValue.ReadWritten | src/value.rs:105-221 | reading the written tree gives the value back, except for the struct members the reader drops, when the value's leaves read back from their text |
| RpcValue.ReadLeafWritten | src/value.rs:118-125 | a written scalar reads back unchanged exactly when its leaf text reads back |
| RpcValue.ReadWrittenItems | src/value.rs:126-139 | written array items read back in order |
| RpcValue.ReadMemberWritten | src/value.rs:86-102 | a written member reads back with its name and, when corrected, its value |
| RpcValue.ReadWrittenMembers | src/value.rs:140-153 | with the corrected reading, written members read back in order, duplicates included |
| RpcValue.StructRoundTripFails | src/value.rs:98 | `{a: 1}` reads back as an empty struct as written, and as itself when corrected |
| RpcValue.TextElementLiteral | src/value.rs:77-84 | the text written into an element is its literal text when read |
| RpcValue.FromVec | src/value.rs:248-264 | a vector becomes an array with each element converted, in order |
| RpcValue.FromPairs | src/value.rs:266-270 | pairs become struct members in order, with their values converted |
| RpcValue.FromMapCollects | src/value.rs:254-258 | a hash map becomes a struct with each entry exactly once |
| Messages.ReadParams | src/messages.rs:45-61 | the loop collects the values of every `params` > `param` child, in order |
| Messages.ReadParamList | src/messages.rs:49-57 | the values of the `param` children of one `params` element |
| Messages.ParamsIn | src/messages.rs:45-61 | without a `params` child there are no parameters |
| Messages.ParamsInAppend | src/messages.rs:47-58 | parameters from several `params` elements are concatenated in order |
| Messages.RequestOf | src/messages.rs:73-84 | fails with the root error exactly when the root is not `methodCall`, and with the missing-name error exactly when no `methodName` exists |
| Messages.ReadRequest | src/messages.rs:73-84 | the reader returns what the request specification gives |
| Messages.FaultOf | src/messages.rs:127-138 | a fault that reads is always a failure response |
| Messages.ResponseOf | src/messages.rs:120-142 | fails with the root error exactly when the root is not `methodResponse` |
| Messages.ReadFault | src/messages.rs:111-118 | the scan reads the first `fault` child, or gives none |
| Messages.FaultPayload | src/messages.rs:111-118 | there is no fault payload exactly when no `fault` child exists; as written, a `fault` child always gives the wrong-tag error |
| Messages.FaultFromMembers | src/messages.rs:131-138 | collecting and removing `faultCode` and `faultString` gives the specified result |
| Messages.ReadResponse | src/messages.rs:120-142 | the reader returns what the response specification gives |
| Messages.FaultAlwaysFailsAsWritten | src/messages.rs:114 | as written, every response with a `fault` fails because `fault` is read as a value |
| Messages.NoFaultIsSuccess | src/messages.rs:139-141 | with no `fault` child, the response is a success with the read parameters |
| Messages.FaultOfLastWins | src/messages.rs:131-137 | a fault reads exactly when the last `faultCode` is an integer and the last `faultString` is a string; their values become code and message |
| Messages.FaultIgnoresOtherMembers | src/messages.rs:131-137 | members with other names never change the fault |
| Messages.WriteParams | src/messages.rs:97-102 | appends one `param` element per parameter, in order |
| Messages.WriteParam | src/messages.rs:98-100 | appends a `param` element around the value |
| Messages.WriteParamsElement | src/messages.rs:94-103 | appends a `params` element around the parameters |
| Messages.WriteRequest | src/messages.rs:86-107 | appends the declaration and the `methodCall` element |
| Messages.WriteResponse | src/messages.rs:144-174 | appends the declaration and the `methodResponse` element, with the params or the fault struct |
| Messages.WriteFaultElement | src/messages.rs:160-170 | appends a `fault` element around the fault struct's value |
| Messages.RequestTokens | src/messages.rs:86-107 | a request is the declaration, then `<methodCall>` with `<methodName>` first, ending with `</methodCall>` |
| Messages.ResponseTokens | src/messages.rs:144-174 | a response is the declaration, then `<methodResponse>` whose first child is `params` for a success and `fault` for a failure |
| Messages.RequestTokensMarkup | src/messages.rs:86-107 | the written request spells the declaration and the markup of the request tree |
| Messages.ResponseTokensMarkup | src/messages.rs:144-174 | the written response spells the declaration and the markup of the response tree |
| Messages.ReadWrittenParams | src/messages.rs:45-61 | written parameters read back in order |
| Messages.ReadWrittenRequest | src/messages.rs:73-107 | a written request reads back with its name and its parameters |
| Messages.ReadWrittenResponse | src/messages.rs:120-174 | with both corrected readings (fault and member values), every written response reads back unchanged, provided its parameters' leaves read back |
| Messages.FaultNeedsBothCorrections | src/messages.rs:114 | correcting only the fault reading still fails, with the missing-`faultCode` error, because members lose their values (src/value.rs:98); correcting only the member reading still fails with the wrong-tag error |
| Messages.FaultOfWritten | src/messages.rs:160-170 | the fault struct the writer builds reads as the same code and message |
| Messages.ReadWrittenResponseAsWritten | src/messages.rs:111-118 | as written, a success reads back and a failure always errors |
| XmlfmtValue.UnexpectedOf | src/xmlfmt/value.rs:20-31 | each variant gets its own classification, and an integer is reported as a signed 64-bit number |
| XmlfmtValue.ParamsXml | src/xmlfmt/value.rs:73-77 | the parameter text is empty exactly when there are no parameters |
| XmlfmtValue.TypedXmlFrame | src/xmlfmt/value.rs:103-132 | the typed element opens and closes with the tag of the value's type |
| XmlfmtValue.ToXmlFrame | src/xmlfmt/value.rs:101-135 | every value renders as `<value>` and its type's start tag, closed by the matching end tags |
| XmlfmtValue.ParamsXmlAppend | src/xmlfmt/value.rs:73-77 | parameters are rendered in order |
| XmlfmtValue.ItemsXmlAppend | src/xmlfmt/value.rs:119-122 | array items are rendered in order |
| XmlfmtParse.ValueOf | src/xmlfmt/parse.rs:85-107 | a converted value has the variant of its tree (`i4` and `int` both give an integer); every failure is a message error |
| XmlfmtParse.ValuesOf | src/xmlfmt/parse.rs:226-233 | a converted list has as many values as elements; every failure is a message error |
| XmlfmtParse.MembersOf | src/xmlfmt/parse.rs:241-247 | every name in the converted map is the name of some member |
| XmlfmtParse.CallValueOf | src/xmlfmt/parse.rs:117-125 | the method name is kept, with one value per parameter |
| XmlfmtParse.ResponseValueOf | src/xmlfmt/parse.rs:135-166 | `params` give a success with one value per parameter and `fault` gives a fault |
| XmlfmtParse.ParamsData | src/xmlfmt/parse.rs:29-33 | a non-array stands for exactly one parameter; an array stands for its items, or for itself as the only parameter |
| XmlfmtParse.CallOf | src/xmlfmt/parse.rs:27-40 | the method name is kept; every failure is a message error |
| XmlfmtParse.ResponseOf | src/xmlfmt/parse.rs:42-60 | a `params` tree gives a success and a `fault` tree gives a fault |
| XmlfmtParse.ReadCall | src/xmlfmt/parse.rs:27-40 | `call` returns the specified call: one parameter is the data, any other count is an array, and a decode failure is the convert error |
| XmlfmtParse.ReadResponse | src/xmlfmt/parse.rs:42-60 | `response` returns the specified response, under the same convention |
| XmlfmtParse.ScalarConversions | src/xmlfmt/parse.rs:88-96 | `i4` and `int` convert alike; a boolean is true exactly when non-zero; date-time text is kept; base64 fails exactly when decoding does |
| XmlfmtParse.ValuesOfOk | src/xmlfmt/parse.rs:226-233 | a list converts exactly when every element converts, to the element-wise values |
| XmlfmtParse.ValuesOfFirstError | src/xmlfmt/parse.rs:189-196 | a list fails with its first element's error |
| XmlfmtParse.MembersOfCollect | src/xmlfmt/parse.rs:241-247 | converted members collect into a map, and a later name wins |
| XmlfmtParse.MembersOfFails | src/xmlfmt/parse.rs:256-260 | a struct fails exactly when some member's value fails |
| XmlfmtParse.StructLastWins | src/xmlfmt/parse.rs:241-247 | a name holds the value of its last member |
| XmlfmtParse.ParamsDataAmbiguous | src/xmlfmt/parse.rs:29-33 | one array parameter and that array's items as parameters give the same data |
| XmlfmtParse.ResponseKinds | src/xmlfmt/parse.rs:135-166 | params never give a fault; a fault reads exactly when its value is a struct with integer `faultCode` and string `faultString` |
| XmlfmtParse.LeafValueOfShape | src/xmlfmt/parse.rs:88-96 | a scalar's tree converts back to the scalar exactly when its leaf text reads back |
| XmlfmtParse.ValueOfShape | src/xmlfmt/parse.rs:85-107 | the tree of a value whose leaves read back converts back to that value |
| XmlfmtParse.ValuesOfShape | src/xmlfmt/parse.rs:226-233 | the trees of such a list convert back to the list |
| XmlfmtParse.MembersOfShape | src/xmlfmt/parse.rs:241-247 | the members of such a struct, in iteration order, convert back to its map |
| XmlfmtParse.CallReadsBack | src/xmlfmt/parse.rs:117-125 | a call's tree converts back to its name and parameters |
| XmlfmtParse.ResponseReadsBack | src/xmlfmt/parse.rs:135-166 | a response's tree converts back to its parameters (when their leaves read back) or its fault |
| XmlfmtParse.FaultReadsBack | src/xmlfmt/parse.rs:142-162 | the tree of a fault's struct converts back to the fault's code and message |
| XmlfmtParse.SingleAndEmptyResponses | src/xmlfmt/parse.rs:44-53 | one parameter is the data itself; no parameters is an empty array |
| XmlfmtParse.ToXmlIsMarkup | src/xmlfmt/value.rs:101-135 | with escaped member names, the rendered text is the markup of the value's tree |
| XmlfmtParse.ItemsAreMarkup | src/xmlfmt/value.rs:119-122 | rendered items are the markup of their trees |
| XmlfmtParse.MembersAreMarkup | src/xmlfmt/value.rs:123-132 | rendered members are the markup of their trees |
| XmlfmtParse.ParamsAreMarkup | src/xmlfmt/value.rs:73-77 | the parameter text handed to the templates is the markup of the parameters' trees |
| XmlfmtParse.SingleKeyOrder | src/xmlfmt/value.rs:125 | a one-member map iterates over its one key |
| XmlfmtParse.VerbatimNameIsNotMarkup | src/xmlfmt/value.rs:126-129 | as written, a member named `<` renders to text that is not its tree's markup |
| XmlfmtSer.Encode | src/xmlfmt/ser.rs:8-178 | every serializer failure is an unsupported-data error |
| XmlfmtSer.EncodeSucceedsIff | src/xmlfmt/ser.rs:20-177 | serialization succeeds exactly on booleans, `i32`, `f64`, strings, bytes, unit, and sequences, maps with string keys and structs built from these |
| XmlfmtSer.LeafSucceedsIff | src/xmlfmt/ser.rs:20-126 | of the shapes without nested data, exactly `bool`, `i32`, `f64`, `str`, bytes and unit succeed |
| XmlfmtSer.EncodeItems | src/xmlfmt/ser.rs:196-202 | a failing element's error is an unsupported-data error |
| XmlfmtSer.EncodeEntry | src/xmlfmt/ser.rs:251-272 | a failing key or value gives an unsupported-data error |
| XmlfmtSer.EncodeEntries | src/xmlfmt/ser.rs:247-277 | a failing map gives an unsupported-data error |
| XmlfmtSer.EncodeField | src/xmlfmt/ser.rs:283-289 | a failing field gives an unsupported-data error |
| XmlfmtSer.EncodeFields | src/xmlfmt/ser.rs:279-294 | a failing struct gives an unsupported-data error |
| XmlfmtSer.ItemsSucceedIff | src/xmlfmt/ser.rs:196-202 | a sequence serializes exactly when each element does |
| XmlfmtSer.EntriesSucceedIff | src/xmlfmt/ser.rs:251-272 | a map serializes exactly when every key is a string and every value serializes |
| XmlfmtSer.FieldsSucceedIff | src/xmlfmt/ser.rs:283-289 | a struct serializes exactly when every field does |
| XmlfmtSer.EncodeItemsOk | src/xmlfmt/ser.rs:196-206 | a sequence becomes exactly the element-wise values, in order |
| XmlfmtSer.EncodeItemsFirstError | src/xmlfmt/ser.rs:200 | a sequence fails with its first failing element's error |
| XmlfmtSer.EncodeEntriesCollect | src/xmlfmt/ser.rs:262-272 | map entries are inserted in order, and a repeated key keeps its last value |
| XmlfmtSer.KeyMustBeString | src/xmlfmt/ser.rs:255-258 | a key that is not a string stops the map with "Key must be a string." |
| XmlfmtSer.EncodeFieldsCollect | src/xmlfmt/ser.rs:283-289 | struct fields are inserted in order, and a repeated name keeps its last value |
| XmlfmtSer.StructMembers | src/xmlfmt/ser.rs:279-294 | a struct with distinct field names has exactly those members, each with its encoded value |
| XmlfmtSer.SerializeVec.constructor | src/xmlfmt/ser.rs:132-134 | starts with no elements |
| XmlfmtSer.SerializeVec.SerializeElement | src/xmlfmt/ser.rs:196-202 | pushes the element's value, or fails with its error and leaves the vector unchanged |
| XmlfmtSer.SerializeVec.End | src/xmlfmt/ser.rs:204-206 | the array of the pushed values |
| XmlfmtSer.SerializeMap.constructor | src/xmlfmt/ser.rs:154-159 | starts with no members and no pending key |
| XmlfmtSer.SerializeMap.SerializeKey | src/xmlfmt/ser.rs:251-260 | a string key becomes the pending key; any other key fails; the members never change |
| XmlfmtSer.SerializeMap.SerializeValue | src/xmlfmt/ser.rs:262-272 | the pending key is taken; the value is inserted under it on success; nothing is inserted on failure |
| XmlfmtSer.SerializeMap.SerializeField | src/xmlfmt/ser.rs:283-289 | inserts the value under the field name, or fails and leaves the members unchanged |
| XmlfmtSer.SerializeMap.End | src/xmlfmt/ser.rs:274-276 | the struct of the inserted members |
| XmlfmtSer.SerializeFail.SerializeField | src/xmlfmt/ser.rs:303-308 | always fails with "Fail" |
| XmlfmtSer.SerializeFail.End | src/xmlfmt/ser.rs:310-312 | always fails with "Fail" |
| XmlfmtSer.SerializeSequence | src/xmlfmt/ser.rs:128-134 | driving the vector state over the items gives what `to_value` gives for the sequence |
| XmlfmtSer.SerializeMapEntries | src/xmlfmt/ser.rs:154-159 | driving the map state over the entries gives what `to_value` gives for the map |
| XmlfmtSer.SerializeStructFields | src/xmlfmt/ser.rs:161-167 | driving the map state over the fields gives what `to_value` gives for the struct |

## Left out

- Parsing XML text into a tree is not modelled. roxmltree's `Document::parse` and serde_xml_rs's `deserialize` are outside the model. The readers start from the parsed tree.
- The round-trip lemmas read back the tree whose markup was written (`RpcValue.ValueTree`, `XmlfmtParse.Shape`), not the written text. They assume a parser returns exactly that tree. It does not always: XML 1.0 (section 2.11) makes a parser turn a carriage return in text into a line feed, and neither escaping replaces it; characters XML 1.0 forbids (U+0000, say) make the written document unreadable; serde_xml_rs may trim whitespace around text. Strings, member names and method names holding such characters do not read back from the written bytes.
- `Document::root()`: the model takes the root to be the document element.
- The output bytes of quick-xml are not modelled. The writer is a sequence of tokens, and an escaping of `&`, `<`, `>` and both quotes is assumed for it.
- xml-rs's `escape_str_pcdata` is not part of this model. It is taken to replace `&` and `<` only (`TextSyntax.PcData`).
- The text syntax of `f64`, of RFC 3339 date-times and of base64 comes from other crates. It is the parameter `LeafSyntax`, not a definition.
- Not every leaf reads back from its text: Rust prints every NaN as `NaN`, losing its payload; chrono drops the seconds of a UTC offset; years outside 0000-9999 have no RFC 3339 form. The round-trip lemmas below therefore require `LeavesRoundTrip` of the values they read back.
- RpcValue.ReadWritten: holds only for values whose double, date-time and base64 leaves read back from their text, and reads back the written tree, not the written text (see the parser line above).
- Messages.ReadWrittenRequest: holds only for parameters whose leaves read back from their text, and reads back the written tree, not the written text (see the parser line above).
- Messages.ReadWrittenResponse: holds only for parameters whose leaves read back from their text, and reads back the written tree, not the written text (see the parser line above).
- XmlfmtParse.ValueOfShape: holds only for values whose double and base64 leaves read back from their text, and reads back the written tree, not the written text (see the parser line above).
- XmlfmtParse.CallReadsBack: holds only for parameters whose leaves read back from their text, and reads back the written tree, not the written text (see the parser line above).
- I/O errors and quick-xml's write errors are left out. Every write succeeds.
- Error messages of the current codec are reduced to their kind (`ReadError`, `MessageError`). The `anyhow` text and its context strings are not kept.
- `chain_err` causes are not modelled. An `xmlfmt` error keeps only its message (`Msg`).
- The `xmlfmt` call and response templates (`templates/*.xml`) are not part of this model. `CallXml` and `ResponseXml` take them as functions. The method name and the fault message are passed to them unescaped.
- XmlfmtValue.ToXml: a struct's members are rendered in one fixed order, a choice made in the model. Real `HashMap` iteration order may differ from call to call.
- `FaultStruct::deserialize` and `D::deserialize` run serde's `Value` deserializer, which is not part of this model (`src/xmlfmt/de.rs`). A fault is read strictly: a struct with an integer `faultCode` and a string `faultString`, other members ignored. `D::deserialize` is the parameter `decode`.
- `XmlParams`, `XmlParamData`, `XmlArray`, `XmlArrayData`, `XmlStruct` and `XmlResponse` are folded into the lists they wrap. Their conversions are the same list conversions.
- XmlfmtParse.ToXmlIsMarkup: requires date-time text and the leaf printers' output to need no escaping. `DateTime` text is written verbatim, so other text would not be markup.
- XmlfmtParse.ReadCall: the Rust `Vec::pop` is modelled on a sequence value, not on a shared vector.
- `xml` (parse.rs:10-13), `call_value` and `response_value` are only I/O plus the conversions already modelled.
- The serializer's integer widths other than `i32` carry unbounded payloads. They are rejected by kind alone, so their ranges do not matter.
- The serializer's `SerializeFail` is never reached: tuple and struct variants bail before it is built.
- XmlfmtSer.SerializeMap.SerializeValue: the source panics when no key is pending. The model requires a pending key.
- The transport (`client.rs`, `server.rs`), `src/xmlfmt/de.rs` and the test files are not part of this model.

## Findings

| source | as written | input that shows it | evidently intended | confidence | as-written member | corrected member |
|---|---|---|---|---|---|---|
| src/value.rs:98 | `parse_member_value` calls `Value::read_xml` on the `member` node instead of on its `value` child, so every member's value fails and is dropped | `<struct><member><name>a</name><value><i4>1</i4></value></member></struct>` reads as an empty struct | read the `value` child, so that structs read back as written | high, not executed | RpcValue.StructRoundTripFails | RpcValue.ReadWrittenMembers |
| src/messages.rs:114 | `read_fault` calls `Value::read_xml` on the `fault` node itself, which is not a `value`, so every fault response fails | the response the writer produces for `Failure(4, "Too many parameters.")` | read the `value` child of `fault`; together with the src/value.rs:98 correction a fault then reads as code and message (either correction alone still fails, `Messages.FaultNeedsBothCorrections`) | high, not executed | Messages.FaultAlwaysFailsAsWritten | Messages.ReadWrittenResponse |
| src/xmlfmt/value.rs:126-129 | member names are put into `<name>` without escaping, while string values are escaped | a struct with one member named `<` | escape member names like string values, so the text stays well-formed | medium, not executed | XmlfmtParse.VerbatimNameIsNotMarkup | XmlfmtParse.ToXmlIsMarkup |
