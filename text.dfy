/**
 * Text-level building blocks shared by both codec generations: Rust's
 * fixed-width integers, the decimal syntax of `i32`/`u8` (`to_string` and
 * `str::parse`), the escaping of XML character data, and the textual syntax
 * of the leaf types that the codec delegates to other crates.
 */
module TextSyntax {
  import opened Wrappers

  /** Rust's `i32`. */
  type i32 = x: int | -0x8000_0000 <= x < 0x8000_0000
  /** Rust's `u8`. */
  type u8 = x: int | 0 <= x < 0x100
  /** The bit pattern of an IEEE 754 binary64 value (Rust's `f64`). */
  type Float64 = bv64

  /** chrono's `DateTime<FixedOffset>`: an instant plus the UTC offset it was written with. */
  datatype Timestamp = Timestamp(secondsSinceEpoch: int, nanosecond: nat, offsetSeconds: int)

  /**
   * The textual syntax of the leaf types whose parsers and printers live in
   * other crates: `f64`'s `to_string`/`parse`, chrono's RFC 3339 printer and
   * parser, and the `base64` crate's standard engine. The codec only passes
   * text to them and takes their verdict, so the model takes them as given.
   */
  datatype LeafSyntax = LeafSyntax(
    parseDouble: string -> Option<Float64>,
    showDouble: Float64 -> string,
    parseDateTime: string -> Option<Timestamp>,
    showDateTime: Timestamp -> string,
    decodeBase64: string -> Option<seq<u8>>,
    encodeBase64: seq<u8> -> string)

  /**
   * A double that reads back from its own text. Not every one does: Rust
   * prints every NaN as `NaN`, whatever its sign and payload, so only the NaN
   * that `NaN` parses to comes back.
   */
  predicate DoubleRoundTrips(ls: LeafSyntax, d: Float64) {
    ls.parseDouble(ls.showDouble(d)) == Some(d)
  }

  /**
   * A date-time that reads back from its own text. chrono writes the UTC
   * offset to the minute and parses only four-digit years, so an offset with
   * seconds or a year outside 0000-9999 does not come back.
   */
  predicate DateTimeRoundTrips(ls: LeafSyntax, t: Timestamp) {
    ls.parseDateTime(ls.showDateTime(t)) == Some(t)
  }

  /** Bytes that read back from their own base64 text. */
  predicate Base64RoundTrips(ls: LeafSyntax, bytes: seq<u8>) {
    ls.decodeBase64(ls.encodeBase64(bytes)) == Some(bytes)
  }

  // ---------------------------------------------------------------------------
  // Decimal integers

  predicate IsDigit(c: char) {
    '0' <= c <= '9'
  }

  predicate AllDigits(s: string) {
    forall i :: 0 <= i < |s| ==> IsDigit(s[i])
  }

  function DigitChar(d: int): (c: char)
    requires 0 <= d < 10
    ensures IsDigit(c) && c as int - '0' as int == d
  {
    ('0' as int + d) as char
  }

  /** The shortest decimal numeral of `n` (no sign, no leading zeros). */
  function Digits(n: nat): (s: string)
    ensures |s| > 0 && AllDigits(s)
    ensures s[0] != '-' && s[0] != '+'
  {
    if n < 10 then [DigitChar(n)] else Digits(n / 10) + [DigitChar(n % 10)]
  }

  /** The number a non-empty run of decimal digits denotes. */
  function DigitsValue(s: string): nat
    requires AllDigits(s)
  {
    if s == [] then 0 else DigitsValue(s[..|s| - 1]) * 10 + (s[|s| - 1] as int - '0' as int)
  }

  /** An optional `+` or `-`, then at least one digit and nothing else. */
  predicate SignedNumeral(s: string) {
    var digits := if |s| > 0 && (s[0] == '-' || s[0] == '+') then s[1..] else s;
    digits != [] && AllDigits(digits)
  }

  /** `i32::to_string`: a minus sign for negative numbers, then the shortest numeral. */
  function ShowInt(n: int): (s: string)
    ensures |s| > 0 && (s[0] == '-' <==> n < 0)
    ensures AllDigits(if n < 0 then s[1..] else s)
  {
    if n < 0 then "-" + Digits(-n) else Digits(n)
  }

  /**
   * `i32::from_str`: one optional leading `+` or `-`, then at least one ASCII
   * digit and nothing else; the value must fit in 32 bits.
   */
  function ParseI32(s: string): (r: Option<i32>)
    ensures r.Some? ==> |s| > 0 && SignedNumeral(s)
    ensures r.Some? && r.value < 0 ==> s[0] == '-'
  {
    if |s| == 0 then None
    else
      var negative := s[0] == '-';
      var digits := if s[0] == '-' || s[0] == '+' then s[1..] else s;
      if digits == [] || !AllDigits(digits) then None
      else
        var v: int := if negative then -(DigitsValue(digits) as int) else DigitsValue(digits);
        if -0x8000_0000 <= v < 0x8000_0000 then Some(v) else None
  }

  /**
   * `u8::from_str`: one optional leading `+` (a `-` is an invalid digit for an
   * unsigned type), then at least one ASCII digit; the value must be at most 255.
   */
  function ParseU8(s: string): (r: Option<u8>)
    ensures r.Some? ==> |s| > 0 && s[0] != '-' && SignedNumeral(s)
  {
    if |s| == 0 then None
    else
      var digits := if s[0] == '+' then s[1..] else s;
      if digits == [] || !AllDigits(digits) then None
      else
        var v := DigitsValue(digits);
        if v < 0x100 then Some(v) else None
  }

  lemma {:induction false} DigitsValueOfDigits(n: nat)
    ensures DigitsValue(Digits(n)) == n
  {
    if n >= 10 {
      var s := Digits(n);
      assert s == Digits(n / 10) + [DigitChar(n % 10)];
      assert s[..|s| - 1] == Digits(n / 10);
      DigitsValueOfDigits(n / 10);
    }
  }

  /** Parsing what `to_string` printed gives the number back, for every `i32`. */
  lemma ParseShowInt(n: i32)
    ensures ParseI32(ShowInt(n)) == Some(n)
  {
    if n < 0 {
      var m: int := n;
      DigitsValueOfDigits(-m);
      assert ShowInt(n)[1..] == Digits(-m);
    } else {
      DigitsValueOfDigits(n);
    }
  }

  /** The two numerals the boolean writer emits read back as 1 and 0, and 256 does not fit a `u8`. */
  lemma ParseU8Examples()
    ensures ParseU8("1") == Some(1) && ParseU8("0") == Some(0)
    ensures ParseU8("256") == None && ParseU8("-0") == None && ParseU8("true") == None
  {
    assert "1"[..0] == [] && "0"[..0] == [];
    var s := "256";
    assert s[..2][..1] == "2" && "2"[..0] == [];
    assert s[..2] == "25";
    assert DigitsValue(s) == 256;
    assert !AllDigits("-0") by { assert !IsDigit("-0"[0]); }
    assert !AllDigits("true") by { assert !IsDigit("true"[0]); }
  }

  // ---------------------------------------------------------------------------
  // Escaping of character data (section 2.4 of the XML 1.0 specification: `<`
  // and `&` may not appear literally in character data)

  /**
   * The predefined entities an escaper uses: `PcData` replaces `<` and `&`
   * (xml-rs `escape_str_pcdata`); `MarkupAndQuotes` also replaces `>` and both
   * quote characters (quick-xml `escape`, used by `BytesText::new`).
   */
  datatype EntitySet = PcData | MarkupAndQuotes

  function EscapeChar(c: char, es: EntitySet): (r: string)
    ensures forall i :: 0 <= i < |r| ==> r[i] != '<'
    ensures es == MarkupAndQuotes ==> forall i :: 0 <= i < |r| ==> r[i] != '>'
  {
    if c == '<' then "&lt;"
    else if c == '&' then "&amp;"
    else if es == MarkupAndQuotes && c == '>' then "&gt;"
    else if es == MarkupAndQuotes && c == '\'' then "&apos;"
    else if es == MarkupAndQuotes && c == '"' then "&quot;"
    else [c]
  }

  /** The escaped form of `s`: no `<` survives in it, and with quick-xml's entities no `>` either. */
  function Escape(s: string, es: EntitySet): (r: string)
    ensures forall i :: 0 <= i < |r| ==> r[i] != '<'
    ensures es == MarkupAndQuotes ==> forall i :: 0 <= i < |r| ==> r[i] != '>'
  {
    if s == [] then [] else EscapeChar(s[0], es) + Escape(s[1..], es)
  }

  predicate StartsWith(s: string, prefix: string) {
    |prefix| <= |s| && s[..|prefix|] == prefix
  }

  /** Replacement of the five predefined entities of XML 1.0 (section 4.6) by their characters. */
  function Unescape(s: string): string
    decreases |s|
  {
    if s == [] then []
    else if StartsWith(s, "&lt;") then "<" + Unescape(s[4..])
    else if StartsWith(s, "&gt;") then ">" + Unescape(s[4..])
    else if StartsWith(s, "&amp;") then "&" + Unescape(s[5..])
    else if StartsWith(s, "&apos;") then "'" + Unescape(s[6..])
    else if StartsWith(s, "&quot;") then "\"" + Unescape(s[6..])
    else [s[0]] + Unescape(s[1..])
  }

  lemma UnescapeEscapedChar(c: char, es: EntitySet, rest: string)
    ensures Unescape(EscapeChar(c, es) + rest) == [c] + Unescape(rest)
  {
    if c == '<' {
      UnescapeLt(rest);
    } else if c == '&' {
      UnescapeAmp(rest);
    } else if es == MarkupAndQuotes && c == '>' {
      UnescapeGt(rest);
    } else if es == MarkupAndQuotes && c == '\'' {
      UnescapeApos(rest);
    } else if es == MarkupAndQuotes && c == '"' {
      UnescapeQuot(rest);
    } else {
      UnescapePlain(c, rest);
    }
  }

  lemma UnescapeLt(rest: string)
    ensures Unescape("&lt;" + rest) == "<" + Unescape(rest)
  {
    var s := "&lt;" + rest;
    assert s[..4] == "&lt;" && s[4..] == rest;
  }

  lemma UnescapeGt(rest: string)
    ensures Unescape("&gt;" + rest) == ">" + Unescape(rest)
  {
    var s := "&gt;" + rest;
    assert s[..4] == "&gt;" && s[4..] == rest;
    assert s[..4][1] != "&lt;"[1];
  }

  lemma UnescapeAmp(rest: string)
    ensures Unescape("&amp;" + rest) == "&" + Unescape(rest)
  {
    var s := "&amp;" + rest;
    assert s[..5] == "&amp;" && s[5..] == rest;
    assert s[..4][1] != "&lt;"[1] && s[..4][1] != "&gt;"[1];
  }

  lemma UnescapeApos(rest: string)
    ensures Unescape("&apos;" + rest) == "'" + Unescape(rest)
  {
    var s := "&apos;" + rest;
    assert s[..6] == "&apos;" && s[6..] == rest;
    assert s[..4][1] != "&lt;"[1] && s[..4][1] != "&gt;"[1] && s[..5][2] != "&amp;"[2];
  }

  lemma UnescapeQuot(rest: string)
    ensures Unescape("&quot;" + rest) == "\"" + Unescape(rest)
  {
    var s := "&quot;" + rest;
    assert s[..6] == "&quot;" && s[6..] == rest;
    assert s[..4][1] != "&lt;"[1] && s[..4][1] != "&gt;"[1] && s[..5][1] != "&amp;"[1] && s[..6][1] != "&apos;"[1];
  }

  lemma UnescapePlain(c: char, rest: string)
    requires c != '&'
    ensures Unescape([c] + rest) == [c] + Unescape(rest)
  {
    var s := [c] + rest;
    assert s[0] == c && s[1..] == rest;
    forall p | p in ["&lt;", "&gt;", "&amp;", "&apos;", "&quot;"] ensures !StartsWith(s, p) {
      if |p| <= |s| { assert s[..|p|][0] == s[0]; }
    }
  }

  /** Escaping loses nothing: replacing the entities again gives the original text. */
  lemma {:induction false} UnescapeEscape(s: string, es: EntitySet)
    ensures Unescape(Escape(s, es)) == s
  {
    if s != [] {
      UnescapeEscapedChar(s[0], es, Escape(s[1..], es));
      UnescapeEscape(s[1..], es);
    }
  }

  /** The start of a predefined entity reference of XML 1.0 (section 4.6). */
  predicate StartsWithEntity(s: string) {
    || StartsWith(s, "&lt;") || StartsWith(s, "&gt;") || StartsWith(s, "&amp;")
    || StartsWith(s, "&apos;") || StartsWith(s, "&quot;")
  }

  /** An escaped character holds `&` only as the first character of an entity reference. */
  lemma EscapeCharAmpersand(c: char, es: EntitySet, rest: string)
    ensures forall i :: 0 <= i < |EscapeChar(c, es)| && EscapeChar(c, es)[i] == '&' ==> i == 0
    ensures |EscapeChar(c, es)| > 0 && EscapeChar(c, es)[0] == '&' ==> StartsWithEntity(EscapeChar(c, es) + rest)
  {
    var e := EscapeChar(c, es);
    assert (e + rest)[..|e|] == e;
  }

  /** Every `&` in escaped text begins an entity reference, as section 2.4 of XML 1.0 requires. */
  lemma {:induction false} EscapeAmpersands(s: string, es: EntitySet)
    ensures forall i :: 0 <= i < |Escape(s, es)| && Escape(s, es)[i] == '&' ==> StartsWithEntity(Escape(s, es)[i..])
  {
    if s != [] {
      var e := EscapeChar(s[0], es);
      var t := Escape(s[1..], es);
      var r := Escape(s, es);
      assert r == e + t;
      EscapeAmpersands(s[1..], es);
      EscapeCharAmpersand(s[0], es, t);
      forall i | 0 <= i < |r| && r[i] == '&' ensures StartsWithEntity(r[i..]) {
        if i >= |e| {
          assert r[i..] == t[i - |e|..];
          assert t[i - |e|] == '&';
        } else {
          assert e[i] == '&';
        }
      }
    }
  }

  /** Text without markup or quote characters is written as it is. */
  lemma {:induction false} EscapePlainText(s: string, es: EntitySet)
    requires forall i :: 0 <= i < |s| ==> s[i] !in "<>&'\""
    ensures Escape(s, es) == s
  {
    if s != [] {
      assert s[0] !in "<>&'\"";
      EscapePlainText(s[1..], es);
    }
  }

  // ---------------------------------------------------------------------------
  // Writer output

  /** The text a sequence of written tokens amounts to. */
  function Concat(ts: seq<string>): string {
    if ts == [] then [] else ts[0] + Concat(ts[1..])
  }

  lemma {:induction false} ConcatAppend(a: seq<string>, b: seq<string>)
    ensures Concat(a + b) == Concat(a) + Concat(b)
  {
    if a != [] {
      assert (a + b)[0] == a[0];
      assert (a + b)[1..] == a[1..] + b;
      ConcatAppend(a[1..], b);
    } else {
      assert a + b == b;
    }
  }
}
