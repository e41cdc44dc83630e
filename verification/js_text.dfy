/** JavaScript strings. A JavaScript string is a sequence of UTF-16 code
    units: `length` counts units and `slice` cuts between units, so a
    character outside the Basic Multilingual Plane counts twice and a cut can
    fall between the two halves of its surrogate pair. A Dafny `string` is a
    sequence of Unicode scalar values; `Encode` is the way the page's JSON
    parser turns one into the other. */
module JsText {
  import opened Wrappers

  /** One UTF-16 code unit. */
  type CodeUnit = x: int | 0 <= x < 0x1_0000

  /** A JavaScript string value. */
  type JsString = seq<CodeUnit>

  const SurrogateBase: int := 0x1_0000
  const HighFirst: int := 0xD800
  const LowFirst: int := 0xDC00
  const SurrogateSpan: int := 0x400

  predicate IsHigh(u: CodeUnit) { HighFirst <= u < LowFirst }
  predicate IsLow(u: CodeUnit) { LowFirst <= u < LowFirst + SurrogateSpan }

  /** The units of one character: itself below U+10000, otherwise a high
      surrogate carrying the upper ten bits of `c - 0x10000` followed by a
      low surrogate carrying the lower ten. */
  function EncodeChar(c: char): (u: JsString)
    ensures c as int < SurrogateBase ==> u == [c as int as CodeUnit] && !IsHigh(u[0]) && !IsLow(u[0])
    ensures c as int >= SurrogateBase ==> |u| == 2 && IsHigh(u[0]) && IsLow(u[1])
  {
    var v := c as int;
    if v < SurrogateBase then [v as CodeUnit]
    else
      var w := v - SurrogateBase;
      [(HighFirst + w / SurrogateSpan) as CodeUnit, (LowFirst + w % SurrogateSpan) as CodeUnit]
  }

  /** The JavaScript string holding `s`. */
  function Encode(s: string): (u: JsString)
    ensures |u| >= |s|
    ensures |u| == 0 <==> |s| == 0
    decreases |s|
  {
    if |s| == 0 then [] else EncodeChar(s[0]) + Encode(s[1..])
  }

  /** The JavaScript form of an optional text field (a JSON string or null). */
  function EncodeOpt(s: Option<string>): (u: Option<JsString>)
    ensures u.None? <==> s.None?
    ensures Truthy(u) <==> Truthy(s)
  {
    match s
    case None => None
    case Some(t) => Some(Encode(t))
  }

  /** Reads a well-formed JavaScript string back as Unicode scalar values; a
      lone surrogate has no scalar value, so such a string reads as `None`. */
  function Decode(u: JsString): Option<string>
    decreases |u|
  {
    if |u| == 0 then Some([])
    else if IsHigh(u[0]) then
      if |u| >= 2 && IsLow(u[1]) then
        var v := SurrogateBase + (u[0] - HighFirst) * SurrogateSpan + (u[1] - LowFirst);
        match Decode(u[2..])
        case Some(rest) => Some([v as char] + rest)
        case None => None
      else None
    else if IsLow(u[0]) then None
    else
      match Decode(u[1..])
      case Some(rest) => Some([u[0] as char] + rest)
      case None => None
  }

  /** Encoding then decoding one character gives it back. */
  lemma DecodeChar(c: char, tail: JsString, rest: string)
    requires Decode(tail) == Some(rest)
    ensures Decode(EncodeChar(c) + tail) == Some([c] + rest)
  {
    var u := EncodeChar(c) + tail;
    var v := c as int;
    if v < SurrogateBase {
      assert u[1..] == tail;
    } else {
      var w := v - SurrogateBase;
      assert u[0] - HighFirst == w / SurrogateSpan;
      assert u[1] - LowFirst == w % SurrogateSpan;
      assert SurrogateBase + (u[0] - HighFirst) * SurrogateSpan + (u[1] - LowFirst) == v;
      assert u[2..] == tail;
    }
  }

  /** The JavaScript string of a text loses nothing: it decodes to the text. */
  lemma {:induction false} DecodeEncode(s: string)
    ensures Decode(Encode(s)) == Some(s)
    decreases |s|
  {
    if |s| > 0 {
      DecodeEncode(s[1..]);
      DecodeChar(s[0], Encode(s[1..]), s[1..]);
      assert [s[0]] + s[1..] == s;
    }
  }

  /** Encoding distributes over concatenation. */
  lemma {:induction false} EncodeAppend(a: string, b: string)
    ensures Encode(a + b) == Encode(a) + Encode(b)
    decreases |a|
  {
    if |a| == 0 {
      assert a + b == b;
    } else {
      assert (a + b)[0] == a[0];
      assert (a + b)[1..] == a[1..] + b;
      EncodeAppend(a[1..], b);
      calc {
        Encode(a + b);
        EncodeChar(a[0]) + Encode(a[1..] + b);
        EncodeChar(a[0]) + (Encode(a[1..]) + Encode(b));
        (EncodeChar(a[0]) + Encode(a[1..])) + Encode(b);
      }
    }
  }

  /** Every character of `s` lies outside the Basic Multilingual Plane. */
  predicate AllAstral(s: string)
  {
    forall i :: 0 <= i < |s| ==> s[i] as int >= SurrogateBase
  }

  /** Such a text takes two units per character. */
  lemma {:induction false} EncodeAstralLength(s: string)
    requires AllAstral(s)
    ensures |Encode(s)| == 2 * |s|
    decreases |s|
  {
    if |s| > 0 {
      assert AllAstral(s[1..]) by {
        forall i | 0 <= i < |s| - 1 ensures s[1..][i] as int >= SurrogateBase {
          assert s[1..][i] == s[i + 1];
        }
      }
      EncodeAstralLength(s[1..]);
    }
  }
}
