/**
 * Percent-encoding of URI components (section 2.1 of RFC 3986), as the
 * ECMAScript built-ins `encodeURIComponent` and `decodeURIComponent` do it:
 * characters outside the unescaped set are written as the `%XY` escapes of
 * their UTF-8 bytes (RFC 3629), and decoding rejects (throws on) a malformed
 * escape or an escape sequence that is not well-formed UTF-8.
 */
module Percent {
  import opened Wrappers

  type Byte = b: int | 0 <= b < 256

  /** The characters `encodeURIComponent` leaves as they are: letters, digits and `- _ . ! ~ * ' ( )`. */
  predicate IsUnreserved(c: char) {
    || ('A' <= c <= 'Z') || ('a' <= c <= 'z') || ('0' <= c <= '9')
    || c == '-' || c == '_' || c == '.' || c == '!' || c == '~' || c == '*'
    || c == '\'' || c == '(' || c == ')'
  }

  /** The characters an encoded component is made of. */
  predicate IsEncodedChar(c: char) {
    IsUnreserved(c) || c == '%'
  }

  /** The UTF-8 bytes of one code point. */
  function Utf8(c: char): (bs: seq<Byte>)
    ensures 1 <= |bs| <= 4
  {
    var cp := c as int;
    if cp < 0x80 then [cp]
    else if cp < 0x800 then [0xC0 + cp / 64, 0x80 + cp % 64]
    else if cp < 0x10000 then [0xE0 + cp / 64 / 64, 0x80 + cp / 64 % 64, 0x80 + cp % 64]
    else [0xF0 + cp / 64 / 64 / 64, 0x80 + cp / 64 / 64 % 64, 0x80 + cp / 64 % 64, 0x80 + cp % 64]
  }

  /** An upper-case hexadecimal digit. */
  function HexDigit(d: int): (c: char)
    requires 0 <= d < 16
    ensures IsUnreserved(c)
  {
    if d < 10 then ('0' as int + d) as char else ('A' as int + d - 10) as char
  }

  /** The value of a hexadecimal digit of either case, or -1 for any other character. */
  function HexValue(c: char): (v: int)
    ensures -1 <= v < 16
  {
    if '0' <= c <= '9' then c as int - '0' as int
    else if 'A' <= c <= 'F' then c as int - 'A' as int + 10
    else if 'a' <= c <= 'f' then c as int - 'a' as int + 10
    else -1
  }

  /** `%XY` for one byte. */
  function Escape(b: Byte): string {
    ['%', HexDigit(b / 16), HexDigit(b % 16)]
  }

  function EscapeAll(bs: seq<Byte>): (r: string)
    ensures |r| == 3 * |bs|
    ensures forall i :: 0 <= i < |r| ==> IsEncodedChar(r[i])
  {
    if bs == [] then [] else Escape(bs[0]) + EscapeAll(bs[1..])
  }

  function EncodeChar(c: char): string {
    if IsUnreserved(c) then [c] else EscapeAll(Utf8(c))
  }

  /** `encodeURIComponent(s)`: only unescaped characters and `%` are left in the result. */
  function Encode(s: string): (r: string)
    ensures forall c :: c in r ==> IsEncodedChar(c)
  {
    if s == [] then [] else EncodeChar(s[0]) + Encode(s[1..])
  }

  /** The byte of the escape `%XY` at position `k` of `s`, if one stands there. */
  function ByteAt(s: string, k: nat): Option<Byte> {
    if k + 2 < |s| && s[k] == '%' && HexValue(s[k + 1]) >= 0 && HexValue(s[k + 2]) >= 0
    then Some(HexValue(s[k + 1]) * 16 + HexValue(s[k + 2]))
    else None
  }

  /** The length of the UTF-8 sequence a lead byte announces; 0 for a byte that cannot lead one. */
  function SequenceLength(b: Byte): nat {
    if b < 0x80 then 1
    else if b < 0xC0 then 0
    else if b < 0xE0 then 2
    else if b < 0xF0 then 3
    else if b < 0xF8 then 4
    else 0
  }

  predicate IsContinuation(b: Byte) {
    0x80 <= b < 0xC0
  }

  /** The `count` continuation bytes escaped from position `from` on. */
  function ContinuationBytes(s: string, from: nat, count: nat): (r: Option<seq<Byte>>)
    ensures r.Some? ==> |r.value| == count
    decreases count
  {
    if count == 0 then Some([])
    else match ByteAt(s, from)
      case None => None
      case Some(b) =>
        if !IsContinuation(b) then None
        else match ContinuationBytes(s, from + 3, count - 1)
          case None => None
          case Some(bs) => Some([b] + bs)
  }

  /** The code point a lead byte and its continuation bytes spell. */
  function CodePoint(lead: Byte, cont: seq<Byte>): int
    requires |cont| <= 3
  {
    var l := lead as int;
    if |cont| == 0 then l
    else if |cont| == 1 then (l - 0xC0) * 64 + (cont[0] as int - 0x80)
    else if |cont| == 2 then (l - 0xE0) * 4096 + (cont[0] as int - 0x80) * 64 + (cont[1] as int - 0x80)
    else (l - 0xF0) * 262144 + (cont[0] as int - 0x80) * 4096 + (cont[1] as int - 0x80) * 64 + (cont[2] as int - 0x80)
  }

  /** A code point that a UTF-8 sequence of length `n` may encode: not overlong, not a surrogate, at most U+10FFFF. */
  predicate WellFormed(cp: int, n: nat) {
    if n == 1 then 0 <= cp < 0x80
    else if n == 2 then 0x80 <= cp < 0x800
    else if n == 3 then 0x800 <= cp < 0x10000 && !(0xD800 <= cp < 0xE000)
    else n == 4 && 0x10000 <= cp < 0x110000
  }

  /** One step of `decodeURIComponent`: the first character of `s` and how many characters of `s` it took. */
  function DecodeOne(s: string): (r: Option<(char, nat)>)
    requires |s| > 0
    ensures r.Some? ==> 1 <= r.value.1 <= |s|
  {
    if s[0] != '%' then Some((s[0], 1))
    else match ByteAt(s, 0)
      case None => None
      case Some(lead) =>
        var n := SequenceLength(lead);
        if n == 0 || |s| < 3 * n then None
        else match ContinuationBytes(s, 3, n - 1)
          case None => None
          case Some(cont) =>
            var cp := CodePoint(lead, cont);
            if WellFormed(cp, n) then Some((cp as char, 3 * n)) else None
  }

  /**
   * `decodeURIComponent(s)`, with `None` where the built-in throws a URIError.
   * Decoding never lengthens the text, and it can only throw at a `%`.
   */
  function Decode(s: string): (r: Option<string>)
    ensures r.Some? ==> |r.value| <= |s|
    ensures r.None? ==> '%' in s
    decreases |s|
  {
    if s == [] then Some([])
    else match DecodeOne(s)
      case None => None
      case Some((c, n)) =>
        match Decode(s[n..])
        case None => None
        case Some(t) => Some([c] + t)
  }

  /** Decoding undoes encoding, for every string. */
  lemma {:induction false} DecodeEncode(s: string)
    ensures Decode(Encode(s)) == Some(s)
  {
    if s != [] {
      var e := EncodeChar(s[0]);
      var rest := Encode(s[1..]);
      DecodeOneEncodeChar(s[0], rest);
      assert Encode(s) == e + rest;
      assert (e + rest)[|e|..] == rest;
      DecodeEncode(s[1..]);
      DecodeCons(e + rest, s[0], |e|, s[1..]);
      assert s == [s[0]] + s[1..];
    }
  }

  /** A first character read, and the rest decoded, make the whole decoded. */
  lemma DecodeCons(x: string, c: char, n: nat, t: string)
    requires x != [] && DecodeOne(x) == Some((c, n)) && Decode(x[n..]) == Some(t)
    ensures Decode(x) == Some([c] + t)
  {
  }

  /** A string without `%` decodes to itself. */
  lemma {:induction false} DecodePlain(s: string)
    requires '%' !in s
    ensures Decode(s) == Some(s)
  {
    if s != [] {
      assert s[1..] == s[|[s[0]]|..];
      DecodePlain(s[1..]);
      assert s == [s[0]] + s[1..];
    }
  }

  /** A lone `%`, a bad hex digit and an overlong or truncated UTF-8 sequence all make decoding fail. */
  lemma DecodeRejects()
    ensures Decode("%") == None
    ensures Decode("%zz") == None
    ensures Decode("%C0%80") == None
    ensures Decode("%E2%82") == None
  {
    assert ByteAt("%C0%80", 3) == Some(0x80);
    assert CodePoint(0xC0, [0x80]) == 0;
  }

  lemma HexRoundTrip(d: int)
    requires 0 <= d < 16
    ensures HexValue(HexDigit(d)) == d
  {
  }

  /** The `j`-th escape of an escaped byte sequence is the escape of the `j`-th byte. */
  lemma {:induction false} EscapeAllSlice(bs: seq<Byte>, j: nat)
    requires j < |bs|
    ensures EscapeAll(bs)[3 * j..3 * j + 3] == Escape(bs[j])
  {
    if j > 0 {
      EscapeAllSlice(bs[1..], j - 1);
      var head := Escape(bs[0]);
      var tail := EscapeAll(bs[1..]);
      assert EscapeAll(bs) == head + tail;
      assert (head + tail)[3 * j..3 * j + 3] == tail[3 * (j - 1)..3 * (j - 1) + 3];
    }
  }

  /** The escapes written for `bs` read back, at every third position, as the bytes of `bs`. */
  lemma EscapeAllAt(bs: seq<Byte>, rest: string, j: nat)
    requires j < |bs|
    ensures ByteAt(EscapeAll(bs) + rest, 3 * j) == Some(bs[j])
  {
    var t := EscapeAll(bs) + rest;
    var k := 3 * j;
    EscapeAllSlice(bs, j);
    assert t[k..k + 3] == Escape(bs[j]);
    EscapeByteAt(bs[j], t, k);
  }

  /** An escape standing at position `k` reads back as its byte. */
  lemma EscapeByteAt(b: Byte, t: string, k: nat)
    requires k + 3 <= |t| && t[k..k + 3] == Escape(b)
    ensures ByteAt(t, k) == Some(b)
  {
    var hi, lo := b / 16, b % 16;
    assert t[k] == '%' && t[k + 1] == HexDigit(hi) && t[k + 2] == HexDigit(lo);
    HexRoundTrip(hi);
    HexRoundTrip(lo);
  }

  /** Reading continuation escapes back from an escaped byte sequence. */
  lemma ContinuationsRead(bs: seq<Byte>, rest: string, from: nat)
    requires 1 <= from <= |bs|
    requires forall j :: from <= j < |bs| ==> IsContinuation(bs[j])
    ensures ContinuationBytes(EscapeAll(bs) + rest, 3 * from, |bs| - from) == Some(bs[from..])
  {
    var t := EscapeAll(bs) + rest;
    forall j | from <= j < |bs|
      ensures ByteAt(t, 3 * j) == Some(bs[j])
    {
      EscapeAllAt(bs, rest, j);
    }
    ContinuationsAt(t, bs, from);
  }

  /** Continuation bytes escaped at every third position from `3 * from` on read back. */
  lemma {:induction false} ContinuationsAt(t: string, bs: seq<Byte>, from: nat)
    requires from <= |bs|
    requires forall j :: from <= j < |bs| ==> ByteAt(t, 3 * j) == Some(bs[j]) && IsContinuation(bs[j])
    ensures ContinuationBytes(t, 3 * from, |bs| - from) == Some(bs[from..])
    decreases |bs| - from
  {
    if from < |bs| {
      var k, tail := 3 * from, bs[from + 1..];
      ContinuationsAt(t, bs, from + 1);
      assert 3 * (from + 1) == k + 3;
      ContinuationStep(t, k, |bs| - from, bs[from], tail);
      assert bs[from..] == [bs[from]] + tail;
    } else {
      assert bs[from..] == [];
    }
  }

  /** A continuation byte read, and the remaining ones read, make all of them read. */
  lemma ContinuationStep(s: string, from: nat, count: nat, b: Byte, bs: seq<Byte>)
    requires count > 0 && ByteAt(s, from) == Some(b) && IsContinuation(b)
    requires ContinuationBytes(s, from + 3, count - 1) == Some(bs)
    ensures ContinuationBytes(s, from, count) == Some([b] + bs)
  {
  }

  /** What decoding needs of a byte sequence `Utf8` writes. */
  predicate Utf8Shape(c: char, bs: seq<Byte>) {
    && 1 <= |bs| <= 4
    && SequenceLength(bs[0]) == |bs|
    && (forall j :: 1 <= j < |bs| ==> IsContinuation(bs[j]))
    && CodePoint(bs[0], bs[1..]) == c as int
    && WellFormed(c as int, |bs|)
  }

  /** The bytes `Utf8` writes form a well-formed sequence whose code point is the character. */
  lemma Utf8Facts(c: char)
    ensures var bs := Utf8(c);
            && SequenceLength(bs[0]) == |bs|
            && (forall j :: 1 <= j < |bs| ==> IsContinuation(bs[j]))
            && CodePoint(bs[0], bs[1..]) == c as int
            && WellFormed(c as int, |bs|)
  {
    var cp := c as int;
    if cp < 0x800 {
      Utf8Short(c);
    } else if cp < 0x10000 {
      Utf8Three(c);
    } else {
      Utf8Four(c);
    }
  }

  lemma Utf8Short(c: char)
    requires c as int < 0x800
    ensures Utf8Shape(c, Utf8(c))
  {
  }

  lemma Utf8Three(c: char)
    requires 0x800 <= c as int < 0x10000
    ensures Utf8Shape(c, Utf8(c))
  {
    var cp := c as int;
    var q1 := cp / 64;
    var q2 := q1 / 64;
    assert cp == q1 * 64 + cp % 64;
    assert q1 == q2 * 64 + q1 % 64;
  }

  lemma Utf8Four(c: char)
    requires 0x10000 <= c as int
    ensures Utf8Shape(c, Utf8(c))
  {
    var cp := c as int;
    var q1 := cp / 64;
    var q2 := q1 / 64;
    var q3 := q2 / 64;
    assert cp == q1 * 64 + cp % 64;
    assert q1 == q2 * 64 + q1 % 64;
    assert q2 == q3 * 64 + q2 % 64;
  }

  /** Decoding the encoding of one character, whatever follows, takes back exactly that character. */
  lemma DecodeOneEncodeChar(c: char, rest: string)
    ensures |EncodeChar(c)| > 0
    ensures DecodeOne(EncodeChar(c) + rest) == Some((c, |EncodeChar(c)|))
  {
    if !IsUnreserved(c) {
      var bs := Utf8(c);
      var t := EscapeAll(bs) + rest;
      Utf8Facts(c);
      EscapeAllAt(bs, rest, 0);
      assert t[0] == '%';
      ContinuationsRead(bs, rest, 1);
      assert 3 * 1 == 3;
    }
  }
}
