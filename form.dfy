/**
 * Decoding of `application/x-www-form-urlencoded` text into name/value pairs,
 * as the `URLSearchParams` constructor does it (section 5.1 of the WHATWG URL
 * Standard) and as `querystring.parse` of Node.js groups it. Both split on
 * `&`, skip empty sequences, cut each sequence at its first `=`, read `+` as a
 * space and percent-decode leniently: an escape that does not spell a
 * character is kept or replaced instead of making the parse fail.
 */
module FormCodec {
  import opened Wrappers
  import opened Text
  import opened Percent

  /** U+FFFD, written for bytes that are not well-formed UTF-8. */
  const Replacement: char := '\U{FFFD}'

  /** `s` with every `+` read as a space. */
  function Plus(s: string): (r: string)
    ensures |r| == |s|
    ensures forall i :: 0 <= i < |s| ==> r[i] == (if s[i] == '+' then ' ' else s[i])
  {
    seq(|s|, i requires 0 <= i < |s| => if s[i] == '+' then ' ' else s[i])
  }

  /**
   * Lenient percent-decoding: a run of escapes spelling a well-formed UTF-8
   * sequence gives its character, a `%` not followed by two hexadecimal digits
   * stays as it is, and an escape that starts no well-formed sequence becomes
   * U+FFFD.
   */
  function LenientDecode(s: string): string
    decreases |s|
  {
    if s == [] then []
    else match DecodeOne(s)
      case Some((c, n)) => [c] + LenientDecode(s[n..])
      case None =>
        if ByteAt(s, 0).Some? then [Replacement] + LenientDecode(s[3..])
        else [s[0]] + LenientDecode(s[1..])
  }

  /** Where strict decoding succeeds, lenient decoding gives the same string. */
  lemma {:induction false} LenientAgrees(s: string)
    requires Decode(s).Some?
    ensures LenientDecode(s) == Decode(s).value
    decreases |s|
  {
    if s != [] {
      var (c, n) := DecodeOne(s).value;
      LenientAgrees(s[n..]);
    }
  }

  /** Lenient decoding undoes `encodeURIComponent`. */
  lemma LenientEncode(s: string)
    ensures LenientDecode(Encode(s)) == s
  {
    DecodeEncode(s);
    LenientAgrees(Encode(s));
  }

  /** A malformed escape is kept as it is. */
  lemma LenientKeepsBadEscape()
    ensures LenientDecode("%zz") == "%zz"
  {
    assert "%zz"[1..] == "zz" && "zz"[1..] == "z" && "z"[1..] == [];
  }

  /** A `%` at the very end is kept. */
  lemma LenientKeepsTrailingPercent()
    ensures LenientDecode("100%") == "100%"
  {
    assert "100%"[1..] == "00%" && "00%"[1..] == "0%" && "0%"[1..] == "%" && "%"[1..] == [];
  }

  /** Each byte of an overlong (invalid) UTF-8 sequence becomes U+FFFD. */
  lemma LenientReplacesInvalid()
    ensures LenientDecode("%C0%80") == [Replacement, Replacement]
  {
    assert "%C0%80"[3..] == "%80" && "%80"[3..] == [];
  }

  /** A valid escape decodes, and a bare `%` after it is kept. */
  lemma LenientDecodesValid()
    ensures LenientDecode("%41%") == "A%"
  {
    assert "%41%"[3..] == "%" && "%"[1..] == [];
  }

  /** One sequence of the input cut at its first `=`: none when it is empty. */
  function RawSegment(seg: string): (r: Option<(string, string)>)
    ensures r.None? <==> |seg| == 0
  {
    if |seg| == 0 then None
    else
      var i := IndexOf(seg, '=');
      if i < 0 then Some((seg, "")) else Some((seg[..i], seg[i + 1..]))
  }

  /** A sequence cut at its first `=`: the name holds no `=`, and name, `=` and value give the sequence back. */
  lemma RawSegmentCut(seg: string)
    requires '=' in seg
    ensures var (name, value) := RawSegment(seg).value;
      '=' !in name && seg == name + "=" + value
  {
    var i := IndexOf(seg, '=');
    assert seg == seg[..i] + "=" + seg[i + 1..];
  }

  /** A sequence without `=` is a name with the empty value. */
  lemma RawSegmentBare(seg: string)
    requires |seg| > 0 && '=' !in seg
    ensures RawSegment(seg) == Some((seg, ""))
  {
  }

  /** The pair a sequence contributes: its name and value with `+` as space, percent-decoded. */
  function Segment(seg: string): (r: Option<(string, string)>)
    ensures r.None? <==> |seg| == 0
  {
    match RawSegment(seg)
    case None => None
    case Some((name, value)) => Some((LenientDecode(Plus(name)), LenientDecode(Plus(value))))
  }

  /** The pairs of a list of sequences, in order, empty sequences skipped. */
  function Segments(segs: seq<string>): (r: seq<(string, string)>)
    ensures |r| <= |segs|
  {
    if segs == [] then []
    else (match Segment(segs[0]) case None => [] case Some(p) => [p]) + Segments(segs[1..])
  }

  /** The pairs of `application/x-www-form-urlencoded` text split on `&`. */
  function ParsePairs(text: string): seq<(string, string)> {
    Segments(Split(text, '&'))
  }

  /**
   * `new URLSearchParams(init)` for a string: one leading `?` dropped, then the
   * pairs in order. Without a leading `?`, grouping them by key gives what
   * `querystring.parse` gives.
   */
  function SearchParams(init: string): (r: seq<(string, string)>)
    ensures (|init| == 0 || init[0] != '?') ==> QueryParse(init) == Group(r)
  {
    ParsePairs(if |init| > 0 && init[0] == '?' then init[1..] else init)
  }

  /** One pair written with `encodeURIComponent`: `name=value`. */
  function EncodePair(p: (string, string)): string {
    Encode(p.0) + "=" + Encode(p.1)
  }

  /** Each pair written with `encodeURIComponent`, in order. */
  function EncodePairs(pairs: seq<(string, string)>): seq<string> {
    if pairs == [] then [] else [EncodePair(pairs[0])] + EncodePairs(pairs[1..])
  }

  /** Pairs written as form text, joined by `&`. */
  function FormText(pairs: seq<(string, string)>): string {
    Join(EncodePairs(pairs), "&")
  }

  /** No character of an encoded string can be `+`, `&`, `=` or `?`. */
  lemma EncodedFree(s: string)
    ensures '+' !in Encode(s) && '&' !in Encode(s) && '=' !in Encode(s) && '?' !in Encode(s)
  {
    EncodedCharsFree(Encode(s));
  }

  /** Text made only of encoded characters holds none of `+`, `&`, `=` and `?`. */
  lemma EncodedCharsFree(e: string)
    requires forall c :: c in e ==> IsEncodedChar(c)
    ensures '+' !in e && '&' !in e && '=' !in e && '?' !in e
  {
    assert !IsEncodedChar('+') && !IsEncodedChar('&') && !IsEncodedChar('=') && !IsEncodedChar('?');
  }

  /** Text without `+` is left alone by `Plus`. */
  lemma PlusFree(s: string)
    requires '+' !in s
    ensures Plus(s) == s
  {
  }

  /** An encoded pair reads back as the pair. */
  lemma SegmentEncodePair(p: (string, string))
    ensures Segment(EncodePair(p)) == Some(p)
  {
    var k, v := Encode(p.0), Encode(p.1);
    EncodedFree(p.0);
    EncodedFree(p.1);
    IndexOfAfterFree(k, '=', "=" + v);
    assert EncodePair(p) == k + ("=" + v);
    assert EncodePair(p)[..|k|] == k;
    assert EncodePair(p)[|k| + 1..] == v;
    PlusFree(k);
    PlusFree(v);
    LenientEncode(p.0);
    LenientEncode(p.1);
  }

  /** The sequences of encoded pairs read back as the pairs. */
  lemma {:induction false} SegmentsEncoded(pairs: seq<(string, string)>)
    ensures Segments(EncodePairs(pairs)) == pairs
  {
    if pairs != [] {
      var parts := EncodePairs(pairs);
      SegmentEncodePair(pairs[0]);
      assert parts[1..] == EncodePairs(pairs[1..]);
      SegmentsEncoded(pairs[1..]);
      assert pairs == [pairs[0]] + pairs[1..];
    }
  }

  /** No encoded pair holds `&`. */
  lemma {:induction false} EncodePairsFree(pairs: seq<(string, string)>)
    ensures |EncodePairs(pairs)| == |pairs|
    ensures forall p :: p in EncodePairs(pairs) ==> '&' !in p
  {
    if pairs != [] {
      EncodePairsFree(pairs[1..]);
      EncodedFree(pairs[0].0);
      EncodedFree(pairs[0].1);
    }
  }

  /** Form text written from pairs parses back to exactly those pairs, with or without a leading `?`. */
  lemma FormRoundTrip(pairs: seq<(string, string)>)
    ensures SearchParams(FormText(pairs)) == pairs
    ensures SearchParams("?" + FormText(pairs)) == pairs
    ensures ParsePairs(FormText(pairs)) == pairs
  {
    var parts := EncodePairs(pairs);
    var text := FormText(pairs);
    if pairs == [] {
      SplitFree("", '&');
    } else {
      EncodePairsFree(pairs);
      SplitJoin(parts, '&');
      SegmentsEncoded(pairs);
      EncodedFree(pairs[0].0);
      var k := Encode(pairs[0].0);
      assert parts[0] == k + "=" + Encode(pairs[0].1);
      assert parts[0][0] != '?' by {
        if |k| > 0 {
          assert parts[0][0] == k[0];
        }
      }
      FirstChar(parts);
    }
    assert ("?" + text)[1..] == text;
  }

  /** Joined form text starts with its first part, which here never starts with `?`. */
  lemma FirstChar(parts: seq<string>)
    requires |parts| >= 1 && |parts[0]| > 0 && parts[0][0] != '?'
    ensures |Join(parts, "&")| > 0 && Join(parts, "&")[0] != '?'
  {
  }

  /** Text made of unreserved characters is its own encoding. */
  lemma {:induction false} EncodeUnreserved(s: string)
    requires forall i :: 0 <= i < |s| ==> IsUnreserved(s[i])
    ensures Encode(s) == s
  {
    if s != [] {
      EncodeUnreserved(s[1..]);
    }
  }

  /** The form text of two plain pairs. */
  lemma TwoPairsText()
    ensures FormText([("a", "1"), ("b", "2")]) == "a=1&b=2"
  {
    var pairs := [("a", "1"), ("b", "2")];
    EncodeUnreserved("a");
    EncodeUnreserved("b");
    EncodeUnreserved("1");
    EncodeUnreserved("2");
    assert EncodePair(pairs[0]) == "a" + "=" + "1" == "a=1";
    assert EncodePair(pairs[1]) == "b" + "=" + "2" == "b=2";
    assert pairs[1..][1..] == [];
    assert EncodePairs(pairs) == ["a=1", "b=2"];
    assert Join(["a=1", "b=2"], "&") == "a=1&b=2";
  }

  /** `a=1&b=2` gives `a` with `1` and then `b` with `2`. */
  lemma ExampleTwoPairs()
    ensures SearchParams("a=1&b=2") == [("a", "1"), ("b", "2")]
  {
    FormRoundTrip([("a", "1"), ("b", "2")]);
    TwoPairsText();
  }

  /** The values paired with `k`, in order. */
  function ValuesOf(pairs: seq<(string, string)>, k: string): (r: seq<string>)
    ensures |r| <= |pairs|
  {
    if pairs == [] then []
    else
      var last := pairs[|pairs| - 1];
      ValuesOf(pairs[..|pairs| - 1], k) + (if last.0 == k then [last.1] else [])
  }

  /**
   * The object `querystring.parse` builds from the pairs: a key seen once holds
   * its value, a repeated key the array of its values; both are kept here as
   * the list of values.
   */
  function Group(pairs: seq<(string, string)>): map<string, seq<string>> {
    if pairs == [] then map[]
    else
      var m := Group(pairs[..|pairs| - 1]);
      var last := pairs[|pairs| - 1];
      m[last.0 := (if last.0 in m then m[last.0] else []) + [last.1]]
  }

  /** A key is in the object exactly when some pair has it, and it holds all of that key's values in order. */
  lemma {:induction false} GroupLookup(pairs: seq<(string, string)>, k: string)
    ensures k in Group(pairs) <==> |ValuesOf(pairs, k)| > 0
    ensures k in Group(pairs) ==> Group(pairs)[k] == ValuesOf(pairs, k)
  {
    if pairs != [] {
      GroupLookup(pairs[..|pairs| - 1], k);
    }
  }

  /**
   * `querystring.parse(text)`: the pairs of `text`, a leading `?` included in
   * the first name, grouped by key. A key is present exactly when some pair
   * names it, and then holds every value given for it, in order.
   */
  function QueryParse(text: string): (r: map<string, seq<string>>)
    ensures forall k :: k in r <==> |ValuesOf(ParsePairs(text), k)| > 0
    ensures forall k :: k in r ==> r[k] == ValuesOf(ParsePairs(text), k)
  {
    GroupAll(ParsePairs(text));
    Group(ParsePairs(text))
  }

  /** `GroupLookup` for every key at once. */
  lemma GroupAll(pairs: seq<(string, string)>)
    ensures forall k :: k in Group(pairs) <==> |ValuesOf(pairs, k)| > 0
    ensures forall k :: k in Group(pairs) ==> Group(pairs)[k] == ValuesOf(pairs, k)
  {
    forall k {
      GroupLookup(pairs, k);
    }
  }

  /** Form text written from pairs parses back, under `querystring.parse`, to those pairs grouped by key. */
  lemma QueryRoundTrip(pairs: seq<(string, string)>)
    ensures QueryParse(FormText(pairs)) == Group(pairs)
  {
    FormRoundTrip(pairs);
  }

  /** Unlike `URLSearchParams`, `querystring.parse` keeps a leading `?` as part of the first name. */
  lemma QueryKeepsQuestionMark()
    ensures SearchParams("?a=1") == [("a", "1")]
    ensures QueryParse("?a=1") == map["?a" := ["1"]]
  {
    SearchOnePair();
    QueryOnePair();
  }

  /** `?a=1` read by `URLSearchParams`: the `?` is dropped and the pair is `a`, `1`. */
  lemma SearchOnePair()
    ensures SearchParams("?a=1") == [("a", "1")]
  {
    FormRoundTrip([("a", "1")]);
    OnePairText();
    assert "?" + FormText([("a", "1")]) == "?a=1";
  }

  /** The form text of one plain pair. */
  lemma OnePairText()
    ensures FormText([("a", "1")]) == "a=1"
  {
    EncodeUnreserved("a");
    EncodeUnreserved("1");
    assert EncodePair(("a", "1")) == "a" + "=" + "1" == "a=1";
    assert [("a", "1")][1..] == [];
    assert EncodePairs([("a", "1")]) == ["a=1"];
  }

  /** A name and value with no `=` in the name and no `+` or `%` in either read back from `name=value`. */
  lemma SegmentPlain(name: string, value: string)
    requires '=' !in name && '+' !in name && '%' !in name && '+' !in value && '%' !in value
    ensures Segment(name + "=" + value) == Some((name, value))
  {
    var seg := name + "=" + value;
    assert RawSegment(seg) == Some((name, value)) by {
      IndexOfAfterFree(name, '=', "=" + value);
      assert seg == name + ("=" + value);
      assert seg[..|name|] == name && seg[|name| + 1..] == value;
    }
    PlainReads(name);
    PlainReads(value);
  }

  /** Text with no `+` or `%` is left as it is. */
  lemma PlainReads(s: string)
    requires '+' !in s && '%' !in s
    ensures LenientDecode(Plus(s)) == s
  {
    PlusFree(s);
    DecodePlain(s);
    LenientAgrees(s);
  }

  /** `?a=1` read by `querystring.parse`: the single pair named `?a`. */
  lemma QueryOnePair()
    ensures QueryParse("?a=1") == map["?a" := ["1"]]
  {
    var one := [("?a", "1")];
    assert ParsePairs("?a=1") == one by {
      SplitFree("?a=1", '&');
      SegmentPlain("?a", "1");
      assert "?a" + "=" + "1" == "?a=1";
      assert ["?a=1"][1..] == [];
    }
    assert Group(one) == map["?a" := ["1"]] by {
      assert one[..0] == [] && one[0] == ("?a", "1");
      assert Group(one) == map[]["?a" := [] + ["1"]];
      assert [] + ["1"] == ["1"];
    }
  }
}
