/**
 * The cookie codec of src/Cookies.ts (repeated in lib/node-cgi.js): the
 * request-side `Cookie:` header parser that fills a name-to-value store, and
 * the response-side `serializeCookie` that renders a `Set-Cookie` value.
 */
module CookieCodec {
  import opened Wrappers
  import opened Text
  import opened JsObjects
  import Percent

  /**
   * An outgoing cookie. An attribute the source leaves `undefined` is the
   * empty string or `false` here: both are falsy, and `serializeCookie` only
   * tests truthiness. `expires` holds the text `toUTCString` gives the date.
   */
  datatype Cookie = Cookie(
    name: string,
    value: string,
    domain: string,
    path: string,
    expires: Option<string>,
    httpOnly: bool,
    sameSite: string,
    secure: bool)

  /**
   * `value.slice(1, -1)` when the value starts with a double quote: the value
   * is its first character, the result, and one more character, whatever that
   * last one is; a lone quote gives the empty string. Any other value is kept.
   */
  function Unquote(v: string): (r: string)
    ensures |v| >= 2 && v[0] == '"' ==> |r| == |v| - 2 && v == [v[0]] + r + [v[|v| - 1]]
    ensures v == "\"" ==> r == ""
    ensures (|v| == 0 || v[0] != '"') ==> r == v
  {
    if |v| > 0 && v[0] == '"' then (if |v| >= 2 then v[1..|v| - 1] else "") else v
  }

  /** `decodeURIComponent(v)`, or `v` itself when decoding throws. */
  function DecodeOrRaw(v: string): string {
    match Percent.Decode(v)
    case Some(d) => d
    case None => v
  }

  /**
   * What one `;`-separated segment contributes to the store: nothing when it
   * has no `=`; otherwise the trimmed text before the first `=` as key and the
   * trimmed, unquoted and decoded rest (which may itself hold `=`) as value.
   */
  function SegmentEntry(segment: string): (r: Option<(string, string)>)
    ensures r.None? <==> '=' !in segment
  {
    var eq := IndexOf(segment, '=');
    if eq < 0 then None
    else Some((Trim(segment[..eq]), DecodeOrRaw(Unquote(Trim(segment[eq + 1..])))))
  }

  /** The entry of a segment with `=`, written out. */
  lemma SegmentEntryFound(segment: string, eq: int)
    requires eq == IndexOf(segment, '=') && 0 <= eq
    ensures SegmentEntry(segment) == Some((Trim(segment[..eq]), DecodeOrRaw(Unquote(Trim(segment[eq + 1..])))))
  {
  }

  /** The entries `entry` gives a list of segments, one per segment, in order. */
  function EntriesBy(entry: string -> Option<(string, string)>, segments: seq<string>): seq<Option<(string, string)>> {
    if segments == [] then []
    else EntriesBy(entry, segments[..|segments| - 1]) + [entry(segments[|segments| - 1])]
  }

  /** Entry `i` is the entry of segment `i`. */
  lemma {:induction false} EntriesByAt(entry: string -> Option<(string, string)>, segments: seq<string>)
    ensures |EntriesBy(entry, segments)| == |segments|
    ensures forall i :: 0 <= i < |segments| ==> EntriesBy(entry, segments)[i] == entry(segments[i])
  {
    if segments != [] {
      var n := |segments| - 1;
      var front := segments[..n];
      EntriesByAt(entry, front);
      forall i | 0 <= i < |segments|
        ensures EntriesBy(entry, segments)[i] == entry(segments[i])
      {
        if i < n {
          assert front[i] == segments[i];
        }
      }
    }
  }

  /** The entries of a list of segments. */
  function SegmentEntries(segments: seq<string>): seq<Option<(string, string)>> {
    EntriesBy(SegmentEntry, segments)
  }

  /** The store built from a list of entries, in order: a later key overwrites an earlier one. */
  function EntryStore(entries: seq<Option<(string, string)>>): map<string, string> {
    if entries == [] then map[]
    else
      var init := EntryStore(entries[..|entries| - 1]);
      match entries[|entries| - 1]
      case None => init
      case Some((k, v)) => init[k := v]
  }

  /** The store built from a list of segments. */
  function ParseSegments(segments: seq<string>): map<string, string> {
    EntryStore(SegmentEntries(segments))
  }

  /**
   * The store the `Cookies` constructor builds from a `Cookie` header (`None`
   * for a missing header). No stored name holds `;` or `=`.
   */
  function ParseHeader(header: Option<string>): (r: map<string, string>)
    ensures forall k :: k in r ==> ';' !in k && '=' !in k
  {
    if header.None? || |header.value| == 0 then map[]
    else
      ParseSegmentsKeys(Split(header.value, ';'));
      ParseSegments(Split(header.value, ';'))
  }

  /** The key of a segment's entry holds neither `=` nor any character the segment lacks. */
  lemma SegmentKeyFree(segment: string, c: char)
    requires c !in segment
    ensures SegmentEntry(segment).Some? ==> c !in SegmentEntry(segment).value.0 && '=' !in SegmentEntry(segment).value.0
  {
    var eq := IndexOf(segment, '=');
    if 0 <= eq {
      var before := segment[..eq];
      assert forall x :: x in before ==> x in segment;
      TrimFree(before, c);
      TrimFree(before, '=');
    }
  }

  /** Segments without `;` store only names without `;` or `=`. */
  lemma ParseSegmentsKeys(segments: seq<string>)
    requires forall p :: p in segments ==> ';' !in p
    ensures forall k :: k in ParseSegments(segments) ==> ';' !in k && '=' !in k
  {
    var entries := SegmentEntries(segments);
    EntriesByAt(SegmentEntry, segments);
    forall k | k in ParseSegments(segments)
      ensures ';' !in k && '=' !in k
    {
      EntryStoreLookup(entries, k);
      var i :| 0 <= i < |entries| && HasKey(entries[i], k);
      assert segments[i] in segments;
      SegmentKeyFree(segments[i], ';');
    }
  }

  predicate HasKey(e: Option<(string, string)>, k: string) {
    e.Some? && e.value.0 == k
  }

  /** Entry `i` is the last one whose key is `k`. */
  predicate LastWithKey(entries: seq<Option<(string, string)>>, k: string, i: int) {
    && 0 <= i < |entries|
    && HasKey(entries[i], k)
    && forall j :: i < j < |entries| ==> !HasKey(entries[j], k)
  }

  /** A missing or empty header gives an empty store. */
  lemma ParseEmpty()
    ensures ParseHeader(None) == map[]
    ensures ParseHeader(Some("")) == map[]
  {
  }

  /** The store after one more entry: that entry's key set to its value, or nothing for no entry. */
  function Update(store: map<string, string>, e: Option<(string, string)>): map<string, string> {
    if e.Some? then store[e.value.0 := e.value.1] else store
  }

  lemma EntryStoreStep(entries: seq<Option<(string, string)>>)
    requires entries != []
    ensures EntryStore(entries) == Update(EntryStore(entries[..|entries| - 1]), entries[|entries| - 1])
  {
  }

  /** Some entry has key `k`. */
  predicate AnyKey(entries: seq<Option<(string, string)>>, k: string) {
    exists i :: 0 <= i < |entries| && HasKey(entries[i], k)
  }

  /** The store holds a key exactly when some entry has it. */
  lemma {:induction false} EntryStoreHas(entries: seq<Option<(string, string)>>, k: string)
    ensures k in EntryStore(entries) <==> AnyKey(entries, k)
  {
    if entries != [] {
      var n := |entries| - 1;
      var init := entries[..n];
      EntryStoreHas(init, k);
      EntryStoreStep(entries);
      if AnyKey(init, k) {
        var i :| 0 <= i < n && HasKey(init[i], k);
        assert HasKey(entries[i], k);
      }
      if AnyKey(entries, k) && !HasKey(entries[n], k) {
        var i :| 0 <= i < |entries| && HasKey(entries[i], k);
        assert i < n && HasKey(init[i], k);
      }
    }
  }

  /** The last entry with key `k` decides its value. */
  lemma {:induction false} EntryStoreLast(entries: seq<Option<(string, string)>>, k: string, i: int)
    requires LastWithKey(entries, k, i)
    ensures k in EntryStore(entries) && EntryStore(entries)[k] == entries[i].value.1
  {
    var n := |entries| - 1;
    var init := entries[..n];
    EntryStoreStep(entries);
    if i < n {
      assert !HasKey(entries[n], k);
      assert LastWithKey(init, k, i) by {
        assert init[i] == entries[i];
        forall j | i < j < |init|
          ensures !HasKey(init[j], k)
        {
          assert init[j] == entries[j];
        }
      }
      EntryStoreLast(init, k, i);
    }
  }

  /**
   * The store holds a key exactly when some entry has that key, and then
   * holds the value of the last such entry: duplicates are resolved by the
   * last occurrence.
   */
  lemma EntryStoreLookup(entries: seq<Option<(string, string)>>, k: string)
    ensures k in EntryStore(entries) <==> exists i :: 0 <= i < |entries| && HasKey(entries[i], k)
    ensures forall i :: LastWithKey(entries, k, i) ==>
      k in EntryStore(entries) && EntryStore(entries)[k] == entries[i].value.1
  {
    EntryStoreHas(entries, k);
    forall i | LastWithKey(entries, k, i)
      ensures k in EntryStore(entries) && EntryStore(entries)[k] == entries[i].value.1
    {
      EntryStoreLast(entries, k, i);
    }
  }

  /** Segment `i` is the last segment whose key is `k`. */
  predicate LastSegmentWithKey(segments: seq<string>, k: string, i: int) {
    && 0 <= i < |segments|
    && HasKey(SegmentEntry(segments[i]), k)
    && forall j :: i < j < |segments| ==> !HasKey(SegmentEntry(segments[j]), k)
  }

  /** The same for the segments of a header: a segment without `=` adds nothing, and the last segment with a key decides its value. */
  lemma ParseSegmentsLookup(segments: seq<string>, k: string)
    ensures k in ParseSegments(segments) <==>
      exists i :: 0 <= i < |segments| && HasKey(SegmentEntry(segments[i]), k)
    ensures forall i :: LastSegmentWithKey(segments, k, i) ==>
      k in ParseSegments(segments) && ParseSegments(segments)[k] == SegmentEntry(segments[i]).value.1
  {
    var es := SegmentEntries(segments);
    EntriesByAt(SegmentEntry, segments);
    EntryStoreHas(es, k);
    if exists i :: 0 <= i < |segments| && HasKey(SegmentEntry(segments[i]), k) {
      var i :| 0 <= i < |segments| && HasKey(SegmentEntry(segments[i]), k);
      assert HasKey(es[i], k);
    }
    if AnyKey(es, k) {
      var i :| 0 <= i < |es| && HasKey(es[i], k);
      assert HasKey(SegmentEntry(segments[i]), k);
    }
    forall i | LastSegmentWithKey(segments, k, i)
      ensures k in ParseSegments(segments) && ParseSegments(segments)[k] == SegmentEntry(segments[i]).value.1
    {
      assert LastWithKey(es, k, i);
      EntryStoreLast(es, k, i);
    }
  }

  /** One more entry at the end updates the store by that entry. */
  lemma EntryStoreSnoc(entries: seq<Option<(string, string)>>, e: Option<(string, string)>)
    ensures e.None? ==> EntryStore(entries + [e]) == EntryStore(entries)
    ensures e.Some? ==> EntryStore(entries + [e]) == EntryStore(entries)[e.value.0 := e.value.1]
  {
    assert (entries + [e])[..|entries|] == entries;
  }

  /** The entries of one more segment are the entries before it and that segment's entry. */
  lemma SegmentEntriesSnoc(segments: seq<string>, i: nat)
    requires i < |segments|
    ensures SegmentEntries(segments[..i + 1]) == SegmentEntries(segments[..i]) + [SegmentEntry(segments[i])]
  {
    assert segments[..i + 1][..i] == segments[..i];
  }

  /** One more segment updates the store by that segment's entry. */
  lemma ParseSegmentsStep(segments: seq<string>, i: nat)
    requires i < |segments|
    ensures ParseSegments(segments[..i + 1]) == Update(ParseSegments(segments[..i]), SegmentEntry(segments[i]))
  {
    var front := SegmentEntries(segments[..i]);
    var entries := front + [SegmentEntry(segments[i])];
    SegmentEntriesSnoc(segments, i);
    assert entries[..|entries| - 1] == front;
    EntryStoreStep(entries);
  }

  /** A segment without `=` leaves the store as it is. */
  lemma ParseSegmentsSkip(segments: seq<string>, i: nat)
    requires i < |segments| && IndexOf(segments[i], '=') < 0
    ensures ParseSegments(segments[..i + 1]) == ParseSegments(segments[..i])
  {
    ParseSegmentsStep(segments, i);
  }

  /** A segment with `=` stores its trimmed key with its trimmed, unquoted and decoded value. */
  lemma ParseSegmentsStore(segments: seq<string>, i: nat, key: string, value: string)
    requires i < |segments|
    requires var eq := IndexOf(segments[i], '=');
      && 0 <= eq
      && key == Trim(segments[i][..eq])
      && value == DecodeOrRaw(Unquote(Trim(segments[i][eq + 1..])))
    ensures ParseSegments(segments[..i + 1]) == ParseSegments(segments[..i])[key := value]
  {
    ParseSegmentsStep(segments, i);
  }

  /** A `Cookie` header whose first segment is `name=encodeURIComponent(value)` maps `name` back to `value`. */
  lemma CookiePairRoundTrip(name: string, value: string)
    requires ';' !in name && '=' !in name && Trim(name) == name
    ensures ParseHeader(Some(name + "=" + Percent.Encode(value))) == map[name := value]
  {
    var enc := Percent.Encode(value);
    var h := name + "=" + enc;
    EncodedPlain(value);
    FirstSegmentEntry(name, enc);
    TrimNoSpace(enc);
    Percent.DecodeEncode(value);
    assert SegmentEntry(h) == Some((name, value));
    assert ';' !in h;
    SingleSegment(h);
  }

  /** A `Cookie` header `name="encodeURIComponent(value)"`, the value in quotes, also maps `name` back to `value`. */
  lemma QuotedPairRoundTrip(name: string, value: string)
    requires ';' !in name && '=' !in name && Trim(name) == name
    ensures ParseHeader(Some(name + "=\"" + Percent.Encode(value) + "\"")) == map[name := value]
  {
    var enc := Percent.Encode(value);
    var h := name + "=" + Quoted(enc);
    QuotedText(name, enc);
    assert ';' !in h && SegmentEntry(h) == Some((name, value)) by {
      EncodedPlain(value);
      QuotedEntry(name, enc);
      Percent.DecodeEncode(value);
      QuotedFree(name, enc);
    }
    SingleSegment(h);
  }

  /** `"s"`: the text between two double quotes. */
  function Quoted(s: string): string {
    "\"" + s + "\""
  }

  /** `name="enc"` written out is `name=` followed by `Quoted(enc)`. */
  lemma QuotedText(name: string, enc: string)
    ensures name + "=\"" + enc + "\"" == name + "=" + Quoted(enc)
  {
  }

  /** The entry of `name="enc"`: the quotes are stripped and the rest decoded or kept. */
  lemma QuotedEntry(name: string, enc: string)
    requires '=' !in name && Trim(name) == name
    ensures SegmentEntry(name + "=" + Quoted(enc)) == Some((name, DecodeOrRaw(enc)))
  {
    var rest := Quoted(enc);
    var h := name + "=" + rest;
    FirstEquals(name, rest);
    TrimKeeps(rest);
    assert rest == [rest[0]] + enc + [rest[|rest| - 1]];
    assert Unquote(rest) == enc;
    SegmentEntryFound(h, |name|);
  }

  /** `name="enc"` holds no `;` when neither part does. */
  lemma QuotedFree(name: string, enc: string)
    requires ';' !in name && ';' !in enc
    ensures ';' !in name + "=" + Quoted(enc)
  {
    assert forall c :: c in name + "=" + Quoted(enc) ==> c in name || c == '=' || c == '"' || c in enc;
  }

  /** An encoded component holds no separator, no quote and no white space. */
  lemma EncodedPlain(value: string)
    ensures var enc := Percent.Encode(value);
      ';' !in enc && '=' !in enc && '"' !in enc && NoSpace(enc)
  {
    EncodedCharsPlain(Percent.Encode(value));
  }

  /** Text made only of encoded characters holds no separator, no quote and no white space. */
  lemma EncodedCharsPlain(enc: string)
    requires forall c :: c in enc ==> Percent.IsEncodedChar(c)
    ensures ';' !in enc && '=' !in enc && '"' !in enc && NoSpace(enc)
  {
    forall i | 0 <= i < |enc|
      ensures enc[i] != ';' && enc[i] != '=' && enc[i] != '"' && !IsSpace(enc[i])
    {
      assert Percent.IsEncodedChar(enc[i]);
    }
  }

  /** The entry of `name=rest`, when `name` holds no `=`. */
  lemma FirstSegmentEntry(name: string, rest: string)
    requires '=' !in name && Trim(name) == name
    requires '"' !in rest
    ensures SegmentEntry(name + "=" + rest) == Some((name, DecodeOrRaw(Trim(rest))))
  {
    FirstEquals(name, rest);
    TrimKeepsChars(rest);
  }

  /** In `name=rest` with no `=` in `name`, the first `=` follows `name`. */
  lemma FirstEquals(name: string, rest: string)
    requires '=' !in name
    ensures var h := name + "=" + rest;
      IndexOf(h, '=') == |name| && h[..|name|] == name && h[|name| + 1..] == rest
  {
    var h := name + ("=" + rest);
    assert name + "=" + rest == h;
    IndexOfAfterFree(name, '=', "=" + rest);
    assert h[..|name|] == name;
    assert h[|name| + 1..] == rest;
  }

  /** Trimming adds no character, so it keeps a string free of quotes. */
  lemma TrimKeepsChars(s: string)
    requires '"' !in s
    ensures '"' !in Trim(s)
  {
    var t := TrimStart(s);
    assert forall c :: c in t ==> c in s;
    assert forall c :: c in TrimEnd(t) ==> c in t;
  }

  /** A header of one segment stores that segment's entry. */
  lemma SingleSegment(h: string)
    requires ';' !in h && SegmentEntry(h).Some?
    ensures ParseHeader(Some(h)) == map[SegmentEntry(h).value.0 := SegmentEntry(h).value.1]
  {
    SplitFree(h, ';');
    OneSegment(h);
  }

  lemma OneSegment(h: string)
    requires SegmentEntry(h).Some?
    ensures ParseSegments([h]) == map[SegmentEntry(h).value.0 := SegmentEntry(h).value.1]
  {
    var e := SegmentEntry(h);
    EntriesByAt(SegmentEntry, [h]);
    assert SegmentEntries([h]) == [e];
    assert [e][..0] == [];
    EntryStoreStep([e]);
  }

  /** The attributes `serializeCookie` appends, each only when its field is truthy, in its fixed order. */
  function Attributes(c: Cookie): seq<string> {
    (if c.domain != "" then ["Domain=" + c.domain] else [])
    + (if c.path != "" then ["Path=" + c.path] else [])
    + (if c.expires.Some? then ["Expires=" + c.expires.value] else [])
    + (if c.httpOnly then ["HttpOnly"] else [])
    + (if c.sameSite != "" then ["SameSite=" + c.sameSite] else [])
    + (if c.secure then ["Secure"] else [])
  }

  /** The leading `name=encodeURIComponent(value)` pair of a serialized cookie. */
  function NamePair(c: Cookie): string {
    c.name + "=" + Percent.Encode(c.value)
  }

  /**
   * `Cookies.serializeCookie`: the name/value pair, then the attributes, joined
   * by `"; "`. The text always starts with `name=encodeURIComponent(value)`,
   * and is that pair alone exactly when no attribute is truthy.
   */
  function SerializeCookie(c: Cookie): (r: string)
    ensures |NamePair(c)| <= |r| && r[..|NamePair(c)|] == NamePair(c)
    ensures r == NamePair(c) <==> Attributes(c) == []
  {
    JoinHead(NamePair(c), Attributes(c), "; ");
    Join([NamePair(c)] + Attributes(c), "; ")
  }

  /** `xs` with a space put before each element. */
  function Spaced(xs: seq<string>): seq<string> {
    if xs == [] then [] else [" " + xs[0]] + Spaced(xs[1..])
  }

  /** Element `i` of `Spaced(xs)` is element `i` of `xs` after a space. */
  lemma {:induction false} SpacedAt(xs: seq<string>)
    ensures |Spaced(xs)| == |xs|
    ensures forall i :: 0 <= i < |xs| ==> Spaced(xs)[i] == " " + xs[i]
  {
    if xs != [] {
      SpacedAt(xs[1..]);
    }
  }

  /** Joining with `"; "` is joining with `";"` once every later part starts with a space. */
  lemma {:induction false} JoinSemicolonSpace(first: string, rest: seq<string>)
    ensures Join([first] + rest, "; ") == Join([first] + Spaced(rest), ";")
    decreases |rest|
  {
    if rest != [] {
      var r0, tail := rest[0], rest[1..];
      var spaced := Spaced(tail);
      assert rest == [r0] + tail;
      assert Spaced(rest) == [" " + r0] + spaced;
      var inner := Join(rest, "; ");
      assert inner == Join([r0] + spaced, ";") by {
        JoinSemicolonSpace(r0, tail);
      }
      assert Join(Spaced(rest), ";") == " " + inner by {
        JoinSpaceHead(r0, spaced);
      }
      JoinCons(first, rest, "; ");
      JoinCons(first, Spaced(rest), ";");
      assert first + "; " + inner == first + ";" + (" " + inner);
    }
  }

  lemma JoinSpaceHead(x: string, ys: seq<string>)
    ensures Join([" " + x] + ys, ";") == " " + Join([x] + ys, ";")
  {
    if ys != [] {
      JoinCons(" " + x, ys, ";");
      JoinCons(x, ys, ";");
    }
  }

  /**
   * A serialized cookie whose name and attributes hold no `;` splits back on
   * `;` into its name/value pair followed by its attributes, in order, each
   * after the space of the separator.
   */
  lemma SerializeSplits(c: Cookie)
    requires ';' !in c.name && ';' !in c.domain && ';' !in c.path && ';' !in c.sameSite
    requires c.expires.Some? ==> ';' !in c.expires.value
    ensures Split(SerializeCookie(c), ';') == [NamePair(c)] + Spaced(Attributes(c))
  {
    JoinSemicolonSpace(NamePair(c), Attributes(c));
    var attrs := Attributes(c);
    var parts := [NamePair(c)] + Spaced(attrs);
    NamePairFree(c);
    AttributesFree(c);
    SpacedAt(attrs);
    assert forall p :: p in Spaced(attrs) ==> exists a :: a in attrs && p == " " + a;
    SplitJoin(parts, ';');
  }

  lemma NamePairFree(c: Cookie)
    requires ';' !in c.name
    ensures ';' !in NamePair(c)
  {
    assert ';' !in Percent.Encode(c.value);
  }

  lemma AttributesFree(c: Cookie)
    requires ';' !in c.domain && ';' !in c.path && ';' !in c.sameSite
    requires c.expires.Some? ==> ';' !in c.expires.value
    ensures forall a :: a in Attributes(c) ==> ';' !in a
  {
  }

  /** So the first segment of a serialized cookie parses back to its name and value. */
  lemma SerializeParsesName(c: Cookie)
    requires ';' !in c.name && '=' !in c.name && Trim(c.name) == c.name
    requires ';' !in c.domain && ';' !in c.path && ';' !in c.sameSite
    requires c.expires.Some? ==> ';' !in c.expires.value
    ensures ParseHeader(Some(Split(SerializeCookie(c), ';')[0])) == map[c.name := c.value]
  {
    SerializeSplits(c);
    CookiePairRoundTrip(c.name, c.value);
  }

  /** A cookie with no attribute set serializes to its name/value pair alone. */
  lemma SerializeBare(c: Cookie)
    requires c.domain == "" && c.path == "" && c.expires.None? && !c.httpOnly && c.sameSite == "" && !c.secure
    ensures SerializeCookie(c) == NamePair(c)
  {
  }

  /** The parsed request cookies (`class Cookies`): a store filled once by the constructor. */
  class Cookies {
    var store: map<string, string>

    /** Parses the `Cookie` header, when there is a non-empty one. */
    constructor(cookieHeader: Option<string>)
      ensures store == ParseHeader(cookieHeader)
    {
      store := map[];
      new;
      if cookieHeader.Some? && |cookieHeader.value| > 0 {
        store := ParsePairs(Split(cookieHeader.value, ';'));
      }
    }

    /** The constructor's loop over the `;`-separated segments of the header. */
    static method ParsePairs(pairs: seq<string>) returns (parsed: map<string, string>)
      ensures parsed == ParseSegments(pairs)
    {
      parsed := map[];
      var index := 0;
      while index < |pairs|
        invariant 0 <= index <= |pairs|
        invariant parsed == ParseSegments(pairs[..index])
      {
        var found, key, value := ReadPair(pairs[index]);
        ParseSegmentsStep(pairs, index);
        if found {
          parsed := parsed[key := value];
        }
        index := index + 1;
      }
      assert pairs[..index] == pairs;
    }

    /**
     * The body of that loop for one segment: nothing without `=`; otherwise
     * the trimmed key and the trimmed value, unquoted, then decoded, or kept
     * raw when decoding throws.
     */
    static method ReadPair(pair: string) returns (found: bool, key: string, value: string)
      ensures found <==> '=' in pair
      ensures found ==> SegmentEntry(pair) == Some((key, value))
    {
      var indexOfEqual := IndexOf(pair, '=');
      if indexOfEqual < 0 {
        return false, "", "";
      }
      key := Trim(pair[..indexOfEqual]);
      value := DecodeOrRaw(Unquote(Trim(pair[indexOfEqual + 1..])));
      found := true;
      SegmentEntryFound(pair, indexOfEqual);
    }

    /** `get(key)`: the stored value, or `None` (undefined). */
    method Get(key: string) returns (r: Option<string>)
      ensures r.Some? <==> key in store
      ensures r.Some? ==> r.value == store[key]
    {
      r := if key in store then Some(store[key]) else None;
    }

    /**
     * The `data` getter: every stored pair assigned into a fresh `{}`, so a
     * `__proto__` key is not kept.
     */
    method Data() returns (r: map<string, string>)
      ensures forall k :: k in r <==> k in store && k != ProtoKey
      ensures forall k :: k in r ==> r[k] == store[k]
    {
      r := map[];
      var pending := store.Keys;
      while pending != {}
        invariant pending <= store.Keys
        invariant r.Keys == store.Keys - pending - {ProtoKey}
        invariant forall k :: k in r ==> r[k] == store[k]
        decreases pending
      {
        var k :| k in pending;
        if k != ProtoKey {
          r := r[k := store[k]];
        }
        pending := pending - {k};
      }
    }
  }
}
