/**
 * The JavaScript values the runtime moves around: what `Session.set` stores,
 * what the bundle's `write` prints, and what a session file keeps once
 * `JSON.stringify` has written it and `JSON.parse` has read it back.
 * Numbers are integers; an object is its own properties in order.
 */
module Values {
  import opened Wrappers
  import opened Text
  import Percent

  /**
   * A JavaScript value. The fields of a `JsObject` are its own properties in
   * order, and their keys are taken to be distinct, as in every JavaScript
   * object: a field list with a repeated key stands for no object.
   */
  datatype JsValue =
    | JsNull
    | JsUndefined
    | JsBool(b: bool)
    | JsNumber(n: int)
    | JsBigInt(big: int)
    | JsString(s: string)
    | JsArray(items: seq<JsValue>)
    | JsObject(fields: seq<Field>)

  /** One own property of an object. */
  datatype Field = Field(key: string, value: JsValue)

  /** `JSON.stringify` throws on a BigInt anywhere inside the value. */
  predicate Serializable(v: JsValue) {
    match v
    case JsBigInt(_) => false
    case JsArray(items) => forall i :: 0 <= i < |items| ==> Serializable(items[i])
    case JsObject(fields) => forall i :: 0 <= i < |fields| ==> Serializable(fields[i].value)
    case _ => true
  }

  /** A value that JSON stores as it is: no BigInt and no `undefined` anywhere inside. */
  predicate Plain(v: JsValue) {
    match v
    case JsBigInt(_) => false
    case JsUndefined => false
    case JsArray(items) => forall i :: 0 <= i < |items| ==> Plain(items[i])
    case JsObject(fields) => forall i :: 0 <= i < |fields| ==> Plain(fields[i].value)
    case _ => true
  }

  /** Lower-case hexadecimal digit, as `JSON.stringify` writes `\u00xx`. */
  function LowerHex(d: nat): char
    requires d < 16
  {
    if d < 10 then ('0' as int + d) as char else ('a' as int + d - 10) as char
  }

  /** How `JSON.stringify` writes one character inside a string literal. */
  function EscapeChar(c: char): string {
    if c == '"' then "\\\""
    else if c == '\\' then "\\\\"
    else if c == '\U{0008}' then "\\b"
    else if c == '\U{000C}' then "\\f"
    else if c == '\n' then "\\n"
    else if c == '\r' then "\\r"
    else if c == '\t' then "\\t"
    else if c < ' ' then ['\\', 'u', '0', '0', LowerHex(c as int / 16), LowerHex(c as int % 16)]
    else [c]
  }

  /** The body of a JSON string literal for `s`. */
  function Escaped(s: string): string {
    if s == [] then [] else EscapeChar(s[0]) + Escaped(s[1..])
  }

  /** `JSON.stringify(s)` for a string. */
  function Quote(s: string): string {
    "\"" + Escaped(s) + "\""
  }

  /** The code unit of four hexadecimal digits, or -1. */
  function Hex4(s: string): (r: int)
    requires |s| == 4
    ensures -1 <= r < 0x10000
  {
    var a, b, c, d := Percent.HexValue(s[0]), Percent.HexValue(s[1]), Percent.HexValue(s[2]), Percent.HexValue(s[3]);
    if a < 0 || b < 0 || c < 0 || d < 0 then -1 else ((a * 16 + b) * 16 + c) * 16 + d
  }

  /**
   * What `JSON.parse` reads from the body of a string literal: `None` for a
   * raw control character, a raw quote, an unknown escape or a cut-off one.
   */
  function Unescape(s: string): Option<string>
    decreases |s|
  {
    if s == [] then Some([])
    else if s[0] == '"' || s[0] < ' ' then None
    else if s[0] != '\\' then
      match Unescape(s[1..]) case None => None case Some(t) => Some([s[0]] + t)
    else if |s| < 2 then None
    else
      var e := s[1];
      if e == 'u' then
        if |s| < 6 then None
        else
          var u := Hex4(s[2..6]);
          if u < 0 || (0xD800 <= u < 0xE000) then None
          else match Unescape(s[6..]) case None => None case Some(t) => Some([u as char] + t)
      else
        var c :=
          if e == '"' then '"' else if e == '\\' then '\\' else if e == '/' then '/'
          else if e == 'b' then '\U{0008}' else if e == 'f' then '\U{000C}'
          else if e == 'n' then '\n' else if e == 'r' then '\r' else if e == 't' then '\t'
          else ' ';
        if c == ' ' then None
        else match Unescape(s[2..]) case None => None case Some(t) => Some([c] + t)
  }

  /** Reading the escaped form of one character, whatever follows, gives the character back. */
  lemma UnescapeChar(c: char, rest: string)
    ensures Unescape(EscapeChar(c) + rest) ==
      match Unescape(rest) case None => None case Some(t) => Some([c] + t)
  {
    var e := EscapeChar(c);
    var s := e + rest;
    if c < ' ' && c != '\U{0008}' && c != '\U{000C}' && c != '\n' && c != '\r' && c != '\t' {
      var hi, lo := c as int / 16, c as int % 16;
      assert s[2..6] == ['0', '0', LowerHex(hi), LowerHex(lo)];
      assert Hex4(s[2..6]) == hi * 16 + lo;
      assert s[6..] == rest;
    } else if |e| == 2 {
      assert s[2..] == rest;
    } else {
      assert s[1..] == rest;
    }
  }

  /** `JSON.parse` reads back every string `JSON.stringify` writes. */
  lemma {:induction false} UnescapeEscaped(s: string)
    ensures Unescape(Escaped(s)) == Some(s)
  {
    if s != [] {
      UnescapeChar(s[0], Escaped(s[1..]));
      UnescapeEscaped(s[1..]);
      assert s == [s[0]] + s[1..];
    }
  }

  /** Join texts that are all present, or `None` when one is missing (a thrown TypeError). */
  function AllPresent(parts: seq<Option<string>>): (r: Option<seq<string>>)
    ensures r.Some? <==> forall i :: 0 <= i < |parts| ==> parts[i].Some?
    ensures r.Some? ==> |r.value| == |parts| && forall i :: 0 <= i < |parts| ==> r.value[i] == parts[i].value
  {
    if parts == [] then Some([])
    else match (parts[0], AllPresent(parts[1..]))
      case (Some(p), Some(ps)) => Some([p] + ps)
      case _ => None
  }

  /** The members `JSON.stringify` writes for an object: properties holding `undefined` are skipped. */
  function Members(fields: seq<Field>, texts: seq<Option<string>>): seq<Option<string>>
    requires |texts| == |fields|
  {
    if fields == [] then []
    else
      var rest := Members(fields[1..], texts[1..]);
      if fields[0].value.JsUndefined? then rest
      else [match texts[0] case None => None case Some(t) => Some(Quote(fields[0].key) + ":" + t)] + rest
  }

  /** A member is missing exactly when the text of a property that is not `undefined` is. */
  lemma {:induction false} MembersPresent(fields: seq<Field>, texts: seq<Option<string>>)
    requires |texts| == |fields|
    requires forall i :: 0 <= i < |fields| ==> fields[i].value.JsUndefined? ==> texts[i].Some?
    ensures (forall i :: 0 <= i < |Members(fields, texts)| ==> Members(fields, texts)[i].Some?) <==>
            forall i :: 0 <= i < |texts| ==> texts[i].Some?
  {
    if fields != [] {
      var fs, ts := fields[1..], texts[1..];
      assert forall i :: 0 <= i < |fs| ==> fs[i] == fields[i + 1] && ts[i] == texts[i + 1];
      MembersPresent(fs, ts);
      var rest := Members(fs, ts);
      var all := Members(fields, texts);
      assert (forall i :: 0 <= i < |texts| ==> texts[i].Some?) <==>
             texts[0].Some? && forall i :: 0 <= i < |ts| ==> ts[i].Some?;
      if !fields[0].value.JsUndefined? {
        assert all[1..] == rest;
        assert all[0].Some? <==> texts[0].Some?;
        assert (forall i :: 0 <= i < |all| ==> all[i].Some?) <==>
               all[0].Some? && forall i :: 0 <= i < |rest| ==> rest[i].Some?;
      }
    }
  }

  /**
   * `JSON.stringify(v)` as the text of an array element or of a property
   * value; `undefined` as an element is written `null`. `None` where it throws.
   * A top-level `JSON.stringify(undefined)` gives `undefined` rather than text;
   * no caller reaches that case, because `write` handles `undefined` before it
   * and the session data only reaches it inside an object.
   */
  function Json(v: JsValue): (r: Option<string>)
    ensures r.Some? <==> Serializable(v)
  {
    match v
    case JsNull => Some("null")
    case JsUndefined => Some("null")
    case JsBool(b) => Some(if b then "true" else "false")
    case JsNumber(n) => Some(IntToDecimal(n))
    case JsBigInt(_) => None
    case JsString(s) => Some(Quote(s))
    case JsArray(items) =>
      var texts := seq(|items|, i requires 0 <= i < |items| => Json(items[i]));
      assert forall i :: 0 <= i < |items| ==> (texts[i].Some? <==> Serializable(items[i]));
      (match AllPresent(texts)
       case None => None
       case Some(parts) => Some("[" + Join(parts, ",") + "]"))
    case JsObject(fields) =>
      var texts := seq(|fields|, i requires 0 <= i < |fields| => Json(fields[i].value));
      MembersPresent(fields, texts);
      match AllPresent(Members(fields, texts))
      case None => None
      case Some(parts) => Some("{" + Join(parts, ",") + "}")
  }

  /** The properties that survive a JSON round trip: those not holding `undefined`. */
  function Kept(fields: seq<Field>): (r: seq<Field>)
    ensures |r| <= |fields|
    ensures forall f :: f in r ==> f in fields && !f.value.JsUndefined?
    ensures forall f :: f in fields && !f.value.JsUndefined? ==> f in r
    ensures (forall i :: 0 <= i < |fields| ==> !fields[i].value.JsUndefined?) ==> r == fields
  {
    if fields == [] then []
    else if fields[0].value.JsUndefined? then Kept(fields[1..])
    else [fields[0]] + Kept(fields[1..])
  }

  /**
   * `JSON.parse(JSON.stringify(v))`: `undefined` inside an array reads back as
   * `null`, a property holding `undefined` is gone, and `None` where
   * stringifying throws.
   */
  function Persisted(v: JsValue): (r: Option<JsValue>)
    ensures r.Some? <==> Serializable(v)
  {
    match v
    case JsUndefined => Some(JsNull)
    case JsBigInt(_) => None
    case JsArray(items) =>
      var back := seq(|items|, i requires 0 <= i < |items| => Persisted(items[i]));
      ArrayKept(items, back);
      if forall i :: 0 <= i < |back| ==> back[i].Some?
      then Some(JsArray(seq(|back|, i requires 0 <= i < |back| && back[i].Some? => back[i].value)))
      else None
    case JsObject(fields) =>
      var kept := Kept(fields);
      var back := seq(|kept|, i requires 0 <= i < |kept| => Persisted(kept[i].value));
      ObjectKept(fields, back);
      if forall i :: 0 <= i < |back| ==> back[i].Some?
      then Some(JsObject(seq(|kept|, i requires 0 <= i < |kept| && back[i].Some? => Field(kept[i].key, back[i].value))))
      else None
    case _ => Some(v)
  }

  /** Every item reads back exactly when the array can be stringified. */
  lemma ArrayKept(items: seq<JsValue>, back: seq<Option<JsValue>>)
    requires |back| == |items|
    requires forall i :: 0 <= i < |items| ==> (back[i].Some? <==> Serializable(items[i]))
    ensures (forall i :: 0 <= i < |back| ==> back[i].Some?) <==> Serializable(JsArray(items))
  {
  }

  /** Every kept property reads back exactly when the object can be stringified. */
  lemma ObjectKept(fields: seq<Field>, back: seq<Option<JsValue>>)
    requires |back| == |Kept(fields)|
    requires forall i :: 0 <= i < |back| ==> (back[i].Some? <==> Serializable(Kept(fields)[i].value))
    ensures (forall i :: 0 <= i < |back| ==> back[i].Some?) <==> Serializable(JsObject(fields))
  {
    var kept := Kept(fields);
    if forall i :: 0 <= i < |back| ==> back[i].Some? {
      forall i | 0 <= i < |fields|
        ensures Serializable(fields[i].value)
      {
        if !fields[i].value.JsUndefined? {
          assert fields[i] in kept;
        }
      }
    }
    if Serializable(JsObject(fields)) {
      forall i | 0 <= i < |back|
        ensures back[i].Some?
      {
        assert kept[i] in fields;
        var j :| 0 <= j < |fields| && fields[j] == kept[i];
        assert Serializable(fields[j].value);
      }
    }
  }

  /** A plain value comes back from JSON unchanged. */
  lemma {:induction false} PersistedPlain(v: JsValue)
    requires Plain(v)
    ensures Persisted(v) == Some(v)
  {
    match v
    case JsArray(items) =>
      forall i | 0 <= i < |items|
        ensures Persisted(items[i]) == Some(items[i])
      {
        PersistedPlain(items[i]);
      }
      var back := seq(|items|, i requires 0 <= i < |items| => Persisted(items[i]));
      assert seq(|back|, i requires 0 <= i < |back| && back[i].Some? => back[i].value) == items;
    case JsObject(fields) =>
      assert Kept(fields) == fields;
      forall i | 0 <= i < |fields|
        ensures Persisted(fields[i].value) == Some(fields[i].value)
      {
        PersistedPlain(fields[i].value);
      }
      var back := seq(|fields|, i requires 0 <= i < |fields| => Persisted(fields[i].value));
      assert seq(|fields|, i requires 0 <= i < |fields| && back[i].Some? => Field(fields[i].key, back[i].value)) == fields;
    case _ =>
  }

  /** What JSON gives back is plain: reading a file a second time changes nothing more. */
  lemma {:induction false} PersistedIsPlain(v: JsValue)
    requires Serializable(v)
    ensures Plain(Persisted(v).value)
  {
    match v
    case JsArray(items) =>
      forall i | 0 <= i < |items|
        ensures Plain(Persisted(items[i]).value)
      {
        PersistedIsPlain(items[i]);
      }
    case JsObject(fields) =>
      var kept := Kept(fields);
      forall i | 0 <= i < |kept|
        ensures Plain(Persisted(kept[i].value).value)
      {
        assert kept[i] in fields;
        PersistedIsPlain(kept[i].value);
      }
    case _ =>
  }
}
