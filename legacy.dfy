/**
 * The bundled runtime (`lib/node-cgi.js`), where it differs from the typed
 * sources. Its cookies and sessions behave as `CookieCodec.Cookies` and
 * `Sessions.Session` do. It keeps request headers and server variables in
 * `Map`s (modelled by the same insertion-ordered table) and stores server
 * names lower-cased; its request decodes a form with `querystring.parse`;
 * its response writes no per-header lines, because `Object.entries` of a
 * `Map` is empty, and `write` turns any value into text by its type; and it
 * runs the page at once unless the method is `post`.
 */
module Legacy {
  import opened Wrappers
  import opened Text
  import opened HeaderTable
  import opened CookieCodec
  import opened Values
  import opened Sessions
  import opened FormCodec
  import opened Requests
  import opened Responses
  import opened Contexts

  /** The environment with every name lower-cased. */
  function LowerNames(env: Env): (r: Env)
    ensures |r| == |env|
    ensures forall i :: 0 <= i < |env| ==> r[i] == (ToLower(env[i].0), env[i].1)
  {
    seq(|env|, i requires 0 <= i < |env| => (ToLower(env[i].0), env[i].1))
  }

  /**
   * The `server.set(lName, value)` calls of the bundle's loop, in order: at
   * most one per entry, and every name already lower-case.
   */
  function LegacyServerPairs(env: Env): (r: seq<(string, string)>)
    ensures |r| <= |env|
    ensures forall i :: 0 <= i < |r| ==> ToLower(r[i].0) == r[i].0
  {
    if env == [] then []
    else
      var last := env[|env| - 1];
      LegacyServerPairs(env[..|env| - 1])
      + (if last.1.Some? && !IsHeaderName(last.0) then [(ToLower(last.0), last.1.value)] else [])
  }

  /** One more entry adds its `headers.set` or its lower-cased `server.set` call, or neither when it is undefined. */
  lemma LegacyPairsStep(env: Env, i: int)
    requires 0 <= i < |env|
    ensures var e := env[i];
      if e.1.None? then
        HeaderPairs(env[..i + 1]) == HeaderPairs(env[..i]) && LegacyServerPairs(env[..i + 1]) == LegacyServerPairs(env[..i])
      else if IsHeaderName(e.0) then
        && HeaderPairs(env[..i + 1]) == HeaderPairs(env[..i]) + [(HeaderKey(e.0), e.1.value)]
        && LegacyServerPairs(env[..i + 1]) == LegacyServerPairs(env[..i])
      else
        && HeaderPairs(env[..i + 1]) == HeaderPairs(env[..i])
        && LegacyServerPairs(env[..i + 1]) == LegacyServerPairs(env[..i]) + [(ToLower(e.0), e.1.value)]
  {
    var e := env[i];
    assert env[..i + 1][..i] == env[..i];
    assert HeaderPairs(env[..i]) + [] == HeaderPairs(env[..i]);
    assert LegacyServerPairs(env[..i]) + [] == LegacyServerPairs(env[..i]);
  }

  /** Lower-casing a name does not change whether it is a header name, nor its header key. */
  lemma LowerName(name: string)
    ensures IsHeaderName(ToLower(name)) == IsHeaderName(name)
    ensures IsHeaderName(name) ==> HeaderKey(ToLower(name)) == HeaderKey(name)
  {
    ToLowerIdempotent(name);
  }

  /**
   * The bundle's partition is the typed one applied to the lower-cased
   * environment: the same headers, and the server variables under
   * lower-cased names.
   */
  lemma {:induction false} LegacyPartition(env: Env)
    ensures LegacyServerPairs(env) == ServerPairs(LowerNames(env))
    ensures HeaderPairs(LowerNames(env)) == HeaderPairs(env)
  {
    if env != [] {
      var n := |env| - 1;
      var lowered := LowerNames(env);
      assert lowered[..n] == LowerNames(env[..n]);
      LegacyPartition(env[..n]);
      LowerName(env[n].0);
    }
  }

  /** The lower-cased server variables after the loop. */
  function LegacyServerTable(env: Env): Table {
    PutAll([], LegacyServerPairs(env))
  }

  /** The request headers after the loop and the two copies. */
  function LegacyHeaders(env: Env): Table {
    var server := LegacyServerTable(env);
    var loop := PutAll([], HeaderPairs(env));
    var typed := Put(loop, "content_type", Lookup(server, "content_type").GetOr(""));
    Put(typed, "content_length", Lookup(server, "content_length").GetOr(""))
  }

  /** The bundle finds the upper-case CGI variables the typed runtime's case-sensitive lookups miss. */
  lemma UpperCaseMethod()
    ensures RequestMethod(LegacyServerTable([("REQUEST_METHOD", Some("POST"))])) == "POST"
    ensures RequestMethod(ServerTable([("REQUEST_METHOD", Some("POST"))])) == "get"
  {
    LegacyFindsMethod();
    TypedMissesMethod();
  }

  /** The bundle lower-cases `REQUEST_METHOD` first, so the lookup finds it. */
  lemma LegacyFindsMethod()
    ensures RequestMethod(LegacyServerTable([("REQUEST_METHOD", Some("POST"))])) == "POST"
  {
    var env: Env := [("REQUEST_METHOD", Some("POST"))];
    var pairs := LegacyServerPairs(env);
    assert pairs == [("request_method", "POST")] by {
      NotHeaderName("REQUEST_METHOD");
      LowerMethodName();
      assert env[..0] == [];
    }
    assert LastValue(pairs, "request_method") == Some("POST");
    PutAllLookup([], pairs, "request_method");
  }

  /** The CGI method variable's name, lower-cased. */
  lemma LowerMethodName()
    ensures ToLower("REQUEST_METHOD") == "request_method"
  {
  }

  /** A name whose first letter is not `h` in either case is no header name. */
  lemma NotHeaderName(name: string)
    requires |name| > 0 && LowerChar(name[0]) != 'h'
    ensures !IsHeaderName(name)
  {
    assert ToLower(name)[0] != HttpPrefix[0];
  }

  /** The typed runtime keeps the name as it is, so `request_method` is missing and the default applies. */
  lemma TypedMissesMethod()
    ensures RequestMethod(ServerTable([("REQUEST_METHOD", Some("POST"))])) == "get"
  {
    var env: Env := [("REQUEST_METHOD", Some("POST"))];
    var pairs := ServerPairs(env);
    assert pairs == [("REQUEST_METHOD", "POST")] by {
      NotHeaderName("REQUEST_METHOD");
      assert env[..0] == [];
    }
    assert LastValue(pairs, "request_method").None? by {
      assert "REQUEST_METHOD"[0] != "request_method"[0];
    }
    PutAllLookup([], pairs, "request_method");
    assert Lookup(ServerTable(env), "request_method") == Lookup([], "request_method");
  }

  /**
   * The text the bundle's `write` emits: `NULL`, `undefined`, `String(x)` for
   * strings, numbers, bigints and booleans, and `JSON.stringify(x)` for
   * arrays and objects, `None` where that throws.
   */
  function LegacyText(v: JsValue): (r: Option<string>)
    ensures r.None? <==> (v.JsArray? || v.JsObject?) && !Serializable(v)
  {
    match v
    case JsNull => Some("NULL")
    case JsUndefined => Some("undefined")
    case JsString(s) => Some(s)
    case JsNumber(n) => Some(IntToDecimal(n))
    case JsBigInt(b) => Some(IntToDecimal(b))
    case JsBool(b) => Some(if b then "true" else "false")
    case JsArray(_) => Json(v)
    case JsObject(_) => Json(v)
  }

  /**
   * On strings the bundle's `write` emits what the typed one does; on a
   * number it agrees with `JSON.stringify`, and only a bigint inside an
   * array or object makes it throw.
   */
  lemma LegacyTextAgrees(v: JsValue)
    ensures v.JsString? ==> LegacyText(v) == Some(v.s)
    ensures v.JsNumber? ==> LegacyText(v) == Json(v)
    ensures v.JsBigInt? ==> LegacyText(v).Some? && Json(v).None?
    ensures v.JsArray? || v.JsObject? ==> LegacyText(v) == Json(v)
  {
  }

  /** The bundle's `Response`. */
  class LegacyResponse {
    var isHeadersSent: bool
    var exited: bool
    var out: seq<string>
    const headers: Headers
    const session: Session
    /** The header block written, the cookie it was written from, and the texts written after it. */
    ghost var block: seq<string>
    ghost var sentCookie: SessionCookie
    ghost var body: seq<string>

    /** Before the headers are sent nothing is written; afterwards the output is the block and then the body. */
    ghost predicate Valid()
      reads this
    {
      && (!isHeadersSent ==> out == [] && block == [] && body == [] && !exited)
      && (isHeadersSent ==> block == HeaderBlock([], sentCookie) && out == block + body)
    }

    constructor(headers: Headers, session: Session)
      ensures this.headers == headers && this.session == session
      ensures !isHeadersSent && !exited && out == []
      ensures Valid()
    {
      this.headers := headers;
      this.session := session;
      isHeadersSent := false;
      exited := false;
      out := [];
      block := [];
      body := [];
    }

    /**
     * `sendHeaders()`: the header block has no header lines, since the loop
     * runs over `Object.entries` of a `Map`; otherwise as in the typed runtime.
     */
    method SendHeaders()
      requires Valid()
      modifies this, session
      ensures Valid() && isHeadersSent
      ensures exited == old(exited) && body == old(body)
      ensures old(isHeadersSent) ==> out == old(out) && block == old(block) && session.cookie == old(session.cookie)
      ensures !old(isHeadersSent) ==> out == HeaderBlock([], old(session.cookie))
      ensures !old(isHeadersSent) ==> session.cookie == old(session.cookie).(notSent := false)
      ensures session.id == old(session.id) && session.path == old(session.path)
      ensures session.ipAddress == old(session.ipAddress) && session.store == old(session.store)
    {
      if isHeadersSent {
        return;
      }
      isHeadersSent := true;
      var cookie := session.cookie;
      out := out + [ContentTypeLine];
      if cookie.notSent {
        session.MarkCookieSent();
        out := out + [SetCookieLine(session.cookie.cookie)];
      }
      assert out == [ContentTypeLine] + CookieLines(cookie);
      out := out + [BlankLine];
      block := out;
      sentCookie := cookie;
    }

    /**
     * `write(value)`: the headers if they are pending, then the value's text;
     * `thrown` when `JSON.stringify` throws, which leaves only the headers.
     * Nothing is written once the process has ended.
     */
    method Write(value: JsValue) returns (thrown: bool)
      requires Valid()
      modifies this, session
      ensures Valid() && exited == old(exited)
      ensures thrown <==> !old(exited) && LegacyText(value).None?
      ensures old(exited) ==> out == old(out) && body == old(body) && session.cookie == old(session.cookie)
      ensures !old(exited) ==> isHeadersSent
      ensures !old(exited) && LegacyText(value).Some? ==> body == old(body) + [LegacyText(value).value]
      ensures !old(exited) && LegacyText(value).None? ==> body == old(body)
      ensures !old(exited) && !old(isHeadersSent) ==> block == HeaderBlock([], old(session.cookie))
      ensures old(isHeadersSent) ==> block == old(block) && session.cookie == old(session.cookie)
      ensures !old(isHeadersSent) ==> session.cookie == old(session.cookie).(notSent := false)
      ensures session.id == old(session.id) && session.path == old(session.path)
      ensures session.ipAddress == old(session.ipAddress) && session.store == old(session.store)
    {
      thrown := false;
      if exited {
        return;
      }
      SendHeaders();
      var text := LegacyText(value);
      if text.None? {
        thrown := true;
        return;
      }
      out := out + [text.value];
      body := body + [text.value];
    }

    /** `end()`: the headers if they are pending, then the process ends. */
    method End()
      requires Valid()
      modifies this, session
      ensures Valid() && exited && isHeadersSent && body == old(body)
      ensures old(isHeadersSent) ==> out == old(out) && session.cookie == old(session.cookie)
      ensures !old(isHeadersSent) ==> out == HeaderBlock([], old(session.cookie))
      ensures !old(isHeadersSent) ==> session.cookie == old(session.cookie).(notSent := false)
      ensures session.id == old(session.id) && session.path == old(session.path)
      ensures session.ipAddress == old(session.ipAddress) && session.store == old(session.store)
    {
      SendHeaders();
      exited := true;
    }
  }

  /** The bundle's `post` record: the form is a plain object of grouped values. */
  class LegacyPost {
    var form: map<string, seq<string>>
    var files: seq<JsValue>
    var parts: seq<string>
    var data: string
    var isMultiPart: bool

    /** The default record: `form: {}`, no files or parts, no data, not multipart. */
    constructor()
      ensures form == map[] && files == [] && parts == [] && data == "" && !isMultiPart
    {
      form := map[];
      files := [];
      parts := [];
      data := "";
      isMultiPart := false;
    }
  }

  /** The bundle's `Request`. */
  class LegacyRequest {
    var url: string
    var httpMethod: string  // `method`, a keyword here
    const headers: Headers
    const post: LegacyPost

    /** `new Request(url, {method, headers})`; the content type is read without a check, so it must be set. */
    constructor(url: string, httpMethod: string, headers: Headers)
      requires headers.Get("content_type").Some?
      ensures this.url == url && this.httpMethod == httpMethod && this.headers == headers
      ensures fresh(post) && post.form == map[] && post.files == [] && post.parts == [] && post.data == ""
      ensures post.isMultiPart == IsMultiPart(headers.Get("content_type").value)
    {
      this.url := url;
      this.httpMethod := httpMethod;
      this.headers := headers;
      post := new LegacyPost();
      new;
      if IsMultiPart(headers.Get("content_type").value) {
        post.isMultiPart := true;
      }
    }

    /** `parsePost()`: a multipart body is left as it is; any other body becomes `querystring.parse(data)`. */
    method ParsePost()
      modifies post
      ensures post.isMultiPart ==> unchanged(post)
      ensures !post.isMultiPart ==> post.form == QueryParse(post.data)
      ensures post.files == old(post.files) && post.parts == old(post.parts)
      ensures post.data == old(post.data) && post.isMultiPart == old(post.isMultiPart)
    {
      if post.isMultiPart {
        var boundary := Boundary(post.data);
      } else {
        post.form := QueryParse(post.data);
      }
    }

    /** `readPost(onFinishedRead, parseData)` for a body arriving as `chunks`. */
    method ReadPost(chunks: seq<string>, parseData: bool)
      modifies post
      ensures post.data == old(post.data) + Concat(chunks)
      ensures post.files == old(post.files) && post.parts == old(post.parts)
      ensures post.isMultiPart == old(post.isMultiPart)
      ensures !parseData || post.isMultiPart ==> post.form == old(post.form)
      ensures parseData && !post.isMultiPart ==> post.form == QueryParse(post.data)
    {
      var i := 0;
      while i < |chunks|
        invariant 0 <= i <= |chunks|
        invariant post.data == old(post.data) + Concat(chunks[..i])
        invariant post.form == old(post.form) && post.files == old(post.files) && post.parts == old(post.parts)
        invariant post.isMultiPart == old(post.isMultiPart)
      {
        assert chunks[..i + 1][..i] == chunks[..i];
        post.data := post.data + chunks[i];
        i := i + 1;
      }
      assert chunks[..i] == chunks;
      if parseData {
        ParsePost();
      }
    }
  }

  /**
   * Whether the page runs at once: the lower-cased method is not `post`. The
   * page waits exactly for the four letters `p`, `o`, `s`, `t`, each in either case.
   */
  predicate RunsNow(httpMethod: string): (r: bool)
    ensures !r <==> |httpMethod| == 4 && LowerChar(httpMethod[0]) == 'p' && LowerChar(httpMethod[1]) == 'o'
                    && LowerChar(httpMethod[2]) == 's' && LowerChar(httpMethod[3]) == 't'
  {
    ToLower(httpMethod) != "post"
  }

  /** Only `post`, in any case, waits for the body; the default method runs at once. */
  lemma RunsNowExamples()
    ensures !RunsNow("POST") && !RunsNow("Post") && !RunsNow("post")
    ensures RunsNow("GET") && RunsNow("get") && RunsNow("PUT")
  {
    assert ToLower("POST") == "post";
    assert ToLower("Post") == "post";
    assert ToLower("post") == "post";
    assert ToLower("GET")[0] == 'g';
    assert ToLower("PUT")[0] == 'p' && ToLower("PUT")[1] == 'u';
  }

  /** Whether the page runs at once does not depend on the case of the method. */
  lemma RunsNowCase(httpMethod: string)
    ensures RunsNow(ToLower(httpMethod)) == RunsNow(httpMethod)
  {
    ToLowerIdempotent(httpMethod);
  }

  /** The bundle's `Context`. */
  class LegacyContext {
    const headers: Headers
    const server: Headers
    const httpVersion: Option<string>
    const cookies: Cookies
    const session: Session
    const request: LegacyRequest
    const response: LegacyResponse

    /** The fields, once each part has been built. */
    constructor Assemble(headers: Headers, server: Headers, httpVersion: Option<string>, cookies: Cookies,
                         session: Session, request: LegacyRequest, response: LegacyResponse)
      ensures this.headers == headers && this.server == server && this.httpVersion == httpVersion
      ensures this.cookies == cookies && this.session == session
      ensures this.request == request && this.response == response
    {
      this.headers := headers;
      this.server := server;
      this.httpVersion := httpVersion;
      this.cookies := cookies;
      this.session := session;
      this.request := request;
      this.response := response;
    }

    /** The bundle's `for … in env` loop: headers as in the typed runtime, server names lower-cased. */
    static method Partition(env: Env) returns (headers: Headers, server: Headers)
      ensures fresh(headers) && fresh(server) && headers != server
      ensures headers.table == PutAll([], HeaderPairs(env))
      ensures server.table == PutAll([], LegacyServerPairs(env))
    {
      headers := new Headers();
      server := new Headers();
      var i := 0;
      while i < |env|
        invariant 0 <= i <= |env|
        invariant headers != server
        invariant headers.table == PutAll([], HeaderPairs(env[..i]))
        invariant server.table == PutAll([], LegacyServerPairs(env[..i]))
      {
        var (name, value) := env[i];
        var lName := ToLower(name);
        LegacyPairsStep(env, i);
        if value.Some? {
          if StartsWith(lName, HttpPrefix) {
            PutAllSnoc([], HeaderPairs(env[..i]), (lName[|HttpPrefix|..], value.value));
            headers.Set(lName[|HttpPrefix|..], value.value);
          } else {
            PutAllSnoc([], LegacyServerPairs(env[..i]), (lName, value.value));
            server.Set(lName, value.value);
          }
        }
        i := i + 1;
      }
      assert env[..i] == env;
    }

    /**
     * `new Context()` for the environment `env` and the `pathname` the URL
     * parser finds in `request_uri`; it fails exactly when the session does.
     */
    static method Open(env: Env, pathname: string, root: string, disk: Disk, freshId: string, now: int)
      returns (r: Result<LegacyContext, string>, disk': Disk)
      ensures var server := LegacyServerTable(env);
        var headers := LegacyHeaders(env);
        var jar := ParseHeader(Lookup(headers, "cookie"));
        var remote := Lookup(server, "remote_addr");
        && disk' == ResolveId(jar, remote, root, disk, freshId, now).1
        && (r.Failure? <==> OpenRecord(jar, remote, root, disk, freshId, now).Failure?)
        && (r.Failure? ==> r.error == "Invalid session ID")
        && (r.Success? ==>
          var c := r.value;
          && fresh(c) && c.server.table == server && c.headers.table == headers
          && c.httpVersion == Lookup(server, "server_protocol")
          && c.cookies.store == jar
          && c.session.Record() == OpenRecord(jar, remote, root, disk, freshId, now).value
          && c.request.url == pathname && c.request.httpMethod == RequestMethod(server)
          && c.request.headers == c.headers
          && c.request.post.form == map[] && c.request.post.data == ""
          && c.request.post.isMultiPart == IsMultiPart(Lookup(server, "content_type").GetOr(""))
          && c.response.headers == c.headers && c.response.session == c.session
          && !c.response.isHeadersSent && c.response.out == [] && c.response.Valid())
    {
      var headers, server := Tables(env);
      var httpVersion := server.Get("server_protocol");
      var cookies := new Cookies(headers.Get("cookie"));
      var attempt;
      attempt, disk' := Session.Open(cookies, server, root, disk, freshId, now);
      if attempt.Failure? {
        OpenFailsIff(cookies.store, server.Get("remote_addr"), root, disk, freshId, now);
        r := Failure(attempt.error);
        return;
      }
      var c := Build(headers, server, httpVersion, cookies, attempt.value, pathname);
      r := Success(c);
    }

    /** The loop, then `content_type` and `content_length` copied from the server variables into the headers. */
    static method Tables(env: Env) returns (headers: Headers, server: Headers)
      ensures fresh(headers) && fresh(server) && headers != server
      ensures server.table == LegacyServerTable(env) && headers.table == LegacyHeaders(env)
      ensures headers.Get("content_type") == Some(Lookup(server.table, "content_type").GetOr(""))
    {
      headers, server := Partition(env);
      var contentType := server.Get("content_type").GetOr("");
      PutLookup(headers.table, "content_type", contentType);
      headers.Set("content_type", contentType);
      var contentLength := server.Get("content_length").GetOr("");
      PutLookup(headers.table, "content_length", contentLength);
      headers.Set("content_length", contentLength);
    }

    /** The request, the response and the context over the parts already built. */
    static method Build(headers: Headers, server: Headers, httpVersion: Option<string>, cookies: Cookies,
                        session: Session, pathname: string) returns (c: LegacyContext)
      requires headers.Get("content_type").Some?
      ensures fresh(c) && fresh(c.request) && fresh(c.request.post) && fresh(c.response)
      ensures c.headers == headers && c.server == server && c.httpVersion == httpVersion
      ensures c.cookies == cookies && c.session == session
      ensures c.request.url == pathname && c.request.httpMethod == RequestMethod(server.table)
      ensures c.request.headers == headers
      ensures c.request.post.form == map[] && c.request.post.data == ""
      ensures c.request.post.isMultiPart == IsMultiPart(headers.Get("content_type").value)
      ensures c.response.headers == headers && c.response.session == session
      ensures !c.response.isHeadersSent && c.response.out == [] && c.response.Valid()
    {
      var requestMethod := server.Get("request_method");
      var request := new LegacyRequest(pathname, if requestMethod.Some? && requestMethod.value != "" then requestMethod.value else "get", headers);
      var response := new LegacyResponse(headers, session);
      c := new LegacyContext.Assemble(headers, server, httpVersion, cookies, session, request, response);
    }
  }

  /**
   * The bundle's top level after the context is built: the page runs at once
   * unless the method is `post`; a `post` waits until the body, arriving as
   * `chunks`, is read and parsed.
   */
  method Dispatch(c: LegacyContext, chunks: seq<string>) returns (readBody: bool)
    modifies c.request.post
    ensures readBody <==> !RunsNow(c.request.httpMethod)
    ensures !readBody ==> unchanged(c.request.post)
    ensures readBody ==> c.request.post.data == old(c.request.post.data) + Concat(chunks)
    ensures readBody ==> c.request.post.files == old(c.request.post.files) && c.request.post.parts == old(c.request.post.parts)
    ensures readBody ==> c.request.post.isMultiPart == old(c.request.post.isMultiPart)
    ensures readBody && c.request.post.isMultiPart ==> c.request.post.form == old(c.request.post.form)
    ensures readBody && !c.request.post.isMultiPart ==> c.request.post.form == QueryParse(c.request.post.data)
  {
    readBody := !RunsNow(c.request.httpMethod);
    if readBody {
      c.request.ReadPost(chunks, true);
    }
  }
}
