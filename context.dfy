/**
 * The per-request context (`src/Context.ts`, its constructor). The CGI
 * environment is split into request headers (names starting with `http_`
 * in any case, stored lower-cased without the prefix) and server variables
 * (every other name, as given); the content type and length are copied into
 * the headers; then the cookies, the session, the request and the response
 * are built, and `post` shares the request's form, files and parts.
 */
module Contexts {
  import opened Wrappers
  import opened Text
  import opened HeaderTable
  import opened CookieCodec
  import opened Values
  import opened Sessions
  import opened Requests
  import opened Responses

  /** The environment, in enumeration order; `None` stands for an undefined value. */
  type Env = seq<(string, Option<string>)>

  const HttpPrefix: string := "http_"

  /** A CGI request-header variable: its lower-cased name starts with `http_`. */
  predicate IsHeaderName(name: string) {
    StartsWith(ToLower(name), HttpPrefix)
  }

  /** The header name of such a variable: lower-cased, prefix dropped. */
  function HeaderKey(name: string): string
    requires IsHeaderName(name)
  {
    ToLower(name)[|HttpPrefix|..]
  }

  /** The `headers.set` calls of the loop, in order. */
  function HeaderPairs(env: Env): seq<(string, string)> {
    if env == [] then []
    else
      var last := env[|env| - 1];
      HeaderPairs(env[..|env| - 1])
      + (if last.1.Some? && IsHeaderName(last.0) then [(HeaderKey(last.0), last.1.value)] else [])
  }

  /** The `server.set` calls of the loop, in order. */
  function ServerPairs(env: Env): seq<(string, string)> {
    if env == [] then []
    else
      var last := env[|env| - 1];
      ServerPairs(env[..|env| - 1])
      + (if last.1.Some? && !IsHeaderName(last.0) then [(last.0, last.1.value)] else [])
  }

  /** One more entry adds its `headers.set` or its `server.set` call, or neither when it is undefined. */
  lemma PairsStep(env: Env, i: int)
    requires 0 <= i < |env|
    ensures var e := env[i];
      if e.1.None? then
        HeaderPairs(env[..i + 1]) == HeaderPairs(env[..i]) && ServerPairs(env[..i + 1]) == ServerPairs(env[..i])
      else if IsHeaderName(e.0) then
        && HeaderPairs(env[..i + 1]) == HeaderPairs(env[..i]) + [(HeaderKey(e.0), e.1.value)]
        && ServerPairs(env[..i + 1]) == ServerPairs(env[..i])
      else
        && HeaderPairs(env[..i + 1]) == HeaderPairs(env[..i])
        && ServerPairs(env[..i + 1]) == ServerPairs(env[..i]) + [(e.0, e.1.value)]
  {
    var e := env[i];
    assert env[..i + 1][..i] == env[..i];
    assert HeaderPairs(env[..i]) + [] == HeaderPairs(env[..i]);
    assert ServerPairs(env[..i]) + [] == ServerPairs(env[..i]);
  }

  /** The number of entries with a defined value. */
  function DefinedCount(env: Env): nat {
    if env == [] then 0
    else DefinedCount(env[..|env| - 1]) + (if env[|env| - 1].1.Some? then 1 else 0)
  }

  /** A request-header pair comes from entry `i`. */
  predicate HeaderFrom(env: Env, p: (string, string), i: int) {
    0 <= i < |env| && env[i].1.Some? && IsHeaderName(env[i].0) && p == (HeaderKey(env[i].0), env[i].1.value)
  }

  /** A server-variable pair comes from entry `i`. */
  predicate ServerFrom(env: Env, p: (string, string), i: int) {
    0 <= i < |env| && env[i].1.Some? && !IsHeaderName(env[i].0) && p == (env[i].0, env[i].1.value)
  }

  /** The request headers set are exactly those of the defined `http_` entries, renamed. */
  lemma {:induction false} HeaderPairsIff(env: Env, p: (string, string))
    ensures p in HeaderPairs(env) <==> exists i :: HeaderFrom(env, p, i)
  {
    if env != [] {
      var n := |env| - 1;
      var front := env[..n];
      var last := env[n];
      var tail := if last.1.Some? && IsHeaderName(last.0) then [(HeaderKey(last.0), last.1.value)] else [];
      assert HeaderPairs(env) == HeaderPairs(front) + tail;
      HeaderPairsIff(front, p);
      forall i | HeaderFrom(front, p, i)
        ensures HeaderFrom(env, p, i)
      {
        assert front[i] == env[i];
      }
      if p in tail {
        assert HeaderFrom(env, p, n);
      }
      if exists i :: HeaderFrom(env, p, i) {
        var i :| HeaderFrom(env, p, i);
        if i < n {
          assert front[i] == env[i];
          assert HeaderFrom(front, p, i);
        }
      }
    }
  }

  /** The server variables set are exactly the other defined entries, under their own names. */
  lemma {:induction false} ServerPairsIff(env: Env, p: (string, string))
    ensures p in ServerPairs(env) <==> exists i :: ServerFrom(env, p, i)
  {
    if env != [] {
      var n := |env| - 1;
      var front := env[..n];
      var last := env[n];
      var tail := if last.1.Some? && !IsHeaderName(last.0) then [(last.0, last.1.value)] else [];
      assert ServerPairs(env) == ServerPairs(front) + tail;
      ServerPairsIff(front, p);
      forall i | ServerFrom(front, p, i)
        ensures ServerFrom(env, p, i)
      {
        assert front[i] == env[i];
      }
      if p in tail {
        assert ServerFrom(env, p, n);
      }
      if exists i :: ServerFrom(env, p, i) {
        var i :| ServerFrom(env, p, i);
        if i < n {
          assert front[i] == env[i];
          assert ServerFrom(front, p, i);
        }
      }
    }
  }

  /** Every defined entry is set exactly once, in one of the two tables; undefined ones nowhere. */
  lemma {:induction false} PartitionCount(env: Env)
    ensures |HeaderPairs(env)| + |ServerPairs(env)| == DefinedCount(env)
  {
    if env != [] {
      PartitionCount(env[..|env| - 1]);
    }
  }

  /** The server variables after the loop. */
  function ServerTable(env: Env): Table {
    PutAll([], ServerPairs(env))
  }

  /** The request headers after the loop and the two copies. */
  function ContextHeaders(env: Env): Table {
    var server := ServerTable(env);
    var loop := PutAll([], HeaderPairs(env));
    var typed := Put(loop, "content_type", Lookup(server, "content_type").GetOr(""));
    Put(typed, "content_length", Lookup(server, "content_length").GetOr(""))
  }

  /** `server.get(k)` reads the last defined non-header entry named `k`. */
  lemma ServerLookup(env: Env, k: string)
    ensures Lookup(ServerTable(env), k) == LastValue(ServerPairs(env), k)
  {
    PutAllLookup([], ServerPairs(env), k);
  }

  /**
   * The content type and length always end up in the headers, taken from the
   * server variables or empty, overriding any `HTTP_CONTENT_TYPE`; every
   * other header reads as the last `http_` entry that set it.
   */
  lemma ContextHeadersLookup(env: Env, k: string)
    ensures Lookup(ContextHeaders(env), "content_type") == Some(Lookup(ServerTable(env), "content_type").GetOr(""))
    ensures Lookup(ContextHeaders(env), "content_length") == Some(Lookup(ServerTable(env), "content_length").GetOr(""))
    ensures k != "content_type" && k != "content_length" ==> Lookup(ContextHeaders(env), k) == LastValue(HeaderPairs(env), k)
    ensures SetBuilt(ContextHeaders(env))
  {
    var server := ServerTable(env);
    var loop := PutAll([], HeaderPairs(env));
    var typed := Put(loop, "content_type", Lookup(server, "content_type").GetOr(""));
    PutAllLookup([], HeaderPairs(env), k);
    PutLookup(loop, "content_type", Lookup(server, "content_type").GetOr(""));
    PutLookup(typed, "content_length", Lookup(server, "content_length").GetOr(""));
    PutAllSetBuilt([], HeaderPairs(env));
    PutSetBuilt(loop, "content_type", Lookup(server, "content_type").GetOr(""));
    PutSetBuilt(typed, "content_length", Lookup(server, "content_length").GetOr(""));
  }

  /**
   * `server.get("request_method") || "get"`: never empty, and any method other
   * than the default is the one the server table holds.
   */
  function RequestMethod(server: Table): (r: string)
    ensures r != ""
    ensures r != "get" ==> Lookup(server, "request_method") == Some(r)
  {
    match Lookup(server, "request_method")
    case Some(m) => if m == "" then "get" else m
    case None => "get"
  }

  /** A missing or empty `request_method` reads as `get`; any other is kept. */
  lemma RequestMethodDefault(server: Table)
    ensures Lookup(server, "request_method").None? ==> RequestMethod(server) == "get"
    ensures Lookup(server, "request_method") == Some("") ==> RequestMethod(server) == "get"
    ensures Lookup(server, "request_method").Some? && Lookup(server, "request_method").value != "" ==>
      RequestMethod(server) == Lookup(server, "request_method").value
  {
  }

  /** `context.post`: the request's form, files and parts as they were when the context was built. */
  datatype PostAliases = PostAliases(form: FormData, files: seq<JsValue>, parts: seq<string>)

  /** `class Context`. */
  class Context {
    const headers: Headers
    const server: Headers
    const httpVersion: Option<string>
    const cookies: Cookies
    const session: Session
    const url: string
    const request: Request
    const response: Response
    const post: PostAliases

    /** The fields, once each part has been built. */
    constructor Assemble(headers: Headers, server: Headers, httpVersion: Option<string>, cookies: Cookies,
                         session: Session, url: string, request: Request, response: Response)
      ensures this.headers == headers && this.server == server && this.httpVersion == httpVersion
      ensures this.cookies == cookies && this.session == session && this.url == url
      ensures this.request == request && this.response == response
      ensures post == PostAliases(request.post.form, request.post.files, request.post.parts)
    {
      this.headers := headers;
      this.server := server;
      this.httpVersion := httpVersion;
      this.cookies := cookies;
      this.session := session;
      this.url := url;
      this.request := request;
      this.response := response;
      post := PostAliases(request.post.form, request.post.files, request.post.parts);
    }

    /** The `for … in env` loop: each defined entry set into the headers or the server variables. */
    static method Partition(env: Env) returns (headers: Headers, server: Headers)
      ensures fresh(headers) && fresh(server) && headers != server
      ensures headers.table == PutAll([], HeaderPairs(env))
      ensures server.table == PutAll([], ServerPairs(env))
    {
      headers := new Headers();
      server := new Headers();
      var i := 0;
      while i < |env|
        invariant 0 <= i <= |env|
        invariant headers != server
        invariant headers.table == PutAll([], HeaderPairs(env[..i]))
        invariant server.table == PutAll([], ServerPairs(env[..i]))
      {
        var (name, value) := env[i];
        var lName := ToLower(name);
        PairsStep(env, i);
        if value.Some? {
          if StartsWith(lName, HttpPrefix) {
            PutAllSnoc([], HeaderPairs(env[..i]), (lName[|HttpPrefix|..], value.value));
            headers.Set(lName[|HttpPrefix|..], value.value);
          } else {
            PutAllSnoc([], ServerPairs(env[..i]), (name, value.value));
            server.Set(name, value.value);
          }
        }
        i := i + 1;
      }
      assert env[..i] == env;
    }

    /**
     * `new Context()` for the environment `env`, the page's absolute URL
     * `href`, and the session directory, clock and fresh id the session needs.
     * It fails exactly when the session does.
     */
    static method Open(env: Env, href: string, root: string, disk: Disk, freshId: string, now: int)
      returns (r: Result<Context, string>, disk': Disk)
      ensures var server := ServerTable(env);
        var headers := ContextHeaders(env);
        var jar := ParseHeader(Lookup(headers, "cookie"));
        var remote := Lookup(server, "remote_addr");
        && disk' == ResolveId(jar, remote, root, disk, freshId, now).1
        && (r.Failure? <==> OpenRecord(jar, remote, root, disk, freshId, now).Failure?)
        && (r.Failure? ==> r.error == "Invalid session ID")
        && (r.Success? ==>
          var c := r.value;
          && fresh(c) && fresh(c.headers) && fresh(c.server) && c.headers != c.server
          && c.server.table == server && c.headers.table == headers
          && c.httpVersion == Lookup(server, "server_protocol")
          && c.cookies.store == jar
          && c.session.Record() == OpenRecord(jar, remote, root, disk, freshId, now).value
          && c.url == href && c.request.url == href && c.request.httpMethod == RequestMethod(server)
          && c.request.headers == c.headers
          && c.request.post.form.pairs == [] && c.request.post.data == ""
          && c.request.post.isMultiPart == IsMultiPart(Lookup(server, "content_type").GetOr(""))
          && c.response.headers == c.headers && c.response.session == c.session
          && !c.response.isHeadersSent && c.response.out == [] && c.response.Valid()
          && c.post == PostAliases(c.request.post.form, c.request.post.files, c.request.post.parts))
    {
      var headers, server := Tables(env);
      var httpVersion := server.Get("server_protocol");
      var cookies := new Cookies(headers.Get("cookie"));
      var attempt;
      attempt, disk' := Session.Open(cookies, server, root, disk, freshId, now);
      if attempt.Failure? {
        OpenFailsIff(cookies.store, server.Get("remote_addr"), root, disk, freshId, now);
        r := Failure(attempt.error);
        return;
      }
      var c := Build(headers, server, httpVersion, cookies, attempt.value, href);
      r := Success(c);
    }

    /** The loop, then `content_type` and `content_length` copied from the server variables into the headers. */
    static method Tables(env: Env) returns (headers: Headers, server: Headers)
      ensures fresh(headers) && fresh(server) && headers != server
      ensures server.table == ServerTable(env) && headers.table == ContextHeaders(env)
      ensures headers.Get("content_type") == Some(Lookup(server.table, "content_type").GetOr(""))
    {
      headers, server := Partition(env);
      var contentType := server.Get("content_type").GetOr("");
      PutLookup(headers.table, "content_type", contentType);
      headers.Set("content_type", contentType);
      var contentLength := server.Get("content_length").GetOr("");
      PutLookup(headers.table, "content_length", contentLength);
      headers.Set("content_length", contentLength);
    }

    /** The request, the response and the context over the parts already built. */
    static method Build(headers: Headers, server: Headers, httpVersion: Option<string>, cookies: Cookies,
                        session: Session, href: string) returns (c: Context)
      requires headers.Get("content_type").Some?
      ensures fresh(c) && fresh(c.request) && fresh(c.request.post) && fresh(c.request.post.form) && fresh(c.response)
      ensures c.headers == headers && c.server == server && c.httpVersion == httpVersion
      ensures c.cookies == cookies && c.session == session && c.url == href
      ensures c.request.url == href && c.request.httpMethod == RequestMethod(server.table)
      ensures c.request.headers == headers
      ensures c.request.post.form.pairs == [] && c.request.post.data == ""
      ensures c.request.post.isMultiPart == IsMultiPart(headers.Get("content_type").value)
      ensures c.response.headers == headers && c.response.session == session
      ensures !c.response.isHeadersSent && c.response.out == [] && c.response.Valid()
      ensures c.post == PostAliases(c.request.post.form, c.request.post.files, c.request.post.parts)
    {
      var requestMethod := server.Get("request_method");
      var request := new Request(href, if requestMethod.Some? && requestMethod.value != "" then requestMethod.value else "get", headers);
      var response := new Response(headers, session);
      c := new Context.Assemble(headers, server, httpVersion, cookies, session, href, request, response);
    }
  }
}
