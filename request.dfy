/**
 * The request object (`src/Request.ts`): the URL and method it was built
 * with, the request headers, and the `post` record that collects the body,
 * classifies it as multipart or not, and decodes a URL-encoded body into a
 * form.
 */
module Requests {
  import opened Wrappers
  import opened Text
  import opened HeaderTable
  import opened Values
  import opened FormCodec

  /** The media type whose presence marks a body as multipart. */
  const MultipartType: string := "multipart/form-data"

  /**
   * The constructor's test: the lower-cased content type contains
   * `multipart/form-data` somewhere. It is case-insensitive: it holds exactly
   * when some slice of the content type lower-cases to the media type.
   */
  function IsMultiPart(contentType: string): (r: bool)
    ensures r <==> exists i :: MultipartAt(contentType, i)
  {
    SliceOccurs(contentType);
    Contains(ToLower(contentType), MultipartType)
  }

  /** The slice of `contentType` at `i` lower-cases to `multipart/form-data`. */
  predicate MultipartAt(contentType: string, i: int) {
    0 <= i <= |contentType| - |MultipartType| && ToLower(contentType[i..i + |MultipartType|]) == MultipartType
  }

  /** The media type occurs in the lower-cased text exactly where a slice of the text lower-cases to it. */
  lemma SliceOccurs(contentType: string)
    ensures Contains(ToLower(contentType), MultipartType) <==> exists i :: MultipartAt(contentType, i)
  {
    var lower := ToLower(contentType);
    if Contains(lower, MultipartType) {
      var i :| OccursAt(lower, MultipartType, i);
      LowerSlice(contentType, i);
      assert MultipartAt(contentType, i);
    }
    if exists i :: MultipartAt(contentType, i) {
      var i :| MultipartAt(contentType, i);
      LowerSlice(contentType, i);
      assert OccursAt(lower, MultipartType, i);
    }
  }

  /** Lower-casing commutes with taking a slice of the media type's length. */
  lemma LowerSlice(contentType: string, i: int)
    requires 0 <= i <= |contentType| - |MultipartType|
    ensures ToLower(contentType)[i..i + |MultipartType|] == ToLower(contentType[i..i + |MultipartType|])
  {
  }

  /** A content type of any case, with parameters after it, is multipart. */
  lemma MultiPartExample()
    ensures IsMultiPart("Multipart/Form-Data; boundary=xyz")
  {
    var ct := "Multipart/Form-Data; boundary=xyz";
    assert ct[0..19] == "Multipart/Form-Data";
    assert ToLower("Multipart/Form-Data") == MultipartType;
    assert MultipartAt(ct, 0);
  }

  /** Lower-casing a content type first does not change the test. */
  lemma MultiPartLower(contentType: string)
    ensures IsMultiPart(ToLower(contentType)) == IsMultiPart(contentType)
  {
    ToLowerIdempotent(contentType);
  }

  /**
   * The boundary `parsePost` derives: the text up to one character before the
   * first newline. It is always a prefix of the body that holds no newline.
   */
  function Boundary(data: string): (r: string)
    ensures |r| <= |data| && r == data[..|r|]
    ensures '\n' !in r
  {
    Substring(data, 0, IndexOf(data, '\n') - 1)
  }

  /** The boundary is the first line without its last character. */
  lemma BoundaryFirstLine(line: string, rest: string)
    requires '\n' !in line
    ensures |line| > 0 ==> Boundary(line + "\n" + rest) == line[..|line| - 1]
    ensures |line| == 0 ==> Boundary(line + "\n" + rest) == ""
  {
    IndexOfAfterFree(line, '\n', "\n" + rest);
    assert line + "\n" + rest == line + ("\n" + rest);
  }

  /** So a first line ended by CR LF gives exactly the text before the CR. */
  lemma BoundaryCrLf(b: string, rest: string)
    requires '\n' !in b
    ensures Boundary(b + "\r\n" + rest) == b
  {
    BoundaryFirstLine(b + "\r", rest);
    assert b + "\r\n" + rest == (b + "\r") + "\n" + rest;
    assert (b + "\r")[..|b|] == b;
  }

  /** Without a newline the end index is negative and clamped, so the boundary is empty. */
  lemma BoundaryNoNewline(data: string)
    requires '\n' !in data
    ensures Boundary(data) == ""
  {
  }

  /** `FormData`, a `URLSearchParams`: the list of decoded name/value pairs. */
  class FormData {
    var pairs: seq<(string, string)>

    /** `new FormData()` and `new URLSearchParams(init)`. */
    constructor(init: string)
      ensures pairs == SearchParams(init)
    {
      pairs := SearchParams(init);
    }
  }

  /** The `post` record of a request. */
  class Post {
    var form: FormData
    var files: seq<JsValue>
    var parts: seq<string>
    var data: string
    var isMultiPart: bool

    /** The default record: an empty form, no files or parts, no data, not multipart. */
    constructor()
      ensures fresh(form) && form.pairs == []
      ensures files == [] && parts == [] && data == "" && !isMultiPart
    {
      form := new FormData("");
      files := [];
      parts := [];
      data := "";
      isMultiPart := false;
      new;
      SplitFree("", '&');
    }
  }

  /** `class Request`. */
  class Request {
    var url: string
    var httpMethod: string  // `method`, a keyword here
    const headers: Headers
    const post: Post

    /**
     * `new Request(url, {method, headers})`. The source reads the content
     * type with a non-null assertion, so its caller must have set it.
     */
    constructor(url: string, httpMethod: string, headers: Headers)
      requires headers.Get("content_type").Some?
      ensures this.url == url && this.httpMethod == httpMethod && this.headers == headers
      ensures fresh(post) && fresh(post.form) && post.form.pairs == []
      ensures post.files == [] && post.parts == [] && post.data == ""
      ensures post.isMultiPart == IsMultiPart(headers.Get("content_type").value)
    {
      this.url := url;
      this.httpMethod := httpMethod;
      this.headers := headers;
      post := new Post();
      new;
      if IsMultiPart(headers.Get("content_type").value) {
        post.isMultiPart := true;
      }
    }

    /** The `data` handler of `readPost`: one chunk of the body appended. */
    method AppendChunk(chunk: string)
      modifies post
      ensures post.data == old(post.data) + chunk
      ensures post.form == old(post.form) && post.files == old(post.files) && post.parts == old(post.parts)
      ensures post.isMultiPart == old(post.isMultiPart)
    {
      post.data := post.data + chunk;
    }

    /**
     * `parsePost()`: a multipart body is left as it is (its boundary is
     * computed and the pieces it splits into are not used); any other body
     * replaces `form` with a new object holding its decoded pairs.
     */
    method ParsePost()
      modifies post
      ensures post.isMultiPart ==> unchanged(post)
      ensures !post.isMultiPart ==> fresh(post.form) && post.form.pairs == SearchParams(post.data)
      ensures post.files == old(post.files) && post.parts == old(post.parts)
      ensures post.data == old(post.data) && post.isMultiPart == old(post.isMultiPart)
    {
      if post.isMultiPart {
        var boundary := Boundary(post.data);
      } else {
        post.form := new FormData(post.data);
      }
    }

    /**
     * `readPost(onFinishedRead, parseData)` for a body that arrives as
     * `chunks`: every chunk appended in order, then, when `parseData`,
     * `parsePost()`.
     */
    method ReadPost(chunks: seq<string>, parseData: bool)
      modifies post
      ensures post.data == old(post.data) + Concat(chunks)
      ensures post.files == old(post.files) && post.parts == old(post.parts)
      ensures post.isMultiPart == old(post.isMultiPart)
      ensures !parseData || post.isMultiPart ==> post.form == old(post.form)
      ensures parseData && !post.isMultiPart ==> fresh(post.form) && post.form.pairs == SearchParams(post.data)
    {
      var i := 0;
      while i < |chunks|
        invariant 0 <= i <= |chunks|
        invariant post.data == old(post.data) + Concat(chunks[..i])
        invariant post.form == old(post.form) && post.files == old(post.files) && post.parts == old(post.parts)
        invariant post.isMultiPart == old(post.isMultiPart)
      {
        assert chunks[..i + 1][..i] == chunks[..i];
        AppendChunk(chunks[i]);
        i := i + 1;
      }
      assert chunks[..i] == chunks;
      if parseData {
        ParsePost();
      }
    }
  }
}
