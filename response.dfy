/**
 * The response writer (`src/Response.ts`): a two-state machine, headers
 * pending and then headers sent. The first output of any kind sends the one
 * header block (the content type, one line per request-header value, the
 * session cookie while it has not been sent, a blank line); body text follows
 * it; `end` sends the block if it is still pending and terminates the process.
 * Standard output is the sequence `out` of the texts written to it.
 */
module Responses {
  import opened Wrappers
  import opened Text
  import opened HeaderTable
  import opened CookieCodec
  import opened Sessions

  const ContentTypeLine: string := "Content-Type:text/html;charset=utf-8\n"
  const BlankLine: string := "\n"

  /** `key:value` and a newline. */
  function HeaderLine(name: string, value: string): string {
    name + ":" + value + "\n"
  }

  /** The lines of one table entry, one per value, in order. */
  function EntryLines(e: Entry): (r: seq<string>)
    ensures |r| == |e.values|
    ensures forall j :: 0 <= j < |e.values| ==> r[j] == HeaderLine(e.name, e.values[j])
  {
    seq(|e.values|, j requires 0 <= j < |e.values| => HeaderLine(e.name, e.values[j]))
  }

  /** The lines of every entry of a table, entry by entry. */
  function HeaderLines(t: Table): seq<string> {
    if t == [] then [] else HeaderLines(t[..|t| - 1]) + EntryLines(t[|t| - 1])
  }

  /** The `Set-Cookie` line of a session cookie. */
  function SetCookieLine(c: Cookie): string {
    "Set-Cookie:" + SerializeCookie(c) + "\n"
  }

  /** The `Set-Cookie` line, present only while the cookie has not been sent. */
  function CookieLines(c: SessionCookie): seq<string> {
    if c.notSent then [SetCookieLine(c.cookie)] else []
  }

  /** The header block written for a table of headers and a session cookie. */
  function HeaderBlock(t: Table, c: SessionCookie): seq<string> {
    [ContentTypeLine] + HeaderLines(t) + CookieLines(c) + [BlankLine]
  }

  /** A line of one value of one entry. */
  predicate LineOf(t: Table, line: string, i: int, j: int) {
    0 <= i < |t| && 0 <= j < |t[i].values| && line == HeaderLine(t[i].name, t[i].values[j])
  }

  /** A prefix one entry longer adds that entry's lines. */
  lemma HeaderLinesSnoc(t: Table, i: int)
    requires 0 <= i < |t|
    ensures HeaderLines(t[..i + 1]) == HeaderLines(t[..i]) + EntryLines(t[i])
  {
    assert t[..i + 1][..i] == t[..i];
  }

  /** The header lines are exactly one `key:value` line for every value of every entry. */
  lemma {:induction false} HeaderLinesIff(t: Table, line: string)
    ensures line in HeaderLines(t) <==> exists i, j :: LineOf(t, line, i, j)
  {
    if t != [] {
      var n := |t| - 1;
      var front := t[..n];
      HeaderLinesIff(front, line);
      assert forall i, j :: LineOf(front, line, i, j) ==> LineOf(t, line, i, j);
      if exists i, j :: LineOf(t, line, i, j) {
        var i, j :| LineOf(t, line, i, j);
        if i < n {
          assert LineOf(front, line, i, j);
        } else {
          assert EntryLines(t[n])[j] == line;
        }
      }
      if line in EntryLines(t[n]) {
        var j :| 0 <= j < |EntryLines(t[n])| && EntryLines(t[n])[j] == line;
        assert LineOf(t, line, n, j);
      }
    }
  }

  /** For a table built by `set`, the lines are one per entry, in the table's order. */
  lemma {:induction false} HeaderLinesSetBuilt(t: Table)
    requires SetBuilt(t)
    ensures |HeaderLines(t)| == |t|
    ensures forall i :: 0 <= i < |t| ==> HeaderLines(t)[i] == HeaderLine(t[i].name, t[i].values[0])
  {
    if t != [] {
      var front := t[..|t| - 1];
      assert SetBuilt(front);
      HeaderLinesSetBuilt(front);
    }
  }

  /**
   * A header block starts with the content type, ends with the only blank
   * line in it, and holds the `Set-Cookie` line just before that exactly
   * when the cookie has not been sent.
   */
  lemma BlockShape(t: Table, c: SessionCookie)
    ensures var b := HeaderBlock(t, c);
      && b[0] == ContentTypeLine
      && b[|b| - 1] == BlankLine
      && (forall i :: 0 <= i < |b| - 1 ==> b[i] != BlankLine)
      && |b| == |HeaderLines(t)| + (if c.notSent then 3 else 2)
      && (c.notSent ==> b[|b| - 2] == SetCookieLine(c.cookie))
  {
    var b := HeaderBlock(t, c);
    forall i | 0 <= i < |b| - 1
      ensures b[i] != BlankLine
    {
      if 0 < i <= |HeaderLines(t)| {
        var line := b[i];
        assert line in HeaderLines(t);
        HeaderLinesIff(t, line);
        var k, j :| LineOf(t, line, k, j);
        assert |line| >= 2;
      }
    }
  }

  /** The output of a response: one header block, then the written texts, as text. */
  lemma OutputText(block: seq<string>, body: seq<string>)
    ensures Concat(block + body) == Concat(block) + Concat(body)
  {
    ConcatAppend(block, body);
  }

  /** `class Response`. */
  class Response {
    var isHeadersSent: bool
    var exited: bool
    var out: seq<string>
    const headers: Headers
    const session: Session
    /** The header block written, the table and cookie it was written from, and the texts written after it. */
    ghost var block: seq<string>
    ghost var sentTable: Table
    ghost var sentCookie: SessionCookie
    ghost var body: seq<string>

    /** Before the headers are sent nothing is written; afterwards the output is the block and then the body. */
    ghost predicate Valid()
      reads this
    {
      && (!isHeadersSent ==> out == [] && block == [] && body == [] && !exited)
      && (isHeadersSent ==> block == HeaderBlock(sentTable, sentCookie) && out == block + body)
    }

    /** `new Response(headers, session)`: nothing sent yet. */
    constructor(headers: Headers, session: Session)
      ensures this.headers == headers && this.session == session
      ensures !isHeadersSent && !exited && out == []
      ensures Valid()
    {
      this.headers := headers;
      this.session := session;
      isHeadersSent := false;
      exited := false;
      out := [];
      block := [];
      body := [];
    }

    /**
     * `sendHeaders()`: the first call writes the header block for the
     * current request headers and session cookie and marks the cookie sent;
     * every later call writes nothing.
     */
    method SendHeaders()
      requires Valid()
      modifies this, session
      ensures Valid() && isHeadersSent
      ensures exited == old(exited) && body == old(body)
      ensures old(isHeadersSent) ==> out == old(out) && block == old(block) && session.cookie == old(session.cookie)
      ensures !old(isHeadersSent) ==> out == HeaderBlock(old(headers.table), old(session.cookie))
      ensures !old(isHeadersSent) ==> session.cookie == old(session.cookie).(notSent := false)
      ensures session.id == old(session.id) && session.path == old(session.path)
      ensures session.ipAddress == old(session.ipAddress) && session.store == old(session.store)
    {
      if isHeadersSent {
        return;
      }
      SendBlock();
    }

    /** The pending branch of `sendHeaders`: the one header block, and the cookie marked sent. */
    method SendBlock()
      requires !isHeadersSent && !exited && out == [] && block == [] && body == []
      modifies this, session
      ensures Valid() && isHeadersSent
      ensures exited == old(exited) && body == old(body)
      ensures out == HeaderBlock(old(headers.table), old(session.cookie))
      ensures session.cookie == old(session.cookie).(notSent := false)
      ensures session.id == old(session.id) && session.path == old(session.path)
      ensures session.ipAddress == old(session.ipAddress) && session.store == old(session.store)
    {
      isHeadersSent := true;
      var t := headers.table;
      var cookie := session.cookie;
      out := out + [ContentTypeLine];
      WriteHeaderLines(t);
      WriteCookieLine();
      out := out + [BlankLine];
      block := out;
      sentTable, sentCookie := t, cookie;
      assert block == HeaderBlock(sentTable, sentCookie);
      assert out == block + body;
    }

    /** The cookie step of `sendHeaders`: the `Set-Cookie` line while the cookie is unsent, which marks it sent. */
    method WriteCookieLine()
      modifies this, session
      ensures out == old(out) + CookieLines(old(session.cookie))
      ensures session.cookie == old(session.cookie).(notSent := false)
      ensures session.id == old(session.id) && session.path == old(session.path)
      ensures session.ipAddress == old(session.ipAddress) && session.store == old(session.store)
      ensures isHeadersSent == old(isHeadersSent) && exited == old(exited)
      ensures body == old(body) && block == old(block)
    {
      if session.cookie.notSent {
        session.MarkCookieSent();
        out := out + [SetCookieLine(session.cookie.cookie)];
      }
    }

    /** The loops of `sendHeaders`: the lines of every entry, entry by entry. */
    method WriteHeaderLines(t: Table)
      modifies this
      ensures out == old(out) + HeaderLines(t)
      ensures isHeadersSent == old(isHeadersSent) && exited == old(exited)
      ensures body == old(body) && block == old(block)
    {
      var i := 0;
      while i < |t|
        invariant 0 <= i <= |t|
        invariant out == old(out) + HeaderLines(t[..i])
        invariant isHeadersSent == old(isHeadersSent) && exited == old(exited)
        invariant body == old(body) && block == old(block)
      {
        WriteEntry(t[i]);
        HeaderLinesSnoc(t, i);
        i := i + 1;
      }
      assert t[..i] == t;
    }

    /** The inner loop of `sendHeaders`: one `key:value` line for every value of an entry. */
    method WriteEntry(e: Entry)
      modifies this
      ensures out == old(out) + EntryLines(e)
      ensures isHeadersSent == old(isHeadersSent) && exited == old(exited)
      ensures body == old(body) && block == old(block)
    {
      var values := e.values;
      var j := 0;
      while j < |values|
        invariant 0 <= j <= |values|
        invariant out == old(out) + EntryLines(e)[..j]
        invariant isHeadersSent == old(isHeadersSent) && exited == old(exited)
        invariant body == old(body) && block == old(block)
      {
        assert EntryLines(e)[..j + 1] == EntryLines(e)[..j] + [HeaderLine(e.name, values[j])];
        out := out + [HeaderLine(e.name, values[j])];
        j := j + 1;
      }
      assert EntryLines(e)[..j] == EntryLines(e);
    }

    /**
     * `write(text)`: the headers if they are pending, then the text. The
     * process has ended once `exited` holds, so nothing is written then.
     */
    method Write(text: string)
      requires Valid()
      modifies this, session
      ensures Valid() && exited == old(exited)
      ensures old(exited) ==> out == old(out) && body == old(body) && session.cookie == old(session.cookie)
      ensures !old(exited) ==> isHeadersSent && body == old(body) + [text]
      ensures !old(exited) && !old(isHeadersSent) ==> block == HeaderBlock(old(headers.table), old(session.cookie))
      ensures old(isHeadersSent) ==> block == old(block) && session.cookie == old(session.cookie)
      ensures !old(isHeadersSent) ==> session.cookie == old(session.cookie).(notSent := false)
      ensures session.id == old(session.id) && session.path == old(session.path)
      ensures session.ipAddress == old(session.ipAddress) && session.store == old(session.store)
    {
      if exited {
        return;
      }
      SendHeaders();
      out := out + [text];
      body := body + [text];
    }

    /** `end()`: the headers if they are pending, then the process ends; no output follows. */
    method End()
      requires Valid()
      modifies this, session
      ensures Valid() && exited && isHeadersSent && body == old(body)
      ensures old(isHeadersSent) ==> out == old(out) && session.cookie == old(session.cookie)
      ensures !old(isHeadersSent) ==> out == HeaderBlock(old(headers.table), old(session.cookie))
      ensures !old(isHeadersSent) ==> session.cookie == old(session.cookie).(notSent := false)
      ensures session.id == old(session.id) && session.path == old(session.path)
      ensures session.ipAddress == old(session.ipAddress) && session.store == old(session.store)
    {
      SendHeaders();
      exited := true;
    }
  }
}
