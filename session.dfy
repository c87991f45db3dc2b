/**
 * The file-backed session of src/Session.ts (repeated in lib/node-cgi.js).
 *
 * The session directory is a value: whether it exists, and its files by path,
 * each holding the record a session file parses to and its modification time
 * in milliseconds. Operations that touch the directory take it and return the
 * new one. The clock is the argument `now`, the md5 id `create` computes is
 * the argument `freshId`, and the configured session directory is `root`.
 */
module Sessions {
  import opened Wrappers
  import opened Text
  import opened JsObjects
  import opened CookieCodec
  import opened HeaderTable
  import opened Values
  import Percent

  /** `Config.SessionCookie`. */
  const SessionCookieName := "__NODE_SESSION__"

  /** `Config.SessionTimeOut`, in seconds. */
  const SessionTimeOut := 15 * 60

  /** The age, in milliseconds, past which `cleanup` removes a file. */
  const TimeOutMs := SessionTimeOut * 1000

  /** The session's own cookie; `notSent` is true until a response has sent it. */
  datatype SessionCookie = SessionCookie(cookie: Cookie, notSent: bool)

  /** What a session file holds (`SessionData`). `None` stands for an undefined `ipAddress`. */
  datatype SessionData = SessionData(
    id: string,
    path: string,
    ipAddress: Option<string>,
    cookie: SessionCookie,
    data: map<string, JsValue>)

  datatype FileEntry = FileEntry(record: SessionData, mtime: int)

  /** The session directory: whether it exists, and its files by path. */
  datatype Disk = Disk(dirExists: bool, files: map<string, FileEntry>)

  /** The states a file system can be in: a directory that does not exist holds no files. */
  predicate DiskValid(d: Disk) {
    !d.dirExists ==> d.files == map[]
  }

  /** `path.join(Config.SessionPath, id)`. */
  function SessionPath(root: string, id: string): string {
    root + "/" + id
  }

  /** The id the request's cookie names, when the cookie is present and not empty. */
  function CandidateId(jar: map<string, string>): (r: Option<string>)
    ensures r.Some? <==> SessionCookieName in jar && |jar[SessionCookieName]| > 0
    ensures r.Some? ==> r.value == jar[SessionCookieName]
  {
    if SessionCookieName in jar && |jar[SessionCookieName]| > 0 then Some(jar[SessionCookieName]) else None
  }

  /** The cookie `create` gives a new session. */
  function NewCookie(id: string): SessionCookie {
    SessionCookie(Cookie(SessionCookieName, id, "", "", None, true, "Lax", false), true)
  }

  /** The record `create` writes for a new session id. */
  function NewRecord(root: string, id: string, remote: Option<string>): SessionData {
    SessionData(id, SessionPath(root, id), remote, NewCookie(id), map[])
  }

  /** The directory after `create`: it exists, and holds the new record written at `now`. */
  function WriteNew(disk: Disk, root: string, id: string, remote: Option<string>, now: int): Disk {
    Disk(true, disk.files[SessionPath(root, id) := FileEntry(NewRecord(root, id, remote), now)])
  }

  /**
   * The session id the constructor settles on and the directory after it: the
   * cookie's id, unless there is none or its file is missing, in which case a
   * new session is created under `freshId`.
   */
  function ResolveId(jar: map<string, string>, remote: Option<string>, root: string, disk: Disk, freshId: string, now: int): (r: (string, Disk))
    ensures SessionPath(root, r.0) in r.1.files
  {
    match CandidateId(jar)
    case Some(c) =>
      if SessionPath(root, c) in disk.files then (c, disk)
      else (freshId, WriteNew(disk, root, freshId, remote, now))
    case None =>
      (freshId, WriteNew(disk, root, freshId, remote, now))
  }

  /**
   * What constructing a session yields: its record, or the error it throws.
   * The only error is `"Invalid session ID"`, and a record is only ever
   * handed out for the requesting address.
   */
  function OpenRecord(jar: map<string, string>, remote: Option<string>, root: string, disk: Disk, freshId: string, now: int): (r: Result<SessionData, string>)
    ensures r.Failure? ==> r.error == "Invalid session ID"
    ensures r.Success? ==> r.value.ipAddress == remote
  {
    var (id, d) := ResolveId(jar, remote, root, disk, freshId, now);
    var rec := d.files[SessionPath(root, id)].record;
    if rec.ipAddress != remote then Failure("Invalid session ID") else Success(rec)
  }

  /**
   * Whether `cleanup` at time `now` removes a file: only a file last written
   * before `now`, and never one exactly 900 seconds old.
   */
  predicate Expired(e: FileEntry, now: int): (r: bool)
    ensures r ==> e.mtime < now
    ensures now == e.mtime + 900 * 1000 ==> !r
  {
    e.mtime + TimeOutMs < now
  }

  /** The files `cleanup` at time `now` leaves. */
  function Swept(files: map<string, FileEntry>, now: int): map<string, FileEntry> {
    map p | p in files && !Expired(files[p], now) :: files[p]
  }

  /**
   * The data map once `JSON.stringify` has written it and `JSON.parse` read
   * it back: keys holding `undefined` are gone, and `None` where stringifying
   * throws.
   */
  function PersistData(data: map<string, JsValue>): (r: Option<map<string, JsValue>>)
    ensures r.Some? <==> forall k :: k in data ==> Serializable(data[k])
  {
    if forall k :: k in data ==> Persisted(data[k]).Some?
    then Some(map k | k in data && !data[k].JsUndefined? :: Persisted(data[k]).value)
    else None
  }

  /**
   * What `save` does to the directory for a session in state `rec`: its data
   * goes through the `data` getter, which drops `__proto__`; then a TypeError
   * from `JSON.stringify`, ENOENT without the directory, else the record
   * overwritten. Only the session's own file changes, stamped `now`.
   */
  function SaveRecord(rec: SessionData, disk: Disk, now: int): (r: Result<Disk, string>)
    ensures r.Success? <==> disk.dirExists && PersistData(rec.data - {ProtoKey}).Some?
    ensures r.Success? ==> r.value.dirExists && rec.path in r.value.files && r.value.files[rec.path].mtime == now
    ensures r.Success? ==> r.value.files[rec.path].record.data.Keys <= rec.data.Keys - {ProtoKey}
    ensures r.Success? ==> forall p :: p != rec.path ==> (p in r.value.files <==> p in disk.files)
    ensures r.Success? ==> forall p :: p != rec.path && p in disk.files ==> r.value.files[p] == disk.files[p]
  {
    match PersistData(rec.data - {ProtoKey})
    case None => Failure("TypeError")
    case Some(data) =>
      if !disk.dirExists then Failure("ENOENT")
      else Success(Disk(true, disk.files[rec.path := FileEntry(rec.(data := data), now)]))
  }

  /** `class Session`. */
  class Session {
    var id: string
    var path: string
    var ipAddress: Option<string>
    var cookie: SessionCookie
    var store: map<string, JsValue>

    /** The session's state as a record. */
    function Record(): SessionData
      reads this
    {
      SessionData(id, path, ipAddress, cookie, store)
    }

    /** The last part of the constructor: fields from the record, then its data entries copied one by one. */
    constructor Load(rec: SessionData)
      ensures Record() == rec
    {
      id := rec.id;
      cookie := rec.cookie;
      path := rec.path;
      ipAddress := rec.ipAddress;
      store := map[];
      new;
      var pending := rec.data.Keys;
      while pending != {}
        invariant pending <= rec.data.Keys
        invariant store.Keys == rec.data.Keys - pending
        invariant forall k :: k in store ==> store[k] == rec.data[k]
        invariant id == rec.id && cookie == rec.cookie && path == rec.path && ipAddress == rec.ipAddress
        decreases pending
      {
        var k :| k in pending;
        store := store[k := rec.data[k]];
        pending := pending - {k};
      }
    }

    /**
     * `create()`: writes the record of a new session under `freshId`, making
     * the directory first if it is missing, and returns the id.
     */
    static method Create(server: Headers, root: string, disk: Disk, freshId: string, now: int) returns (newId: string, disk': Disk)
      ensures newId == freshId
      ensures disk'.dirExists
      ensures disk'.files == disk.files[SessionPath(root, freshId) := FileEntry(NewRecord(root, freshId, server.Get("remote_addr")), now)]
    {
      var rec := NewRecord(root, freshId, server.Get("remote_addr"));
      var d := disk;
      if !d.dirExists {
        d := d.(dirExists := true);
      }
      d := d.(files := d.files[rec.path := FileEntry(rec, now)]);
      newId, disk' := rec.id, d;
    }

    /**
     * The constructor: choose the id, re-create a missing session, load the
     * record, and throw `"Invalid session ID"` when its IP address is not the
     * request's `remote_addr`.
     */
    static method Open(cookies: Cookies, server: Headers, root: string, disk: Disk, freshId: string, now: int)
      returns (r: Result<Session, string>, disk': Disk)
      ensures var remote := server.Get("remote_addr");
        && disk' == ResolveId(cookies.store, remote, root, disk, freshId, now).1
        && (r.Failure? <==> OpenRecord(cookies.store, remote, root, disk, freshId, now).Failure?)
        && (r.Failure? ==> r.error == OpenRecord(cookies.store, remote, root, disk, freshId, now).error)
        && (r.Success? ==> fresh(r.value) && r.value.Record() == OpenRecord(cookies.store, remote, root, disk, freshId, now).value)
    {
      var d := disk;
      var sessionId: string;
      var fromCookie := cookies.Get(SessionCookieName);
      if fromCookie.Some? && |fromCookie.value| > 0 {
        sessionId := fromCookie.value;
      } else {
        sessionId, d := Create(server, root, d, freshId, now);
      }
      if SessionPath(root, sessionId) !in d.files {
        sessionId, d := Create(server, root, d, freshId, now);
      }
      disk' := d;
      var rec := d.files[SessionPath(root, sessionId)].record;
      if rec.ipAddress != server.Get("remote_addr") {
        r := Failure("Invalid session ID");
        return;
      }
      var s := new Session.Load(rec);
      r := Success(s);
    }

    /** What `sendHeaders` does to the session cookie once it has written it: `notSent` becomes false. */
    method MarkCookieSent()
      modifies this
      ensures cookie == old(cookie).(notSent := false)
      ensures id == old(id) && path == old(path) && ipAddress == old(ipAddress) && store == old(store)
    {
      cookie := cookie.(notSent := false);
    }

    /** `get(key)`. */
    method Get(key: string) returns (r: Option<JsValue>)
      ensures r.Some? <==> key in store
      ensures r.Some? ==> r.value == store[key]
    {
      r := if key in store then Some(store[key]) else None;
    }

    /** `set(key, value)`: only the store changes. */
    method Set(key: string, value: JsValue)
      modifies this
      ensures store == old(store)[key := value]
      ensures id == old(id) && path == old(path) && ipAddress == old(ipAddress) && cookie == old(cookie)
    {
      store := store[key := value];
    }

    /** `unset(key)`: removes the key and reports whether it was there. */
    method Unset(key: string) returns (existed: bool)
      modifies this
      ensures existed <==> key in old(store)
      ensures store == old(store) - {key}
      ensures id == old(id) && path == old(path) && ipAddress == old(ipAddress) && cookie == old(cookie)
    {
      existed := key in store;
      store := store - {key};
    }

    /**
     * The `data` getter: every stored pair assigned into a fresh `{}`, so a
     * `__proto__` key is not kept.
     */
    method Data() returns (r: map<string, JsValue>)
      ensures forall k :: k in r <==> k in store && k != ProtoKey
      ensures forall k :: k in r ==> r[k] == store[k]
    {
      r := map[];
      var pending := store.Keys;
      while pending != {}
        invariant pending <= store.Keys
        invariant r.Keys == store.Keys - pending - {ProtoKey}
        invariant forall k :: k in r ==> r[k] == store[k]
        decreases pending
      {
        var k :| k in pending;
        if k != ProtoKey {
          r := r[k := store[k]];
        }
        pending := pending - {k};
      }
    }

    /** `save()`: overwrites the file at `path` with the session's record, as JSON keeps it. */
    method Save(disk: Disk, now: int) returns (r: Result<Disk, string>)
      ensures r == SaveRecord(Record(), disk, now)
    {
      var data := Data();
      assert data == store - {ProtoKey};
      var rec := SessionData(id, path, ipAddress, cookie, data);
      var persisted := PersistData(rec.data);
      if persisted.None? {
        return Failure("TypeError");
      }
      if !disk.dirExists {
        return Failure("ENOENT");
      }
      r := Success(Disk(true, disk.files[path := FileEntry(rec.(data := persisted.value), now)]));
    }

    /** `cleanup()`: removes, one directory entry at a time, every file older than the time-out. */
    method Cleanup(disk: Disk, now: int) returns (r: Result<Disk, string>)
      ensures !disk.dirExists ==> r == Failure("ENOENT")
      ensures disk.dirExists ==> r == Success(Disk(true, Swept(disk.files, now)))
    {
      if !disk.dirExists {
        return Failure("ENOENT");
      }
      var files := disk.files;
      var pending := disk.files.Keys;
      while pending != {}
        invariant pending <= disk.files.Keys
        invariant files == map p | p in disk.files && (p in pending || !Expired(disk.files[p], now)) :: disk.files[p]
        decreases pending
      {
        var p :| p in pending;
        if files[p].mtime + TimeOutMs < now {
          files := files - {p};
        }
        pending := pending - {p};
      }
      assert files.Keys == Swept(disk.files, now).Keys;
      r := Success(Disk(true, files));
    }
  }
  /** A cookie naming an existing file selects that file, and the directory is left as it was. */
  lemma OpenExisting(jar: map<string, string>, remote: Option<string>, root: string, disk: Disk, freshId: string, now: int)
    requires CandidateId(jar).Some? && SessionPath(root, CandidateId(jar).value) in disk.files
    ensures var rec := disk.files[SessionPath(root, jar[SessionCookieName])].record;
      && ResolveId(jar, remote, root, disk, freshId, now) == (jar[SessionCookieName], disk)
      && OpenRecord(jar, remote, root, disk, freshId, now) ==
         (if rec.ipAddress == remote then Success(rec) else Failure("Invalid session ID"))
  {
  }

  /**
   * Without a usable cookie, or when its file is missing, exactly one new
   * session is written under `freshId`, and it always passes the IP check.
   */
  lemma OpenFresh(jar: map<string, string>, remote: Option<string>, root: string, disk: Disk, freshId: string, now: int)
    requires CandidateId(jar).None? || SessionPath(root, CandidateId(jar).value) !in disk.files
    ensures ResolveId(jar, remote, root, disk, freshId, now) == (freshId, WriteNew(disk, root, freshId, remote, now))
    ensures OpenRecord(jar, remote, root, disk, freshId, now) == Success(NewRecord(root, freshId, remote))
  {
  }

  /** Construction throws exactly when the cookie names an existing file recorded for another IP address. */
  lemma OpenFailsIff(jar: map<string, string>, remote: Option<string>, root: string, disk: Disk, freshId: string, now: int)
    ensures OpenRecord(jar, remote, root, disk, freshId, now).Failure? <==>
      && CandidateId(jar).Some?
      && SessionPath(root, jar[SessionCookieName]) in disk.files
      && disk.files[SessionPath(root, jar[SessionCookieName])].record.ipAddress != remote
    ensures OpenRecord(jar, remote, root, disk, freshId, now).Failure? ==>
      OpenRecord(jar, remote, root, disk, freshId, now).error == "Invalid session ID"
  {
    if CandidateId(jar).Some? && SessionPath(root, jar[SessionCookieName]) in disk.files {
      OpenExisting(jar, remote, root, disk, freshId, now);
    } else {
      OpenFresh(jar, remote, root, disk, freshId, now);
    }
  }

  /** Data made only of plain values is stored by JSON as it is. */
  lemma PersistDataPlain(data: map<string, JsValue>)
    requires forall k :: k in data ==> Plain(data[k])
    ensures PersistData(data) == Some(data)
  {
    forall k | k in data
      ensures Persisted(data[k]) == Some(data[k])
    {
      PersistedPlain(data[k]);
    }
    var kept := map k | k in data && !data[k].JsUndefined? :: Persisted(data[k]).value;
    assert kept.Keys == data.Keys;
    assert kept == data;
  }

  /**
   * The cookie a new session sets selects that session on the next request:
   * sent back as `name=value`, the first pair of its `Set-Cookie` line, it
   * parses to a jar whose candidate id is the session's id.
   */
  lemma NewCookieSelects(id: string)
    requires |id| > 0
    ensures CandidateId(ParseHeader(Some(NamePair(NewCookie(id).cookie)))) == Some(id)
  {
    var name := SessionCookieName;
    assert forall i :: 0 <= i < |name| ==> name[i] in "_NODESI";
    assert NoSpace(name);
    TrimNoSpace(name);
    CookiePairRoundTrip(name, id);
  }

  /**
   * A session saved to its own file is what the next request carrying its
   * cookie from the same address loads, with its data as JSON keeps it, and
   * that request writes nothing.
   */
  lemma SaveThenOpen(rec: SessionData, disk: Disk, now: int, jar: map<string, string>, root: string, freshId: string, later: int)
    requires rec.path == SessionPath(root, rec.id) && |rec.id| > 0
    requires SaveRecord(rec, disk, now).Success?
    requires SessionCookieName in jar && jar[SessionCookieName] == rec.id
    ensures var saved := SaveRecord(rec, disk, now).value;
      && ResolveId(jar, rec.ipAddress, root, saved, freshId, later).1 == saved
      && OpenRecord(jar, rec.ipAddress, root, saved, freshId, later) == Success(rec.(data := PersistData(rec.data - {ProtoKey}).value))
  {
    var saved := SaveRecord(rec, disk, now).value;
    assert SessionPath(root, rec.id) in saved.files;
    OpenExisting(jar, rec.ipAddress, root, saved, freshId, later);
  }

  /** So a session whose values are plain comes back with the data it saved, all but a `__proto__` key. */
  lemma SaveThenOpenPlain(rec: SessionData, disk: Disk, now: int, jar: map<string, string>, root: string, freshId: string, later: int)
    requires rec.path == SessionPath(root, rec.id) && |rec.id| > 0
    requires disk.dirExists && forall k :: k in rec.data ==> Plain(rec.data[k])
    requires SessionCookieName in jar && jar[SessionCookieName] == rec.id
    ensures SaveRecord(rec, disk, now).Success?
    ensures OpenRecord(jar, rec.ipAddress, root, SaveRecord(rec, disk, now).value, freshId, later) ==
      Success(rec.(data := rec.data - {ProtoKey}))
    ensures ProtoKey !in rec.data ==> OpenRecord(jar, rec.ipAddress, root, SaveRecord(rec, disk, now).value, freshId, later) == Success(rec)
  {
    PersistDataPlain(rec.data - {ProtoKey});
    assert ProtoKey !in rec.data ==> rec.data - {ProtoKey} == rec.data;
    SaveThenOpen(rec, disk, now, jar, root, freshId, later);
  }

  /** A saved session file never holds a `__proto__` data key, whatever the store held. */
  lemma SaveDropsProto(rec: SessionData, disk: Disk, now: int)
    requires SaveRecord(rec, disk, now).Success?
    ensures rec.path in SaveRecord(rec, disk, now).value.files
    ensures ProtoKey !in SaveRecord(rec, disk, now).value.files[rec.path].record.data
  {
  }

  /** Opening and saving a session lead from a real directory state to another one. */
  lemma DiskStaysValid(jar: map<string, string>, remote: Option<string>, root: string, disk: Disk, freshId: string, now: int, rec: SessionData)
    requires DiskValid(disk)
    ensures DiskValid(ResolveId(jar, remote, root, disk, freshId, now).1)
    ensures SaveRecord(rec, disk, now).Success? ==> DiskValid(SaveRecord(rec, disk, now).value)
  {
  }

  /** `cleanup` keeps exactly the files no older than the time-out, unchanged; a file exactly at the limit stays. */
  lemma SweptIff(files: map<string, FileEntry>, now: int, p: string)
    ensures p in Swept(files, now) <==> p in files && files[p].mtime + 900000 >= now
    ensures p in Swept(files, now) ==> Swept(files, now)[p] == files[p]
  {
  }

  /** The `Set-Cookie` value of a new session: its id, `HttpOnly` and `SameSite=Lax`. */
  lemma NewCookieSerialized(id: string)
    ensures SerializeCookie(NewCookie(id).cookie) == SessionCookieName + "=" + Percent.Encode(id) + "; HttpOnly; SameSite=Lax"
  {
    var c := NewCookie(id).cookie;
    NewCookieAttributes(id);
    JoinThree(NamePair(c), "HttpOnly", "SameSite=Lax", "; ");
  }

  /** The attributes of the new session cookie. */
  lemma NewCookieAttributes(id: string)
    ensures Attributes(NewCookie(id).cookie) == ["HttpOnly", "SameSite=Lax"]
  {
    var c := NewCookie(id).cookie;
    assert "SameSite=" + c.sameSite == "SameSite=Lax";
  }

  lemma JoinThree(a: string, b: string, c: string, sep: string)
    ensures Join([a] + [b, c], sep) == a + sep + b + sep + c
  {
    assert ([a] + [b, c])[1..] == [b, c];
    assert [b, c][1..] == [c];
    assert Join([c], sep) == c;
    assert Join([b, c], sep) == b + sep + c;
    assert Join([a] + [b, c], sep) == a + sep + Join([b, c], sep);
  }
}
