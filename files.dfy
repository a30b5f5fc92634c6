/**
 * The WOPI Files endpoint (src/Wopi/Files.php): request-header normalisation,
 * CheckFileInfo, the lock family (Lock / UnlockAndRelock, GetLock, RefreshLock,
 * Unlock), PutFile, PutRelativeFile (Save As) with its file-name cleaner, and the
 * dispatcher on the X-WOPI-Override header. The handlers act on a Vfs.Server:
 * the file contents, the lock store and the response status.
 */
module Files {
  import opened Php
  import opened Naming
  import opened Vfs

  /** 30 minutes, the lock lifetime WOPI asks for. */
  const LockDuration: nat := 1800

  // ---------------------------------------------------------------------------
  // Request headers from $_SERVER

  /** explode('_', $key, 2): the part before the first underscore and the rest. */
  function SplitVar(k: string): (string, string) {
    var i := IndexOf(k, '_');
    if i < 0 then (k, "") else (k[..i], k[i + 1..])
  }

  /** Only HTTP_* and CONTENT_* server variables are request headers. */
  predicate IsHeaderVar(k: string) {
    SplitVar(k).0 == "HTTP" || SplitVar(k).0 == "CONTENT"
  }

  /** Underscores and spaces become dashes, letters lower case. */
  function HeaderChar(c: char): (r: char)
    ensures !IsUpper(r)
  {
    if c == '_' || c == ' ' then '-' else LowerChar(c)
  }

  function HeaderChars(s: string): (r: string)
    ensures |r| == |s|
    ensures forall i :: 0 <= i < |s| ==> r[i] == HeaderChar(s[i])
  {
    seq(|s|, i requires 0 <= i < |s| => HeaderChar(s[i]))
  }

  /** HTTP_X_WOPI_LOCK is "x-wopi-lock"; CONTENT_TYPE is "content-type". */
  function HeaderName(k: string): (name: string)
    requires IsHeaderVar(k)
    ensures forall c :: c in name ==> !IsUpper(c)
  {
    var (kind, rest) := SplitVar(k);
    HeaderChars(if kind == "HTTP" then rest else "CONTENT " + rest)
  }

  /** The Authorization header is masked. */
  function HeaderValue(k: string, v: string): string {
    if SplitVar(k).1 == "AUTHORIZATION" then "Basic ***************" else v
  }

  /** The header a server variable carries: HeaderName for HTTP_* and CONTENT_*, none otherwise. */
  function HeaderKey(k: string): (r: Option<string>)
    ensures r.Some? <==> IsHeaderVar(k)
  {
    if IsHeaderVar(k) then Some(HeaderName(k)) else None
  }

  /**
   * The table filled by walking the variables in order, each keyed variable
   * storing its value under its key, so that a later variable wins.
   */
  function LastWins(vars: seq<(string, string)>, key: string -> Option<string>,
                    value: (string, string) -> string): map<string, string>
  {
    if vars == [] then map[]
    else
      var t := LastWins(vars[..|vars| - 1], key, value);
      var (k, v) := vars[|vars| - 1];
      if key(k).Some? then t[key(k).value := value(k, v)] else t
  }

  /** Variable `i` is stored under `name`. */
  predicate KeyedAs(vars: seq<(string, string)>, key: string -> Option<string>, i: int, name: string) {
    0 <= i < |vars| && key(vars[i].0) == Some(name)
  }

  /** Dropping the last variable does not change how the others are keyed. */
  lemma KeyedAsInit(vars: seq<(string, string)>, key: string -> Option<string>, i: int, name: string)
    requires 0 <= i < |vars| - 1
    ensures KeyedAs(vars[..|vars| - 1], key, i, name) <==> KeyedAs(vars, key, i, name)
  {
    assert vars[..|vars| - 1][i] == vars[i];
  }

  /** The table holds exactly the keys of the variables. */
  lemma {:induction false} LastWinsKeys(vars: seq<(string, string)>, key: string -> Option<string>,
                                         value: (string, string) -> string, name: string)
    ensures name in LastWins(vars, key, value) <==> exists i :: KeyedAs(vars, key, i, name)
  {
    if vars != [] {
      var last := |vars| - 1;
      var init := vars[..last];
      LastWinsKeys(init, key, value, name);
      var k := vars[last].0;
      assert name in LastWins(vars, key, value) <==> name in LastWins(init, key, value) || key(k) == Some(name);
      assert KeyedAs(vars, key, last, name) <==> key(k) == Some(name);
      if exists i :: KeyedAs(init, key, i, name) {
        var i :| KeyedAs(init, key, i, name);
        KeyedAsInit(vars, key, i, name);
      }
      if exists i :: KeyedAs(vars, key, i, name) {
        var i :| KeyedAs(vars, key, i, name);
        if i < last {
          KeyedAsInit(vars, key, i, name);
        }
      }
    }
  }

  /** The value under a key is the value of the last variable with that key. */
  lemma {:induction false} LastWinsValue(vars: seq<(string, string)>, key: string -> Option<string>,
                                          value: (string, string) -> string, i: int, name: string)
    requires KeyedAs(vars, key, i, name)
    requires forall j :: i < j < |vars| ==> !KeyedAs(vars, key, j, name)
    ensures name in LastWins(vars, key, value) && LastWins(vars, key, value)[name] == value(vars[i].0, vars[i].1)
  {
    var last := |vars| - 1;
    if i < last {
      var init := vars[..last];
      KeyedAsInit(vars, key, i, name);
      forall j | i < j < last
        ensures !KeyedAs(init, key, j, name)
      {
        KeyedAsInit(vars, key, j, name);
      }
      LastWinsValue(init, key, value, i, name);
      assert !KeyedAs(vars, key, last, name);
    }
  }

  /** The header table built from the server variables in order; a later variable wins. */
  function HeaderTable(vars: seq<(string, string)>): map<string, string> {
    LastWins(vars, HeaderKey, HeaderValue)
  }

  /** Variable `i` carries the header `name`. */
  predicate Carries(vars: seq<(string, string)>, i: int, name: string) {
    0 <= i < |vars| && IsHeaderVar(vars[i].0) && HeaderName(vars[i].0) == name
  }

  /** The table holds exactly the headers some variable carries. */
  lemma HeaderTableKeys(vars: seq<(string, string)>, name: string)
    ensures name in HeaderTable(vars) <==> exists i :: Carries(vars, i, name)
  {
    LastWinsKeys(vars, HeaderKey, HeaderValue, name);
    assert forall i :: KeyedAs(vars, HeaderKey, i, name) <==> Carries(vars, i, name);
  }

  /** A header's value is the (masked) value of the last variable carrying it. */
  lemma HeaderTableLast(vars: seq<(string, string)>, i: int, name: string)
    requires Carries(vars, i, name)
    requires forall j :: i < j < |vars| ==> !Carries(vars, j, name)
    ensures name in HeaderTable(vars) && HeaderTable(vars)[name] == HeaderValue(vars[i].0, vars[i].1)
  {
    assert forall j :: KeyedAs(vars, HeaderKey, j, name) <==> Carries(vars, j, name);
    LastWinsValue(vars, HeaderKey, HeaderValue, i, name);
  }

  /** Header names are stored in lower case. */
  lemma HeaderTableLowerCase(vars: seq<(string, string)>, name: string)
    requires name in HeaderTable(vars)
    ensures forall c :: c in name ==> !IsUpper(c)
  {
    HeaderTableKeys(vars, name);
    var i :| Carries(vars, i, name);
  }

  /**
   * Files::header($name): the value under $name, or else under its lower-case form;
   * None stands for PHP's null.
   */
  function Header(table: map<string, string>, name: string): (r: Option<string>)
    ensures r.Some? ==> (name in table && r.value == table[name]) || (Lower(name) in table && r.value == table[Lower(name)])
    ensures r.None? <==> name !in table && Lower(name) !in table
  {
    if name in table then Some(table[name])
    else if Lower(name) in table then Some(table[Lower(name)])
    else None
  }

  lemma LowerIdentity(s: string)
    requires forall c :: c in s ==> !IsUpper(c)
    ensures Lower(s) == s
  {
  }

  /**
   * Asking for a header by any capitalisation finds the variable that carries it
   * last: X-WOPI-Lock is read from HTTP_X_WOPI_LOCK.
   */
  lemma HeaderFindsVariable(vars: seq<(string, string)>, i: int, asked: string)
    requires 0 <= i < |vars| && IsHeaderVar(vars[i].0)
    requires Lower(asked) == HeaderName(vars[i].0)
    requires forall j :: i < j < |vars| ==> !Carries(vars, j, HeaderName(vars[i].0))
    ensures Header(HeaderTable(vars), asked) == Some(HeaderValue(vars[i].0, vars[i].1))
  {
    var name := HeaderName(vars[i].0);
    HeaderTableLast(vars, i, name);
    if asked in HeaderTable(vars) {
      HeaderTableLowerCase(vars, asked);
      LowerIdentity(asked);
    }
  }

  /** The loop of Files::header that fills the static header table once per request. */
  method NormaliseHeaders(vars: seq<(string, string)>) returns (table: map<string, string>)
    ensures table == HeaderTable(vars)
    ensures forall name :: name in table ==> exists i :: Carries(vars, i, name)
  {
    table := map[];
    var i := 0;
    while i < |vars|
      invariant 0 <= i <= |vars|
      invariant table == HeaderTable(vars[..i])
    {
      assert vars[..i + 1][..i] == vars[..i];
      var (k, v) := vars[i];
      if IsHeaderVar(k) {
        table := table[HeaderName(k) := HeaderValue(k, v)];
      }
      i := i + 1;
    }
    assert vars[..i] == vars;
    forall name | name in table
      ensures exists i :: Carries(vars, i, name)
    {
      HeaderTableKeys(vars, name);
    }
  }

  // ---------------------------------------------------------------------------
  // CheckFileInfo

  /** What Vfs::stat reports of a path. */
  datatype Stat = Stat(uid: int, size: int, mtime: int)

  /** The CheckFileInfo response; LastModifiedTime is kept as the raw modification time. */
  datatype FileInfo = FileInfo(
    BaseFileName: string,
    OwnerId: string,
    Size: string,
    UserId: string,
    PostMessageOrigin: string,
    SupportsGetLock: bool,
    SupportsLocks: bool,
    SupportsUpdate: bool,
    SupportsRename: bool,
    ReadOnly: bool,
    UserCanRename: bool,
    DisablePrint: bool,
    DisableExport: bool,
    DisableCopy: bool,
    LastModifiedTime: int,
    UserCanWrite: bool,
    UserFriendlyName: string)

  /**
   * The request and configuration facts check_file_info reads: the user, the
   * webserver URL with parse_url's scheme and host of it, and the request's
   * HTTPS variable and Host header.
   */
  datatype Session = Session(user: int, userName: string, webserverUrl: string,
                             urlScheme: string, urlHost: string, https: string, httpHost: string)

  /** A webserver URL starting with "/" is relative to the host serving the request. */
  predicate RelativeUrl(url: string) {
    |url| > 0 && url[0] == '/'
  }

  /**
   * The origin the editor may post messages from. A relative webserver URL
   * takes scheme and host from the request (any truthy HTTPS value, "off"
   * included, means https); an absolute one keeps its own scheme and host.
   */
  function PostMessageOrigin(s: Session): (origin: string)
    ensures RelativeUrl(s.webserverUrl) ==>
      (StartsWith(origin, "https://") <==> Truthy(s.https))
      && |s.httpHost| <= |origin| && origin[|origin| - |s.httpHost|..] == s.httpHost
    ensures !RelativeUrl(s.webserverUrl) ==>
      StartsWith(origin, s.urlScheme + "://")
      && |s.urlHost| <= |origin| && origin[|origin| - |s.urlHost|..] == s.urlHost
  {
    var origin := if RelativeUrl(s.webserverUrl) then (if Truthy(s.https) then "https://" else "http://") + s.httpHost
                  else s.urlScheme + "://" + s.urlHost;
    assert RelativeUrl(s.webserverUrl) ==> origin[|origin| - |s.httpHost|..] == s.httpHost;
    assert !RelativeUrl(s.webserverUrl) ==> origin[|origin| - |s.urlHost|..] == s.urlHost;
    assert !RelativeUrl(s.webserverUrl) ==> origin[..|s.urlScheme + "://"|] == s.urlScheme + "://";
    assert RelativeUrl(s.webserverUrl) && Truthy(s.https) ==> origin[..8] == "https://";
    assert RelativeUrl(s.webserverUrl) && !Truthy(s.https) ==> origin[4] == ':';
    origin
  }

  /** Under a relative webserver URL, the origin does not depend on the URL's path. */
  lemma OriginIgnoresPath(s: Session, url: string)
    requires RelativeUrl(s.webserverUrl) && RelativeUrl(url)
    ensures PostMessageOrigin(s.(webserverUrl := url)) == PostMessageOrigin(s)
  {
  }

  /** Under an absolute webserver URL, the origin does not depend on the request. */
  lemma OriginIgnoresRequest(s: Session, https: string, httpHost: string)
    requires !RelativeUrl(s.webserverUrl)
    ensures PostMessageOrigin(s.(https := https, httpHost := httpHost)) == PostMessageOrigin(s)
  {
  }

  /** check_file_info: None (answered with 404) when the path is empty or stat fails. */
  function CheckFileInfo(path: string, stat: Option<Stat>, writable: bool, session: Session): (r: Option<FileInfo>)
    ensures r.None? <==> !Truthy(path) || stat.None?
    ensures r.Some? ==> r.value.ReadOnly == !r.value.UserCanWrite && r.value.UserCanWrite == writable
    ensures r.Some? ==> r.value.BaseFileName == Basename(path)
    ensures r.Some? ==> (r.value.SupportsGetLock && r.value.SupportsLocks
                         && r.value.SupportsUpdate && r.value.SupportsRename && r.value.UserCanRename)
    ensures r.Some? ==> (r.value.OwnerId == IntToString(stat.value.uid)
                         && r.value.Size == IntToString(stat.value.size) && r.value.UserId == IntToString(session.user))
    ensures r.Some? ==> r.value.PostMessageOrigin == PostMessageOrigin(session)
  {
    if !Truthy(path) || stat.None? then None
    else
      Some(FileInfo(
        BaseFileName := Basename(path),
        OwnerId := IntToString(stat.value.uid),
        Size := IntToString(stat.value.size),
        UserId := IntToString(session.user),
        PostMessageOrigin := PostMessageOrigin(session),
        SupportsGetLock := true,
        SupportsLocks := true,
        SupportsUpdate := true,
        SupportsRename := true,
        ReadOnly := !writable,
        UserCanRename := true,
        DisablePrint := false,
        DisableExport := false,
        DisableCopy := false,
        LastModifiedTime := stat.value.mtime,
        UserCanWrite := writable,
        UserFriendlyName := session.userName))
  }

  // ---------------------------------------------------------------------------
  // The lock family

  /**
   * Whether LOCK ends with the requested token held: the path is unlocked, the
   * requester already holds it, or it presents the current token as its old lock.
   */
  predicate LockGranted(current: Option<string>, token: string, oldLock: Option<string>) {
    current.None? || current == Some(token) || (OptTruthy(oldLock) && oldLock == current)
  }

  /** The lock held on `path` in the store `held`. */
  function HeldLock(held: map<string, string>, path: string): (tok: Option<string>)
    ensures tok.Some? <==> path in held
  {
    if path in held then Some(held[path]) else None
  }

  /**
   * What LOCK does to the status and the lock store `held`: a missing token is
   * 400, an old lock that is not the current one is 409, and otherwise the
   * requested token is held afterwards (200) exactly when LockGranted; nothing
   * else changes.
   */
  predicate LockEffect(hdr: map<string, string>, path: string, held: map<string, string>,
                       status: int, locks: map<string, string>) {
    var token, oldLock, current := Header(hdr, "X-WOPI-Lock"), Header(hdr, "X-WOPI-OldLock"), HeldLock(held, path);
    && (!OptTruthy(token) ==> status == 400 && locks == held)
    && (OptTruthy(token) && OptTruthy(oldLock) && oldLock != current ==> status == 409 && locks == held)
    && (OptTruthy(token) && !(OptTruthy(oldLock) && oldLock != current) ==>
          if LockGranted(current, token.value, oldLock)
          then status == 200 && locks == held[path := token.value]
          else status == 409 && locks == held)
  }

  /** Lock and UnlockAndRelock. */
  method Lock(server: Server, hdr: map<string, string>, path: string)
    modifies server`locks, server`status
    ensures LockEffect(hdr, path, old(server.locks), server.status, server.locks)
  {
    var token := Header(hdr, "X-WOPI-Lock");
    if !OptTruthy(token) {
      server.status := 400;
      return;
    }
    var oldLock := Header(hdr, "X-WOPI-OldLock");
    var current := server.CurrentLock(path);
    if OptTruthy(oldLock) && oldLock != current {
      server.status := 409;
      return;
    } else if OptTruthy(oldLock) && oldLock == current {
      var _ := server.Unlock(path, oldLock.value);
    }
    // The refresh flag compares with the lock read before any unlock.
    var ok := server.Lock(path, token.value, current == token);
    server.status := if ok then 200 else 409;
  }

  /** GetLock: always 200, with the current token (the header echo is not emitted, see README). */
  method GetLock(server: Server, path: string) returns (token: Option<string>)
    modifies server`status
    ensures server.status == 200
    ensures token == server.CurrentLock(path)
  {
    token := server.CurrentLock(path);
    server.status := 200;
  }

  /** The token a handler passes to the lock store: PHP's null arrives as "". */
  function PresentedToken(hdr: map<string, string>): string {
    Header(hdr, "X-WOPI-Lock").GetOr("")
  }

  /**
   * RefreshLock. The 400 for a missing token is overwritten: the final status is
   * the store's answer to a refresh, and a token that does not match the holder's
   * changes nothing.
   */
  predicate RefreshEffect(hdr: map<string, string>, path: string, held: map<string, string>,
                          status: int, locks: map<string, string>) {
    var t := PresentedToken(hdr);
    if path !in held || held[path] == t
    then status == 200 && locks == held[path := t]
    else status == 409 && locks == held
  }

  method RefreshLock(server: Server, hdr: map<string, string>, path: string)
    modifies server`locks, server`status
    ensures RefreshEffect(hdr, path, old(server.locks), server.status, server.locks)
  {
    var token := Header(hdr, "X-WOPI-Lock");
    if !OptTruthy(token) {
      server.status := 400;
    }
    var ok := server.Lock(path, token.GetOr(""), true);
    server.status := if ok then 200 else 409;
  }

  /**
   * Unlock. The early 400 and 409 are overwritten: only the holder's token
   * releases the lock, and every other request leaves the store as it was.
   */
  predicate UnlockEffect(hdr: map<string, string>, path: string, held: map<string, string>,
                         status: int, locks: map<string, string>) {
    var t := PresentedToken(hdr);
    if path in held && held[path] == t
    then status == 200 && locks == held - {path}
    else status == 409 && locks == held
  }

  method Unlock(server: Server, hdr: map<string, string>, path: string)
    modifies server`locks, server`status
    ensures UnlockEffect(hdr, path, old(server.locks), server.status, server.locks)
  {
    var token := Header(hdr, "X-WOPI-Lock");
    if !OptTruthy(token) {
      server.status := 400;
    }
    var current := server.CurrentLock(path);
    if current != token {
      server.status := 409;
    }
    var ok := server.Unlock(path, token.GetOr(""));
    server.status := if ok then 200 else 409;
  }

  // ---------------------------------------------------------------------------
  // PutFile

  /**
   * PutFile: the body is written whatever the lock state ("last writer wins"). A
   * presented token that differs from the holder's sets 409, but the write still
   * happens; the lock store is never touched.
   */
  predicate PutEffect(hdr: map<string, string>, path: string, body: string, held: map<string, string>,
                      failing: set<string>, before: map<string, string>, statusBefore: int,
                      files: map<string, string>, status: int) {
    var token, current := Header(hdr, "X-WOPI-Lock"), HeldLock(held, path);
    && files == (if path in failing then before else before[path := body])
    && status == if current.Some? && OptTruthy(token) && current != token then 409 else statusBefore
  }

  method Put(server: Server, hdr: map<string, string>, path: string, body: string)
    modifies server`files, server`status
    ensures PutEffect(hdr, path, body, server.locks, server.failing, old(server.files), old(server.status),
                      server.files, server.status)
  {
    var token := Header(hdr, "X-WOPI-Lock");
    var current := server.CurrentLock(path);
    if current.None? {
      // The size check for unlocked files is disabled in the source.
    } else if OptTruthy(token) && current != token {
      server.status := 409;
    }
    var _ := server.Write(path, body);
  }

  // ---------------------------------------------------------------------------
  // File-name cleaning

  /** Characters the cleaner keeps: word, whitespace, digit and -_~,;[](). characters. */
  predicate FileNameChar(c: char) {
    IsAlnum(c) || c == '_' || IsSpace(c) || c == '-' || c == '~' || c == ',' || c == ';'
    || c == '[' || c == ']' || c == '(' || c == ')' || c == '.' || c as int >= 128
  }

  /** Number of periods at the start of `s`. */
  function DotRun(s: string): (n: nat)
    ensures n <= |s|
    ensures forall i :: 0 <= i < n ==> s[i] == '.'
    ensures n < |s| ==> s[n] != '.'
  {
    if s != [] && s[0] == '.' then 1 + DotRun(s[1..]) else 0
  }

  /** Deletes every run of two or more periods. */
  function RemoveDotRuns(s: string): (r: string)
    ensures |r| <= |s|
    ensures forall c :: c in r ==> c in s
    decreases |s|
  {
    if s == [] then []
    else if DotRun(s) >= 2 then RemoveDotRuns(s[DotRun(s)..])
    else [s[0]] + RemoveDotRuns(s[1..])
  }

  /** The sanitising step of clean_filename. */
  function Sanitize(name: string): string {
    RemoveDotRuns(Filter(name, FileNameChar))
  }

  predicate NoDoubleDot(s: string) {
    forall i :: 0 < i < |s| ==> !(s[i - 1] == '.' && s[i] == '.')
  }

  lemma KeepsFirst(t: string)
    requires t != [] && t[0] != '.'
    ensures RemoveDotRuns(t) != [] && RemoveDotRuns(t)[0] == t[0]
  {
  }

  lemma {:induction false} RemoveDotRunsNoDoubleDot(s: string)
    ensures NoDoubleDot(RemoveDotRuns(s))
    decreases |s|
  {
    if s != [] {
      var k := DotRun(s);
      if k >= 2 {
        RemoveDotRunsNoDoubleDot(s[k..]);
      } else {
        var rest := RemoveDotRuns(s[1..]);
        RemoveDotRunsNoDoubleDot(s[1..]);
        if s[0] == '.' && rest != [] {
          KeepsFirst(s[1..]);
        }
        var r := [s[0]] + rest;
        assert forall i :: 1 < i < |r| ==> r[i] == rest[i - 1];
      }
    }
  }

  lemma {:induction false} RemoveDotRunsIdentity(s: string)
    requires NoDoubleDot(s)
    ensures RemoveDotRuns(s) == s
  {
    if s != [] {
      assert |s| > 1 ==> !(s[0] == '.' && s[1] == '.');
      assert DotRun(s) < 2;
      assert NoDoubleDot(s[1..]) by {
        assert forall i :: 0 < i < |s[1..]| ==> s[1..][i - 1] == s[i] && s[1..][i] == s[i + 1];
      }
      RemoveDotRunsIdentity(s[1..]);
    }
  }

  /** The cleaned name keeps only allowed characters, has no "..", and cleaning twice changes nothing. */
  lemma SanitizeProperties(name: string)
    ensures forall c :: c in Sanitize(name) ==> FileNameChar(c)
    ensures '/' !in Sanitize(name)
    ensures NoDoubleDot(Sanitize(name))
    ensures Sanitize(Sanitize(name)) == Sanitize(name)
  {
    var filtered := Filter(name, FileNameChar);
    var once := RemoveDotRuns(filtered);
    assert forall c :: c in once ==> FileNameChar(c);
    assert !FileNameChar('/');
    RemoveDotRunsNoDoubleDot(filtered);
    FilterKeepsAll(once, FileNameChar);
    RemoveDotRunsIdentity(once);
    assert Sanitize(once) == RemoveDotRuns(once);
  }

  /** clean_filename's specification: the sanitised base name, de-duplicated, glued to dirname. */
  function Cleaned(original: string, taken: set<string>): (r: string)
    ensures r !in taken
  {
    var file := Sanitize(Basename(original));
    Unique(Dirname(original), file, PathFilename(file), PathExtension(file), taken)
  }

  /**
   * clean_filename: sanitise the base name, then add " (N)" until the result is
   * free. The directory is joined to the name without a separator, as in the source.
   */
  method CleanFilename(original: string, taken: set<string>) returns (r: string)
    ensures r == Cleaned(original, taken)
    ensures r !in taken
    ensures var dir, file := Dirname(original), Sanitize(Basename(original));
      dir + file !in taken ==> r == dir + file
    ensures var dir, file := Dirname(original), Sanitize(Basename(original));
      dir + file in taken ==> exists n :: (n >= 2 && r == dir + Candidate(PathFilename(file), PathExtension(file), n)
                                          && forall k :: 2 <= k < n ==> dir + Candidate(PathFilename(file), PathExtension(file), k) in taken)
  {
    var file := Basename(original);
    file := Filter(file, FileNameChar);
    file := RemoveDotRuns(file);
    ghost var first := file;
    var base := PathFilename(file);
    var extension := PathExtension(file);
    var dir := Dirname(original);
    var dupeCount := 0;
    while dir + file in taken
      invariant Retrying(dir, first, base, extension, taken, dupeCount, file)
      decreases |taken| + 1 - dupeCount
    {
      RetryStep(dir, first, base, extension, taken, dupeCount, file);
      dupeCount := dupeCount + 1;
      file := Candidate(base, extension, dupeCount + 1);
    }
    RetryDone(dir, first, base, extension, taken, dupeCount, file);
    r := dir + file;
  }

  /**
   * Because dirname and the name are joined without "/", cleaning a target that
   * lies inside a directory never gives the target back.
   */
  lemma {:induction false} CleanedDropsSeparator(d: string, n: string, taken: set<string>)
    requires d != "" && d[|d| - 1] != '/'
    requires n != "" && '/' !in n
    ensures Cleaned(d + "/" + n, taken) != d + "/" + n
  {
    SplitPath(d, n);
    var file := Sanitize(n);
    SanitizeProperties(n);
    var base, ext := PathFilename(file), PathExtension(file);
    PathInfoSplit(file);
    assert '/' !in base && '/' !in ext;
    var r := Unique(d, file, base, ext, taken);
    assert Cleaned(d + "/" + n, taken) == r;
    if d + file !in taken {
      JoinWithoutSeparator(d, file, n);
    } else {
      var k :| k >= 2 && r == d + Candidate(base, ext, k);
      CandidateNoSeparator(base, ext, k);
      JoinWithoutSeparator(d, Candidate(base, ext, k), n);
    }
  }

  lemma CandidateNoSeparator(base: string, ext: string, k: nat)
    requires '/' !in base && '/' !in ext
    ensures '/' !in Candidate(base, ext, k)
  {
    assert '/' !in NatToString(k);
  }

  lemma JoinWithoutSeparator(d: string, x: string, n: string)
    requires '/' !in x
    ensures d + x != d + "/" + n
  {
    var y := d + "/" + n;
    assert y[|d|] == '/';
    if |d + x| == |y| {
      assert (d + x)[|d|] == x[0];
    }
  }

  // ---------------------------------------------------------------------------
  // PutRelativeFile (Save As)

  /** A suggestion that is only an extension keeps the current file name. */
  function SuggestedName(path: string, suggested: string): string {
    if |suggested| > 0 && suggested[0] == '.' then
      BasenameWithout(path, "." + PathExtension(path)) + suggested
    else suggested
  }

  /** How a Save As request ends: refused with a status, or a write to a target. */
  datatype SaveAs = Refuse(status: int) | Store(target: string)

  /**
   * put_relative_file's decision. `taken` is what file_exists reports, `current`
   * the lock held on the source file, `token` the presented X-WOPI-Lock.
   */
  function SaveAsPlan(path: string, suggested: Option<string>, relative: Option<string>,
                      overwrite: bool, token: Option<string>, current: Option<string>,
                      taken: set<string>): SaveAs
  {
    if OptTruthy(suggested) && OptTruthy(relative) then Refuse(501)
    else if OptTruthy(relative) then
      var target := relative.value;
      var clean := Cleaned(target, taken);
      if target != clean then Refuse(400)
      else if target in taken && !overwrite then Refuse(409)
      else if target in taken && ((!OptTruthy(token) && current.Some?) || (OptTruthy(token) && current != token))
      then Refuse(409)
      else Store(target)
    else if OptTruthy(suggested) then Store(Cleaned(SuggestedName(path, suggested.value), taken))
    else Store("")
  }

  /** A suggested target is never refused and always lands on a name that did not exist. */
  lemma SuggestedAlwaysFresh(path: string, suggested: string, relative: Option<string>, overwrite: bool,
                             token: Option<string>, current: Option<string>, taken: set<string>)
    requires Truthy(suggested) && !OptTruthy(relative)
    ensures var plan := SaveAsPlan(path, Some(suggested), relative, overwrite, token, current, taken);
      plan.Store? && plan.target !in taken
  {
  }

  /** The refusals of Save As, each with its status. */
  lemma SaveAsRefusals(path: string, suggested: Option<string>, relative: Option<string>, overwrite: bool,
                       token: Option<string>, current: Option<string>, taken: set<string>)
    ensures var plan := SaveAsPlan(path, suggested, relative, overwrite, token, current, taken);
      && (OptTruthy(suggested) && OptTruthy(relative) ==> plan == Refuse(501))
      && (!OptTruthy(suggested) && OptTruthy(relative) && relative.value != Cleaned(relative.value, taken)
          ==> plan == Refuse(400))
      && (!OptTruthy(suggested) && OptTruthy(relative) && relative.value == Cleaned(relative.value, taken)
          ==> plan == Store(relative.value) && relative.value !in taken)
  {
    if !OptTruthy(suggested) && OptTruthy(relative) && relative.value == Cleaned(relative.value, taken) {
      assert relative.value !in taken;
    }
  }

  /**
   * As written, Save As never answers 409: a relative target equal to its
   * cleaned form is free, because the cleaned form was de-duplicated against
   * the existing files, so both conflict checks and the overwrite flag are dead.
   */
  lemma SaveAsNeverConflicts(path: string, suggested: Option<string>, relative: Option<string>, overwrite: bool,
                             token: Option<string>, current: Option<string>, taken: set<string>)
    ensures var plan := SaveAsPlan(path, suggested, relative, overwrite, token, current, taken);
      (plan.Refuse? ==> plan.status in {400, 501}) && (plan.Store? && plan.target != "" ==> plan.target !in taken)
  {
    SaveAsRefusals(path, suggested, relative, overwrite, token, current, taken);
  }

  /** As written, an existing target inside a directory is refused with 400, not 409. */
  lemma ExistingTargetRefused400(path: string, d: string, n: string, overwrite: bool,
                                 token: Option<string>, current: Option<string>, taken: set<string>)
    requires d != "" && d[|d| - 1] != '/'
    requires n != "" && '/' !in n
    requires d + "/" + n in taken
    ensures SaveAsPlan(path, None, Some(d + "/" + n), overwrite, token, current, taken) == Refuse(400)
  {
    RelativeTargetInDirectoryRefused(path, d, n, overwrite, token, current, taken);
  }

  /** A directory and a name joined by one "/". */
  function JoinPath(d: string, n: string): string {
    if d != "" && d[|d| - 1] == '/' then d + n else d + "/" + n
  }

  /** A relative target that equals its sanitised name joined to its directory by "/". */
  predicate CleanRelative(target: string) {
    target == JoinPath(Dirname(target), Sanitize(Basename(target)))
  }

  /**
   * The Save As decision as evidently intended: the relative target is checked
   * against its sanitised form, joined with "/" and before de-duplication, so an
   * existing target reaches the conflict checks.
   */
  function SaveAsPlanIntended(path: string, suggested: Option<string>, relative: Option<string>,
                              overwrite: bool, token: Option<string>, current: Option<string>,
                              taken: set<string>): SaveAs
  {
    if OptTruthy(suggested) && OptTruthy(relative) then Refuse(501)
    else if OptTruthy(relative) then
      var target := relative.value;
      if !CleanRelative(target) then Refuse(400)
      else if target in taken && !overwrite then Refuse(409)
      else if target in taken && ((!OptTruthy(token) && current.Some?) || (OptTruthy(token) && current != token))
      then Refuse(409)
      else Store(target)
    else if OptTruthy(suggested) then Store(Cleaned(SuggestedName(path, suggested.value), taken))
    else Store("")
  }

  /** A clean name in a directory is accepted as a relative target by the intended check. */
  lemma IntendedAccepts(d: string, n: string)
    requires d != "" && d[|d| - 1] != '/'
    requires n != "" && '/' !in n && Sanitize(n) == n
    ensures Truthy(d + "/" + n) && CleanRelative(d + "/" + n)
  {
    SplitPath(d, n);
    var t := d + "/" + n;
    assert t[|d|] == '/';
  }

  /** The intended decision for an accepted relative target that already exists. */
  lemma IntendedExisting(path: string, t: string, overwrite: bool,
                         token: Option<string>, current: Option<string>, taken: set<string>)
    requires Truthy(t) && CleanRelative(t) && t in taken
    ensures var plan := SaveAsPlanIntended(path, None, Some(t), overwrite, token, current, taken);
      var lockRefuses := (!OptTruthy(token) && current.Some?) || (OptTruthy(token) && current != token);
      && (!overwrite ==> plan == Refuse(409))
      && (overwrite && lockRefuses ==> plan == Refuse(409))
      && (overwrite && !lockRefuses ==> plan == Store(t))
  {
  }

  /**
   * With the intended check, an existing target is a conflict (409) unless
   * overwriting is asked and the lock permits it; then it is overwritten.
   */
  lemma IntendedConflict(path: string, d: string, n: string, overwrite: bool,
                         token: Option<string>, current: Option<string>, taken: set<string>)
    requires d != "" && d[|d| - 1] != '/'
    requires n != "" && '/' !in n && Sanitize(n) == n
    requires d + "/" + n in taken
    ensures var t := d + "/" + n;
      var plan := SaveAsPlanIntended(path, None, Some(t), overwrite, token, current, taken);
      var lockRefuses := (!OptTruthy(token) && current.Some?) || (OptTruthy(token) && current != token);
      && (!overwrite ==> plan == Refuse(409))
      && (overwrite && lockRefuses ==> plan == Refuse(409))
      && (overwrite && !lockRefuses ==> plan == Store(t))
  {
    IntendedAccepts(d, n);
    IntendedExisting(path, d + "/" + n, overwrite, token, current, taken);
  }

  /**
   * The overwrite flag is boolval of the header, so any value but "" and "0",
   * "false" included, lets the intended check overwrite an unlocked target.
   */
  lemma OverwriteFalseAllows(path: string, d: string, n: string, taken: set<string>)
    requires d != "" && d[|d| - 1] != '/'
    requires n != "" && '/' !in n && Sanitize(n) == n
    requires d + "/" + n in taken
    ensures SaveAsPlanIntended(path, None, Some(d + "/" + n), OptTruthy(Some("false")), None, None, taken)
            == Store(d + "/" + n)
  {
    IntendedConflict(path, d, n, OptTruthy(Some("false")), None, None, taken);
  }

  /** A relative target inside a directory is always answered 400, because of the missing separator. */
  lemma RelativeTargetInDirectoryRefused(path: string, d: string, n: string, overwrite: bool,
                                         token: Option<string>, current: Option<string>, taken: set<string>)
    requires d != "" && d[|d| - 1] != '/'
    requires n != "" && '/' !in n
    ensures SaveAsPlan(path, None, Some(d + "/" + n), overwrite, token, current, taken) == Refuse(400)
  {
    var target := d + "/" + n;
    CleanedDropsSeparator(d, n, taken);
    assert |target| >= 3 && Truthy(target);
    SaveAsRefusals(path, None, Some(target), overwrite, token, current, taken);
  }

  /** The Save As decision for a request, from its headers. */
  function RequestPlan(hdr: map<string, string>, path: string, current: Option<string>, taken: set<string>): SaveAs {
    SaveAsPlan(path, Header(hdr, "X-WOPI-SuggestedTarget"), Header(hdr, "X-WOPI-RelativeTarget"),
               OptTruthy(Header(hdr, "X-WOPI-OverwriteRelativeTarget")), Header(hdr, "X-WOPI-Lock"),
               current, taken)
  }

  /**
   * The checks of put_relative_file, in the source's order: both targets (501),
   * the suggested name expanded and cleaned, the relative name compared with its
   * cleaned form (400), an existing relative target without overwrite (409), and
   * a lock the presented token does not match (409).
   */
  method DecideSaveAs(hdr: map<string, string>, path: string, current: Option<string>, taken: set<string>)
    returns (plan: SaveAs)
    ensures plan == RequestPlan(hdr, path, current, taken)
    ensures plan.Refuse? ==> plan.status in {400, 501}
    ensures plan.Store? && plan.target != "" ==> plan.target !in taken
  {
    var token := Header(hdr, "X-WOPI-Lock");
    var suggested := Header(hdr, "X-WOPI-SuggestedTarget");
    var relative := Header(hdr, "X-WOPI-RelativeTarget");
    var overwrite := OptTruthy(Header(hdr, "X-WOPI-OverwriteRelativeTarget"));
    if OptTruthy(suggested) && OptTruthy(relative) {
      return Refuse(501);
    }
    var target := "";
    if OptTruthy(suggested) {
      var name := SuggestedName(path, suggested.value);
      target := CleanFilename(name, taken);
    }
    if OptTruthy(relative) {
      var clean := CleanFilename(relative.value, taken);
      if relative.value != clean {
        return Refuse(400);
      }
      if relative.value in taken {
        if !overwrite {
          return Refuse(409);
        }
        if (!OptTruthy(token) && current.Some?) || (OptTruthy(token) && current != token) {
          return Refuse(409);
        }
      }
      target := relative.value;
    }
    return Store(target);
  }

  /** The status and files after carrying out a Save As plan. */
  predicate SaveAsEffect(plan: SaveAs, body: string, failing: set<string>, before: map<string, string>,
                         files: map<string, string>, status: int) {
    && (plan.Refuse? ==> status == plan.status && files == before)
    && (plan.Store? ==> status == 200 && files == if plan.target in failing then before else before[plan.target := body])
  }

  /**
   * PutRelativeFile. Refusals write nothing; otherwise the body is written to the
   * chosen target and the status is 200. The 404 for an unwritable target is
   * overwritten, so it does not stop the write.
   */
  method PutRelativeFile(server: Server, hdr: map<string, string>, path: string, body: string)
    modifies server`files, server`status
    ensures SaveAsEffect(RequestPlan(hdr, path, old(server.CurrentLock(path)), old(server.Taken())), body,
                         server.failing, old(server.files), server.files, server.status)
  {
    var plan := DecideSaveAs(hdr, path, server.CurrentLock(path), server.Taken());
    match plan {
      case Refuse(code) =>
        server.status := code;
      case Store(target) =>
        if target !in server.writable || Dirname(target) !in server.writable {
          server.status := 404;
        }
        var _ := server.Write(target, body);
        server.status := 200;
    }
  }

  // ---------------------------------------------------------------------------
  // The dispatcher

  /** ASCII letters: the [[:alpha:]] class. */
  function AlphaRun(s: string): (n: nat)
    ensures n <= |s|
  {
    if s != [] && (IsUpper(s[0]) || IsLower(s[0])) then 1 + AlphaRun(s[1..]) else 0
  }

  /** `s` starts with /wopi/<letters>/<-?digits>/contents. */
  predicate ContentsPattern(s: string) {
    StartsWith(s, "/wopi/") &&
    var r := s[6..];
    var k := AlphaRun(r);
    0 < k < |r| && r[k] == '/' &&
    var r2 := r[k + 1..];
    var r3 := if r2 != [] && r2[0] == '-' then r2[1..] else r2;
    var n := DigitRun(r3);
    0 < n && StartsWith(r3[n..], "/contents")
  }

  /** The request asks for the file's bytes (GetFile): the pattern occurs in the URI. */
  predicate IsContentsRequest(uri: string) {
    exists i: nat :: i < |uri| && ContentsPattern(uri[i..])
  }

  /** /wopi/<letters>/<digits> followed by "/contents..." matches the pattern. */
  lemma ContentsPatternOf(endpoint: string, digits: string, tail: string)
    requires endpoint != [] && forall c :: c in endpoint ==> IsUpper(c) || IsLower(c)
    requires digits != [] && forall c :: c in digits ==> IsDigit(c)
    requires StartsWith(tail, "/contents")
    ensures ContentsPattern("/wopi/" + endpoint + "/" + digits + tail)
  {
    var t := "/wopi/" + endpoint + "/" + digits + tail;
    assert t[..6] == "/wopi/";
    var r := t[6..];
    assert r == endpoint + ("/" + digits + tail);
    AlphaRunOf(endpoint, "/" + digits + tail);
    var r2 := r[|endpoint| + 1..];
    assert r2 == digits + tail;
    DigitRunOfDigits(digits, tail);
    assert r2[|digits|..] == tail;
  }

  /** A contents URL the host builds, /wopi/<endpoint>/<id>/contents, is recognised wherever it sits. */
  lemma ContentsUrlRecognised(prefix: string, endpoint: string, id: nat, suffix: string)
    requires endpoint != [] && forall c :: c in endpoint ==> IsUpper(c) || IsLower(c)
    ensures IsContentsRequest(prefix + ("/wopi/" + endpoint + "/" + NatToString(id) + "/contents" + suffix))
  {
    var tail := "/contents" + suffix;
    assert tail[..9] == "/contents";
    var t := "/wopi/" + endpoint + "/" + NatToString(id) + tail;
    ContentsPatternOf(endpoint, NatToString(id), tail);
    assert t == "/wopi/" + endpoint + "/" + NatToString(id) + "/contents" + suffix;
    assert (prefix + t)[|prefix|..] == t;
  }

  lemma {:induction false} AlphaRunOf(a: string, b: string)
    requires forall c :: c in a ==> IsUpper(c) || IsLower(c)
    requires b == [] || !(IsUpper(b[0]) || IsLower(b[0]))
    ensures AlphaRun(a + b) == |a|
  {
    if a != [] {
      assert (a + b)[1..] == a[1..] + b;
      AlphaRunOf(a[1..], b);
    } else {
      assert a + b == b;
    }
  }

  /** Which handler a request reaches. */
  datatype Route = LockRoute | GetLockRoute | RefreshLockRoute | UnlockRoute | PutRoute
                 | PutRelativeRoute | ContentsRoute | FileInfoRoute | UndefinedMethod

  /**
   * The switch of Files::process as written: PUT_RELATIVE calls
   * static::put_relative, a method the class does not have, which is a fatal error.
   */
  function RouteAsWritten(override: Option<string>, uri: string): Route {
    if override == Some("PUT_RELATIVE") then UndefinedMethod else RouteOf(override, uri)
  }

  lemma PutRelativeUnreachableAsWritten(uri: string)
    ensures RouteAsWritten(Some("PUT_RELATIVE"), uri) == UndefinedMethod
    ensures RouteAsWritten(Some("PUT_RELATIVE"), uri) != RouteOf(Some("PUT_RELATIVE"), uri)
  {
  }

  /** The switch with PUT_RELATIVE reaching put_relative_file, as intended. */
  function RouteOf(override: Option<string>, uri: string): (r: Route)
    ensures r != UndefinedMethod
    ensures r == PutRelativeRoute <==> override == Some("PUT_RELATIVE")
    ensures r == PutRoute <==> override == Some("PUT")
    ensures r == LockRoute <==> override == Some("LOCK")
    ensures r == FileInfoRoute ==> !IsContentsRequest(uri)
  {
    match override
    case Some("LOCK") => LockRoute
    case Some("GET_LOCK") => GetLockRoute
    case Some("REFRESH_LOCK") => RefreshLockRoute
    case Some("UNLOCK") => UnlockRoute
    case Some("PUT") => PutRoute
    case Some("PUT_RELATIVE") => PutRelativeRoute
    case _ => if IsContentsRequest(uri) then ContentsRoute else FileInfoRoute
  }

  /** The end of a request to process: exit after a handler or a 404, or data for the router. */
  datatype Outcome = Exited | Returned(data: Option<FileInfo>)

  /** The path a request works on: from the file id, else from the share token. */
  function ResolvePath(id: string, ids: map<int, string>, tokenPath: Option<string>): string {
    var byId := IntCast(id);
    if byId in ids && Truthy(ids[byId]) then ids[byId] else tokenPath.GetOr("")
  }

  /**
   * Files::process with the dispatch corrected. Without a path the answer is 404;
   * the lock handlers and the writers end the request; CheckFileInfo's data is
   * returned, or 404 when the file cannot be stat'ed.
   */
  method Process(server: Server, hdr: map<string, string>, id: string, ids: map<int, string>,
                 tokenPath: Option<string>, uri: string, body: string, stats: map<string, Stat>,
                 session: Session) returns (out: Outcome)
    modifies server`files, server`locks, server`status
    ensures var path := ResolvePath(id, ids, tokenPath);
      !Truthy(path) ==> (out == Exited && server.status == 404
                         && server.files == old(server.files) && server.locks == old(server.locks))
    ensures var path, route := ResolvePath(id, ids, tokenPath), RouteOf(Header(hdr, "X-WOPI-Override"), uri);
      Truthy(path) && route !in {PutRoute, PutRelativeRoute} ==> server.files == old(server.files)
    ensures var path, route := ResolvePath(id, ids, tokenPath), RouteOf(Header(hdr, "X-WOPI-Override"), uri);
      Truthy(path) && route in {ContentsRoute, FileInfoRoute} ==> server.locks == old(server.locks)
    ensures var path, route := ResolvePath(id, ids, tokenPath), RouteOf(Header(hdr, "X-WOPI-Override"), uri);
      Truthy(path) && route == FileInfoRoute ==>
        var info := CheckFileInfo(path, if path in stats then Some(stats[path]) else None,
                                  path in old(server.writable), session);
        if info.None? then out == Exited && server.status == 404
        else out == Returned(info) && server.status == old(server.status)
    ensures out.Returned? ==> out.data.Some? || RouteOf(Header(hdr, "X-WOPI-Override"), uri) == ContentsRoute
    ensures var path, route := ResolvePath(id, ids, tokenPath), RouteOf(Header(hdr, "X-WOPI-Override"), uri);
      Truthy(path) && route == LockRoute ==>
        out == Exited && LockEffect(hdr, path, old(server.locks), server.status, server.locks)
    ensures var path, route := ResolvePath(id, ids, tokenPath), RouteOf(Header(hdr, "X-WOPI-Override"), uri);
      Truthy(path) && route == GetLockRoute ==>
        out == Exited && server.status == 200 && server.locks == old(server.locks)
    ensures var path, route := ResolvePath(id, ids, tokenPath), RouteOf(Header(hdr, "X-WOPI-Override"), uri);
      Truthy(path) && route == RefreshLockRoute ==>
        out == Exited && RefreshEffect(hdr, path, old(server.locks), server.status, server.locks)
    ensures var path, route := ResolvePath(id, ids, tokenPath), RouteOf(Header(hdr, "X-WOPI-Override"), uri);
      Truthy(path) && route == UnlockRoute ==>
        out == Exited && UnlockEffect(hdr, path, old(server.locks), server.status, server.locks)
    ensures var path, route := ResolvePath(id, ids, tokenPath), RouteOf(Header(hdr, "X-WOPI-Override"), uri);
      Truthy(path) && route == PutRoute ==>
        out == Exited && server.locks == old(server.locks)
        && PutEffect(hdr, path, body, server.locks, server.failing, old(server.files), old(server.status),
                     server.files, server.status)
    ensures var path, route := ResolvePath(id, ids, tokenPath), RouteOf(Header(hdr, "X-WOPI-Override"), uri);
      Truthy(path) && route == PutRelativeRoute ==>
        out == Exited && server.locks == old(server.locks)
        && SaveAsEffect(RequestPlan(hdr, path, old(server.CurrentLock(path)), old(server.Taken())), body,
                        server.failing, old(server.files), server.files, server.status)
    ensures var path, route := ResolvePath(id, ids, tokenPath), RouteOf(Header(hdr, "X-WOPI-Override"), uri);
      Truthy(path) && route == ContentsRoute ==>
        out == Returned(None) && server.status == old(server.status)
  {
    var path := ResolvePath(id, ids, tokenPath);
    if !Truthy(path) {
      server.status := 404;
      return Exited;
    }
    var route := RouteOf(Header(hdr, "X-WOPI-Override"), uri);
    match route {
      case LockRoute =>
        Lock(server, hdr, path);
        return Exited;
      case GetLockRoute =>
        var _ := GetLock(server, path);
        return Exited;
      case RefreshLockRoute =>
        RefreshLock(server, hdr, path);
        return Exited;
      case UnlockRoute =>
        Unlock(server, hdr, path);
        return Exited;
      case PutRoute =>
        Put(server, hdr, path, body);
        return Exited;
      case PutRelativeRoute =>
        PutRelativeFile(server, hdr, path, body);
        return Exited;
      case ContentsRoute =>
        // get_file streams the bytes and returns nothing.
        return Returned(None);
      case FileInfoRoute =>
        var info := CheckFileInfo(path, if path in stats then Some(stats[path]) else None,
                                  path in server.writable, session);
        if info.None? {
          server.status := 404;
          return Exited;
        }
        return Returned(info);
    }
  }
}
