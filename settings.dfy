/**
 * The settings endpoint of the WOPI host (src/Wopi/Settings.php). Collabora's
 * settings iframe lists, uploads and deletes per-user and shared settings files
 * (autotext, word books, browser settings). The files live below a settings
 * root: the user's ~/.config/collabora, or the configured shared directory.
 * A fetch groups the files found below the root into one bucket per
 * sub-directory; an upload stores the request body under the root.
 */
module Settings {
  import opened Php
  import opened Vfs
  import Bo

  // ---------------------------------------------------------------------------
  // process: method dispatch

  /** The handler a request is routed to. */
  datatype Handler = Fetch | Upload | Delete | NoHandler

  /**
   * `$_GET['fileId'] == -1` for a string: the number -1 written as "-1", with
   * leading and trailing whitespace allowed.
   */
  predicate IsMinusOne(s: string) {
    var t := Bo.SkipSpaces(s);
    |t| >= 2 && t[..2] == "-1" && Bo.AllSpaces(t[2..])
  }

  /**
   * process: GET with a type and the file id -1 fetches, POST with a non-numeric
   * file id uploads, DELETE deletes; any other request gets no handler. The
   * parameters are the request method, $_GET['type'], $_GET['fileId'] and
   * $_REQUEST['fileId'] (None when absent).
   */
  function Dispatch(verb: string, getType: Option<string>, getFileId: Option<string>,
                    requestFileId: Option<string>): (h: Handler)
    ensures h == Fetch <==> verb == "GET" && OptTruthy(getType) && getFileId.Some? && IsMinusOne(getFileId.value)
    ensures h == Upload <==> verb == "POST" && OptTruthy(requestFileId) && !Bo.IsNumericString(requestFileId.value)
    ensures h == Delete <==> verb == "DELETE"
  {
    if verb == "GET" && OptTruthy(getType) && getFileId.Some? && IsMinusOne(getFileId.value) then Fetch
    else if verb == "POST" && OptTruthy(requestFileId) && !Bo.IsNumericString(requestFileId.value) then Upload
    else if verb == "DELETE" then Delete
    else NoHandler
  }

  /** A file id that starts with "/" is never numeric. */
  lemma SlashedNotNumeric(fileId: string)
    requires fileId != [] && fileId[0] == '/'
    ensures !Bo.IsNumericString(fileId)
  {
    assert Bo.SkipSpaces(fileId) == fileId;
    assert DigitRun(fileId) == 0;
  }

  /**
   * The file ids Collabora posts ("/settings/<type>/<setting>/<name>") start
   * with "/", so every such POST reaches the upload handler.
   */
  lemma PostedSettingsFileUploads(getType: Option<string>, getFileId: Option<string>, fileId: string)
    requires fileId != [] && fileId[0] == '/'
    ensures Dispatch("POST", getType, getFileId, Some(fileId)) == Upload
  {
    SlashedNotNumeric(fileId);
  }

  // ---------------------------------------------------------------------------
  // getSettingsPath

  /** The settings root: a directory, or PHP's empty array for an unknown type. */
  datatype Root = Dir(path: string) | NoDir

  /**
   * getSettingsPath. `home` is the user's home directory, `configured` the
   * configured shared settings directories.
   */
  function SettingsPath(typ: string, home: string, configured: seq<string>): (root: Root)
    ensures typ == "userconfig" ==> root == Dir(home + "/.config/collabora")
    ensures typ == "systemconfig" ==> root == Dir(if configured == [] then "" else configured[0])
    ensures root.NoDir? <==> typ != "userconfig" && typ != "systemconfig"
  {
    match typ
    case "userconfig" => Dir(home + "/.config/collabora")
    case "systemconfig" => Dir(if configured == [] then "" else configured[0])
    case _ => NoDir
  }

  /** The root in string context: an array converts to "Array". */
  function RootString(root: Root): string {
    if root.Dir? then root.path else "Array"
  }

  // ---------------------------------------------------------------------------
  // fetch

  /** The buckets every fetch answers with. */
  const BaseBuckets: set<string> := {"autotext", "xcu", "browsersetting"}

  /**
   * The bucket a found file goes to: its directory with the root removed (every
   * occurrence, as str_replace does), less the leading "/"; None when nothing is
   * left, that is for a file directly in the root.
   */
  function BucketOf(root: Root, file: string): (b: Option<string>)
    ensures b.Some? ==> |b.value| < |if root.Dir? then StrReplace(Dirname(file), root.path, "") else Dirname(file)|
  {
    var setting := if root.Dir? then StrReplace(Dirname(file), root.path, "") else Dirname(file);
    if !Truthy(setting) then None else Some(setting[1..])
  }

  /** BucketOf under a fixed root, as a function of the file. */
  function Bucketing(root: Root): string -> Option<string> {
    file => BucketOf(root, file)
  }

  /** The names `bucket` gives the files. */
  function Names(files: seq<string>, bucket: string -> Option<string>): set<string> {
    if files == [] then {}
    else
      var b := bucket(files[|files| - 1]);
      Names(files[..|files| - 1], bucket) + (if b.Some? then {b.value} else {})
  }

  /** The files `bucket` names `b`, in order. */
  function Members(files: seq<string>, bucket: string -> Option<string>, b: string): seq<string> {
    if files == [] then []
    else
      var last := files[|files| - 1];
      Members(files[..|files| - 1], bucket, b) + (if bucket(last) == Some(b) then [last] else [])
  }

  /** The bucket names the found files produce. */
  function BucketNames(root: Root, files: seq<string>): set<string> {
    Names(files, Bucketing(root))
  }

  /** The files of bucket `b`, in the order they were found. */
  function Select(root: Root, files: seq<string>, b: string): seq<string> {
    Members(files, Bucketing(root), b)
  }

  /** A name arises exactly from some file. */
  lemma {:induction false} NamesExact(files: seq<string>, bucket: string -> Option<string>, b: string)
    ensures b in Names(files, bucket) <==> exists i :: 0 <= i < |files| && bucket(files[i]) == Some(b)
  {
    if files != [] {
      var init := files[..|files| - 1];
      NamesExact(init, bucket, b);
      if b in Names(init, bucket) {
        var i :| 0 <= i < |init| && bucket(init[i]) == Some(b);
        assert files[i] == init[i];
      }
      if exists i :: 0 <= i < |files| && bucket(files[i]) == Some(b) {
        var i :| 0 <= i < |files| && bucket(files[i]) == Some(b);
        if i < |init| {
          assert init[i] == files[i];
        }
      }
    }
  }

  /** A bucket name arises exactly from some found file. */
  lemma BucketNamesExact(root: Root, files: seq<string>, b: string)
    ensures b in BucketNames(root, files) <==> exists i :: 0 <= i < |files| && BucketOf(root, files[i]) == Some(b)
  {
    NamesExact(files, Bucketing(root), b);
  }

  /** The members of `b` are exactly the files named `b`. */
  lemma {:induction false} MembersExact(files: seq<string>, bucket: string -> Option<string>, b: string, x: string)
    ensures x in Members(files, bucket, b) <==> x in files && bucket(x) == Some(b)
  {
    if files != [] {
      var init := files[..|files| - 1];
      MembersExact(init, bucket, b, x);
      assert files == init + [files[|files| - 1]];
    }
  }

  /** A bucket holds exactly the found files that belong to it. */
  lemma SelectExact(root: Root, files: seq<string>, b: string, x: string)
    ensures x in Select(root, files, b) <==> x in files && BucketOf(root, x) == Some(b)
  {
    MembersExact(files, Bucketing(root), b, x);
  }

  /** A file belongs to one bucket only. */
  lemma SelectDisjoint(root: Root, files: seq<string>, b: string, c: string, x: string)
    requires b != c
    requires x in Select(root, files, b)
    ensures x !in Select(root, files, c)
  {
    SelectExact(root, files, b, x);
    SelectExact(root, files, c, x);
  }

  /** A file directly in the settings root belongs to no bucket. */
  lemma RootFileSkipped(path: string, name: string)
    requires path != "" && path[|path| - 1] != '/'
    requires name != "" && '/' !in name
    ensures BucketOf(Dir(path), path + "/" + name).None?
  {
    SplitPath(path, name);
    assert path == path + "";
    StrRemovePrefix(path, "");
  }

  /** A file in a sub-directory of the root belongs to the bucket named by that sub-directory. */
  lemma SettingFileBucket(path: string, setting: string, name: string)
    requires path != ""
    requires setting != "" && setting[|setting| - 1] != '/'
    requires name != "" && '/' !in name
    requires !Contains("/" + setting, path)
    ensures BucketOf(Dir(path), path + "/" + setting + "/" + name) == Some(setting)
  {
    var d := path + "/" + setting;
    assert path + "/" + setting + "/" + name == d + "/" + name;
    SplitPath(d, name);
    assert d == path + ("/" + setting);
    StrRemovePrefix(path, "/" + setting);
    assert ("/" + setting)[1..] == setting;
  }

  /** Adding the next file adds its name, if any, and appends it to that name's members. */
  lemma GroupStep(files: seq<string>, bucket: string -> Option<string>, i: int)
    requires 0 <= i < |files|
    ensures var b := bucket(files[i]);
      Names(files[..i + 1], bucket) == Names(files[..i], bucket) + (if b.Some? then {b.value} else {})
    ensures forall c :: (Members(files[..i + 1], bucket, c) ==
      Members(files[..i], bucket, c) + (if bucket(files[i]) == Some(c) then [files[i]] else []))
  {
    assert files[..i + 1][..i] == files[..i];
  }

  /** A name that does not arise has no members. */
  lemma {:induction false} MembersUnnamed(files: seq<string>, bucket: string -> Option<string>, b: string)
    requires b !in Names(files, bucket)
    ensures Members(files, bucket, b) == []
  {
    if files != [] {
      MembersUnnamed(files[..|files| - 1], bucket, b);
    }
  }

  /** The names of a prefix of the files are names of all of them. */
  lemma {:induction false} NamesPrefix(files: seq<string>, bucket: string -> Option<string>, j: int)
    requires 0 <= j <= |files|
    ensures Names(files[..j], bucket) <= Names(files, bucket)
    decreases |files| - j
  {
    if j < |files| {
      GroupStep(files, bucket, j);
      NamesPrefix(files, bucket, j + 1);
    } else {
      assert files[..j] == files;
    }
  }

  /** `buckets` holds the base buckets and the named ones, each with its members. */
  predicate Grouped(buckets: map<string, seq<string>>, files: seq<string>, bucket: string -> Option<string>) {
    && buckets.Keys == BaseBuckets + Names(files, bucket)
    && forall b :: b in buckets ==> buckets[b] == Members(files, bucket, b)
  }

  /** Adding the next file to its bucket, creating the bucket when it is new, keeps the grouping. */
  lemma GroupedAdd(buckets: map<string, seq<string>>, files: seq<string>, bucket: string -> Option<string>, i: int)
    requires 0 <= i < |files| && Grouped(buckets, files[..i], bucket)
    ensures bucket(files[i]).None? ==> Grouped(buckets, files[..i + 1], bucket)
    ensures bucket(files[i]).Some? ==>
      var b := bucket(files[i]).value;
      Grouped(buckets[b := (if b in buckets then buckets[b] else []) + [files[i]]], files[..i + 1], bucket)
  {
    GroupStep(files, bucket, i);
    if bucket(files[i]).Some? {
      var b := bucket(files[i]).value;
      if b !in buckets {
        MembersUnnamed(files[..i], bucket, b);
      }
    }
  }

  /** The answer to a fetch: the kind and the buckets, each holding the files it got. */
  datatype FetchReply = FetchReply(kind: string, buckets: map<string, seq<string>>)

  /**
   * fetch. `found` is what Vfs::find returned for the root, in its order; the
   * bucket entries stand for the file information of each file. A file whose
   * bucket would be "kind" makes PHP append to a string, which is fatal: None.
   */
  method FetchSettings(typ: string, home: string, configured: seq<string>, found: seq<string>)
    returns (r: Option<FetchReply>)
    ensures var root := SettingsPath(typ, home, configured);
      r.None? <==> "kind" in BucketNames(root, found)
    ensures r.Some? ==> r.value.kind == if typ == "systemconfig" then "shared" else "user"
    ensures var root := SettingsPath(typ, home, configured);
      r.Some? ==> r.value.buckets.Keys == BaseBuckets + BucketNames(root, found)
    ensures var root := SettingsPath(typ, home, configured);
      r.Some? ==> forall b :: b in r.value.buckets ==> r.value.buckets[b] == Select(root, found, b)
  {
    var root := SettingsPath(typ, home, configured);
    var kind := if typ == "systemconfig" then "shared" else "user";
    var buckets: map<string, seq<string>> := map["autotext" := [], "xcu" := [], "browsersetting" := []];
    assert found[..0] == [];
    for i := 0 to |found|
      invariant "kind" !in BucketNames(root, found[..i])
      invariant Grouped(buckets, found[..i], Bucketing(root))
    {
      var file := found[i];
      GroupedAdd(buckets, found, Bucketing(root), i);
      GroupStep(found, Bucketing(root), i);
      var setting := if root.Dir? then StrReplace(Dirname(file), root.path, "") else Dirname(file);
      if Truthy(setting) {
        setting := setting[1..];
        assert Bucketing(root)(file) == Some(setting);
        if setting == "kind" {
          NamesPrefix(found, Bucketing(root), i + 1);
          return None;
        }
        // empty($response[$setting]) starts the bucket afresh
        var current := if setting !in buckets || buckets[setting] == [] then [] else buckets[setting];
        assert current == if setting in buckets then buckets[setting] else [];
        buckets := buckets[setting := current + [file]];
      } else {
        assert Bucketing(root)(file).None?;
      }
    }
    assert found[..|found|] == found;
    return Some(FetchReply(kind, buckets));
  }

  // ---------------------------------------------------------------------------
  // upload

  /** Segment `k` of an exploded file id; a missing one reads as "" (PHP null). */
  function Segment(parts: seq<string>, k: nat): string {
    if k < |parts| then parts[k] else ""
  }

  /**
   * Where an upload goes: segments 2, 3 and 4 of the file id split at "/" are
   * the type, the setting and the file name. Returns the setting directory, the
   * target path and the file name.
   */
  function UploadTarget(fileId: string, home: string, configured: seq<string>): (t: (string, string, string))
    ensures t.1 == t.0 + "/" + t.2
  {
    var parts := Explode(fileId, '/');
    var dir := RootString(SettingsPath(Segment(parts, 2), home, configured)) + "/" + Segment(parts, 3);
    (dir, dir + "/" + Segment(parts, 4), Segment(parts, 4))
  }

  /** A file id "/settings/<type>/<setting>/<name>" stores under the type's root. */
  lemma UploadTargetOf(typ: string, setting: string, name: string, home: string, configured: seq<string>)
    requires '/' !in typ && '/' !in setting && '/' !in name
    ensures var fileId := "/settings/" + typ + "/" + setting + "/" + name;
      var root := RootString(SettingsPath(typ, home, configured));
      UploadTarget(fileId, home, configured) == (root + "/" + setting, root + "/" + setting + "/" + name, name)
  {
    var parts := ["", "settings", typ, setting, name];
    assert Implode(parts[4..], '/') == name;
    assert Implode(parts[3..], '/') == setting + "/" + name by {
      assert parts[3..][1..] == parts[4..];
    }
    assert Implode(parts[2..], '/') == typ + "/" + setting + "/" + name by {
      assert parts[2..][1..] == parts[3..];
    }
    assert Implode(parts[1..], '/') == "settings/" + typ + "/" + setting + "/" + name by {
      assert parts[1..][1..] == parts[2..];
    }
    assert Implode(parts, '/') == "/settings/" + typ + "/" + setting + "/" + name;
    ImplodeExplode(parts, '/');
  }

  /** The answer to an upload that did not fail fatally. */
  datatype UploadReply = UploadReply(status: string, filename: string)

  const WriteError := "X-WOPI-ServerError: Unable to write file"

  /**
   * upload: make sure the setting directory exists, then write the request body
   * into it. A directory that cannot be made answers "failure"; a write that
   * fails answers 500 with an error header and no data.
   */
  method UploadSetting(server: Server, fileId: string, home: string, configured: seq<string>, body: string)
    returns (r: Option<UploadReply>)
    modifies server`dirs, server`files, server`status, server`headers
    ensures var (dir, target, name) := UploadTarget(fileId, home, configured);
      server.dirs == if dir in old(server.dirs) || dir in server.failing then old(server.dirs) else old(server.dirs) + {dir}
    ensures var (dir, target, name) := UploadTarget(fileId, home, configured);
      dir !in old(server.dirs) && dir in server.failing ==>
        r == Some(UploadReply("failure", name)) && server.files == old(server.files) &&
        server.status == old(server.status) && server.headers == old(server.headers)
    ensures var (dir, target, name) := UploadTarget(fileId, home, configured);
      (dir in old(server.dirs) || dir !in server.failing) && target in server.failing ==>
        r.None? && server.files == old(server.files) &&
        server.status == 500 && server.headers == old(server.headers) + [WriteError]
    ensures var (dir, target, name) := UploadTarget(fileId, home, configured);
      (dir in old(server.dirs) || dir !in server.failing) && target !in server.failing ==>
        r == Some(UploadReply("success", name)) && server.files == old(server.files)[target := body] &&
        server.status == old(server.status) && server.headers == old(server.headers)
  {
    var parts := Explode(fileId, '/');
    var typ, setting, name := Segment(parts, 2), Segment(parts, 3), Segment(parts, 4);
    var path := RootString(SettingsPath(typ, home, configured)) + "/" + setting;
    var status := "failure";
    var ready := path in server.dirs;
    if !ready {
      ready := server.MakeDir(path);
    }
    if ready {
      path := path + "/" + name;
      var written := server.Write(path, body);
      if !written {
        server.status := 500;
        server.headers := server.headers + [WriteError];
        return None;
      }
      status := "success";
    }
    return Some(UploadReply(status, name));
  }
}
