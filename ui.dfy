/**
 * The user-interface side of the app (src/Ui.php): the hook that adds the
 * Collabora actions to the file manager, saving a mail-merge result under a
 * free name in the home directory, and creating a new document from a
 * template or as a copy of an existing one.
 */
module Ui {
  import opened Php
  import opened Vfs
  import opened Naming
  import Bo

  // ---------------------------------------------------------------------------
  // index

  /**
   * What Bo::discover gave: it throws "not configured" (the variable then stays
   * unset), throws any other error (it is reset to the empty array), or returns
   * the discovery document with `entries` entries.
   */
  datatype Discovery = NotConfigured | Unreachable | Found(entries: nat)

  /** What the hook did: script included, error shown, discovery sent to the client, changes returned. */
  datatype IndexEffect = IndexEffect(script: bool, errorShown: bool, discoverySent: bool, changes: bool)

  const FileManagerIndex := "filemanager.index"

  /**
   * index: nothing happens outside the file manager's index template; there the
   * script is included, a failed discovery shows an error, and only a non-empty
   * discovery is sent on and turned into changes to the template.
   */
  method Index(location: string, discovery: Discovery) returns (effect: IndexEffect)
    ensures effect.script <==> location == FileManagerIndex
    ensures effect.errorShown <==> location == FileManagerIndex && discovery.Unreachable?
    ensures effect.changes <==> location == FileManagerIndex && discovery.Found? && discovery.entries > 0
    ensures effect.discoverySent == effect.changes
  {
    effect := IndexEffect(false, false, false, false);
    if location != FileManagerIndex {
      return;
    }
    effect := effect.(script := true);
    var entries := 0;
    match discovery {
      case NotConfigured =>
      case Unreachable =>
        effect := effect.(errorShown := true);
      case Found(n) =>
        entries := n;
    }
    if entries == 0 {
      return;
    }
    effect := effect.(discoverySent := true, changes := true);
  }

  // ---------------------------------------------------------------------------
  // merge_edit

  /**
   * merge_edit after the merge: when the merged document is a readable file
   * (`merged` holds its contents), it is copied into the home directory as
   * `filename`, or as "name (2).ext", "name (3).ext", ... when that file exists.
   * Returns the chosen target; the result of the copy is not checked.
   */
  method MergeEdit(server: Server, merged: Option<string>, home: string, filename: string)
    returns (target: Option<string>)
    modifies server`files
    ensures merged.None? ==> target.None? && server.files == old(server.files)
    ensures merged.Some? ==> target.Some? && target.value !in old(server.files)
    ensures merged.Some? ==>
      target.value == Unique(home + "/", filename, PathFilename(filename), PathExtension(filename), old(server.files).Keys)
    ensures merged.Some? && home + "/" + filename in old(server.files) ==>
      exists n :: (n >= 2 && target.value == home + "/" + Candidate(PathFilename(filename), PathExtension(filename), n)
        && forall k :: 2 <= k < n ==> home + "/" + Candidate(PathFilename(filename), PathExtension(filename), k) in old(server.files))
    ensures merged.Some? ==>
      server.files == if target.value in server.failing then old(server.files) else old(server.files)[target.value := merged.value]
  {
    if merged.None? {
      return None;
    }
    var dir := home + "/";
    var base, extension := PathFilename(filename), PathExtension(filename);
    var taken := server.files.Keys;
    var file := filename;
    var dupeCount := 0;
    while dir + file in server.files
      invariant server.files == old(server.files) && taken == server.files.Keys
      invariant Retrying(dir, filename, base, extension, taken, dupeCount, file)
      decreases |taken| + 1 - dupeCount
    {
      RetryStep(dir, filename, base, extension, taken, dupeCount, file);
      dupeCount := dupeCount + 1;
      file := Candidate(base, extension, dupeCount + 1);
    }
    RetryDone(dir, filename, base, extension, taken, dupeCount, file);
    var _ := server.Write(dir + file, merged.value);
    return Some(dir + file);
  }

  // ---------------------------------------------------------------------------
  // ajax_createNew

  /** Where the template for extension `ext` is published below the web server URL. */
  function TemplatePath(webserverUrl: string, ext: string): (p: string)
    ensures |p| > |webserverUrl|
  {
    webserverUrl + "/collabora/assets/template_" + ext + "." + ext
  }

  /**
   * The template URL as ajax_createNew computes it: the conditional operator
   * binds weaker than the concatenation, so a relative path becomes "https://"
   * alone under HTTPS, and "http://" + host + path otherwise.
   */
  function TemplateUrlAsWritten(webserverUrl: string, ext: string, req: Bo.Request): string {
    var temp := TemplatePath(webserverUrl, ext);
    if temp[0] == '/' then
      (if req.port == 443 || (Truthy(req.https) && req.https != "off") then "https://" else "http://" + req.httpHost + temp)
    else temp
  }

  /** Under HTTPS the URL as written has lost both the host and the template path. */
  lemma TemplateUrlAsWrittenLosesPath(webserverUrl: string, ext: string, host: string)
    requires webserverUrl == [] || webserverUrl[0] == '/'
    ensures var req := Bo.Request("on", 443, "", host);
      TemplateUrlAsWritten(webserverUrl, ext, req) == "https://" &&
      TemplateUrl(webserverUrl, ext, req) == "https://" + host + TemplatePath(webserverUrl, ext)
  {
  }

  /**
   * The template URL intended: a relative path is prefixed with the protocol and
   * the request's host, under HTTP and HTTPS alike.
   */
  function TemplateUrl(webserverUrl: string, ext: string, req: Bo.Request): (url: string)
    ensures var temp := TemplatePath(webserverUrl, ext);
      |temp| <= |url| && url[|url| - |temp|..] == temp
    ensures var temp := TemplatePath(webserverUrl, ext);
      temp[0] == '/' ==> StartsWith(url, Bo.Protocol(req) + req.httpHost)
  {
    var temp := TemplatePath(webserverUrl, ext);
    var url := if temp[0] == '/' then Bo.Protocol(req) + req.httpHost + temp else temp;
    assert url[|url| - |temp|..] == temp;
    assert temp[0] == '/' ==> url[..|Bo.Protocol(req) + req.httpHost|] == Bo.Protocol(req) + req.httpHost;
    url
  }

  /** The messages ajax_createNew answers with. */
  datatype Message = NotPermitted(dir: string) | AlreadyExists(file: string) | Created(file: string) | Failed(file: string)

  /** One JSON answer: a message, and the new file's path when one was created. */
  datatype CreateReply = CreateReply(message: Message, path: Option<string>)

  /** The file ajax_createNew creates: dir/name.ext. */
  function NewFile(dir: string, name: string, ext: string): string {
    dir + "/" + name + "." + ext
  }

  /**
   * ajax_createNew. `fetch` stands for file_get_contents on the template URL
   * (None when it fails). A directory that is not writable only adds a message;
   * the creation is attempted regardless. An existing file is never touched;
   * otherwise the file is a copy of `openasnew` when that is given, or the
   * template (a single space when there is none).
   */
  method CreateNew(server: Server, ext: string, dir: string, name: string, openasnew: string,
                   webserverUrl: string, req: Bo.Request, fetch: string -> Option<string>)
    returns (replies: seq<CreateReply>)
    modifies server`files
    ensures var file := NewFile(dir, name, ext);
      |replies| == (if dir in server.writable then 1 else 2) &&
      (dir !in server.writable ==> replies[0] == CreateReply(NotPermitted(dir), None))
    ensures var file := NewFile(dir, name, ext); var last := replies[|replies| - 1];
      old(server.Exists(file)) ==> last == CreateReply(AlreadyExists(file), None) && server.files == old(server.files)
    ensures var file := NewFile(dir, name, ext); var last := replies[|replies| - 1];
      !old(server.Exists(file)) && Truthy(openasnew) ==>
        var ok := openasnew in old(server.files) && file !in server.failing;
        last == (if ok then CreateReply(Created(file), Some(file)) else CreateReply(Failed(file), None)) &&
        server.files == if ok then old(server.files)[file := old(server.files)[openasnew]] else old(server.files)
    ensures var file := NewFile(dir, name, ext); var last := replies[|replies| - 1];
      !old(server.Exists(file)) && !Truthy(openasnew) ==>
        var template := fetch(TemplateUrl(webserverUrl, ext, req));
        var content := if template.Some? && Truthy(template.value) then template.value else " ";
        var ok := file !in server.failing;
        last == (if ok then CreateReply(Created(file), Some(file)) else CreateReply(Failed(file), None)) &&
        server.files == if ok then old(server.files)[file := content] else old(server.files)
    ensures var last := replies[|replies| - 1];
      last.path.Some? ==> last.path.value == NewFile(dir, name, ext) && last.path.value in server.files
  {
    replies := [];
    if dir !in server.writable {
      replies := replies + [CreateReply(NotPermitted(dir), None)];
    }
    var file := dir + "/" + name + "." + ext;
    var template := fetch(TemplateUrl(webserverUrl, ext, req));
    var data: CreateReply;
    if server.Exists(file) {
      data := CreateReply(AlreadyExists(file), None);
    } else if Truthy(openasnew) {
      var copied := server.Copy(openasnew, file);
      if copied {
        data := CreateReply(Created(file), Some(file));
      } else {
        data := CreateReply(Failed(file), None);
      }
    } else {
      var content := if template.Some? && Truthy(template.value) then template.value else " ";
      var written := server.Write(file, content);
      if !written {
        data := CreateReply(Failed(file), None);
      } else {
        data := CreateReply(Created(file), Some(file));
      }
    }
    replies := replies + [data];
  }
}
