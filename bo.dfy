/**
 * Token and editor-URL shaping (src/Bo.php): the access token handed to the
 * editor page, the action URL that opens a file in the editor, and the test
 * whether a file keeps versions.
 */
module Bo {
  import opened Php

  /** A PHP scalar as it appears in the share record. */
  datatype Value = Str(s: string) | Int(i: int) | Null

  /** PHP's conversion of a value to string. */
  function AsString(v: Value): string {
    match v
    case Str(s) => s
    case Int(i) => IntToString(i)
    case Null => ""
  }

  /** Leading whitespace removed. */
  function SkipSpaces(s: string): (r: string)
    ensures |r| <= |s|
    ensures r != [] ==> !IsSpace(r[0])
  {
    if s != [] && IsSpace(s[0]) then SkipSpaces(s[1..]) else s
  }

  predicate AllSpaces(s: string) {
    forall c :: c in s ==> IsSpace(c)
  }

  /** The tail after a mantissa: nothing but whitespace, or an exponent and then whitespace. */
  predicate ExponentTail(r: string) {
    AllSpaces(r) ||
    (r != [] && (r[0] == 'e' || r[0] == 'E') &&
     var v := if |r| > 1 && (r[1] == '+' || r[1] == '-') then r[2..] else r[1..];
     var k := DigitRun(v);
     k > 0 && AllSpaces(v[k..]))
  }

  /**
   * is_numeric on a string: optional whitespace and sign, digits with an optional
   * decimal point (at least one digit in all), an optional exponent, optional
   * trailing whitespace.
   */
  predicate IsNumericString(s: string) {
    var t := SkipSpaces(s);
    var u := if t != [] && (t[0] == '+' || t[0] == '-') then t[1..] else t;
    var a := DigitRun(u);
    var rest := u[a..];
    if rest != [] && rest[0] == '.' then
      var b := DigitRun(rest[1..]);
      (a > 0 || b > 0) && ExponentTail(rest[1 + b..])
    else
      a > 0 && ExponentTail(rest)
  }

  predicate IsNumeric(v: Value) {
    match v
    case Int(_) => true
    case Str(s) => IsNumericString(s)
    case Null => false
  }

  /** A decimal timestamp string stays numeric. */
  lemma DecimalIsNumeric(n: nat)
    ensures IsNumeric(Str(NatToString(n)))
  {
    var s := NatToString(n);
    assert s == s + "";
    DigitRunOfDigits(s, "");
    assert SkipSpaces(s) == s;
    assert s[|s|..] == "";
  }

  /** A string with no digit at all is not numeric. */
  lemma NoDigitsNotNumeric(s: string)
    requires forall c :: c in s ==> !IsDigit(c)
    ensures !IsNumeric(Str(s))
  {
    var t := SkipSpaces(s);
    assert forall c :: c in t ==> c in s by {
      SkipSpacesSuffix(s);
    }
    var u := if t != [] && (t[0] == '+' || t[0] == '-') then t[1..] else t;
    assert u != [] ==> u[0] in t;
    var rest := u[DigitRun(u)..];
    if rest != [] && rest[0] == '.' {
      assert rest[1..] != [] ==> rest[1..][0] in t;
    }
  }

  lemma {:induction false} SkipSpacesSuffix(s: string)
    ensures forall c :: c in SkipSpaces(s) ==> c in s
  {
    if s != [] && IsSpace(s[0]) {
      SkipSpacesSuffix(s[1..]);
    }
  }

  // ---------------------------------------------------------------------------
  // get_token

  /** The key get_token stores a share entry under: "share_" keys lose every "share_". */
  function RenameKey(k: string): string {
    if StartsWith(k, "share_") then StrReplace(k, "share_", "") else k
  }

  /** A "share_" key appears with the prefix removed. */
  lemma RenameStripsPrefix(rest: string)
    requires !Contains(rest, "share_")
    ensures RenameKey("share_" + rest) == rest
  {
    assert StartsWith("share_" + rest, "share_") by {
      assert ("share_" + rest)[..6] == "share_";
    }
    StrRemovePrefix("share_", rest);
  }

  /** Other keys are kept as they are. */
  lemma RenameKeepsOthers(k: string)
    requires !StartsWith(k, "share_")
    ensures RenameKey(k) == k
  {
  }

  /** The renamed share record: entries in order, a later entry overwriting an earlier one. */
  function Renamed(share: seq<(string, Value)>): map<string, Value> {
    if share == [] then map[]
    else Renamed(share[..|share| - 1])[RenameKey(share[|share| - 1].0) := share[|share| - 1].1]
  }

  /** Entry `i` of the share record lands under `key`. */
  predicate Lands(share: seq<(string, Value)>, i: int, key: string) {
    0 <= i < |share| && RenameKey(share[i].0) == key
  }

  /** The renamed record has exactly the renamed keys. */
  lemma {:induction false} RenamedKeys(share: seq<(string, Value)>, key: string)
    ensures key in Renamed(share) <==> exists i :: Lands(share, i, key)
  {
    if share != [] {
      var last := |share| - 1;
      var init := share[..last];
      RenamedKeys(init, key);
      if key in Renamed(share) && !Lands(share, last, key) {
        var i :| Lands(init, i, key);
        assert init[i] == share[i];
        assert Lands(share, i, key);
      }
      if exists i :: Lands(share, i, key) {
        var i :| Lands(share, i, key);
        if i < last {
          assert init[i] == share[i];
          assert Lands(init, i, key);
        }
      }
    }
  }

  /** Values are copied as they are: each key holds the value of the last entry landing there. */
  lemma {:induction false} RenamedValue(share: seq<(string, Value)>, i: int)
    requires 0 <= i < |share|
    requires forall j :: i < j < |share| ==> !Lands(share, j, RenameKey(share[i].0))
    ensures RenameKey(share[i].0) in Renamed(share)
    ensures Renamed(share)[RenameKey(share[i].0)] == share[i].1
  {
    var last := |share| - 1;
    var key := RenameKey(share[i].0);
    if i < last {
      var init := share[..last];
      assert init[i] == share[i];
      forall j | i < j < last
        ensures !Lands(init, j, key)
      {
        assert init[j] == share[j];
        assert !Lands(share, j, key);
      }
      assert !Lands(share, last, key);
      RenamedValue(init, i);
    }
  }

  /** The value under `key`, PHP's null when absent. */
  function Get(m: map<string, Value>, key: string): Value {
    if key in m then m[key] else Null
  }

  /**
   * get_token: the share record with renamed keys, the token url-encoded, and
   * the expiry turned into a timestamp by `toTimestamp` (DateTime::to) when it
   * is not numeric.
   */
  method GetToken(share: seq<(string, Value)>, toTimestamp: Value -> int) returns (token: map<string, Value>)
    ensures token.Keys == Renamed(share).Keys + {"token", "expires"}
    ensures forall k :: k in Renamed(share) && k != "token" && k != "expires" ==> token[k] == Renamed(share)[k]
    ensures token["token"] == Str(UrlEncode(AsString(Get(Renamed(share), "token"))))
    ensures UrlDecodeBytes(token["token"].s) == Utf8Bytes(AsString(Get(Renamed(share), "token")))
    ensures IsNumeric(token["expires"])
    ensures IsNumeric(Get(Renamed(share), "expires")) ==> token["expires"] == Renamed(share)["expires"]
    ensures !IsNumeric(Get(Renamed(share), "expires")) ==>
      token["expires"] == Int(toTimestamp(Get(Renamed(share), "expires")))
  {
    token := map[];
    for i := 0 to |share|
      invariant token == Renamed(share[..i])
    {
      assert share[..i + 1][..i] == share[..i];
      var (key, value) := share[i];
      if StartsWith(key, "share_") {
        key := StrReplace(key, "share_", "");
      }
      token := token[key := value];
    }
    assert share[..|share|] == share;
    var raw := Get(token, "token");
    UrlRoundTrip(AsString(raw));
    token := token["token" := Str(UrlEncode(AsString(raw)))];
    var expires := Get(token, "expires");
    if !IsNumeric(expires) {
      token := token["expires" := Int(toTimestamp(expires))];
    }
  }

  // ---------------------------------------------------------------------------
  // get_action_url

  /** A tab of Vfs::getExtraInfo, by its label (None when it has none). */
  type Tab = Option<string>

  /** is_versioned: whether some tab is labelled with the localised "Versions". */
  function IsVersioned(tabs: seq<Tab>, versionsLabel: string): (r: bool)
    ensures r <==> exists i :: 0 <= i < |tabs| && tabs[i] == Some(versionsLabel)
  {
    if tabs == [] then false
    else if tabs[0] == Some(versionsLabel) then true
    else
      var r := IsVersioned(tabs[1..], versionsLabel);
      assert forall i :: 0 < i < |tabs| ==> tabs[i] == tabs[1..][i - 1];
      r
  }

  /** http_build_query: key=value pairs joined by "&". */
  function BuildQuery(query: seq<(string, string)>): string {
    if query == [] then ""
    else if |query| == 1 then query[0].0 + "=" + query[0].1
    else BuildQuery(query[..|query| - 1]) + "&" + query[|query| - 1].0 + "=" + query[|query| - 1].1
  }

  /** The request facts the action URL depends on. */
  datatype Request = Request(https: string, port: int, configuredHost: string, httpHost: string)

  /** HTTPS set and not "off", or port 443. */
  function Protocol(req: Request): string {
    if (Truthy(req.https) && req.https != "off") || req.port == 443 then "https://" else "http://"
  }

  /** The configured host name, or the request's Host header. */
  function Host(req: Request): string {
    if Truthy(req.configuredHost) then req.configuredHost else req.httpHost
  }

  /** The files URL of an inode, as Egw::link renders it under the webserver URL. */
  function FilesLink(webserverUrl: string, ino: int): string {
    webserverUrl + "/collabora/index.php/wopi/files/" + IntToString(ino)
  }

  /** The editor query: closebutton, then revisionhistory when versioned, then permission=view when read-only. */
  lemma ActionQueryEntries(versioned: bool, writable: bool)
    ensures var q := [("closebutton", "1")] + (if versioned then [("revisionhistory", "1")] else [])
                     + (if !writable then [("permission", "view")] else []);
      && (("revisionhistory", "1") in q <==> versioned)
      && (("permission", "view") in q <==> !writable)
  {
  }

  /**
   * get_action_url. `urlsrc` is the discovery action for the file's MIME type,
   * `ino` its inode, `versioned` the result of is_versioned.
   */
  method GetActionUrl(path: string, readable: bool, writable: bool, versioned: bool, ino: int,
                      urlsrc: string, webserverUrl: string, req: Request)
    returns (url: string, src: string, query: seq<(string, string)>)
    ensures url == "" <==> !Truthy(path) || !readable
    ensures url != "" ==> url == urlsrc + "WOPISrc=" + UrlEncode(src) + "&" + BuildQuery(query)
    ensures url != "" ==> UrlDecodeBytes(UrlEncode(src)) == Utf8Bytes(src)
    ensures url != "" ==> var link := FilesLink(webserverUrl, ino);
      src == (if link != [] && link[0] == '/' then Protocol(req) + Host(req) + link else link)
    ensures url != "" ==> query == [("closebutton", "1")] + (if versioned then [("revisionhistory", "1")] else [])
                                   + (if !writable then [("permission", "view")] else [])
    ensures url != "" ==> (("revisionhistory", "1") in query <==> versioned)
    ensures url != "" ==> (("permission", "view") in query <==> !writable)
  {
    src, query := "", [];
    if !Truthy(path) || !readable {
      return "", src, query;
    }
    var link := FilesLink(webserverUrl, ino);
    src := link;
    if link != [] && link[0] == '/' {
      src := Protocol(req) + Host(req) + link;
    }
    url := urlsrc + "WOPISrc=" + UrlEncode(src);
    UrlRoundTrip(src);
    query := [("closebutton", "1")];
    if versioned {
      query := query + [("revisionhistory", "1")];
    }
    if !writable {
      query := query + [("permission", "view")];
    }
    ActionQueryEntries(versioned, writable);
    url := url + "&" + BuildQuery(query);
  }

  /** The inode ends the files URL. */
  lemma FilesLinkEndsWithInode(webserverUrl: string, ino: int)
    ensures var link := FilesLink(webserverUrl, ino); var id := IntToString(ino);
      |id| <= |link| && link[|link| - |id|..] == id
  {
  }
}
