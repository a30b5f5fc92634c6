/**
 * The WOPI entry point (src/Wopi.php): it filters the file id, derives the
 * endpoint class from the endpoint name, answers 404 for an unknown endpoint,
 * and sends the handler's data as the response envelope. It also reads the
 * access token from the query string.
 */
module Router {
  import opened Php

  /** The namespace endpoint classes live in: EGroupware\collabora\Wopi\ . */
  const EndpointNamespace := "EGroupware\\collabora\\Wopi\\"

  /** filter_var($id, FILTER_SANITIZE_NUMBER_INT): digits and signs, in their original order. */
  function RequestId(raw: string): (id: string)
    ensures forall c :: c in id ==> IsDigit(c) || c == '+' || c == '-'
    ensures |id| <= |raw|
  {
    SanitizeNumberInt(raw)
  }

  /** The id filter keeps every digit and sign and drops everything else, preserving order. */
  lemma RequestIdKeeps(a: string, b: string)
    ensures RequestId(a + b) == RequestId(a) + RequestId(b)
    ensures forall c :: NumberIntChar(c) ==> multiset(RequestId(a))[c] == multiset(a)[c]
    ensures RequestId(RequestId(a)) == RequestId(a)
  {
    FilterAppend(a, b, NumberIntChar);
    forall c | NumberIntChar(c)
      ensures multiset(RequestId(a))[c] == multiset(a)[c]
    {
      FilterCounts(a, NumberIntChar, c);
    }
    FilterIdempotent(a, NumberIntChar);
  }

  /** The endpoint class: ucfirst, control and non-ASCII characters stripped, HTML specials encoded. */
  function EndpointClass(endpoint: string): (cls: string)
    ensures StartsWith(cls, EndpointNamespace)
  {
    var name := SanitizeSpecialChars(Filter(Ucfirst(endpoint), PrintableAscii));
    assert (EndpointNamespace + name)[..|EndpointNamespace|] == EndpointNamespace;
    EndpointNamespace + name
  }

  lemma {:induction false} SpecialCharsIdentity(s: string)
    requires forall c :: c in s ==> !HtmlSpecial(c)
    ensures SanitizeSpecialChars(s) == s
  {
    if s != [] {
      assert s[0] in s;
      SpecialCharsIdentity(s[1..]);
    }
  }

  /** A plain alphanumeric endpoint name maps to the class of the same name, first letter upper-cased. */
  lemma EndpointOfPlainName(endpoint: string)
    requires forall c :: c in endpoint ==> IsAlnum(c)
    ensures EndpointClass(endpoint) == EndpointNamespace + Ucfirst(endpoint)
  {
    var u := Ucfirst(endpoint);
    assert forall c :: c in u ==> IsAlnum(c) by {
      forall c | c in u
        ensures IsAlnum(c)
      {
        var i :| 0 <= i < |u| && u[i] == c;
        if i > 0 {
          assert u[i] == endpoint[i];
        }
      }
    }
    FilterKeepsAll(u, PrintableAscii);
    SpecialCharsIdentity(u);
  }

  /** Whatever the endpoint name, the class name carries no raw quote, angle bracket or control character. */
  lemma EndpointClassClean(endpoint: string)
    ensures var name := EndpointClass(endpoint)[|EndpointNamespace|..];
      forall c :: c in name ==> !HtmlSpecial(c) || c == '&'
  {
    var name := SanitizeSpecialChars(Filter(Ucfirst(endpoint), PrintableAscii));
    assert EndpointClass(endpoint)[|EndpointNamespace|..] == name;
    SpecialCharsClean(Filter(Ucfirst(endpoint), PrintableAscii));
  }

  /** Wopi::get_token: the access token with HTML special characters encoded; decoding restores it. */
  function AccessToken(raw: string): (token: string)
    ensures DecodeEntities(token) == raw
    ensures forall c :: c in token ==> !HtmlSpecial(c) || c == '&'
  {
    SpecialCharsRoundTrip(raw);
    SpecialCharsClean(raw);
    SanitizeSpecialChars(raw)
  }

  /** The handler's answer; PHP's null and the empty array are both empty. */
  type Data = seq<(string, string)>

  /** The response the entry point builds. */
  class Reply {
    var status: int
    var headers: seq<string>
    /** The payloads echoed as the JSON body. */
    var body: seq<Data>
    /** headers_sent(): output has already started. */
    var headersSent: bool

    constructor (headersSent: bool)
      ensures status == 200 && headers == [] && body == [] && this.headersSent == headersSent
    {
      status := 200;
      headers := [];
      body := [];
      this.headersSent := headersSent;
    }
  }

  /** The headers of a WOPI response envelope. */
  function EnvelopeHeaders(version: string): seq<string> {
    ["X-WOPI-ServerVersion: " + version, "X-WOPI-MachineName: Egroupware",
     "Content-Type: application/json;charset=utf-8"]
  }

  /**
   * Wopi::index after the session is started. `classes` are the endpoint
   * classes that exist, `handle` stands for their process method.
   */
  method Index(reply: Reply, rawId: string, endpoint: string, classes: set<string>,
               handle: (string, string) -> Data, version: string)
    modifies reply`status, reply`headers, reply`body
    ensures var cls := EndpointClass(endpoint);
      cls !in classes ==> reply.status == 404 && reply.headers == old(reply.headers) && reply.body == old(reply.body)
    ensures var cls := EndpointClass(endpoint);
      cls in classes ==>
        var data := handle(cls, RequestId(rawId));
        reply.status == old(reply.status) &&
        if data != [] && !reply.headersSent
        then reply.headers == old(reply.headers) + EnvelopeHeaders(version) && reply.body == old(reply.body) + [data]
        else reply.headers == old(reply.headers) && reply.body == old(reply.body)
  {
    var id := RequestId(rawId);
    var cls := EndpointClass(endpoint);
    var data: Data := [];
    if cls in classes {
      data := handle(cls, id);
    } else {
      reply.status := 404;
      return;
    }
    if !reply.headersSent && data != [] {
      reply.headers := reply.headers + EnvelopeHeaders(version);
      reply.body := reply.body + [data];
    }
  }
}
