/** Request methods and protocol versions: src/hpl_method.cc and src/hpl_version.cc.
    The packed four-byte reads of the source are byte-wise prefix tests; a byte that lies
    past the end of the text never decides one of them. */
module Http {
  datatype HttpMethod =
    GET | POST | PUT | DELETE | HEAD | CONNECT | OPTIONS | TRACE | PATCH | UNKNOWN_METHOD
  datatype HttpVersion = HTTP_1_0 | HTTP_1_1 | HTTP_2_0 | WS | UNKNOWN_VERSION

  /** The bytes of `word` stand in s from position pos on. */
  predicate WordAt(s: string, pos: nat, word: string) {
    pos + |word| <= |s| && s[pos..pos + |word|] == word
  }

  /** The method at pos and the position behind it. */
  function ParseHttpMethod(s: string, pos: nat): (r: (HttpMethod, nat))
    ensures r.0 != UNKNOWN_METHOD ==> pos < r.1 <= |s|
  {
    if WordAt(s, pos, "GET") then (GET, pos + 3)
    else if WordAt(s, pos, "PUT") then (PUT, pos + 3)
    else if WordAt(s, pos, "POST") then (POST, pos + 4)
    else (UNKNOWN_METHOD, 0)
  }

  /** The number after "HTTP/". */
  function ParseHttpNumber(s: string): HttpVersion {
    if WordAt(s, 0, "1.0") then HTTP_1_0
    else if WordAt(s, 0, "1.1") then HTTP_1_1
    else if WordAt(s, 0, "2.0") then HTTP_2_0
    else UNKNOWN_VERSION
  }

  function ParseHttpVersion(s: string): HttpVersion {
    if WordAt(s, 0, "HTTP/") then ParseHttpNumber(s[5..])
    else if WordAt(s, 0, "WSS/") then WS
    else UNKNOWN_VERSION
  }

  function HttpVersionToString(v: HttpVersion): string {
    match v
    case HTTP_1_0 => "HTTP/1.0"
    case HTTP_1_1 => "HTTP/1.1"
    case HTTP_2_0 => "HTTP/2.0"
    case WS => "WS"
    case UNKNOWN_VERSION => "UNKNOWN"
  }

  lemma LongerPrefix(s: string, a: string, b: string)
    ensures a + b <= s <==> a <= s && b <= s[|a|..]
  {
    if a <= s && |a + b| <= |s| { assert s[..|a + b|] == s[..|a|] + s[|a|..][..|b|]; }
    if a + b <= s {
      assert s[..|a|] == s[..|a + b|][..|a|] && s[|a|..][..|b|] == s[..|a + b|][|a|..];
    }
  }

  lemma WordAtStart(s: string, word: string)
    ensures WordAt(s, 0, word) <==> word <= s
  {
    if |word| <= |s| { assert s[0..|word|] == s[..|word|]; }
  }

  /** No text begins with two words that differ at position i. */
  lemma Apart(s: string, a: string, b: string, i: nat)
    requires i < |a| && i < |b| && a[i] != b[i]
    ensures !(a <= s && b <= s)
  {
    if a <= s { assert s[..|a|][i] == s[i]; }
    if b <= s { assert s[..|b|][i] == s[i]; }
  }

  /** A method is read exactly if the line begins with its name, whatever follows. */
  lemma MethodReadIff(s: string)
    ensures ParseHttpMethod(s, 0).0 == GET <==> "GET" <= s
    ensures ParseHttpMethod(s, 0).0 == PUT <==> "PUT" <= s
    ensures ParseHttpMethod(s, 0).0 == POST <==> "POST" <= s
    ensures var m := ParseHttpMethod(s, 0).0; m == GET || m == PUT || m == POST || m == UNKNOWN_METHOD
  {
    WordAtStart(s, "GET");
    WordAtStart(s, "PUT");
    WordAtStart(s, "POST");
    Apart(s, "GET", "PUT", 0);
    Apart(s, "GET", "POST", 0);
    Apart(s, "PUT", "POST", 1);
  }

  lemma NumberReadIff(s: string)
    ensures ParseHttpNumber(s) == HTTP_1_0 <==> "1.0" <= s
    ensures ParseHttpNumber(s) == HTTP_1_1 <==> "1.1" <= s
    ensures ParseHttpNumber(s) == HTTP_2_0 <==> "2.0" <= s
    ensures ParseHttpNumber(s) != WS
  {
    WordAtStart(s, "1.0");
    WordAtStart(s, "1.1");
    WordAtStart(s, "2.0");
    Apart(s, "1.0", "1.1", 2);
    Apart(s, "1.0", "2.0", 0);
    Apart(s, "1.1", "2.0", 0);
  }

  /** A version is read exactly if the text begins with its name; WS is named WSS/. */
  lemma VersionReadIff(s: string)
    ensures ParseHttpVersion(s) == HTTP_1_0 <==> "HTTP/" + "1.0" <= s
    ensures ParseHttpVersion(s) == HTTP_1_1 <==> "HTTP/" + "1.1" <= s
    ensures ParseHttpVersion(s) == HTTP_2_0 <==> "HTTP/" + "2.0" <= s
    ensures ParseHttpVersion(s) == WS <==> "WSS/" <= s
  {
    LongerPrefix(s, "HTTP/", "1.0");
    LongerPrefix(s, "HTTP/", "1.1");
    LongerPrefix(s, "HTTP/", "2.0");
    WordAtStart(s, "HTTP/");
    WordAtStart(s, "WSS/");
    Apart(s, "HTTP/", "WSS/", 0);
    if "HTTP/" <= s { NumberReadIff(s[5..]); }
  }

  /** Printing and reading back a version loses it exactly for WS, which is printed without
      the "S/" the reader insists on (unless the following text happens to supply it). */
  lemma VersionRoundTrip(v: HttpVersion, rest: string)
    ensures ParseHttpVersion(HttpVersionToString(v) + rest) == v
            <==> (v == WS ==> WordAt(rest, 0, "S/"))
  {
    var s := HttpVersionToString(v) + rest;
    match v
    case WS =>
      assert s[0] == 'W';
      if |s| >= 4 { assert s[..4] == ['W', 'S', rest[0], rest[1]]; assert rest[..2] == [rest[0], rest[1]]; }
    case UNKNOWN_VERSION =>
      assert s[0] == 'U';
    case _ =>
      assert s[..5] == "HTTP/";
      assert s[5..][..3] == HttpVersionToString(v)[5..];
  }
}
