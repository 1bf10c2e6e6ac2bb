/** MakeResponse (src/hpl_response.h): the printer of response heads. */
module Response {
  import opened Http
  import opened Sequences

  const INFORMATIONAL := ["Continue", "Switching Protocols", "Processing", "Early Hints"]
  const SUCCESSFUL := [
    "OK", "Created", "Accepted", "Non-Authoritative Information", "No Content", "Reset Content",
    "Partial Content", "Multi-Status", "Already Reported"]
  const REDIRECTION := [
    "Multiple Choices", "Moved Permanently", "Found", "See Other", "Not Modified", "Use Proxy",
    "(Unused)", "Temporary Redirect", "Permanent Redirect"]
  const CLIENT_ERROR := [
    "Bad Request", "Unauthorized", "Payment Required", "Forbidden", "Not Found",
    "Method Not Allowed", "Not Acceptable", "Proxy Authentication Required", "Request Timeout",
    "Conflict", "Gone", "Length Required", "Precondition Failed"]
  const SERVER_ERROR := [
    "Internal Server Error", "Not Implemented", "Bad Gateway", "Service Unavailable",
    "Gateway Timeout", "HTTP Version Not Supported", "Variant Also Neogtiates",
    "Insufficient Storage", "Loop Detected", "(Unused)", "Not Extended",
    "Network Authentication Required"]

  const STATUS_MESSAGES: seq<seq<string>> :=
    [INFORMATIONAL, SUCCESSFUL, REDIRECTION, CLIENT_ERROR, SERVER_ERROR]

  /** The status a code is printed as: every lookup in the table is in range. */
  function NormalStatus(code: int): (r: nat)
    ensures 100 <= r <= 599 && r % 100 < |STATUS_MESSAGES[r / 100 - 1]|
    ensures r != code ==> r == 500
  {
    if code < 100 || code > 599 then 500
    else if |STATUS_MESSAGES[code / 100 - 1]| <= code % 100 then 500
    else code
  }

  function Digit(n: nat): char
    requires n < 10
  {
    ('0' as int + n) as char
  }

  /** Decimal notation without leading zeros. */
  function Decimal(n: nat): string {
    if n < 10 then [Digit(n)] else Decimal(n / 10) + [Digit(n % 10)]
  }

  function StatusLine(code: int, version: HttpVersion): string {
    var status := NormalStatus(code);
    HttpVersionToString(version) + " " + Decimal(status) + " "
      + STATUS_MESSAGES[status / 100 - 1][status % 100] + "\r\n"
  }

  /** The entries of a std::map<std::string_view, std::string_view>, in iteration order. */
  type Entries = seq<(string, string)>

  function HeaderLine(e: (string, string)): string { e.0 + ": " + e.1 + "\r\n" }

  function HeaderLines(entries: Entries): string {
    if entries == [] then "" else HeaderLine(entries[0]) + HeaderLines(entries[1..])
  }

  function Tail(body: string): string {
    if body != "" then "Content-Length: " + Decimal(|body|) + "\r\n\r\n" + body else "\r\n"
  }

  function ResponseText(code: int, version: HttpVersion, entries: Entries, body: string): string {
    StatusLine(code, version) + (HeaderLines(entries) + Tail(body))
  }

  method MakeResponse(statusCode: int, version: HttpVersion, headers: Entries, body: string)
    returns (ret: string)
    ensures ret == ResponseText(statusCode, version, headers, body)
  {
    var status := statusCode;
    if status < 100 || status > 599 {
      status := 500;
    }
    if |STATUS_MESSAGES[status / 100 - 1]| <= status % 100 {
      status := 500;
    }
    ret := HttpVersionToString(version) + " " + Decimal(status) + " "
           + STATUS_MESSAGES[status / 100 - 1][status % 100] + "\r\n";
    for i := 0 to |headers|
      invariant ret + HeaderLines(headers[i..]) == StatusLine(statusCode, version) + HeaderLines(headers)
    {
      NextHeader(ret, headers, i);
      ret := ret + (headers[i].0 + ": " + headers[i].1 + "\r\n");
    }
    ghost var head := ret;
    assert head + "" == head;
    if body != "" {
      ret := ret + ("Content-Length: " + Decimal(|body|) + "\r\n\r\n");
      ret := ret + body;
      Assoc(head, "Content-Length: " + Decimal(|body|) + "\r\n\r\n", body);
    } else {
      ret := ret + "\r\n";
    }
    Assoc(StatusLine(statusCode, version), HeaderLines(headers), Tail(body));
  }

  lemma NextHeader(ret: string, headers: Entries, i: nat)
    requires i < |headers|
    ensures (ret + HeaderLine(headers[i])) + HeaderLines(headers[i + 1..]) == ret + HeaderLines(headers[i..])
  {
    assert headers[i..][1..] == headers[i + 1..];
    Assoc(ret, HeaderLine(headers[i]), HeaderLines(headers[i + 1..]));
  }
}
