/** The route table of Server (src/hpl_server.cc): globs are compiled in place to regexes and
    looked up in key order. */
module Router {
  import opened Sequences
  import opened Str
  import opened Wrappers

  // ---------- std::regex, as far as compiled globs use it ----------

  /** Characters that mean something else to a regex; patterns with them are not modelled. */
  const METACHARACTERS := "^$\\+?()[]{}|"

  predicate Modelled(pattern: string) {
    forall c | c in pattern :: c !in METACHARACTERS
  }

  datatype Atom = Literal(c: char) | AnyChar
  datatype Piece = One(a: Atom) | Star(a: Atom)

  predicate Accepts(a: Atom, c: char) {
    match a
    case Literal(l) => c == l
    case AnyChar => c != '\n' && c != '\r'
  }

  function AtomOf(c: char): Atom { if c == '.' then AnyChar else Literal(c) }

  /** The pieces of a regex; None when a `*` has nothing to repeat. */
  function ParseRegex(r: string): Option<seq<Piece>> {
    if r == "" then Some([])
    else if r[0] == '*' then None
    else if |r| > 1 && r[1] == '*' then
      match ParseRegex(r[2..])
      case None => None
      case Some(rest) => Some([Star(AtomOf(r[0]))] + rest)
    else
      match ParseRegex(r[1..])
      case None => None
      case Some(rest) => Some([One(AtomOf(r[0]))] + rest)
  }

  /** regex_match: the pieces match the whole of s. */
  predicate MatchPieces(ps: seq<Piece>, s: string)
    decreases |ps|, |s|
  {
    if ps == [] then s == ""
    else match ps[0]
      case One(a) => s != "" && Accepts(a, s[0]) && MatchPieces(ps[1..], s[1..])
      case Star(a) => MatchPieces(ps[1..], s) || (s != "" && Accepts(a, s[0]) && MatchPieces(ps, s[1..]))
  }

  predicate RegexMatch(regex: string, s: string) {
    var ps := ParseRegex(regex);
    ps.Some? && MatchPieces(ps.value, s)
  }

  // ---------- globs ----------

  /** `*` stands for any text, every other character for itself. */
  predicate GlobMatch(glob: string, s: string)
    decreases |glob|
  {
    if glob == "" then s == ""
    else if glob[0] == '*' then exists k | 0 <= k <= |s| :: GlobMatch(glob[1..], s[k..])
    else s != "" && s[0] == glob[0] && GlobMatch(glob[1..], s[1..])
  }

  /** Each `*` becomes `.*`. */
  function GlobToRegex(glob: string): string {
    if glob == "" then "" else (if glob[0] == '*' then ".*" else [glob[0]]) + GlobToRegex(glob[1..])
  }

  lemma NextOfGlob(front: string, rest: string)
    requires rest != ""
    ensures front + GlobToRegex(rest) == (front + if rest[0] == '*' then ".*" else [rest[0]]) + GlobToRegex(rest[1..])
  {
    Assoc(front, if rest[0] == '*' then ".*" else [rest[0]], GlobToRegex(rest[1..]));
  }

  /** A dot inserted in front of a star. */
  lemma Inserted(r: string, iter: nat)
    requires iter < |r| && r[iter] == '*'
    ensures var s := r[..iter] + ['.'] + r[iter..];
            |s| == |r| + 1 && s[..iter + 2] == r[..iter] + ".*" && s[iter + 2..] == r[iter + 1..]
  {
  }

  lemma Advanced(r: string, iter: nat, uri: string, done: nat)
    requires iter < |r| && done <= |uri| && r[iter..] == uri[done..]
    ensures done < |uri| && uri[done..][0] == r[iter] && uri[done..][1..] == uri[done + 1..] == r[iter + 1..]
    ensures r[..iter + 1] == r[..iter] + [r[iter]]
  {
    assert r[iter..][0] == r[iter] && r[iter..][1..] == r[iter + 1..];
  }

  /** The loop of RegisterRequestHandler, inserting into the string it scans. */
  method CompileGlob(uri: string) returns (r: string)
    ensures r == GlobToRegex(uri)
  {
    r := uri;
    var iter := 0;
    ghost var done := 0;
    while iter != |r|
      invariant 0 <= done <= |uri| && 0 <= iter <= |r|
      invariant r[iter..] == uri[done..]
      invariant r[..iter] + GlobToRegex(uri[done..]) == GlobToRegex(uri)
      decreases |r| - iter
    {
      Advanced(r, iter, uri, done);
      NextOfGlob(r[..iter], uri[done..]);
      if r[iter] == '*' {
        Inserted(r, iter);
        r := r[..iter] + ['.'] + r[iter..];
        iter := iter + 1;
      }
      iter := iter + 1;
      done := done + 1;
    }
    assert r[..iter] == r;
    assert uri[done..] == "" by { assert |uri[done..]| == |r[iter..]| == 0; }
    assert r + "" == r;
  }

  // ---------- std::map<std::string, RequestHandler>: entries in key order ----------

  /** std::less on strings. */
  predicate Less(a: string, b: string) {
    b != "" && (a == "" || a[0] < b[0] || (a[0] == b[0] && Less(a[1..], b[1..])))
  }

  type Table<H> = seq<(string, H)>

  predicate Sorted<H>(t: Table<H>) {
    forall i, j | 0 <= i < j < |t| :: Less(t[i].0, t[j].0)
  }

  /** table[key] = h. */
  function Put<H>(t: Table<H>, key: string, h: H): Table<H> {
    if t == [] || Less(key, t[0].0) then [(key, h)] + t
    else if t[0].0 == key then [(key, h)] + t[1..]
    else [t[0]] + Put(t[1..], key, h)
  }

  /** The first entry whose regex matches the URI, read as a C string. */
  function Find<H>(t: Table<H>, uri: string): (r: nat)
    ensures r <= |t|
    ensures r < |t| ==> RegexMatch(t[r].0, CString(uri, 0))
    ensures forall i | 0 <= i < r :: !RegexMatch(t[i].0, CString(uri, 0))
  {
    if t == [] || RegexMatch(t[0].0, CString(uri, 0)) then 0 else
      var i := Find(t[1..], uri);
      assert forall k | 0 < k < i + 1 :: t[k] == t[1..][k - 1];
      i + 1
  }

  /** The part of Server that holds the routes. */
  class RouteTable<H> {
    var requestHandlers: Table<H>

    constructor ()
      ensures requestHandlers == []
    {
      requestHandlers := [];
    }

    method RegisterRequestHandler(uri: string, handler: H)
      modifies this
      ensures requestHandlers == Put(old(requestHandlers), GlobToRegex(uri), handler)
    {
      var copy := CompileGlob(uri);
      requestHandlers := Put(requestHandlers, copy, handler);
    }

    /** The index of the handler; the number of entries stands for end(). */
    method FindRequestHandler(uri: string) returns (r: nat)
      ensures r == Find(requestHandlers, uri)
      ensures r <= |requestHandlers|
      ensures r < |requestHandlers| ==> RegexMatch(requestHandlers[r].0, CString(uri, 0))
      ensures forall i | 0 <= i < r :: !RegexMatch(requestHandlers[i].0, CString(uri, 0))
    {
      var s := CString(uri, 0);
      r := 0;
      while r < |requestHandlers|
        invariant r <= |requestHandlers|
        invariant forall i | 0 <= i < r :: !RegexMatch(requestHandlers[i].0, s)
        invariant Find(requestHandlers, uri) == r + Find(requestHandlers[r..], uri)
      {
        if RegexMatch(requestHandlers[r].0, s) {
          break;
        }
        assert requestHandlers[r..][1..] == requestHandlers[r + 1..];
        r := r + 1;
      }
    }
  }
}
