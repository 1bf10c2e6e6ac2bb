/** Glob compilation preserves matching, and lookup does not depend on registration order. */
module RouterLaws {
  import opened Str
  import opened Wrappers
  import opened Router

  // ---------- the shape of a compiled glob ----------

  /** In the result every `*` follows a `.`. */
  lemma {:induction false} StarsFollowDots(glob: string)
    ensures var r := GlobToRegex(glob);
            (r != "" ==> r[0] != '*') && forall i | 0 < i < |r| && r[i] == '*' :: r[i - 1] == '.'
  {
    if glob != "" {
      StarsFollowDots(glob[1..]);
      var head := if glob[0] == '*' then ".*" else [glob[0]];
      var rest := GlobToRegex(glob[1..]);
      var r := GlobToRegex(glob);
      assert r == head + rest;
      assert rest != "" ==> r[|head|] == rest[0];
      forall i | 0 < i < |r| && r[i] == '*' ensures r[i - 1] == '.' {
        if i > |head| { assert rest[i - |head|] == '*' && r[i - 1] == rest[i - |head| - 1]; }
      }
    }
  }

  /** The glob a regex came from. */
  function RegexToGlob(regex: string): string {
    if regex == "" then ""
    else if |regex| > 1 && regex[0] == '.' && regex[1] == '*' then "*" + RegexToGlob(regex[2..])
    else [regex[0]] + RegexToGlob(regex[1..])
  }

  lemma {:induction false} GlobRoundTrip(glob: string)
    ensures RegexToGlob(GlobToRegex(glob)) == glob
  {
    if glob != "" {
      var rest := GlobToRegex(glob[1..]);
      GlobRoundTrip(glob[1..]);
      StarsFollowDots(glob[1..]);
      if glob[0] == '*' {
        assert GlobToRegex(glob)[2..] == rest;
      } else {
        assert GlobToRegex(glob)[1..] == rest;
        assert |rest| > 0 ==> GlobToRegex(glob)[1] == rest[0];
      }
      assert glob == [glob[0]] + glob[1..];
    }
  }

  /** Distinct patterns never share a key. */
  lemma GlobToRegexInjective(g: string, h: string)
    requires GlobToRegex(g) == GlobToRegex(h)
    ensures g == h
  {
    GlobRoundTrip(g);
    GlobRoundTrip(h);
  }

  function PiecesOf(glob: string): (r: seq<Piece>)
    ensures |r| == |glob|
  {
    if glob == "" then []
    else [if glob[0] == '*' then Star(AnyChar) else One(AtomOf(glob[0]))] + PiecesOf(glob[1..])
  }

  lemma {:induction false} CompiledPieces(glob: string)
    ensures ParseRegex(GlobToRegex(glob)) == Some(PiecesOf(glob))
  {
    if glob != "" {
      var r, rest := GlobToRegex(glob), GlobToRegex(glob[1..]);
      CompiledPieces(glob[1..]);
      StarsFollowDots(glob[1..]);
      if glob[0] == '*' {
        assert r[2..] == rest;
      } else {
        assert r[1..] == rest;
        assert |rest| > 0 ==> r[1] == rest[0];
      }
    }
  }

  // ---------- the two semantics ----------

  predicate OneLineText(s: string) { '\n' !in s && '\r' !in s }

  /** `.*` takes any number of characters that are not line terminators. */
  lemma {:induction false} StarMatches(rest: seq<Piece>, s: string)
    ensures MatchPieces([Star(AnyChar)] + rest, s) <==>
            exists k | 0 <= k <= |s| :: OneLineText(s[..k]) && MatchPieces(rest, s[k..])
    decreases |s|
  {
    var ps := [Star(AnyChar)] + rest;
    assert ps[1..] == rest;
    assert s[0..] == s && s[..0] == "";
    if s != "" {
      StarMatches(rest, s[1..]);
      if Accepts(AnyChar, s[0]) && MatchPieces(ps, s[1..]) {
        var k :| 0 <= k <= |s[1..]| && OneLineText(s[1..][..k]) && MatchPieces(rest, s[1..][k..]);
        assert s[1..][k..] == s[k + 1..] && s[..k + 1] == [s[0]] + s[1..][..k];
      }
      if exists k | 0 < k <= |s| :: OneLineText(s[..k]) && MatchPieces(rest, s[k..]) {
        var k :| 0 < k <= |s| && OneLineText(s[..k]) && MatchPieces(rest, s[k..]);
        assert s[1..][k - 1..] == s[k..] && s[..k] == [s[0]] + s[1..][..k - 1];
        assert s[0] in s[..k];
        forall c | c in s[1..][..k - 1] ensures c in s[..k] {}
      }
    }
  }

  lemma OneLineSlices(s: string, k: nat)
    requires OneLineText(s) && k <= |s|
    ensures OneLineText(s[..k]) && OneLineText(s[k..])
  {
  }

  /** What the glob matches, the compiled regex matches too, on text without line ends. */
  lemma {:induction false} GlobImpliesPieces(glob: string, s: string)
    requires OneLineText(s) && GlobMatch(glob, s)
    ensures MatchPieces(PiecesOf(glob), s)
    decreases |glob|
  {
    if glob != "" {
      var rest := glob[1..];
      assert PiecesOf(glob)[1..] == PiecesOf(rest);
      if glob[0] == '*' {
        var k :| 0 <= k <= |s| && GlobMatch(rest, s[k..]);
        OneLineSlices(s, k);
        GlobImpliesPieces(rest, s[k..]);
        StarMatches(PiecesOf(rest), s);
      } else {
        OneLineSlices(s, 1);
        assert s[0] in s;
        GlobImpliesPieces(rest, s[1..]);
      }
    }
  }

  /** Without dots in the glob, the converse holds on every text. */
  lemma {:induction false} PiecesImplyGlob(glob: string, s: string)
    requires '.' !in glob && MatchPieces(PiecesOf(glob), s)
    ensures GlobMatch(glob, s)
    decreases |glob|
  {
    if glob != "" {
      var rest := glob[1..];
      assert PiecesOf(glob)[1..] == PiecesOf(rest);
      assert glob[0] in glob && '.' !in rest;
      if glob[0] == '*' {
        StarMatches(PiecesOf(rest), s);
        var k :| 0 <= k <= |s| && OneLineText(s[..k]) && MatchPieces(PiecesOf(rest), s[k..]);
        PiecesImplyGlob(rest, s[k..]);
      } else {
        PiecesImplyGlob(rest, s[1..]);
      }
    }
  }

  /** The glob with every `*` replaced by a text, and every `.` by another character. */
  function Instance(glob: string, star: string, dot: char): string {
    if glob == "" then ""
    else (if glob[0] == '*' then star else if glob[0] == '.' then [dot] else [glob[0]])
         + Instance(glob[1..], star, dot)
  }

  lemma {:induction false} InstanceMatchesPieces(glob: string, dot: char)
    requires dot != '\n' && dot != '\r'
    ensures MatchPieces(PiecesOf(glob), Instance(glob, "", dot))
  {
    if glob != "" {
      var rest := glob[1..];
      InstanceMatchesPieces(rest, dot);
      assert PiecesOf(glob)[1..] == PiecesOf(rest);
      var s := Instance(glob, "", dot);
      if glob[0] == '*' { assert s == Instance(rest, "", dot); }
      else { assert s[1..] == Instance(rest, "", dot); }
    }
  }

  lemma {:induction false} InstanceChars(glob: string, c: char)
    requires c in Instance(glob, "", 'x')
    ensures c == 'x' || (c in glob && c != '.')
  {
    if glob != "" && c in Instance(glob[1..], "", 'x') { InstanceChars(glob[1..], c); }
  }

  /** A glob with a dot needs a dot in the text. */
  lemma {:induction false} GlobNeedsDot(glob: string, s: string)
    requires '.' in glob && GlobMatch(glob, s)
    ensures '.' in s
    decreases |glob|
  {
    var rest := glob[1..];
    if glob[0] == '*' {
      var k :| 0 <= k <= |s| && GlobMatch(rest, s[k..]);
      GlobNeedsDot(rest, s[k..]);
    } else if glob[0] != '.' {
      GlobNeedsDot(rest, s[1..]);
    }
  }

  /** Compiling a glob preserves its meaning on every one-line URI exactly when it holds no
      dot: a dot of the pattern is not escaped and matches any character. */
  lemma CompiledGlobMatchesIff(glob: string)
    requires Modelled(glob) && OneLineText(glob)
    ensures (forall uri | OneLineText(uri) :: RegexMatch(GlobToRegex(glob), uri) == GlobMatch(glob, uri))
            <==> '.' !in glob
  {
    CompiledPieces(glob);
    if '.' !in glob {
      forall uri | OneLineText(uri) ensures RegexMatch(GlobToRegex(glob), uri) == GlobMatch(glob, uri) {
        if GlobMatch(glob, uri) { GlobImpliesPieces(glob, uri); }
        else if MatchPieces(PiecesOf(glob), uri) { PiecesImplyGlob(glob, uri); }
      }
    } else {
      var uri := Instance(glob, "", 'x');
      InstanceMatchesPieces(glob, 'x');
      forall c | c in uri ensures c != '\n' && c != '\r' && c != '.' { InstanceChars(glob, c); }
      if GlobMatch(glob, uri) { GlobNeedsDot(glob, uri); }
      assert RegexMatch(GlobToRegex(glob), uri) && !GlobMatch(glob, uri);
    }
  }

  // ---------- URIs with line ends ----------

  function LineEnds(s: string): nat {
    if s == "" then 0 else (if s[0] == '\n' || s[0] == '\r' then 1 else 0) + LineEnds(s[1..])
  }

  function Stars(s: string): nat {
    if s == "" then 0 else (if s[0] == '*' then 1 else 0) + Stars(s[1..])
  }

  lemma {:induction false} PiecesKeepLineEnds(glob: string, s: string)
    requires MatchPieces(PiecesOf(glob), s)
    ensures LineEnds(s) == LineEnds(glob)
    decreases |glob|, |s|
  {
    if glob != "" {
      assert PiecesOf(glob)[1..] == PiecesOf(glob[1..]);
      if glob[0] == '*' && MatchPieces(PiecesOf(glob[1..]), s) {
        PiecesKeepLineEnds(glob[1..], s);
      } else if glob[0] == '*' {
        PiecesKeepLineEnds(glob, s[1..]);
      } else {
        PiecesKeepLineEnds(glob[1..], s[1..]);
      }
    }
  }

  lemma {:induction false} LineEndInstance(glob: string)
    requires '.' !in glob
    ensures GlobMatch(glob, Instance(glob, "\n", 'x'))
    ensures LineEnds(Instance(glob, "\n", 'x')) == LineEnds(glob) + Stars(glob)
  {
    if glob != "" {
      assert glob[0] in glob;
      var rest := glob[1..];
      LineEndInstance(rest);
      var s := Instance(glob, "\n", 'x');
      assert s[1..] == Instance(rest, "\n", 'x');
    }
  }

  lemma {:induction false} StarCounts(glob: string)
    ensures '*' in glob <==> Stars(glob) > 0
  {
    if glob != "" { StarCounts(glob[1..]); }
  }

  lemma {:induction false} PlainGlobPieces(glob: string, s: string)
    requires '.' !in glob && '*' !in glob && GlobMatch(glob, s)
    ensures MatchPieces(PiecesOf(glob), s)
  {
    if glob != "" {
      assert glob[0] in glob;
      assert PiecesOf(glob)[1..] == PiecesOf(glob[1..]);
      PlainGlobPieces(glob[1..], s[1..]);
    }
  }

  /** The restriction to one-line URIs is needed exactly for patterns with a `*`: it does not
      match across a line end. */
  lemma CompiledGlobMatchesAnyUriIff(glob: string)
    requires Modelled(glob) && '.' !in glob
    ensures (forall uri :: RegexMatch(GlobToRegex(glob), uri) == GlobMatch(glob, uri)) <==> '*' !in glob
  {
    CompiledPieces(glob);
    StarCounts(glob);
    if '*' in glob {
      var uri := Instance(glob, "\n", 'x');
      LineEndInstance(glob);
      if MatchPieces(PiecesOf(glob), uri) { PiecesKeepLineEnds(glob, uri); }
      assert GlobMatch(glob, uri) && !RegexMatch(GlobToRegex(glob), uri);
    } else {
      forall uri ensures RegexMatch(GlobToRegex(glob), uri) == GlobMatch(glob, uri) {
        if GlobMatch(glob, uri) { PlainGlobPieces(glob, uri); }
        else if MatchPieces(PiecesOf(glob), uri) { PiecesImplyGlob(glob, uri); }
      }
    }
  }

  // ---------- the ordered table ----------

  lemma {:induction false} LessIsOrder(a: string, b: string)
    ensures !Less(a, a)
    ensures a == b || Less(a, b) || Less(b, a)
    ensures !(Less(a, b) && Less(b, a))
  {
    if a != "" && b != "" {
      LessIsOrder(a[1..], b[1..]);
      assert a == [a[0]] + a[1..] && b == [b[0]] + b[1..];
    } else if a != "" {
      LessIsOrder(a[1..], "");
    }
  }

  /** a is a proper prefix of b, or has the smaller character where they first differ. */
  predicate Before(a: string, b: string) {
    || (|a| < |b| && b[..|a|] == a)
    || exists i | 0 <= i < |a| && i < |b| :: a[..i] == b[..i] && a[i] < b[i]
  }

  lemma BeforeTail(a: string, b: string)
    requires a != "" && b != "" && a[0] == b[0]
    ensures Before(a, b) <==> Before(a[1..], b[1..])
  {
    var x, y := a[1..], b[1..];
    assert a == [a[0]] + x && b == [b[0]] + y;
    if |a| < |b| { assert b[..|a|] == [b[0]] + y[..|x|]; }
    forall i | 0 <= i < |x| && i < |y| ensures x[..i] == y[..i] <==> a[..i + 1] == b[..i + 1] {
      assert a[..i + 1] == [a[0]] + x[..i] && b[..i + 1] == [b[0]] + y[..i];
      assert a[..i + 1][1..] == x[..i] && b[..i + 1][1..] == y[..i];
    }
    if i :| 0 <= i < |a| && i < |b| && a[..i] == b[..i] && a[i] < b[i] {
      assert x[..i - 1] == y[..i - 1] && x[i - 1] < y[i - 1];
    }
    if i :| 0 <= i < |x| && i < |y| && x[..i] == y[..i] && x[i] < y[i] {
      assert a[..i + 1] == b[..i + 1] && a[i + 1] < b[i + 1];
    }
  }

  /** The order of the keys is the lexicographic one. */
  lemma {:induction false} LessIff(a: string, b: string)
    ensures Less(a, b) <==> Before(a, b)
  {
    if a == "" || b == "" {
      assert b[..0] == "";
    } else if a[0] == b[0] {
      BeforeTail(a, b);
      LessIff(a[1..], b[1..]);
    } else {
      DifferAtOnce(a, b);
    }
  }

  lemma DifferAtOnce(a: string, b: string)
    requires a != "" && b != "" && a[0] != b[0]
    ensures Before(a, b) <==> a[0] < b[0]
  {
    assert a[..0] == b[..0];
    forall i | 0 < i <= |a| && i <= |b| ensures a[..i] != b[..i] {
      assert a[..i][0] != b[..i][0];
    }
    assert a[..|a|] == a;
  }

  lemma {:induction false} LessTransitive(a: string, b: string, c: string)
    requires Less(a, b) && Less(b, c)
    ensures Less(a, c)
  {
    if a != "" && a[0] == b[0] == c[0] { LessTransitive(a[1..], b[1..], c[1..]); }
  }

  function AsMap<H>(t: Table<H>): map<string, H> {
    if t == [] then map[] else AsMap(t[1..])[t[0].0 := t[0].1]
  }

  /** Every key of a sorted table comes behind the first one. */
  lemma {:induction false} KeysOf<H>(t: Table<H>, k: string)
    ensures k in AsMap(t) <==> exists i | 0 <= i < |t| :: t[i].0 == k
  {
    if t != [] {
      KeysOf(t[1..], k);
      if exists i | 0 <= i < |t| :: t[i].0 == k {
        var i :| 0 <= i < |t| && t[i].0 == k;
        assert i > 0 ==> t[1..][i - 1].0 == k;
      }
      if exists i | 0 <= i < |t[1..]| :: t[1..][i].0 == k {
        var i :| 0 <= i < |t[1..]| && t[1..][i].0 == k;
        assert t[i + 1].0 == k;
      }
    }
  }

  lemma SortedTail<H>(t: Table<H>)
    requires Sorted(t) && t != []
    ensures Sorted(t[1..])
    ensures forall k | k in AsMap(t[1..]) :: Less(t[0].0, k)
  {
    forall i, j | 0 <= i < j < |t[1..]| ensures Less(t[1..][i].0, t[1..][j].0) {
      assert t[1..][i] == t[i + 1] && t[1..][j] == t[j + 1];
    }
    forall k | k in AsMap(t[1..]) ensures Less(t[0].0, k) {
      KeysOf(t[1..], k);
      var i :| 0 <= i < |t[1..]| && t[1..][i].0 == k;
      assert t[i + 1].0 == k;
    }
  }

  lemma SortedCons<H>(e: (string, H), t: Table<H>)
    requires Sorted(t) && forall k | k in AsMap(t) :: Less(e.0, k)
    ensures Sorted([e] + t)
  {
    forall i | 0 <= i < |t| ensures Less(e.0, t[i].0) { KeysOf(t, t[i].0); }
  }

  /** operator[] keeps the order and updates the map. */
  lemma {:induction false} PutUpdates<H>(t: Table<H>, key: string, h: H)
    requires Sorted(t)
    ensures Sorted(Put(t, key, h)) && AsMap(Put(t, key, h)) == AsMap(t)[key := h]
  {
    if t == [] {
    } else {
      SortedTail(t);
      LessIsOrder(key, t[0].0);
      if Less(key, t[0].0) {
        forall k | k in AsMap(t) ensures Less(key, k) {
          if k != t[0].0 { LessTransitive(key, t[0].0, k); }
        }
        SortedCons((key, h), t);
        assert ([(key, h)] + t)[1..] == t;
      } else if t[0].0 == key {
        SortedCons((key, h), t[1..]);
        assert ([(key, h)] + t[1..])[1..] == t[1..];
      } else {
        PutUpdates(t[1..], key, h);
        var rest := Put(t[1..], key, h);
        SortedCons(t[0], rest);
        assert ([t[0]] + rest)[1..] == rest;
      }
    }
  }

  lemma EmptyTable<H>(t: Table<H>)
    ensures t == [] <==> AsMap(t) == map[]
  {
    if t != [] { assert t[0].0 in AsMap(t); }
  }

  /** A sorted table is determined by its map. */
  lemma {:induction false} SortedUnique<H>(s: Table<H>, t: Table<H>)
    requires Sorted(s) && Sorted(t) && AsMap(s) == AsMap(t)
    ensures s == t
  {
    EmptyTable(s);
    EmptyTable(t);
    if s != [] && t != [] {
      SortedTail(s);
      SortedTail(t);
      var a, b := s[0].0, t[0].0;
      assert a in AsMap(t) && b in AsMap(s);
      LessIsOrder(a, b);
      assert a == b;
      assert a !in AsMap(s[1..]) by { LessIsOrder(a, a); }
      assert a !in AsMap(t[1..]) by { LessIsOrder(a, a); }
      assert AsMap(s[1..]) == AsMap(s) - {a};
      assert AsMap(t[1..]) == AsMap(t) - {a};
      SortedUnique(s[1..], t[1..]);
    }
  }

  /** The table after a sequence of registrations, the last one at the end. */
  function Registered<H>(regs: Table<H>): Table<H> {
    if regs == [] then []
    else Put(Registered(regs[..|regs| - 1]), GlobToRegex(regs[|regs| - 1].0), regs[|regs| - 1].1)
  }

  predicate DistinctPatterns<H>(regs: Table<H>) {
    forall i, j | 0 <= i < j < |regs| :: regs[i].0 != regs[j].0
  }

  /** The map holds exactly the registered pairs. */
  ghost predicate Holds<H>(m: map<string, H>, regs: Table<H>) {
    && (forall r | r in regs :: GlobToRegex(r.0) in m && m[GlobToRegex(r.0)] == r.1)
    && (forall k | k in m :: (RegexToGlob(k), m[k]) in regs && GlobToRegex(RegexToGlob(k)) == k)
  }

  lemma HoldsOneMore<H>(m: map<string, H>, regs: Table<H>, p: string, h: H)
    requires Holds(m, regs) && forall r | r in regs :: r.0 != p
    ensures Holds(m[GlobToRegex(p) := h], regs + [(p, h)])
  {
    var key := GlobToRegex(p);
    GlobRoundTrip(p);
    forall r | r in regs ensures GlobToRegex(r.0) != key {
      if GlobToRegex(r.0) == key { GlobToRegexInjective(r.0, p); }
    }
    var m', regs' := m[key := h], regs + [(p, h)];
    forall k | k in m' ensures (RegexToGlob(k), m'[k]) in regs' && GlobToRegex(RegexToGlob(k)) == k {
      if k != key { assert (RegexToGlob(k), m[k]) in regs; }
    }
  }

  lemma FrontDistinct<H>(regs: Table<H>)
    requires regs != [] && DistinctPatterns(regs)
    ensures DistinctPatterns(regs[..|regs| - 1])
    ensures forall r | r in regs[..|regs| - 1] :: r.0 != regs[|regs| - 1].0
  {
    var front, last := regs[..|regs| - 1], regs[|regs| - 1];
    forall r | r in front ensures r.0 != last.0 {
      var i :| 0 <= i < |front| && front[i] == r;
      assert regs[i].0 != last.0;
    }
  }

  lemma {:induction false} RegisteredMap<H>(regs: Table<H>)
    requires DistinctPatterns(regs)
    ensures Sorted(Registered(regs)) && Holds(AsMap(Registered(regs)), regs)
  {
    if regs != [] {
      var front, last := regs[..|regs| - 1], regs[|regs| - 1];
      RegisteredMap(front);
      PutUpdates(Registered(front), GlobToRegex(last.0), last.1);
      FrontDistinct(regs);
      HoldsOneMore(AsMap(Registered(front)), front, last.0, last.1);
      assert regs == front + [(last.0, last.1)];
    }
  }

  lemma SameRegisteredMap<H>(regs1: Table<H>, regs2: Table<H>)
    requires DistinctPatterns(regs1) && DistinctPatterns(regs2) && forall r :: r in regs1 <==> r in regs2
    ensures AsMap(Registered(regs1)) == AsMap(Registered(regs2))
  {
    RegisteredMap(regs1);
    RegisteredMap(regs2);
    var m1, m2 := AsMap(Registered(regs1)), AsMap(Registered(regs2));
    forall k | k in m1 ensures k in m2 && m2[k] == m1[k] {
      assert (RegexToGlob(k), m1[k]) in regs2;
    }
    forall k | k in m2 ensures k in m1 {
      assert (RegexToGlob(k), m2[k]) in regs1;
    }
  }

  lemma SameElements<T>(a: seq<T>, b: seq<T>)
    requires multiset(a) == multiset(b)
    ensures forall r :: r in a <==> r in b
  {
    forall r ensures r in a <==> r in b {
      assert r in a <==> r in multiset(a);
      assert r in b <==> r in multiset(b);
    }
  }

  /** Distinct patterns may be registered in any order: the table, and so the answer for
      every URI, is the same. */
  lemma RegistrationOrderIrrelevant<H>(regs1: Table<H>, regs2: Table<H>, uri: string)
    requires DistinctPatterns(regs1) && DistinctPatterns(regs2) && multiset(regs1) == multiset(regs2)
    ensures Registered(regs1) == Registered(regs2)
    ensures Find(Registered(regs1), uri) == Find(Registered(regs2), uri)
  {
    SameElements(regs1, regs2);
    SameRegisteredMap(regs1, regs2);
    RegisteredMap(regs1);
    RegisteredMap(regs2);
    SortedUnique(Registered(regs1), Registered(regs2));
  }

  /** The answer is the least key that matches: the one registered glob that matches the URI
      and compiles to the smallest regex. */
  lemma FindIsLeast<H>(t: Table<H>, uri: string)
    requires Sorted(t)
    ensures var r := Find(t, uri);
            && (r == |t| <==> forall k | k in AsMap(t) :: !RegexMatch(k, CString(uri, 0)))
            && (r < |t| ==> RegexMatch(t[r].0, CString(uri, 0))
                            && forall k | k in AsMap(t) && RegexMatch(k, CString(uri, 0)) :: k == t[r].0 || Before(t[r].0, k))
  {
    var r := Find(t, uri);
    forall k | k in AsMap(t) && RegexMatch(k, CString(uri, 0)) ensures r < |t| && (k == t[r].0 || Before(t[r].0, k)) {
      KeysOf(t, k);
      var i :| 0 <= i < |t| && t[i].0 == k;
      LessIff(t[r].0, k);
    }
    if r < |t| { KeysOf(t, t[r].0); }
  }
}
