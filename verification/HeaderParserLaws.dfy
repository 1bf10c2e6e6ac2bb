/** What the scanning loops of the header parser compute, said without the loops. */
module HeaderParserLaws {
  import opened Str
  import opened Wrappers
  import opened HeaderParser

  /** A line as PopLine hands it out, without embedded NULs. */
  predicate ProperLine(line: string) {
    |line| >= 2 && line[|line| - 2..] == "\r\n" && '\0' !in line
  }

  /** On the rest of a proper line icase_cmp is the prefix test. */
  lemma CompareOnProperLine(line: string, k: nat, word: string)
    requires ProperLine(line) && k < |line| && '\n' !in word
    ensures CString(line, k) == line[k..]
    ensures IcaseCmp(CString(line, k), word) == IcasePrefix(line[k..], word)
  {
    CStringNulFree(line, k);
    assert line[|line| - 2..][1] == '\n';
    IcaseCmpOnLine(line[k..], word);
  }

  /** A header name fits in front of the CR LF. */
  lemma NameEndsBeforeCrlf(line: string, k: nat, name: string)
    requires ProperLine(line) && k < |line| && name != "" && IcasePrefix(line[k..], name)
    requires forall i | 0 <= i < |name| :: Lower(name[i]) != '\r' && Lower(name[i]) != '\n'
    ensures k + |name| <= |line| - 2
  {
    assert line[|line| - 2..][0] == '\r' && line[|line| - 2..][1] == '\n';
    forall i | 0 <= i < |name| ensures line[k..][i] != '\r' && line[k..][i] != '\n' {
      assert Lower(line[k..][i]) == Lower(name[i]);
    }
    assert line[k..][|name| - 1] == line[k + |name| - 1];
    assert k + |name| < |line| by { assert k + |name| <= |line|; }
  }

  /** The word occurs, in any letter case, at some position of the line from `from` on. */
  predicate Occurs(line: string, word: string, from: nat) {
    exists i | from <= i < |line| :: IcasePrefix(line[i..], word)
  }

  lemma MentionsOnProperLine(line: string, from: nat)
    requires ProperLine(line)
    ensures MentionsWebsocket(line, from) == Occurs(line, UPGRADE_WS, from)
  {
    forall i | from <= i < |line|
      ensures WebsocketAt(line, i) == IcasePrefix(line[i..], UPGRADE_WS)
    {
      CompareOnProperLine(line, i, UPGRADE_WS);
    }
  }

  lemma ClassifyUpgrade(line: string, k: nat)
    requires ProperLine(line) && k < |line| && IcasePrefix(line[k..], UPGRADE_KEY)
    ensures Classify(CString(line, k)) == UpgradeHeader && line != "\r\n"
  {
    NameEndsBeforeCrlf(line, k, UPGRADE_KEY);
    CompareOnProperLine(line, k, UPGRADE_KEY);
    CompareOnProperLine(line, k, CONTENT_LENGTH_KEY);
    assert Lower(line[k..][0]) == 'u';
  }

  lemma UpgradeBranch(p: Parser, line: string, k: nat, found: bool)
    requires p.state == Headers && found == MentionsWebsocket(line, k + |UPGRADE_KEY| + 1)
    ensures Branch(p, line, k, UpgradeHeader) ==
            p.(upgradeFlags := p.upgradeFlags + if found then {UpgradeWebSocket} else {})
  {
  }

  lemma TakesBranch(p: Parser, line: string)
    requires p.state == Headers && line != "\r\n"
    ensures var k := IndexFrom(line, 0, NotSpace);
            Push(p, line) == Branch(p, line, k, Classify(CString(line, k)))
  {
  }

  /** The Upgrade branch: the flag is raised exactly when "websocket" occurs, in any case,
      at some position behind the character that follows the colon. */
  lemma UpgradeLine(p: Parser, line: string, k: nat)
    requires p.state == Headers && ProperLine(line)
    requires k == IndexFrom(line, 0, NotSpace) && k < |line| && IcasePrefix(line[k..], "upgrade:")
    ensures Push(p, line) == p.(upgradeFlags := p.upgradeFlags +
                                if Occurs(line, "websocket", k + 9) then {UpgradeWebSocket} else {})
  {
    ClassifyUpgrade(line, k);
    TakesBranch(p, line);
    MentionsOnProperLine(line, k + |UPGRADE_KEY| + 1);
    UpgradeBranch(p, line, k, Occurs(line, UPGRADE_WS, k + |UPGRADE_KEY| + 1));
  }

  // ---------- the Connection loop as a small machine ----------

  datatype LoopState = Running(pos: nat, flags: set<ConnectionFlag>) | Left(flags: set<ConnectionFlag>)

  function LoopStep(line: string, st: LoopState): LoopState {
    if st.Left? then st
    else match ConnectionRound(line, st.pos)
      case Finished => Left(st.flags)
      case Found(t, next) => Running(next, st.flags + {t})
      case Unrecognised(next) => Running(next, st.flags)
  }

  function Loop(line: string, st: LoopState, rounds: nat): LoopState
    decreases rounds
  {
    if rounds == 0 then st else Loop(line, LoopStep(line, st), rounds - 1)
  }

  lemma {:induction false} LoopLeavesIn(line: string, st: LoopState) returns (rounds: nat)
    requires st.Running? && ConnectionFlagsFrom(line, st.pos).Some?
    ensures Loop(line, st, rounds) == Left(st.flags + ConnectionFlagsFrom(line, st.pos).value)
    decreases if st.pos <= |line| then |line| - st.pos else 0
  {
    var r := ConnectionRound(line, st.pos);
    if r.Finished? {
      rounds := 1;
      assert Loop(line, st, 1) == Loop(line, LoopStep(line, st), 0);
      assert st.flags + {} == st.flags;
    } else {
      var n := LoopLeavesIn(line, LoopStep(line, st));
      rounds := n + 1;
      var more := ConnectionFlagsFrom(line, r.next).value;
      assert st.flags + {r.flag} + more == st.flags + ({r.flag} + more);
    }
  }

  /** Where no token is recognised the next round starts at the same character. */
  lemma UnrecognisedStays(line: string, pos: nat)
    requires ConnectionRound(line, pos).Unrecognised?
    ensures ConnectionFlagsFrom(line, ConnectionRound(line, pos).next).None?
  {
    var i := ConnectionRound(line, pos).next;
    assert IndexFrom(line, i, NotSpace) == i;
  }

  lemma StepNeverLeaves(line: string, st: LoopState)
    requires st.Running? && ConnectionFlagsFrom(line, st.pos).None?
    ensures LoopStep(line, st).Running? && ConnectionFlagsFrom(line, LoopStep(line, st).pos).None?
  {
    if ConnectionRound(line, st.pos).Unrecognised? { UnrecognisedStays(line, st.pos); }
  }

  /** What every round keeps, all rounds keep. */
  lemma {:induction false} LoopKeeps(line: string, st: LoopState, rounds: nat, inv: LoopState -> bool)
    requires inv(st) && forall s | inv(s) :: inv(LoopStep(line, s))
    ensures inv(Loop(line, st, rounds))
    decreases rounds
  {
    if rounds > 0 { LoopKeeps(line, LoopStep(line, st), rounds - 1, inv); }
  }

  lemma LoopNeverLeaves(line: string, st: LoopState, rounds: nat)
    requires st.Running? && ConnectionFlagsFrom(line, st.pos).None?
    ensures Loop(line, st, rounds).Running?
  {
    var inv := (s: LoopState) => s.Running? && ConnectionFlagsFrom(line, s.pos).None?;
    forall s | inv(s) ensures inv(LoopStep(line, s)) { StepNeverLeaves(line, s); }
    LoopKeeps(line, st, rounds, inv);
  }

  /** The Connection loop returns exactly when ConnectionFlagsFrom has a value. */
  lemma ConnectionLoopTerminatesIff(line: string, pos: nat, flags: set<ConnectionFlag>)
    ensures (exists rounds: nat :: Loop(line, Running(pos, flags), rounds).Left?)
            <==> ConnectionFlagsFrom(line, pos).Some?
  {
    var st := Running(pos, flags);
    if ConnectionFlagsFrom(line, pos).Some? {
      var rounds := LoopLeavesIn(line, st);
      assert Loop(line, Running(pos, flags), rounds).Left?;
    } else {
      forall rounds: nat ensures !Loop(line, Running(pos, flags), rounds).Left? {
        LoopNeverLeaves(line, st, rounds);
      }
    }
  }

  // ---------- the Connection value as a list ----------

  /** The comma-separated parts of line from pos on. */
  function Parts(line: string, pos: nat): (r: seq<string>)
    requires pos <= |line|
    ensures |r| > 0
    decreases |line| - pos
  {
    var c := IndexFrom(line, pos, IsComma);
    if c == |line| then [line[pos..]] else [line[pos..c]] + Parts(line, c + 1)
  }

  predicate NamesFlag(part: string, f: ConnectionFlag) {
    IcasePrefix(part[IndexFrom(part, 0, NotSpace)..], TokenText(f))
  }

  predicate Recognised(part: string) {
    exists f :: NamesFlag(part, f)
  }

  predicate AllRecognised(parts: seq<string>) {
    forall part | part in parts :: Recognised(part)
  }

  /** The union of the flags the parts name. */
  predicate SomeNames(parts: seq<string>, f: ConnectionFlag) {
    exists part | part in parts :: NamesFlag(part, f)
  }

  function FlagsOf(parts: seq<string>): set<ConnectionFlag> {
    set f: ConnectionFlag | SomeNames(parts, f)
  }

  /** No text starts with two of the three tokens. */
  lemma NamesOneFlag(part: string, f: ConnectionFlag, g: ConnectionFlag)
    requires NamesFlag(part, f) && NamesFlag(part, g)
    ensures f == g
  {
    var s := part[IndexFrom(part, 0, NotSpace)..];
    assert Lower(s[0]) == Lower(TokenText(f)[0]) == TokenText(f)[0];
    assert Lower(s[0]) == Lower(TokenText(g)[0]) == TokenText(g)[0];
  }

  lemma TokenLetters(f: ConnectionFlag)
    ensures '\n' !in TokenText(f)
    ensures forall i | 0 <= i < |TokenText(f)| :: Lower(TokenText(f)[i]) != ',' && TokenText(f)[i] != ' '
  {
  }

  /** A word without commas is a prefix of a text or of the text up to its first comma alike. */
  lemma PrefixBeforeComma(s: string, n: nat, t: string)
    requires n <= |s| && (n < |s| ==> s[n] == ',')
    requires forall i | 0 <= i < |t| :: Lower(t[i]) != ','
    ensures IcasePrefix(s, t) == IcasePrefix(s[..n], t)
  {
    if IcasePrefix(s, t) {
      forall k | 0 <= k < |t| ensures s[k] != ',' { NoCommaInToken(s, t, k); }
    }
  }

  /** No comma hides in a matched token. */
  lemma NoCommaInToken(s: string, t: string, k: nat)
    requires IcasePrefix(s, t) && k < |t|
    requires forall i | 0 <= i < |t| :: Lower(t[i]) != ','
    ensures s[k] != ','
  {
    assert Lower(s[k]) == Lower(t[k]);
  }

  /** Blanks, first comma and rest of the first part. */
  lemma FirstPart(line: string, pos: nat)
    requires ProperLine(line) && pos < |line|
    ensures var i := IndexFrom(line, pos, NotSpace); var c := IndexFrom(line, pos, IsComma);
            && pos <= i <= c && i < |line| && (c < |line| ==> c + 1 < |line|)
            && line[pos..c][IndexFrom(line[pos..c], 0, NotSpace)..] == line[i..c]
  {
    var i := IndexFrom(line, pos, NotSpace);
    var c := IndexFrom(line, pos, IsComma);
    assert line[|line| - 2..][1] == '\n';
    assert i < |line| by { assert NotSpace(line[|line| - 1]); }
    assert i <= c by { if c < |line| { assert NotSpace(line[c]); } }
    var part := line[pos..c];
    FirstNonBlank(part, i - pos);
  }

  /** One round compares the first part alone with each token. */
  lemma RoundOnFirstPart(line: string, pos: nat, f: ConnectionFlag)
    requires ProperLine(line) && pos < |line|
    ensures var i := IndexFrom(line, pos, NotSpace); var c := IndexFrom(line, pos, IsComma);
            && i < |line|
            && IcaseCmp(CString(line, i), TokenText(f)) == NamesFlag(line[pos..c], f)
            && (NamesFlag(line[pos..c], f) ==> i + |TokenText(f)| <= c)
  {
    FirstPart(line, pos);
    var i := IndexFrom(line, pos, NotSpace);
    var c := IndexFrom(line, pos, IsComma);
    var t := TokenText(f);
    TokenLetters(f);
    CompareOnProperLine(line, i, t);
    var rest := line[i..];
    PrefixBeforeComma(rest, c - i, t);
    assert rest[..c - i] == line[i..c];
  }

  /** The next comma is found from any position before it. */
  lemma CommaBehind(line: string, pos: nat, j: nat)
    requires pos <= j <= IndexFrom(line, pos, IsComma)
    ensures IndexFrom(line, j, IsComma) == IndexFrom(line, pos, IsComma)
  {
    IndexFromUnique(line, j, IndexFrom(line, pos, IsComma), IsComma);
  }

  /** What one round does with the first part. */
  lemma RoundByPart(line: string, pos: nat)
    requires ProperLine(line) && pos < |line|
    ensures var c := IndexFrom(line, pos, IsComma);
            match ConnectionRound(line, pos)
            case Finished => false
            case Found(f, next) => next == c + 1 && forall g :: NamesFlag(line[pos..c], g) <==> g == f
            case Unrecognised(_) => !Recognised(line[pos..c])
  {
    var c := IndexFrom(line, pos, IsComma);
    RoundOnFirstPart(line, pos, ConnectionUpgrade);
    RoundOnFirstPart(line, pos, ConnectionKeepAlive);
    RoundOnFirstPart(line, pos, ConnectionClose);
    var r := ConnectionRound(line, pos);
    if r.Found? {
      assert NamesFlag(line[pos..c], r.flag);
      CommaBehind(line, pos, IndexFrom(line, pos, NotSpace) + |TokenText(r.flag)|);
      forall g | NamesFlag(line[pos..c], g) ensures g == r.flag { NamesOneFlag(line[pos..c], r.flag, g); }
    } else {
      forall g: ConnectionFlag ensures !NamesFlag(line[pos..c], g) { }
    }
  }

  lemma FirstNonBlank(s: string, i: nat)
    requires i <= |s| && (forall k | 0 <= k < i :: s[k] == ' ') && (i < |s| ==> s[i] != ' ')
    ensures IndexFrom(s, 0, NotSpace) == i
  {
    IndexFromUnique(s, 0, i, NotSpace);
  }

  lemma IndexFromUnique(s: string, off: nat, i: nat, pred: char -> bool)
    requires off <= i <= |s| && (forall k | off <= k < i :: !pred(s[k])) && (i < |s| ==> pred(s[i]))
    ensures IndexFrom(s, off, pred) == i
  {
  }

  /** The flag a part names, if any. */
  function FlagOf(part: string): Option<ConnectionFlag> {
    if NamesFlag(part, ConnectionUpgrade) then Some(ConnectionUpgrade)
    else if NamesFlag(part, ConnectionKeepAlive) then Some(ConnectionKeepAlive)
    else if NamesFlag(part, ConnectionClose) then Some(ConnectionClose)
    else None
  }

  function AddFlag(f: Option<ConnectionFlag>, more: Option<set<ConnectionFlag>>): Option<set<ConnectionFlag>> {
    if f.None? || more.None? then None else Some({f.value} + more.value)
  }

  /** The flags of the parts, one after the other. */
  function FlagsByPart(parts: seq<string>): Option<set<ConnectionFlag>> {
    if parts == [] then Some({}) else AddFlag(FlagOf(parts[0]), FlagsByPart(parts[1..]))
  }

  lemma FlagsByPartCons(part: string, f: Option<ConnectionFlag>, rest: seq<string>, more: Option<set<ConnectionFlag>>)
    requires f == FlagOf(part) && more == FlagsByPart(rest)
    ensures FlagsByPart([part] + rest) == AddFlag(f, more)
  {
  }

  lemma NoFlags()
    ensures FlagsByPart([]) == Some({})
  {
  }

  /** The round ended at the comma at c with flag f, or recognised nothing. */
  predicate RoundIs(r: Round, c: nat, f: Option<ConnectionFlag>) {
    match r
    case Finished => false
    case Found(g, next) => next == c + 1 && f == Some(g)
    case Unrecognised(_) => f == None
  }

  lemma FlagOfFirstPart(line: string, pos: nat, c: nat, part: string)
    requires ProperLine(line) && pos < |line| && c == IndexFrom(line, pos, IsComma) && part == line[pos..c]
    ensures RoundIs(ConnectionRound(line, pos), c, FlagOf(part))
  {
    RoundByPart(line, pos);
  }

  /** The flags of the first round and of the rounds behind it. */
  lemma FlagsByRound(line: string, pos: nat, c: nat, f: Option<ConnectionFlag>)
    requires RoundIs(ConnectionRound(line, pos), c, f)
    ensures ConnectionFlagsFrom(line, pos) == AddFlag(f, ConnectionFlagsFrom(line, c + 1))
  {
  }

  lemma NothingBehind(line: string)
    ensures ConnectionFlagsFrom(line, |line| + 1) == Some({})
  {
  }

  lemma LastPart(line: string, pos: nat)
    requires pos <= |line| && IndexFrom(line, pos, IsComma) == |line|
    ensures Parts(line, pos) == [line[pos..|line|]] + []
  {
    assert line[pos..|line|] == line[pos..];
  }

  lemma MoreParts(line: string, pos: nat, c: nat)
    requires pos <= |line| && c == IndexFrom(line, pos, IsComma) < |line|
    ensures Parts(line, pos) == [line[pos..c]] + Parts(line, c + 1)
  {
  }

  /** The rounds from pos on work on the parts, one after the other. */
  predicate RoundsAreParts(line: string, pos: nat)
    requires pos <= |line|
  {
    ConnectionFlagsFrom(line, pos) == FlagsByPart(Parts(line, pos))
  }

  lemma {:induction false} RoundsByPart(line: string, pos: nat)
    requires ProperLine(line) && pos < |line|
    ensures RoundsAreParts(line, pos)
    decreases |line| - pos
  {
    var c := IndexFrom(line, pos, IsComma);
    CommaInside(line, pos);
    if c < |line| {
      RoundsByPart(line, c + 1);
      MoreRounds(line, pos, c);
    } else {
      LastRound(line, pos);
    }
  }

  lemma MoreRounds(line: string, pos: nat, c: nat)
    requires ProperLine(line) && pos < |line| && c == IndexFrom(line, pos, IsComma) && c + 1 < |line|
    requires RoundsAreParts(line, c + 1)
    ensures RoundsAreParts(line, pos)
  {
    MoreParts(line, pos, c);
    RoundBehind(line, pos, c, Parts(line, c + 1));
  }

  lemma LastRound(line: string, pos: nat)
    requires ProperLine(line) && pos < |line| && IndexFrom(line, pos, IsComma) == |line|
    ensures RoundsAreParts(line, pos)
  {
    LastPart(line, pos);
    NothingBehind(line);
    NoFlags();
    RoundBehind(line, pos, |line|, []);
  }

  /** The first round, when those behind it work on the rest. */
  lemma RoundBehind(line: string, pos: nat, c: nat, rest: seq<string>)
    requires ProperLine(line) && pos < |line| && c == IndexFrom(line, pos, IsComma)
    requires ConnectionFlagsFrom(line, c + 1) == FlagsByPart(rest)
    ensures ConnectionFlagsFrom(line, pos) == FlagsByPart([line[pos..c]] + rest)
  {
    var f, more := FlagOf(line[pos..c]), ConnectionFlagsFrom(line, c + 1);
    RoundAt(line, pos, c, line[pos..c], f, ConnectionFlagsFrom(line, pos), more);
    FlagsByPartCons(line[pos..c], f, rest, more);
  }

  lemma CommaInside(line: string, pos: nat)
    requires ProperLine(line) && pos < |line|
    ensures var c := IndexFrom(line, pos, IsComma); pos <= c <= |line| && (c < |line| ==> c + 1 < |line|)
  {
    FirstPart(line, pos);
  }

  lemma FlagOfNames(part: string)
    ensures FlagOf(part).None? ==> !Recognised(part)
    ensures FlagOf(part).Some? ==> NamesFlag(part, FlagOf(part).value) && forall g | NamesFlag(part, g) :: g == FlagOf(part).value
  {
    forall g | NamesFlag(part, g) ensures FlagOf(part) == Some(g) {
      NamesOneFlag(part, FlagOf(part).value, g);
    }
  }

  lemma {:induction false} FlagsOfParts(parts: seq<string>)
    ensures FlagsByPart(parts) == if AllRecognised(parts) then Some(FlagsOf(parts)) else None
  {
    if parts == [] {
      NoParts();
    } else {
      var part, rest := parts[0], parts[1..];
      assert parts == [part] + rest;
      FlagOfNames(part);
      FlagsOfParts(rest);
      FlagsByPartCons(part, FlagOf(part), rest, FlagsByPart(rest));
      if FlagOf(part).None? { UnknownPart(part, rest); } else { FlagsOfCons(part, rest, FlagOf(part).value); }
    }
  }

  /** Reading a Connection value: the loop returns exactly when every comma-separated part
      starts, after blanks, with a known token in some letter case; and then it adds exactly
      the union of the flags so named. */
  lemma ConnectionValue(line: string, pos: nat)
    requires ProperLine(line) && pos < |line|
    ensures ConnectionFlagsFrom(line, pos) ==
            if AllRecognised(Parts(line, pos)) then Some(FlagsOf(Parts(line, pos))) else None
  {
    RoundsByPart(line, pos);
    FlagsOfParts(Parts(line, pos));
  }

  lemma RoundAt(
      line: string, p: nat, c: nat, part: string,
      f: Option<ConnectionFlag>, whole: Option<set<ConnectionFlag>>, more: Option<set<ConnectionFlag>>)
    requires ProperLine(line) && p < |line| && c == IndexFrom(line, p, IsComma) && part == line[p..c]
    requires f == FlagOf(part) && whole == ConnectionFlagsFrom(line, p) && more == ConnectionFlagsFrom(line, c + 1)
    ensures whole == AddFlag(f, more)
  {
    FlagOfFirstPart(line, p, c, part);
    FlagsByRound(line, p, c, f);
  }

  lemma UnknownPart(part: string, rest: seq<string>)
    requires !Recognised(part)
    ensures !AllRecognised([part] + rest)
  {
    assert part in [part] + rest;
  }

  lemma NoParts()
    ensures AllRecognised([]) && FlagsOf([]) == {}
  {
  }

  lemma FlagsOfCons(part: string, rest: seq<string>, f: ConnectionFlag)
    requires NamesFlag(part, f) && forall g | NamesFlag(part, g) :: g == f
    ensures FlagsOf([part] + rest) == {f} + FlagsOf(rest)
    ensures AllRecognised([part] + rest) == AllRecognised(rest)
  {
    forall x ensures x in [part] + rest <==> x == part || x in rest {}
    forall g: ConnectionFlag ensures g in FlagsOf([part] + rest) <==> g in {f} + FlagsOf(rest) {
      if g in FlagsOf([part] + rest) {
        var x :| x in [part] + rest && NamesFlag(x, g);
      }
      if g == f { assert part in [part] + rest; }
      if g in FlagsOf(rest) {
        var x :| x in rest && NamesFlag(x, g);
        assert x in [part] + rest;
      }
    }
    assert Recognised(part);
  }

  lemma ClassifyConnection(line: string, k: nat)
    requires ProperLine(line) && k < |line| && IcasePrefix(line[k..], CONNECTION_KEY)
    ensures Classify(CString(line, k)) == ConnectionHeader && line != "\r\n"
    ensures k + |CONNECTION_KEY| + 1 < |line|
  {
    NameEndsBeforeCrlf(line, k, CONNECTION_KEY);
    CompareOnProperLine(line, k, CONTENT_LENGTH_KEY);
    CompareOnProperLine(line, k, UPGRADE_KEY);
    CompareOnProperLine(line, k, HOST_KEY);
    CompareOnProperLine(line, k, CONNECTION_KEY);
    assert Lower(line[k..][0]) == 'c' && Lower(line[k..][3]) == 'n';
  }

  lemma ConnectionBranch(p: Parser, line: string, k: nat, flags: Option<set<ConnectionFlag>>)
    requires p.state == Headers && flags == ConnectionFlagsFrom(line, k + |CONNECTION_KEY| + 1)
    ensures Branch(p, line, k, ConnectionHeader) ==
            if flags.Some? then p.(connectionFlags := p.connectionFlags + flags.value) else p.(state := Hung)
  {
  }

  /** A part of a Connection line begins, after blanks, with the word in any case. */
  predicate Names(part: string, word: string) {
    IcasePrefix(part[IndexFrom(part, 0, NotSpace)..], word)
  }

  /** The flag words are these three. */
  lemma FlagWords(parts: seq<string>)
    ensures AllRecognised(parts) <==>
            forall part | part in parts :: Names(part, "upgrade") || Names(part, "keep-alive") || Names(part, "close")
    ensures ConnectionUpgrade in FlagsOf(parts) <==> exists part | part in parts :: Names(part, "upgrade")
    ensures ConnectionKeepAlive in FlagsOf(parts) <==> exists part | part in parts :: Names(part, "keep-alive")
    ensures ConnectionClose in FlagsOf(parts) <==> exists part | part in parts :: Names(part, "close")
  {
    forall part ensures Names(part, "upgrade") == NamesFlag(part, ConnectionUpgrade) {}
    forall part ensures Names(part, "keep-alive") == NamesFlag(part, ConnectionKeepAlive) {}
    forall part ensures Names(part, "close") == NamesFlag(part, ConnectionClose) {}
  }

  /** The whole Connection branch on a proper line: it hangs if some part does not begin with one
      of the three words; otherwise it adds exactly the flags that are named. */
  lemma ConnectionLine(p: Parser, line: string, k: nat)
    requires p.state == Headers && ProperLine(line)
    requires k == IndexFrom(line, 0, NotSpace) && k < |line| && IcasePrefix(line[k..], "connection:")
    ensures k + 12 < |line|
    ensures var q, parts := Push(p, line), Parts(line, k + 12);
            if forall part | part in parts :: Names(part, "upgrade") || Names(part, "keep-alive") || Names(part, "close")
            then && q == p.(connectionFlags := q.connectionFlags)
                 && (ConnectionUpgrade in q.connectionFlags <==>
                     ConnectionUpgrade in p.connectionFlags || exists part | part in parts :: Names(part, "upgrade"))
                 && (ConnectionKeepAlive in q.connectionFlags <==>
                     ConnectionKeepAlive in p.connectionFlags || exists part | part in parts :: Names(part, "keep-alive"))
                 && (ConnectionClose in q.connectionFlags <==>
                     ConnectionClose in p.connectionFlags || exists part | part in parts :: Names(part, "close"))
            else q == p.(state := Hung)
  {
    ClassifyConnection(line, k);
    TakesBranch(p, line);
    var parts := Parts(line, k + |CONNECTION_KEY| + 1);
    ConnectionValue(line, k + |CONNECTION_KEY| + 1);
    ConnectionBranch(p, line, k, if AllRecognised(parts) then Some(FlagsOf(parts)) else None);
    FlagWords(parts);
  }

  // ---------- the body counter ----------

  /** In state Body, pushing a piece ends the body exactly when the true count reaches it. */
  predicate CountsExactly(p: Parser, piece: string)
    requires p.state == Body && p.contentLength.Some?
  {
    && (Push(p, piece).state == Done <==> p.bodyLength + |piece| >= p.contentLength.value)
    && Push(p, piece).bodyLength == p.bodyLength + |piece|
  }

  /** A parser waiting for more of a body of n bytes. */
  predicate AwaitsBody(p: Parser, n: nat) {
    p.state == Body && p.contentLength == Some(n) && p.bodyLength < n
  }

  /** The 32-bit count is right for every piece of at most 1024 bytes exactly when the
      announced length leaves room for one more piece; beyond that the count wraps. */
  lemma BodyCounterExactIff(n: nat)
    requires 0 < n < UINT_MODULUS
    ensures (forall p: Parser, piece: string | AwaitsBody(p, n) && 1 <= |piece| <= 1024 :: CountsExactly(p, piece))
            <==> n <= UINT_MODULUS - 1024
  {
    if n > UINT_MODULUS - 1024 {
      var p := FRESH.(state := Body, contentLength := Some(n), bodyLength := n - 1);
      var piece := seq(1024, _ => 'x');
      assert AwaitsBody(p, n);
      assert (n - 1 + 1024) % UINT_MODULUS == n + 1023 - UINT_MODULUS;
      assert !CountsExactly(p, piece);
    }
  }
}
