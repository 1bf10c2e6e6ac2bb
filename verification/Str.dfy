/** String helpers: the case-insensitive comparison of src/hpl_str.h and the scanning
    lambda that the header parser uses on one line. Bytes of the HTTP side are `char`s. */
module Str {

  /** tolower in the "C" locale. */
  function Lower(c: char): char {
    if 'A' <= c <= 'Z' then (c as int + 32) as char else c
  }

  /** Two characters are the same in some letter case exactly if they are the same, or the small
      and the capital form of one of the 26 letters. */
  lemma SameLetterIff(c: char, d: char)
    ensures Lower(c) == Lower(d) <==>
            || c == d
            || (c in "ABCDEFGHIJKLMNOPQRSTUVWXYZ" && d in "abcdefghijklmnopqrstuvwxyz" && d as int - c as int == 32)
            || (d in "ABCDEFGHIJKLMNOPQRSTUVWXYZ" && c in "abcdefghijklmnopqrstuvwxyz" && c as int - d as int == 32)
  {
    Capitals(c);
    Capitals(d);
  }

  lemma Capitals(c: char)
    ensures c in "ABCDEFGHIJKLMNOPQRSTUVWXYZ" <==> 'A' <= c <= 'Z'
    ensures c in "abcdefghijklmnopqrstuvwxyz" <==> 'a' <= c <= 'z'
  {
    var big, small := "ABCDEFGHIJKLMNOPQRSTUVWXYZ", "abcdefghijklmnopqrstuvwxyz";
    assert forall i | 0 <= i < 26 :: big[i] as int == 'A' as int + i && small[i] as int == 'a' as int + i;
    if 'A' <= c <= 'Z' { assert big[c as int - 'A' as int] == c; }
    if 'a' <= c <= 'z' { assert small[c as int - 'a' as int] == c; }
  }

  /** icase_cmp: compares only as many characters as the shorter argument has. */
  predicate IcaseCmp(s: string, t: string) {
    var n := if |s| < |t| then |s| else |t|;
    forall i | 0 <= i < n :: Lower(s[i]) == Lower(t[i])
  }

  /** What the callers of icase_cmp want: p, in any letter case, is a prefix of s. */
  predicate IcasePrefix(s: string, p: string) {
    |p| <= |s| && forall i | 0 <= i < |p| :: Lower(s[i]) == Lower(p[i])
  }

  /** icase_cmp is symmetric, so it is the prefix test exactly when s is not a proper,
      case-insensitive prefix of p. */
  lemma IcaseCmpIsPrefixTestIff(s: string, p: string)
    ensures IcaseCmp(s, p) == (IcasePrefix(s, p) || IcasePrefix(p, s))
    ensures IcaseCmp(s, p) == IcasePrefix(s, p) <==> !(|s| < |p| && IcasePrefix(p, s))
  {
    if |s| < |p| && IcasePrefix(p, s) {
      assert IcaseCmp(s, p);
    } else if IcaseCmp(s, p) {
      assert IcasePrefix(s, p) || IcasePrefix(p, s);
    }
  }

  /** A text that still holds its line feed is never a proper prefix of a header name. */
  lemma IcaseCmpOnLine(s: string, p: string)
    requires s != [] && s[|s| - 1] == '\n'
    requires '\n' !in p
    ensures IcaseCmp(s, p) == IcasePrefix(s, p)
  {
    if |s| < |p| {
      assert p[|s| - 1] != '\n';
      assert Lower(s[|s| - 1]) != Lower(p[|s| - 1]);
    }
  }

  /** std::string_view(line.data() + off): up to the first NUL. */
  function CString(s: string, off: nat): (r: string)
    decreases |s| - off
  {
    if off >= |s| || s[off] == '\0' then "" else [s[off]] + CString(s, off + 1)
  }

  lemma {:induction false} CStringNulFree(s: string, off: nat)
    requires off <= |s| && '\0' !in s[off..]
    ensures CString(s, off) == s[off..]
    decreases |s| - off
  {
    if off < |s| {
      assert s[off] in s[off..];
      assert forall c :: c in s[off + 1..] ==> c in s[off..];
      CStringNulFree(s, off + 1);
      assert s[off..] == [s[off]] + s[off + 1..];
    }
  }

  // The predicates handed to the scanning lambda.
  predicate NotSpace(c: char) { c != ' ' }
  predicate IsColon(c: char) { c == ':' }
  predicate IsComma(c: char) { c == ',' }
  predicate IsEol(c: char) { c == '\r' || c == '\n' }

  /** The index the scan stops at; an offset past the end stops at the end. */
  function IndexFrom(s: string, off: nat, pred: char -> bool): (r: nat)
    ensures r <= |s|
    ensures off <= |s| ==> off <= r
    ensures forall k | off <= k < r :: !pred(s[k])
    ensures r < |s| ==> off <= r && pred(s[r])
    decreases |s| - off
  {
    if off >= |s| then |s| else if pred(s[off]) then off else IndexFrom(s, off + 1, pred)
  }

  /** next_char: the scan as the loop the parser runs. */
  method NextChar(s: string, off: nat, pred: char -> bool) returns (r: nat)
    ensures r == IndexFrom(s, off, pred)
  {
    if off >= |s| {
      return |s|;
    }
    r := off;
    while r != |s| && !pred(s[r])
      invariant off <= r <= |s|
      invariant IndexFrom(s, r, pred) == IndexFrom(s, off, pred)
    {
      r := r + 1;
    }
  }

  /** The first CR LF pair of s starts here; |s| when there is none. */
  predicate CrlfAt(s: string, i: int) {
    0 <= i < |s| - 1 && s[i] == '\r' && s[i + 1] == '\n'
  }

  function CrlfFrom(s: string, i: nat): (r: nat)
    requires i <= |s|
    ensures i <= r <= |s|
    ensures r < |s| ==> CrlfAt(s, r)
    ensures forall k | i <= k < r :: !CrlfAt(s, k)
    decreases |s| - i
  {
    if i == |s| then |s| else if CrlfAt(s, i) then i else CrlfFrom(s, i + 1)
  }

  function CrlfIndex(s: string): nat { CrlfFrom(s, 0) }

  predicate HasCrlf(s: string) { CrlfIndex(s) < |s| }

  lemma CrlfIndexUnique(s: string, i: nat)
    requires CrlfAt(s, i) && forall k | 0 <= k < i :: !CrlfAt(s, k)
    ensures CrlfIndex(s) == i
  {
  }

  /** More input never moves the first CR LF that is already there. */
  lemma CrlfIndexAppend(s: string, t: string)
    requires HasCrlf(s)
    ensures CrlfIndex(s + t) == CrlfIndex(s)
    ensures (s + t)[..CrlfIndex(s) + 2] == s[..CrlfIndex(s) + 2]
    ensures (s + t)[CrlfIndex(s) + 2..] == s[CrlfIndex(s) + 2..] + t
  {
    var i := CrlfIndex(s);
    assert CrlfAt(s + t, i);
    forall k | 0 <= k < i ensures !CrlfAt(s + t, k) {
      assert !CrlfAt(s, k);
    }
    CrlfIndexUnique(s + t, i);
  }

  /** An early CR LF of s + t is one of s. */
  lemma CrlfIndexWithin(s: string, t: string)
    requires CrlfIndex(s + t) + 2 <= |s|
    ensures CrlfIndex(s) == CrlfIndex(s + t)
  {
    var i := CrlfIndex(s + t);
    assert CrlfAt(s + t, i);
    assert CrlfAt(s, i);
    forall k | 0 <= k < i ensures !CrlfAt(s, k) {
      assert !CrlfAt(s + t, k);
    }
    CrlfIndexUnique(s, i);
  }
}
