/**
  String helpers with the meaning of the Python built-ins the core relies on:
  `str.find`, `str.startswith`, `str.strip`, `str.isspace` and `"".join`.
*/
module Text {

  /** `pat` occurs in `s` starting at index `i`. */
  predicate MatchAt(s: string, pat: string, i: nat) {
    i + |pat| <= |s| && s[i..i + |pat|] == pat
  }

  /** `i` is the first index at or after `from` where `pat` occurs in `s`. */
  predicate FirstMatch(s: string, pat: string, from: nat, i: nat) {
    from <= i && MatchAt(s, pat, i) && forall j: nat :: from <= j < i ==> !MatchAt(s, pat, j)
  }

  /** `str.find(pat, start)` for a non-negative start: the lowest index at or after
      `start` where `pat` occurs, or -1 when there is none. */
  function Find(s: string, pat: string, start: nat): (r: int)
    ensures r == -1 || (start <= r && r + |pat| <= |s|)
    decreases |s| - start
  {
    if start + |pat| > |s| then -1
    else if s[start..start + |pat|] == pat then start
    else Find(s, pat, start + 1)
  }

  /** What `find` returns, when it finds something, is the first occurrence. */
  lemma {:induction false} FindFound(s: string, pat: string, start: nat)
    requires Find(s, pat, start) != -1
    ensures FirstMatch(s, pat, start, Find(s, pat, start) as nat)
    decreases |s| - start
  {
    if s[start..start + |pat|] != pat {
      FindFound(s, pat, start + 1);
      assert !MatchAt(s, pat, start);
    }
  }

  /** `find` gives -1 exactly when there is no occurrence at or after `start`. */
  lemma {:induction false} FindNone(s: string, pat: string, start: nat)
    ensures Find(s, pat, start) == -1 <==> forall i: nat :: start <= i ==> !MatchAt(s, pat, i)
    decreases |s| - start
  {
    if start + |pat| > |s| {
    } else if s[start..start + |pat|] == pat {
      assert MatchAt(s, pat, start);
    } else {
      FindNone(s, pat, start + 1);
      forall i: nat | start <= i && i < start + 1 ensures !MatchAt(s, pat, i) {
      }
    }
  }

  /** There is only one first occurrence. */
  lemma FirstMatchUnique(s: string, pat: string, from: nat, i: nat, j: nat)
    requires FirstMatch(s, pat, from, i) && FirstMatch(s, pat, from, j)
    ensures i == j
  {
  }

  /** `find` returns the first occurrence. */
  lemma FindFirst(s: string, pat: string, start: nat, i: nat)
    requires FirstMatch(s, pat, start, i)
    ensures Find(s, pat, start) == i
  {
    var r := Find(s, pat, start);
    FindNone(s, pat, start);
    assert r != -1 by {
      assert MatchAt(s, pat, i);
    }
    FindFound(s, pat, start);
    FirstMatchUnique(s, pat, start, r as nat, i);
  }

  /** `s.startswith(p)`. */
  predicate StartsWith(s: string, p: string) {
    |p| <= |s| && s[..|p|] == p
  }

  /** The characters for which Python's `str.isspace()` holds; `str.strip()` and the
      regular-expression class `\s` use the same set. */
  predicate IsSpace(c: char) {
    ('\t' <= c <= '\r') || ('\U{1C}' <= c <= '\U{1F}') || c == ' ' || c == '\U{85}' || c == '\U{A0}'
    || c == '\U{1680}' || ('\U{2000}' <= c <= '\U{200A}') || c == '\U{2028}' || c == '\U{2029}'
    || c == '\U{202F}' || c == '\U{205F}' || c == '\U{3000}'
  }

  /** Every character of `s` satisfies `p`. */
  predicate All(s: string, p: char -> bool) {
    forall i :: 0 <= i < |s| ==> p(s[i])
  }

  /** `s` with its longest prefix of characters satisfying `p` removed. */
  function DropWhile(s: string, p: char -> bool): (r: string)
    ensures |r| <= |s|
  {
    if s != [] && p(s[0]) then DropWhile(s[1..], p) else s
  }

  /** `DropWhile` removes a prefix satisfying `p` and stops at the first character that
      does not. */
  lemma {:induction false} DropWhileAll(a: string, b: string, p: char -> bool)
    requires forall i :: 0 <= i < |a| ==> p(a[i])
    requires b == [] || !p(b[0])
    ensures DropWhile(a + b, p) == b
    decreases |a|
  {
    if a != [] {
      assert (a + b)[1..] == a[1..] + b;
      DropWhileAll(a[1..], b, p);
    }
  }

  /** What `DropWhile` leaves is a suffix of `s`, what it removes satisfies `p` throughout,
      and what it leaves does not start with a character satisfying `p`. */
  lemma {:induction false} DropWhileShape(s: string, p: char -> bool)
    ensures var r := DropWhile(s, p);
      && r == s[|s| - |r|..] && All(s[..|s| - |r|], p) && (r != [] ==> !p(r[0]))
  {
    if s != [] && p(s[0]) {
      DropWhileShape(s[1..], p);
      var r := DropWhile(s, p);
      var k := |s| - |r|;
      assert r == s[1..][k - 1..];
      forall i | 0 <= i < k ensures p(s[..k][i]) {
        if i > 0 {
          assert s[..k][i] == s[1..][..k - 1][i - 1];
        }
      }
    }
  }

  /** The suffix part of `DropWhileShape` alone: `s` is what was dropped, then the rest. */
  lemma {:induction false} DropWhileSuffix(s: string, p: char -> bool)
    ensures var r := DropWhile(s, p); s == s[..|s| - |r|] + r
  {
    if s != [] && p(s[0]) {
      var t := s[1..];
      DropWhileSuffix(t, p);
      var r := DropWhile(t, p);
      assert DropWhile(s, p) == r;
      assert s == [s[0]] + t;
      assert t == t[..|t| - |r|] + r;
      assert s[..|s| - |r|] == [s[0]] + t[..|t| - |r|];
    } else {
      assert s[..0] == [];
    }
  }

  /** `s` with its longest suffix of characters satisfying `p` removed. */
  function DropLastWhile(s: string, p: char -> bool): (r: string)
    ensures |r| <= |s|
  {
    if s != [] && p(s[|s| - 1]) then DropLastWhile(s[..|s| - 1], p) else s
  }

  /** What `DropLastWhile` leaves is a prefix of `s`, what it removes satisfies `p`
      throughout, and what it leaves does not end with a character satisfying `p`. */
  lemma {:induction false} DropLastWhileShape(s: string, p: char -> bool)
    ensures var r := DropLastWhile(s, p);
      && r == s[..|r|] && All(s[|r|..], p) && (r != [] ==> !p(r[|r| - 1]))
  {
    if s != [] && p(s[|s| - 1]) {
      var t := s[..|s| - 1];
      DropLastWhileShape(t, p);
      var r := DropLastWhile(s, p);
      assert r == t[..|r|];
      forall i | |r| <= i < |s| ensures p(s[i]) {
        if i < |s| - 1 {
          assert s[i] == t[|r|..][i - |r|];
        }
      }
      assert forall i :: 0 <= i < |s[|r|..]| ==> s[|r|..][i] == s[|r| + i];
    }
  }

  /** `s` without its longest prefix satisfying `p` and then without the longest suffix of
      what is left satisfying `q`. */
  function Trim(s: string, p: char -> bool, q: char -> bool): (r: string)
    ensures |r| <= |s|
  {
    DropLastWhile(DropWhile(s, p), q)
  }

  /** `Trim` leaves one contiguous part of `s`, preceded only by characters satisfying `p` and
      followed only by characters satisfying `q`, and neither starting with a character
      satisfying `p` nor ending with one satisfying `q`. */
  lemma TrimShape(s: string, p: char -> bool, q: char -> bool)
    ensures var r, a := Trim(s, p, q), |s| - |DropWhile(s, p)|;
      && a + |r| <= |s| && r == s[a..a + |r|]
      && All(s[..a], p) && All(s[a + |r|..], q)
      && (r != [] ==> !p(r[0]) && !q(r[|r| - 1]))
  {
    var d := DropWhile(s, p);
    DropWhileShape(s, p);
    DropLastWhileShape(d, q);
    TrimParts(s, d, Trim(s, p, q), |s| - |d|, p, q);
  }

  /** A prefix `r` of the suffix `d` of `s` that starts at `a` is the slice of `s` from `a`,
      and what follows `r` in `d` is what follows it in `s`. */
  lemma TrimParts(s: string, d: string, r: string, a: nat, p: char -> bool, q: char -> bool)
    requires a <= |s| && d == s[a..] && |r| <= |d| && r == d[..|r|]
    requires All(s[..a], p) && All(d[|r|..], q) && (d != [] ==> !p(d[0])) && (r != [] ==> !q(r[|r| - 1]))
    ensures a + |r| <= |s| && r == s[a..a + |r|]
    ensures All(s[..a], p) && All(s[a + |r|..], q) && (r != [] ==> !p(r[0]) && !q(r[|r| - 1]))
  {
    assert s[a + |r|..] == d[|r|..];
    if r != [] {
      assert r[0] == d[0];
    }
  }

  /** A slice of a slice is a slice. */
  lemma SliceOfSlice(s: string, lo: nat, hi: nat, a: nat, b: nat)
    requires lo <= hi <= |s| && a <= b <= hi - lo
    ensures s[lo..hi][a..b] == s[lo + a..lo + b]
  {
    forall i | 0 <= i < b - a
      ensures s[lo..hi][a..b][i] == s[lo + a..lo + b][i]
    {
    }
  }

  /** `s` neither starts nor ends with whitespace. */
  predicate Stripped(s: string) {
    s == [] || (!IsSpace(s[0]) && !IsSpace(s[|s| - 1]))
  }

  /** The non-whitespace characters of `s`, in order. */
  function NonSpace(s: string): string {
    if s == [] then [] else (if IsSpace(s[0]) then [] else [s[0]]) + NonSpace(s[1..])
  }

  lemma {:induction false} NonSpaceAppend(a: string, b: string)
    ensures NonSpace(a + b) == NonSpace(a) + NonSpace(b)
  {
    if a == [] {
      assert a + b == b;
    } else {
      var h := if IsSpace(a[0]) then [] else [a[0]];
      assert NonSpace(a + b) == h + NonSpace(a[1..] + b) by {
        assert (a + b)[0] == a[0];
        assert (a + b)[1..] == a[1..] + b;
      }
      NonSpaceAppend(a[1..], b);
    }
  }

  /** `g` distributes over concatenation, as `NonSpace` does. */
  ghost predicate Homomorphic(g: string -> string) {
    forall x, y :: g(x + y) == g(x) + g(y)
  }

  lemma NonSpaceHomomorphic()
    ensures Homomorphic(NonSpace)
  {
    forall x, y ensures NonSpace(x + y) == NonSpace(x) + NonSpace(y) {
      NonSpaceAppend(x, y);
    }
  }

  lemma {:induction false} NonSpaceOfSpaces(s: string)
    requires All(s, IsSpace)
    ensures NonSpace(s) == []
  {
    if s != [] {
      NonSpaceOfSpaces(s[1..]);
    }
  }

  /** `s.strip()`: `s` without its leading and trailing whitespace. */
  function Strip(s: string): (r: string)
    ensures |r| <= |s|
  {
    Trim(s, IsSpace, IsSpace)
  }

  /** The result of `strip()` neither starts nor ends with whitespace, and is the part of
      `s` left between its leading and its trailing whitespace. */
  lemma StripShape(s: string)
    ensures Stripped(Strip(s))
    ensures var r, a := Strip(s), |s| - |DropWhile(s, IsSpace)|;
      && a + |r| <= |s| && r == s[a..a + |r|] && All(s[..a], IsSpace) && All(s[a + |r|..], IsSpace)
  {
    TrimShape(s, IsSpace, IsSpace);
  }

  lemma {:induction false} DropSpaceKeepsNonSpace(s: string)
    ensures NonSpace(DropWhile(s, IsSpace)) == NonSpace(s)
  {
    if s != [] && IsSpace(s[0]) {
      DropSpaceKeepsNonSpace(s[1..]);
    }
  }

  lemma DropLastSpaceKeepsNonSpace(s: string)
    ensures NonSpace(DropLastWhile(s, IsSpace)) == NonSpace(s)
  {
    var r := DropLastWhile(s, IsSpace);
    var t := s[|r|..];
    assert s == r + t && All(t, IsSpace) by {
      DropLastWhileShape(s, IsSpace);
    }
    assert NonSpace(t) == [] by {
      NonSpaceOfSpaces(t);
    }
    NonSpaceAppend(r, t);
  }

  /** Stripping removes whitespace and nothing else. */
  lemma StripKeepsNonSpace(s: string)
    ensures NonSpace(Strip(s)) == NonSpace(s)
  {
    DropSpaceKeepsNonSpace(s);
    DropLastSpaceKeepsNonSpace(DropWhile(s, IsSpace));
  }

  /** Stripping a stripped string changes nothing. */
  lemma StripStripped(s: string)
    requires Stripped(s)
    ensures Strip(s) == s
  {
    if s != [] {
      assert DropWhile(s, IsSpace) == s;
      assert DropLastWhile(s, IsSpace) == s;
    }
  }

  /** `strip()` gives the empty string exactly when there is nothing but whitespace. */
  lemma StripEmptyIff(s: string)
    ensures Strip(s) == [] <==> NonSpace(s) == []
  {
    StripKeepsNonSpace(s);
    StripShape(s);
    var r := Strip(s);
    if r != [] {
      assert NonSpace(r) == [r[0]] + NonSpace(r[1..]);
    }
  }

  /** `"".join(ss)`. */
  function Concat(ss: seq<string>): string {
    if ss == [] then [] else ss[0] + Concat(ss[1..])
  }

  lemma {:induction false} ConcatAppend(a: seq<string>, b: seq<string>)
    ensures Concat(a + b) == Concat(a) + Concat(b)
  {
    if a == [] {
      assert a + b == b;
    } else {
      assert (a + b)[0] == a[0];
      assert (a + b)[1..] == a[1..] + b;
      ConcatAppend(a[1..], b);
    }
  }

  /** Joining a list with one more string at the end appends that string. */
  lemma ConcatLast(ss: seq<string>, s: string)
    ensures Concat(ss + [s]) == Concat(ss) + s
  {
    ConcatAppend(ss, [s]);
    assert [s][1..] == [];
    assert Concat([s]) == s + [];
  }

  /** Joining a list that starts with two strings. */
  lemma ConcatPair(a: string, b: string, ss: seq<string>)
    ensures Concat([a, b] + ss) == a + (b + Concat(ss))
  {
    var l := [a, b] + ss;
    assert l[1..][1..] == ss;
  }

  /** The same, read from a non-empty list: its join is the join of all but its last
      string, followed by its last string. */
  lemma ConcatInit(ss: seq<string>)
    requires ss != []
    ensures Concat(ss) == Concat(ss[..|ss| - 1]) + ss[|ss| - 1]
  {
    assert ss == ss[..|ss| - 1] + [ss[|ss| - 1]];
    ConcatLast(ss[..|ss| - 1], ss[|ss| - 1]);
  }
}
