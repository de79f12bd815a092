/**
  Sentence handling of the plain chat client (`openai_http.Client`): the completeness
  test, the split of a buffer into sentences at runs of terminators, and the cleaning
  of split sentences (whitespace collapsed, surrounding quotes removed).
*/
module Sentences {
  import opened Text

  /** The sentence terminators `. ! ? 。 ！ ？`. */
  predicate IsTerminator(c: char) {
    c == '.' || c == '!' || c == '?' || c == '\U{3002}' || c == '\U{FF01}' || c == '\U{FF1F}'
  }

  predicate NotTerminator(c: char) {
    !IsTerminator(c)
  }

  /** `s` ends with a terminator. */
  predicate EndsWithTerminator(s: string) {
    s != [] && IsTerminator(s[|s| - 1])
  }

  /** Once a terminator occurs in `s`, only terminators follow: `s` is text followed by at
      most one run of terminators. */
  predicate TextThenRun(s: string) {
    forall i, j :: 0 <= i < j < |s| && IsTerminator(s[i]) ==> IsTerminator(s[j])
  }

  /** `_has_complete_sentence`: `re.search(r'[.!?。！？]', buffer)`, scanning from the left. */
  function HasCompleteSentence(s: string): bool {
    s != [] && (IsTerminator(s[0]) || HasCompleteSentence(s[1..]))
  }

  /** The buffer holds a complete sentence exactly when it contains a terminator. */
  lemma {:induction false} HasCompleteSentenceIff(s: string)
    ensures HasCompleteSentence(s) <==> exists i :: 0 <= i < |s| && IsTerminator(s[i])
  {
    if s != [] {
      HasCompleteSentenceIff(s[1..]);
      if HasCompleteSentence(s[1..]) {
        var i :| 0 <= i < |s[1..]| && IsTerminator(s[1..][i]);
        assert IsTerminator(s[i + 1]);
      } else if !IsTerminator(s[0]) {
        forall i | 0 <= i < |s| ensures !IsTerminator(s[i]) {
          if i > 0 {
            assert s[i] == s[1..][i - 1];
          }
        }
      }
    }
  }

  /** `re.split(r'([.!?。！？]+)', s)`: the text pieces and, between them, the maximal runs of
      terminators, in order, starting and ending with a text piece, which may be empty. */
  function SplitRuns(s: string): (r: seq<string>)
    ensures |r| >= 1
    decreases |s|
  {
    var rest := DropWhile(s, NotTerminator);
    DropWhileShape(s, NotTerminator);
    if rest == [] then [s]
    else
      var after := DropWhile(rest, IsTerminator);
      [s[..|s| - |rest|], rest[..|rest| - |after|]] + SplitRuns(after)
  }

  /** The number of runs of terminators in `s`. */
  ghost function RunCount(s: string): nat
    decreases |s|
  {
    var rest := DropWhile(s, NotTerminator);
    DropWhileShape(s, NotTerminator);
    if rest == [] then 0 else 1 + RunCount(DropWhile(rest, IsTerminator))
  }

  /** The first text piece and the first run: the piece holds no terminator, the run is
      non-empty and holds nothing else, and what follows the run does not start with a
      terminator. */
  lemma SplitRunsHead(s: string)
    requires DropWhile(s, NotTerminator) != []
    ensures var rest := DropWhile(s, NotTerminator); var after := DropWhile(rest, IsTerminator);
      var a, b := s[..|s| - |rest|], rest[..|rest| - |after|];
      && All(a, NotTerminator) && b != [] && All(b, IsTerminator)
      && (after != [] ==> !IsTerminator(after[0]))
  {
    var rest := DropWhile(s, NotTerminator);
    DropWhileShape(s, NotTerminator);
    DropWhileShape(rest, IsTerminator);
  }

  /** A string that starts with a text character has a non-empty first piece, and a string
      with a run is not empty. */
  lemma SplitRunsFirst(s: string)
    ensures s != [] && !IsTerminator(s[0]) ==> SplitRuns(s)[0] != []
    ensures RunCount(s) > 0 ==> s != []
  {
  }

  /** A piece and a run put in front of a split of the right shape give a split of the
      right shape with one run more. */
  lemma ShapeCons(a: string, b: string, t: seq<string>, m: nat)
    requires |t| == 2 * m + 1
    requires All(a, NotTerminator) && b != [] && All(b, IsTerminator)
    requires forall k :: 0 <= k <= m ==> All(t[2 * k], NotTerminator)
    requires forall k :: 0 <= k < m ==> t[2 * k + 1] != [] && All(t[2 * k + 1], IsTerminator)
    requires forall k :: 0 < k < m ==> t[2 * k] != []
    requires m > 0 ==> t[0] != []
    ensures var r, n := [a, b] + t, m + 1;
      && |r| == 2 * n + 1
      && (forall k :: 0 <= k <= n ==> All(r[2 * k], NotTerminator))
      && (forall k :: 0 <= k < n ==> r[2 * k + 1] != [] && All(r[2 * k + 1], IsTerminator))
      && (forall k :: 0 < k < n ==> r[2 * k] != [])
  {
    var r := [a, b] + t;
    forall k | 0 <= k <= m + 1
      ensures All(r[2 * k], NotTerminator)
      ensures k <= m ==> r[2 * k + 1] != [] && All(r[2 * k + 1], IsTerminator)
      ensures 0 < k <= m ==> r[2 * k] != []
    {
      if k == 0 {
        assert r[0] == a && r[1] == b;
      } else {
        assert r[2 * k] == t[2 * (k - 1)];
      }
      if 0 < k <= m {
        var j := k - 1;
        assert r[2 * k + 1] == t[2 * j + 1];
        assert t[2 * j + 1] != [] && All(t[2 * j + 1], IsTerminator);
        if 1 < k {
          assert t[2 * (k - 1)] != [];
        }
      }
    }
  }

  /** With `n` runs the split has `2n + 1` parts: the text pieces at even positions hold no
      terminator, the runs at odd positions are non-empty and hold nothing else, and every
      text piece strictly between two runs is non-empty, so the runs are maximal. */
  lemma {:induction false} SplitRunsShape(s: string)
    ensures var r, n := SplitRuns(s), RunCount(s);
      && |r| == 2 * n + 1
      && (forall k :: 0 <= k <= n ==> All(r[2 * k], NotTerminator))
      && (forall k :: 0 <= k < n ==> r[2 * k + 1] != [] && All(r[2 * k + 1], IsTerminator))
      && (forall k :: 0 < k < n ==> r[2 * k] != [])
    decreases |s|
  {
    var rest := DropWhile(s, NotTerminator);
    if rest == [] {
      DropWhileShape(s, NotTerminator);
      assert s[..|s|] == s;
    } else {
      var after := DropWhile(rest, IsTerminator);
      SplitRunsHead(s);
      SplitRunsShape(after);
      SplitRunsFirst(after);
      ShapeCons(s[..|s| - |rest|], rest[..|rest| - |after|], SplitRuns(after), RunCount(after));
    }
  }

  /** A text piece, the run after it, and what follows the run make up the input. */
  lemma SplitRunsParts(s: string)
    ensures var rest := DropWhile(s, NotTerminator); var after := DropWhile(rest, IsTerminator);
      s == s[..|s| - |rest|] + (rest[..|rest| - |after|] + after)
  {
    DropWhileSuffix(s, NotTerminator);
    DropWhileSuffix(DropWhile(s, NotTerminator), IsTerminator);
  }

  /** Splitting loses nothing: the pieces and runs concatenate to the input. */
  lemma {:induction false} SplitRunsConcat(s: string)
    ensures Concat(SplitRuns(s)) == s
    decreases |s|
  {
    var rest := DropWhile(s, NotTerminator);
    if rest == [] {
      ConcatLast([], s);
    } else {
      var after := DropWhile(rest, IsTerminator);
      SplitRunsParts(s);
      SplitRunsConcat(after);
      ConcatPair(s[..|s| - |rest|], rest[..|rest| - |after|], SplitRuns(after));
    }
  }

  /** `s[from::2]`. */
  function EveryOther(s: seq<string>, from: nat): seq<string> {
    if from >= |s| then [] else seq((|s| - from + 1) / 2, i requires 0 <= i < (|s| - from + 1) / 2 => s[from + 2 * i])
  }

  /** `"".join(pair)` for every pair of `zip_longest(a, b, fillvalue="")`. */
  function ZipJoin(a: seq<string>, b: seq<string>): seq<string> {
    var n := if |a| >= |b| then |a| else |b|;
    seq(n, i requires 0 <= i < n => (if i < |a| then a[i] else "") + (if i < |b| then b[i] else ""))
  }

  /** Each text piece joined with the run that follows it; the last piece has none. */
  function Pairs(p: seq<string>): seq<string> {
    ZipJoin(EveryOther(p, 0), EveryOther(p, 1))
  }

  lemma PairsAt(p: seq<string>, n: nat)
    requires |p| == 2 * n + 1
    ensures |Pairs(p)| == n + 1
    ensures forall k :: 0 <= k < n ==> Pairs(p)[k] == p[2 * k] + p[2 * k + 1]
    ensures Pairs(p)[n] == p[2 * n] + ""
  {
    assert (|p| + 1) / 2 == n + 1;
    assert |p| / 2 == n;
  }

  /** Two lists of pairs that agree after their first element, as `PairsAt` describes
      them for `p` and for `p` without its first piece and run. */
  lemma PairsShift(p: seq<string>, q: seq<string>, l: seq<string>, t: seq<string>, n: nat)
    requires |p| == 2 * n + 1 && n >= 1 && q == p[2..]
    requires |l| == n + 1 && (forall k :: 0 <= k < n ==> l[k] == p[2 * k] + p[2 * k + 1]) && l[n] == p[2 * n] + ""
    requires |t| == n && (forall k :: 0 <= k < n - 1 ==> t[k] == q[2 * k] + q[2 * k + 1]) && t[n - 1] == q[2 * (n - 1)] + ""
    ensures l == [p[0] + p[1]] + t
  {
    forall k | 1 <= k <= n ensures l[k] == t[k - 1] {
      var j := k - 1;
      if k < n {
        assert q[2 * j] == p[2 * k] && q[2 * j + 1] == p[2 * k + 1];
      } else {
        assert q[2 * j] == p[2 * n];
      }
    }
    assert l[1..] == t;
  }

  /** Pairing off a list that starts with a piece and a run. */
  lemma PairsCons(p: seq<string>, n: nat)
    requires |p| == 2 * n + 1 && n >= 1
    ensures Pairs(p) == [p[0] + p[1]] + Pairs(p[2..])
  {
    PairsAt(p, n);
    PairsAt(p[2..], n - 1);
    PairsShift(p, p[2..], Pairs(p), Pairs(p[2..]), n);
  }

  /** Pairing off loses nothing either. */
  lemma {:induction false} PairsConcat(p: seq<string>, n: nat)
    requires |p| == 2 * n + 1
    ensures Concat(Pairs(p)) == Concat(p)
    decreases n
  {
    if n == 0 {
      PairsAt(p, n);
      assert Pairs(p) == [p[0] + ""];
      assert Concat(Pairs(p)) == p[0] + "" + [];
      assert Concat(p) == p[0] + [];
    } else {
      var q := p[2..];
      assert Concat(Pairs(p)) == (p[0] + p[1]) + Concat(q) by {
        PairsCons(p, n);
        var l := Pairs(p);
        assert l[0] == p[0] + p[1] && l[1..] == Pairs(q);
        PairsConcat(q, n - 1);
      }
      assert Concat(p) == p[0] + (p[1] + Concat(q)) by {
        assert p[1..][1..] == q;
      }
    }
  }

  /** Every element stripped. */
  function StripAll(ss: seq<string>): seq<string> {
    seq(|ss|, i requires 0 <= i < |ss| => Strip(ss[i]))
  }

  /** Stripping one more element extends the stripped prefix by that element, stripped. */
  lemma StripAllSnoc(ss: seq<string>, i: nat)
    requires i < |ss|
    ensures StripAll(ss[..i + 1]) == StripAll(ss[..i]) + [Strip(ss[i])]
  {
    var a, b := StripAll(ss[..i + 1]), StripAll(ss[..i]) + [Strip(ss[i])];
    assert |a| == |b|;
    forall k | 0 <= k < |a| ensures a[k] == b[k] {
      if k < i {
        assert a[k] == Strip(ss[k]) == b[k];
      }
    }
  }

  /** `[s for s in ss if s]`. */
  function NonEmpty(ss: seq<string>): (r: seq<string>)
    ensures |r| <= |ss|
    ensures forall i :: 0 <= i < |r| ==> r[i] != []
  {
    if ss == [] then []
    else if ss[0] == [] then NonEmpty(ss[1..])
    else [ss[0]] + NonEmpty(ss[1..])
  }

  /** Lines 214-216: when the last sentence has no terminator it is popped and appended
      again. */
  function Reattach(ss: seq<string>): seq<string> {
    if ss != [] && !EndsWithTerminator(ss[|ss| - 1]) then ss[..|ss| - 1] + [ss[|ss| - 1]] else ss
  }

  /** The pop and append change nothing. */
  lemma ReattachNoOp(ss: seq<string>)
    ensures Reattach(ss) == ss
  {
    if ss != [] && !EndsWithTerminator(ss[|ss| - 1]) {
      assert ss[..|ss| - 1] + [ss[|ss| - 1]] == ss;
    }
  }

  /** `_split_sentences`. */
  function SplitSentences(buf: string): seq<string> {
    Reattach(NonEmpty(StripAll(Pairs(SplitRuns(buf)))))
  }

  /** All elements satisfy `p`, except perhaps the last. */
  ghost predicate AllButLast(ss: seq<string>, p: string -> bool) {
    forall i :: 0 <= i < |ss| - 1 ==> p(ss[i])
  }

  /** Dropping empty strings from a list whose every element but the last satisfies a
      property that only non-empty strings have keeps that shape. */
  lemma {:induction false} NonEmptyAllButLast(ss: seq<string>, p: string -> bool)
    requires AllButLast(ss, p) && forall s :: p(s) ==> s != []
    ensures AllButLast(NonEmpty(ss), p)
    decreases |ss|
  {
    if ss != [] {
      assert AllButLast(ss[1..], p) by {
        forall i | 0 <= i < |ss[1..]| - 1 ensures p(ss[1..][i]) {
          assert ss[1..][i] == ss[i + 1];
        }
      }
      NonEmptyAllButLast(ss[1..], p);
      var t := NonEmpty(ss[1..]);
      if ss[0] != [] {
        var r := [ss[0]] + t;
        forall i | 0 <= i < |r| - 1 ensures p(r[i]) {
          if i > 0 {
            assert r[i] == t[i - 1];
          }
        }
      }
    }
  }

  lemma {:induction false} NonEmptyConcat(ss: seq<string>)
    ensures Concat(NonEmpty(ss)) == Concat(ss)
    decreases |ss|
  {
    if ss != [] {
      NonEmptyConcat(ss[1..]);
      if ss[0] != [] {
        assert ([ss[0]] + NonEmpty(ss[1..]))[1..] == NonEmpty(ss[1..]);
      }
    }
  }

  /** An element kept by the filter is one of the input's elements. */
  lemma {:induction false} NonEmptyFrom(ss: seq<string>, p: string -> bool)
    requires forall i :: 0 <= i < |ss| ==> p(ss[i])
    ensures forall i :: 0 <= i < |NonEmpty(ss)| ==> p(NonEmpty(ss)[i])
    decreases |ss|
  {
    if ss != [] {
      NonEmptyFrom(ss[1..], p);
      if ss[0] != [] {
        var r := [ss[0]] + NonEmpty(ss[1..]);
        forall i | 0 <= i < |r| ensures p(r[i]) {
          if i > 0 {
            assert r[i] == NonEmpty(ss[1..])[i - 1];
          }
        }
      }
    }
  }

  lemma {:induction false} NonSpaceStripAll(ss: seq<string>)
    ensures NonSpace(Concat(StripAll(ss))) == NonSpace(Concat(ss))
    decreases |ss|
  {
    if ss != [] {
      NonSpaceStripAll(ss[1..]);
      assert StripAll(ss)[1..] == StripAll(ss[1..]);
      NonSpaceAppend(Strip(ss[0]), Concat(StripAll(ss[1..])));
      NonSpaceAppend(ss[0], Concat(ss[1..]));
      StripKeepsNonSpace(ss[0]);
    }
  }

  /** The split keeps every non-whitespace character of the buffer, in order: only
      whitespace at the edges of sentences is lost. */
  lemma SplitKeepsText(buf: string)
    ensures NonSpace(Concat(SplitSentences(buf))) == NonSpace(buf)
  {
    var p := SplitRuns(buf);
    ReattachNoOp(NonEmpty(StripAll(Pairs(p))));
    NonEmptyConcat(StripAll(Pairs(p)));
    NonSpaceStripAll(Pairs(p));
    SplitRunsShape(buf);
    PairsConcat(p, RunCount(buf));
    SplitRunsConcat(buf);
  }

  /** Text without terminators followed by a run of them is text followed by one run. */
  lemma TextThenRunAppend(t: string, run: string)
    requires All(t, NotTerminator) && All(run, IsTerminator)
    ensures TextThenRun(t + run)
  {
    var s := t + run;
    forall i, j | 0 <= i < j < |s| && IsTerminator(s[i]) ensures IsTerminator(s[j]) {
      assert s[j] == run[j - |t|];
    }
  }

  /** Any contiguous part of text followed by one run is again of that shape. */
  lemma TextThenRunSlice(s: string, a: nat, b: nat)
    requires a <= b <= |s| && TextThenRun(s)
    ensures TextThenRun(s[a..b])
  {
    var r := s[a..b];
    forall i, j | 0 <= i < j < |r| && IsTerminator(r[i]) ensures IsTerminator(r[j]) {
      assert r[i] == s[a + i] && r[j] == s[a + j];
    }
  }

  /** A piece of text followed by a non-empty run of terminators, once stripped, still
      ends with that run. */
  lemma StripBeforeRun(t: string, run: string)
    requires All(t, NotTerminator) && run != [] && All(run, IsTerminator)
    ensures EndsWithTerminator(Strip(t + run)) && TextThenRun(Strip(t + run))
  {
    var s := t + run;
    var r, a := Strip(s), |s| - |DropWhile(s, IsSpace)|;
    StripShape(s);
    assert EndsWithTerminator(r) by {
      assert s[|s| - 1] == run[|run| - 1];
      assert IsTerminator(s[|s| - 1]);
      assert r[|r| - 1] == s[|s| - 1];
    }
    assert TextThenRun(r) by {
      TextThenRunAppend(t, run);
      TextThenRunSlice(s, a, a + |r|);
    }
  }

  /** A stripped string with no terminator and no run is text only. */
  lemma StripTextOnly(t: string)
    requires All(t, NotTerminator)
    ensures TextThenRun(Strip(t + ""))
  {
    var s := t + "";
    StripShape(s);
    TextThenRunAppend(t, "");
    TextThenRunSlice(s, |s| - |DropWhile(s, IsSpace)|, |s| - |DropWhile(s, IsSpace)| + |Strip(s)|);
  }

  /** The pieces of a split, before filtering: every one but the last ends with a non-empty
      run of terminators, and every one is text followed by at most one run. */
  lemma PiecesShape(buf: string)
    ensures var q := StripAll(Pairs(SplitRuns(buf)));
      && AllButLast(q, EndsWithTerminator)
      && (forall i :: 0 <= i < |q| ==> Stripped(q[i]) && TextThenRun(q[i]))
  {
    var p, n := SplitRuns(buf), RunCount(buf);
    SplitRunsShape(buf);
    PairsAt(p, n);
    var q := StripAll(Pairs(p));
    forall k | 0 <= k < |q|
      ensures k < |q| - 1 ==> EndsWithTerminator(q[k])
      ensures Stripped(q[k]) && TextThenRun(q[k])
    {
      StripShape(Pairs(p)[k]);
      if k < n {
        StripBeforeRun(p[2 * k], p[2 * k + 1]);
      } else {
        StripTextOnly(p[2 * k]);
      }
    }
  }

  /** The shape of `_split_sentences`: no empty sentence, none with whitespace at either
      end, every one but the last ends with a terminator, and every one is text followed
      by at most one run of terminators. A run of terminators broken by whitespace is not
      one run (`"a. ! b"` gives `"a."`, `"!"`, `"b"`). */
  lemma SplitSentencesShape(buf: string)
    ensures var r := SplitSentences(buf);
      && (forall i :: 0 <= i < |r| ==> r[i] != [] && Stripped(r[i]) && TextThenRun(r[i]))
      && AllButLast(r, EndsWithTerminator)
  {
    var q := StripAll(Pairs(SplitRuns(buf)));
    PiecesShape(buf);
    ReattachNoOp(NonEmpty(q));
    NonEmptyAllButLast(q, EndsWithTerminator);
    NonEmptyFrom(q, (s: string) => Stripped(s) && TextThenRun(s));
  }

  /** Terminators separated by whitespace are not one run: `"a. ! b"` splits into `"a."`,
      `"!"` and `"b"`, a sentence made of a terminator alone. */
  lemma SpacedTerminators()
    ensures SplitSentences("a. ! b") == ["a.", "!", "b"]
  {
    SpacedRuns();
    PairsOfFive("a", ".", " ", "!", " b");
    SpacedPairs();
    SpacedStrips();
    assert NonEmpty(["a.", "!", "b"]) == ["a.", "!", "b"];
    ReattachNoOp(["a.", "!", "b"]);
  }

  /** The three joined pairs of that split. */
  lemma SpacedPairs()
    ensures ["a" + ".", " " + "!", " b"] == ["a.", " !", " b"]
  {
    assert "a" + "." == "a." by {
      assert |"a" + "."| == 2 && ("a" + ".")[0] == 'a' && ("a" + ".")[1] == '.';
    }
    assert " " + "!" == " !" by {
      assert |" " + "!"| == 2 && (" " + "!")[0] == ' ' && (" " + "!")[1] == '!';
    }
  }

  /** The three pairs stripped. */
  lemma SpacedStrips()
    ensures StripAll(["a.", " !", " b"]) == ["a.", "!", "b"]
  {
    assert Strip("a.") == "a." && Strip(" !") == "!" && Strip(" b") == "b";
  }

  /** The split of `"a. ! b"`: two runs of one terminator each, whitespace between them. */
  lemma SpacedRuns()
    ensures SplitRuns("a. ! b") == ["a", ".", " ", "!", " b"]
  {
    SpacedParts();
    SplitRunsNone(" b");
    SplitRunsStep(" ", "!", " b", " ! b");
    SplitRunsStep("a", ".", " ! b", "a. ! b");
  }

  /** `"a. ! b"` as its text pieces and runs. */
  lemma SpacedParts()
    ensures "a" + "." + " ! b" == "a. ! b" && " " + "!" + " b" == " ! b"
  {
    assert |"a" + "." + " ! b"| == 6;
    assert |" " + "!" + " b"| == 4;
  }

  /** Pairing five pieces: two texts with the runs after them, then the last text. */
  lemma PairsOfFive(x0: string, x1: string, x2: string, x3: string, x4: string)
    ensures Pairs([x0, x1, x2, x3, x4]) == [x0 + x1, x2 + x3, x4]
  {
    var p := [x0, x1, x2, x3, x4];
    PairsAt(p, 2);
    assert x4 + "" == x4;
  }

  /** A string without terminators is one piece. */
  lemma SplitRunsNone(t: string)
    requires forall i :: 0 <= i < |t| ==> NotTerminator(t[i])
    ensures SplitRuns(t) == [t]
  {
    assert t + [] == t;
    DropWhileAll(t, [], NotTerminator);
  }

  /** One step of the split: text free of terminators, then a run of them, then anything
      not starting with a terminator gives the text, the run, then the split of the rest. */
  lemma SplitRunsStep(t: string, r: string, after: string, s: string)
    requires forall i :: 0 <= i < |t| ==> NotTerminator(t[i])
    requires r != [] && forall i :: 0 <= i < |r| ==> IsTerminator(r[i])
    requires after == [] || !IsTerminator(after[0])
    requires s == t + r + after
    ensures SplitRuns(s) == [t, r] + SplitRuns(after)
  {
    var rest := r + after;
    assert s == t + rest;
    DropWhileAll(t, rest, NotTerminator);
    DropWhileAll(r, after, IsTerminator);
    assert s[..|s| - |rest|] == t;
    assert rest[..|rest| - |after|] == r;
  }

  /** A buffer with a terminator splits into at least one sentence, so `sentences[-1]` in
      `_handle_buffer` always exists. */
  lemma SplitNonEmpty(buf: string)
    requires HasCompleteSentence(buf)
    ensures SplitSentences(buf) != []
  {
    HasCompleteSentenceIff(buf);
    var p, n := SplitRuns(buf), RunCount(buf);
    SplitRunsShape(buf);
    if n == 0 {
      SplitRunsConcat(buf);
      assert false;
    }
    PairsAt(p, n);
    PiecesShape(buf);
    var q := StripAll(Pairs(p));
    assert EndsWithTerminator(q[0]);
    assert NonEmpty(q) == [q[0]] + NonEmpty(q[1..]);
    ReattachNoOp(NonEmpty(q));
  }

  /** The opening quotes `" “ ‘`. */
  predicate IsOpenQuote(c: char) {
    c == '"' || c == '\U{201C}' || c == '\U{2018}'
  }

  /** The closing quotes `" ” ’`. */
  predicate IsCloseQuote(c: char) {
    c == '"' || c == '\U{201D}' || c == '\U{2019}'
  }

  /** `re.sub(r'\s+', ' ', s)`: every run of whitespace becomes one space. */
  function Collapse(s: string): (r: string)
    decreases |s|
  {
    if s == [] then []
    else if IsSpace(s[0]) then
      var rest := DropWhile(s, IsSpace);
      [' '] + Collapse(rest)
    else [s[0]] + Collapse(s[1..])
  }

  /** No whitespace but single spaces: every whitespace character is a space and is
      followed by something other than whitespace. */
  predicate SingleSpaced(s: string) {
    forall i :: 0 <= i < |s| && IsSpace(s[i]) ==> s[i] == ' ' && (i + 1 < |s| ==> !IsSpace(s[i + 1]))
  }

  /** The collapsed string is single-spaced, starts with whitespace exactly when the input
      does, and keeps every other character in order. */
  lemma {:induction false} CollapseShape(s: string)
    ensures SingleSpaced(Collapse(s))
    ensures Collapse(s) != [] <==> s != []
    ensures s != [] ==> (IsSpace(Collapse(s)[0]) <==> IsSpace(s[0]))
    ensures NonSpace(Collapse(s)) == NonSpace(s)
    decreases |s|
  {
    if s != [] {
      var r := Collapse(s);
      if IsSpace(s[0]) {
        var rest := DropWhile(s, IsSpace);
        DropWhileShape(s, IsSpace);
        CollapseShape(rest);
        var c := Collapse(rest);
        assert r == [' '] + c;
        forall i | 0 <= i < |r| && IsSpace(r[i]) ensures r[i] == ' ' && (i + 1 < |r| ==> !IsSpace(r[i + 1])) {
          if i == 0 {
            if 1 < |r| {
              assert r[1] == c[0] && rest != [];
            }
          } else {
            assert r[i] == c[i - 1];
          }
        }
        NonSpaceAppend([' '], c);
        DropSpaceKeepsNonSpace(s);
      } else {
        CollapseShape(s[1..]);
        var c := Collapse(s[1..]);
        assert r == [s[0]] + c;
        forall i | 0 <= i < |r| && IsSpace(r[i]) ensures r[i] == ' ' && (i + 1 < |r| ==> !IsSpace(r[i + 1])) {
          assert r[i] == c[i - 1];
        }
        NonSpaceAppend([s[0]], c);
        assert s == [s[0]] + s[1..];
        NonSpaceAppend([s[0]], s[1..]);
      }
    }
  }

  /** Removing the quotes, `re.sub(r'^["“‘]+|["”’]+$', '', s)`: the longest prefix of opening
      quotes and then the longest suffix of closing quotes of what is left. */
  function StripQuotes(s: string): (r: string) {
    Trim(s, IsOpenQuote, IsCloseQuote)
  }

  /** What is left is one contiguous part of the input, preceded only by opening quotes and
      followed only by closing quotes, and neither starting with an opening quote nor
      ending with a closing quote. */
  lemma StripQuotesShape(s: string)
    ensures var r := StripQuotes(s); var a := |s| - |DropWhile(s, IsOpenQuote)|;
      && a + |r| <= |s| && r == s[a..a + |r|]
      && All(s[..a], IsOpenQuote) && All(s[a + |r|..], IsCloseQuote)
      && (r != [] ==> !IsOpenQuote(r[0]) && !IsCloseQuote(r[|r| - 1]))
  {
    TrimShape(s, IsOpenQuote, IsCloseQuote);
  }

  /** One sentence of `_clean_sentences`: stripped, whitespace collapsed, quotes removed. */
  function CleanOne(s: string): string {
    StripQuotes(Collapse(Strip(s)))
  }

  /** Any contiguous part of a single-spaced string is single-spaced. */
  lemma SingleSpacedSlice(s: string, a: nat, b: nat)
    requires a <= b <= |s| && SingleSpaced(s)
    ensures SingleSpaced(s[a..b])
  {
    var r := s[a..b];
    forall i | 0 <= i < |r| && IsSpace(r[i]) ensures r[i] == ' ' && (i + 1 < |r| ==> !IsSpace(r[i + 1])) {
      assert r[i] == s[a + i];
      if i + 1 < |r| {
        assert r[i + 1] == s[a + i + 1];
      }
    }
  }

  /** A cleaned sentence is single-spaced. */
  lemma CleanOneShape(s: string)
    ensures SingleSpaced(CleanOne(s))
  {
    var c := Collapse(Strip(s));
    CollapseShape(Strip(s));
    StripQuotesShape(c);
    var a := |c| - |DropWhile(c, IsOpenQuote)|;
    SingleSpacedSlice(c, a, a + |CleanOne(s)|);
  }

  /** Collapsing keeps a stripped string stripped, so before quote removal a cleaned
      sentence neither starts nor ends with whitespace. */
  lemma CollapseKeepsStripped(t: string)
    requires Stripped(t)
    ensures Stripped(Collapse(t))
  {
    CollapseShape(t);
    if t != [] {
      CollapseLast(t);
    }
  }

  /** The collapsed string ends with whitespace exactly when the input does. */
  lemma {:induction false} CollapseLast(s: string)
    requires s != []
    ensures Collapse(s) != [] && (IsSpace(Collapse(s)[|Collapse(s)| - 1]) <==> IsSpace(s[|s| - 1]))
    decreases |s|
  {
    CollapseShape(s);
    var r := Collapse(s);
    if IsSpace(s[0]) {
      var rest := DropWhile(s, IsSpace);
      DropWhileShape(s, IsSpace);
      if rest != [] {
        CollapseLast(rest);
        assert r[|r| - 1] == Collapse(rest)[|Collapse(rest)| - 1];
        assert s[|s| - 1] == rest[|rest| - 1];
      } else {
        assert r == [' '];
        assert All(s[..|s|], IsSpace);
        assert s[..|s|][|s| - 1] == s[|s| - 1];
      }
    } else if |s| > 1 {
      CollapseLast(s[1..]);
      assert r[|r| - 1] == Collapse(s[1..])[|Collapse(s[1..])| - 1];
    }
  }

  /** `_clean_sentences`. */
  method CleanSentences(sentences: seq<string>) returns (cleanedSentences: seq<string>)
    ensures |cleanedSentences| == |sentences|
    ensures forall i :: 0 <= i < |sentences| ==> cleanedSentences[i] == CleanOne(sentences[i])
  {
    cleanedSentences := [];
    var k := 0;
    while k < |sentences|
      invariant 0 <= k <= |sentences|
      invariant |cleanedSentences| == k
      invariant forall i :: 0 <= i < k ==> cleanedSentences[i] == CleanOne(sentences[i])
    {
      var cleanedSentence := Strip(sentences[k]);
      cleanedSentence := Collapse(cleanedSentence);
      cleanedSentence := StripQuotes(cleanedSentence);
      cleanedSentences := cleanedSentences + [cleanedSentence];
      k := k + 1;
    }
  }
}
