/**
  The tag-extraction state machine of the assistant's stream reader
  (`VisualNovelAIAssistant._process_stream`), as a function over its local state.
  Each text increment is appended to the buffer; then at most one `<jp>…</jp>` and
  at most one `<cn>…</cn>` fragment are cut out of it. The `<cn>` search runs only once
  the phase is 1, and the phase, once 1, stays 1: the statement meant to reset it is a
  comparison whose value is thrown away.
*/
module TagParser {
  import opened Base
  import opened Text
  import opened Channels

  datatype Tag = Jp | Cn

  function Open(t: Tag): string {
    match t
    case Jp => "<jp>"
    case Cn => "<cn>"
  }

  function Close(t: Tag): string {
    match t
    case Jp => "</jp>"
    case Cn => "</cn>"
  }

  /** The shape both tag pairs share: a four-character opening tag and a five-character
      closing tag starting with '<', the opening tag having no further '<' and differing
      from the closing tag in its second character. */
  predicate TagPair(open: string, close: string) {
    && |open| == 4 && |close| == 5 && open[0] == '<' && close[0] == '<'
    && open[1] != '<' && open[2] != '<' && open[3] != '<' && open[1] != close[1]
  }

  lemma TagPairs(t: Tag)
    ensures TagPair(Open(t), Close(t))
  {
  }

  /** A completed tag pair found in a buffer: the index of the opening tag, the index of
      the closing tag, the text between them and the text after the closing tag. */
  datatype Cut = Cut(start: nat, end: nat, fragment: string, rest: string)

  /** A closing tag never starts inside the opening tag it follows. */
  lemma CloseAfterOpen(buf: string, open: string, close: string, s: nat, e: nat)
    requires TagPair(open, close)
    requires MatchAt(buf, open, s) && MatchAt(buf, close, e) && s <= e
    ensures s + 4 <= e
  {
    assert buf[s..s + 4] == open;
    assert buf[s + 1] == open[1] && buf[s + 2] == open[2] && buf[s + 3] == open[3];
    assert buf[e..e + 5] == close;
    assert buf[e] == close[0] && buf[e + 1] == close[1];
  }

  /** `start = buf.find(open)`, then `end = buf.find(close, start)`; on success the fragment
      is `buf[start+4:end]` and the buffer continues with `buf[end+5:]`. */
  function ExtractPair(buf: string, open: string, close: string): (r: Option<Cut>)
    requires TagPair(open, close)
    ensures r.Some? ==> r.value.start + 4 <= r.value.end && r.value.end + 5 <= |buf|
  {
    var s := Find(buf, open, 0);
    if s == -1 then None
    else
      var e := Find(buf, close, s as nat);
      if e == -1 then None
      else
        FindFound(buf, open, 0);
        FindFound(buf, close, s as nat);
        CloseAfterOpen(buf, open, close, s as nat, e as nat);
        Some(Cut(s as nat, e as nat, buf[s + 4..e], buf[e + 5..]))
  }

  /** The fragment is the text between the first opening tag and the first closing tag
      after it, and the rest is what follows that closing tag. */
  lemma ExtractSome(buf: string, open: string, close: string)
    requires TagPair(open, close) && ExtractPair(buf, open, close).Some?
    ensures var c := ExtractPair(buf, open, close).value;
      && FirstMatch(buf, open, 0, c.start)
      && FirstMatch(buf, close, c.start, c.end)
      && c.fragment == buf[c.start + 4..c.end]
      && c.rest == buf[c.end + 5..]
  {
    FindFound(buf, open, 0);
    FindFound(buf, close, Find(buf, open, 0) as nat);
  }

  /** The extraction step for one language. */
  function ExtractTag(buf: string, t: Tag): Option<Cut> {
    TagPairs(t);
    ExtractPair(buf, Open(t), Close(t))
  }

  /** A pair is found exactly when some closing tag starts at or after some opening tag. */
  lemma ExtractNoneIff(buf: string, open: string, close: string)
    requires TagPair(open, close)
    ensures ExtractPair(buf, open, close).None? <==>
      forall i: nat, j: nat :: MatchAt(buf, open, i) && i <= j ==> !MatchAt(buf, close, j)
  {
    var s := Find(buf, open, 0);
    FindNone(buf, open, 0);
    if s != -1 {
      FindFound(buf, open, 0);
      var e := Find(buf, close, s as nat);
      FindNone(buf, close, s as nat);
      if e != -1 {
        FindFound(buf, close, s as nat);
      } else {
        forall i: nat, j: nat | MatchAt(buf, open, i) && i <= j
          ensures !MatchAt(buf, close, j)
        {
          assert s as nat <= i;
        }
      }
    }
  }

  /** `pat` does not occur in `s` at `i`, because the characters at offset `k` differ. */
  lemma Differs(s: string, pat: string, i: nat, k: nat)
    requires i + |pat| <= |s| && k < |pat| && s[i + k] != pat[k]
    ensures !MatchAt(s, pat, i)
  {
    assert s[i..i + |pat|][k] == s[i + k];
  }

  /** No closing tag lies strictly inside a slice that, in `buf`, ends before the first
      closing tag at or after `from`. */
  lemma NoCloseInside(buf: string, close: string, from: nat, e: nat, lo: nat)
    requires close != [] && FirstMatch(buf, close, from, e) && from <= lo <= e
    ensures forall k: nat :: !MatchAt(buf[lo..e], close, k)
  {
    var f := buf[lo..e];
    forall k: nat
      ensures !MatchAt(f, close, k)
    {
      if k + |close| <= |f| {
        assert !MatchAt(buf, close, lo + k);
        SliceOfSlice(buf, lo, e, k, k + |close|);
      }
    }
  }

  /** The fragment holds no closing tag of its own kind. */
  lemma FragmentHasNoClose(buf: string, open: string, close: string)
    requires TagPair(open, close) && ExtractPair(buf, open, close).Some?
    ensures forall k: nat :: !MatchAt(ExtractPair(buf, open, close).value.fragment, close, k)
  {
    var c := ExtractPair(buf, open, close).value;
    ExtractSome(buf, open, close);
    NoCloseInside(buf, close, c.start, c.end, c.start + 4);
  }

  /** The local state of one `_process_stream` call: the buffer, the phase, the current
      sequence number, the allocator's counter, the accumulated fragments of each
      language, and the entries pushed so far (`jpOut` goes to both `jp_queue` and
      `jp_queue_tts`, `cnOut` to `cn_queue`). */
  datatype ParseState = ParseState(
    buffer: string, phase: nat, seqNo: nat, counter: nat,
    jp: string, cn: string,
    jpOut: seq<Entry<string>>, cnOut: seq<Entry<string>>)

  /** The state right after `seq = self._get_sequence_number()` with the counter at `counter`. */
  function Start(counter: nat): ParseState {
    ParseState("", 0, counter, counter + 1, "", "", [], [])
  }

  /** The `<jp>` step of one increment. */
  function TakeJp(p: ParseState): ParseState {
    match ExtractTag(p.buffer, Jp)
    case None => p
    case Some(c) =>
      p.(buffer := c.rest, phase := 1, jp := p.jp + c.fragment,
         jpOut := p.jpOut + [Entry(p.seqNo, Some(c.fragment))])
  }

  /** The `<cn>` step of one increment: only in phase 1; on success a fresh sequence number
      is allocated and the phase is left as it is. */
  function TakeCn(p: ParseState): ParseState {
    if p.phase != 1 then p
    else
      match ExtractTag(p.buffer, Cn)
      case None => p
      case Some(c) =>
        p.(buffer := c.rest, cn := p.cn + c.fragment,
           cnOut := p.cnOut + [Entry(p.seqNo, Some(c.fragment))],
           seqNo := p.counter, counter := p.counter + 1)
  }

  /** The `<jp>` step leaves the numbering and the Chinese side alone. */
  lemma TakeJpKeeps(p: ParseState)
    ensures var q := TakeJp(p);
      q.seqNo == p.seqNo && q.counter == p.counter && q.cn == p.cn && q.cnOut == p.cnOut
  {
  }

  /** The `<cn>` step leaves the phase and the Japanese side alone. */
  lemma TakeCnKeeps(p: ParseState)
    ensures var q := TakeCn(p);
      q.phase == p.phase && q.jp == p.jp && q.jpOut == p.jpOut
  {
  }

  /** One non-empty text increment. */
  function Feed(p: ParseState, content: string): ParseState {
    TakeCn(TakeJp(p.(buffer := p.buffer + content)))
  }

  /** All increments, in order. */
  function FeedAll(p: ParseState, contents: seq<string>): ParseState
    decreases |contents|
  {
    if contents == [] then p
    else Feed(FeedAll(p, contents[..|contents| - 1]), contents[|contents| - 1])
  }

  /** The contents of a queue's entries, a sentinel counting as "". */
  function Fragments(q: seq<Entry<string>>): (r: seq<string>)
    ensures |r| == |q|
  {
    if q == [] then [] else [if q[0].content.Some? then q[0].content.value else ""] + Fragments(q[1..])
  }

  lemma FragmentsAppend(a: seq<Entry<string>>, b: seq<Entry<string>>)
    ensures Fragments(a + b) == Fragments(a) + Fragments(b)
  {
    if a == [] {
      assert a + b == b;
    } else {
      assert (a + b)[1..] == a[1..] + b;
    }
  }

  /** What a stream reader started with the counter at `c0` keeps true:
      - the counter is always one past the current sequence number, so every number
        handed out is fresh;
      - the k-th `<cn>` fragment carries number c0 + k, and there is one per allocation
        after the first, so the cn numbers are distinct and increasing;
      - the `<jp>` entries carry non-decreasing numbers between c0 and the current one;
      - the accumulated texts are the concatenations of the fragments pushed, in order;
      - the phase is 0 or 1, and 0 only before the first `<jp>` fragment. */
  ghost predicate Inv(p: ParseState, c0: nat) {
    && p.counter == p.seqNo + 1
    && c0 <= p.seqNo && CnPushed(p.cnOut, c0, p.seqNo)
    && JpPushed(p.jpOut, c0, p.seqNo)
    && p.jp == Concat(Fragments(p.jpOut))
    && p.cn == Concat(Fragments(p.cnOut))
    && p.phase <= 1
    && (p.phase == 0 ==> p.jpOut == [] && p.cnOut == [])
  }

  /** The `<jp>` entries: in non-decreasing order of number, between `c0` and `n`, each
      with a fragment. */
  ghost predicate JpPushed(out: seq<Entry<string>>, c0: nat, n: nat) {
    && Sorted(Seqs(out))
    && (forall k :: 0 <= k < |out| ==> c0 <= out[k].seqNo <= n && out[k].content.Some?)
  }

  lemma JpPushedSnoc(out: seq<Entry<string>>, c0: nat, n: nat, f: string)
    requires JpPushed(out, c0, n) && c0 <= n
    ensures JpPushed(out + [Entry(n, Some(f))], c0, n)
  {
    SeqsAppend(out, [Entry(n, Some(f))]);
    SortedSnoc(Seqs(out), n);
    assert Seqs(out + [Entry(n, Some(f))]) == Seqs(out) + [n];
  }

  lemma JpPushedRaise(out: seq<Entry<string>>, c0: nat, n: nat, m: nat)
    requires JpPushed(out, c0, n) && n <= m
    ensures JpPushed(out, c0, m)
  {
  }

  /** The `<cn>` entries: one per number from `c0` up to, not including, `n`, each with
      a fragment. */
  ghost predicate CnPushed(out: seq<Entry<string>>, c0: nat, n: nat) {
    && |out| + c0 == n
    && (forall k :: 0 <= k < |out| ==> out[k].seqNo == c0 + k && out[k].content.Some?)
  }

  lemma CnPushedSnoc(out: seq<Entry<string>>, c0: nat, n: nat, f: string)
    requires CnPushed(out, c0, n)
    ensures CnPushed(out + [Entry(n, Some(f))], c0, n + 1)
  {
  }

  lemma StartInv(c0: nat)
    ensures Inv(Start(c0), c0)
  {
  }

  /** Concatenating one more fragment. */
  lemma ConcatSnoc(p: seq<Entry<string>>, e: Entry<string>)
    requires e.content.Some?
    ensures Concat(Fragments(p + [e])) == Concat(Fragments(p)) + e.content.value
  {
    FragmentsAppend(p, [e]);
    assert Fragments([e]) == [e.content.value];
    ConcatAppend(Fragments(p), [e.content.value]);
    assert Concat([e.content.value]) == e.content.value + [];
  }

  lemma {:induction false} TakeJpInv(p: ParseState, c0: nat)
    requires Inv(p, c0)
    ensures Inv(TakeJp(p), c0)
  {
    match ExtractTag(p.buffer, Jp)
    case None =>
    case Some(c) =>
      var e := Entry(p.seqNo, Some(c.fragment));
      var q := TakeJp(p);
      assert q.jpOut == p.jpOut + [e] && q.jp == p.jp + c.fragment;
      assert q.seqNo == p.seqNo && q.counter == p.counter && q.cnOut == p.cnOut && q.cn == p.cn;
      ConcatSnoc(p.jpOut, e);
      JpPushedSnoc(p.jpOut, c0, p.seqNo, c.fragment);
  }

  lemma {:induction false} TakeCnInv(p: ParseState, c0: nat)
    requires Inv(p, c0)
    ensures Inv(TakeCn(p), c0)
  {
    if p.phase == 1 {
      match ExtractTag(p.buffer, Cn)
      case None =>
      case Some(c) =>
        var e := Entry(p.seqNo, Some(c.fragment));
        var q := TakeCn(p);
        assert q.cnOut == p.cnOut + [e] && q.cn == p.cn + c.fragment;
        assert q.jpOut == p.jpOut && q.jp == p.jp && q.phase == 1;
        assert q.seqNo == p.seqNo + 1 && q.counter == q.seqNo + 1;
        ConcatSnoc(p.cnOut, e);
        CnPushedSnoc(p.cnOut, c0, p.seqNo, c.fragment);
        JpPushedRaise(p.jpOut, c0, p.seqNo, q.seqNo);
    }
  }

  /** Every increment keeps the invariant. */
  lemma FeedInv(p: ParseState, content: string, c0: nat)
    requires Inv(p, c0)
    ensures Inv(Feed(p, content), c0)
  {
    TakeJpInv(p.(buffer := p.buffer + content), c0);
    TakeCnInv(TakeJp(p.(buffer := p.buffer + content)), c0);
  }

  /** A whole stream keeps the invariant. */
  lemma {:induction false} FeedAllInv(c0: nat, contents: seq<string>)
    ensures Inv(FeedAll(Start(c0), contents), c0)
    decreases |contents|
  {
    if contents == [] {
      StartInv(c0);
    } else {
      FeedAllInv(c0, contents[..|contents| - 1]);
      FeedInv(FeedAll(Start(c0), contents[..|contents| - 1]), contents[|contents| - 1], c0);
    }
  }

  /** Feeding one more increment after a run of them. */
  lemma FeedAllSnoc(p: ParseState, contents: seq<string>, c: string)
    ensures FeedAll(p, contents + [c]) == Feed(FeedAll(p, contents), c)
  {
    assert (contents + [c])[..|contents|] == contents;
  }

  /** What a reader started at `c0` pushes onto the Japanese queues, sentinel included, is
      sorted, starts no lower than `c0` and stays below the counter after the final
      allocation; the same holds for the Chinese queue, whose numbers are moreover strictly
      increasing, since each `<cn>` entry takes a number of its own and the sentinel the
      next one. */
  lemma PushedInOrder(p: ParseState, c0: nat)
    requires Inv(p, c0)
    ensures var j := Seqs(p.jpOut + [Entry(p.seqNo, None)]);
      Sorted(j) && AtLeast(j, c0) && Below(j, p.counter + 1)
    ensures var c := Seqs(p.cnOut + [Entry(p.seqNo, None)]);
      StrictlySorted(c) && AtLeast(c, c0) && Below(c, p.counter + 1)
  {
    var e := Entry(p.seqNo, None);
    SeqsAppend(p.jpOut, [e]);
    SortedSnoc(Seqs(p.jpOut), p.seqNo);
    SeqsAppend(p.cnOut, [e]);
    assert Sorted(Seqs(p.jpOut));
    var c := Seqs(p.cnOut + [e]);
    forall i, j | 0 <= i < j < |c| ensures c[i] < c[j] {
      assert c[i] == c0 + i && c[j] == c0 + j;
    }
  }

  /** One increment pushes at most one `<jp>` and at most one `<cn>` entry, and only
      appends; a `<cn>` entry is pushed only in phase 1, which is then never left; the
      sequence number changes exactly when a `<cn>` entry is pushed, and then to the
      counter's value, which advances by one. */
  lemma FeedShape(p: ParseState, content: string)
    ensures var q := Feed(p, content);
      && |p.jpOut| <= |q.jpOut| <= |p.jpOut| + 1 && q.jpOut[..|p.jpOut|] == p.jpOut
      && |p.cnOut| <= |q.cnOut| <= |p.cnOut| + 1 && q.cnOut[..|p.cnOut|] == p.cnOut
      && (|q.cnOut| > |p.cnOut| ==> q.phase == 1 && (p.phase == 1 || |q.jpOut| > |p.jpOut|))
      && (p.phase == 1 ==> q.phase == 1)
      && (|q.cnOut| == |p.cnOut| ==> q.seqNo == p.seqNo && q.counter == p.counter)
      && (|q.cnOut| > |p.cnOut| ==> q.seqNo == p.counter && q.counter == p.counter + 1)
  {
  }

  /** When the buffer, after the increment, holds `<jp>` and later `</jp>`, the entry pushed
      is exactly the text between the first `<jp>` and the first `</jp>` after it, under
      the current number, and whatever preceded `<jp>` is gone from the buffer. */
  lemma JpExtracted(p: ParseState, content: string)
    requires ExtractTag(p.buffer + content, Jp).Some?
    ensures var c := ExtractTag(p.buffer + content, Jp).value;
      var q := Feed(p, content);
      && q.jpOut == p.jpOut + [Entry(p.seqNo, Some(c.fragment))]
      && q.jp == p.jp + c.fragment
      && q.phase == 1
      && (q.cnOut == p.cnOut ==> q.buffer == c.rest)
  {
  }

  /** A `<cn>` pair is cut out only in phase 1, under the number current at that moment. */
  lemma CnExtracted(p: ParseState, content: string)
    requires TakeJp(p.(buffer := p.buffer + content)).phase == 1
    requires ExtractTag(TakeJp(p.(buffer := p.buffer + content)).buffer, Cn).Some?
    ensures var m := TakeJp(p.(buffer := p.buffer + content));
      var c := ExtractTag(m.buffer, Cn).value;
      var q := Feed(p, content);
      && q.cnOut == p.cnOut + [Entry(p.seqNo, Some(c.fragment))]
      && q.buffer == c.rest && q.seqNo == p.counter
  {
  }

  /** In phase 0 nothing but the `<jp>` step can happen: with no `<jp>…</jp>` pair the
      increment only grows the buffer. */
  lemma NoPairOnlyBuffers(p: ParseState, content: string)
    requires p.phase == 0 && ExtractTag(p.buffer + content, Jp).None?
    ensures Feed(p, content) == p.(buffer := p.buffer + content)
  {
  }

  /** The pair cut out where the two searches land. */
  lemma ExtractFound(buf: string, open: string, close: string, s: nat, e: nat)
    requires TagPair(open, close)
    requires Find(buf, open, 0) == s && Find(buf, close, s) == e
    requires s + 4 <= e && e + 5 <= |buf|
    ensures ExtractPair(buf, open, close) == Some(Cut(s, e, buf[s + 4..e], buf[e + 5..]))
  {
  }

  /** The pair found is determined by where the first opening tag and the first closing
      tag after it are. */
  lemma ExtractAt(buf: string, open: string, close: string, s: nat, e: nat)
    requires TagPair(open, close)
    requires FirstMatch(buf, open, 0, s) && FirstMatch(buf, close, s, e)
    ensures s + 4 <= e && e + 5 <= |buf|
    ensures ExtractPair(buf, open, close) == Some(Cut(s, e, buf[s + 4..e], buf[e + 5..]))
  {
    CloseAfterOpen(buf, open, close, s, e);
    FindFirst(buf, open, 0, s);
    FindFirst(buf, close, s, e);
    ExtractFound(buf, open, close, s, e);
  }

  /** `s` has no '<', so no tag starts inside it. */
  predicate NoLt(s: string) {
    forall i :: 0 <= i < |s| ==> s[i] != '<'
  }

  /** A tag cannot start at a character other than '<'. */
  lemma NotAtLt(s: string, pat: string, j: nat)
    requires j < |s| && s[j] != '<' && pat != [] && pat[0] == '<'
    ensures !MatchAt(s, pat, j)
  {
    if j + |pat| <= |s| {
      Differs(s, pat, j, 0);
    }
  }

  /** A buffer that starts with a complete pair whose fragment holds no '<' yields that
      fragment and everything after the closing tag. */
  lemma PairCut(open: string, close: string, a: string, rest: string)
    requires TagPair(open, close) && NoLt(a)
    ensures ExtractPair(open + a + close + rest, open, close) == Some(Cut(0, 4 + |a|, a, rest))
  {
    var buf := open + a + close + rest;
    var e := 4 + |a|;
    assert buf[0..4] == open;
    assert buf[e..e + 5] == close;
    assert buf[4..e] == a;
    assert buf[e + 5..] == rest;
    forall j: nat | j < e
      ensures !MatchAt(buf, close, j)
    {
      if j == 0 {
        Differs(buf, close, 0, 1);
      } else if j < 4 {
        assert buf[j] == open[j];
        NotAtLt(buf, close, j);
      } else {
        assert buf[j] == a[j - 4];
        NotAtLt(buf, close, j);
      }
    }
    assert FirstMatch(buf, open, 0, 0);
    assert FirstMatch(buf, close, 0, e);
    ExtractAt(buf, open, close, 0, e);
  }

  /** A buffer that starts with a `<jp>` pair free of '<' moves to phase 1, with that
      fragment pushed under the current number. */
  lemma TakeJpPair(p: ParseState, a: string, rest: string)
    requires NoLt(a) && p.buffer == Open(Jp) + a + Close(Jp) + rest
    ensures TakeJp(p) == p.(buffer := rest, phase := 1, jp := p.jp + a,
                            jpOut := p.jpOut + [Entry(p.seqNo, Some(a))])
  {
    TagPairs(Jp);
    PairCut(Open(Jp), Close(Jp), a, rest);
  }

  /** In phase 1 a buffer that starts with a `<cn>` pair free of '<' pushes that fragment
      under the current number and allocates the next one. */
  lemma TakeCnPair(p: ParseState, b: string, rest: string)
    requires NoLt(b) && p.phase == 1 && p.buffer == Open(Cn) + b + Close(Cn) + rest
    ensures TakeCn(p) == p.(buffer := rest, cn := p.cn + b,
                            cnOut := p.cnOut + [Entry(p.seqNo, Some(b))],
                            seqNo := p.counter, counter := p.counter + 1)
  {
    TagPairs(Cn);
    PairCut(Open(Cn), Close(Cn), b, rest);
  }

  /** The one-increment reply is a `<jp>` pair followed by a `<cn>` pair. */
  lemma WholeReplyBuffer(a: string, b: string)
    ensures "" + ("<jp>" + a + "</jp><cn>" + b + "</cn>")
         == Open(Jp) + a + Close(Jp) + (Open(Cn) + b + Close(Cn) + "")
  {
  }

  /** A reply that arrives as one increment in the expected shape, with fragments free of
      '<', yields one entry per language under the first number, consumes the whole
      buffer and allocates one further number. */
  lemma WholeReply(c0: nat, a: string, b: string)
    requires NoLt(a) && NoLt(b)
    ensures Feed(Start(c0), "<jp>" + a + "</jp><cn>" + b + "</cn>")
         == ParseState("", 1, c0 + 1, c0 + 2, a, b, [Entry(c0, Some(a))], [Entry(c0, Some(b))])
  {
    var tail := Open(Cn) + b + Close(Cn) + "";
    var p := Start(c0).(buffer := "" + ("<jp>" + a + "</jp><cn>" + b + "</cn>"));
    WholeReplyBuffer(a, b);
    var q := ParseState(tail, 1, c0, c0 + 1, a, "", [Entry(c0, Some(a))], []);
    assert TakeJp(p) == q by {
      TakeJpPair(p, a, tail);
      assert "" + a == a;
    }
    assert TakeCn(q) == ParseState("", 1, c0 + 1, c0 + 2, a, b, [Entry(c0, Some(a))], [Entry(c0, Some(b))]) by {
      TakeCnPair(q, b, "");
      assert "" + b == b;
    }
  }

  /** The two tagged parts of a well-formed reply and the reply itself. */
  function JpPart(a: string): string {
    Open(Jp) + a + Close(Jp)
  }

  function CnPart(b: string): string {
    Open(Cn) + b + Close(Cn)
  }

  function TaggedReply(a: string, b: string): string {
    JpPart(a) + CnPart(b)
  }

  /** The reader once the `<jp>` fragment `a` is pushed, with `rest` left over. */
  function AfterJp(c0: nat, a: string, rest: string): ParseState {
    ParseState(rest, 1, c0, c0 + 1, a, "", [Entry(c0, Some(a))], [])
  }

  /** The reader once both fragments are pushed. */
  function AfterCn(c0: nat, a: string, b: string): ParseState {
    ParseState("", 1, c0 + 1, c0 + 2, a, b, [Entry(c0, Some(a))], [Entry(c0, Some(b))])
  }

  /** The reader after the first `|p|` characters of `TaggedReply(a, b)`, however they
      were chunked: nothing is cut before `</jp>` is complete, the `<jp>` fragment alone
      until `</cn>` is complete, and both fragments afterwards. */
  function AfterPrefix(c0: nat, a: string, b: string, p: string): ParseState {
    if |p| < |JpPart(a)| then Start(c0).(buffer := p)
    else if |p| < |TaggedReply(a, b)| then AfterJp(c0, a, p[|JpPart(a)|..])
    else AfterCn(c0, a, b)
  }

  /** A proper prefix of `open + a + close`, with `a` free of '<', holds no closing tag,
      so no pair is cut from it. */
  lemma NoPairInPrefix(open: string, close: string, a: string, s: string)
    requires TagPair(open, close) && NoLt(a)
    requires |s| < |open + a + close| && s == (open + a + close)[..|s|]
    ensures ExtractPair(s, open, close).None?
  {
    var t := open + a + close;
    forall j: nat
      ensures !MatchAt(s, close, j)
    {
      if j + 5 <= |s| {
        assert s[j] == t[j];
        if j == 0 {
          assert s[1] == t[1] == open[1];
          Differs(s, close, 0, 1);
        } else if j < 4 {
          assert t[j] == open[j];
          NotAtLt(s, close, j);
        } else {
          assert t[j] == a[j - 4];
          NotAtLt(s, close, j);
        }
      }
    }
    ExtractNoneIff(s, open, close);
  }

  /** No `<jp>` starts in a prefix of a `<cn>` part whose fragment is free of '<'. */
  lemma NoJpInCnPrefix(b: string, s: string)
    requires NoLt(b) && |s| <= |CnPart(b)| && s == CnPart(b)[..|s|]
    ensures ExtractTag(s, Jp).None?
  {
    var t := CnPart(b);
    var open := Open(Jp);
    forall i: nat
      ensures !MatchAt(s, open, i)
    {
      if i + 4 <= |s| {
        assert s[i] == t[i] && s[i + 1] == t[i + 1];
        if i == 0 {
          Differs(s, open, 0, 1);
        } else if i < 4 {
          NotAtLt(s, open, i);
        } else if i < 4 + |b| {
          assert t[i] == b[i - 4];
          NotAtLt(s, open, i);
        } else if i == 4 + |b| {
          Differs(s, open, i, 1);
        } else {
          assert t[i] == Close(Cn)[i - 4 - |b|];
          NotAtLt(s, open, i);
        }
      }
    }
    TagPairs(Jp);
    ExtractNoneIff(s, open, Close(Jp));
  }

  /** The `<cn>` step after the `<jp>` fragment: nothing until `</cn>` is complete, then the
      `<cn>` fragment is pushed and a new number allocated. */
  lemma CnStep(c0: nat, a: string, b: string, rest: string)
    requires NoLt(b) && |rest| <= |CnPart(b)| && rest == CnPart(b)[..|rest|]
    ensures TakeCn(AfterJp(c0, a, rest))
         == if |rest| < |CnPart(b)| then AfterJp(c0, a, rest) else AfterCn(c0, a, b)
  {
    TagPairs(Cn);
    if |rest| < |CnPart(b)| {
      NoPairInPrefix(Open(Cn), Close(Cn), b, rest);
    } else {
      assert rest == Open(Cn) + b + Close(Cn) + "";
      TakeCnPair(AfterJp(c0, a, rest), b, "");
      assert "" + b == b;
    }
  }

  /** A fresh reader whose buffer holds a prefix of the reply. */
  lemma FreshReader(c0: nat, a: string, b: string, q: string)
    requires NoLt(a) && NoLt(b)
    requires |q| <= |TaggedReply(a, b)| && q == TaggedReply(a, b)[..|q|]
    ensures TakeCn(TakeJp(Start(c0).(buffer := q))) == AfterPrefix(c0, a, b, q)
  {
    var n := |JpPart(a)|;
    var s := Start(c0).(buffer := q);
    TagPairs(Jp);
    if |q| < n {
      assert q == JpPart(a)[..|q|];
      NoPairInPrefix(Open(Jp), Close(Jp), a, q);
    } else {
      FreshReaderPastJp(c0, a, b, q);
    }
  }

  /** The same, once the buffer holds the whole Japanese part. */
  lemma FreshReaderPastJp(c0: nat, a: string, b: string, q: string)
    requires NoLt(a) && NoLt(b)
    requires |JpPart(a)| <= |q| <= |TaggedReply(a, b)| && q == TaggedReply(a, b)[..|q|]
    ensures TakeCn(TakeJp(Start(c0).(buffer := q))) == AfterPrefix(c0, a, b, q)
  {
    var rest := q[|JpPart(a)|..];
    var s := Start(c0).(buffer := q);
    PrefixPastJp(a, b, q);
    TakeJpPair(s, a, rest);
    assert "" + a == a;
    assert TakeJp(s) == AfterJp(c0, a, rest);
    CnStep(c0, a, b, rest);
  }

  /** A prefix of the reply that holds the whole Japanese part: that part, then a prefix
      of the Chinese part. */
  lemma PrefixPastJp(a: string, b: string, q: string)
    requires |JpPart(a)| <= |q| <= |TaggedReply(a, b)| && q == TaggedReply(a, b)[..|q|]
    ensures q == Open(Jp) + a + Close(Jp) + q[|JpPart(a)|..]
    ensures q[|JpPart(a)|..] == CnPart(b)[..|q| - |JpPart(a)|]
  {
    var n := |JpPart(a)|;
    assert q == q[..n] + q[n..];
    assert q[..n] == JpPart(a);
  }

  /** One chunk from before `</jp>` is complete. */
  lemma FeedBeforeJp(c0: nat, a: string, b: string, p: string, c: string)
    requires NoLt(a) && NoLt(b) && |p| < |JpPart(a)|
    requires |p + c| <= |TaggedReply(a, b)| && p + c == TaggedReply(a, b)[..|p + c|]
    ensures Feed(AfterPrefix(c0, a, b, p), c) == AfterPrefix(c0, a, b, p + c)
  {
    assert AfterPrefix(c0, a, b, p).(buffer := p + c) == Start(c0).(buffer := p + c);
    FreshReader(c0, a, b, p + c);
  }

  /** One chunk from after `</jp>` and before `</cn>` is complete. */
  lemma FeedBeforeCn(c0: nat, a: string, b: string, p: string, c: string)
    requires NoLt(a) && NoLt(b) && |JpPart(a)| <= |p| < |TaggedReply(a, b)|
    requires |p + c| <= |TaggedReply(a, b)| && p + c == TaggedReply(a, b)[..|p + c|]
    ensures Feed(AfterPrefix(c0, a, b, p), c) == AfterPrefix(c0, a, b, p + c)
  {
    var q, n := p + c, |JpPart(a)|;
    var rest := q[n..];
    assert p[n..] + c == rest;
    assert rest == CnPart(b)[..|rest|];
    var s := AfterJp(c0, a, rest);
    assert AfterPrefix(c0, a, b, p).(buffer := p[n..] + c) == s;
    NoJpInCnPrefix(b, rest);
    CnStep(c0, a, b, rest);
  }

  /** One chunk once the whole reply is in: it can only be empty, and changes nothing. */
  lemma FeedAfterCn(c0: nat, a: string, b: string, p: string, c: string)
    requires NoLt(a) && NoLt(b) && |TaggedReply(a, b)| <= |p|
    requires |p + c| <= |TaggedReply(a, b)| && p + c == TaggedReply(a, b)[..|p + c|]
    ensures Feed(AfterPrefix(c0, a, b, p), c) == AfterPrefix(c0, a, b, p + c)
  {
    assert c == "";
    var s := AfterCn(c0, a, b);
    assert s.(buffer := s.buffer + c) == s;
    NoJpInCnPrefix(b, "");
    TagPairs(Cn);
    NoPairInPrefix(Open(Cn), Close(Cn), b, "");
  }

  /** The reader's state depends only on how much of the reply has arrived. */
  lemma FeedPrefix(c0: nat, a: string, b: string, p: string, c: string)
    requires NoLt(a) && NoLt(b)
    requires |p + c| <= |TaggedReply(a, b)| && p + c == TaggedReply(a, b)[..|p + c|]
    ensures Feed(AfterPrefix(c0, a, b, p), c) == AfterPrefix(c0, a, b, p + c)
  {
    if |p| < |JpPart(a)| {
      FeedBeforeJp(c0, a, b, p, c);
    } else if |p| < |TaggedReply(a, b)| {
      FeedBeforeCn(c0, a, b, p, c);
    } else {
      FeedAfterCn(c0, a, b, p, c);
    }
  }

  /** Chunks that join to a prefix of the reply leave the reader in `AfterPrefix`. */
  lemma {:induction false} FeedChunks(c0: nat, a: string, b: string, chunks: seq<string>)
    requires NoLt(a) && NoLt(b)
    requires |Concat(chunks)| <= |TaggedReply(a, b)|
    requires Concat(chunks) == TaggedReply(a, b)[..|Concat(chunks)|]
    ensures FeedAll(Start(c0), chunks) == AfterPrefix(c0, a, b, Concat(chunks))
    decreases |chunks|
  {
    if chunks == [] {
      assert Start(c0).(buffer := "") == Start(c0);
    } else {
      var front, c := chunks[..|chunks| - 1], chunks[|chunks| - 1];
      ConcatInit(chunks);
      var p := Concat(front);
      assert p == Concat(chunks)[..|p|];
      assert p == TaggedReply(a, b)[..|p|];
      FeedChunks(c0, a, b, front);
      FeedPrefix(c0, a, b, p, c);
    }
  }

  /** A reply in the expected shape, with fragments free of '<', split into chunks at
      arbitrary boundaries, yields one entry per language under the first number, consumes
      the whole buffer and allocates one further number, exactly as the same reply in one
      chunk does. */
  lemma AnyChunking(c0: nat, a: string, b: string, chunks: seq<string>)
    requires NoLt(a) && NoLt(b) && Concat(chunks) == "<jp>" + a + "</jp><cn>" + b + "</cn>"
    ensures FeedAll(Start(c0), chunks)
         == ParseState("", 1, c0 + 1, c0 + 2, a, b, [Entry(c0, Some(a))], [Entry(c0, Some(b))])
  {
    TaggedReplyText(a, b);
    FeedChunks(c0, a, b, chunks);
  }

  lemma TaggedReplyText(a: string, b: string)
    ensures TaggedReply(a, b) == "<jp>" + a + "</jp><cn>" + b + "</cn>"
  {
  }

  /** A fragment that itself holds a tag makes the result depend on the chunking:
      `"<jp>a</jp><cn><jp>x</jp></cn>"` in one increment yields the Chinese fragment
      `"<jp>x</jp>"`, while the same text split before `</cn>` has its second increment's
      `<jp>` search cut out the inner pair, so it yields two Japanese entries under one
      number and no Chinese entry. */
  lemma ChunkingMatters(c0: nat)
    ensures Concat(["<jp>a</jp><cn><jp>x</jp>", "</cn>"]) == "<jp>a</jp><cn><jp>x</jp></cn>"
    ensures FeedAll(Start(c0), ["<jp>a</jp><cn><jp>x</jp></cn>"]).cnOut == [Entry(c0, Some("<jp>x</jp>"))]
    ensures FeedAll(Start(c0), ["<jp>a</jp><cn><jp>x</jp>", "</cn>"]).cnOut == []
    ensures FeedAll(Start(c0), ["<jp>a</jp><cn><jp>x</jp>", "</cn>"]).jpOut
         == [Entry(c0, Some("a")), Entry(c0, Some("x"))]
  {
    var u, v := "<jp>a</jp><cn><jp>x</jp>", "</cn>";
    assert u + v == "<jp>a</jp><cn><jp>x</jp></cn>" by { assert |u + v| == 29; }
    ConcatPair(u, v, []);
    assert [u, v] + [] == [u, v] && v + [] == v;
    NestedWhole(c0);
    NestedSplit(c0);
  }

  /** The nested reply in one increment. */
  lemma NestedWhole(c0: nat)
    ensures FeedAll(Start(c0), ["<jp>a</jp><cn><jp>x</jp></cn>"])
         == ParseState("", 1, c0 + 1, c0 + 2, "a", "<jp>x</jp>",
                       [Entry(c0, Some("a"))], [Entry(c0, Some("<jp>x</jp>"))])
  {
    var w, tail := "<jp>a</jp><cn><jp>x</jp></cn>", "<cn><jp>x</jp></cn>";
    NestedWholeText(w, tail);
    NestedCnPair(tail);
    FeedAllOne(Start(c0), w);
    FeedJpCn(Start(c0), w, "a", tail, Cut(0, 14, "<jp>x</jp>", ""));
  }

  lemma NestedWholeText(w: string, tail: string)
    requires w == "<jp>a</jp><cn><jp>x</jp></cn>" && tail == "<cn><jp>x</jp></cn>"
    ensures "" + w == Open(Jp) + "a" + Close(Jp) + tail
  {
    assert |Open(Jp) + "a" + Close(Jp) + tail| == 29;
  }

  /** The nested reply split before `</cn>`. */
  lemma NestedSplit(c0: nat)
    ensures FeedAll(Start(c0), ["<jp>a</jp><cn><jp>x</jp>", "</cn>"])
         == ParseState("</cn>", 1, c0, c0 + 1, "ax", "",
                       [Entry(c0, Some("a")), Entry(c0, Some("x"))], [])
  {
    var u, v, open := "<jp>a</jp><cn><jp>x</jp>", "</cn>", "<cn><jp>x</jp>";
    NestedSplitText(u, v, open);
    FeedAllTwo(Start(c0), u, v);
    var p := Start(c0);
    NestedOpenOnly(open);
    FeedJpOnly(p, u, "a", open);
    var q := p.(buffer := open, phase := 1, jp := "a", jpOut := [Entry(c0, Some("a"))]);
    assert Feed(p, u) == q by { assert "" + "a" == "a"; }
    NestedJpPair(open + v);
    NestedCloseOnly(v);
    FeedCutJp(q, v, Cut(4, 9, "x", "</cn>"));
    assert Feed(q, v) == q.(buffer := v, jp := "ax", jpOut := [Entry(c0, Some("a")), Entry(c0, Some("x"))]);
  }

  lemma NestedSplitText(u: string, v: string, open: string)
    requires u == "<jp>a</jp><cn><jp>x</jp>" && v == "</cn>" && open == "<cn><jp>x</jp>"
    ensures "" + u == Open(Jp) + "a" + Close(Jp) + open
    ensures open + v == "<cn><jp>x</jp></cn>" && "a" + "x" == "ax"
  {
    assert |Open(Jp) + "a" + Close(Jp) + open| == 24;
    assert |open + v| == 19;
    assert |"a" + "x"| == 2;
  }

  lemma FeedAllOne(p: ParseState, c: string)
    ensures FeedAll(p, [c]) == Feed(p, c)
  {
    assert [c][..0] == [];
  }

  lemma FeedAllTwo(p: ParseState, c: string, d: string)
    ensures FeedAll(p, [c, d]) == Feed(Feed(p, c), d)
  {
    assert [c, d][..1] == [c];
    FeedAllOne(p, c);
  }

  /** An increment that completes a Japanese pair at the front and then a Chinese pair. */
  lemma FeedJpCn(p: ParseState, content: string, a: string, rest: string, c: Cut)
    requires NoLt(a) && p.buffer + content == Open(Jp) + a + Close(Jp) + rest
    requires ExtractTag(rest, Cn) == Some(c)
    ensures Feed(p, content)
         == p.(buffer := c.rest, phase := 1, jp := p.jp + a, cn := p.cn + c.fragment,
               jpOut := p.jpOut + [Entry(p.seqNo, Some(a))],
               cnOut := p.cnOut + [Entry(p.seqNo, Some(c.fragment))],
               seqNo := p.counter, counter := p.counter + 1)
  {
    TakeJpPair(p.(buffer := p.buffer + content), a, rest);
  }

  /** An increment that completes a Japanese pair at the front and no Chinese pair. */
  lemma FeedJpOnly(p: ParseState, content: string, a: string, rest: string)
    requires NoLt(a) && p.buffer + content == Open(Jp) + a + Close(Jp) + rest
    requires ExtractTag(rest, Cn).None?
    ensures Feed(p, content)
         == p.(buffer := rest, phase := 1, jp := p.jp + a,
               jpOut := p.jpOut + [Entry(p.seqNo, Some(a))])
  {
    TakeJpPair(p.(buffer := p.buffer + content), a, rest);
  }

  /** An increment whose Japanese pair is `c` and which leaves no Chinese pair. */
  lemma FeedCutJp(p: ParseState, content: string, c: Cut)
    requires p.phase == 1 && ExtractTag(p.buffer + content, Jp) == Some(c)
    requires ExtractTag(c.rest, Cn).None?
    ensures Feed(p, content)
         == p.(buffer := c.rest, jp := p.jp + c.fragment,
               jpOut := p.jpOut + [Entry(p.seqNo, Some(c.fragment))])
  {
  }

  /** The first `<cn>` and `</cn>` of the nested tail enclose the inner pair. */
  lemma NestedCnPair(s: string)
    requires s == "<cn><jp>x</jp></cn>"
    ensures ExtractTag(s, Cn) == Some(Cut(0, 14, "<jp>x</jp>", ""))
  {
    NestedTailMatches(s);
    NestedTailNoEarlyClose(s);
    NestedTailSlices(s);
    TagPairs(Cn);
    ExtractAt(s, "<cn>", "</cn>", 0, 14);
  }

  /** Inside the nested tail, the first Japanese pair is the inner one. */
  lemma NestedJpPair(s: string)
    requires s == "<cn><jp>x</jp></cn>"
    ensures ExtractTag(s, Jp) == Some(Cut(4, 9, "x", "</cn>"))
  {
    NestedTailMatches(s);
    NestedTailNoEarlyJp(s);
    NestedTailSlices(s);
    TagPairs(Jp);
    ExtractAt(s, "<jp>", "</jp>", 4, 9);
  }

  lemma NestedTailMatches(s: string)
    requires s == "<cn><jp>x</jp></cn>"
    ensures MatchAt(s, "<cn>", 0) && MatchAt(s, "</cn>", 14)
    ensures MatchAt(s, "<jp>", 4) && MatchAt(s, "</jp>", 9)
  {
    assert |s| == 19;
    assert s[0..4] == "<cn>" && s[14..19] == "</cn>";
    assert s[4..8] == "<jp>" && s[9..14] == "</jp>";
  }

  lemma NestedTailSlices(s: string)
    requires s == "<cn><jp>x</jp></cn>"
    ensures |s| == 19 && s[4..14] == "<jp>x</jp>" && s[8..9] == "x"
    ensures s[14..] == "</cn>" && s[19..] == ""
  {
    assert |s| == 19;
    assert s[4..14] == "<jp>x</jp>";
    assert s[8..9] == "x";
    assert s[14..] == "</cn>";
  }

  /** No `</cn>` starts before the last one. */
  lemma NestedTailNoEarlyClose(s: string)
    requires s == "<cn><jp>x</jp></cn>"
    ensures forall j: nat :: j < 14 ==> !MatchAt(s, "</cn>", j)
  {
    forall j: nat | j < 14 ensures !MatchAt(s, "</cn>", j) {
      if j == 0 || j == 4 {
        Differs(s, "</cn>", j, 1);
      } else if j == 9 {
        Differs(s, "</cn>", j, 2);
      } else {
        NotAtLt(s, "</cn>", j);
      }
    }
  }

  /** No `<jp>` starts before index 4 and no `</jp>` between 4 and 9. */
  lemma NestedTailNoEarlyJp(s: string)
    requires s == "<cn><jp>x</jp></cn>"
    ensures forall j: nat :: j < 4 ==> !MatchAt(s, "<jp>", j)
    ensures forall j: nat :: 4 <= j < 9 ==> !MatchAt(s, "</jp>", j)
  {
    forall j: nat | j < 4 ensures !MatchAt(s, "<jp>", j) {
      if j == 0 {
        Differs(s, "<jp>", j, 1);
      } else {
        NotAtLt(s, "<jp>", j);
      }
    }
    forall j: nat | 4 <= j < 9 ensures !MatchAt(s, "</jp>", j) {
      if j == 4 {
        Differs(s, "</jp>", j, 1);
      } else {
        NotAtLt(s, "</jp>", j);
      }
    }
  }

  /** An opened but unclosed Chinese tag is not taken. */
  lemma NestedOpenOnly(s: string)
    requires s == "<cn><jp>x</jp>"
    ensures ExtractTag(s, Cn).None?
  {
    assert |s| == 14;
    forall j: nat ensures !MatchAt(s, "</cn>", j) {
      if j + 5 <= |s| {
        if j == 0 || j == 4 {
          Differs(s, "</cn>", j, 1);
        } else if j == 9 {
          Differs(s, "</cn>", j, 2);
        } else {
          NotAtLt(s, "</cn>", j);
        }
      }
    }
    TagPairs(Cn);
    ExtractNoneIff(s, "<cn>", "</cn>");
  }

  /** A lone closing tag holds no opening one. */
  lemma NestedCloseOnly(s: string)
    requires s == "</cn>"
    ensures ExtractTag(s, Cn).None?
  {
    forall i: nat ensures !MatchAt(s, "<cn>", i) {
      if i == 0 {
        Differs(s, "<cn>", i, 1);
      } else if i + 4 <= |s| {
        NotAtLt(s, "<cn>", i);
      }
    }
    TagPairs(Cn);
    ExtractNoneIff(s, "<cn>", "</cn>");
  }
}
