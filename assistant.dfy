/**
  The bilingual assistant (`VisualNovelAIAssistant`): its sequence-number allocator, the
  stream reader that cuts `<jp>`/`<cn>` fragments out of a reply, the history update and
  summary, one step of the speech-synthesis worker and one pass of the reconciler. The
  three worker threads become three methods, each one loop iteration over the queues.
*/
module NovelAssistant {
  import opened Base
  import opened Text
  import opened ServerSentEvents
  import opened Channels
  import opened TagParser
  import opened Synthesis
  import opened Reconciler

  /** Past this many messages the history is summarized. */
  const SummarizeLength: nat := 8

  /** The request appended to a copy of the history to ask for a summary. */
  const SummaryPrompt: Message :=
    Message(User, "总结之前的对话内容,保留核心信息同时尽可能简洁,总结应带有明显的角色思维情感特征")

  /** The history after `_summarize`, given the summary the model returned for it ("" when
      the request failed). */
  function SummaryRule(h: seq<Message>, summary: string): seq<Message> {
    if |h| > SummarizeLength && summary != "" then [Message(Assistant, summary)] else h
  }

  /** The summary replaces the history exactly when the history is longer than the limit
      and the summary is non-empty; otherwise the history is left alone. */
  lemma SummaryReplacesIff(h: seq<Message>, summary: string)
    ensures SummaryRule(h, summary) != h <==> |h| > SummarizeLength && summary != ""
    ensures SummaryRule(h, summary) != h ==> SummaryRule(h, summary) == [Message(Assistant, summary)]
  {
  }

  /** One exchange: the user's text, then the assistant's reply. */
  function Exchange(text: string, reply: string): seq<Message> {
    [Message(User, text), Message(Assistant, reply)]
  }

  /** What a whole reply leaves in the reader's state. */
  function Outcome(counter: nat, lines: seq<string>, delta: string -> string): ParseState {
    FeedAll(Start(counter), Increments(lines, delta))
  }

  /** Reading a whole response line by line: one more line before any "[DONE]" is one
      more `ReadStep`. */
  lemma OutcomeStep(counter: nat, lines: seq<string>, i: nat, delta: string -> string)
    requires i < |lines| && NoDone(lines[..i]) && !Classify(lines[i]).Done?
    ensures NoDone(lines[..i + 1])
    ensures Outcome(counter, lines[..i + 1], delta) == ReadStep(Outcome(counter, lines[..i], delta), lines[i], delta)
  {
    IncrementsSnoc(lines, i, delta);
    assert lines[..i + 1] == lines[..i] + [lines[i]];
    var k := Classify(lines[i]);
    if k.Data? && delta(k.payload) != "" {
      assert Increments([lines[i]], delta) == [delta(k.payload)];
      FeedAllSnoc(Start(counter), Increments(lines[..i], delta), delta(k.payload));
    } else {
      assert Increments([lines[i]], delta) == [];
      assert Increments(lines[..i], delta) + [] == Increments(lines[..i], delta);
    }
  }

  /** What one line before any "[DONE]" does to the reader's state: a data line whose
      content is non-empty is fed to it; any other line is ignored. */
  function ReadStep(st: ParseState, line: string, delta: string -> string): ParseState {
    var k := Classify(line);
    if k.Data? && delta(k.payload) != "" then Feed(st, delta(k.payload)) else st
  }

  /** The history list as updated by one reply: only a reply that produced both languages
      is recorded, and then as exactly two messages. */
  function Recorded(h: seq<Message>, text: string, jp: string, cn: string, reply: string): (r: seq<Message>)
    ensures |r| == |h| + 2 <==> cn != "" && jp != ""
    ensures |r| == |h| + 2 ==> r == h + Exchange(text, reply)
    ensures |r| != |h| + 2 ==> r == h
  {
    if cn != "" && jp != "" then h + Exchange(text, reply) else h
  }

  /** Appending numbers at or above `n` to a sorted sequence whose numbers are below `n`
      keeps it sorted, and below any bound the new numbers are below. */
  lemma Extend(a: seq<nat>, b: seq<nat>, n: nat, c: nat)
    requires Sorted(a) && Below(a, n) && Sorted(b) && AtLeast(b, n) && Below(b, c) && n <= c
    ensures Sorted(a + b) && Below(a + b, c)
  {
    SortedAppend(a, b, n);
  }

  /** Dropping entries from the front of the first part keeps a sorted concatenation
      sorted and within its bound. */
  lemma DropFront(a: seq<nat>, b: seq<nat>, k: nat, c: nat)
    requires Sorted(a + b) && Below(a + b, c) && k <= |a|
    ensures Sorted(a[k..] + b) && Below(a[k..] + b, c)
  {
    assert (a + b)[k..] == a[k..] + b;
    SortedSuffix(a + b, k);
  }

  class VisualNovelAIAssistant {
    var sequenceCounter: nat
    var jpQueue: seq<Entry<string>>
    var jpQueueTts: seq<Entry<string>>
    var cnQueue: seq<Entry<string>>
    var soundQueue: seq<Entry<Bytes>>
    var replyQueue: seq<Packet>
    var history: seq<Message>
    var historyCn: seq<Message>
    var historyJp: seq<Message>
    var useTts: bool

    /** Every number on a queue was handed out already; the text queues are in order, and
        the sound queue followed by the synthesis queue is in order (the synthesis worker
        moves entries from the head of one to the end of the other). */
    ghost predicate Valid()
      reads this
    {
      && Sorted(Seqs(jpQueue)) && Below(Seqs(jpQueue), sequenceCounter)
      && StrictlySorted(Seqs(cnQueue)) && Below(Seqs(cnQueue), sequenceCounter)
      && Sorted(Seqs(soundQueue) + Seqs(jpQueueTts)) && Below(Seqs(soundQueue) + Seqs(jpQueueTts), sequenceCounter)
    }

    /** A new assistant: counter at 0, every queue and history empty, synthesis off. */
    constructor ()
      ensures Valid()
      ensures sequenceCounter == 0 && !useTts
      ensures jpQueue == [] && jpQueueTts == [] && cnQueue == [] && soundQueue == [] && replyQueue == []
      ensures history == [] && historyCn == [] && historyJp == []
    {
      sequenceCounter := 0;
      jpQueue, jpQueueTts, cnQueue := [], [], [];
      soundQueue, replyQueue := [], [];
      history, historyCn, historyJp := [], [], [];
      useTts := false;
    }

    /** `_get_sequence_number`: the current counter, which then advances by one. */
    method GetSequenceNumber() returns (s: nat)
      modifies this`sequenceCounter
      ensures s == old(sequenceCounter) && sequenceCounter == s + 1
    {
      s := sequenceCounter;
      sequenceCounter := sequenceCounter + 1;
    }

    /** `_summarize`, with the model's answer to the summary request given by `llm`. */
    method Summarize(llm: seq<Message> -> string)
      modifies this`history
      ensures history == SummaryRule(old(history), llm(old(history) + [SummaryPrompt]))
    {
      if |history| > SummarizeLength {
        var tempHistory := history + [SummaryPrompt];
        var summaryContent := llm(tempHistory);
        if summaryContent != "" {
          history := [Message(Assistant, summaryContent)];
        }
      }
    }

    /** The `<jp>` part of one increment of `_process_stream`: the buffer, phase and text
        passed in and returned are the reader's locals, `st` the state they stand for, and
        the entry pushed onto both Japanese queues is the one the state machine pushes. */
    method PushJp(buffer: string, phase: nat, seqNo: nat, jp: string,
                  ghost st: ParseState, ghost jb: seq<Entry<string>>, ghost tb: seq<Entry<string>>)
      returns (buffer': string, phase': nat, jp': string)
      requires st.buffer == buffer && st.phase == phase && st.seqNo == seqNo && st.jp == jp
      requires jpQueue == jb + st.jpOut && jpQueueTts == tb + st.jpOut
      modifies this`jpQueue, this`jpQueueTts
      ensures var n := TakeJp(st);
        && n.buffer == buffer' && n.phase == phase' && n.jp == jp'
        && jpQueue == jb + n.jpOut && jpQueueTts == tb + n.jpOut
    {
      buffer', phase', jp' := buffer, phase, jp;
      match ExtractTag(buffer, Jp)
      case None =>
      case Some(c) =>
        jp' := jp + c.fragment;
        jpQueue := jpQueue + [Entry(seqNo, Some(c.fragment))];
        jpQueueTts := jpQueueTts + [Entry(seqNo, Some(c.fragment))];
        buffer' := c.rest;
        phase' := 1;
    }

    /** The `<cn>` part of one increment: only in phase 1; a completed pair is pushed onto
        the Chinese queue under the current number and a fresh number is allocated. */
    method PushCn(buffer: string, phase: nat, seqNo: nat, cn: string,
                  ghost st: ParseState, ghost cb: seq<Entry<string>>)
      returns (buffer': string, seqNo': nat, cn': string)
      requires st.buffer == buffer && st.phase == phase && st.seqNo == seqNo && st.cn == cn
      requires st.counter == sequenceCounter && cnQueue == cb + st.cnOut
      modifies this`cnQueue, this`sequenceCounter
      ensures var n := TakeCn(st);
        && n.buffer == buffer' && n.seqNo == seqNo' && n.cn == cn' && n.counter == sequenceCounter
        && cnQueue == cb + n.cnOut
    {
      buffer', seqNo', cn' := buffer, seqNo, cn;
      if phase == 1 {
        match ExtractTag(buffer, Cn)
        case None =>
        case Some(c) =>
          cn' := cn + c.fragment;
          cnQueue := cnQueue + [Entry(seqNo, Some(c.fragment))];
          buffer' := c.rest;
          seqNo' := GetSequenceNumber();
      }
    }

    /** One non-empty text increment: appended to the buffer, then the `<jp>` and the
        `<cn>` step. */
    method TakeIncrement(content: string, buffer: string, phase: nat, seqNo: nat, jp: string, cn: string,
                         ghost st: ParseState, ghost jb: seq<Entry<string>>, ghost tb: seq<Entry<string>>,
                         ghost cb: seq<Entry<string>>)
      returns (buffer': string, phase': nat, seqNo': nat, jp': string, cn': string)
      requires st.buffer == buffer && st.phase == phase && st.seqNo == seqNo
      requires st.counter == sequenceCounter && st.jp == jp && st.cn == cn
      requires jpQueue == jb + st.jpOut && jpQueueTts == tb + st.jpOut && cnQueue == cb + st.cnOut
      modifies this`jpQueue, this`jpQueueTts, this`cnQueue, this`sequenceCounter
      ensures var n := Feed(st, content);
        && n.buffer == buffer' && n.phase == phase' && n.seqNo == seqNo'
        && n.counter == sequenceCounter && n.jp == jp' && n.cn == cn'
        && jpQueue == jb + n.jpOut && jpQueueTts == tb + n.jpOut && cnQueue == cb + n.cnOut
    {
      ghost var m := st.(buffer := st.buffer + content);
      buffer', phase', jp' := PushJp(buffer + content, phase, seqNo, jp, m, jb, tb);
      TakeJpKeeps(m);
      ghost var m' := TakeJp(m);
      buffer', seqNo', cn' := PushCn(buffer', phase', seqNo, cn, m', cb);
      TakeCnKeeps(m');
    }

    /** `_process_stream(text, response)`: `lines` are the response's lines and `delta` the
        `delta.content` of a data payload. Every fragment is pushed as it completes; then
        one sentinel per queue under the current number, the history update, one more
        allocation and the summary. */
    method ProcessStream(text: string, lines: seq<string>, delta: string -> string, llm: seq<Message> -> string)
      requires Valid()
      modifies this`jpQueue, this`jpQueueTts, this`cnQueue, this`sequenceCounter
      modifies this`history, this`historyCn, this`historyJp
      ensures Valid()
      ensures var st := Outcome(old(sequenceCounter), lines, delta); var sentinel := Entry(st.seqNo, None);
        && jpQueue == old(jpQueue) + st.jpOut + [sentinel]
        && jpQueueTts == old(jpQueueTts) + st.jpOut + [sentinel]
        && cnQueue == old(cnQueue) + st.cnOut + [sentinel]
        && sequenceCounter == st.counter + 1
        && historyCn == Recorded(old(historyCn), text, st.jp, st.cn, st.cn)
        && historyJp == Recorded(old(historyJp), text, st.jp, st.cn, st.jp)
        && var h := Recorded(old(history), text, st.jp, st.cn, st.cn);
           history == SummaryRule(h, llm(h + [SummaryPrompt]))
    {
      var c0 := sequenceCounter;
      var finalResponseJp, finalResponseCn, seqNo := ReadReply(lines, delta);
      ghost var st := Outcome(c0, lines, delta);
      FeedAllInv(c0, Increments(lines, delta));
      FinishReply(text, finalResponseJp, finalResponseCn, seqNo, llm, st, c0, old(jpQueue), old(jpQueueTts), old(cnQueue));
    }

    /** The reading loop of `_process_stream`, from the first allocation up to "[DONE]" or
        the end of the response: every fragment is pushed as it completes. It returns the
        accumulated texts and the current number. */
    method ReadReply(lines: seq<string>, delta: string -> string)
      returns (finalResponseJp: string, finalResponseCn: string, seqNo: nat)
      modifies this`jpQueue, this`jpQueueTts, this`cnQueue, this`sequenceCounter
      ensures var st := Outcome(old(sequenceCounter), lines, delta);
        && st.jp == finalResponseJp && st.cn == finalResponseCn && st.seqNo == seqNo
        && st.counter == sequenceCounter
        && jpQueue == old(jpQueue) + st.jpOut && jpQueueTts == old(jpQueueTts) + st.jpOut
        && cnQueue == old(cnQueue) + st.cnOut
    {
      var c0 := sequenceCounter;
      var responseBuffer := "";
      var responsePhase := 0;
      finalResponseCn := "";
      finalResponseJp := "";
      seqNo := GetSequenceNumber();
      ghost var st := Start(c0);
      var i := 0;
      while i < |lines|
        invariant 0 <= i <= |lines|
        invariant NoDone(lines[..i])
        invariant st == Outcome(c0, lines[..i], delta)
        invariant st.buffer == responseBuffer && st.phase == responsePhase && st.seqNo == seqNo
        invariant st.counter == sequenceCounter && st.jp == finalResponseJp && st.cn == finalResponseCn
        invariant jpQueue == old(jpQueue) + st.jpOut && jpQueueTts == old(jpQueueTts) + st.jpOut
        invariant cnQueue == old(cnQueue) + st.cnOut
      {
        if Classify(lines[i]).Done? {
          IncrementsAtDone(lines, i, delta);
          break;
        }
        OutcomeStep(c0, lines, i, delta);
        responseBuffer, responsePhase, seqNo, finalResponseJp, finalResponseCn, st :=
          ReadLine(lines[i], delta, responseBuffer, responsePhase, seqNo, finalResponseJp, finalResponseCn,
                   st, old(jpQueue), old(jpQueueTts), old(cnQueue));
        i := i + 1;
      }
      if i == |lines| {
        assert lines[..i] == lines;
      }
    }

    /** One line of the reading loop, "[DONE]" excepted. */
    method ReadLine(line: string, delta: string -> string, buffer: string, phase: nat, seqNo: nat, jp: string, cn: string,
                         ghost st: ParseState, ghost jb: seq<Entry<string>>, ghost tb: seq<Entry<string>>,
                         ghost cb: seq<Entry<string>>)
      returns (buffer': string, phase': nat, seqNo': nat, jp': string, cn': string, ghost n: ParseState)
      requires st.buffer == buffer && st.phase == phase && st.seqNo == seqNo
      requires st.counter == sequenceCounter && st.jp == jp && st.cn == cn
      requires jpQueue == jb + st.jpOut && jpQueueTts == tb + st.jpOut && cnQueue == cb + st.cnOut
      modifies this`jpQueue, this`jpQueueTts, this`cnQueue, this`sequenceCounter
      ensures n == ReadStep(st, line, delta)
      ensures n.buffer == buffer' && n.phase == phase' && n.seqNo == seqNo'
        && n.counter == sequenceCounter && n.jp == jp' && n.cn == cn'
        && jpQueue == jb + n.jpOut && jpQueueTts == tb + n.jpOut && cnQueue == cb + n.cnOut
    {
      var kind := Classify(line);
      buffer', phase', seqNo', jp', cn', n := buffer, phase, seqNo, jp, cn, st;
      if kind.Data? && delta(kind.payload) != "" {
        var content := delta(kind.payload);
        buffer', phase', seqNo', jp', cn' :=
          TakeIncrement(content, buffer, phase, seqNo, jp, cn, st, jb, tb, cb);
        n := Feed(st, content);
      }
    }

    /** The end of `_process_stream`: the history update, the sentinels under the current
        number, one more allocation and the summary. `jb`, `tb` and `cb` are the queues as
        they were before the reply. */
    method FinishReply(text: string, finalResponseJp: string, finalResponseCn: string, seqNo: nat,
                       llm: seq<Message> -> string, ghost st: ParseState, ghost c0: nat,
                       ghost jb: seq<Entry<string>>, ghost tb: seq<Entry<string>>, ghost cb: seq<Entry<string>>)
      requires Inv(st, c0) && st.seqNo == seqNo && st.counter == sequenceCounter
      requires st.jp == finalResponseJp && st.cn == finalResponseCn
      requires jpQueue == jb + st.jpOut && jpQueueTts == tb + st.jpOut && cnQueue == cb + st.cnOut
      requires Sorted(Seqs(jb)) && Below(Seqs(jb), c0) && StrictlySorted(Seqs(cb)) && Below(Seqs(cb), c0)
      requires Sorted(Seqs(soundQueue) + Seqs(tb)) && Below(Seqs(soundQueue) + Seqs(tb), c0)
      modifies this`jpQueue, this`jpQueueTts, this`cnQueue, this`sequenceCounter
      modifies this`history, this`historyCn, this`historyJp
      ensures Valid()
      ensures var sentinel := Entry(st.seqNo, None);
        && jpQueue == jb + st.jpOut + [sentinel]
        && jpQueueTts == tb + st.jpOut + [sentinel]
        && cnQueue == cb + st.cnOut + [sentinel]
        && sequenceCounter == st.counter + 1
        && historyCn == Recorded(old(historyCn), text, st.jp, st.cn, st.cn)
        && historyJp == Recorded(old(historyJp), text, st.jp, st.cn, st.jp)
        && var h := Recorded(old(history), text, st.jp, st.cn, st.cn);
           history == SummaryRule(h, llm(h + [SummaryPrompt]))
    {
      RecordReply(text, finalResponseJp, finalResponseCn);
      PushSentinels(seqNo);
      var next := GetSequenceNumber();
      assert jpQueue == jb + (st.jpOut + [Entry(st.seqNo, None)]);
      assert jpQueueTts == tb + (st.jpOut + [Entry(st.seqNo, None)]);
      assert cnQueue == cb + (st.cnOut + [Entry(st.seqNo, None)]);
      ValidAfterReply(st, c0, jb, tb, cb);
      Summarize(llm);
    }

    /** The history update: a reply is recorded only when it produced both languages;
        the assistant message of the main history is the Chinese text. */
    method RecordReply(text: string, jp: string, cn: string)
      modifies this`history, this`historyCn, this`historyJp
      ensures history == Recorded(old(history), text, jp, cn, cn)
      ensures historyCn == Recorded(old(historyCn), text, jp, cn, cn)
      ensures historyJp == Recorded(old(historyJp), text, jp, cn, jp)
    {
      if cn != "" && jp != "" {
        history := history + [Message(User, text), Message(Assistant, cn)];
        historyCn := historyCn + [Message(User, text), Message(Assistant, cn)];
        historyJp := historyJp + [Message(User, text), Message(Assistant, jp)];
      }
    }

    /** The end-of-reply sentinels, `(seq, None)` on each text queue. */
    method PushSentinels(seqNo: nat)
      modifies this`jpQueue, this`jpQueueTts, this`cnQueue
      ensures jpQueueTts == old(jpQueueTts) + [Entry(seqNo, None)]
      ensures jpQueue == old(jpQueue) + [Entry(seqNo, None)]
      ensures cnQueue == old(cnQueue) + [Entry(seqNo, None)]
    {
      var sentinel := Entry(seqNo, None);
      jpQueueTts := jpQueueTts + [sentinel];
      jpQueue := jpQueue + [sentinel];
      cnQueue := cnQueue + [sentinel];
    }

    /** Pushing a whole reply, sentinels included, keeps the invariant. */
    lemma ValidAfterReply(st: ParseState, c0: nat, jb: seq<Entry<string>>, tb: seq<Entry<string>>, cb: seq<Entry<string>>)
      requires Inv(st, c0) && sequenceCounter == st.counter + 1
      requires Sorted(Seqs(jb)) && Below(Seqs(jb), c0) && StrictlySorted(Seqs(cb)) && Below(Seqs(cb), c0)
      requires Sorted(Seqs(soundQueue) + Seqs(tb)) && Below(Seqs(soundQueue) + Seqs(tb), c0)
      requires jpQueue == jb + (st.jpOut + [Entry(st.seqNo, None)])
      requires jpQueueTts == tb + (st.jpOut + [Entry(st.seqNo, None)])
      requires cnQueue == cb + (st.cnOut + [Entry(st.seqNo, None)])
      ensures Valid()
    {
      var sentinel := Entry(st.seqNo, None);
      PushedInOrder(st, c0);
      SeqsAppend(jb, st.jpOut + [sentinel]);
      SeqsAppend(cb, st.cnOut + [sentinel]);
      SeqsAppendAfter(soundQueue, tb, st.jpOut + [sentinel]);
      Extend(Seqs(jb), Seqs(st.jpOut + [sentinel]), c0, sequenceCounter);
      Extend(Seqs(cb), Seqs(st.cnOut + [sentinel]), c0, sequenceCounter);
      StrictlySortedAppend(Seqs(cb), Seqs(st.cnOut + [sentinel]), c0);
      Extend(Seqs(soundQueue) + Seqs(tb), Seqs(st.jpOut + [sentinel]), c0, sequenceCounter);
    }

    /** One iteration of `_tts_thread`: with a request waiting, it is taken from the head of
        the synthesis queue and answered by exactly one sound entry under its number;
        nothing else changes. */
    method TtsStep(synth: string -> Option<Bytes>)
      requires Valid()
      modifies this`jpQueueTts, this`soundQueue
      ensures Valid()
      ensures old(jpQueueTts) == [] ==> jpQueueTts == [] && soundQueue == old(soundQueue)
      ensures old(jpQueueTts) != [] ==>
        && jpQueueTts == old(jpQueueTts)[1..]
        && soundQueue == old(soundQueue) + [SoundFor(old(jpQueueTts)[0], useTts, synth)]
    {
      if jpQueueTts != [] {
        var ttsTextSeq := jpQueueTts[0].seqNo;
        var ttsText := jpQueueTts[0].content;
        var req := jpQueueTts[0];
        jpQueueTts := jpQueueTts[1..];
        var responseContent: Option<Bytes> := None;
        if ttsText.Some? && ttsText.value != "" && useTts {
          responseContent := synth(ttsText.value);
        }
        var sound := Entry(ttsTextSeq, responseContent);
        assert sound == SoundFor(req, useTts, synth);
        assert old(jpQueueTts) == [req] + jpQueueTts;
        SeqsMove(soundQueue, sound, req, jpQueueTts);
        soundQueue := soundQueue + [sound];
      }
    }

    /** The first discard loop of `_monitor_queues`: drop Japanese entries numbered below `m`. */
    method DiscardJp(m: nat)
      modifies this`jpQueue
      ensures jpQueue == DropBelow(old(jpQueue), m)
    {
      while jpQueue != [] && jpQueue[0].seqNo < m
        invariant DropBelow(jpQueue, m) == DropBelow(old(jpQueue), m)
        decreases |jpQueue|
      {
        jpQueue := jpQueue[1..];
      }
    }

    /** The second discard loop: drop Chinese entries numbered below `m`. */
    method DiscardCn(m: nat)
      modifies this`cnQueue
      ensures cnQueue == DropBelow(old(cnQueue), m)
    {
      while cnQueue != [] && cnQueue[0].seqNo < m
        invariant DropBelow(cnQueue, m) == DropBelow(old(cnQueue), m)
        decreases |cnQueue|
      {
        cnQueue := cnQueue[1..];
      }
    }

    /** The third discard loop: drop sound entries numbered below `m`. */
    method DiscardSound(m: nat)
      modifies this`soundQueue
      ensures soundQueue == DropBelow(old(soundQueue), m)
    {
      while soundQueue != [] && soundQueue[0].seqNo < m
        invariant DropBelow(soundQueue, m) == DropBelow(old(soundQueue), m)
        decreases |soundQueue|
      {
        soundQueue := soundQueue[1..];
      }
    }

    /** One iteration of `_monitor_queues`: the reconciler pass, appending the packet it
        emits to the reply queue; it keeps the invariant. */
    method MonitorStep()
      requires Valid()
      modifies this`jpQueue, this`cnQueue, this`soundQueue, this`replyQueue
      ensures Valid()
      ensures var r := Pass(Queues(old(jpQueue), old(cnQueue), old(soundQueue)));
        && Queues(jpQueue, cnQueue, soundQueue) == r.queues
        && replyQueue == old(replyQueue) + (if r.packet.Some? then [r.packet.value] else [])
    {
      ghost var q := Queues(jpQueue, cnQueue, soundQueue);
      ReconcilePass();
      ValidAfterPass(q);
    }

    /** The body of the `_monitor_queues` loop. */
    method ReconcilePass()
      modifies this`jpQueue, this`cnQueue, this`soundQueue, this`replyQueue
      ensures var r := Pass(Queues(old(jpQueue), old(cnQueue), old(soundQueue)));
        && Queues(jpQueue, cnQueue, soundQueue) == r.queues
        && replyQueue == old(replyQueue) + (if r.packet.Some? then [r.packet.value] else [])
    {
      ghost var q := Queues(jpQueue, cnQueue, soundQueue);
      if jpQueue != [] && cnQueue != [] && soundQueue != [] {
        var jpSeq := jpQueue[0].seqNo;
        var cnSeq := cnQueue[0].seqNo;
        var soundSeq := soundQueue[0].seqNo;
        var maxSeq := Max3(jpSeq, cnSeq, soundSeq);
        assert maxSeq == MaxHead(q);
        DiscardJp(maxSeq);
        DiscardCn(maxSeq);
        DiscardSound(maxSeq);
        ghost var d := Discard(q, maxSeq);
        assert Queues(jpQueue, cnQueue, soundQueue) == d;
        PassAfterDiscard(q);
        TakeHeads(d);
      } else {
        assert Pass(q) == PassResult(q, None);
      }
    }

    /** The rest of a pass once the discards are done: with all three queues non-empty
        one entry is taken from each, and a packet is appended when their numbers agree. */
    method TakeHeads(ghost d: Queues)
      requires jpQueue == d.jp && cnQueue == d.cn && soundQueue == d.sound
      modifies this`jpQueue, this`cnQueue, this`soundQueue, this`replyQueue
      ensures Queues(jpQueue, cnQueue, soundQueue) == if Ready(d) then Pop(d) else d
      ensures replyQueue == old(replyQueue) +
        if Ready(d) && Aligned(d) then [Packet(d.jp[0].content, d.cn[0].content, d.sound[0].content)] else []
    {
      if jpQueue != [] && cnQueue != [] && soundQueue != [] {
        var jpItem := jpQueue[0];
        jpQueue := jpQueue[1..];
        var cnItem := cnQueue[0];
        cnQueue := cnQueue[1..];
        var soundItem := soundQueue[0];
        soundQueue := soundQueue[1..];
        if jpItem.seqNo == cnItem.seqNo && cnItem.seqNo == soundItem.seqNo {
          replyQueue := replyQueue + [Packet(jpItem.content, cnItem.content, soundItem.content)];
        }
      }
    }

    /** A pass keeps the invariant: it only takes entries from the heads of the queues the
        reconciler reads. */
    lemma ValidAfterPass(q: Queues)
      requires Queues(jpQueue, cnQueue, soundQueue) == Pass(q).queues
      requires Sorted(Seqs(q.jp)) && Below(Seqs(q.jp), sequenceCounter)
      requires StrictlySorted(Seqs(q.cn)) && Below(Seqs(q.cn), sequenceCounter)
      requires Sorted(Seqs(q.sound) + Seqs(jpQueueTts)) && Below(Seqs(q.sound) + Seqs(jpQueueTts), sequenceCounter)
      ensures Valid()
    {
      if Ready(q) {
        OnlyHeadsRemoved(q);
      }
      ValidAfterHeadsTaken(q);
    }

    /** Taking entries from the heads of the three queues the reconciler reads keeps the
        invariant. */
    lemma ValidAfterHeadsTaken(q: Queues)
      requires SuffixOf(jpQueue, q.jp) && SuffixOf(cnQueue, q.cn) && SuffixOf(soundQueue, q.sound)
      requires Sorted(Seqs(q.jp)) && Below(Seqs(q.jp), sequenceCounter)
      requires StrictlySorted(Seqs(q.cn)) && Below(Seqs(q.cn), sequenceCounter)
      requires Sorted(Seqs(q.sound) + Seqs(jpQueueTts)) && Below(Seqs(q.sound) + Seqs(jpQueueTts), sequenceCounter)
      ensures Valid()
    {
      var kj, kc, ks := |q.jp| - |jpQueue|, |q.cn| - |cnQueue|, |q.sound| - |soundQueue|;
      SeqsSuffix(q.jp, kj);
      SeqsSuffix(q.cn, kc);
      SeqsSuffix(q.sound, ks);
      SortedSuffix(Seqs(q.jp), kj);
      StrictlySortedSuffix(Seqs(q.cn), kc);
      DropFront(Seqs(q.sound), Seqs(jpQueueTts), ks, sequenceCounter);
    }
  }
}
