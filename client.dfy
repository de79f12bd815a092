/**
  The plain streaming chat client (`openai_http.Client`): it reads the server-sent events
  of one reply, appends each text increment to a buffer and, whenever the buffer holds a
  terminator, puts every finished sentence on the reply queue and keeps the unfinished
  rest. The background thread becomes a method that runs the fetch to its end.
*/
module OpenAiClient {
  import opened Base
  import opened Text
  import opened ServerSentEvents
  import opened Sentences
  import opened History

  /** The bound the client gives its message history. */
  const HistoryLength: int := 10

  /** What the sentence logic has produced so far: the text still buffered and the
      sentences put on the reply queue. */
  datatype Flow = Flow(buffer: string, sent: seq<string>)

  /** One sentence as the reply queue receives it: non-empty, without whitespace at either
      end, ending with a terminator, and text followed by a single run of terminators. */
  predicate Sentence(s: string) {
    s != [] && Stripped(s) && EndsWithTerminator(s) && TextThenRun(s)
  }

  /** `_handle_buffer` for a buffer value: with a terminator present, every sentence but the
      last goes to the queue, stripped, and the last one stays in the buffer. */
  function Handle(buf: string): Flow {
    if !HasCompleteSentence(buf) then Flow(buf, [])
    else
      var ss := SplitSentences(buf);
      SplitNonEmpty(buf);
      Flow(ss[|ss| - 1], StripAll(ss[..|ss| - 1]))
  }

  /** Queuing all pieces but the last, stripped, and keeping the last loses no
      non-whitespace character of the pieces. */
  lemma QueueAllButLast(ss: seq<string>)
    requires ss != []
    ensures NonSpace(Concat(StripAll(ss[..|ss| - 1])) + ss[|ss| - 1]) == NonSpace(Concat(ss))
  {
    var init, last := ss[..|ss| - 1], ss[|ss| - 1];
    assert ss == init + [last];
    ConcatAppend(init, [last]);
    assert [last][1..] == [];
    assert Concat([last]) == last;
    assert Concat(ss) == Concat(init) + last;
    NonSpaceAppend(Concat(StripAll(init)), last);
    NonSpaceAppend(Concat(init), last);
    NonSpaceStripAll(init);
  }

  /** Handling the buffer loses no non-whitespace character: the queued sentences, then the
      new buffer, hold exactly the old buffer's non-whitespace text, in order. */
  lemma HandleKeepsText(buf: string)
    ensures NonSpace(Concat(Handle(buf).sent) + Handle(buf).buffer) == NonSpace(buf)
  {
    if HasCompleteSentence(buf) {
      SplitNonEmpty(buf);
      QueueAllButLast(SplitSentences(buf));
      SplitKeepsText(buf);
    } else {
      assert Concat([]) + buf == buf;
    }
  }

  /** Every queued sentence is a `Sentence`, and stripping it on the way to the queue
      changes nothing; with a terminator present the queue gets every split sentence but
      the last and the buffer keeps the last, non-empty and stripped, finished or not;
      without one nothing changes. */
  lemma HandleSentences(buf: string)
    ensures forall i :: 0 <= i < |Handle(buf).sent| ==> Sentence(Handle(buf).sent[i])
    ensures HasCompleteSentence(buf) ==> var ss := SplitSentences(buf);
      ss != [] && Handle(buf).sent == ss[..|ss| - 1] && Handle(buf).buffer == ss[|ss| - 1]
    ensures !HasCompleteSentence(buf) ==> Handle(buf) == Flow(buf, [])
    ensures HasCompleteSentence(buf) ==> Handle(buf).buffer != [] && Stripped(Handle(buf).buffer)
  {
    if HasCompleteSentence(buf) {
      SplitNonEmpty(buf);
      SplitSentencesShape(buf);
      QueuedSentences(SplitSentences(buf));
    }
  }

  /** Of a split in the shape `SplitSentencesShape` gives, every piece but the last is a
      `Sentence` that stripping leaves alone, and the last is non-empty and stripped. */
  lemma QueuedSentences(ss: seq<string>)
    requires ss != []
    requires forall i :: 0 <= i < |ss| ==> ss[i] != [] && Stripped(ss[i]) && TextThenRun(ss[i])
    requires AllButLast(ss, EndsWithTerminator)
    ensures var init := ss[..|ss| - 1];
      && StripAll(init) == init
      && (forall i :: 0 <= i < |init| ==> Sentence(init[i]))
    ensures ss[|ss| - 1] != [] && Stripped(ss[|ss| - 1])
  {
    var init := ss[..|ss| - 1];
    forall i | 0 <= i < |init| ensures Strip(init[i]) == init[i] && Sentence(init[i]) {
      assert init[i] == ss[i];
      StripStripped(ss[i]);
    }
    assert StripAll(init) == init;
  }

  /** The flow after a sequence of increments, each appended to the buffer and handled. */
  function Stream(buf: string, incs: seq<string>): Flow
    decreases |incs|
  {
    if incs == [] then Flow(buf, [])
    else
      var f := Stream(buf, incs[..|incs| - 1]);
      var h := Handle(f.buffer + incs[|incs| - 1]);
      Flow(h.buffer, f.sent + h.sent)
  }

  /** The string algebra of one more handled increment: if the sentences `a` and buffer
      `buffer` kept the text `before`, and handling `buffer + c` gave sentences `b` and
      buffer `rest` with the same text, then `a + b` and `rest` keep `before + c`. */
  lemma KeepsTextStep(g: string -> string, a: string, b: string, rest: string, buffer: string, c: string, before: string)
    requires Homomorphic(g)
    requires g(a + buffer) == g(before)
    requires g(b + rest) == g(buffer + c)
    ensures g((a + b) + rest) == g(before + c)
  {
    assert (a + b) + rest == a + (b + rest);
    assert g(a + (b + rest)) == g(a) + g(b + rest);
    assert g(buffer + c) == g(buffer) + g(c);
    assert g(a + buffer) == g(a) + g(buffer);
    assert g(before + c) == g(before) + g(c);
  }

  /** Streaming keeps whatever `g` sees of the text, for any `g` that distributes over
      concatenation and that handling the buffer preserves. */
  lemma {:induction false} StreamKeeps(g: string -> string, buf: string, incs: seq<string>)
    requires Homomorphic(g)
    requires forall b :: g(Concat(Handle(b).sent) + Handle(b).buffer) == g(b)
    ensures var f := Stream(buf, incs); g(Concat(f.sent) + f.buffer) == g(buf + Concat(incs))
    decreases |incs|
  {
    if incs == [] {
      assert Concat([]) + buf == buf + Concat(incs);
    } else {
      var front, c := incs[..|incs| - 1], incs[|incs| - 1];
      var f := Stream(buf, front);
      var h := Handle(f.buffer + c);
      var a, b := Concat(f.sent), Concat(h.sent);
      var before := buf + Concat(front);
      assert g((a + b) + h.buffer) == g(before + c) by {
        StreamKeeps(g, buf, front);
        KeepsTextStep(g, a, b, h.buffer, f.buffer, c, before);
      }
      assert Concat(f.sent + h.sent) == a + b by {
        ConcatAppend(f.sent, h.sent);
      }
      assert buf + Concat(incs) == before + c by {
        ConcatInit(incs);
      }
    }
  }

  /** Streaming keeps the text: the queued sentences, then the buffer, hold the initial
      buffer's and all increments' non-whitespace characters, in order. */
  lemma StreamKeepsText(buf: string, incs: seq<string>)
    ensures var f := Stream(buf, incs); NonSpace(Concat(f.sent) + f.buffer) == NonSpace(buf + Concat(incs))
  {
    NonSpaceHomomorphic();
    forall b ensures NonSpace(Concat(Handle(b).sent) + Handle(b).buffer) == NonSpace(b) {
      HandleKeepsText(b);
    }
    StreamKeeps(NonSpace, buf, incs);
  }

  /** Everything streaming puts on the queue is a `Sentence`. */
  lemma {:induction false} StreamSentences(buf: string, incs: seq<string>)
    ensures forall i :: 0 <= i < |Stream(buf, incs).sent| ==> Sentence(Stream(buf, incs).sent[i])
    decreases |incs|
  {
    if incs != [] {
      var front := incs[..|incs| - 1];
      var f := Stream(buf, front);
      var h := Handle(f.buffer + incs[|incs| - 1]);
      StreamSentences(buf, front);
      HandleSentences(f.buffer + incs[|incs| - 1]);
      var r := f.sent + h.sent;
      forall i | 0 <= i < |r| ensures Sentence(r[i]) {
        if i >= |f.sent| {
          assert r[i] == h.sent[i - |f.sent|];
        }
      }
    }
  }

  /** What one line of the event stream does to the flow, "[DONE]" excepted. */
  function StreamLine(f: Flow, line: string, delta: string -> string): Flow {
    var k := Classify(line);
    if k.Data? && delta(k.payload) != "" then
      var h := Handle(f.buffer + delta(k.payload));
      Flow(h.buffer, f.sent + h.sent)
    else f
  }

  /** A data line with content grows the buffer by the content and handles it. */
  lemma StreamLineData(f: Flow, line: string, delta: string -> string)
    requires Classify(line).Data? && delta(Classify(line).payload) != ""
    ensures var h := Handle(f.buffer + delta(Classify(line).payload));
      StreamLine(f, line, delta) == Flow(h.buffer, f.sent + h.sent)
  {
  }

  lemma SeqAssoc(a: seq<string>, b: seq<string>, c: seq<string>)
    ensures a + b + c == a + (b + c)
  {
  }

  /** Any other line leaves the flow as it was. */
  lemma StreamLineSkip(f: Flow, line: string, delta: string -> string)
    requires !Classify(line).Data? || delta(Classify(line).payload) == ""
    ensures StreamLine(f, line, delta) == f
  {
  }

  /** Reading one more line before any "[DONE]" is one more `StreamLine`. */
  lemma StreamStep(buf: string, lines: seq<string>, i: nat, delta: string -> string)
    requires i < |lines| && NoDone(lines[..i]) && !Classify(lines[i]).Done?
    ensures NoDone(lines[..i + 1])
    ensures Stream(buf, Increments(lines[..i + 1], delta))
      == StreamLine(Stream(buf, Increments(lines[..i], delta)), lines[i], delta)
  {
    IncrementsSnoc(lines, i, delta);
    assert lines[..i + 1] == lines[..i] + [lines[i]];
    var k := Classify(lines[i]);
    var front := Increments(lines[..i], delta);
    if k.Data? && delta(k.payload) != "" {
      assert Increments([lines[i]], delta) == [delta(k.payload)];
      var incs := front + [delta(k.payload)];
      assert incs[..|incs| - 1] == front;
    } else {
      assert Increments([lines[i]], delta) == [];
      assert front + [] == front;
    }
  }

  /** The reply queue's additions for a stream: the sentences, then what is left in the
      buffer, stripped, when the buffer is not empty. */
  function Flushed(f: Flow): seq<string> {
    f.sent + (if f.buffer != "" then [Strip(f.buffer)] else [])
  }

  /** The reply queue's additions for one fetch: the flushed stream when the request was
      answered, then the empty string that marks the end of the reply. */
  function Reply(response: Option<seq<string>>, delta: string -> string): seq<string> {
    (if response.Some? then Flushed(Stream("", Increments(response.value, delta))) else []) + [""]
  }

  /** Flushing keeps whatever homomorphic `g` stripping the buffer keeps. */
  lemma FlushedKeeps(g: string -> string, f: Flow)
    requires Homomorphic(g) && g(Strip(f.buffer)) == g(f.buffer)
    ensures g(Concat(Flushed(f))) == g(Concat(f.sent) + f.buffer)
  {
    if f.buffer != "" {
      assert Concat(Flushed(f)) == Concat(f.sent) + Strip(f.buffer) by {
        ConcatLast(f.sent, Strip(f.buffer));
      }
    } else {
      assert Flushed(f) == f.sent;
      assert Concat(f.sent) + f.buffer == Concat(f.sent);
    }
  }

  /** Flushing the buffer keeps the flow's non-whitespace text. */
  lemma FlushedKeepsText(f: Flow)
    ensures NonSpace(Concat(Flushed(f))) == NonSpace(Concat(f.sent) + f.buffer)
  {
    NonSpaceHomomorphic();
    StripKeepsNonSpace(f.buffer);
    FlushedKeeps(NonSpace, f);
  }

  /** A fetch ends with the end marker, everything before the last flushed piece is a
      `Sentence`, and the pieces hold all of the reply's non-whitespace text in order. */
  lemma ReplyShape(response: Option<seq<string>>, delta: string -> string)
    ensures var r := Reply(response, delta);
      && r != [] && r[|r| - 1] == ""
      && (response.None? ==> r == [""])
    ensures response.Some? ==> var incs := Increments(response.value, delta); var f := Stream("", incs);
      && (forall i :: 0 <= i < |f.sent| ==> Sentence(Reply(response, delta)[i]))
      && NonSpace(Concat(Flushed(f))) == NonSpace(Concat(incs))
  {
    if response.Some? {
      var incs := Increments(response.value, delta);
      var f := Stream("", incs);
      StreamSentences("", incs);
      assert NonSpace(Concat(f.sent) + f.buffer) == NonSpace(Concat(incs)) by {
        StreamKeepsText("", incs);
        assert "" + Concat(incs) == Concat(incs);
      }
      FlushedKeepsText(f);
    }
  }

  /** The only empty strings a successful fetch queues before its end marker: the flushed
      leftover, when the buffer is not empty but holds nothing but whitespace. A reader
      that takes `""` for the end of a reply then sees the end twice. */
  lemma ReplyEmptyPieces(response: Option<seq<string>>, delta: string -> string)
    requires response.Some?
    ensures var r := Reply(response, delta); var f := Stream("", Increments(response.value, delta));
      forall i :: 0 <= i < |r| - 1 ==>
        (r[i] == "" <==> i == |f.sent| && f.buffer != "" && NonSpace(f.buffer) == [])
  {
    var r := Reply(response, delta);
    var f := Stream("", Increments(response.value, delta));
    StreamSentences("", Increments(response.value, delta));
    StripEmptyIff(f.buffer);
    assert r == Flushed(f) + [""];
    forall i | 0 <= i < |r| - 1
      ensures r[i] == "" <==> i == |f.sent| && f.buffer != "" && NonSpace(f.buffer) == []
    {
      if i < |f.sent| {
        assert r[i] == f.sent[i] && Sentence(f.sent[i]);
      } else {
        assert r[i] == Strip(f.buffer);
      }
    }
  }

  /** The buffer keeps its last piece stripped, so a space at the end of an increment is
      lost: `"Hi. How "` then `"are"` queues `"Hi."` and leaves `"Howare"`, not `"How are"`. */
  lemma SpaceLostAtBufferEnd()
    ensures Stream("", ["Hi. How ", "are"]) == Flow("Howare", ["Hi."])
  {
    HandleHiHow();
    HandleHowAre();
    assert "" + "Hi. How " == "Hi. How ";
    assert ["Hi. How ", "are"][..1] == ["Hi. How "];
    assert ["Hi. How "][..0] == [];
    assert Stream("", ["Hi. How "]) == Flow("How", ["Hi."]);
  }

  /** The first increment: one finished sentence, and the rest kept stripped. */
  lemma HandleHiHow()
    ensures Handle("Hi. How ") == Flow("How", ["Hi."])
  {
    HiHowComplete();
    HiHowSplit();
    HandleSentences("Hi. How ");
    assert ["Hi.", "How"][..1] == ["Hi."];
  }

  lemma HiHowComplete()
    ensures HasCompleteSentence("Hi. How ")
  {
    var b := "Hi. How ";
    assert IsTerminator(b[2]);
    HasCompleteSentenceIff(b);
  }

  /** `_split_sentences` of the first increment. */
  lemma HiHowSplit()
    ensures SplitSentences("Hi. How ") == ["Hi.", "How"]
  {
    HiHowRuns();
    PairsAt(["Hi", ".", " How "], 1);
    HiHowPairs();
    HiHowStrips();
    assert NonEmpty(["Hi.", "How"]) == ["Hi.", "How"];
    ReattachNoOp(["Hi.", "How"]);
  }

  lemma HiHowStrips()
    ensures StripAll(["Hi.", " How "]) == ["Hi.", "How"]
  {
    assert Strip("Hi.") == "Hi." && Strip(" How ") == "How";
  }

  lemma HiHowRuns()
    ensures SplitRuns("Hi. How ") == ["Hi", ".", " How "]
  {
    assert |"Hi" + "." + " How "| == 8;
    assert "Hi" + "." + " How " == "Hi. How ";
    SplitRunsNone(" How ");
    SplitRunsStep("Hi", ".", " How ", "Hi. How ");
  }

  lemma HiHowPairs()
    ensures ["Hi" + ".", " How " + ""] == ["Hi.", " How "]
  {
    assert "Hi" + "." == "Hi." by {
      assert |"Hi" + "."| == 3;
    }
    assert " How " + "" == " How ";
  }

  /** The second increment joins the kept piece without a space and finishes nothing. */
  lemma HandleHowAre()
    ensures Handle("How" + "are") == Flow("Howare", [])
  {
    assert "How" + "are" == "Howare" by {
      assert |"How" + "are"| == 6;
    }
    var b := "Howare";
    HasCompleteSentenceIff(b);
    forall i | 0 <= i < |b| ensures !IsTerminator(b[i]) {
    }
  }

  class Client {
    /** The text received but not yet queued as a sentence. */
    var buffer: string
    /** The contents of the reply queue handed to `start_fetching`. */
    var replyQueue: seq<string>
    var isRunning: bool
    const history: MessageHistory<Message>

    /** The client's history is its base prompt alone and is bounded by `HistoryLength`;
        nothing in the client ever appends to it. */
    ghost predicate Valid()
      reads this, history
    {
      history.Valid() && |history.history| == 1 && history.history[0].role == System
      && history.maxLength == HistoryLength
    }

    /** `Client(api_key, …, base_prompt)`: an idle client whose history is the system
        prompt. */
    constructor (basePrompt: string)
      ensures Valid() && fresh(history)
      ensures history.history == [Message(System, basePrompt)]
      ensures buffer == "" && replyQueue == [] && !isRunning
    {
      buffer := "";
      replyQueue := [];
      isRunning := false;
      history := new MessageHistory(Message(System, basePrompt), HistoryLength);
    }

    /** `_prepare_request_data`, the messages part: a copy of the history with the user's
        text appended; the history itself is left alone. */
    method PrepareMessages(text: string) returns (messages: seq<Message>)
      requires Valid()
      ensures messages == history.history + [Message(User, text)]
      ensures messages[0].role == System && messages[|messages| - 1] == Message(User, text)
    {
      var tempHistory := history.Copy();
      messages := tempHistory + [Message(User, text)];
    }

    /** `_handle_buffer`: with a terminator present, the split's sentences but the last go
        to the queue and the last stays in the buffer. */
    method HandleBuffer()
      modifies this`buffer, this`replyQueue
      ensures buffer == Handle(old(buffer)).buffer
      ensures replyQueue == old(replyQueue) + Handle(old(buffer)).sent
    {
      if HasCompleteSentence(buffer) {
        var sentences := SplitSentences(buffer);
        SplitNonEmpty(buffer);
        PutStripped(sentences[..|sentences| - 1]);
        buffer := sentences[|sentences| - 1];
      }
    }

    /** The loop of `_handle_buffer`: each sentence goes to the queue, stripped, in order. */
    method PutStripped(sentences: seq<string>)
      modifies this`replyQueue
      ensures replyQueue == old(replyQueue) + StripAll(sentences)
    {
      var i := 0;
      while i < |sentences|
        invariant 0 <= i <= |sentences|
        invariant replyQueue == old(replyQueue) + StripAll(sentences[..i])
      {
        StripAllSnoc(sentences, i);
        replyQueue := replyQueue + [Strip(sentences[i])];
        i := i + 1;
      }
      assert sentences[..i] == sentences;
    }

    /** The buffer grows by `content`, which is then handled. */
    method Append(content: string)
      modifies this`buffer, this`replyQueue
      ensures buffer == Handle(old(buffer) + content).buffer
      ensures replyQueue == old(replyQueue) + Handle(old(buffer) + content).sent
    {
      buffer := buffer + content;
      HandleBuffer();
    }

    /** `_process_stream`: the lines up to the first "[DONE]", then the final flush of a
        non-empty buffer; the buffer itself is not cleared. */
    method ProcessStream(lines: seq<string>, delta: string -> string)
      modifies this`buffer, this`replyQueue
      ensures buffer == Stream(old(buffer), Increments(lines, delta)).buffer
      ensures replyQueue == old(replyQueue) + Flushed(Stream(old(buffer), Increments(lines, delta)))
    {
      ghost var q0 := replyQueue;
      ghost var f := Flow(buffer, []);
      assert lines[..0] == [];
      var i := 0;
      while i < |lines|
        invariant 0 <= i <= |lines| && NoDone(lines[..i])
        invariant f == Stream(old(buffer), Increments(lines[..i], delta))
        invariant buffer == f.buffer && replyQueue == q0 + f.sent
      {
        if Classify(lines[i]).Done? {
          IncrementsAtDone(lines, i, delta);
          break;
        }
        StreamStep(old(buffer), lines, i, delta);
        ReadLine(lines[i], delta, f, q0);
        f := StreamLine(f, lines[i], delta);
        i := i + 1;
      }
      if i == |lines| {
        assert lines[..i] == lines;
      }
      if buffer != "" {
        replyQueue := replyQueue + [Strip(buffer)];
      }
    }

    /** One line of the reading loop, "[DONE]" excepted: a data line whose content is not
        empty is appended to the buffer, which is then handled; other lines are skipped. */
    method ReadLine(line: string, delta: string -> string, ghost f: Flow, ghost q: seq<string>)
      requires buffer == f.buffer && replyQueue == q + f.sent
      modifies this`buffer, this`replyQueue
      ensures buffer == StreamLine(f, line, delta).buffer
      ensures replyQueue == q + StreamLine(f, line, delta).sent
    {
      var kind := Classify(line);
      if kind.Data? {
        var content := delta(kind.payload);
        if content != "" {
          StreamLineData(f, line, delta);
          ReadContent(content, f, q);
        } else {
          StreamLineSkip(f, line, delta);
        }
      } else {
        StreamLineSkip(f, line, delta);
      }
    }

    /** A data line's non-empty content, appended and handled. */
    method ReadContent(content: string, ghost f: Flow, ghost q: seq<string>)
      requires buffer == f.buffer && replyQueue == q + f.sent
      modifies this`buffer, this`replyQueue
      ensures var h := Handle(f.buffer + content);
        buffer == h.buffer && replyQueue == q + (f.sent + h.sent)
    {
      ghost var h := Handle(f.buffer + content);
      Append(content);
      SeqAssoc(q, f.sent, h.sent);
    }

    /** `_fetch_response`: the request goes out with the prepared messages; `send` stands for
        the HTTP exchange and yields the response's lines, or `None` when the request
        failed. Either way the reply ends with "" and the client is idle again. */
    method FetchResponse(text: string, send: seq<Message> -> Option<seq<string>>, delta: string -> string)
      requires Valid()
      modifies this`buffer, this`replyQueue, this`isRunning
      ensures Valid() && !isRunning
      ensures var messages := history.history + [Message(User, text)];
        && replyQueue == old(replyQueue)
          + (if send(messages).Some? then Flushed(Stream(old(buffer), Increments(send(messages).value, delta))) else [])
          + [""]
        && buffer == if send(messages).Some? then Stream(old(buffer), Increments(send(messages).value, delta)).buffer
                     else old(buffer)
    {
      var messages := PrepareMessages(text);
      var response := send(messages);
      if response.Some? {
        ProcessStream(response.value, delta);
      }
      replyQueue := replyQueue + [""];
      isRunning := false;
    }

    /** `start_fetching`: refused, changing nothing, while a fetch is running; otherwise the
        buffer is cleared and the fetch runs to its end, adding `Reply` to the queue. */
    method StartFetching(text: string, send: seq<Message> -> Option<seq<string>>, delta: string -> string)
      returns (started: bool)
      requires Valid()
      modifies this`buffer, this`replyQueue, this`isRunning
      ensures Valid()
      ensures started <==> !old(isRunning)
      ensures !started ==> buffer == old(buffer) && replyQueue == old(replyQueue) && isRunning
      ensures started ==> var messages := history.history + [Message(User, text)];
        && !isRunning && replyQueue == old(replyQueue) + Reply(send(messages), delta)
        && buffer == if send(messages).Some? then Stream("", Increments(send(messages).value, delta)).buffer else ""
    {
      if isRunning {
        return false;
      }
      isRunning := true;
      buffer := "";
      FetchResponse(text, send, delta);
      started := true;
    }
  }
}
