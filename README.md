# renpy_live2d_chatgpt: the streaming reply pipeline, modelled in Dafny

The game talks to a chat model through two Python packages, and this project models the
core logic of both.

**`VisualNovelAIAssistant`** asks the model for a reply in which each Japanese sentence
`<jp>…</jp>` is followed by its Chinese translation `<cn>…</cn>`. Three background threads
do the work:

- the dialog thread reads the streamed reply and cuts the tagged fragments out of it;
- the text-to-speech thread turns each Japanese fragment into audio;
- the monitor thread lines up the three queues (Japanese text, Chinese text, audio) by
  sequence number and hands the game one packet per sentence.

**`openai_http`** is a plain streaming client. It buffers the streamed text, splits it into
sentences at runs of `. ! ? 。 ！ ？`, puts every finished sentence on a reply queue, and keeps a
bounded message history that always starts with the system prompt.

## How the model is built

The threads are left out. Each loop iteration becomes one sequential method over queues
held as `seq` fields of a class. Every method is proved against a pure function of the old
state, and the properties the code promises are lemmas about those functions.

- `Base`: `Option`, bytes, chat messages.
- `Text`: `str.find`, `str.strip`, concatenation, and the non-whitespace text of a string.
  Whitespace is Python's `str.isspace` set, written out.
- `ServerSentEvents`: the `data: ` / `[DONE]` line filter that both readers share. The JSON
  layer is a parameter `delta` that maps a payload to its `delta.content` (`""` when there is
  none).
- `Channels`: queue entries `{seq, content}`, their sequence numbers, sortedness, and
  `DropBelow` (pop heads whose number is below a bound).
- `TagParser`: the `<jp>`/`<cn>` state machine of `_process_stream`, as a function
  `Feed` of one text increment. Its invariant `Inv` covers fresh numbers, ordered entries,
  and accumulated texts that are the concatenation of the fragments.
- `Synthesis`: one text-to-speech request becomes one sound entry. The HTTP call, the JSON
  reply and the Base64 decoding are the parameter `synth`.
- `Reconciler`: one pass of `_monitor_queues`, written as a function `Pass`.
- `NovelAssistant`: the class `VisualNovelAIAssistant` with its counter, queues and
  histories. Its methods are proved against the functions above and keep `Valid()`: every
  queue is sorted by sequence number and below the counter, and the Chinese queue is
  strictly increasing.
- `History`: the class `MessageHistory` and the function `Appended`, which models Python's
  negative slicing exactly.
- `Sentences`: `_has_complete_sentence`, `_split_sentences` (`re.split` with a capture group,
  the `zip_longest` pairing, the filter, and the pop/append at the end) and `_clean_sentences`.
- `OpenAiClient`: the class `Client` with its buffer and reply queue. `_handle_buffer`,
  `_process_stream` and `_fetch_response` are proved against the functions `Handle`,
  `Stream` and `Reply`.

## Behaviours of the code worth knowing

- **Phase never resets.** Line 367 of `VisualNovelAIAssistant/__init__.py` is the comparison
  `response_phase == 0`, not an assignment. Once the first `<jp>` fragment has been cut, the
  phase stays 1 for the rest of the stream, and the model keeps it that way
  (`TagParser.FeedShape`).
- **Only `<cn>` waits for the phase.** The `<jp>` search (line 342) runs on every increment;
  only the `<cn>` search (line 354) is guarded by the phase.
- **Lines 214-216 change nothing.** In `openai_http/__init__.py` they pop the last sentence and
  append it again (`Sentences.ReattachNoOp`).
- **The client's history never grows.** Nothing in `openai_http.Client` appends to it, so every
  request carries the base prompt and the user's text only.
- **`max_length = 1` does not bound the history.** With that bound, `append` takes the slice
  `[-0:]`, which is the whole list, so the history grows by two on every call
  (`History.AppendBoundOne`). The client uses the bound 10.
- **A reply can carry the end marker twice.** Line 169 queues `buffer.strip()` whenever the
  leftover buffer is not empty. A leftover of whitespace alone strips to `""`, the same
  string line 104 queues as the end of the reply (`OpenAiClient.ReplyEmptyPieces`).
- **Terminators split by whitespace make separate sentences.** `re.split` (line 208) cuts at
  maximal runs of terminators, so `"a. ! b"` gives `["a.", "!", "b"]`: a sentence can be a
  terminator alone (`Sentences.SpacedTerminators`).
- **Chinese numbers never repeat.** Each `<cn>` fragment takes a number of its own and the
  sentinel the next one, so the Chinese queue is strictly increasing. The reconciler therefore
  emits its packets under strictly increasing numbers (`Reconciler.PacketsInOrder`).
- **A tag inside a fragment makes the result depend on chunking.** Line 342 searches `<jp>`
  on every increment from the start of the buffer. `<jp>a</jp><cn><jp>x</jp></cn>` in one
  increment gives the Chinese fragment `<jp>x</jp>`. Split before `</cn>`, the second
  increment cuts the inner `<jp>x</jp>` as a second Japanese entry under the same number and
  leaves `</cn>` behind, so no Chinese entry is pushed (`TagParser.ChunkingMatters`). With
  fragments free of '<' every chunking gives the same result (`TagParser.AnyChunking`).
- **A space at the end of an increment can be lost.** `_handle_buffer` keeps the last split
  piece stripped (line 192 with the split at 210). `"Hi. How "` then `"are"` queues `"Hi."`
  and leaves the buffer `"Howare"`, not `"How are"` (`OpenAiClient.SpaceLostAtBufferEnd`).

## Model

| member | source | states |
|---|---|---|
| History.SliceFrom | game/python-packages/openai_http/__init__.py:30 | Python's `s[start:]` for any integer: the result is a suffix of `s`, of length `len(s)-start` for a start in range and `-start` for a negative start down to `-len(s)` |
| History.MessageHistory.constructor | game/python-packages/openai_http/__init__.py:22-24 | a new history is the base prompt alone, with the given bound, 5 when none is given |
| History.MessageHistory.Append | game/python-packages/openai_http/__init__.py:26-30 | the new history is `Appended(old, message, maxLength)`, is never empty and keeps its first element |
| History.Appended | game/python-packages/openai_http/__init__.py:26-30 | `append`: the message goes at the end, and a list longer than the bound becomes its first element followed by the slice `[-(max_length-1):]`; its properties are the four lemmas below |
| History.AppendKeepsFirst | game/python-packages/openai_http/__init__.py:26-30 | `append` never loses the first element, whatever the bound |
| History.AppendBounded | game/python-packages/openai_http/__init__.py:26-30 | with bound at least 2 and a history within it, the new length is `min(old+1, maxLength)`, the first element is kept, the last is the new message and the rest are the most recent messages in order |
| History.AppendEndsWithMessage | game/python-packages/openai_http/__init__.py:26-30 | with any positive bound the appended message is the last element |
| History.AppendBoundOne | game/python-packages/openai_http/__init__.py:26-30 | with bound 1 the result is `[first] + old + [message]`, two longer than before, so the bound does not hold |
| History.MessageHistory.Copy | game/python-packages/openai_http/__init__.py:32-34 | the copy equals the history and is not empty |
| History.MessageHistory.Clear | game/python-packages/openai_http/__init__.py:36-38 | the history becomes exactly its old first element |
| Sentences.HasCompleteSentence | game/python-packages/openai_http/__init__.py:194-199 | `_has_complete_sentence`: the regular-expression search for a terminator, written as a scan of the buffer |
| Sentences.HasCompleteSentenceIff | game/python-packages/openai_http/__init__.py:194-199 | the buffer has a complete sentence if and only if some character is one of `. ! ? 。 ！ ？` |
| Sentences.SplitRuns | game/python-packages/openai_http/__init__.py:208 | `re.split` with the capturing group: the text piece before the first terminator, then, while any remain, the maximal run of terminators and the split of what follows it; its shape is `SplitRunsShape` |
| Sentences.SplitRunsShape | game/python-packages/openai_http/__init__.py:208 | `re.split` with a capture group alternates text pieces free of terminators with non-empty maximal runs of terminators, starting and ending with a text piece |
| Sentences.SplitRunsStep | game/python-packages/openai_http/__init__.py:208 | text free of terminators, a run of terminators and a rest not starting with one split into the text, the run, then the split of the rest |
| Sentences.SplitRunsConcat | game/python-packages/openai_http/__init__.py:208 | the split pieces concatenate back to the buffer |
| Sentences.Pairs | game/python-packages/openai_http/__init__.py:210 | `"".join(pair)` over `zip_longest(parts[::2], parts[1::2], fillvalue="")`: the even-indexed parts joined with the odd-indexed ones, the shorter side filled with `""`; `PairsAt` states each pair |
| Sentences.PairsAt | game/python-packages/openai_http/__init__.py:210 | the `zip_longest` pairing joins text piece `k` with the run after it, and the last text piece with `""` |
| Sentences.PairsConcat | game/python-packages/openai_http/__init__.py:210 | pairing keeps the concatenated text |
| Sentences.NonEmpty | game/python-packages/openai_http/__init__.py:212 | the filter keeps no empty string and never lengthens the list |
| Sentences.NonEmptyConcat | game/python-packages/openai_http/__init__.py:212 | dropping empty strings keeps the concatenated text |
| Sentences.Reattach | game/python-packages/openai_http/__init__.py:214-216 | when the list is non-empty and its last sentence has no final terminator, the last sentence popped and appended again; otherwise the list as it is; `ReattachNoOp` shows the result is the input |
| Sentences.ReattachNoOp | game/python-packages/openai_http/__init__.py:214-216 | popping the last sentence and appending it again leaves the list unchanged |
| Sentences.PiecesShape | game/python-packages/openai_http/__init__.py:208-210 | after stripping, every paired piece but the last ends with a terminator, and every piece is stripped and is text followed by at most one run of terminators |
| Sentences.SplitSentences | game/python-packages/openai_http/__init__.py:201-217 | `_split_sentences` as the composition of the split, the pairing with `strip`, the filter and the pop/append; its properties are the lemmas around it |
| Sentences.SplitSentencesShape | game/python-packages/openai_http/__init__.py:201-217 | no sentence is empty or has whitespace at either end, every one but the last ends with a terminator, and each is text followed by at most one run of terminators; that the runs are maximal is `SplitRunsShape`, and which run goes with which text is `PairsAt` |
| Sentences.SpacedTerminators | game/python-packages/openai_http/__init__.py:201-217 | terminators separated by whitespace are cut apart: `"a. ! b"` gives `["a.", "!", "b"]` |
| Sentences.SplitNonEmpty | game/python-packages/openai_http/__init__.py:188-192 | a buffer with a terminator splits into at least one sentence, so `sentences[-1]` exists |
| Sentences.SplitKeepsText | game/python-packages/openai_http/__init__.py:201-217 | the sentences hold exactly the buffer's non-whitespace characters, in order |
| Text.Strip | game/python-packages/openai_http/__init__.py:228 | `str.strip()`: leading and trailing whitespace removed |
| Text.StripShape | game/python-packages/openai_http/__init__.py:228 | `strip` leaves no whitespace at either end and returns one contiguous part of the input with only whitespace around it |
| Text.StripKeepsNonSpace | game/python-packages/openai_http/__init__.py:191 | stripping removes whitespace only |
| Text.Find | game/python-packages/VisualNovelAIAssistant/__init__.py:342-344 | `str.find(pat, start)`: -1, or an index at or after `start` at which the whole pattern fits |
| Text.FindNone | game/python-packages/VisualNovelAIAssistant/__init__.py:342-344 | `find` returns -1 if and only if the pattern occurs nowhere from the start index on |
| Text.FindFound | game/python-packages/VisualNovelAIAssistant/__init__.py:342-344 | a non-negative `find` result is the first occurrence at or after the start index |
| Sentences.Collapse | game/python-packages/openai_http/__init__.py:230 | `re.sub(r'\s+', ' ', s)`: each maximal run of whitespace becomes one space |
| Sentences.CollapseShape | game/python-packages/openai_http/__init__.py:230 | `re.sub(r'\s+', ' ')` leaves a single-spaced string, empty exactly when the input is, starting with whitespace exactly when the input does, with the same non-whitespace characters in order |
| Sentences.StripQuotes | game/python-packages/openai_http/__init__.py:231 | the two-branch `re.sub` of quotes: the longest prefix of opening quotes, then the longest suffix of closing quotes of what is left, removed |
| Sentences.StripQuotesShape | game/python-packages/openai_http/__init__.py:231 | quote removal keeps one contiguous part, preceded only by opening quotes and followed only by closing quotes, neither starting with an opening quote nor ending with a closing one |
| Sentences.CleanOne | game/python-packages/openai_http/__init__.py:228-231 | one sentence of `_clean_sentences`: stripped, whitespace collapsed, quotes removed, in that order |
| Sentences.CleanOneShape | game/python-packages/openai_http/__init__.py:225-233 | a cleaned sentence is single-spaced |
| Sentences.CollapseKeepsStripped | game/python-packages/openai_http/__init__.py:228-230 | collapsing keeps a stripped sentence stripped |
| Sentences.CleanSentences | game/python-packages/openai_http/__init__.py:219-233 | the output has the input's length and element `i` is the input's element `i` stripped, collapsed and unquoted |
| ServerSentEvents.Classify | game/python-packages/openai_http/__init__.py:150-159 | a line is skipped when empty or not starting with `data: `, ends the stream when the rest is `[DONE]`, and otherwise yields the text after the six-character prefix |
| ServerSentEvents.Increments | game/python-packages/openai_http/__init__.py:146-166 | only non-empty contents are appended to the buffer |
| ServerSentEvents.IncrementsAppend | game/python-packages/openai_http/__init__.py:146-166 | reading a prefix free of "[DONE]", then the rest, gives the increments of both parts in order |
| ServerSentEvents.IncrementsAtDone | game/python-packages/openai_http/__init__.py:158-159 | nothing after the first "[DONE]" line is read |
| OpenAiClient.Handle | game/python-packages/openai_http/__init__.py:182-192 | `_handle_buffer` on a value: without a terminator nothing changes; otherwise every split sentence but the last is queued stripped and the last becomes the buffer |
| OpenAiClient.HandleKeepsText | game/python-packages/openai_http/__init__.py:182-192 | the queued sentences followed by the new buffer hold exactly the old buffer's non-whitespace text |
| OpenAiClient.HandleSentences | game/python-packages/openai_http/__init__.py:182-192 | every queued sentence is non-empty, stripped, ends with a terminator and holds one run of them; with a terminator present the queue gets all split sentences but the last, and the buffer becomes the last, non-empty and stripped, even when it is complete; without one nothing changes |
| OpenAiClient.Stream | game/python-packages/openai_http/__init__.py:160-166 | the buffer and the queued sentences after each increment in turn is appended to the buffer and handled |
| OpenAiClient.StreamLine | game/python-packages/openai_http/__init__.py:150-166 | one pass of the reading loop before "[DONE]": a data line whose content is non-empty is appended to the buffer and handled, its sentences added to the queue; a skipped line or one without content leaves the flow unchanged |
| OpenAiClient.StreamStep | game/python-packages/openai_http/__init__.py:146-166 | reading one more line before "[DONE]" is one more step of the stream |
| OpenAiClient.StreamKeepsText | game/python-packages/openai_http/__init__.py:160-166 | after any increments, queue plus buffer hold the initial buffer's and the increments' non-whitespace text in order |
| OpenAiClient.StreamSentences | game/python-packages/openai_http/__init__.py:146-166 | everything the stream queues is a well-formed sentence |
| OpenAiClient.Flushed | game/python-packages/openai_http/__init__.py:168-169 | the stream's sentences, then the stripped leftover when the buffer is not empty |
| OpenAiClient.FlushedKeepsText | game/python-packages/openai_http/__init__.py:168-169 | the final flush keeps the non-whitespace text of queue plus buffer |
| OpenAiClient.Reply | game/python-packages/openai_http/__init__.py:97-105 | what one fetch adds to the queue: the flushed stream of the response's increments from an empty buffer when the request succeeds, nothing when it fails, then `""` |
| OpenAiClient.ReplyShape | game/python-packages/openai_http/__init__.py:97-105 | what a fetch adds ends with the end marker `""`; a failed request adds only that; otherwise every queued sentence is well formed and the additions hold the reply's whole non-whitespace text |
| OpenAiClient.SpaceLostAtBufferEnd | game/python-packages/openai_http/__init__.py:160-192 | the kept piece is stripped, so `"Hi. How "` then `"are"` queues `"Hi."` and leaves the buffer `"Howare"` |
| OpenAiClient.ReplyEmptyPieces | game/python-packages/openai_http/__init__.py:168-169 | before the end marker, an entry is `""` if and only if it is the flushed leftover and that leftover is non-empty whitespace, so a second `""` appears exactly then |
| OpenAiClient.Client.constructor | game/python-packages/openai_http/__init__.py:51-64 | an idle client whose history is the system prompt alone, bounded by 10 |
| OpenAiClient.Client.PrepareMessages | game/python-packages/openai_http/__init__.py:107-122 | the request's messages are the whole history followed by the user's text, the system prompt first |
| OpenAiClient.Client.HandleBuffer | game/python-packages/openai_http/__init__.py:182-192 | the new buffer and the queue's additions are those of `Handle` of the old buffer |
| OpenAiClient.Client.PutStripped | game/python-packages/openai_http/__init__.py:190-191 | the queue grows by the sentences, each stripped, in order |
| OpenAiClient.Client.Append | game/python-packages/openai_http/__init__.py:164-166 | the content is appended to the buffer, which is then handled |
| OpenAiClient.Client.ReadContent | game/python-packages/openai_http/__init__.py:164-166 | a data line's non-empty content, appended and handled: buffer and queue advance by one `Handle` step |
| OpenAiClient.Client.ReadLine | game/python-packages/openai_http/__init__.py:150-166 | a data line with content advances the buffer and the queue by one stream step; any other line changes neither |
| OpenAiClient.Client.ProcessStream | game/python-packages/openai_http/__init__.py:140-169 | the buffer is the stream's buffer and the queue grows by the stream's sentences, then by the stripped leftover when it is not empty |
| OpenAiClient.Client.FetchResponse | game/python-packages/openai_http/__init__.py:90-105 | the request carries the whole history followed by the user's text; the queue grows by the processed reply when the request succeeds, then by `""` in every case; the buffer is the stream's leftover after a successful request and unchanged after a failed one; the client is idle again |
| OpenAiClient.Client.StartFetching | game/python-packages/openai_http/__init__.py:71-84 | refused, changing nothing, while running; otherwise the fetch starts from an empty buffer: the queue grows by `Reply`, the buffer ends as the stream's leftover (`""` after a failed request) and the client is idle again |
| NovelAssistant.VisualNovelAIAssistant.constructor | game/python-packages/VisualNovelAIAssistant/__init__.py:72-96 | counter 0, synthesis off, every queue and history empty |
| NovelAssistant.VisualNovelAIAssistant.GetSequenceNumber | game/python-packages/VisualNovelAIAssistant/__init__.py:447-451 | returns the counter's old value and advances it by exactly one, so successive numbers are distinct and increasing |
| TagParser.Start | game/python-packages/VisualNovelAIAssistant/__init__.py:308-317 | the reader's state on entry to `_process_stream`: empty buffer and texts, phase 0, no entries, the number `seq` just taken from the counter and the counter one past it |
| TagParser.ExtractPair | game/python-packages/VisualNovelAIAssistant/__init__.py:342-351 | a found pair has its closing tag at least four characters after the opening tag and inside the buffer |
| TagParser.CloseAfterOpen | game/python-packages/VisualNovelAIAssistant/__init__.py:344 | a closing tag found from the opening tag's index never starts inside the opening tag |
| TagParser.ExtractSome | game/python-packages/VisualNovelAIAssistant/__init__.py:342-351 | the fragment is exactly the text between the first opening tag and the first closing tag after it, and the buffer continues after that closing tag |
| TagParser.ExtractNoneIff | game/python-packages/VisualNovelAIAssistant/__init__.py:342-345 | nothing is extracted if and only if no closing tag starts at or after an opening tag |
| TagParser.FragmentHasNoClose | game/python-packages/VisualNovelAIAssistant/__init__.py:344-347 | an extracted fragment holds no closing tag of its own kind |
| TagParser.TakeJp | game/python-packages/VisualNovelAIAssistant/__init__.py:342-352 | the `<jp>` step: on a pair the fragment is pushed under the current number, added to the Japanese text, the buffer continues after `</jp>` and the phase becomes 1; otherwise nothing changes |
| TagParser.TakeJpKeeps | game/python-packages/VisualNovelAIAssistant/__init__.py:342-352 | the `<jp>` step leaves the numbering and the Chinese side alone |
| TagParser.TakeCn | game/python-packages/VisualNovelAIAssistant/__init__.py:354-367 | the `<cn>` step: only in phase 1; on a pair the fragment is pushed under the current number, the buffer continues after `</cn>` and the number becomes the counter's value, which advances |
| TagParser.TakeCnKeeps | game/python-packages/VisualNovelAIAssistant/__init__.py:354-367 | the `<cn>` step leaves the phase and the Japanese side alone |
| TagParser.Feed | game/python-packages/VisualNovelAIAssistant/__init__.py:337-367 | one non-empty increment: appended to the buffer, then the `<jp>` step, then the `<cn>` step |
| TagParser.JpExtracted | game/python-packages/VisualNovelAIAssistant/__init__.py:342-352 | on a `<jp>` pair, one entry with the fragment under the current number is pushed, the fragment is added to the Japanese text, the phase becomes 1 and the text before `<jp>` is gone |
| TagParser.CnExtracted | game/python-packages/VisualNovelAIAssistant/__init__.py:354-367 | in phase 1, on a `<cn>` pair, one entry under the current number is pushed, the buffer continues after `</cn>` and the number becomes the counter's value |
| TagParser.NoPairOnlyBuffers | game/python-packages/VisualNovelAIAssistant/__init__.py:342-367 | in phase 0 without a `<jp>` pair an increment only grows the buffer |
| TagParser.FeedShape | game/python-packages/VisualNovelAIAssistant/__init__.py:337-367 | one increment pushes at most one entry per language, only appends, pushes `<cn>` entries only in phase 1, never leaves phase 1, and changes the number exactly when it pushes a `<cn>` entry |
| TagParser.FeedAll | game/python-packages/VisualNovelAIAssistant/__init__.py:319-367 | the increments fed one after the other, in order |
| TagParser.FeedInv | game/python-packages/VisualNovelAIAssistant/__init__.py:337-367 | one increment keeps `Inv`: fresh numbers, ordered entries, cn entries numbered consecutively, accumulated texts equal to the fragments' concatenation |
| TagParser.FeedAllInv | game/python-packages/VisualNovelAIAssistant/__init__.py:317-367 | a whole stream read from the first allocation keeps `Inv` |
| TagParser.PushedInOrder | game/python-packages/VisualNovelAIAssistant/__init__.py:317-384 | the numbers pushed to each queue, sentinel included, are non-decreasing, start at the first allocation and stay below the counter; on the Chinese queue they are strictly increasing |
| TagParser.WholeReply | game/python-packages/VisualNovelAIAssistant/__init__.py:337-367 | a reply arriving as `<jp>a</jp><cn>b</cn>`, with fragments free of '<', in one increment yields one entry per language under the first number, empties the buffer and allocates one further number |
| TagParser.FeedPrefix | game/python-packages/VisualNovelAIAssistant/__init__.py:337-367 | with fragments free of '<', the reader's state depends only on how much of `<jp>a</jp><cn>b</cn>` has arrived, not on how it was chunked: nothing is cut before `</jp>` is complete, the Japanese entry alone until `</cn>` is complete, both entries afterwards |
| TagParser.FeedChunks | game/python-packages/VisualNovelAIAssistant/__init__.py:317-367 | with fragments free of '<', any chunks that join to a prefix of `<jp>a</jp><cn>b</cn>` leave the reader in the state of that prefix |
| TagParser.AnyChunking | game/python-packages/VisualNovelAIAssistant/__init__.py:317-367 | the same reply, with fragments free of '<', split into increments at arbitrary boundaries ends in the same state as when it arrives whole |
| TagParser.ChunkingMatters | game/python-packages/VisualNovelAIAssistant/__init__.py:337-367 | when a fragment holds a tag the chunking changes the result: `<jp>a</jp><cn><jp>x</jp></cn>` whole gives the Chinese entry `<jp>x</jp>`; split before `</cn>` it gives two Japanese entries, `a` and `x`, under one number and no Chinese entry |
| TagParser.NestedWhole | game/python-packages/VisualNovelAIAssistant/__init__.py:337-367 | the reader's whole state after `<jp>a</jp><cn><jp>x</jp></cn>` in one increment |
| TagParser.NestedSplit | game/python-packages/VisualNovelAIAssistant/__init__.py:337-367 | the reader's whole state after `<jp>a</jp><cn><jp>x</jp>` then `</cn>`: the second increment's `<jp>` search cuts the inner pair and leaves `</cn>` in the buffer |
| NovelAssistant.Outcome | game/python-packages/VisualNovelAIAssistant/__init__.py:317-367 | the reader's state after all increments of a response, from a fresh state at the first allocated number |
| NovelAssistant.OutcomeStep | game/python-packages/VisualNovelAIAssistant/__init__.py:319-340 | reading one more line before "[DONE]" is one more `ReadStep` |
| NovelAssistant.ReadStep | game/python-packages/VisualNovelAIAssistant/__init__.py:319-340 | one line before "[DONE]": a data line whose content is not empty is fed to the reader, any other line is ignored |
| NovelAssistant.VisualNovelAIAssistant.PushJp | game/python-packages/VisualNovelAIAssistant/__init__.py:342-352 | the local state and both Japanese queues advance exactly as the `<jp>` step `TakeJp` says |
| NovelAssistant.VisualNovelAIAssistant.PushCn | game/python-packages/VisualNovelAIAssistant/__init__.py:354-367 | the local state, the Chinese queue and the counter advance exactly as the `<cn>` step `TakeCn` says |
| NovelAssistant.VisualNovelAIAssistant.TakeIncrement | game/python-packages/VisualNovelAIAssistant/__init__.py:337-367 | one increment advances the state and the queues exactly as `Feed` says |
| NovelAssistant.VisualNovelAIAssistant.ReadLine | game/python-packages/VisualNovelAIAssistant/__init__.py:319-367 | one line before "[DONE]" advances the state as `ReadStep` says |
| NovelAssistant.VisualNovelAIAssistant.ReadReply | game/python-packages/VisualNovelAIAssistant/__init__.py:317-367 | the reading loop leaves the queues, texts and number of `Outcome`, the state after all increments |
| NovelAssistant.Recorded | game/python-packages/VisualNovelAIAssistant/__init__.py:373-379 | a history grows by exactly two messages, the user's text then the reply, if and only if both the Chinese and the Japanese text are non-empty; otherwise it is unchanged |
| NovelAssistant.VisualNovelAIAssistant.RecordReply | game/python-packages/VisualNovelAIAssistant/__init__.py:373-379 | each of the three histories is updated per `Recorded`, the Japanese history recording the Japanese text and the others the Chinese text |
| NovelAssistant.VisualNovelAIAssistant.PushSentinels | game/python-packages/VisualNovelAIAssistant/__init__.py:381-383 | exactly one `{seq, None}` with the current number is appended to each of the three text queues |
| NovelAssistant.SummaryRule | game/python-packages/VisualNovelAIAssistant/__init__.py:179-193 | `_summarize`: a history longer than 8 is replaced by the one assistant message holding a non-empty summary, and otherwise kept |
| NovelAssistant.SummaryReplacesIff | game/python-packages/VisualNovelAIAssistant/__init__.py:179-193 | the summary replaces the history, with one assistant message, if and only if the history is longer than 8 and the summary is non-empty |
| NovelAssistant.VisualNovelAIAssistant.Summarize | game/python-packages/VisualNovelAIAssistant/__init__.py:179-193 | the history after `_summarize` follows `SummaryRule`, the summary being asked for the history plus the summary prompt |
| NovelAssistant.VisualNovelAIAssistant.FinishReply | game/python-packages/VisualNovelAIAssistant/__init__.py:369-385 | after the reading loop: histories recorded, one sentinel per queue, one further number, then the summary; the invariant holds again |
| NovelAssistant.VisualNovelAIAssistant.ProcessStream | game/python-packages/VisualNovelAIAssistant/__init__.py:308-385 | each text queue grows by the entries of `Outcome` and one sentinel with its final number, the counter ends one past that number, the histories follow `Recorded` and then `SummaryRule`, and the invariant is kept |
| Synthesis.SoundFor | game/python-packages/VisualNovelAIAssistant/__init__.py:399-441 | the sound entry carries the request's number and has audio if and only if synthesis is on, the text is non-empty and synthesis returned audio, which it then holds |
| Synthesis.Sounds | game/python-packages/VisualNovelAIAssistant/__init__.py:396-445 | a run of requests gives one sound entry per request, in order |
| Synthesis.SoundsKeepSeqs | game/python-packages/VisualNovelAIAssistant/__init__.py:401-441 | the sound entries carry the requests' numbers in the same order |
| Synthesis.SoundsAppend | game/python-packages/VisualNovelAIAssistant/__init__.py:396-445 | answering requests one at a time gives the sounds of the whole run |
| Synthesis.SilentWhenDisabled | game/python-packages/VisualNovelAIAssistant/__init__.py:405 | with synthesis off every sound entry is silent |
| Synthesis.SentinelIsSilent | game/python-packages/VisualNovelAIAssistant/__init__.py:402-405 | a sentinel request gets a silent entry under its own number |
| NovelAssistant.VisualNovelAIAssistant.TtsStep | game/python-packages/VisualNovelAIAssistant/__init__.py:396-442 | an empty synthesis queue changes nothing; otherwise its head is popped and exactly one `SoundFor` entry is appended to the sound queue; nothing else changes and the invariant is kept |
| Channels.DropBelow | game/python-packages/VisualNovelAIAssistant/__init__.py:466-467 | the discard loop: head entries are popped while their number is below the bound; the result is never longer |
| Channels.DropBelowShape | game/python-packages/VisualNovelAIAssistant/__init__.py:466-467 | the discard loop keeps a suffix, every dropped entry is below the bound and the new head, if any, is not |
| Channels.DropBelowKeepsCurrent | game/python-packages/VisualNovelAIAssistant/__init__.py:466-467 | a queue whose head is at the bound loses nothing |
| Channels.DropBelowSorted | game/python-packages/VisualNovelAIAssistant/__init__.py:466-471 | on a sorted queue every entry left is at or above the bound and the queue stays sorted |
| Reconciler.Pass | game/python-packages/VisualNovelAIAssistant/__init__.py:456-489 | one pass: idle unless all three queues hold an entry; otherwise the discards below the largest head number, then, if all three still hold an entry, the heads popped and their packet emitted when their numbers agree |
| Reconciler.Max3 | game/python-packages/VisualNovelAIAssistant/__init__.py:463 | the result is one of the three heads' numbers and at least each of them |
| Reconciler.Discard | game/python-packages/VisualNovelAIAssistant/__init__.py:466-471 | the three discard loops, each with the same bound |
| Reconciler.IdleUnlessReady | game/python-packages/VisualNovelAIAssistant/__init__.py:456 | with one queue empty a pass changes nothing and emits nothing |
| Reconciler.DiscardOnlyStale | game/python-packages/VisualNovelAIAssistant/__init__.py:466-471 | the discards remove only entries below the largest head number, and every remaining head is at or above it |
| Reconciler.MaxSupplierKeepsAll | game/python-packages/VisualNovelAIAssistant/__init__.py:463-471 | a queue whose head has the largest number loses nothing to the discards |
| Reconciler.SupplierKept | game/python-packages/VisualNovelAIAssistant/__init__.py:463-471 | at least one queue supplies the largest number and keeps all its entries |
| Reconciler.OnlyHeadsRemoved | game/python-packages/VisualNovelAIAssistant/__init__.py:466-478 | a pass leaves each queue a suffix of itself, at most one shorter than after the discards |
| Reconciler.ReadyPassShrinks | game/python-packages/VisualNovelAIAssistant/__init__.py:456-478 | a pass over three non-empty queues strictly decreases their total length |
| Reconciler.EmitsIffAligned | game/python-packages/VisualNovelAIAssistant/__init__.py:474-489 | a packet is emitted if and only if, after the discards, all three queues are non-empty with equal head numbers; it is then under the largest number and holds the three heads' contents |
| Reconciler.AlignedHeadsEmit | game/python-packages/VisualNovelAIAssistant/__init__.py:474-489 | with equal head numbers the pass pops the three heads and emits their packet |
| Reconciler.PassKeepsSorted | game/python-packages/VisualNovelAIAssistant/__init__.py:456-489 | a pass keeps sorted queues sorted, and after a pass over non-empty queues every entry left is at or above the largest head number |
| Reconciler.MaxHeadNeverDecreases | game/python-packages/VisualNovelAIAssistant/__init__.py:456-489 | on sorted queues the largest head number never decreases from one pass to the next |
| Reconciler.PassKeepsCnStrict | game/python-packages/VisualNovelAIAssistant/__init__.py:456-489 | a pass keeps the Chinese queue strictly increasing |
| Reconciler.PacketsInOrder | game/python-packages/VisualNovelAIAssistant/__init__.py:456-489 | with a strictly increasing Chinese queue, when two passes in a row both emit a packet, the second packet's number is strictly larger than the first's |
| Reconciler.SilentAudio | game/python-packages/VisualNovelAIAssistant/__init__.py:484-489 | when every sound entry is silent, any emitted packet has no audio |
| Reconciler.StaleEntryDiscarded | game/python-packages/VisualNovelAIAssistant/__init__.py:456-489 | when the Chinese queue starts at 2 and the other two at 1, a pass drops the two stale entries numbered 1 and emits the packet of number 2 |
| NovelAssistant.VisualNovelAIAssistant.DiscardJp | game/python-packages/VisualNovelAIAssistant/__init__.py:466-467 | the Japanese queue becomes `DropBelow` of itself |
| NovelAssistant.VisualNovelAIAssistant.DiscardCn | game/python-packages/VisualNovelAIAssistant/__init__.py:468-469 | the Chinese queue becomes `DropBelow` of itself |
| NovelAssistant.VisualNovelAIAssistant.DiscardSound | game/python-packages/VisualNovelAIAssistant/__init__.py:470-471 | the sound queue becomes `DropBelow` of itself |
| NovelAssistant.VisualNovelAIAssistant.TakeHeads | game/python-packages/VisualNovelAIAssistant/__init__.py:474-489 | the three heads are popped only if all queues are non-empty, and a packet is appended to the reply queue only if their numbers are equal |
| NovelAssistant.VisualNovelAIAssistant.ReconcilePass | game/python-packages/VisualNovelAIAssistant/__init__.py:456-492 | the queues become those of `Pass` and the reply queue grows by its packet, if any |
| NovelAssistant.VisualNovelAIAssistant.MonitorStep | game/python-packages/VisualNovelAIAssistant/__init__.py:454-495 | one pass as `ReconcilePass`, keeping every queue sorted and below the counter and the Chinese queue strictly increasing, so `PacketsInOrder` applies to every pass |

## Left out

- Threads, `Queue` locking, `sequence_lock`, the `time.sleep` polling and the `is_running`
  flags: each loop iteration is one sequential method. The `is_running` checks inside the
  reading loops and `stop_fetching` are not modelled, so a reader always runs to "[DONE]" or to the end
  of the response.
- `_dialog_thread`: the input queue, the temporary history (history, base prompt, user
  text) and the request are not modelled. `ProcessStream` takes the response's lines.
- HTTP: sessions, adapters, `raise_for_status`, timeouts, `_send_request` and
  `_get_chat_response_sync`. The summary call is the parameter `llm`, with `""` for failure.
  The text-to-speech call is `synth`. The client's request is `send`, with `None` for a
  request that fails before streaming.
- A `RequestException` raised while a reply's stream is read (a broken connection, a
  truncated chunk) is not modelled. In the client it ends the reading early, though the end
  marker `""` is still queued. In the assistant such an exception ends `_process_stream`
  early and is caught at line 303 of `VisualNovelAIAssistant/__init__.py`: no history
  update (lines 373-379), no end-of-reply entries (lines 381-383), no second number
  (line 384) and no summary (line 385). The model's
  `NovelAssistant.VisualNovelAIAssistant.ProcessStream` always reads to the end and pushes
  the three entries.
- JSON: `json.loads`, `_parse_chunk` and the `choices[0].delta.content` lookup. These are
  the parameter `delta`, so a chunk without content is `""`. The `delta` and `content`
  lookups default to empty, but `chunk["choices"][0]` (line 163 of the client, line 336 of
  the assistant) raises `KeyError` or `IndexError` for a chunk without choices. The model
  does not capture that. In the client, `_fetch_response` catches only `RequestException`,
  so the error escapes it: the flush at lines 168-169 is skipped, while the `finally` block
  still queues `""`. In the assistant it ends the dialog thread.
- In the assistant, a payload that is not valid JSON raises at line 334 and ends the dialog
  thread. The model treats every payload as decodable.
- UTF-8 decoding of the response lines, and the Base64 decoding of the audio.
- `final_response`, which is only logged, and all logging.
- `load_history`, `save_history` and both `close` methods: file and session I/O.
- The request payload fields other than the messages (model, stream flag, default
  parameters).
- `OpenAiClient.Client.constructor`: it sets the buffer to `""`. The Python constructor
  never sets `self.buffer`; `start_fetching` is its first assignment.
- `OpenAiClient.Client.StartFetching`: the model returns `false` where the source raises
  `RuntimeError` for a fetch that is already running. The fetch runs to its end within the
  call instead of on a thread.
- `Text.IsSpace`: Python's whitespace set is written out explicitly. `\s` in `re` and
  `str.strip` are assumed to use the same set.
