/**
  One iteration of the speech-synthesis worker (`_tts_thread`): the head request of the
  synthesis queue becomes exactly one sound entry under the same number. The HTTP call,
  the JSON reply and its Base64 decoding are the parameter `synth`, which yields the
  audio bytes, or `None` when the call fails or the reply has no "audio" field.
*/
module Synthesis {
  import opened Base
  import opened Channels

  /** The sound entry produced for one request. */
  function SoundFor(req: Entry<string>, useTts: bool, synth: string -> Option<Bytes>): (r: Entry<Bytes>)
    ensures r.seqNo == req.seqNo
    ensures r.content.Some? <==>
      useTts && req.content.Some? && req.content.value != "" && synth(req.content.value).Some?
    ensures r.content.Some? ==> r.content == synth(req.content.value)
  {
    if req.content.Some? && req.content.value != "" && useTts then Entry(req.seqNo, synth(req.content.value))
    else Entry(req.seqNo, None)
  }

  /** The sound entries produced for a whole run of requests, in order. */
  function Sounds(reqs: seq<Entry<string>>, useTts: bool, synth: string -> Option<Bytes>): (r: seq<Entry<Bytes>>)
    ensures |r| == |reqs|
    ensures forall i :: 0 <= i < |reqs| ==> r[i] == SoundFor(reqs[i], useTts, synth)
  {
    if reqs == [] then [] else [SoundFor(reqs[0], useTts, synth)] + Sounds(reqs[1..], useTts, synth)
  }

  /** Synthesis preserves the numbering: the sound queue runs through the same numbers,
      in the same order, as the requests it answers. */
  lemma SoundsKeepSeqs(reqs: seq<Entry<string>>, useTts: bool, synth: string -> Option<Bytes>)
    ensures Seqs(Sounds(reqs, useTts, synth)) == Seqs(reqs)
  {
  }

  /** Working through the requests one at a time gives the same sound entries as working
      through all of them: the head's entry comes first. */
  lemma {:induction false} SoundsAppend(a: seq<Entry<string>>, b: seq<Entry<string>>, useTts: bool, synth: string -> Option<Bytes>)
    ensures Sounds(a + b, useTts, synth) == Sounds(a, useTts, synth) + Sounds(b, useTts, synth)
  {
    if a == [] {
      assert a + b == b;
    } else {
      assert (a + b)[0] == a[0];
      assert (a + b)[1..] == a[1..] + b;
      SoundsAppend(a[1..], b, useTts, synth);
    }
  }

  /** With synthesis switched off every sound entry is silent. */
  lemma SilentWhenDisabled(reqs: seq<Entry<string>>, synth: string -> Option<Bytes>)
    ensures forall i :: 0 <= i < |reqs| ==> Sounds(reqs, false, synth)[i].content.None?
  {
  }

  /** A sentinel request (no text) always gets a silent sound entry under its number. */
  lemma SentinelIsSilent(n: nat, useTts: bool, synth: string -> Option<Bytes>)
    ensures SoundFor(Entry(n, None), useTts, synth) == Entry(n, None)
  {
  }
}
