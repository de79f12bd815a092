/**
  The server-sent-event line filter shared by both streaming readers: a line is used
  only when it starts with "data: "; the payload "[DONE]" ends the stream; any other
  payload is handed to the JSON layer, whose extracted `delta.content` is a parameter
  here (`delta`, with "" standing for "no content").
*/
module ServerSentEvents {
  import opened Text

  const DataPrefix: string := "data: "
  const DoneMarker: string := "[DONE]"

  datatype LineKind = Skip | Done | Data(payload: string)

  /** What one raw line of the response is, before JSON decoding. */
  function Classify(line: string): LineKind {
    if line == "" then Skip
    else if !StartsWith(line, DataPrefix) then Skip
    else if line[6..] == DoneMarker then Done
    else Data(line[6..])
  }

  /** No line of `lines` ends the stream. */
  predicate NoDone(lines: seq<string>) {
    forall k :: 0 <= k < |lines| ==> !Classify(lines[k]).Done?
  }

  /** The non-empty text increments the reader appends to its buffer, in order, up to the
      first "[DONE]" line. */
  function Increments(lines: seq<string>, delta: string -> string): (r: seq<string>)
    ensures forall i :: 0 <= i < |r| ==> r[i] != ""
  {
    if lines == [] then []
    else
      match Classify(lines[0])
      case Skip => Increments(lines[1..], delta)
      case Done => []
      case Data(payload) =>
        if delta(payload) == "" then Increments(lines[1..], delta)
        else [delta(payload)] + Increments(lines[1..], delta)
  }

  /** Reading a prefix without a "[DONE]" line, then the rest, gives the increments of
      both parts one after the other. */
  lemma {:induction false} IncrementsAppend(a: seq<string>, b: seq<string>, delta: string -> string)
    requires NoDone(a)
    ensures Increments(a + b, delta) == Increments(a, delta) + Increments(b, delta)
  {
    if a == [] {
      assert a + b == b;
    } else {
      assert (a + b)[0] == a[0];
      assert (a + b)[1..] == a[1..] + b;
      assert NoDone(a[1..]) by {
        forall k | 0 <= k < |a[1..]| ensures !Classify(a[1..][k]).Done? { assert a[1..][k] == a[k + 1]; }
      }
      IncrementsAppend(a[1..], b, delta);
    }
  }

  /** Reading one more line of a prefix without "[DONE]" adds that line's increment, if any. */
  lemma IncrementsSnoc(lines: seq<string>, i: nat, delta: string -> string)
    requires i < |lines| && NoDone(lines[..i])
    ensures Increments(lines[..i + 1], delta) == Increments(lines[..i], delta) + Increments([lines[i]], delta)
  {
    assert lines[..i + 1] == lines[..i] + [lines[i]];
    IncrementsAppend(lines[..i], [lines[i]], delta);
  }

  /** Nothing from the first "[DONE]" line on is read: the increments are those of the
      lines before it. */
  lemma IncrementsAtDone(lines: seq<string>, i: nat, delta: string -> string)
    requires i < |lines| && NoDone(lines[..i]) && Classify(lines[i]).Done?
    ensures Increments(lines, delta) == Increments(lines[..i], delta)
  {
    assert lines == lines[..i] + lines[i..];
    IncrementsAppend(lines[..i], lines[i..], delta);
    assert lines[i..][0] == lines[i];
    assert Increments(lines[i..], delta) == [];
  }
}
