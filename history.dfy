/**
  The bounded message history of the plain chat client (`openai_http.MessageHistory`):
  a list that starts with the base prompt, keeps that first element through every update
  and, on `append`, is cut back to the first element plus the most recent messages when
  it grows past `maxLength`.
*/
module History {

  /** Python's `s[start:]` for any integer `start`: a negative start counts from the end,
      and `s[-0:]` is `s[0:]`, the whole list. */
  function SliceFrom<T>(s: seq<T>, start: int): (r: seq<T>)
    ensures |r| <= |s| && r == s[|s| - |r|..]
    ensures 0 <= start <= |s| ==> |r| == |s| - start
    ensures -|s| <= start < 0 ==> |r| == -start
  {
    if start >= 0 then (if start <= |s| then s[start..] else [])
    else if |s| + start >= 0 then s[|s| + start..]
    else s
  }

  /** The bound a history gets when its creator names none. */
  const DefaultMaxLength: int := 5

  /** The history after `append(m)`. */
  function Appended<T>(h: seq<T>, m: T, maxLength: int): seq<T>
    requires |h| >= 1
  {
    var g := h + [m];
    if |g| > maxLength then [g[0]] + SliceFrom(g, -(maxLength - 1)) else g
  }

  /** `append` never loses the first element. */
  lemma AppendKeepsFirst<T>(h: seq<T>, m: T, maxLength: int)
    requires |h| >= 1
    ensures |Appended(h, m, maxLength)| >= 1 && Appended(h, m, maxLength)[0] == h[0]
  {
  }

  /** With a bound of at least two, and a history already within it, `append` leaves a
      history of `min(old + 1, maxLength)` entries: the first element, then the most recent
      messages in order, ending with the one just appended. */
  lemma AppendBounded<T>(h: seq<T>, m: T, maxLength: int)
    requires |h| >= 1 && maxLength >= 2 && |h| <= maxLength
    ensures var r := Appended(h, m, maxLength);
      && |r| == (if |h| + 1 <= maxLength then |h| + 1 else maxLength)
      && r[0] == h[0]
      && r[|r| - 1] == m
      && r[1..] == (h + [m])[|h| + 1 - (|r| - 1)..]
  {
    var g := h + [m];
    if |g| > maxLength {
      var t := SliceFrom(g, -(maxLength - 1));
      assert |t| == maxLength - 1;
      assert ([g[0]] + t)[1..] == t;
    } else {
      assert g[1..] == g[|g| - (|g| - 1)..];
    }
  }

  /** With any positive bound, even one the history already exceeds, the message just
      appended is the last element. */
  lemma AppendEndsWithMessage<T>(h: seq<T>, m: T, maxLength: int)
    requires |h| >= 1 && maxLength >= 1
    ensures var r := Appended(h, m, maxLength); r[|r| - 1] == m
  {
    var g := h + [m];
    if |g| > maxLength {
      var t := SliceFrom(g, -(maxLength - 1));
      assert t == g[|g| - |t|..];
      if maxLength == 1 {
        assert t == g;
      }
    }
  }

  /** With a bound of one the slice `[-0:]` keeps every message, so the first element is
      duplicated and the history grows by two on every append. */
  lemma AppendBoundOne<T>(h: seq<T>, m: T)
    requires |h| >= 1
    ensures Appended(h, m, 1) == [h[0]] + h + [m]
    ensures |Appended(h, m, 1)| == |h| + 2
  {
    assert SliceFrom(h + [m], 0) == h + [m];
  }

  class MessageHistory<T> {
    var history: seq<T>
    var maxLength: int

    ghost predicate Valid()
      reads this
    {
      |history| >= 1
    }

    /** `MessageHistory(base_prompt, max_length=5)`: the history is the base prompt alone. */
    constructor (basePrompt: T, maxLength: int := DefaultMaxLength)
      ensures Valid()
      ensures history == [basePrompt] && this.maxLength == maxLength
    {
      history := [basePrompt];
      this.maxLength := maxLength;
    }

    /** `append(message)`. */
    method Append(message: T)
      requires Valid()
      modifies this`history
      ensures Valid()
      ensures history == Appended(old(history), message, maxLength)
      ensures history[0] == old(history)[0]
    {
      AppendKeepsFirst(history, message, maxLength);
      history := history + [message];
      if |history| > maxLength {
        history := [history[0]] + SliceFrom(history, -(maxLength - 1));
      }
    }

    /** `copy()`: a list equal to the history. */
    method Copy() returns (r: seq<T>)
      requires Valid()
      ensures r == history && |r| >= 1
    {
      r := history;
    }

    /** `clear()`: back to the first element alone. */
    method Clear()
      requires Valid()
      modifies this`history
      ensures Valid()
      ensures history == [old(history)[0]]
    {
      history := [history[0]];
    }
  }
}
