/**
  The entries that travel on the pipeline's FIFO queues. Each queue is a `seq` whose
  index 0 is the head (`queue[0]` in the source) and whose end is where `put` appends.
  An entry with `content == None` is the terminal sentinel of its sequence number.
*/
module Channels {
  import opened Base

  datatype Entry<T> = Entry(seqNo: nat, content: Option<T>)

  /** The sequence numbers of a queue, head first. */
  function Seqs<T>(q: seq<Entry<T>>): (r: seq<nat>)
    ensures |r| == |q|
    ensures forall i :: 0 <= i < |q| ==> r[i] == q[i].seqNo
  {
    seq(|q|, i requires 0 <= i < |q| => q[i].seqNo)
  }

  /** Non-decreasing order. */
  predicate Sorted(s: seq<nat>) {
    forall i, j :: 0 <= i < j < |s| ==> s[i] <= s[j]
  }

  /** Strictly increasing order: no number occurs twice. */
  predicate StrictlySorted(s: seq<nat>) {
    forall i, j :: 0 <= i < j < |s| ==> s[i] < s[j]
  }

  /** Every number in `s` is below `n`. */
  predicate Below(s: seq<nat>, n: nat) {
    forall i :: 0 <= i < |s| ==> s[i] < n
  }

  /** Every number in `s` is at least `n`. */
  predicate AtLeast(s: seq<nat>, n: nat) {
    forall i :: 0 <= i < |s| ==> n <= s[i]
  }

  lemma SeqsAppend<T>(a: seq<Entry<T>>, b: seq<Entry<T>>)
    ensures Seqs(a + b) == Seqs(a) + Seqs(b)
  {
  }

  lemma SeqsSuffix<T>(q: seq<Entry<T>>, k: nat)
    requires k <= |q|
    ensures Seqs(q[k..]) == Seqs(q)[k..]
  {
  }

  /** Moving an entry from the head of one queue to the end of the one before it, under
      the same number, leaves the numbers of the two queues read one after the other
      unchanged. */
  lemma SeqsMove<T, U>(a: seq<Entry<T>>, x: Entry<T>, y: Entry<U>, b: seq<Entry<U>>)
    requires x.seqNo == y.seqNo
    ensures Seqs(a + [x]) + Seqs(b) == Seqs(a) + Seqs([y] + b)
  {
    var l, r := Seqs(a + [x]) + Seqs(b), Seqs(a) + Seqs([y] + b);
    forall i | 0 <= i < |l| ensures l[i] == r[i] {
      if i > |a| {
        assert l[i] == b[i - |a| - 1].seqNo;
      }
    }
  }

  /** The numbers of a queue read after another one, once entries are appended to it. */
  lemma SeqsAppendAfter<T, U>(s: seq<Entry<U>>, a: seq<Entry<T>>, x: seq<Entry<T>>)
    ensures Seqs(s) + Seqs(a + x) == (Seqs(s) + Seqs(a)) + Seqs(x)
  {
    SeqsAppend(a, x);
  }

  /** Appending numbers that are all at least as large as everything already there keeps
      a sorted sequence sorted. */
  lemma SortedAppend(a: seq<nat>, b: seq<nat>, n: nat)
    requires Sorted(a) && Sorted(b) && Below(a, n) && AtLeast(b, n)
    ensures Sorted(a + b)
  {
  }

  /** Appending strictly increasing numbers, all at least as large as anything already
      there, which is below `n`, keeps a sequence strictly increasing. */
  lemma StrictlySortedAppend(a: seq<nat>, b: seq<nat>, n: nat)
    requires StrictlySorted(a) && StrictlySorted(b) && Below(a, n) && AtLeast(b, n)
    ensures StrictlySorted(a + b)
  {
  }

  /** A suffix of a strictly increasing sequence is strictly increasing. */
  lemma StrictlySortedSuffix(s: seq<nat>, k: nat)
    requires StrictlySorted(s) && k <= |s|
    ensures StrictlySorted(s[k..])
  {
  }

  /** Appending a number no smaller than any already there keeps a sequence sorted. */
  lemma SortedSnoc(s: seq<nat>, x: nat)
    requires Sorted(s) && forall i :: 0 <= i < |s| ==> s[i] <= x
    ensures Sorted(s + [x])
  {
  }

  /** A suffix of a sorted sequence is sorted. */
  lemma SortedSuffix(s: seq<nat>, k: nat)
    requires Sorted(s) && k <= |s|
    ensures Sorted(s[k..])
  {
  }

  /** `r` is what is left of `x` after entries were taken from its head. */
  predicate SuffixOf<T(==)>(r: seq<T>, x: seq<T>) {
    |r| <= |x| && r == x[|x| - |r|..]
  }

  /** The inner discard loop of the reconciler: pop head entries while their sequence
      number is below `m`. */
  function DropBelow<T>(q: seq<Entry<T>>, m: nat): (r: seq<Entry<T>>)
    ensures |r| <= |q|
  {
    if q != [] && q[0].seqNo < m then DropBelow(q[1..], m) else q
  }

  /** The discard leaves a suffix of `q`; everything popped was below `m`; the new head,
      if any, is at least `m`. */
  lemma {:induction false} DropBelowShape<T>(q: seq<Entry<T>>, m: nat)
    ensures var r := DropBelow(q, m);
      && SuffixOf(r, q)
      && (forall i :: 0 <= i < |q| - |r| ==> q[i].seqNo < m)
      && (r != [] ==> r[0].seqNo >= m)
  {
    if q != [] && q[0].seqNo < m {
      var t := q[1..];
      var r := DropBelow(t, m);
      assert DropBelow(q, m) == r;
      DropBelowShape(t, m);
      assert t[|t| - |r|..] == q[|q| - |r|..];
      forall i | 0 <= i < |q| - |r| ensures q[i].seqNo < m {
        if i > 0 {
          assert q[i] == t[i - 1];
        }
      }
    }
  }

  /** A queue whose head is already at least `m` loses nothing. */
  lemma DropBelowKeepsCurrent<T>(q: seq<Entry<T>>, m: nat)
    requires q != [] && q[0].seqNo >= m
    ensures DropBelow(q, m) == q
  {
  }

  /** On a sorted queue the discard leaves only entries at or above `m`, and removes
      exactly the entries below `m`. */
  lemma {:induction false} DropBelowSorted<T>(q: seq<Entry<T>>, m: nat)
    requires Sorted(Seqs(q))
    ensures AtLeast(Seqs(DropBelow(q, m)), m)
    ensures Sorted(Seqs(DropBelow(q, m)))
  {
    var r := DropBelow(q, m);
    var k := |q| - |r|;
    DropBelowShape(q, m);
    SeqsSuffix(q, k);
    SortedSuffix(Seqs(q), k);
    if r != [] {
      SortedFromHead(Seqs(r), m);
    }
  }

  /** A sorted sequence whose head is at least `m` is at least `m` throughout. */
  lemma SortedFromHead(s: seq<nat>, m: nat)
    requires Sorted(s) && s != [] && m <= s[0]
    ensures AtLeast(s, m)
  {
    forall i | 0 <= i < |s| ensures m <= s[i] {
      assert s[0] <= s[i];
    }
  }
}
