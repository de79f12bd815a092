/**
  One pass of the reconciler (`_monitor_queues`): when the Japanese, Chinese and sound
  queues are all non-empty, the entries below the largest head number are discarded,
  then, if all three queues still hold something, one entry is taken from each and a
  packet is emitted only when the three numbers agree.
*/
module Reconciler {
  import opened Base
  import opened Channels

  /** The three queues the reconciler reads, head first. */
  datatype Queues = Queues(jp: seq<Entry<string>>, cn: seq<Entry<string>>, sound: seq<Entry<Bytes>>)

  /** A reply package: the Japanese text, the Chinese text and the audio of one number. */
  datatype Packet = Packet(jp: Option<string>, cn: Option<string>, audio: Option<Bytes>)

  /** The queues after a pass and the packet it emitted, if any. */
  datatype PassResult = PassResult(queues: Queues, packet: Option<Packet>)

  predicate Ready(q: Queues) {
    q.jp != [] && q.cn != [] && q.sound != []
  }

  /** `max(jp_seq, cn_seq, sound_seq)`. */
  function Max3(a: nat, b: nat, c: nat): (r: nat)
    ensures (r == a || r == b || r == c) && a <= r && b <= r && c <= r
  {
    if a >= b && a >= c then a else if b >= c then b else c
  }

  function MaxHead(q: Queues): nat
    requires Ready(q)
  {
    Max3(q.jp[0].seqNo, q.cn[0].seqNo, q.sound[0].seqNo)
  }

  /** The three discard loops. */
  function Discard(q: Queues, m: nat): Queues {
    Queues(DropBelow(q.jp, m), DropBelow(q.cn, m), DropBelow(q.sound, m))
  }

  function Total(q: Queues): nat {
    |q.jp| + |q.cn| + |q.sound|
  }

  /** Every queue is in non-decreasing order of number. */
  predicate SortedQueues(q: Queues) {
    Sorted(Seqs(q.jp)) && Sorted(Seqs(q.cn)) && Sorted(Seqs(q.sound))
  }

  /** One entry taken from each queue. */
  function Pop(d: Queues): Queues
    requires Ready(d)
  {
    Queues(d.jp[1..], d.cn[1..], d.sound[1..])
  }

  /** The three head numbers agree (`jp_seq == cn_seq == sound_seq`). */
  predicate Aligned(d: Queues)
    requires Ready(d)
  {
    d.jp[0].seqNo == d.cn[0].seqNo && d.cn[0].seqNo == d.sound[0].seqNo
  }

  /** One pass of the loop body. */
  function Pass(q: Queues): PassResult {
    if !Ready(q) then PassResult(q, None)
    else
      var d := Discard(q, MaxHead(q));
      if !Ready(d) then PassResult(d, None)
      else if Aligned(d) then PassResult(Pop(d), Some(Packet(d.jp[0].content, d.cn[0].content, d.sound[0].content)))
      else PassResult(Pop(d), None)
  }

  /** A pass over three non-empty queues is the discard below the largest head, then
      the heads taken when all three still hold an entry, with the packet of their
      contents when their numbers agree. */
  lemma PassAfterDiscard(q: Queues)
    requires Ready(q)
    ensures var d := Discard(q, MaxHead(q));
      && Pass(q).queues == (if Ready(d) then Pop(d) else d)
      && Pass(q).packet == if Ready(d) && Aligned(d)
                           then Some(Packet(d.jp[0].content, d.cn[0].content, d.sound[0].content)) else None
  {
  }

  /** What a pass leaves of one queue: the discard, then possibly the head. It is a
      suffix of the queue, shorter by at most one than the discard's result. */
  lemma LeftOf<T>(x: seq<Entry<T>>, m: nat, pop: bool)
    requires pop ==> DropBelow(x, m) != []
    ensures var d := DropBelow(x, m); var r := if pop then d[1..] else d;
      SuffixOf(r, x) && |d| <= |r| + 1
  {
    var d := DropBelow(x, m);
    DropBelowShape(x, m);
    if pop {
      assert d[1..] == x[|x| - |d| + 1..];
    }
  }

  /** The queue that supplied the largest head keeps its head through the discard. */
  lemma SupplierKept(q: Queues)
    requires Ready(q)
    ensures var m := MaxHead(q); var d := Discard(q, m);
      (q.jp[0].seqNo == m && d.jp == q.jp) || (q.cn[0].seqNo == m && d.cn == q.cn)
      || (q.sound[0].seqNo == m && d.sound == q.sound)
  {
    var m := MaxHead(q);
    if q.jp[0].seqNo == m {
      DropBelowKeepsCurrent(q.jp, m);
    } else if q.cn[0].seqNo == m {
      DropBelowKeepsCurrent(q.cn, m);
    } else {
      DropBelowKeepsCurrent(q.sound, m);
    }
  }

  /** A pass does nothing unless all three queues hold an entry. */
  lemma IdleUnlessReady(q: Queues)
    requires !Ready(q)
    ensures Pass(q) == PassResult(q, None)
  {
  }

  /** Each queue after a pass is what is left of it: a pass only ever takes entries from
      the heads, and after the discard at most one more entry of each queue, the one
      taken for the packet. */
  lemma OnlyHeadsRemoved(q: Queues)
    requires Ready(q)
    ensures var r := Pass(q).queues; var d := Discard(q, MaxHead(q));
      && SuffixOf(r.jp, q.jp) && SuffixOf(r.cn, q.cn) && SuffixOf(r.sound, q.sound)
      && |d.jp| <= |r.jp| + 1 && |d.cn| <= |r.cn| + 1 && |d.sound| <= |r.sound| + 1
  {
    var m := MaxHead(q);
    var d := Discard(q, m);
    var pop := Ready(d);
    var r := Pass(q).queues;
    assert r == if pop then Pop(d) else d;
    LeftOf(q.jp, m, pop);
    LeftOf(q.cn, m, pop);
    LeftOf(q.sound, m, pop);
  }

  /** The discard removes only entries below the largest head number, and stops at the
      first entry at or above it. */
  lemma DiscardOnlyStale(q: Queues)
    requires Ready(q)
    ensures var m := MaxHead(q); var d := Discard(q, m);
      && (forall i :: 0 <= i < |q.jp| - |d.jp| ==> q.jp[i].seqNo < m)
      && (forall i :: 0 <= i < |q.cn| - |d.cn| ==> q.cn[i].seqNo < m)
      && (forall i :: 0 <= i < |q.sound| - |d.sound| ==> q.sound[i].seqNo < m)
      && (d.jp != [] ==> d.jp[0].seqNo >= m) && (d.cn != [] ==> d.cn[0].seqNo >= m)
      && (d.sound != [] ==> d.sound[0].seqNo >= m)
  {
    var m := MaxHead(q);
    DropBelowShape(q.jp, m);
    DropBelowShape(q.cn, m);
    DropBelowShape(q.sound, m);
  }

  /** The queue that supplied the largest head loses nothing to the discard. */
  lemma MaxSupplierKeepsAll(q: Queues)
    requires Ready(q)
    ensures var m := MaxHead(q); var d := Discard(q, m);
      && (q.jp[0].seqNo == m ==> d.jp == q.jp)
      && (q.cn[0].seqNo == m ==> d.cn == q.cn)
      && (q.sound[0].seqNo == m ==> d.sound == q.sound)
  {
  }

  /** A pass over three non-empty queues takes at least one entry: the total length
      strictly decreases, so a reconciler fed nothing new falls idle. */
  lemma ReadyPassShrinks(q: Queues)
    requires Ready(q)
    ensures Total(Pass(q).queues) < Total(q)
  {
    var d := Discard(q, MaxHead(q));
    if Ready(d) {
      assert Pass(q).queues == Pop(d);
    } else {
      assert Pass(q).queues == d;
    }
  }

  /** A packet is emitted exactly when, after the discard, all three queues still hold an
      entry and their heads carry one number; that number is the largest head number and
      the packet holds those three heads' contents. No pass emits more than one packet. */
  lemma EmitsIffAligned(q: Queues)
    requires Ready(q)
    ensures var m := MaxHead(q); var d := Discard(q, m);
      && (Pass(q).packet.Some? <==>
            Ready(d) && d.jp[0].seqNo == d.cn[0].seqNo && d.cn[0].seqNo == d.sound[0].seqNo)
      && (Pass(q).packet.Some? ==>
            && d.jp[0].seqNo == m
            && Pass(q).packet.value == Packet(d.jp[0].content, d.cn[0].content, d.sound[0].content))
  {
    SupplierKept(q);
  }

  /** When the three heads already agree, nothing is discarded and their packet is
      emitted, taking exactly one entry from each queue. */
  lemma AlignedHeadsEmit(q: Queues)
    requires Ready(q) && q.jp[0].seqNo == q.cn[0].seqNo == q.sound[0].seqNo
    ensures Pass(q) == PassResult(Queues(q.jp[1..], q.cn[1..], q.sound[1..]),
                                  Some(Packet(q.jp[0].content, q.cn[0].content, q.sound[0].content)))
  {
    var m := MaxHead(q);
    DropBelowKeepsCurrent(q.jp, m);
    DropBelowKeepsCurrent(q.cn, m);
    DropBelowKeepsCurrent(q.sound, m);
  }

  /** What a pass leaves of one sorted queue is sorted and at or above the bound. */
  lemma SortedLeft<T>(x: seq<Entry<T>>, m: nat, pop: bool)
    requires Sorted(Seqs(x)) && (pop ==> DropBelow(x, m) != [])
    ensures var d := DropBelow(x, m); var r := if pop then d[1..] else d;
      Sorted(Seqs(r)) && AtLeast(Seqs(r), m)
  {
    var d := DropBelow(x, m);
    DropBelowSorted(x, m);
    if pop {
      SeqsSuffix(d, 1);
      SortedSuffix(Seqs(d), 1);
    }
  }

  /** A pass keeps queues sorted, and on sorted queues everything left after a pass is at
      or above the largest head number it saw. */
  lemma PassKeepsSorted(q: Queues)
    requires SortedQueues(q)
    ensures SortedQueues(Pass(q).queues)
    ensures Ready(q) ==> var r := Pass(q).queues; var m := MaxHead(q);
      AtLeast(Seqs(r.jp), m) && AtLeast(Seqs(r.cn), m) && AtLeast(Seqs(r.sound), m)
  {
    if Ready(q) {
      var m := MaxHead(q);
      var d := Discard(q, m);
      var pop := Ready(d);
      assert Pass(q).queues == if pop then Pop(d) else d;
      SortedLeft(q.jp, m, pop);
      SortedLeft(q.cn, m, pop);
      SortedLeft(q.sound, m, pop);
    }
  }

  /** On sorted queues the largest head number never goes down from one pass to the next,
      so the packets a reconciler emits come out in non-decreasing order of number. */
  lemma MaxHeadNeverDecreases(q: Queues)
    requires SortedQueues(q) && Ready(q) && Ready(Pass(q).queues)
    ensures MaxHead(q) <= MaxHead(Pass(q).queues)
  {
    PassKeepsSorted(q);
    var r := Pass(q).queues;
    assert Seqs(r.jp)[0] == r.jp[0].seqNo;
  }

  /** A pass keeps the Chinese queue strictly increasing. */
  lemma PassKeepsCnStrict(q: Queues)
    requires StrictlySorted(Seqs(q.cn))
    ensures StrictlySorted(Seqs(Pass(q).queues.cn))
  {
    if Ready(q) {
      OnlyHeadsRemoved(q);
      var r := Pass(q).queues.cn;
      SeqsSuffix(q.cn, |q.cn| - |r|);
      StrictlySortedSuffix(Seqs(q.cn), |q.cn| - |r|);
    }
  }

  /** When the Chinese queue is strictly increasing, of two passes in a row that both emit
      a packet the second emits under a strictly larger number: the first takes the head
      of the Chinese queue under its number, and the next head is larger. */
  lemma PacketsInOrder(q: Queues)
    requires StrictlySorted(Seqs(q.cn))
    requires Pass(q).packet.Some? && Pass(Pass(q).queues).packet.Some?
    ensures Ready(q) && Ready(Pass(q).queues)
    ensures MaxHead(q) < MaxHead(Pass(q).queues)
  {
    if !Ready(q) {
      IdleUnlessReady(q);
      assert false;
    }
    var r := Pass(q).queues;
    if !Ready(r) {
      IdleUnlessReady(r);
      assert false;
    }
    var m := MaxHead(q);
    var d := Discard(q, m);
    EmitsIffAligned(q);
    assert r == Pop(d) && d.cn[0].seqNo == m;
    DropBelowShape(q.cn, m);
    SeqsSuffix(q.cn, |q.cn| - |d.cn|);
    StrictlySortedSuffix(Seqs(q.cn), |q.cn| - |d.cn|);
    assert Seqs(d.cn)[0] < Seqs(d.cn)[1];
    assert r.cn[0] == d.cn[1];
  }

  /** A queue whose every audio entry is silent produces packets without audio. */
  lemma SilentAudio(q: Queues)
    requires forall i :: 0 <= i < |q.sound| ==> q.sound[i].content.None?
    ensures Pass(q).packet.Some? ==> Pass(q).packet.value.audio.None?
  {
    if Ready(q) {
      var d := Discard(q, MaxHead(q));
      if Ready(d) {
        DropBelowShape(q.sound, MaxHead(q));
        assert d.sound[0] == q.sound[|q.sound| - |d.sound|];
      }
    }
  }

  /** A stale Japanese entry is discarded and the next number is emitted: with numbers
      [1, 2, 3], [2, 3] and [1, 2, 3] the first pass emits the packet of number 2. */
  lemma StaleEntryDiscarded(a1: string, a2: string, a3: string, b2: string, b3: string, s1: Bytes, s2: Bytes, s3: Bytes)
    ensures var q := Queues([Entry(1, Some(a1)), Entry(2, Some(a2)), Entry(3, Some(a3))],
                            [Entry(2, Some(b2)), Entry(3, Some(b3))],
                            [Entry(1, Some(s1)), Entry(2, Some(s2)), Entry(3, Some(s3))]);
      Pass(q) == PassResult(Queues([Entry(3, Some(a3))], [Entry(3, Some(b3))], [Entry(3, Some(s3))]),
                            Some(Packet(Some(a2), Some(b2), Some(s2))))
  {
    var q := Queues([Entry(1, Some(a1)), Entry(2, Some(a2)), Entry(3, Some(a3))],
                    [Entry(2, Some(b2)), Entry(3, Some(b3))],
                    [Entry(1, Some(s1)), Entry(2, Some(s2)), Entry(3, Some(s3))]);
    assert MaxHead(q) == 2;
    assert DropBelow(q.jp, 2) == q.jp[1..];
    assert DropBelow(q.cn, 2) == q.cn;
    assert DropBelow(q.sound, 2) == q.sound[1..];
  }
}
