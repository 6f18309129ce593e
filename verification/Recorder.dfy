/**
 The change-only recorder: a quoted value is inserted only when it differs from the last one seen.
 Prices form any type with equality; instants are the positions of the feed.
 */
module Recorder {

  datatype Entry<V> = Entry(at: nat, val: V)

  type Log<V> = seq<Entry<V>>

  /** `last` is updated before the insert is attempted, and an insert that throws leaves no row. */
  class Indice<V(==)> {
    var last: V
    var log: Log<V>

    constructor (val: V)
      ensures last == val && log == []
    {
      last, log := val, [];
    }

    /** `inserted` says whether the database accepts the row, should one be sent. */
    method AddVal(d: V, now: nat, inserted: bool)
      modifies this
      ensures last == d
      ensures log == old(log) + (if old(last) != d && inserted then [Entry(now, d)] else [])
    {
      if last != d {
        last := d;
        if inserted {
          log := log + [Entry(now, d)];
        }
      }
    }

    /** A whole feed, from a fresh recorder. */
    method Record(feed: seq<V>, inserted: seq<bool>)
      requires log == [] && |inserted| == |feed|
      modifies this
      ensures log == Recorded(old(last), feed, inserted)
    {
      ghost var init := last;
      for i := 0 to |feed|
        invariant last == Previous(init, feed, i)
        invariant log == Recorded(init, feed[..i], inserted[..i])
      {
        AddVal(feed[i], i, inserted[i]);
        assert feed[..i + 1][..i] == feed[..i] && inserted[..i + 1][..i] == inserted[..i];
        PreviousOfPrefix(init, feed, i + 1, i);
      }
      assert feed[..|feed|] == feed && inserted[..|feed|] == inserted;
    }
  }

  /** The value on show just before instant `i`. */
  function Previous<V>(init: V, feed: seq<V>, i: nat): V
    requires i <= |feed|
  {
    if i == 0 then init else feed[i - 1]
  }

  lemma PreviousOfPrefix<V>(init: V, feed: seq<V>, n: nat, i: nat)
    requires i <= n <= |feed|
    ensures Previous(init, feed[..n], i) == Previous(init, feed, i)
  {
  }

  predicate Changes<V(==)>(init: V, feed: seq<V>, i: nat)
    requires i < |feed|
  {
    feed[i] != Previous(init, feed, i)
  }

  /** The rows that a feed leaves in the table. */
  function Recorded<V(==)>(init: V, feed: seq<V>, inserted: seq<bool>): Log<V>
    requires |inserted| == |feed|
    decreases |feed|
  {
    if feed == [] then []
    else
      var n := |feed| - 1;
      Recorded(init, feed[..n], inserted[..n])
      + (if Changes(init, feed, n) && inserted[n] then [Entry(n, feed[n])] else [])
  }

  /** The log read as a step function: the value of the last entry at or before instant `t`. */
  function Replay<V>(init: V, log: Log<V>, t: nat): V {
    if log == [] then init
    else if log[|log| - 1].at <= t then log[|log| - 1].val
    else Replay(init, log[..|log| - 1], t)
  }

  ghost predicate Faithful<V>(init: V, log: Log<V>, feed: seq<V>) {
    forall t: nat | t < |feed| :: Replay(init, log, t) == feed[t]
  }

  /** Every insert that was attempted went through. */
  predicate NothingRefused<V(==)>(init: V, feed: seq<V>, inserted: seq<bool>)
    requires |inserted| == |feed|
  {
    forall i | 0 <= i < |feed| && Changes(init, feed, i) :: inserted[i]
  }

  predicate Ordered<V>(log: Log<V>) {
    forall i, j | 0 <= i < j < |log| :: log[i].at < log[j].at
  }

  // ---------------------------------------------------------------- the log is exact

  lemma {:induction false} RecordedShape<V>(init: V, feed: seq<V>, inserted: seq<bool>)
    requires |inserted| == |feed|
    ensures var log := Recorded(init, feed, inserted);
            Ordered(log) && forall e | e in log :: e.at < |feed| && e.val == feed[e.at]
    decreases |feed|
  {
    if feed != [] {
      var n := |feed| - 1;
      var before := Recorded(init, feed[..n], inserted[..n]);
      RecordedShape(init, feed[..n], inserted[..n]);
      assert forall e | e in before :: e.at < n && e.val == feed[e.at];
      if Changes(init, feed, n) && inserted[n] {
        OrderedOneMore(before, Entry(n, feed[n]));
      }
    }
  }

  lemma OrderedOneMore<V>(log: Log<V>, e: Entry<V>)
    requires Ordered(log) && forall q | q in log :: q.at < e.at
    ensures Ordered(log + [e])
  {
    forall i, j | 0 <= i < j < |log| + 1 ensures (log + [e])[i].at < (log + [e])[j].at {
      assert log[i] in log;
    }
  }

  lemma ReplayIgnoresLater<V>(init: V, log: Log<V>, e: Entry<V>, t: nat)
    requires t < e.at
    ensures Replay(init, log + [e], t) == Replay(init, log, t)
  {
  }

  lemma {:induction false} ReplayAtEnd<V>(init: V, log: Log<V>, t: nat)
    requires forall e | e in log :: e.at <= t
    ensures Replay(init, log, t) == if log == [] then init else log[|log| - 1].val
  {
  }

  /** Replay of the whole log, restricted to a shorter feed, is replay of the shorter log. */
  lemma {:induction false} ReplayOfPrefix<V>(init: V, feed: seq<V>, inserted: seq<bool>, n: nat, t: nat)
    requires |inserted| == |feed| && t < n <= |feed|
    ensures Replay(init, Recorded(init, feed, inserted), t) == Replay(init, Recorded(init, feed[..n], inserted[..n]), t)
    decreases |feed|
  {
    if n == |feed| {
      assert feed[..n] == feed && inserted[..n] == inserted;
    } else {
      var m := |feed| - 1;
      ReplayOfPrefix(init, feed[..m], inserted[..m], n, t);
      assert feed[..m][..n] == feed[..n] && inserted[..m][..n] == inserted[..n];
      if Changes(init, feed, m) && inserted[m] {
        ReplayIgnoresLater(init, Recorded(init, feed[..m], inserted[..m]), Entry(m, feed[m]), t);
      } else {
        assert Recorded(init, feed, inserted) == Recorded(init, feed[..m], inserted[..m]);
      }
    }
  }

  /** One more instant: replay is right there if it was right so far and the change got through. */
  lemma LastInstant<V>(init: V, feed: seq<V>, inserted: seq<bool>)
    requires |inserted| == |feed| && feed != []
    requires var n := |feed| - 1; Faithful(init, Recorded(init, feed[..n], inserted[..n]), feed[..n])
    ensures var n := |feed| - 1;
            Replay(init, Recorded(init, feed, inserted), n) == feed[n]
            <==> !Changes(init, feed, n) || inserted[n]
  {
    var n := |feed| - 1;
    var before := Recorded(init, feed[..n], inserted[..n]);
    RecordedShape(init, feed[..n], inserted[..n]);
    RecordedShape(init, feed, inserted);
    ReplayAtEnd(init, before, n);
    ReplayAtEnd(init, Recorded(init, feed, inserted), n);
    if n > 0 {
      ReplayAtEnd(init, before, n - 1);
      assert Replay(init, before, n - 1) == feed[..n][n - 1];
    }
  }

  /** The log reproduces the feed at every instant if and only if no attempted insert was refused:
      since `last` moves on regardless, a refused change is never recorded later. */
  lemma {:induction false} ReplayIffNothingRefused<V>(init: V, feed: seq<V>, inserted: seq<bool>)
    requires |inserted| == |feed|
    ensures Faithful(init, Recorded(init, feed, inserted), feed) <==> NothingRefused(init, feed, inserted)
    decreases |feed|
  {
    if feed != [] {
      var n := |feed| - 1;
      var front, ins := feed[..n], inserted[..n];
      ReplayIffNothingRefused(init, front, ins);
      forall t: nat | t < n
        ensures Replay(init, Recorded(init, feed, inserted), t) == Replay(init, Recorded(init, front, ins), t)
      {
        ReplayOfPrefix(init, feed, inserted, n, t);
      }
      forall i | 0 <= i < n ensures Changes(init, front, i) <==> Changes(init, feed, i) {
        PreviousOfPrefix(init, feed, n, i);
      }
      if Faithful(init, Recorded(init, front, ins), front) {
        LastInstant(init, feed, inserted);
      }
      FaithfulSplit(init, feed, inserted, n);
      RefusedSplit(init, feed, inserted, n);
    }
  }

  /** Two changes, the first of which is refused: the log never shows it. */
  lemma RefusedChangeIsLost()
    ensures Recorded(0, [1, 2], [false, true]) == [Entry(1, 2)]
    ensures Replay(0, [Entry(1, 2)], 0) == 0 && !Faithful(0, [Entry(1, 2)], [1, 2])
  {
    var feed, inserted := [1, 2], [false, true];
    assert feed[..1] == [1] && inserted[..1] == [false];
    assert Recorded(0, [1], [false]) == [];
    assert Replay(0, [Entry(1, 2)], 0) != feed[0];
  }

  lemma FaithfulSplit<V>(init: V, feed: seq<V>, inserted: seq<bool>, n: nat)
    requires |inserted| == |feed| == n + 1
    requires forall t: nat | t < n ::
      Replay(init, Recorded(init, feed, inserted), t) == Replay(init, Recorded(init, feed[..n], inserted[..n]), t)
    ensures Faithful(init, Recorded(init, feed, inserted), feed) <==>
            && Faithful(init, Recorded(init, feed[..n], inserted[..n]), feed[..n])
            && Replay(init, Recorded(init, feed, inserted), n) == feed[n]
  {
    var whole, part := Recorded(init, feed, inserted), Recorded(init, feed[..n], inserted[..n]);
    if Faithful(init, whole, feed) {
      forall t: nat | t < n ensures Replay(init, part, t) == feed[..n][t] {
        assert Replay(init, whole, t) == feed[t];
      }
    }
    if Faithful(init, part, feed[..n]) && Replay(init, whole, n) == feed[n] {
      forall t: nat | t < n + 1 ensures Replay(init, whole, t) == feed[t] {
        if t < n {
          assert Replay(init, part, t) == feed[..n][t];
        }
      }
    }
  }

  lemma RefusedSplit<V>(init: V, feed: seq<V>, inserted: seq<bool>, n: nat)
    requires |inserted| == |feed| == n + 1
    requires forall i | 0 <= i < n :: Changes(init, feed[..n], i) <==> Changes(init, feed, i)
    ensures NothingRefused(init, feed, inserted) <==>
            NothingRefused(init, feed[..n], inserted[..n]) && (Changes(init, feed, n) ==> inserted[n])
  {
  }

  // ---------------------------------------------------------------- the log is minimal

  /** With every insert accepted, neighbouring entries differ, and the first differs from the start value. */
  lemma {:induction false} NeighboursDiffer<V>(init: V, feed: seq<V>, inserted: seq<bool>)
    requires |inserted| == |feed| && NothingRefused(init, feed, inserted)
    ensures var log := Recorded(init, feed, inserted);
            && (log != [] ==> log[0].val != init)
            && (forall i | 0 <= i < |log| - 1 :: log[i].val != log[i + 1].val)
            && (feed != [] ==> feed[|feed| - 1] == if log == [] then init else log[|log| - 1].val)
    decreases |feed|
  {
    if feed != [] {
      var n := |feed| - 1;
      forall i | 0 <= i < n ensures Changes(init, feed[..n], i) <==> Changes(init, feed, i) {
        PreviousOfPrefix(init, feed, n, i);
      }
      RefusedSplit(init, feed, inserted, n);
      NeighboursDiffer(init, feed[..n], inserted[..n]);
    }
  }

  ghost predicate HasEntryAt<V>(log: Log<V>, t: nat) {
    exists i :: 0 <= i < |log| && log[i].at == t
  }

  /** A log that shows a feed must have an entry at every instant at which the feed changes. */
  lemma {:induction false} ChangeNeedsEntry<V>(init: V, log: Log<V>, t: nat)
    requires t > 0 ==> Replay(init, log, t) != Replay(init, log, t - 1)
    requires t == 0 ==> Replay(init, log, 0) != init
    ensures HasEntryAt(log, t)
    decreases |log|
  {
    var n := |log| - 1;
    if log != [] && log[n].at != t {
      ChangeNeedsEntry(init, log[..n], t);
      var i :| 0 <= i < n && log[..n][i].at == t;
      assert log[i].at == t;
    }
  }

  /** No log, in whatever order or with whatever spare entries, that reproduces the feed is shorter. */
  lemma ShortestLog<V>(init: V, feed: seq<V>, inserted: seq<bool>, other: Log<V>)
    requires |inserted| == |feed| && NothingRefused(init, feed, inserted)
    requires Faithful(init, other, feed)
    ensures |Recorded(init, feed, inserted)| <= |other|
  {
    var log := Recorded(init, feed, inserted);
    RecordedAtChanges(init, feed, inserted);
    RecordedShape(init, feed, inserted);
    forall i | 0 <= i < |log| ensures HasEntryAt(other, log[i].at) {
      var t := log[i].at;
      assert Changes(init, feed, t);
      assert Replay(init, other, t) == feed[t];
      if t > 0 {
        assert Replay(init, other, t - 1) == feed[t - 1];
      }
      ChangeNeedsEntry(init, other, t);
    }
    Pigeonhole(log, other);
  }

  lemma {:induction false} RecordedAtChanges<V>(init: V, feed: seq<V>, inserted: seq<bool>)
    requires |inserted| == |feed|
    ensures forall e | e in Recorded(init, feed, inserted) :: e.at < |feed| && Changes(init, feed, e.at)
    decreases |feed|
  {
    if feed != [] {
      var n := |feed| - 1;
      RecordedAtChanges(init, feed[..n], inserted[..n]);
      forall e | e in Recorded(init, feed[..n], inserted[..n]) ensures Changes(init, feed, e.at) {
        PreviousOfPrefix(init, feed, n, e.at);
      }
    }
  }

  /** Distinct instants need distinct entries. */
  lemma {:induction false} Pigeonhole<V>(log: Log<V>, other: Log<V>)
    requires Ordered(log)
    requires forall i | 0 <= i < |log| :: HasEntryAt(other, log[i].at)
    ensures |log| <= |other|
    decreases |log|
  {
    if log != [] {
      var n := |log| - 1;
      assert HasEntryAt(other, log[n].at);
      var k :| 0 <= k < |other| && other[k].at == log[n].at;
      var rest := other[..k] + other[k + 1..];
      forall i | 0 <= i < n ensures HasEntryAt(rest, log[..n][i].at) {
        assert HasEntryAt(other, log[i].at);
        var j :| 0 <= j < |other| && other[j].at == log[i].at;
        var j' := if j < k then j else j - 1;
        assert rest[j'] == other[j];
      }
      Pigeonhole(log[..n], rest);
    }
  }
}
