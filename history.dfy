/** The shell's command history: a global array of 100 entries and a
    counter. Adding to a full history first shifts every entry one slot
    to the left, dropping the oldest; the listing walks the entries from
    slot 0, the oldest, to the newest. */
module History {
  import Eviction

  /** Capacity of the history (`MAX_HISTORY`). */
  const MaxHistory: nat := 100

  /** One history record: the command text, the child's process id and
      the clock readings taken around it. */
  datatype Entry = Entry(command: string, pid: int, startTime: int, endTime: int)

  /** One block of the history listing; `duration` is the whole number
      of seconds between the two clock readings. */
  datatype Row = Row(command: string, pid: int, startTime: int, endTime: int, duration: int)

  /** The history after one `add_to_history` of `e`. */
  function Appended(h: seq<Entry>, e: Entry): (r: seq<Entry>)
    requires |h| <= MaxHistory
    ensures |r| <= MaxHistory
  {
    if |h| >= MaxHistory then h[1..] + [e] else h + [e]
  }

  /** At capacity, one add is the shift loop of the eviction (without its
      `free` calls) followed by the store into the last slot. */
  lemma AppendedAtCapacityIsShift(h: seq<Entry>, e: Entry)
    requires |h| == MaxHistory
    ensures Appended(h, e) == Eviction.ShiftOnly(h, 1)[MaxHistory - 1 := e]
  {
    Eviction.ShiftOnlyFrom(h, h, 1);
  }

  /** The history after adding each of `es` in turn. */
  function AppendAll(h: seq<Entry>, es: seq<Entry>): (r: seq<Entry>)
    requires |h| <= MaxHistory
    ensures |r| <= MaxHistory
    decreases |es|
  {
    if es == [] then h else AppendAll(Appended(h, es[0]), es[1..])
  }

  /** Adding two batches in turn is adding their concatenation. */
  lemma {:induction false} AppendAllConcat(h: seq<Entry>, es: seq<Entry>, fs: seq<Entry>)
    requires |h| <= MaxHistory
    ensures AppendAll(h, es + fs) == AppendAll(AppendAll(h, es), fs)
    decreases |es|
  {
    if es != [] {
      assert (es + fs)[0] == es[0] && (es + fs)[1..] == es[1..] + fs;
      AppendAllConcat(Appended(h, es[0]), es[1..], fs);
    } else {
      assert es + fs == fs;
    }
  }

  /** The newest `n` elements of `s`, oldest first. */
  function Newest(s: seq<Entry>, n: nat): (r: seq<Entry>)
  {
    if |s| <= n then s else s[|s| - n..]
  }

  /** The last `n` elements of `p + q` lie in `q` when `q` is long enough. */
  lemma SuffixOfConcat(p: seq<Entry>, q: seq<Entry>, n: nat)
    requires n <= |q|
    ensures (p + q)[|p + q| - n..] == q[|q| - n..]
  {
    var l, r := (p + q)[|p + q| - n..], q[|q| - n..];
    assert |l| == |r| == n;
    forall k | 0 <= k < n
      ensures l[k] == r[k]
    {
      assert l[k] == (p + q)[|p| + |q| - n + k];
    }
  }

  /** Taking the newest `n` twice loses nothing the second take keeps. */
  lemma NewestAbsorb(s: seq<Entry>, t: seq<Entry>, n: nat)
    ensures Newest(Newest(s, n) + t, n) == Newest(s + t, n)
  {
    if |s| > n {
      var p, u := s[..|s| - n], s[|s| - n..];
      var ut := u + t;
      assert s + t == p + ut;
      assert |ut| >= n && Newest(s, n) == u;
      SuffixOfConcat(p, ut, n);
      assert Newest(s + t, n) == ut[|ut| - n..];
      if |ut| == n {
        assert ut[|ut| - n..] == ut;
      }
    } else {
      assert Newest(s, n) == s;
    }
  }

  /** One add keeps the newest 100 of the old history and the new entry:
      below capacity nothing is dropped, at capacity exactly the oldest. */
  lemma AppendedIsNewest(h: seq<Entry>, e: Entry)
    requires |h| <= MaxHistory
    ensures Appended(h, e) == Newest(h + [e], MaxHistory)
  {
    if |h| == MaxHistory {
      assert (h + [e])[1..] == h[1..] + [e];
    }
  }

  /** Any sequence of adds leaves exactly the newest 100 of everything
      added, in insertion order. */
  lemma {:induction false} AppendAllIsNewest(h: seq<Entry>, es: seq<Entry>)
    requires |h| <= MaxHistory
    ensures AppendAll(h, es) == Newest(h + es, MaxHistory)
    decreases |es|
  {
    if es == [] {
      assert h + es == h;
    } else {
      var e, rest := es[0], es[1..];
      assert h + es == (h + [e]) + rest;
      var h' := Appended(h, e);
      assert AppendAll(h, es) == AppendAll(h', rest);
      AppendAllIsNewest(h', rest);
      AppendedIsNewest(h, e);
      NewestAbsorb(h + [e], rest, MaxHistory);
    }
  }

  /** Up to 100 adds to an empty history keep every entry. */
  lemma NothingLostBelowCapacity(es: seq<Entry>)
    requires |es| <= MaxHistory
    ensures AppendAll([], es) == es
  {
    AppendAllIsNewest([], es);
    assert [] + es == es;
  }

  /** After 101 adds to an empty history it holds 100 entries and the
      oldest one kept is the second one added. */
  lemma OldestAfter101Adds(es: seq<Entry>)
    requires |es| == MaxHistory + 1
    ensures |AppendAll([], es)| == MaxHistory
    ensures AppendAll([], es) == es[1..]
    ensures AppendAll([], es)[0] == es[1]
  {
    AppendAllIsNewest([], es);
    assert [] + es == es;
  }

  /** The listing block of one entry. */
  function RowOf(e: Entry): Row
  {
    Row(e.command, e.pid, e.startTime, e.endTime, e.endTime - e.startTime)
  }

  /** The `history` array and `count_history`. */
  class HistoryStore {
    const entries: array<Entry>
    var count: nat

    /** `0 <= count_history <= MAX_HISTORY` over a 100-slot array. */
    ghost predicate Valid()
      reads this
    {
      entries.Length == MaxHistory && count <= MaxHistory
    }

    /** The stored entries, oldest first. */
    ghost function Contents(): (s: seq<Entry>)
      reads this, entries
      requires Valid()
      ensures |s| == count <= MaxHistory
    {
      entries[..count]
    }

    /** The empty history at start-up. */
    constructor ()
      ensures Valid() && fresh(entries)
      ensures Contents() == []
    {
      entries := new Entry[MaxHistory];
      count := 0;
    }

    /** `add_to_history(command, pid, start_time, end_time)`. */
    method Add(command: string, pid: int, startTime: int, endTime: int)
      requires Valid()
      modifies this, entries
      ensures Valid()
      ensures Contents() == Appended(old(Contents()), Entry(command, pid, startTime, endTime))
      ensures old(count) < MaxHistory ==> count == old(count) + 1 && entries[..old(count)] == old(entries[..count])
      ensures old(count) == MaxHistory ==> count == MaxHistory && entries[..MaxHistory - 1] == old(entries[1..count])
      ensures entries[count - 1] == Entry(command, pid, startTime, endTime)
    {
      ghost var before := entries[..];
      if count >= MaxHistory {
        var i := 1;
        while i < count
          invariant 1 <= i <= count == MaxHistory == entries.Length
          invariant forall k :: 0 <= k < i - 1 ==> entries[k] == before[k + 1]
          invariant forall k :: i - 1 <= k < MaxHistory ==> entries[k] == before[k]
        {
          entries[i - 1] := entries[i];
          i := i + 1;
        }
        count := count - 1;
      }
      entries[count] := Entry(command, pid, startTime, endTime);
      count := count + 1;
    }

    /** `display_history`: one block per stored entry, from slot 0 to
        slot `count_history - 1`. */
    method Listing() returns (rows: seq<Row>)
      requires Valid()
      ensures |rows| == |Contents()|
      ensures forall k :: 0 <= k < |rows| ==> rows[k] == RowOf(Contents()[k])
      ensures forall k :: 0 <= k < |rows| ==>
        rows[k].command == Contents()[k].command && rows[k].pid == Contents()[k].pid &&
        rows[k].duration == Contents()[k].endTime - Contents()[k].startTime
    {
      rows := [];
      var i := 0;
      while i < count
        invariant 0 <= i <= count
        invariant |rows| == i
        invariant forall k :: 0 <= k < i ==> rows[k] == RowOf(entries[k])
      {
        var e := entries[i];
        rows := rows + [Row(e.command, e.pid, e.startTime, e.endTime, e.endTime - e.startTime)];
        i := i + 1;
      }
    }
  }
}
