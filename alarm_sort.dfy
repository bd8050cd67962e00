/**
 * The sort in `write_alarms`: every station list is sorted in place by
 * `alarm_offset` with Python's stable `list.sort`.
 *
 * The model sorts by insertion. `SortByOffset` is its specification: it is
 * sorted, a permutation of its input and stable, and `StableSortUnique`
 * shows that these three properties leave no choice, so the result is the
 * one any stable sort, Python's included, returns.
 */
module AlarmSort {
  import opened AlarmsExtractor

  /** `x` inserted into `s` after every trailing element whose offset is not larger. */
  function Insert(s: seq<Alarm>, x: Alarm): seq<Alarm>
    decreases |s|
  {
    if s == [] then [x]
    else if s[|s| - 1].alarmOffset <= x.alarmOffset then s + [x]
    else Insert(s[..|s| - 1], x) + [s[|s| - 1]]
  }

  /** The alarms ordered by `alarm_offset`, ties in their original order. */
  function SortByOffset(s: seq<Alarm>): seq<Alarm>
    decreases |s|
  {
    if s == [] then [] else Insert(SortByOffset(s[..|s| - 1]), s[|s| - 1])
  }

  predicate SortedByOffset(s: seq<Alarm>) {
    forall i, j | 0 <= i < j < |s| :: s[i].alarmOffset <= s[j].alarmOffset
  }

  /** The alarms of `s` whose offset is `k`, in the order of `s`. */
  function WithOffset(s: seq<Alarm>, k: int): seq<Alarm>
    decreases |s|
  {
    if s == [] then []
    else WithOffset(s[..|s| - 1], k) + (if s[|s| - 1].alarmOffset == k then [s[|s| - 1]] else [])
  }

  // ---------------------------------------------------------------------
  // Insertion.

  lemma {:induction false} InsertPermutes(s: seq<Alarm>, x: Alarm)
    ensures multiset(Insert(s, x)) == multiset(s) + multiset{x}
    decreases |s|
  {
    if s != [] && s[|s| - 1].alarmOffset > x.alarmOffset {
      var init := s[..|s| - 1];
      InsertPermutes(init, x);
      assert s == init + [s[|s| - 1]];
    }
  }

  lemma {:induction false} InsertSorted(s: seq<Alarm>, x: Alarm)
    requires SortedByOffset(s)
    ensures SortedByOffset(Insert(s, x))
    decreases |s|
  {
    if s != [] && s[|s| - 1].alarmOffset > x.alarmOffset {
      var init := s[..|s| - 1];
      var last := s[|s| - 1];
      InsertSorted(init, x);
      InsertPermutes(init, x);
      var t := Insert(init, x);
      forall i | 0 <= i < |t|
        ensures t[i].alarmOffset <= last.alarmOffset
      {
        assert t[i] in multiset(t);
        assert t[i] in multiset(init) || t[i] == x;
        if t[i] != x {
          var k :| 0 <= k < |init| && init[k] == t[i];
          assert s[k] == init[k];
        }
      }
      assert Insert(s, x) == t + [last];
    }
  }

  lemma {:induction false} WithOffsetAppend(a: seq<Alarm>, b: seq<Alarm>, k: int)
    ensures WithOffset(a + b, k) == WithOffset(a, k) + WithOffset(b, k)
    decreases |b|
  {
    if b == [] {
      assert a + b == a;
    } else {
      WithOffsetAppend(a, b[..|b| - 1], k);
      assert (a + b)[..|a + b| - 1] == a + b[..|b| - 1];
    }
  }

  /** Insertion keeps ties in order: among alarms of one offset, `x` comes last. */
  lemma {:induction false} InsertStable(s: seq<Alarm>, x: Alarm, k: int)
    ensures WithOffset(Insert(s, x), k) == WithOffset(s, k) + (if x.alarmOffset == k then [x] else [])
    decreases |s|
  {
    if s == [] {
    } else if s[|s| - 1].alarmOffset <= x.alarmOffset {
      WithOffsetAppend(s, [x], k);
    } else {
      var init := s[..|s| - 1];
      var last := s[|s| - 1];
      InsertStable(init, x, k);
      WithOffsetAppend(Insert(init, x), [last], k);
    }
  }

  // ---------------------------------------------------------------------
  // The sort: sorted, a permutation, stable, and the only such result.

  lemma {:induction false} SortByOffsetSorted(s: seq<Alarm>)
    ensures SortedByOffset(SortByOffset(s))
    decreases |s|
  {
    if s != [] {
      SortByOffsetSorted(s[..|s| - 1]);
      InsertSorted(SortByOffset(s[..|s| - 1]), s[|s| - 1]);
    }
  }

  lemma {:induction false} SortByOffsetPermutes(s: seq<Alarm>)
    ensures multiset(SortByOffset(s)) == multiset(s)
    decreases |s|
  {
    if s != [] {
      var init := s[..|s| - 1];
      SortByOffsetPermutes(init);
      InsertPermutes(SortByOffset(init), s[|s| - 1]);
      assert s == init + [s[|s| - 1]];
    }
  }

  /** Ties keep traversal order: the alarms of each offset appear as in the input. */
  lemma {:induction false} SortByOffsetStable(s: seq<Alarm>, k: int)
    ensures WithOffset(SortByOffset(s), k) == WithOffset(s, k)
    decreases |s|
  {
    if s != [] {
      var init := s[..|s| - 1];
      SortByOffsetStable(init, k);
      InsertStable(SortByOffset(init), s[|s| - 1], k);
    }
  }

  lemma {:induction false} WithOffsetMembers(s: seq<Alarm>, k: int, x: Alarm)
    ensures x in WithOffset(s, k) <==> x in s && x.alarmOffset == k
    decreases |s|
  {
    if s != [] {
      var init := s[..|s| - 1];
      WithOffsetMembers(init, k, x);
      assert s == init + [s[|s| - 1]];
    }
  }

  /** The last alarm of a non-empty sequence is the last one of its offset. */
  lemma WithOffsetOfLast(s: seq<Alarm>)
    ensures s != [] ==> var last := s[|s| - 1];
      WithOffset(s, last.alarmOffset) == WithOffset(s[..|s| - 1], last.alarmOffset) + [last]
  {
  }

  lemma SortedLastIsMax(t: seq<Alarm>, x: Alarm)
    requires SortedByOffset(t) && x in t
    ensures x.alarmOffset <= t[|t| - 1].alarmOffset
  {
    var i :| 0 <= i < |t| && t[i] == x;
  }

  /** Two sorted sequences with the same alarms of every offset end on the same offset. */
  lemma SameLastOffset(t: seq<Alarm>, u: seq<Alarm>)
    requires SortedByOffset(t) && SortedByOffset(u) && t != [] && u != []
    requires forall k :: WithOffset(t, k) == WithOffset(u, k)
    ensures t[|t| - 1].alarmOffset == u[|u| - 1].alarmOffset
  {
    var lt, lu := t[|t| - 1], u[|u| - 1];
    WithOffsetOfLast(t);
    WithOffsetOfLast(u);
    WithOffsetMembers(t, lu.alarmOffset, lu);
    WithOffsetMembers(t, lt.alarmOffset, lt);
    WithOffsetMembers(u, lt.alarmOffset, lt);
    SortedLastIsMax(t, lu);
    SortedLastIsMax(u, lt);
  }

  /** ... and the same last alarm, and without it they still hold the same alarms of every offset. */
  lemma DropLast(t: seq<Alarm>, u: seq<Alarm>, ti: seq<Alarm>, ui: seq<Alarm>)
    requires t != [] && u != [] && t[|t| - 1].alarmOffset == u[|u| - 1].alarmOffset
    requires ti == t[..|t| - 1] && ui == u[..|u| - 1]
    requires forall k :: WithOffset(t, k) == WithOffset(u, k)
    ensures t[|t| - 1] == u[|u| - 1]
    ensures forall k :: WithOffset(ti, k) == WithOffset(ui, k)
  {
    var lt, lu := t[|t| - 1], u[|u| - 1];
    var m := lt.alarmOffset;
    WithOffsetOfLast(t);
    WithOffsetOfLast(u);
    var ft, fu := WithOffset(ti, m), WithOffset(ui, m);
    assert ft + [lt] == fu + [lu];
    assert |ft| == |fu|;
    assert lt == (ft + [lt])[|ft|] == (fu + [lu])[|fu|] == lu;
    assert ft == (ft + [lt])[..|ft|] == (fu + [lu])[..|fu|] == fu;
    forall k
      ensures WithOffset(ti, k) == WithOffset(ui, k)
    {
      if k != m {
        assert WithOffset(t, k) == WithOffset(ti, k);
        assert WithOffset(u, k) == WithOffset(ui, k);
      }
    }
  }

  lemma SortedInit(t: seq<Alarm>)
    requires SortedByOffset(t) && t != []
    ensures SortedByOffset(t[..|t| - 1])
  {
    var ti := t[..|t| - 1];
    forall i, j | 0 <= i < j < |ti|
      ensures ti[i].alarmOffset <= ti[j].alarmOffset
    {
      assert ti[i] == t[i] && ti[j] == t[j];
    }
  }

  /**
   * Two sequences sorted by offset that hold the same alarms of every
   * offset, in the same order, are equal.
   */
  lemma {:induction false} SortedUnique(t: seq<Alarm>, u: seq<Alarm>)
    requires SortedByOffset(t) && SortedByOffset(u)
    requires forall k :: WithOffset(t, k) == WithOffset(u, k)
    ensures t == u
    decreases |t|
  {
    WithOffsetOfLast(t);
    WithOffsetOfLast(u);
    if t != [] && u != [] {
      SameLastOffset(t, u);
      var ti, ui := t[..|t| - 1], u[..|u| - 1];
      DropLast(t, u, ti, ui);
      SortedInit(t);
      SortedInit(u);
      SortedUnique(ti, ui);
      assert t == t[..|t| - 1] + [t[|t| - 1]];
      assert u == u[..|u| - 1] + [u[|u| - 1]];
    }
  }

  /**
   * Any stable sort by offset gives `SortByOffset`: a sorted sequence that
   * keeps the alarms of every offset in their input order is it.
   */
  lemma StableSortUnique(s: seq<Alarm>, t: seq<Alarm>)
    requires SortedByOffset(t)
    requires forall k :: WithOffset(t, k) == WithOffset(s, k)
    ensures t == SortByOffset(s)
  {
    SortByOffsetSorted(s);
    forall k
      ensures WithOffset(t, k) == WithOffset(SortByOffset(s), k)
    {
      SortByOffsetStable(s, k);
    }
    SortedUnique(t, SortByOffset(s));
  }

  // ---------------------------------------------------------------------
  // The sort in place.

  /**
   * Where `Insert` puts `x`: after the last element that is not larger,
   * before the run of larger elements that ends the sequence.
   */
  lemma {:induction false} InsertPosition(s: seq<Alarm>, x: Alarm, j: nat)
    requires j <= |s| && (j == 0 || s[j - 1].alarmOffset <= x.alarmOffset)
    requires forall k | j <= k < |s| :: s[k].alarmOffset > x.alarmOffset
    ensures Insert(s, x) == s[..j] + [x] + s[j..]
    decreases |s|
  {
    if j < |s| {
      var init := s[..|s| - 1];
      InsertPosition(init, x, j);
      assert init[..j] == s[..j];
      assert s[j..] == init[j..] + [s[|s| - 1]];
    } else {
      assert s[..j] == s;
    }
  }

  lemma SortByOffsetSnoc(s: seq<Alarm>, i: nat)
    requires i < |s|
    ensures SortByOffset(s[..i + 1]) == Insert(SortByOffset(s[..i]), s[i])
  {
    assert s[..i + 1][..i] == s[..i];
  }

  /** The sort of one station list, in place. */
  method SortAlarms(a: array<Alarm>)
    modifies a
    ensures a[..] == SortByOffset(old(a[..]))
  {
    ghost var input := a[..];
    var i := 0;
    while i < a.Length
      invariant 0 <= i <= a.Length
      invariant a[..i] == SortByOffset(input[..i])
      invariant a[i..] == input[i..]
    {
      assert a[i..][0] == input[i..][0];
      InsertAt(a, i);
      SortByOffsetSnoc(input, i);
      assert a[i + 1..] == input[i + 1..] by {
        assert input[i + 1..] == input[i..][1..];
      }
      i := i + 1;
    }
    assert a[..] == a[..a.Length];
    assert input[..a.Length] == input;
  }

  /** One step of the insertion sort: `a[i]` moves left past every larger element of `a[..i]`. */
  method InsertAt(a: array<Alarm>, i: nat)
    requires i < a.Length
    modifies a
    ensures a[..i + 1] == Insert(old(a[..i]), old(a[i]))
    ensures a[i + 1..] == old(a[i + 1..])
  {
    ghost var sorted := a[..i];
    ghost var rest := a[i + 1..];
    var x := a[i];
    var j := i;
    while j > 0 && a[j - 1].alarmOffset > x.alarmOffset
      invariant 0 <= j <= i
      invariant forall k | 0 <= k < j :: a[k] == sorted[k]
      invariant forall k | j < k <= i :: a[k] == sorted[k - 1]
      invariant forall k | j <= k < i :: sorted[k].alarmOffset > x.alarmOffset
      invariant a[i + 1..] == rest
    {
      a[j] := a[j - 1];
      j := j - 1;
    }
    InsertPosition(sorted, x, j);
    a[j] := x;
    ghost var next := sorted[..j] + [x] + sorted[j..];
    assert forall k | 0 <= k <= i :: a[k] == next[k];
    assert a[..i + 1] == next;
  }

  /**
   * The loop of `write_alarms` over the stations: each station list is
   * sorted, and nothing else changes. `stations` is the key order of the
   * dictionary, so it lists each key once.
   */
  method SortStationLists(stations: seq<string>, alarmList: map<string, seq<Alarm>>) returns (sorted: map<string, seq<Alarm>>)
    requires forall st :: st in stations <==> st in alarmList
    requires forall i, j | 0 <= i < j < |stations| :: stations[i] != stations[j]
    ensures sorted.Keys == alarmList.Keys
    ensures forall st | st in alarmList :: sorted[st] == SortByOffset(alarmList[st])
  {
    sorted := alarmList;
    var i := 0;
    while i < |stations|
      invariant 0 <= i <= |stations|
      invariant sorted.Keys == alarmList.Keys
      invariant forall st | st in alarmList && st in stations[..i] :: sorted[st] == SortByOffset(alarmList[st])
      invariant forall st | st in alarmList && st !in stations[..i] :: sorted[st] == alarmList[st]
    {
      var station := stations[i];
      assert station !in stations[..i] by {
        forall k | 0 <= k < i
          ensures stations[..i][k] != station
        {
          assert stations[..i][k] == stations[k];
        }
      }
      var list := sorted[station];
      var a := new Alarm[|list|](k requires 0 <= k < |list| => list[k]);
      assert a[..] == list;
      SortAlarms(a);
      sorted := sorted[station := a[..]];
      assert stations[..i + 1] == stations[..i] + [station];
      i := i + 1;
    }
    assert stations[..i] == stations;
  }
}
