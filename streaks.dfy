/** Win and lose streaks: for every index, the longest run of consecutive
    days whose closing value rose, and the longest run of days on which it fell. */
module Streaks {
  import opened Frame

  /** `diff().fillna(0)` at row i: the change from the day before, taken as 0
      on the first day and next to a missing value. */
  function Delta(cells: seq<Option<real>>, i: nat): real
    requires i < |cells|
  {
    if i == 0 || cells[i].None? || cells[i - 1].None? then 0.0
    else cells[i].value - cells[i - 1].value
  }

  /** `diffs > 0`, row by row. */
  function Rises(cells: seq<Option<real>>): seq<bool>
  {
    seq(|cells|, i requires 0 <= i < |cells| => Delta(cells, i) > 0.0)
  }

  /** `diffs < 0`, row by row. */
  function Falls(cells: seq<Option<real>>): seq<bool>
  {
    seq(|cells|, i requires 0 <= i < |cells| => Delta(cells, i) < 0.0)
  }

  /** Every flag in rows lo .. hi-1 is set. */
  ghost predicate AllSet(flags: seq<bool>, lo: int, hi: int)
    requires 0 <= lo <= hi <= |flags|
  {
    forall k :: lo <= k < hi ==> flags[k]
  }

  /** Flag k exists and is set (no range obligation, for use in proof hints). */
  ghost predicate SetAt(flags: seq<bool>, k: int)
  {
    0 <= k < |flags| && flags[k]
  }

  /** `len` is the length of the longest run of consecutive set flags: some
      run is that long and none is longer. */
  ghost predicate IsLongestRun(flags: seq<bool>, len: nat)
  {
    && (exists lo, hi :: 0 <= lo <= hi <= |flags| && hi - lo == len && AllSet(flags, lo, hi))
    && (forall lo, hi :: 0 <= lo <= hi <= |flags| && AllSet(flags, lo, hi) ==> hi - lo <= len)
  }

  /** The streak loop: `cur` counts the set flags just seen and drops to 0 on
      an unset one; `best` keeps the largest `cur` reached. */
  method LongestRun(flags: seq<bool>) returns (best: nat)
    ensures IsLongestRun(flags, best)
  {
    var cur: nat := 0;
    best := 0;
    assert AllSet(flags, 0, 0);
    for i := 0 to |flags|
      invariant cur <= i && cur <= best
      invariant AllSet(flags, i - cur, i)
      invariant i - cur == 0 || !flags[i - cur - 1]
      invariant exists lo, hi :: 0 <= lo <= hi <= i && hi - lo == best && AllSet(flags, lo, hi)
      invariant forall lo, hi :: 0 <= lo <= hi <= i && AllSet(flags, lo, hi) ==> hi - lo <= best
    {
      cur := if flags[i] then cur + 1 else 0;
      if best < cur {
        best := cur;
        assert AllSet(flags, i + 1 - best, i + 1);
      }
      forall lo, hi | 0 <= lo <= hi <= i + 1 && AllSet(flags, lo, hi)
        ensures hi - lo <= best
      {
        if hi == i + 1 && lo <= i {
          assert flags[i];
          assert lo < i + 1 - cur ==> SetAt(flags, i - cur);
        } else if hi <= i {
          assert AllSet(flags, lo, hi);
        }
      }
    }
  }

  /** Two lengths that are both the longest run of the same flags agree. */
  lemma LongestRunUnique(flags: seq<bool>, a: nat, b: nat)
    requires IsLongestRun(flags, a) && IsLongestRun(flags, b)
    ensures a == b
  {
    var lo, hi :| 0 <= lo <= hi <= |flags| && hi - lo == a && AllSet(flags, lo, hi);
    var lo', hi' :| 0 <= lo' <= hi' <= |flags| && hi' - lo' == b && AllSet(flags, lo', hi');
  }

  /** One row of the streaks table. */
  datatype StreakRow = StreakRow(index: string, longestWin: nat, longestLose: nat)

  /** The streaks of one column: the two loops of the source, one over the
      rises and one over the falls. */
  method ColumnStreaks(cells: seq<Option<real>>) returns (win: nat, lose: nat)
    ensures IsLongestRun(Rises(cells), win)
    ensures IsLongestRun(Falls(cells), lose)
  {
    win := LongestRun(Rises(cells));
    lose := LongestRun(Falls(cells));
  }

  /** The streaks table: one row per column of the price table, in column order. */
  method StreakTable(table: seq<Column<real>>) returns (rows: seq<StreakRow>)
    ensures |rows| == |table|
    ensures forall j :: 0 <= j < |table| ==>
      && rows[j].index == table[j].name
      && IsLongestRun(Rises(table[j].cells), rows[j].longestWin)
      && IsLongestRun(Falls(table[j].cells), rows[j].longestLose)
  {
    rows := [];
    for j := 0 to |table|
      invariant |rows| == j
      invariant forall k :: 0 <= k < j ==>
        && rows[k].index == table[k].name
        && IsLongestRun(Rises(table[k].cells), rows[k].longestWin)
        && IsLongestRun(Falls(table[k].cells), rows[k].longestLose)
    {
      var win, lose := ColumnStreaks(table[j].cells);
      rows := rows + [StreakRow(table[j].name, win, lose)];
    }
  }

  /** No streak covers the first day, whose delta is forced to 0; a rising
      run and a falling run never share a day; so the two longest streaks
      together fit in the n - 1 day-to-day moves of an n-day column, and a
      one-day column has streaks 0 and 0. */
  lemma StreakBounds(cells: seq<Option<real>>, win: nat, lose: nat)
    requires IsLongestRun(Rises(cells), win) && IsLongestRun(Falls(cells), lose)
    ensures |cells| <= 1 ==> win == 0 && lose == 0
    ensures |cells| >= 1 ==> win + lose <= |cells| - 1
  {
    var up, down := Rises(cells), Falls(cells);
    var a, a' :| 0 <= a <= a' <= |up| && a' - a == win && AllSet(up, a, a');
    var b, b' :| 0 <= b <= b' <= |down| && b' - b == lose && AllSet(down, b, b');
    if win > 0 {
      assert up[a];
      assert a >= 1;
    }
    if lose > 0 {
      assert down[b];
      assert b >= 1;
    }
    if win > 0 && lose > 0 {
      // the two runs are disjoint: a shared day would both rise and fall
      if a <= b {
        assert b < a' ==> SetAt(up, b) && SetAt(down, b);
      } else {
        assert a < b' ==> SetAt(up, a) && SetAt(down, a);
      }
    }
  }

  /** A column whose close rises every day has a win streak of n - 1 days
      and no lose streak. */
  lemma RisingEveryDay(cells: seq<Option<real>>)
    requires |cells| >= 1 && NoMissing(cells)
    requires forall i :: 0 < i < |cells| ==> cells[i - 1].value < cells[i].value
    ensures IsLongestRun(Rises(cells), |cells| - 1)
    ensures IsLongestRun(Falls(cells), 0)
  {
    var up, down := Rises(cells), Falls(cells);
    assert AllSet(up, 1, |cells|);
    forall lo, hi | 0 <= lo <= hi <= |cells| && AllSet(up, lo, hi)
      ensures hi - lo <= |cells| - 1
    {
      assert lo == 0 && hi > 0 ==> SetAt(up, 0);
    }
    assert AllSet(down, 0, 0);
    forall lo, hi | 0 <= lo <= hi <= |cells| && AllSet(down, lo, hi)
      ensures hi - lo <= 0
    {
      assert lo < hi ==> SetAt(down, lo);
    }
  }

  /** A day on which the close is unchanged, or missing on either side,
      breaks both streaks. */
  lemma FlatDayBreaksStreaks(cells: seq<Option<real>>, d: nat)
    requires d < |cells|
    requires cells[d].None? || d == 0 || cells[d - 1].None? || cells[d].value == cells[d - 1].value
    ensures !Rises(cells)[d] && !Falls(cells)[d]
  {
  }
}
