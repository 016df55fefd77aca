/** The daily movers digest: for every date of the day-over-day table,
    newest first, the three biggest gainers and the three biggest losers
    among the indices that have a value on that date. */
module Movers {
  import opened Frame
  import opened Ranking

  /** One digest row. The names are kept as a list; joining them with ", "
      is text formatting and is not part of this model. */
  datatype MoverRow = MoverRow(date: int, gainers: seq<string>, losers: seq<string>)

  /** `df_pct_dod.loc[dt].dropna()`: the non-missing values of row i, labelled
      with their column's name, in column order. */
  function Present(table: seq<Column<real>>, i: nat): (r: seq<Entry>)
    requires forall j :: 0 <= j < |table| ==> i < |table[j].cells|
    ensures |r| <= |table|
  {
    if table == [] then []
    else
      (if table[0].cells[i].Some? then [Entry(table[0].name, table[0].cells[i].value)] else [])
      + Present(table[1..], i)
  }

  /** The row's present values are exactly the non-missing cells of row i. */
  lemma {:induction false} PresentSpec(table: seq<Column<real>>, i: nat)
    requires forall j :: 0 <= j < |table| ==> i < |table[j].cells|
    ensures forall e :: e in Present(table, i) ==>
      exists j :: 0 <= j < |table| && table[j].name == e.name && table[j].cells[i] == Some(e.value)
    ensures forall j :: 0 <= j < |table| && table[j].cells[i].Some? ==>
      Entry(table[j].name, table[j].cells[i].value) in Present(table, i)
  {
    if table != [] {
      PresentSpec(table[1..], i);
      var head := if table[0].cells[i].Some? then [Entry(table[0].name, table[0].cells[i].value)] else [];
      assert Present(table, i) == head + Present(table[1..], i);
      forall e | e in Present(table, i)
        ensures exists j :: 0 <= j < |table| && table[j].name == e.name && table[j].cells[i] == Some(e.value)
      {
        if e !in head {
          var j :| 0 <= j < |table[1..]| && table[1..][j].name == e.name && table[1..][j].cells[i] == Some(e.value);
          assert table[j + 1] == table[1..][j];
        }
      }
      forall j | 0 <= j < |table| && table[j].cells[i].Some?
        ensures Entry(table[j].name, table[j].cells[i].value) in Present(table, i)
      {
        if j > 0 {
          assert table[1..][j - 1] == table[j];
        }
      }
    }
  }

  /** `cols` lists, in increasing order, exactly the columns that have a value
      on row i. */
  ghost predicate NonMissingColumns(table: seq<Column<real>>, i: nat, cols: seq<nat>)
  {
    && (forall m, m' :: 0 <= m < m' < |cols| ==> cols[m] < cols[m'])
    && (forall m :: 0 <= m < |cols| ==>
          cols[m] < |table| && i < |table[cols[m]].cells| && table[cols[m]].cells[i].Some?)
    && (forall j :: 0 <= j < |table| && i < |table[j].cells| && table[j].cells[i].Some? ==> j in cols)
  }

  /** Row i's present values are one entry per non-missing column, in column
      order: the m-th entry is the m-th non-missing column's name and value. */
  lemma {:induction false} PresentColumns(table: seq<Column<real>>, i: nat) returns (cols: seq<nat>)
    requires forall j :: 0 <= j < |table| ==> i < |table[j].cells|
    ensures NonMissingColumns(table, i, cols) && |cols| == |Present(table, i)|
    ensures forall m :: 0 <= m < |cols| ==>
      Present(table, i)[m] == Entry(table[cols[m]].name, table[cols[m]].cells[i].value)
  {
    if table == [] {
      cols := [];
    } else {
      var cols' := PresentColumns(table[1..], i);
      cols := Lift(cols', table[0].cells[i].Some?);
      LiftColumns(table, i, cols');
      LiftEntries(table, i, cols');
    }
  }

  function Offset(head: bool): nat
  {
    if head then 1 else 0
  }

  /** The columns of the rest of a table, renumbered for the whole table,
      after column 0 when `head` holds. */
  function Lift(cols: seq<nat>, head: bool): (r: seq<nat>)
    ensures |r| == |cols| + Offset(head)
  {
    var d := Offset(head);
    seq(|cols| + d, m requires 0 <= m < |cols| + d => if m < d then 0 else cols[m - d] + 1)
  }

  lemma LiftColumns(table: seq<Column<real>>, i: nat, cols: seq<nat>)
    requires |table| > 0 && forall j :: 0 <= j < |table| ==> i < |table[j].cells|
    requires NonMissingColumns(table[1..], i, cols)
    ensures NonMissingColumns(table, i, Lift(cols, table[0].cells[i].Some?))
  {
    var h := table[0].cells[i].Some?;
    LiftIncreasing(cols, h);
    LiftCovers(table, i, cols);
  }

  /** Renumbering keeps the columns increasing. */
  lemma LiftIncreasing(cols: seq<nat>, head: bool)
    requires forall m, m' :: 0 <= m < m' < |cols| ==> cols[m] < cols[m']
    ensures forall m, m' :: 0 <= m < m' < |Lift(cols, head)| ==> Lift(cols, head)[m] < Lift(cols, head)[m']
  {
    var d, r := Offset(head), Lift(cols, head);
    forall m, m' | 0 <= m < m' < |r|
      ensures r[m] < r[m']
    {
      assert r[m'] == cols[m' - d] + 1;
      if m >= d {
        assert r[m] == cols[m - d] + 1;
      }
    }
  }

  /** Renumbering picks the same columns of the whole table, and column 0
      when it has a value. */
  lemma LiftCovers(table: seq<Column<real>>, i: nat, cols: seq<nat>)
    requires |table| > 0 && forall j :: 0 <= j < |table| ==> i < |table[j].cells|
    requires NonMissingColumns(table[1..], i, cols)
    ensures forall m :: 0 <= m < |Lift(cols, table[0].cells[i].Some?)| ==>
      var c := Lift(cols, table[0].cells[i].Some?)[m];
      c < |table| && table[c].cells[i].Some?
    ensures forall j :: 0 <= j < |table| && table[j].cells[i].Some? ==> j in Lift(cols, table[0].cells[i].Some?)
  {
    var h := table[0].cells[i].Some?;
    var d, r, rest := Offset(h), Lift(cols, h), table[1..];
    forall m | 0 <= m < |r|
      ensures r[m] < |table| && table[r[m]].cells[i].Some?
    {
      if m >= d {
        var c := cols[m - d];
        assert r[m] == c + 1;
        assert table[c + 1] == rest[c];
      }
    }
    forall j | 0 <= j < |table| && table[j].cells[i].Some?
      ensures j in r
    {
      if j > 0 {
        assert rest[j - 1] == table[j];
        assert j - 1 in cols;
        var a :| 0 <= a < |cols| && cols[a] == j - 1;
        assert r[a + d] == j;
      } else {
        assert r[0] == 0;
      }
    }
  }

  /** Renumbered, the rest's entries follow column 0's entry, if any. */
  lemma LiftEntries(table: seq<Column<real>>, i: nat, cols: seq<nat>)
    requires |table| > 0 && forall j :: 0 <= j < |table| ==> i < |table[j].cells|
    requires |cols| == |Present(table[1..], i)|
    requires forall m :: 0 <= m < |cols| ==>
      && cols[m] < |table| - 1 && table[1..][cols[m]].cells[i].Some?
      && Present(table[1..], i)[m] == Entry(table[1..][cols[m]].name, table[1..][cols[m]].cells[i].value)
    ensures |Lift(cols, table[0].cells[i].Some?)| == |Present(table, i)|
    ensures forall m :: 0 <= m < |Lift(cols, table[0].cells[i].Some?)| ==>
      var c := Lift(cols, table[0].cells[i].Some?)[m];
      c < |table| && table[c].cells[i].Some? && Present(table, i)[m] == Entry(table[c].name, table[c].cells[i].value)
  {
    var h := table[0].cells[i].Some?;
    var d, r, rest := Offset(h), Lift(cols, h), table[1..];
    var head := if h then [Entry(table[0].name, table[0].cells[i].value)] else [];
    var whole, tail := Present(table, i), Present(rest, i);
    assert whole == head + tail;
    forall m | 0 <= m < |r|
      ensures r[m] < |table| && table[r[m]].cells[i].Some?
      ensures whole[m] == Entry(table[r[m]].name, table[r[m]].cells[i].value)
    {
      if m < d {
        assert r[m] == 0 && whole[m] == head[0];
      } else {
        var c := cols[m - d];
        assert r[m] == c + 1 && table[c + 1] == rest[c];
        assert whole[m] == tail[m - d];
      }
    }
  }

  /** `nlargest(3)` and `nsmallest(3)` of one date's present values. */
  function RankRow(date: int, row: seq<Entry>): MoverRow
  {
    MoverRow(date, Names(Top(Descending, row, 3)), Names(Top(Ascending, row, 3)))
  }

  /** The digest row of date i: none when the date has no value at all. */
  function MoversAt(dates: seq<int>, table: seq<Column<real>>, i: nat): seq<MoverRow>
    requires i < |dates| && WellFormed(table, |dates|)
  {
    var row := Present(table, i);
    if |row| > 0 then [RankRow(dates[i], row)] else []
  }

  /** The digest row (none or one) of every date, oldest date first. */
  function PerDate(dates: seq<int>, table: seq<Column<real>>): seq<seq<MoverRow>>
    requires WellFormed(table, |dates|)
  {
    seq(|dates|, i requires 0 <= i < |dates| => MoversAt(dates, table, i))
  }

  /** The rows of dates lo .. hi-1, newest date first. */
  function Collect(perDate: seq<seq<MoverRow>>, lo: nat, hi: nat): seq<MoverRow>
    requires lo <= hi <= |perDate|
    decreases hi - lo
  {
    if lo == hi then [] else Collect(perDate, lo + 1, hi) + perDate[lo]
  }

  /** The movers loop: walks the dates newest first and appends a row for
      every date that has at least one value. */
  method DailyMovers(dates: seq<int>, table: seq<Column<real>>) returns (digest: seq<MoverRow>)
    requires WellFormed(table, |dates|)
    ensures digest == Collect(PerDate(dates, table), 0, |dates|)
  {
    digest := [];
    var i := |dates|;
    while i > 0
      invariant 0 <= i <= |dates|
      invariant digest == Collect(PerDate(dates, table), i, |dates|)
    {
      i := i - 1;
      ghost var perDate := PerDate(dates, table);
      assert perDate[i] == MoversAt(dates, table, i);
      assert Collect(perDate, i, |dates|) == Collect(perDate, i + 1, |dates|) + perDate[i];
      var row := Present(table, i);
      if |row| > 0 {
        digest := digest + [RankRow(dates[i], row)];
      }
    }
  }

  /** One digest row: for a date with k > 0 values, min(3, k) gainers taken
      from those values highest first with nothing left out that is higher,
      and min(3, k) losers lowest first with nothing left out that is lower. */
  lemma MoverRowSpec(dates: seq<int>, table: seq<Column<real>>, i: nat)
    requires i < |dates| && WellFormed(table, |dates|)
    ensures exists cols :: NonMissingColumns(table, i, cols) && |cols| == |Present(table, i)|
    ensures MoversAt(dates, table, i) == [] <==> |Present(table, i)| == 0
    ensures |Present(table, i)| > 0 ==>
      exists g, l ::
        && MoversAt(dates, table, i) == [MoverRow(dates[i], Names(g), Names(l))]
        && IsTop(Descending, Present(table, i), 3, g)
        && IsTop(Ascending, Present(table, i), 3, l)
  {
    var row := Present(table, i);
    var cols := PresentColumns(table, i);
    TopSpec(Descending, row, 3);
    TopSpec(Ascending, row, 3);
  }

  predicate StrictlyIncreasing(dates: seq<int>)
  {
    forall i, j :: 0 <= i < j < |dates| ==> dates[i] < dates[j]
  }

  /** Collecting rows of at most one per date keeps at most one row per
      date; every row collected is the row of some date, and every date's
      row is collected. */
  lemma {:induction false} CollectRows(perDate: seq<seq<MoverRow>>, lo: nat, hi: nat)
    requires lo <= hi <= |perDate|
    requires forall i :: 0 <= i < |perDate| ==> |perDate[i]| <= 1
    ensures |Collect(perDate, lo, hi)| <= hi - lo
    ensures forall r :: r in Collect(perDate, lo, hi) ==> exists i :: lo <= i < hi && perDate[i] == [r]
    ensures forall i, r :: lo <= i < hi && r in perDate[i] ==> r in Collect(perDate, lo, hi)
    decreases hi - lo
  {
    if lo < hi {
      CollectRows(perDate, lo + 1, hi);
      var rest := Collect(perDate, lo + 1, hi);
      assert Collect(perDate, lo, hi) == rest + perDate[lo];
      forall r | r in rest + perDate[lo]
        ensures exists i :: lo <= i < hi && perDate[i] == [r]
      {
        if r !in rest {
          assert perDate[lo] == [r];
        }
      }
    }
  }

  /** Rows dated by ascending dates come out newest date first. */
  lemma {:induction false} CollectNewestFirst(dates: seq<int>, perDate: seq<seq<MoverRow>>, lo: nat, hi: nat)
    requires lo <= hi <= |perDate| == |dates|
    requires StrictlyIncreasing(dates)
    requires forall i :: 0 <= i < |perDate| ==> |perDate[i]| <= 1
    requires forall i, r :: 0 <= i < |perDate| && r in perDate[i] ==> r.date == dates[i]
    ensures forall j, j' :: 0 <= j < j' < |Collect(perDate, lo, hi)| ==>
      Collect(perDate, lo, hi)[j].date > Collect(perDate, lo, hi)[j'].date
    decreases hi - lo
  {
    if lo < hi {
      CollectNewestFirst(dates, perDate, lo + 1, hi);
      CollectRows(perDate, lo + 1, hi);
      var rest := Collect(perDate, lo + 1, hi);
      assert Collect(perDate, lo, hi) == rest + perDate[lo];
      forall j | 0 <= j < |rest|
        ensures rest[j].date > dates[lo]
      {
        assert rest[j] in rest;
        var i :| lo + 1 <= i < hi && perDate[i] == [rest[j]];
        assert rest[j] in perDate[i];
      }
      if perDate[lo] != [] {
        assert perDate[lo][0] in perDate[lo];
      }
    }
  }

  /** The digest of a whole table: at most one row per date; every row is
      the row of a date (which therefore has values), every date with values
      has its row, and with the table's dates ascending the rows run newest
      date first. */
  lemma DigestSpec(dates: seq<int>, table: seq<Column<real>>)
    requires WellFormed(table, |dates|)
    ensures var digest := Collect(PerDate(dates, table), 0, |dates|);
      && |digest| <= |dates|
      && (forall r :: r in digest ==> exists i :: 0 <= i < |dates| && MoversAt(dates, table, i) == [r])
      && (forall i, r :: 0 <= i < |dates| && r in MoversAt(dates, table, i) ==> r in digest)
      && (StrictlyIncreasing(dates) ==>
            forall j, j' :: 0 <= j < j' < |digest| ==> digest[j].date > digest[j'].date)
  {
    var perDate := PerDate(dates, table);
    forall i | 0 <= i < |perDate|
      ensures |perDate[i]| <= 1 && forall r: MoverRow :: r in perDate[i] ==> r.date == dates[i]
    {
      assert perDate[i] == MoversAt(dates, table, i);
    }
    CollectRows(perDate, 0, |dates|);
    if StrictlyIncreasing(dates) {
      CollectNewestFirst(dates, perDate, 0, |dates|);
    }
  }
}
