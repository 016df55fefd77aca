/** Gap filling of the aligned closing-price table: columns that hold no
    observation at all are dropped, then every remaining column is
    forward-filled and then backward-filled, so no NaN is left. */
module GapFill {
  import opened Frame

  /** pandas `ffill` on one column: a NaN takes the latest observation before
      it; `carry` is the latest observation seen before `s` starts. */
  function ForwardFillFrom<T>(s: seq<Option<T>>, carry: Option<T>): (r: seq<Option<T>>)
    ensures |r| == |s|
    ensures forall i :: 0 <= i < |s| && s[i].Some? ==> r[i] == s[i]
  {
    if s == [] then []
    else
      var c := OrElse(s[0], carry);
      [c] + ForwardFillFrom(s[1..], c)
  }

  function ForwardFill<T>(s: seq<Option<T>>): seq<Option<T>>
  {
    ForwardFillFrom(s, None)
  }

  /** pandas `bfill` on one column: a NaN takes the earliest observation after it. */
  function BackwardFill<T>(s: seq<Option<T>>): (r: seq<Option<T>>)
    ensures |r| == |s|
    ensures forall i :: 0 <= i < |s| && s[i].Some? ==> r[i] == s[i]
  {
    if s == [] then []
    else
      var rest := BackwardFill(s[1..]);
      [OrElse(s[0], if rest == [] then None else rest[0])] + rest
  }

  /** `.ffill().bfill()` on one column. */
  function Fill<T>(s: seq<Option<T>>): (r: seq<Option<T>>)
    ensures |r| == |s|
    ensures forall i :: 0 <= i < |s| && s[i].Some? ==> r[i] == s[i]
  {
    BackwardFill(ForwardFill(s))
  }

  /** Each cell of a forward fill is the cell itself, or else the fill one row earlier. */
  lemma {:induction false} ForwardFillStep<T>(s: seq<Option<T>>, carry: Option<T>, i: nat)
    requires 0 < i < |s|
    ensures ForwardFillFrom(s, carry)[i] == OrElse(s[i], ForwardFillFrom(s, carry)[i - 1])
  {
    if i > 1 {
      ForwardFillStep(s[1..], OrElse(s[0], carry), i - 1);
    }
  }

  /** Each cell of a backward fill is the cell itself, or else the fill one row later. */
  lemma {:induction false} BackwardFillStep<T>(s: seq<Option<T>>, i: nat)
    requires i + 1 < |s|
    ensures BackwardFill(s)[i] == OrElse(s[i], BackwardFill(s)[i + 1])
  {
    if i > 0 {
      BackwardFillStep(s[1..], i - 1);
    }
  }

  /** `f` is what filling `s` forward produces: the first row is kept, and
      every later NaN takes the filled value of the row before. */
  ghost predicate ForwardScan<T>(s: seq<Option<T>>, f: seq<Option<T>>)
  {
    && |f| == |s|
    && (|s| > 0 ==> f[0] == s[0])
    && forall i {:trigger s[i]} :: 0 < i < |s| ==> f[i] == OrElse(s[i], f[i - 1])
  }

  /** `f` is what filling `s` backward produces: the last row is kept, and
      every earlier NaN takes the filled value of the row after. */
  ghost predicate BackwardScan<T>(s: seq<Option<T>>, f: seq<Option<T>>)
  {
    && |f| == |s|
    && (|s| > 0 ==> f[|s| - 1] == s[|s| - 1])
    && forall i {:trigger s[i]} :: 0 <= i < |s| - 1 ==> f[i] == OrElse(s[i], f[i + 1])
  }

  lemma ForwardFillIsScan<T>(s: seq<Option<T>>)
    ensures ForwardScan(s, ForwardFill(s))
  {
    forall i | 0 < i < |s|
      ensures ForwardFill(s)[i] == OrElse(s[i], ForwardFill(s)[i - 1])
    {
      ForwardFillStep(s, None, i);
    }
  }

  lemma BackwardFillIsScan<T>(s: seq<Option<T>>)
    ensures BackwardScan(s, BackwardFill(s))
  {
    if |s| > 0 {
      BackwardFillLast(s);
    }
    forall i | 0 <= i < |s| - 1
      ensures BackwardFill(s)[i] == OrElse(s[i], BackwardFill(s)[i + 1])
    {
      BackwardFillStep(s, i);
    }
  }

  /** A forward scan, stated without the scan: row i stays NaN exactly when
      no row up to i is observed, and otherwise holds the latest observation
      up to row i. */
  lemma {:induction false} ForwardScanSpec<T>(s: seq<Option<T>>, f: seq<Option<T>>, i: nat)
    requires ForwardScan(s, f) && i < |s|
    ensures f[i].None? <==> forall k :: 0 <= k <= i ==> s[k].None?
    ensures f[i].Some? ==> exists j :: 0 <= j <= i && s[j] == f[i] && forall k :: j < k <= i ==> s[k].None?
  {
    if i > 0 {
      ForwardScanSpec(s, f, i - 1);
      assert f[i] == OrElse(s[i], f[i - 1]);
      if s[i].Some? {
        assert s[i] == f[i];
      } else if f[i - 1].Some? {
        var j :| 0 <= j <= i - 1 && s[j] == f[i - 1] && forall k :: j < k <= i - 1 ==> s[k].None?;
        assert forall k :: j < k <= i ==> s[k].None?;
      }
    }
  }

  /** A backward scan, stated without the scan: row i stays NaN exactly when
      no row from i on is observed, and otherwise holds the earliest
      observation from row i on. */
  lemma {:induction false} BackwardScanSpec<T>(s: seq<Option<T>>, f: seq<Option<T>>, i: nat)
    requires BackwardScan(s, f) && i < |s|
    ensures f[i].None? <==> forall k :: i <= k < |s| ==> s[k].None?
    ensures f[i].Some? ==> exists j :: i <= j < |s| && s[j] == f[i] && forall k :: i <= k < j ==> s[k].None?
    decreases |s| - i
  {
    if i + 1 < |s| {
      BackwardScanSpec(s, f, i + 1);
      assert f[i] == OrElse(s[i], f[i + 1]);
      if s[i].Some? {
        assert s[i] == f[i];
      } else if f[i + 1].Some? {
        var j :| i + 1 <= j < |s| && s[j] == f[i + 1] && forall k :: i + 1 <= k < j ==> s[k].None?;
        assert forall k :: i <= k < j ==> s[k].None?;
      }
    }
  }

  /** Forward fill: row i stays NaN exactly when no row up to i is observed,
      and otherwise holds the latest observation up to row i. */
  lemma ForwardFillSpec<T>(s: seq<Option<T>>, i: nat)
    requires i < |s|
    ensures ForwardFill(s)[i].None? <==> forall k :: 0 <= k <= i ==> s[k].None?
    ensures ForwardFill(s)[i].Some? ==>
      exists j :: 0 <= j <= i && s[j] == ForwardFill(s)[i] && forall k :: j < k <= i ==> s[k].None?
  {
    ForwardFillIsScan(s);
    ForwardScanSpec(s, ForwardFill(s), i);
  }

  /** Backward fill: row i stays NaN exactly when no row from i on is
      observed, and otherwise holds the earliest observation from row i on. */
  lemma BackwardFillSpec<T>(s: seq<Option<T>>, i: nat)
    requires i < |s|
    ensures BackwardFill(s)[i].None? <==> forall k :: i <= k < |s| ==> s[k].None?
    ensures BackwardFill(s)[i].Some? ==>
      exists j :: i <= j < |s| && s[j] == BackwardFill(s)[i] && forall k :: i <= k < j ==> s[k].None?
  {
    BackwardFillIsScan(s);
    BackwardScanSpec(s, BackwardFill(s), i);
  }

  /** The newest row has nothing after it to take a value from. */
  lemma {:induction false} BackwardFillLast<T>(s: seq<Option<T>>)
    requires |s| > 0
    ensures BackwardFill(s)[|s| - 1] == s[|s| - 1]
  {
    if |s| > 1 {
      BackwardFillLast(s[1..]);
    }
  }

  /** A column with at least one observation has no NaN left after filling. */
  lemma FillLeavesNoGap<T>(s: seq<Option<T>>)
    requires HasObservation(s)
    ensures NoMissing(Fill(s))
  {
    var n := |s|;
    var f := ForwardFill(s);
    ForwardFillSpec(s, n - 1);
    assert f[n - 1].Some?;
    forall i | 0 <= i < n
      ensures Fill(s)[i].Some?
    {
      BackwardFillSpec(f, i);
    }
  }

  /** Where a filled cell comes from: every cell of a column with an
      observation holds some observed value s[j], where either s[j] is the
      latest observation at or before row i, or (no row up to i being
      observed) s[j] is the column's first observation. */
  lemma FillSpec<T>(s: seq<Option<T>>, i: nat)
    requires HasObservation(s) && i < |s|
    ensures exists j ::
      && 0 <= j < |s| && s[j].Some? && s[j] == Fill(s)[i]
      && ((j <= i && forall k :: j < k <= i ==> s[k].None?) ||
          (i < j && forall k :: 0 <= k < j ==> s[k].None?))
  {
    var f := ForwardFill(s);
    FillLeavesNoGap(s);
    ForwardFillSpec(s, i);
    if f[i].Some? {
      assert Fill(s)[i] == f[i];
      var j := ForwardSource(s, i);
    } else {
      var j' := BackwardSource(f, i);
      var j := ForwardSource(s, j');
      forall k | 0 <= k < j
        ensures s[k].None?
      {
        if k > i {
          ForwardFillSpec(s, k);
        }
      }
    }
  }

  /** An observed forward-filled cell came from the latest observation at or
      before its row. */
  lemma ForwardSource<T>(s: seq<Option<T>>, i: nat) returns (j: nat)
    requires i < |s| && ForwardFill(s)[i].Some?
    ensures j <= i && s[j] == ForwardFill(s)[i]
    ensures forall k :: j < k <= i ==> s[k].None?
  {
    ForwardFillSpec(s, i);
    j :| 0 <= j <= i && s[j] == ForwardFill(s)[i] && forall k :: j < k <= i ==> s[k].None?;
  }

  /** An observed back-filled cell came from the earliest observation at or
      after its row. */
  lemma BackwardSource<T>(s: seq<Option<T>>, i: nat) returns (j: nat)
    requires i < |s| && BackwardFill(s)[i].Some?
    ensures i <= j < |s| && s[j] == BackwardFill(s)[i]
    ensures forall k :: i <= k < j ==> s[k].None?
  {
    BackwardFillSpec(s, i);
    j :| i <= j < |s| && s[j] == BackwardFill(s)[i] && forall k :: i <= k < j ==> s[k].None?;
  }

  /** `dropna(axis=1, how="all")`: keeps, in their order, exactly the columns
      that hold at least one observation. */
  function DropAllMissing<T(==)>(t: seq<Column<T>>): (r: seq<Column<T>>)
    ensures forall j :: 0 <= j < |r| ==> r[j] in t && HasObservation(r[j].cells)
    ensures forall j :: 0 <= j < |t| && HasObservation(t[j].cells) ==> t[j] in r
    ensures IsSubseq(r, t)
  {
    if t == [] then []
    else if HasObservation(t[0].cells) then [t[0]] + DropAllMissing(t[1..])
    else DropAllMissing(t[1..])
  }

  /** `.dropna(axis=1, how="all").ffill().bfill()` on the whole table. */
  function FillGaps<T(==)>(t: seq<Column<T>>): (r: seq<Column<T>>)
    ensures |r| == |DropAllMissing(t)|
    ensures forall j :: 0 <= j < |r| ==>
      r[j].name == DropAllMissing(t)[j].name && |r[j].cells| == |DropAllMissing(t)[j].cells|
    ensures forall j, i :: 0 <= j < |r| && 0 <= i < |r[j].cells| && DropAllMissing(t)[j].cells[i].Some? ==>
      r[j].cells[i] == DropAllMissing(t)[j].cells[i]
  {
    var d := DropAllMissing(t);
    seq(|d|, j requires 0 <= j < |d| => Column(d[j].name, Fill(d[j].cells)))
  }

  /** After gap filling, the table keeps its dates and no column holds a NaN. */
  lemma FillGapsComplete<T>(t: seq<Column<T>>, rows: nat)
    requires WellFormed(t, rows)
    ensures WellFormed(FillGaps(t), rows)
    ensures forall j :: 0 <= j < |FillGaps(t)| ==> NoMissing(FillGaps(t)[j].cells)
  {
    var d := DropAllMissing(t);
    forall j | 0 <= j < |d|
      ensures NoMissing(FillGaps(t)[j].cells) && |FillGaps(t)[j].cells| == rows
    {
      assert d[j] in d;
      var k :| 0 <= k < |t| && t[k] == d[j];
      FillLeavesNoGap(d[j].cells);
    }
  }
}
