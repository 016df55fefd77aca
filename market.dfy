/** The market overview digest, computed from the summary (the final-day MTD
    values of all indices, ranked high to low): average change, numbers of
    gainers and losers, best and worst performer, and the market mood. */
module Market {
  import opened Frame
  import opened Ranking

  datatype Mood = Bullish | Bearish | Neutral

  /** The overview's computed rows; the date-range row is text formatting
      and is not part of this model. `average` is None where pandas' mean is
      NaN (an empty summary). */
  datatype Overview = Overview(
    average: Option<real>,
    gainers: nat,
    losers: nat,
    best: string,
    worst: string,
    mood: Mood)

  function Sum(s: seq<Entry>): real
  {
    if s == [] then 0.0 else s[0].value + Sum(s[1..])
  }

  /** `mean()`: NaN (None) when there is nothing to average. */
  function Average(s: seq<Entry>): Option<real>
  {
    if s == [] then None else Some(Sum(s) / (|s| as real))
  }

  /** `(values > 0).sum()` */
  function CountGainers(s: seq<Entry>): nat
  {
    if s == [] then 0 else (if s[0].value > 0.0 then 1 else 0) + CountGainers(s[1..])
  }

  /** `(values < 0).sum()` */
  function CountLosers(s: seq<Entry>): nat
  {
    if s == [] then 0 else (if s[0].value < 0.0 then 1 else 0) + CountLosers(s[1..])
  }

  /** The mood label; a NaN average compares false both ways and is Neutral. */
  function MoodOf(average: Option<real>): Mood
  {
    match average
    case None => Neutral
    case Some(a) => if a > 0.0 then Bullish else if a < 0.0 then Bearish else Neutral
  }

  /** The overview of a ranked summary: first and last names are the top and
      bottom performers, "" for an empty summary. */
  function MakeOverview(summary: seq<Entry>): Overview
  {
    var avg := Average(summary);
    Overview(
      avg,
      CountGainers(summary),
      CountLosers(summary),
      if |summary| > 0 then summary[0].name else "",
      if |summary| > 0 then summary[|summary| - 1].name else "",
      MoodOf(avg))
  }

  /** No index is counted both as a gainer and as a loser. */
  lemma {:induction false} CountsBounded(s: seq<Entry>)
    ensures CountGainers(s) + CountLosers(s) <= |s|
  {
    if s != [] {
      CountsBounded(s[1..]);
    }
  }

  /** The mood is Bullish exactly when the values add up to more than zero,
      Bearish exactly when they add up to less, and Neutral otherwise (an
      exact zero, or no values at all). */
  lemma MoodFollowsSum(s: seq<Entry>)
    ensures MoodOf(Average(s)) == Bullish <==> Sum(s) > 0.0
    ensures MoodOf(Average(s)) == Bearish <==> Sum(s) < 0.0
    ensures MoodOf(Average(s)) == Neutral <==> Sum(s) == 0.0
  {
    if s != [] {
      var n := |s| as real;
      var a := Sum(s) / n;
      assert a * n == Sum(s);
    }
  }

  /** Inserting one entry adds its value and its sign to the totals. */
  lemma {:induction false} InsertKeepsTotals(o: Order, e: Entry, s: seq<Entry>)
    ensures Sum(Insert(o, e, s)) == e.value + Sum(s)
    ensures CountGainers(Insert(o, e, s)) == CountGainers([e]) + CountGainers(s)
    ensures CountLosers(Insert(o, e, s)) == CountLosers([e]) + CountLosers(s)
  {
    if s != [] && !Precedes(o, e, s[0]) {
      InsertKeepsTotals(o, e, s[1..]);
      assert Insert(o, e, s)[1..] == Insert(o, e, s[1..]);
    }
  }

  /** Ranking does not change the sum or the gainer and loser counts. */
  lemma {:induction false} SortKeepsTotals(o: Order, s: seq<Entry>)
    ensures Sum(Sort(o, s)) == Sum(s)
    ensures CountGainers(Sort(o, s)) == CountGainers(s)
    ensures CountLosers(Sort(o, s)) == CountLosers(s)
  {
    if s != [] {
      SortKeepsTotals(o, s[1..]);
      InsertKeepsTotals(o, s[0], Sort(o, s[1..]));
    }
  }

  /** The overview of the ranked final-day values, stated against the
      unranked values: the counts, average and mood are those of the values
      themselves, and gainers and losers together are at most the number of
      indices. */
  lemma OverviewTotals(mtd: seq<Entry>)
    ensures var ov := MakeOverview(Sort(Descending, mtd));
      && ov.gainers == CountGainers(mtd)
      && ov.losers == CountLosers(mtd)
      && ov.gainers + ov.losers <= |mtd|
      && ov.average == Average(mtd)
      && (ov.mood == Bullish <==> Sum(mtd) > 0.0)
      && (ov.mood == Bearish <==> Sum(mtd) < 0.0)
      && (ov.mood == Neutral <==> Sum(mtd) == 0.0)
  {
    var summary := Sort(Descending, mtd);
    SortSpec(Descending, mtd);
    SortKeepsTotals(Descending, mtd);
    CountsBounded(mtd);
    MoodFollowsSum(mtd);
    MoodFollowsSum(summary);
  }

  /** The top performer of the ranked final-day values is an index with the
      highest value and the bottom performer one with the lowest; both are
      "" when there are no indices. */
  lemma OverviewPerformers(mtd: seq<Entry>)
    ensures var ov := MakeOverview(Sort(Descending, mtd));
      && (mtd == [] ==> ov.best == "" && ov.worst == "")
      && (mtd != [] ==>
            exists i ::
              && 0 <= i < |mtd| && mtd[i].name == ov.best
              && forall j :: 0 <= j < |mtd| ==> mtd[j].value <= mtd[i].value)
      && (mtd != [] ==>
            exists i ::
              && 0 <= i < |mtd| && mtd[i].name == ov.worst
              && forall j :: 0 <= j < |mtd| ==> mtd[i].value <= mtd[j].value)
  {
    var summary := Sort(Descending, mtd);
    SortSpec(Descending, mtd);
    if mtd != [] {
      var n := |summary|;
      var i := EndsOfRanking(mtd, summary);
      assert MakeOverview(summary).best == summary[0].name == mtd[i].name;
      var i' := EndsOfRankingLast(mtd, summary);
      assert MakeOverview(summary).worst == summary[n - 1].name == mtd[i'].name;
    }
  }

  /** The first entry of a high-to-low ranking is an entry with the highest value. */
  lemma EndsOfRanking(mtd: seq<Entry>, summary: seq<Entry>) returns (i: nat)
    requires multiset(summary) == multiset(mtd) && Sorted(Descending, summary) && mtd != []
    ensures i < |mtd| && |summary| > 0 && mtd[i] == summary[0]
    ensures forall j :: 0 <= j < |mtd| ==> mtd[j].value <= mtd[i].value
  {
    assert |summary| == |multiset(mtd)| == |mtd|;
    PermutationMember(summary, mtd, 0);
    i :| 0 <= i < |mtd| && mtd[i] == summary[0];
    forall j | 0 <= j < |mtd|
      ensures mtd[j].value <= mtd[i].value
    {
      PermutationMember(mtd, summary, j);
    }
  }

  /** The last entry of a high-to-low ranking is an entry with the lowest value. */
  lemma EndsOfRankingLast(mtd: seq<Entry>, summary: seq<Entry>) returns (i: nat)
    requires multiset(summary) == multiset(mtd) && Sorted(Descending, summary) && mtd != []
    ensures i < |mtd| && |summary| == |mtd| && mtd[i] == summary[|summary| - 1]
    ensures forall j :: 0 <= j < |mtd| ==> mtd[i].value <= mtd[j].value
  {
    assert |summary| == |multiset(mtd)| == |mtd|;
    var n := |summary|;
    PermutationMember(summary, mtd, n - 1);
    i :| 0 <= i < |mtd| && mtd[i] == summary[n - 1];
    forall j | 0 <= j < |mtd|
      ensures mtd[i].value <= mtd[j].value
    {
      PermutationMember(mtd, summary, j);
    }
  }

  /** An entry of a list is an entry of any rearrangement of it. */
  lemma PermutationMember(a: seq<Entry>, b: seq<Entry>, k: nat)
    requires multiset(a) == multiset(b) && k < |a|
    ensures exists i :: 0 <= i < |b| && b[i] == a[k]
  {
    assert a[k] in multiset(b);
  }
}
