/** Ranking of named values: the summary's `sort_values(ascending=False)`
    and the daily `nlargest(3)` / `nsmallest(3)`. The summary's contract
    promises no order among equal values, because the default sort kind is
    not stable. The model's insertion sort does keep equal values in their
    original order, and `IsTopAt` relies on that for `keep="first"`. */
module Ranking {
  import opened Frame

  datatype Order = Descending | Ascending

  /** In order `o`, entry `a` may stand before entry `b`. */
  predicate Precedes(o: Order, a: Entry, b: Entry)
  {
    if o == Descending then a.value >= b.value else a.value <= b.value
  }

  /** Every entry may stand before every later one. */
  predicate Sorted(o: Order, s: seq<Entry>)
  {
    forall i, j :: 0 <= i < j < |s| ==> Precedes(o, s[i], s[j])
  }

  /** Puts `e` into the list `s`, before the first entry it may precede. */
  function Insert(o: Order, e: Entry, s: seq<Entry>): seq<Entry>
  {
    if s == [] then [e]
    else if Precedes(o, e, s[0]) then [e] + s
    else [s[0]] + Insert(o, e, s[1..])
  }

  /** The entries of `s` rearranged into order `o` (insertion sort). */
  function Sort(o: Order, s: seq<Entry>): seq<Entry>
  {
    if s == [] then [] else Insert(o, s[0], Sort(o, s[1..]))
  }

  /** Inserting into a sorted list adds exactly `e` and keeps the list sorted. */
  lemma InsertSpec(o: Order, e: Entry, s: seq<Entry>)
    requires Sorted(o, s)
    ensures |Insert(o, e, s)| == |s| + 1
    ensures multiset(Insert(o, e, s)) == multiset(s) + multiset{e}
    ensures Sorted(o, Insert(o, e, s))
  {
    InsertAt(o, e, s);
    var q := InsertPos(o, e, s);
    assert PlacedAt(o, e, s, Insert(o, e, s), q);
    PlacedMultiset(o, e, s, Insert(o, e, s), q);
    PlacedSorted(o, e, s, Insert(o, e, s), q);
  }

  /** Placing `e` into a list adds exactly `e`. */
  lemma PlacedMultiset(o: Order, e: Entry, sorted: seq<Entry>, r: seq<Entry>, q: nat)
    requires PlacedAt(o, e, sorted, r, q)
    ensures multiset(r) == multiset(sorted) + multiset{e}
  {
    assert r == sorted[..q] + [e] + sorted[q..];
    assert sorted == sorted[..q] + sorted[q..];
  }

  /** Placing `e` after the entries that strictly precede it and before one it
      may precede keeps a sorted list sorted. */
  lemma PlacedSorted(o: Order, e: Entry, sorted: seq<Entry>, r: seq<Entry>, q: nat)
    requires Sorted(o, sorted) && PlacedAt(o, e, sorted, r, q)
    requires q < |sorted| ==> Precedes(o, e, sorted[q])
    ensures Sorted(o, r)
  {
    forall i, j | 0 <= i < j < |r|
      ensures Precedes(o, r[i], r[j])
    {
      if i == q {
        assert Precedes(o, sorted[q], sorted[j - 1]) || q == j - 1;
      } else if j != q {
        var a := if i < q then i else i - 1;
        var b := if j < q then j else j - 1;
        assert r[i] == sorted[a] && r[j] == sorted[b];
      }
    }
  }

  /** The summary ranking is a rearrangement of the values, in order `o`. */
  lemma {:induction false} SortSpec(o: Order, s: seq<Entry>)
    ensures |Sort(o, s)| == |s|
    ensures multiset(Sort(o, s)) == multiset(s)
    ensures Sorted(o, Sort(o, s))
  {
    if s != [] {
      SortSpec(o, s[1..]);
      InsertSpec(o, s[0], Sort(o, s[1..]));
      assert s == [s[0]] + s[1..];
    }
  }

  function Min(a: nat, b: nat): nat
  {
    if a <= b then a else b
  }

  /** `nlargest(k)` (order Descending) or `nsmallest(k)` (order Ascending):
      the first k entries of the row in that order. */
  function Top(o: Order, row: seq<Entry>, k: nat): seq<Entry>
  {
    var sorted := Sort(o, row);
    sorted[..Min(k, |sorted|)]
  }

  /** Where `Insert` puts `e`: before the first entry of `s` it may precede. */
  function InsertPos(o: Order, e: Entry, s: seq<Entry>): (q: nat)
    ensures q <= |s|
  {
    if s == [] || Precedes(o, e, s[0]) then 0 else 1 + InsertPos(o, e, s[1..])
  }

  /** `Insert` places `e` at `InsertPos` and shifts what follows by one; every
      entry it passes over is one `e` may not precede. */
  lemma {:induction false} InsertAt(o: Order, e: Entry, s: seq<Entry>)
    ensures |Insert(o, e, s)| == |s| + 1
    ensures forall m :: 0 <= m < InsertPos(o, e, s) ==> Insert(o, e, s)[m] == s[m] && !Precedes(o, e, s[m])
    ensures Insert(o, e, s)[InsertPos(o, e, s)] == e
    ensures forall m :: InsertPos(o, e, s) < m <= |s| ==> Insert(o, e, s)[m] == s[m - 1]
    ensures InsertPos(o, e, s) < |s| ==> Precedes(o, e, s[InsertPos(o, e, s)])
  {
    if s != [] && !Precedes(o, e, s[0]) {
      var tail := s[1..];
      InsertAt(o, e, tail);
      var q', r' := InsertPos(o, e, tail), Insert(o, e, tail);
      assert Insert(o, e, s) == [s[0]] + r';
      forall m | 0 <= m < 1 + q'
        ensures Insert(o, e, s)[m] == s[m] && !Precedes(o, e, s[m])
      {
        if m > 0 {
          assert s[m] == tail[m - 1];
        }
      }
      forall m | 1 + q' < m <= |s|
        ensures Insert(o, e, s)[m] == s[m - 1]
      {
        assert s[m - 1] == tail[m - 2];
      }
    }
  }

  /** `pos` records where each entry of `r` stood in `s`: r[m] is s[pos[m]],
      and every position of `s` is used exactly once. */
  ghost predicate Arrangement(s: seq<Entry>, r: seq<Entry>, pos: seq<nat>)
  {
    && |pos| == |r| == |s|
    && (forall m :: 0 <= m < |r| ==> pos[m] < |s| && r[m] == s[pos[m]])
    && (forall m, m' :: 0 <= m < m' < |r| ==> pos[m] != pos[m'])
    && (forall p :: 0 <= p < |s| ==> p in pos)
  }

  /** Entries of equal value keep the order of the positions they came from. */
  ghost predicate KeepsTieOrder(r: seq<Entry>, pos: seq<nat>)
  {
    && |pos| == |r|
    && forall m, m' :: 0 <= m < m' < |r| && r[m].value == r[m'].value ==> pos[m] < pos[m']
  }

  /** `r` is `sorted` with `e` placed at index q, and `e` may not precede any
      entry placed before it (the shape `InsertAt` proves of `Insert`). */
  ghost predicate PlacedAt(o: Order, e: Entry, sorted: seq<Entry>, r: seq<Entry>, q: nat)
  {
    && q <= |sorted| && |r| == |sorted| + 1 && r[q] == e
    && (forall m :: 0 <= m < q ==> r[m] == sorted[m] && !Precedes(o, e, sorted[m]))
    && (forall m :: q < m < |r| ==> r[m] == sorted[m - 1])
  }

  /** The positions of `[e] + tail` after placing `e` (position 0) at index q
      among the entries of `tail` arranged by `pos`. */
  function PlacePositions(pos: seq<nat>, q: nat): (r: seq<nat>)
    requires q <= |pos|
    ensures |r| == |pos| + 1 && r[q] == 0
    ensures forall m :: 0 <= m < q ==> r[m] == pos[m] + 1
    ensures forall m :: q < m <= |pos| ==> r[m] == pos[m - 1] + 1
  {
    seq(|pos| + 1, m requires 0 <= m <= |pos| =>
      if m < q then pos[m] + 1 else if m == q then 0 else pos[m - 1] + 1)
  }

  /** Placing the head into a sorted arrangement of the tail arranges the whole list. */
  lemma PlaceArrangement(o: Order, s: seq<Entry>, sorted: seq<Entry>, pos: seq<nat>, r: seq<Entry>, q: nat)
    requires |s| > 0 && Arrangement(s[1..], sorted, pos) && PlacedAt(o, s[0], sorted, r, q)
    ensures Arrangement(s, r, PlacePositions(pos, q))
  {
    PlaceEntries(o, s, sorted, pos, r, q);
    PlaceDistinct(pos, q);
    PlaceCovers(|s|, pos, q);
  }

  lemma PlaceEntries(o: Order, s: seq<Entry>, sorted: seq<Entry>, pos: seq<nat>, r: seq<Entry>, q: nat)
    requires |s| > 0 && Arrangement(s[1..], sorted, pos) && PlacedAt(o, s[0], sorted, r, q)
    ensures forall m :: 0 <= m < |r| ==> PlacePositions(pos, q)[m] < |s| && r[m] == s[PlacePositions(pos, q)[m]]
  {
    var tail, pos' := s[1..], PlacePositions(pos, q);
    forall m | 0 <= m < |r|
      ensures pos'[m] < |s| && r[m] == s[pos'[m]]
    {
      if m < q {
        assert r[m] == sorted[m] == tail[pos[m]];
      } else if m > q {
        assert r[m] == sorted[m - 1] == tail[pos[m - 1]];
      }
    }
  }

  lemma PlaceDistinct(pos: seq<nat>, q: nat)
    requires q <= |pos|
    requires forall m, m' :: 0 <= m < m' < |pos| ==> pos[m] != pos[m']
    ensures forall m, m' :: 0 <= m < m' <= |pos| ==> PlacePositions(pos, q)[m] != PlacePositions(pos, q)[m']
  {
    var pos' := PlacePositions(pos, q);
    forall m, m' | 0 <= m < m' <= |pos|
      ensures pos'[m] != pos'[m']
    {
      if m != q && m' != q {
        var a := if m < q then m else m - 1;
        var b := if m' < q then m' else m' - 1;
        assert pos[a] != pos[b];
      }
    }
  }

  lemma PlaceCovers(n: nat, pos: seq<nat>, q: nat)
    requires q <= |pos| && forall p :: 0 <= p < n - 1 ==> p in pos
    ensures forall p :: 0 <= p < n ==> p in PlacePositions(pos, q)
  {
    var pos' := PlacePositions(pos, q);
    forall p | 0 <= p < n
      ensures p in pos'
    {
      if p == 0 {
        assert pos'[q] == 0;
      } else {
        assert p - 1 in pos;
        var a :| 0 <= a < |pos| && pos[a] == p - 1;
        if a < q {
          assert pos'[a] == p;
        } else {
          assert pos'[a + 1] == p;
        }
      }
    }
  }

  /** Placing the head before every entry of equal value keeps ties in order. */
  lemma PlaceKeepsTieOrder(o: Order, e: Entry, sorted: seq<Entry>, pos: seq<nat>, r: seq<Entry>, q: nat)
    requires KeepsTieOrder(sorted, pos) && PlacedAt(o, e, sorted, r, q)
    ensures KeepsTieOrder(r, PlacePositions(pos, q))
  {
    var pos' := PlacePositions(pos, q);
    assert forall m :: 0 <= m < q ==> r[m].value != e.value;
    forall m, m' | 0 <= m < m' < |r| && r[m].value == r[m'].value
      ensures pos'[m] < pos'[m']
    {
      if m != q && m' != q {
        var a := if m < q then m else m - 1;
        var b := if m' < q then m' else m' - 1;
        assert r[m] == sorted[a] && r[m'] == sorted[b];
      }
    }
  }

  /** The insertion sort keeps equal values in the order they stood in. */
  lemma {:induction false} SortArrangement(o: Order, s: seq<Entry>) returns (pos: seq<nat>)
    ensures Arrangement(s, Sort(o, s), pos) && KeepsTieOrder(Sort(o, s), pos)
  {
    if s == [] {
      pos := [];
    } else {
      var sorted := Sort(o, s[1..]);
      var pos' := SortArrangement(o, s[1..]);
      var q := InsertPos(o, s[0], sorted);
      InsertAt(o, s[0], sorted);
      assert PlacedAt(o, s[0], sorted, Sort(o, s), q);
      PlaceArrangement(o, s, sorted, pos', Sort(o, s), q);
      PlaceKeepsTieOrder(o, s[0], sorted, pos', Sort(o, s), q);
      pos := PlacePositions(pos', q);
    }
  }

  /** What `nlargest(k)` / `nsmallest(k)` with their default `keep="first"`
      promise of their result `t`, taken from the row's positions `at`:
      min(k, n) distinct entries of the row in order `o`, equal values in row
      order, and every entry left out may stand after every entry chosen and,
      when it ties one, stood later in the row. */
  ghost predicate IsTopAt(o: Order, row: seq<Entry>, k: nat, t: seq<Entry>, at: seq<nat>)
  {
    && |t| == Min(k, |row|) && |at| == |t|
    && Sorted(o, t)
    && (forall m :: 0 <= m < |t| ==> at[m] < |row| && t[m] == row[at[m]])
    && (forall m, m' :: 0 <= m < m' < |t| ==> at[m] != at[m'])
    && KeepsTieOrder(t, at)
    && (forall p: nat, m :: p < |row| && p !in at && 0 <= m < |t| ==>
          Precedes(o, t[m], row[p]) && (t[m].value == row[p].value ==> at[m] < p))
  }

  ghost predicate IsTop(o: Order, row: seq<Entry>, k: nat, t: seq<Entry>)
  {
    exists at :: IsTopAt(o, row, k, t, at)
  }

  lemma TopSpec(o: Order, row: seq<Entry>, k: nat)
    ensures IsTop(o, row, k, Top(o, row, k))
  {
    SortSpec(o, row);
    var pos := SortArrangement(o, row);
    SortedPrefixIsTop(o, row, Sort(o, row), pos, k);
  }

  /** The first min(k, n) entries of a sorted arrangement of the row that keeps
      ties in row order are the row's `nlargest(k)` / `nsmallest(k)`. */
  lemma SortedPrefixIsTop(o: Order, row: seq<Entry>, sorted: seq<Entry>, pos: seq<nat>, k: nat)
    requires Arrangement(row, sorted, pos) && KeepsTieOrder(sorted, pos) && Sorted(o, sorted)
    ensures IsTopAt(o, row, k, sorted[..Min(k, |row|)], pos[..Min(k, |row|)])
  {
    var c := Min(k, |row|);
    var t, at := sorted[..c], pos[..c];
    forall p: nat, m | p < |row| && p !in at && 0 <= m < |t|
      ensures Precedes(o, t[m], row[p]) && (t[m].value == row[p].value ==> at[m] < p)
    {
      assert p in pos;
      var a :| 0 <= a < |pos| && pos[a] == p;
      assert t[m] == sorted[m] && row[p] == sorted[a];
    }
  }

  /** An illustration of the keep-first rule that `IsTopAt` states and
      `TopSpec` proves for every row: of two equal values competing for one
      place, only the one in the earlier column may be chosen. */
  lemma KeepFirstOnTies(t: seq<Entry>)
    requires IsTop(Descending, [Entry("A", 1.0), Entry("B", 1.0)], 1, t)
    ensures t == [Entry("A", 1.0)]
  {
    var row := [Entry("A", 1.0), Entry("B", 1.0)];
    var at :| IsTopAt(Descending, row, 1, t, at);
    assert t[0] == row[at[0]];
    assert at[0] == 1 ==> 0 !in at;
  }
}
