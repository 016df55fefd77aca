/** Shared vocabulary of the statistics step: cells that may be missing (NaN),
    one named column per index of the date x index table, named values, and a
    few facts about sequences. */
module Frame {

  /** A table cell: `None` is pandas' NaN, a missing closing value. */
  datatype Option<+T> = None | Some(value: T)

  function OrElse<T>(a: Option<T>, b: Option<T>): Option<T>
  {
    if a.Some? then a else b
  }

  /** One index's column of the aligned table, oldest date first. */
  datatype Column<T> = Column(name: string, cells: seq<Option<T>>)

  /** A value labelled with the index it belongs to (one entry of a pandas Series). */
  datatype Entry = Entry(name: string, value: real)

  /** Every column of `table` holds one cell per date, `rows` dates in all. */
  predicate WellFormed<T>(table: seq<Column<T>>, rows: nat)
  {
    forall j :: 0 <= j < |table| ==> |table[j].cells| == rows
  }

  /** The column has at least one observed (non-NaN) value. */
  predicate HasObservation<T>(cells: seq<Option<T>>)
  {
    exists i :: 0 <= i < |cells| && cells[i].Some?
  }

  /** The column has no NaN left. */
  predicate NoMissing<T>(cells: seq<Option<T>>)
  {
    forall i :: 0 <= i < |cells| ==> cells[i].Some?
  }

  /** `a` is `b` with some elements removed and the rest in their order. */
  predicate IsSubseq<T(==)>(a: seq<T>, b: seq<T>)
    decreases |b|
  {
    if a == [] then true
    else if b == [] then false
    else if a[0] == b[0] then IsSubseq(a[1..], b[1..])
    else IsSubseq(a, b[1..])
  }

  /** No value occurs twice. */
  predicate Distinct<T(==)>(s: seq<T>)
  {
    forall i, j :: 0 <= i < j < |s| ==> s[i] != s[j]
  }

  /** The index names of a list of entries, in the same order (a Series' `.index`). */
  function Names(es: seq<Entry>): seq<string>
  {
    seq(|es|, i requires 0 <= i < |es| => es[i].name)
  }
}
