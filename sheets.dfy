/** Sheet names of the two workbooks: the raw workbook's seven sheets, the
    two renames done while restyling, and the dashboard's final sheet order. */
module Sheets {
  import opened Frame

  /** The raw workbook's sheets, in the order they are written. */
  const RawSheets: seq<string> :=
    ["Index Close", "MTD %", "Day over Day %", "Summary", "Daily Movers", "Streaks", "Market Overview"]

  /** The dashboard's sheet order. */
  const Desired: seq<string> :=
    ["Overview", "Summary", "Index Close", "MTD %", "DoD%", "Daily Movers", "Streaks"]

  /** The sheet title after restyling: "Day over Day %" becomes "DoD%" and
      "Market Overview" becomes "Overview"; every other title is kept. */
  function Rename(title: string): string
  {
    if title == "Day over Day %" then "DoD%"
    else if title == "Market Overview" then "Overview"
    else title
  }

  function RenameAll(titles: seq<string>): seq<string>
  {
    seq(|titles|, i requires 0 <= i < |titles| => Rename(titles[i]))
  }

  /** `[s for s in wanted if s in present]`: the wanted names that are
      present, in the wanted order. */
  function KeepPresent(wanted: seq<string>, present: seq<string>): (r: seq<string>)
    ensures IsSubseq(r, wanted)
    ensures forall s :: s in r <==> s in wanted && s in present
    ensures Distinct(wanted) ==> Distinct(r)
  {
    if wanted == [] then []
    else if wanted[0] in present then [wanted[0]] + KeepPresent(wanted[1..], present)
    else KeepPresent(wanted[1..], present)
  }

  /** The dashboard's sheet order for the sheets a workbook holds. */
  function SheetOrder(present: seq<string>): (r: seq<string>)
    ensures IsSubseq(r, Desired) && Distinct(r)
    ensures forall s :: s in r <==> s in Desired && s in present
  {
    KeepPresent(Desired, present)
  }

  /** After the renames, every sheet of the raw workbook is one the dashboard
      wants, and the dashboard ends up with all seven, exactly in the
      desired order, none dropped and none twice. */
  lemma DashboardHasAllSheets()
    ensures forall s :: s in RenameAll(RawSheets) <==> s in Desired
    ensures SheetOrder(RenameAll(RawSheets)) == Desired
  {
    var renamed := RenameAll(RawSheets);
    assert renamed == ["Index Close", "MTD %", "DoD%", "Summary", "Daily Movers", "Streaks", "Overview"];
    assert forall k :: 0 <= k < |Desired| ==> Desired[k] in renamed;
    KeepAll(Desired, renamed);
  }

  /** Keeping the wanted names that are all present keeps them all. */
  lemma {:induction false} KeepAll(wanted: seq<string>, present: seq<string>)
    requires forall k :: 0 <= k < |wanted| ==> wanted[k] in present
    ensures KeepPresent(wanted, present) == wanted
  {
    if wanted != [] {
      KeepAll(wanted[1..], present);
    }
  }
}
