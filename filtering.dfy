/** Row selection (app.py:78-87): an inclusive year range, then an equality test on the
    state and one on the sector, each skipped when its sentinel was chosen. */
module Filtering {
  import opened Panel
  import opened Seqs

  /** The mask of app.py:79-80: both bounds of the year range are inclusive. */
  function YearMask(firstYear: int, lastYear: int): Row -> bool {
    (r: Row) => firstYear <= r.year <= lastYear
  }

  /** The mask of app.py:84. */
  function StateMask(state: string): Row -> bool {
    (r: Row) => r.geoName == state
  }

  /** The mask of app.py:87. */
  function SectorMask(sector: string): Row -> bool {
    (r: Row) => r.oceanSector == sector
  }

  /** A row is shown exactly when its year lies in the range, its state is the chosen
      one or "All States" was chosen, and likewise for its sector. */
  predicate Matches(sel: Selection, r: Row) {
    && sel.firstYear <= r.year <= sel.lastYear
    && (sel.state == AllStates || r.geoName == sel.state)
    && (sel.sector == AllSectors || r.oceanSector == sel.sector)
  }

  function SelectionMask(sel: Selection): Row -> bool {
    (r: Row) => Matches(sel, r)
  }

  /** The selected rows, stated as one conjunctive mask. */
  function SelectRows(panel: seq<Row>, sel: Selection): (kept: seq<Row>)
    ensures forall i :: 0 <= i < |kept| ==> kept[i] in panel && Matches(sel, kept[i])
    ensures forall i :: 0 <= i < |panel| && Matches(sel, panel[i]) ==> panel[i] in kept
  {
    Filter(panel, SelectionMask(sel))
  }

  /** The state mask applied only when a state was chosen (app.py:83-84): the rows of
      that state, or all rows for "All States". */
  function ByState(rows: seq<Row>, state: string): (kept: seq<Row>)
    ensures forall i :: 0 <= i < |kept| ==> kept[i] in rows && (state == AllStates || kept[i].geoName == state)
    ensures forall i :: 0 <= i < |rows| && (state == AllStates || rows[i].geoName == state) ==> rows[i] in kept
  {
    if state != AllStates then Filter(rows, StateMask(state)) else rows
  }

  /** The sector mask applied only when a sector was chosen (app.py:86-87): the rows of
      that sector, or all rows for "All Sectors". */
  function BySector(rows: seq<Row>, sector: string): (kept: seq<Row>)
    ensures forall i :: 0 <= i < |kept| ==> kept[i] in rows && (sector == AllSectors || kept[i].oceanSector == sector)
    ensures forall i :: 0 <= i < |rows| && (sector == AllSectors || rows[i].oceanSector == sector) ==> rows[i] in kept
  {
    if sector != AllSectors then Filter(rows, SectorMask(sector)) else rows
  }

  /** Selection only removes rows: what is left is a subsequence of the panel (contents
      and order unchanged), and every matching row keeps all of its occurrences. */
  lemma SelectRowsKeepsRows(panel: seq<Row>, sel: Selection)
    ensures IsSubsequence(SelectRows(panel, sel), panel)
    ensures forall r :: multiset(SelectRows(panel, sel))[r] == if Matches(sel, r) then multiset(panel)[r] else 0
  {
    FilterIsSubsequence(panel, SelectionMask(sel));
    forall r
      ensures multiset(SelectRows(panel, sel))[r] == if Matches(sel, r) then multiset(panel)[r] else 0
    {
      FilterCount(panel, SelectionMask(sel), r);
    }
  }

  /** The cascade the script runs -- years, then state, then sector -- selects exactly
      the rows of the conjunctive mask. */
  lemma CascadeIsSelection(panel: seq<Row>, sel: Selection)
    ensures BySector(ByState(Filter(panel, YearMask(sel.firstYear, sel.lastYear)), sel.state), sel.sector)
         == SelectRows(panel, sel)
  {
    var years := YearMask(sel.firstYear, sel.lastYear);
    var states := StateMask(sel.state);
    var sectors := SectorMask(sel.sector);
    if sel.state != AllStates {
      FilterFuse(panel, years, states);
      if sel.sector != AllSectors {
        FilterFuse(panel, Both(years, states), sectors);
        FilterSameMask(panel, Both(Both(years, states), sectors), SelectionMask(sel));
      } else {
        FilterSameMask(panel, Both(years, states), SelectionMask(sel));
      }
    } else {
      if sel.sector != AllSectors {
        FilterFuse(panel, years, sectors);
        FilterSameMask(panel, Both(years, sectors), SelectionMask(sel));
      } else {
        FilterSameMask(panel, years, SelectionMask(sel));
      }
    }
  }

  /** The two optional masks may be applied in either order with the same result. */
  lemma StateAndSectorCommute(rows: seq<Row>, state: string, sector: string)
    ensures BySector(ByState(rows, state), sector) == ByState(BySector(rows, sector), state)
  {
    if state != AllStates && sector != AllSectors {
      FilterCommutes(rows, StateMask(state), SectorMask(sector));
    }
  }
}
