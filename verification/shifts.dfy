/** The roster's cells and the classification of shift codes. */
module Shifts {
  import opened Text

  /** One roster cell: the sheet is read as text, so a cell holds a string or is missing. */
  datatype Cell = Absent | Present(text: string)

  /** A roster table: one row per person, one cell per column. */
  type Table = seq<seq<Cell>>

  predicate Rectangular(t: Table, width: nat) {
    forall r :: 0 <= r < |t| ==> |t[r]| == width
  }

  /** What str() makes of a cell: a missing value prints as "nan". */
  function CellText(c: Cell): string {
    match c
    case Absent => "nan"
    case Present(s) => s
  }

  /** The code as the submission form reads it: empty when missing, otherwise stripped. */
  function CodeOf(c: Cell): (code: string)
    ensures c.Absent? ==> code == []
  {
    match c
    case Absent => ""
    case Present(s) => Strip(s)
  }

  /** The code read from a cell has no surrounding whitespace and classifies as the cell does. */
  lemma CodeOfShape(c: Cell)
    ensures Strip(CodeOf(c)) == CodeOf(c)
    ensures c.Present? ==> Normalize(CodeOf(c)) == Normalize(c.text)
  {
    if c.Present? {
      StripIdempotent(c.text);
      StripKeepsCode(c.text);
    }
  }

  /** The form every rule compares. The source upper-cases and then strips; stripping
      first is the same thing (NormalizeIsUpperThenStrip) and is the order used here. */
  function Normalize(code: string): string {
    Upper(Strip(code))
  }

  /** Normalize agrees with str(code).upper().strip(). */
  lemma NormalizeIsUpperThenStrip(code: string)
    ensures Normalize(code) == Strip(Upper(code))
  {
    StripUpperCommute(code);
  }

  const NightCodes: set<string> := {"N", "NC", "NDM"}
  const DayCodes: set<string> := {"D", "DC", "DDM"}
  /** Codes that may be swapped without a supervisor. */
  const AllowedAutoCodes: set<string> := {"D", "N", "R", "X", "DC", "NC", "DDM", "NDM"}
  /** Working codes counted by the staffing rule; the management variants DDM/NDM are not. */
  const StaffCodes: set<string> := {"D", "N", "DC", "NC"}

  /** is_night: the code, upper-cased and then stripped, is N, NC or NDM; such a code is
      never a day code. */
  predicate IsNight(code: string): (b: bool)
    ensures b <==> Strip(Upper(code)) in NightCodes
    ensures b ==> Normalize(code) !in DayCodes
  {
    NormalizeIsUpperThenStrip(code);
    Normalize(code) in NightCodes
  }

  /** is_day: the code, upper-cased and then stripped, is D, DC or DDM; such a code is
      never a night code. */
  predicate IsDay(code: string): (b: bool)
    ensures b <==> Strip(Upper(code)) in DayCodes
    ensures b ==> !IsNight(code)
  {
    NormalizeIsUpperThenStrip(code);
    Normalize(code) in DayCodes
  }

  /** A working day: the cell holds a day or a night code. A missing cell reads as "nan"
      and never works. */
  predicate IsWorking(c: Cell): (b: bool)
    ensures c.Absent? ==> !b
    ensures b <==> Normalize(CellText(c)) in NightCodes + DayCodes
  {
    if c.Absent? then
      assert Strip("nan") == "nan" by {
        assert TrimLeft("nan") == "nan" && TrimRight("nan") == "nan";
      }
      assert Normalize("nan") == "NAN";
      false
    else IsDay(CellText(c)) || IsNight(CellText(c))
  }

  /** No code is both a night and a day; every working cell is exactly one of the two. */
  lemma NightDayDisjoint(code: string)
    ensures !(IsNight(code) && IsDay(code))
    ensures IsWorking(Present(code)) ==> (IsNight(code) <==> !IsDay(code))
  {
  }

  /** The management codes DDM and NDM are working codes but never staff codes. */
  lemma ManagementCodesWorkButDoNotStaff(code: string)
    requires Normalize(code) in {"DDM", "NDM"}
    ensures IsWorking(Present(code))
    ensures Normalize(code) !in StaffCodes
  {
  }

  /** Stripping a code before classifying it changes nothing. */
  lemma {:induction false} StripKeepsCode(s: string)
    ensures Normalize(Strip(s)) == Normalize(s)
  {
    StripIdempotent(s);
  }
}
