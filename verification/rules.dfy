/** The swap rule engine: run counting, the staffing count and the four rules that
    validate_swap applies to a copy of the roster with two cells exchanged. */
module Rules {
  import opened Wrappers
  import opened Text
  import opened Shifts
  import opened Calendar

  /** Longest allowed stretch of consecutive working days. */
  const MaxConsecutive: nat := 6

  /** The cells of a live roster array, read as a table value. */
  ghost function Grid(a: array2<Cell>): (g: Table)
    reads a
    ensures |g| == a.Length0 && Rectangular(g, a.Length1)
  {
    seq(a.Length0, i requires 0 <= i < a.Length0 reads a =>
      seq(a.Length1, j requires 0 <= j < a.Length1 reads a => a[i, j]))
  }

  /** df.copy(deep=True): a copy of every cell that later writes to the roster cannot reach. */
  method CopyTable(a: array2<Cell>) returns (t: Table)
    ensures t == Grid(a)
  {
    t := [];
    var i := 0;
    while i < a.Length0
      invariant 0 <= i <= a.Length0
      invariant t == Grid(a)[..i]
    {
      var row: seq<Cell> := [];
      var j := 0;
      while j < a.Length1
        invariant 0 <= j <= a.Length1
        invariant row == Grid(a)[i][..j]
      {
        row := row + [a[i, j]];
        j := j + 1;
      }
      assert row == Grid(a)[i];
      t := t + [row];
      i := i + 1;
    }
  }

  predicate ColumnsIn(cols: seq<nat>, width: nat) {
    forall i :: 0 <= i < |cols| ==> cols[i] < width
  }

  predicate Distinct(cols: seq<nat>) {
    forall i, j :: 0 <= i < j < |cols| ==> cols[i] != cols[j]
  }

  /** One person's working days along the ordered date columns: true where the cell holds
      a day or night code. */
  function WorkLane(t: Table, row: nat, cols: seq<nat>): (w: seq<bool>)
    requires row < |t| && ColumnsIn(cols, |t[row]|)
    ensures |w| == |cols|
  {
    seq(|cols|, i requires 0 <= i < |cols| => IsWorking(t[row][cols[i]]))
  }

  /** Working days immediately before position i. */
  function LeftRun(w: seq<bool>, i: nat): nat
    requires i <= |w|
  {
    if i == 0 || !w[i - 1] then 0 else 1 + LeftRun(w, i - 1)
  }

  /** Working days immediately after position i. */
  function RightRun(w: seq<bool>, i: nat): nat
    requires i < |w|
    decreases |w| - i
  {
    if i + 1 >= |w| || !w[i + 1] then 0 else 1 + RightRun(w, i + 1)
  }

  /** What count_consecutive returns: both neighbouring runs plus position i itself. */
  function RunLength(w: seq<bool>, i: nat): nat
    requires i < |w|
  {
    LeftRun(w, i) + RightRun(w, i) + 1
  }

  /** [lo, hi] contains i, every other day in it is a working day, and it cannot be widened. */
  predicate MaximalRun(w: seq<bool>, i: nat, lo: nat, hi: nat) {
    && lo <= i <= hi < |w|
    && (forall j :: lo <= j <= hi && j != i ==> w[j])
    && (lo == 0 || !w[lo - 1])
    && (hi == |w| - 1 || !w[hi + 1])
  }

  lemma {:induction false} LeftRunSpan(w: seq<bool>, i: nat)
    requires i <= |w|
    ensures LeftRun(w, i) <= i
    ensures forall j :: i - LeftRun(w, i) <= j < i ==> w[j]
    ensures i - LeftRun(w, i) == 0 || !w[i - LeftRun(w, i) - 1]
    decreases i
  {
    if i > 0 && w[i - 1] {
      LeftRunSpan(w, i - 1);
    }
  }

  lemma {:induction false} RightRunSpan(w: seq<bool>, i: nat)
    requires i < |w|
    ensures i + RightRun(w, i) < |w|
    ensures forall j :: i < j <= i + RightRun(w, i) ==> w[j]
    ensures i + RightRun(w, i) == |w| - 1 || !w[i + RightRun(w, i) + 1]
    decreases |w| - i
  {
    if i + 1 < |w| && w[i + 1] {
      RightRunSpan(w, i + 1);
    }
  }

  /** The count lies between 1 and the number of date columns, and it is 1 exactly
      when neither neighbour of i is a working day. */
  lemma RunBounds(w: seq<bool>, i: nat)
    requires i < |w|
    ensures 1 <= RunLength(w, i) <= |w|
    ensures RunLength(w, i) == 1 <==> (i == 0 || !w[i - 1]) && (i + 1 == |w| || !w[i + 1])
  {
    LeftRunSpan(w, i);
    RightRunSpan(w, i);
  }

  /** The count is the length of the maximal stretch around i whose other days all work. */
  lemma RunLengthIsMaximalRun(w: seq<bool>, i: nat)
    requires i < |w|
    ensures LeftRun(w, i) <= i
    ensures MaximalRun(w, i, i - LeftRun(w, i), i + RightRun(w, i))
  {
    LeftRunSpan(w, i);
    RightRunSpan(w, i);
  }

  /** That stretch is unique: any maximal stretch around i has the counted length. */
  lemma MaximalRunUnique(w: seq<bool>, i: nat, lo: nat, hi: nat)
    requires MaximalRun(w, i, lo, hi)
    ensures RunLength(w, i) == hi - lo + 1
  {
    RunLengthIsMaximalRun(w, i);
  }

  /** Position i itself is counted whatever it holds: a rest day between two runs of
      three working days still counts as seven. */
  lemma RestDayInTheMiddleIsCounted()
    ensures RunLength([true, true, true, false, true, true, true], 3) == 7
  {
    var w := [true, true, true, false, true, true, true];
    assert MaximalRun(w, 3, 0, 6);
    MaximalRunUnique(w, 3, 0, 6);
  }

  /** The leftward scan of count_consecutive: working cells immediately before idx. */
  method ScanLeft(t: Table, row: nat, cols: seq<nat>, idx: nat) returns (left: nat)
    requires row < |t| && ColumnsIn(cols, |t[row]|) && idx < |cols|
    ensures left == LeftRun(WorkLane(t, row, cols), idx)
  {
    ghost var w := WorkLane(t, row, cols);
    left := 0;
    var i: int := idx - 1;
    while i >= 0 && IsWorking(t[row][cols[i]])
      invariant -1 <= i < idx
      invariant left + LeftRun(w, i + 1) == LeftRun(w, idx)
    {
      assert w[i];
      left := left + 1;
      i := i - 1;
    }
    assert i >= 0 ==> !w[i];
  }

  /** The rightward scan of count_consecutive: working cells immediately after idx. */
  method ScanRight(t: Table, row: nat, cols: seq<nat>, idx: nat) returns (right: nat)
    requires row < |t| && ColumnsIn(cols, |t[row]|) && idx < |cols|
    ensures right == RightRun(WorkLane(t, row, cols), idx)
  {
    ghost var w := WorkLane(t, row, cols);
    right := 0;
    var i := idx + 1;
    while i < |cols| && IsWorking(t[row][cols[i]])
      invariant idx < i <= |cols|
      invariant right + RightRun(w, i - 1) == RightRun(w, idx)
    {
      assert w[i];
      right := right + 1;
      i := i + 1;
    }
    assert i < |cols| ==> !w[i];
  }

  /** count_consecutive: scan left, then right, from idx while the cell is a working code. */
  method CountConsecutive(t: Table, row: nat, cols: seq<nat>, idx: nat) returns (n: nat)
    requires row < |t| && ColumnsIn(cols, |t[row]|) && idx < |cols|
    ensures n == RunLength(WorkLane(t, row, cols), idx)
    ensures 1 <= n <= |cols|
  {
    var left := ScanLeft(t, row, cols, idx);
    var right := ScanRight(t, row, cols, idx);
    n := left + right + 1;
    RunBounds(WorkLane(t, row, cols), idx);
  }

  /** A row counts towards the staffing limit when its code in the column is one of
      D/N/DC/NC and the name in the first column is marked inexperienced. */
  predicate CountsAsInexperienced(row: seq<Cell>, col: nat, inexperienced: set<string>)
    requires col < |row|
  {
    Normalize(CellText(row[col])) in StaffCodes && CellText(row[0]) in inexperienced
  }

  predicate HasColumn(t: Table, col: nat) {
    forall r :: 0 <= r < |t| ==> col < |t[r]|
  }

  /** Which rows of the table count towards the staffing limit in the column. */
  function StaffFlags(t: Table, col: nat, inexperienced: set<string>): (f: seq<bool>)
    requires HasColumn(t, col)
    ensures |f| == |t|
  {
    seq(|t|, r requires 0 <= r < |t| => CountsAsInexperienced(t[r], col, inexperienced))
  }

  /** The number of true entries, counted from the front. */
  function CountTrue(b: seq<bool>): (n: nat)
    ensures n <= |b|
    decreases |b|
  {
    if b == [] then 0 else CountTrue(b[..|b| - 1]) + (if b[|b| - 1] then 1 else 0)
  }

  ghost function TrueAt(b: seq<bool>): set<nat> {
    set r: nat | r < |b| && b[r]
  }

  /** The count is the number of positions holding true. */
  lemma {:induction false} CountTrueIsCardinality(b: seq<bool>)
    ensures CountTrue(b) == |TrueAt(b)|
    decreases |b|
  {
    if b != [] {
      var p := b[..|b| - 1];
      CountTrueIsCardinality(p);
      if b[|b| - 1] {
        assert TrueAt(b) == TrueAt(p) + {|b| - 1};
      } else {
        assert TrueAt(b) == TrueAt(p);
      }
    }
  }

  /** The count exceeds one exactly when two different positions hold true. */
  lemma CountTrueOverOne(b: seq<bool>)
    ensures CountTrue(b) > 1 <==> exists r1, r2 :: 0 <= r1 < r2 < |b| && b[r1] && b[r2]
  {
    CountTrueIsCardinality(b);
    var s := TrueAt(b);
    if |s| > 1 {
      var x :| x in s;
      assert |s - {x}| == |s| - 1;
      var y :| y in s - {x};
      if x < y {
        assert b[x] && b[y];
      } else {
        assert b[y] && b[x];
      }
    }
    if exists r1, r2 :: 0 <= r1 < r2 < |b| && b[r1] && b[r2] {
      var r1, r2 :| 0 <= r1 < r2 < |b| && b[r1] && b[r2];
      TwoMembers(s, r1, r2);
    }
  }

  /** A set holding two different elements has more than one. */
  lemma TwoMembers<T>(s: set<T>, x: T, y: T)
    requires x in s && y in s && x != y
    ensures |s| > 1
  {
    assert y in s - {x};
    assert |s - {x}| == |s| - 1;
  }

  /** The staffing tally of a column. */
  function InexperiencedTally(t: Table, col: nat, inexperienced: set<string>): nat
    requires HasColumn(t, col)
  {
    CountTrue(StaffFlags(t, col, inexperienced))
  }

  /** The tally never exceeds the rows, and it exceeds one exactly when two different
      rows hold D/N/DC/NC in the column under names marked inexperienced. */
  lemma TallyMeaning(t: Table, col: nat, inexperienced: set<string>)
    requires HasColumn(t, col)
    ensures InexperiencedTally(t, col, inexperienced) <= |t|
    ensures InexperiencedTally(t, col, inexperienced) > 1 <==>
      exists r1, r2 :: 0 <= r1 < r2 < |t|
        && CountsAsInexperienced(t[r1], col, inexperienced)
        && CountsAsInexperienced(t[r2], col, inexperienced)
  {
    var f := StaffFlags(t, col, inexperienced);
    assert forall r :: 0 <= r < |f| ==> f[r] == CountsAsInexperienced(t[r], col, inexperienced);
    CountTrueOverOne(f);
  }

  /** inexperienced_count: tally the rows of the column in one pass. */
  method InexperiencedCount(t: Table, col: nat, inexperienced: set<string>) returns (cnt: nat)
    requires HasColumn(t, col)
    ensures cnt == InexperiencedTally(t, col, inexperienced)
  {
    ghost var f := StaffFlags(t, col, inexperienced);
    cnt := 0;
    for r := 0 to |t|
      invariant cnt == CountTrue(f[..r])
    {
      assert f[..r + 1][..r] == f[..r];
      var code := Normalize(CellText(t[r][col]));
      if code in StaffCodes {
        var name := CellText(t[r][0]);
        if name in inexperienced {
          cnt := cnt + 1;
        }
      }
    }
    assert f[..|t|] == f;
  }

  /** A proposed swap: the requester's row and date position, the partner's row and date position. */
  datatype Swap = Swap(ra: nat, ia: nat, rb: nat, ib: nat)

  predicate SwapFits(t: Table, width: nat, cols: seq<nat>, s: Swap) {
    && Rectangular(t, width)
    && ColumnsIn(cols, width)
    && s.ra < |t| && s.rb < |t|
    && s.ia < |cols| && s.ib < |cols|
  }

  /** The copy validate_swap judges. Exactly two cells differ from the roster: the requester's
      holds the partner's stripped code and then the partner's holds the requester's (so
      when both name one cell, that cell ends up with the requester's code). */
  function SwapCopy(t: Table, width: nat, cols: seq<nat>, s: Swap): (t2: Table)
    requires SwapFits(t, width, cols, s)
    ensures |t2| == |t| && Rectangular(t2, width)
  {
    var ca, cb := cols[s.ia], cols[s.ib];
    var a := Strip(CellText(t[s.ra][ca]));
    var b := Strip(CellText(t[s.rb][cb]));
    var t1 := t[s.ra := t[s.ra][ca := Present(b)]];
    t1[s.rb := t1[s.rb][cb := Present(a)]]
  }

  /** Exactly two cells of the copy differ from the roster: the partner's holds the
      requester's stripped code, the requester's holds the partner's; when both name
      one cell, the requester's code is the one left there. */
  lemma SwapCopyCells(t: Table, width: nat, cols: seq<nat>, s: Swap, r: nat, c: nat)
    requires SwapFits(t, width, cols, s) && r < |t| && c < width
    ensures SwapCopy(t, width, cols, s)[r][c] ==
      if r == s.rb && c == cols[s.ib] then Present(Strip(CellText(t[s.ra][cols[s.ia]])))
      else if r == s.ra && c == cols[s.ia] then Present(Strip(CellText(t[s.rb][cols[s.ib]])))
      else t[r][c]
  {
  }

  /** The reasons validate_swap can give, in the order it checks them. */
  datatype Reason =
    | RequesterNightToDay
    | PartnerNightToDay
    | RequesterOverMaxConsecutive
    | PartnerOverMaxConsecutive
    | InexperiencedOnRequesterDate
    | InexperiencedOnPartnerDate
    | OutsideMonthRange

  /** The text validate_swap appends for each reason. */
  function Message(reason: Reason): (text: string)
    ensures |text| == [44, 42, 51, 49, 57, 55, 46][Rank(reason)]
  {
    match reason
    case RequesterNightToDay => "Requester would have Night→Day without rest."
    case PartnerNightToDay => "Partner would have Night→Day without rest."
    case RequesterOverMaxConsecutive => "Requester would exceed max consecutive shifts (>6)."
    case PartnerOverMaxConsecutive => "Partner would exceed max consecutive shifts (>6)."
    case InexperiencedOnRequesterDate => "More than 1 inexperienced controller on requester's date."
    case InexperiencedOnPartnerDate => "More than 1 inexperienced controller on partner's date."
    case OutsideMonthRange => "Swaps allowed only for current and next month."
  }

  /** Different reasons have different texts, so a request that records its reasons as
      Reason values keeps exactly what the recorded texts say. */
  lemma MessageInjective(r1: Reason, r2: Reason)
    ensures Message(r1) == Message(r2) <==> r1 == r2
  {
    LengthsDistinct(Rank(r1), Rank(r2));
    RankChecked(r1);
    RankChecked(r2);
  }

  lemma LengthsDistinct(i: nat, j: nat)
    requires i < 7 && j < 7
    ensures [44, 42, 51, 49, 57, 55, 46][i] == [44, 42, 51, 49, 57, 55, 46][j] ==> i == j
  {
  }

  /** Each reason is the one checked at its rank. */
  lemma RankChecked(r: Reason)
    ensures Rank(r) < 7 && Checked(Rank(r)) == r
  {
    match r
    case RequesterNightToDay =>
    case PartnerNightToDay =>
    case RequesterOverMaxConsecutive =>
    case PartnerOverMaxConsecutive =>
    case InexperiencedOnRequesterDate =>
    case InexperiencedOnPartnerDate =>
    case OutsideMonthRange =>
  }

  /** Position of a reason in the order the checks run. */
  function Rank(r: Reason): nat {
    match r
    case RequesterNightToDay => 0
    case PartnerNightToDay => 1
    case RequesterOverMaxConsecutive => 2
    case PartnerOverMaxConsecutive => 3
    case InexperiencedOnRequesterDate => 4
    case InexperiencedOnPartnerDate => 5
    case OutsideMonthRange => 6
  }

  function When(b: bool, r: Reason): seq<Reason> {
    if b then [r] else []
  }

  /** The person in the row has a night at date position i and a day at the next position. */
  predicate NightThenDay(t: Table, row: nat, cols: seq<nat>, i: nat): (b: bool)
    requires row < |t| && ColumnsIn(cols, |t[row]|) && i < |cols|
    ensures b ==> i + 1 < |cols|
    ensures b ==> IsWorking(t[row][cols[i]]) && IsWorking(t[row][cols[i + 1]])
    ensures b ==> t[row][cols[i]] != t[row][cols[i + 1]]
  {
    IsNight(CellText(t[row][cols[i]])) && i + 1 < |cols| && IsDay(CellText(t[row][cols[i + 1]]))
  }

  /** Either date is unresolved or falls outside the reference month and the next one. */
  predicate OutsideHorizon(headers: seq<string>, cols: seq<nat>, s: Swap, parse: HeaderParser): (b: bool)
    requires ColumnsIn(cols, |headers|) && s.ia < |cols| && s.ib < |cols|
    ensures !b <==>
      && parse(headers[cols[s.ia]]).Some? && parse(headers[cols[s.ib]]).Some?
      && parse(headers[cols[s.ia]]).value.year == 2026 && parse(headers[cols[s.ia]]).value.month <= 2
      && parse(headers[cols[s.ib]]).value.year == 2026 && parse(headers[cols[s.ib]]).value.month <= 2
  {
    var ca := parse(headers[cols[s.ia]]);
    var cb := parse(headers[cols[s.ib]]);
    if ca.None? || cb.None? then true
    else
      InHorizonIff(ca.value);
      InHorizonIff(cb.value);
      !InHorizon(ca.value) || !InHorizon(cb.value)
  }

  /** The outcome of each of the seven checks, in the order validate_swap runs them. */
  datatype Verdicts = Verdicts(nightA: bool, nightB: bool, runA: bool, runB: bool,
                               inexpA: bool, inexpB: bool, month: bool)

  /** Whether the verdicts raise a given reason. */
  predicate Raised(v: Verdicts, r: Reason) {
    match r
    case RequesterNightToDay => v.nightA
    case PartnerNightToDay => v.nightB
    case RequesterOverMaxConsecutive => v.runA
    case PartnerOverMaxConsecutive => v.runB
    case InexperiencedOnRequesterDate => v.inexpA
    case InexperiencedOnPartnerDate => v.inexpB
    case OutsideMonthRange => v.month
  }

  /** The reason list: one entry per check that fired, in check order. */
  function Listed(v: Verdicts): seq<Reason> {
    When(v.nightA, RequesterNightToDay)
    + When(v.nightB, PartnerNightToDay)
    + When(v.runA, RequesterOverMaxConsecutive)
    + When(v.runB, PartnerOverMaxConsecutive)
    + When(v.inexpA, InexperiencedOnRequesterDate)
    + When(v.inexpB, InexperiencedOnPartnerDate)
    + When(v.month, OutsideMonthRange)
  }

  /** Whether a table fits a swap's rows and date positions. */
  predicate CheckFits(t: Table, headers: seq<string>, cols: seq<nat>, s: Swap) {
    && Rectangular(t, |headers|)
    && ColumnsIn(cols, |headers|)
    && s.ra < |t| && s.rb < |t|
    && s.ia < |cols| && s.ib < |cols|
  }

  /** The seven checks of validate_swap, judged on a table t2 (the swapped copy). */
  function Judge(t2: Table, headers: seq<string>, cols: seq<nat>, s: Swap,
                 inexperienced: set<string>, parse: HeaderParser): Verdicts
    requires CheckFits(t2, headers, cols, s)
  {
    Verdicts(
      NightThenDay(t2, s.ra, cols, s.ia),
      NightThenDay(t2, s.rb, cols, s.ib),
      RunLength(WorkLane(t2, s.ra, cols), s.ia) > MaxConsecutive,
      RunLength(WorkLane(t2, s.rb, cols), s.ib) > MaxConsecutive,
      InexperiencedTally(t2, cols[s.ia], inexperienced) > 1,
      InexperiencedTally(t2, cols[s.ib], inexperienced) > 1,
      OutsideHorizon(headers, cols, s, parse))
  }

  /** The reasons validate_swap returns for swap s on roster t. */
  function Reasons(t: Table, headers: seq<string>, cols: seq<nat>, s: Swap,
                   inexperienced: set<string>, parse: HeaderParser): seq<Reason>
    requires SwapFits(t, |headers|, cols, s)
  {
    Listed(Judge(SwapCopy(t, |headers|, cols, s), headers, cols, s, inexperienced, parse))
  }

  /** validate_swap: exchange the two codes on a deep copy and apply the rules to the
      copy; the roster array itself is only read. */
  method ValidateSwap(df: array2<Cell>, headers: seq<string>, cols: seq<nat>, s: Swap,
                      inexperienced: set<string>, parse: HeaderParser) returns (reasons: seq<Reason>)
    requires df.Length1 == |headers| && ColumnsIn(cols, |headers|)
    requires s.ra < df.Length0 && s.rb < df.Length0 && s.ia < |cols| && s.ib < |cols|
    ensures reasons == Reasons(Grid(df), headers, cols, s, inexperienced, parse)
  {
    var df2 := CopyTable(df);
    var ca, cb := cols[s.ia], cols[s.ib];
    var aCode := Strip(CellText(df2[s.ra][ca]));
    var bCode := Strip(CellText(df2[s.rb][cb]));
    df2 := df2[s.ra := df2[s.ra][ca := Present(bCode)]];
    df2 := df2[s.rb := df2[s.rb][cb := Present(aCode)]];
    assert df2 == SwapCopy(Grid(df), |headers|, cols, s);
    reasons := ApplyRules(df2, headers, cols, s, inexperienced, parse);
  }

  /** The rules validate_swap applies to the swapped copy t2, in order, appending a
      reason for each rule that fires. */
  method ApplyRules(t2: Table, headers: seq<string>, cols: seq<nat>, s: Swap,
                    inexperienced: set<string>, parse: HeaderParser) returns (reasons: seq<Reason>)
    requires CheckFits(t2, headers, cols, s)
    ensures reasons == Listed(Judge(t2, headers, cols, s, inexperienced, parse))
  {
    var ca, cb := cols[s.ia], cols[s.ib];
    reasons := [];

    // night followed by day
    var nightA := NightThenDay(t2, s.ra, cols, s.ia);
    reasons := reasons + When(nightA, RequesterNightToDay);
    var nightB := NightThenDay(t2, s.rb, cols, s.ib);
    reasons := reasons + When(nightB, PartnerNightToDay);

    // maximum consecutive working days
    var runA := CountConsecutive(t2, s.ra, cols, s.ia);
    reasons := reasons + When(runA > MaxConsecutive, RequesterOverMaxConsecutive);
    var runB := CountConsecutive(t2, s.rb, cols, s.ib);
    reasons := reasons + When(runB > MaxConsecutive, PartnerOverMaxConsecutive);

    // inexperienced limit
    var countA := InexperiencedCount(t2, ca, inexperienced);
    reasons := reasons + When(countA > 1, InexperiencedOnRequesterDate);
    var countB := InexperiencedCount(t2, cb, inexperienced);
    reasons := reasons + When(countB > 1, InexperiencedOnPartnerDate);

    // month range
    var month := OutsideHorizon(headers, cols, s, parse);
    reasons := reasons + When(month, OutsideMonthRange);

    ghost var v := Verdicts(nightA, nightB, runA > MaxConsecutive, runB > MaxConsecutive,
                            countA > 1, countB > 1, month);
    assert [] + When(nightA, RequesterNightToDay) == When(nightA, RequesterNightToDay);
    assert reasons == Listed(v);
    assert v == Judge(t2, headers, cols, s, inexperienced, parse);
  }

  predicate RankIncreasing(rs: seq<Reason>) {
    forall i, j :: 0 <= i < j < |rs| ==> Rank(rs[i]) < Rank(rs[j])
  }

  predicate RanksBelow(rs: seq<Reason>, k: nat) {
    forall i :: 0 <= i < |rs| ==> Rank(rs[i]) < k
  }

  /** Appending a later check's reason keeps the list in check order. */
  lemma AppendInOrder(p: seq<Reason>, b: bool, r: Reason)
    requires RankIncreasing(p) && RanksBelow(p, Rank(r)) && |p| <= Rank(r)
    ensures RankIncreasing(p + When(b, r)) && RanksBelow(p + When(b, r), Rank(r) + 1)
    ensures |p + When(b, r)| <= Rank(r) + 1
  {
  }

  lemma InWhen(p: seq<Reason>, b: bool, r: Reason, x: Reason)
    ensures x in p + When(b, r) <==> x in p || (b && x == r)
  {
  }

  /** A reason is listed exactly when its check fired. */
  lemma ListedMember(v: Verdicts, x: Reason)
    ensures x in Listed(v) <==> Raised(v, x)
  {
    var p0 := When(v.nightA, RequesterNightToDay);
    var p1 := p0 + When(v.nightB, PartnerNightToDay);
    InWhen(p0, v.nightB, PartnerNightToDay, x);
    var p2 := p1 + When(v.runA, RequesterOverMaxConsecutive);
    InWhen(p1, v.runA, RequesterOverMaxConsecutive, x);
    var p3 := p2 + When(v.runB, PartnerOverMaxConsecutive);
    InWhen(p2, v.runB, PartnerOverMaxConsecutive, x);
    var p4 := p3 + When(v.inexpA, InexperiencedOnRequesterDate);
    InWhen(p3, v.inexpA, InexperiencedOnRequesterDate, x);
    var p5 := p4 + When(v.inexpB, InexperiencedOnPartnerDate);
    InWhen(p4, v.inexpB, InexperiencedOnPartnerDate, x);
    InWhen(p5, v.month, OutsideMonthRange, x);
  }

  /** The list follows check order, each reason at most once, so it never holds more than seven. */
  lemma ListedOrdered(v: Verdicts)
    ensures RankIncreasing(Listed(v)) && |Listed(v)| <= 7
  {
    FirstChecksOrdered(v, 7);
    ListedIsFirstChecks(v);
  }

  /** The reason list is what the seven checks raise, one check at a time. */
  lemma ListedIsFirstChecks(v: Verdicts)
    ensures Listed(v) == FirstChecks(v, 7)
  {
    assert FirstChecks(v, 1) == When(v.nightA, RequesterNightToDay);
    assert FirstChecks(v, 2) == FirstChecks(v, 1) + When(v.nightB, PartnerNightToDay);
    assert FirstChecks(v, 3) == FirstChecks(v, 2) + When(v.runA, RequesterOverMaxConsecutive);
    assert FirstChecks(v, 4) == FirstChecks(v, 3) + When(v.runB, PartnerOverMaxConsecutive);
    assert FirstChecks(v, 5) == FirstChecks(v, 4) + When(v.inexpA, InexperiencedOnRequesterDate);
    assert FirstChecks(v, 6) == FirstChecks(v, 5) + When(v.inexpB, InexperiencedOnPartnerDate);
    assert FirstChecks(v, 7) == FirstChecks(v, 6) + When(v.month, OutsideMonthRange);
  }

  /** The reason of the check that runs k-th, counting from 0. */
  function Checked(k: nat): (r: Reason)
    requires k < 7
    ensures Rank(r) == k
  {
    if k == 0 then RequesterNightToDay
    else if k == 1 then PartnerNightToDay
    else if k == 2 then RequesterOverMaxConsecutive
    else if k == 3 then PartnerOverMaxConsecutive
    else if k == 4 then InexperiencedOnRequesterDate
    else if k == 5 then InexperiencedOnPartnerDate
    else OutsideMonthRange
  }

  /** The reasons raised by the first k checks, in the order they run. */
  function FirstChecks(v: Verdicts, k: nat): seq<Reason>
    requires k <= 7
  {
    if k == 0 then [] else FirstChecks(v, k - 1) + When(Raised(v, Checked(k - 1)), Checked(k - 1))
  }

  lemma {:induction false} FirstChecksOrdered(v: Verdicts, k: nat)
    requires k <= 7
    ensures RankIncreasing(FirstChecks(v, k)) && RanksBelow(FirstChecks(v, k), k)
    ensures |FirstChecks(v, k)| <= k
  {
    if k > 0 {
      FirstChecksOrdered(v, k - 1);
      AppendInOrder(FirstChecks(v, k - 1), Raised(v, Checked(k - 1)), Checked(k - 1));
    }
  }

  /** Staffing reasons: each fires exactly when two different rows of the swapped copy
      hold D/N/DC/NC on that date under names marked inexperienced. */
  lemma InexperiencedReasonIff(t: Table, headers: seq<string>, cols: seq<nat>, s: Swap,
                               inexperienced: set<string>, parse: HeaderParser)
    requires SwapFits(t, |headers|, cols, s)
    ensures var t2 := SwapCopy(t, |headers|, cols, s);
      var rs := Reasons(t, headers, cols, s, inexperienced, parse);
      && (InexperiencedOnRequesterDate in rs <==>
            exists r1, r2 :: 0 <= r1 < r2 < |t2|
              && CountsAsInexperienced(t2[r1], cols[s.ia], inexperienced)
              && CountsAsInexperienced(t2[r2], cols[s.ia], inexperienced))
      && (InexperiencedOnPartnerDate in rs <==>
            exists r1, r2 :: 0 <= r1 < r2 < |t2|
              && CountsAsInexperienced(t2[r1], cols[s.ib], inexperienced)
              && CountsAsInexperienced(t2[r2], cols[s.ib], inexperienced))
  {
    var v := Judge(SwapCopy(t, |headers|, cols, s), headers, cols, s, inexperienced, parse);
    ListedMember(v, InexperiencedOnRequesterDate);
    ListedMember(v, InexperiencedOnPartnerDate);
    var t2 := SwapCopy(t, |headers|, cols, s);
    TallyMeaning(t2, cols[s.ia], inexperienced);
    TallyMeaning(t2, cols[s.ib], inexperienced);
  }

  /** The month reason fires exactly when a date is unresolved or outside January-February 2026. */
  lemma MonthReasonIff(t: Table, headers: seq<string>, cols: seq<nat>, s: Swap,
                       inexperienced: set<string>, parse: HeaderParser)
    requires SwapFits(t, |headers|, cols, s)
    ensures var ca := parse(headers[cols[s.ia]]);
      var cb := parse(headers[cols[s.ib]]);
      OutsideMonthRange in Reasons(t, headers, cols, s, inexperienced, parse) <==>
        || ca.None? || cb.None?
        || !(ca.value.year == 2026 && ca.value.month <= 2)
        || !(cb.value.year == 2026 && cb.value.month <= 2)
  {
    var v := Judge(SwapCopy(t, |headers|, cols, s), headers, cols, s, inexperienced, parse);
    ListedMember(v, OutsideMonthRange);
    var ca := parse(headers[cols[s.ia]]);
    var cb := parse(headers[cols[s.ib]]);
    if ca.Some? { InHorizonIff(ca.value); }
    if cb.Some? { InHorizonIff(cb.value); }
  }

  /** On a swap of two different rows' cells on one date (what the workflow submits when
      requester and partner are different rows), each person's working days are their own
      except at that date, where they hold the other person's code. SelfSwapLane covers
      one row swapping with itself. */
  lemma SameDateLanes(t: Table, width: nat, cols: seq<nat>, ra: nat, rb: nat, i: nat)
    requires SwapFits(t, width, cols, Swap(ra, i, rb, i)) && ra != rb && Distinct(cols)
    ensures var t2 := SwapCopy(t, width, cols, Swap(ra, i, rb, i));
      && WorkLane(t2, ra, cols) == WorkLane(t, ra, cols)[i := IsWorking(t[rb][cols[i]])]
      && WorkLane(t2, rb, cols) == WorkLane(t, rb, cols)[i := IsWorking(t[ra][cols[i]])]
  {
    var t2 := SwapCopy(t, width, cols, Swap(ra, i, rb, i));
    StripKeepsCode(CellText(t[rb][cols[i]]));
    StripKeepsCode(CellText(t[ra][cols[i]]));
    assert IsWorking(t2[ra][cols[i]]) == IsWorking(t[rb][cols[i]]);
    assert IsWorking(t2[rb][cols[i]]) == IsWorking(t[ra][cols[i]]);
  }

  /** Requester and partner can be one row: the requester is matched on stripped text and
      the partner on exact text. The copy then only strips that row's code on the date,
      so the rules judge the person's own working days and every other cell is untouched. */
  lemma SelfSwapLane(t: Table, width: nat, cols: seq<nat>, r: nat, i: nat)
    requires SwapFits(t, width, cols, Swap(r, i, r, i))
    ensures var t2 := SwapCopy(t, width, cols, Swap(r, i, r, i));
      && WorkLane(t2, r, cols) == WorkLane(t, r, cols)
      && forall q, c :: 0 <= q < |t| && 0 <= c < width && (q != r || c != cols[i]) ==> t2[q][c] == t[q][c]
  {
    var t2 := SwapCopy(t, width, cols, Swap(r, i, r, i));
    StripKeepsCode(CellText(t[r][cols[i]]));
    forall k | 0 <= k < |cols| ensures WorkLane(t2, r, cols)[k] == WorkLane(t, r, cols)[k] {
      SwapCopyCells(t, width, cols, Swap(r, i, r, i), r, cols[k]);
    }
    forall q, c | 0 <= q < |t| && 0 <= c < width && (q != r || c != cols[i]) ensures t2[q][c] == t[q][c] {
      SwapCopyCells(t, width, cols, Swap(r, i, r, i), q, c);
    }
  }

  lemma {:induction false} LeftRunIgnoresFrom(w: seq<bool>, i: nat, k: nat, b: bool)
    requires i <= k < |w|
    ensures LeftRun(w[k := b], i) == LeftRun(w, i)
    decreases i
  {
    if i > 0 {
      LeftRunIgnoresFrom(w, i - 1, k, b);
    }
  }

  lemma {:induction false} RightRunIgnoresUpTo(w: seq<bool>, i: nat, k: nat, b: bool)
    requires k <= i < |w|
    ensures RightRun(w[k := b], i) == RightRun(w, i)
    decreases |w| - i
  {
    if i + 1 < |w| {
      RightRunIgnoresUpTo(w, i + 1, k, b);
    }
  }

  /** Because the count always includes the date itself, on a same-date swap between two
      different rows the consecutive rule does not depend on the codes exchanged at all: it fires for a side
      exactly when that person's own roster already has a long enough stretch around the date. */
  lemma SameDateRunIgnoresExchangedCodes(t: Table, headers: seq<string>, cols: seq<nat>,
                                         ra: nat, rb: nat, i: nat,
                                         inexperienced: set<string>, parse: HeaderParser)
    requires SwapFits(t, |headers|, cols, Swap(ra, i, rb, i)) && ra != rb && Distinct(cols)
    ensures var rs := Reasons(t, headers, cols, Swap(ra, i, rb, i), inexperienced, parse);
      && (RequesterOverMaxConsecutive in rs <==> RunLength(WorkLane(t, ra, cols), i) > MaxConsecutive)
      && (PartnerOverMaxConsecutive in rs <==> RunLength(WorkLane(t, rb, cols), i) > MaxConsecutive)
  {
    var v := Judge(SwapCopy(t, |headers|, cols, Swap(ra, i, rb, i)), headers, cols, Swap(ra, i, rb, i), inexperienced, parse);
    ListedMember(v, RequesterOverMaxConsecutive);
    ListedMember(v, PartnerOverMaxConsecutive);
    SameDateLanes(t, |headers|, cols, ra, rb, i);
    var wa, wb := WorkLane(t, ra, cols), WorkLane(t, rb, cols);
    var ba, bb := IsWorking(t[rb][cols[i]]), IsWorking(t[ra][cols[i]]);
    LeftRunIgnoresFrom(wa, i, i, ba);
    RightRunIgnoresUpTo(wa, i, i, ba);
    LeftRunIgnoresFrom(wb, i, i, bb);
    RightRunIgnoresUpTo(wb, i, i, bb);
  }

  /** On a same-date swap between two different rows the night-to-day rule reads the
      original roster: the requester
      is flagged when the partner's code is a night and the requester's own next column
      is a day, and symmetrically for the partner. */
  lemma SameDateNightToDay(t: Table, headers: seq<string>, cols: seq<nat>,
                           ra: nat, rb: nat, i: nat,
                           inexperienced: set<string>, parse: HeaderParser)
    requires SwapFits(t, |headers|, cols, Swap(ra, i, rb, i)) && ra != rb && Distinct(cols)
    ensures var rs := Reasons(t, headers, cols, Swap(ra, i, rb, i), inexperienced, parse);
      && (RequesterNightToDay in rs <==>
            IsNight(CellText(t[rb][cols[i]])) && i + 1 < |cols| && IsDay(CellText(t[ra][cols[i + 1]])))
      && (PartnerNightToDay in rs <==>
            IsNight(CellText(t[ra][cols[i]])) && i + 1 < |cols| && IsDay(CellText(t[rb][cols[i + 1]])))
  {
    var s := Swap(ra, i, rb, i);
    var t2 := SwapCopy(t, |headers|, cols, s);
    var v := Judge(t2, headers, cols, s, inexperienced, parse);
    ListedMember(v, RequesterNightToDay);
    ListedMember(v, PartnerNightToDay);
    SwapCopyCells(t, |headers|, cols, s, ra, cols[i]);
    SwapCopyCells(t, |headers|, cols, s, rb, cols[i]);
    StripKeepsCode(CellText(t[rb][cols[i]]));
    StripKeepsCode(CellText(t[ra][cols[i]]));
    if i + 1 < |cols| {
      SwapCopyCells(t, |headers|, cols, s, ra, cols[i + 1]);
      SwapCopyCells(t, |headers|, cols, s, rb, cols[i + 1]);
    }
  }
}
