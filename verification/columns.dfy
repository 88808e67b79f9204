/** Column bookkeeping: which columns of the sheet are dates, and the display labels the
    date pickers show for them. */
module Columns {
  import opened Wrappers
  import opened Text
  import opened Shifts
  import opened Calendar
  import opened Naming
  import opened Rules

  /** Lower-cased headers of the person columns, never taken as dates. */
  const FixedColumns: set<string> := {"names", "teams", "experience", "roles"}
  /** Codes that make a column look like a shift column. */
  const ScoreCodes: set<string> := AllowedAutoCodes + {"OFF", "XX", "X", "R"}
  /** How many leading cells of a column are scored. */
  const ScoredRows: nat := 8
  /** The score from which a column counts as a shift column. */
  const MinScore: nat := 2
  /** Without any detected column, every column from this position on is taken. */
  const FallbackStart: nat := 4

  /** The value scoring reads from a cell: its text, stripped, with "nan" read as empty. */
  function ScoreValue(c: Cell): string {
    var v := Strip(CellText(c));
    if v == "nan" then "" else v
  }

  predicate IsScored(c: Cell) {
    var v := ScoreValue(c);
    v != "" && Upper(v) in ScoreCodes
  }

  function Min(a: nat, b: nat): nat {
    if a <= b then a else b
  }

  /** Which of the first eight cells of column k hold a shift code. */
  function HeadFlags(rows: Table, k: nat): (f: seq<bool>)
    requires HasColumn(rows, k)
    ensures |f| == Min(ScoredRows, |rows|)
  {
    seq(Min(ScoredRows, |rows|), i requires 0 <= i < Min(ScoredRows, |rows|) => IsScored(rows[i][k]))
  }

  /** How many of the first eight cells of column k hold a shift code. */
  function ShiftCodeScore(rows: Table, k: nat): (n: nat)
    requires HasColumn(rows, k)
    ensures n <= ScoredRows && n <= |rows|
  {
    CountTrue(HeadFlags(rows, k))
  }

  /** Column k is taken as a date column: its stripped header is not empty and not a
      person column, and the header reads as a date or the column scores at least two. */
  predicate Qualifies(headers: seq<string>, rows: Table, k: nat, parse: HeaderParser): (b: bool)
    requires k < |headers| && Rectangular(rows, |headers|)
    ensures b ==> Strip(headers[k]) != []
    ensures b && parse(headers[k]).None? ==>
      exists i, j :: 0 <= i < j < Min(ScoredRows, |rows|) && IsScored(rows[i][k]) && IsScored(rows[j][k])
  {
    RectangularHasColumn(rows, |headers|, k);
    ScoreMeaning(rows, k);
    var s := Strip(headers[k]);
    && s != ""
    && Lower(s) !in FixedColumns
    && (parse(headers[k]).Some? || ShiftCodeScore(rows, k) >= MinScore)
  }

  predicate AnyQualifies(headers: seq<string>, rows: Table, parse: HeaderParser)
    requires Rectangular(rows, |headers|)
  {
    exists k :: 0 <= k < |headers| && Qualifies(headers, rows, k, parse)
  }

  predicate Increasing(cols: seq<nat>) {
    forall i, j :: 0 <= i < j < |cols| ==> cols[i] < cols[j]
  }

  lemma RectangularHasColumn(rows: Table, width: nat, k: nat)
    requires Rectangular(rows, width) && k < width
    ensures HasColumn(rows, k)
  {
  }

  /** The columns taken as dates: the qualifying ones, or every column after the fourth when
      none qualifies. */
  ghost predicate Detected(headers: seq<string>, rows: Table, parse: HeaderParser, cols: seq<nat>)
    requires Rectangular(rows, |headers|)
  {
    && (AnyQualifies(headers, rows, parse) ==>
          forall k: nat :: k in cols <==> k < |headers| && Qualifies(headers, rows, k, parse))
    && (!AnyQualifies(headers, rows, parse) ==>
          forall k: nat :: k in cols <==> FallbackStart <= k < |headers|)
  }

  /** detect_date_columns: the qualifying columns in sheet order; when none qualifies, every
      column after the fourth. */
  method DetectDateColumns(headers: seq<string>, rows: Table, parse: HeaderParser) returns (cols: seq<nat>)
    requires Rectangular(rows, |headers|)
    ensures Increasing(cols) && ColumnsIn(cols, |headers|)
    ensures Detected(headers, rows, parse, cols)
  {
    cols := [];
    for k := 0 to |headers|
      invariant Increasing(cols) && ColumnsIn(cols, k)
      invariant forall j: nat :: j in cols <==> j < k && Qualifies(headers, rows, j, parse)
    {
      var s := Strip(headers[k]);
      if s == "" {
        continue;
      }
      if Lower(s) in FixedColumns {
        continue;
      }
      if parse(headers[k]).Some? {
        cols := cols + [k];
        continue;
      }
      var score := ShiftCodeScore(rows, k);
      if score >= MinScore {
        cols := cols + [k];
      }
    }
    assert cols == [] <==> !AnyQualifies(headers, rows, parse) by {
      if cols != [] {
        assert cols[0] in cols;
      }
      if AnyQualifies(headers, rows, parse) {
        var k :| 0 <= k < |headers| && Qualifies(headers, rows, k, parse);
        assert k in cols;
      }
    }
    if cols == [] && |headers| > FallbackStart {
      cols := seq(|headers| - FallbackStart, i requires 0 <= i < |headers| - FallbackStart => FallbackStart + i);
      forall k: nat | FallbackStart <= k < |headers| ensures k in cols {
        assert cols[k - FallbackStart] == k;
      }
    }
  }

  /** The score exceeds one exactly when two different cells among the first eight hold a
      shift code, and it never exceeds eight. */
  lemma ScoreMeaning(rows: Table, k: nat)
    requires HasColumn(rows, k)
    ensures ShiftCodeScore(rows, k) <= ScoredRows
    ensures ShiftCodeScore(rows, k) >= MinScore <==>
      exists i, j :: 0 <= i < j < Min(ScoredRows, |rows|) && IsScored(rows[i][k]) && IsScored(rows[j][k])
  {
    var f := HeadFlags(rows, k);
    assert forall i :: 0 <= i < |f| ==> f[i] == IsScored(rows[i][k]);
    CountTrueOverOne(f);
  }

  /** Only the first eight rows are read: rows below them never change the score. */
  lemma ScoreIgnoresLaterRows(rows: Table, more: Table, k: nat)
    requires HasColumn(rows, k) && HasColumn(more, k) && |rows| >= ScoredRows
    ensures HasColumn(rows + more, k)
    ensures ShiftCodeScore(rows + more, k) == ShiftCodeScore(rows, k)
  {
    assert HeadFlags(rows + more, k) == HeadFlags(rows, k);
  }

  /** label_for: a date header shows as "<day> <month>", any other header as itself, stripped. */
  function LabelFor(header: string, parse: HeaderParser): (text: string)
    ensures parse(header).Some? ==> |text| > 0 && '0' <= text[0] <= '9'
    ensures parse(header).None? ==> text == Strip(header)
  {
    match parse(header)
    case Some(d) => DayLabel(d)
    case None => Strip(header)
  }
  /** Two headers that read as dates get the same label exactly when they fall on the same
      day of the same month, whatever the year. */
  lemma LabelsCollide(h1: string, h2: string, parse: HeaderParser)
    requires parse(h1).Some? && parse(h2).Some?
    ensures LabelFor(h1, parse) == LabelFor(h2, parse) <==>
      parse(h1).value.day == parse(h2).value.day && parse(h1).value.month == parse(h2).value.month
  {
    DayLabelIff(parse(h1).value, parse(h2).value);
  }


  /** The sort key of column c: its header read as a date, no date sorting last. */
  function DateKey(headers: seq<string>, parse: HeaderParser, c: nat): Option<Date> {
    if c < |headers| then parse(headers[c]) else None
  }

  /** Column a sorts strictly before column b. */
  predicate Earlier(headers: seq<string>, parse: HeaderParser, a: nat, b: nat) {
    !KeyLe(DateKey(headers, parse, b), DateKey(headers, parse, a))
  }

  /** Columns in chronological order of their headers. */
  ghost predicate Chronological(headers: seq<string>, parse: HeaderParser, s: seq<nat>) {
    forall i, j :: 0 <= i < j < |s| ==> KeyLe(DateKey(headers, parse, s[i]), DateKey(headers, parse, s[j]))
  }

  lemma KeyLeTotal(a: Option<Date>, b: Option<Date>)
    ensures KeyLe(a, b) || KeyLe(b, a)
  {
  }

  lemma KeyLeTransitive(a: Option<Date>, b: Option<Date>, c: Option<Date>)
    requires KeyLe(a, b) && KeyLe(b, c)
    ensures KeyLe(a, c)
  {
  }

  /** Put c after every column that does not sort after it. */
  function Insert(headers: seq<string>, parse: HeaderParser, c: nat, s: seq<nat>): (r: seq<nat>)
    ensures |r| == |s| + 1
  {
    if s == [] || Earlier(headers, parse, c, s[0]) then [c] + s
    else [s[0]] + Insert(headers, parse, c, s[1..])
  }

  /** sorted(cols, key=date or date.max): a stable insertion of the columns one by one. */
  function ByDate(headers: seq<string>, parse: HeaderParser, cols: seq<nat>): (sorted: seq<nat>)
    ensures |sorted| == |cols|
  {
    if cols == [] then []
    else Insert(headers, parse, cols[|cols| - 1], ByDate(headers, parse, cols[..|cols| - 1]))
  }

  lemma {:induction false} InsertKeeps(headers: seq<string>, parse: HeaderParser, c: nat, s: seq<nat>)
    ensures multiset(Insert(headers, parse, c, s)) == multiset(s) + multiset{c}
  {
    if s != [] && !Earlier(headers, parse, c, s[0]) {
      InsertKeeps(headers, parse, c, s[1..]);
      assert s == [s[0]] + s[1..];
    }
  }

  /** A column that sorts no later than every column of a sorted list can go in front. */
  lemma SortedCons(headers: seq<string>, parse: HeaderParser, x: nat, u: seq<nat>)
    requires Chronological(headers, parse, u)
    requires forall y :: y in u ==> KeyLe(DateKey(headers, parse, x), DateKey(headers, parse, y))
    ensures Chronological(headers, parse, [x] + u)
  {
    var r := [x] + u;
    forall i, j | 0 <= i < j < |r| ensures KeyLe(DateKey(headers, parse, r[i]), DateKey(headers, parse, r[j])) {
      if i == 0 {
        assert r[j] in u;
      } else {
        assert r[i] == u[i - 1] && r[j] == u[j - 1];
      }
    }
  }

  lemma SortedTail(headers: seq<string>, parse: HeaderParser, s: seq<nat>)
    requires s != [] && Chronological(headers, parse, s)
    ensures Chronological(headers, parse, s[1..])
    ensures forall y :: y in s[1..] ==> KeyLe(DateKey(headers, parse, s[0]), DateKey(headers, parse, y))
  {
    var t := s[1..];
    forall i, j | 0 <= i < j < |t| ensures KeyLe(DateKey(headers, parse, t[i]), DateKey(headers, parse, t[j])) {
      assert t[i] == s[i + 1] && t[j] == s[j + 1];
    }
    forall y | y in t ensures KeyLe(DateKey(headers, parse, s[0]), DateKey(headers, parse, y)) {
      var k :| 0 <= k < |t| && t[k] == y;
      assert s[k + 1] == y;
    }
  }

  lemma {:induction false} InsertSorted(headers: seq<string>, parse: HeaderParser, c: nat, s: seq<nat>)
    requires Chronological(headers, parse, s)
    ensures Chronological(headers, parse, Insert(headers, parse, c, s))
  {
    if s == [] {
    } else if Earlier(headers, parse, c, s[0]) {
      SortedTail(headers, parse, s);
      KeyLeTotal(DateKey(headers, parse, c), DateKey(headers, parse, s[0]));
      forall y | y in s ensures KeyLe(DateKey(headers, parse, c), DateKey(headers, parse, y)) {
        if y != s[0] {
          assert y in s[1..] by { assert s == [s[0]] + s[1..]; }
          KeyLeTransitive(DateKey(headers, parse, c), DateKey(headers, parse, s[0]), DateKey(headers, parse, y));
        }
      }
      SortedCons(headers, parse, c, s);
    } else {
      SortedTail(headers, parse, s);
      InsertSorted(headers, parse, c, s[1..]);
      InsertKeeps(headers, parse, c, s[1..]);
      var u := Insert(headers, parse, c, s[1..]);
      forall y | y in u ensures KeyLe(DateKey(headers, parse, s[0]), DateKey(headers, parse, y)) {
        assert y in multiset(u);
        if y != c {
          assert y in multiset(s[1..]);
        }
      }
      SortedCons(headers, parse, s[0], u);
    }
  }

  /** The chronological order holds every column as often as the detected list does, sorted. */
  lemma {:induction false} ByDateSorts(headers: seq<string>, parse: HeaderParser, cols: seq<nat>)
    ensures Chronological(headers, parse, ByDate(headers, parse, cols))
    ensures multiset(ByDate(headers, parse, cols)) == multiset(cols)
  {
    if cols != [] {
      var init := cols[..|cols| - 1];
      ByDateSorts(headers, parse, init);
      InsertSorted(headers, parse, cols[|cols| - 1], ByDate(headers, parse, init));
      InsertKeeps(headers, parse, cols[|cols| - 1], ByDate(headers, parse, init));
      assert cols == init + [cols[|cols| - 1]];
    }
  }

  /** Strictly increasing columns are pairwise different. */
  lemma IncreasingDistinct(cols: seq<nat>)
    requires Increasing(cols)
    ensures Distinct(cols)
  {
  }

  /** A column occurs at most once in a list of different columns. */
  lemma {:induction false} DistinctOnce(s: seq<nat>, c: nat)
    requires Distinct(s)
    ensures multiset(s)[c] <= 1
  {
    if s != [] {
      assert s == [s[0]] + s[1..];
      assert Distinct(s[1..]) by {
        forall i, j | 0 <= i < j < |s[1..]| ensures s[1..][i] != s[1..][j] {
          assert s[1..][i] == s[i + 1] && s[1..][j] == s[j + 1];
        }
      }
      DistinctOnce(s[1..], c);
      assert s[0] !in s[1..] by {
        forall k | 0 <= k < |s[1..]| ensures s[1..][k] != s[0] {
          assert s[1..][k] == s[k + 1];
        }
      }
    }
  }

  /** A column met at two positions occurs at least twice. */
  lemma RepeatTwice(s: seq<nat>, i: nat, j: nat)
    requires i < j < |s|
    ensures s[i] == s[j] ==> multiset(s)[s[i]] >= 2
  {
    assert s == s[..j] + s[j..];
    assert s[i] in s[..j] && s[j] in s[j..];
  }

  /** Reordering a list of different columns keeps them different. */
  lemma PermutationDistinct(a: seq<nat>, b: seq<nat>)
    requires Distinct(a) && multiset(a) == multiset(b)
    ensures Distinct(b)
  {
    forall i, j | 0 <= i < j < |b| ensures b[i] != b[j] {
      RepeatTwice(b, i, j);
      DistinctOnce(a, b[i]);
    }
  }

  /** Sorting neither adds nor drops a column. */
  lemma ByDateMembers(headers: seq<string>, parse: HeaderParser, cols: seq<nat>)
    ensures forall k :: k in ByDate(headers, parse, cols) <==> k in cols
    ensures ColumnsIn(cols, |headers|) ==> ColumnsIn(ByDate(headers, parse, cols), |headers|)
    ensures forall rows :: Rectangular(rows, |headers|) && Detected(headers, rows, parse, cols) ==>
      Detected(headers, rows, parse, ByDate(headers, parse, cols))
  {
    ByDateSorts(headers, parse, cols);
    var sorted := ByDate(headers, parse, cols);
    forall k ensures k in sorted <==> k in cols {
      assert k in sorted <==> k in multiset(sorted);
      assert k in cols <==> k in multiset(cols);
    }
    if ColumnsIn(cols, |headers|) {
      forall i | 0 <= i < |sorted| ensures sorted[i] < |headers| {
        assert sorted[i] in cols;
      }
    }
  }

  /** The labels of the columns, in the order they are entered. */
  function Labels(headers: seq<string>, order: seq<nat>, parse: HeaderParser): (ls: seq<string>)
    requires ColumnsIn(order, |headers|)
    ensures |ls| == |order|
  {
    seq(|order|, q requires 0 <= q < |order| => LabelFor(headers[order[q]], parse))
  }

  /** The display-map loop: walk the columns in chronological order and give each the
      first free key among its label, "label (1)", "label (2)", ... */
  method BuildDisplayMap(headers: seq<string>, order: seq<nat>, parse: HeaderParser) returns (dm: map<string, nat>)
    requires ColumnsIn(order, |headers|)
    ensures |dm| == |order|
    ensures forall q :: 0 <= q < |order| ==> LabelFor(headers[order[q]], parse) in dm
    ensures forall c :: c in dm.Values ==> c in order
    ensures FirstCome(dm, Parenthesised, Labels(headers, order, parse), order)
    ensures |order| > 0 ==> dm[LabelFor(headers[order[0]], parse)] == order[0]
  {
    var labels := Labels(headers, order, parse);
    dm := Register(Parenthesised, labels, order);
    forall q | 0 <= q < |order| ensures LabelFor(headers[order[q]], parse) in dm {
      assert labels[q] in dm;
    }
    if |order| > 0 {
      assert labels[0] == LabelFor(headers[order[0]], parse);
    }
  }
}
