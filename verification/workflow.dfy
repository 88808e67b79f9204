/** The swap desk: the loaded roster, the request list with its audit trail and the
    notifications, and the three ways a swap reaches the roster (auto-approval on
    submission, supervisor approval, override). */
module Workflow {
  import opened Wrappers
  import opened Text
  import opened Shifts
  import opened Rules
  import opened Columns
  import opened Users
  import opened Calendar
  import opened Naming

  datatype Status =
    | AutoDeclined
    | PendingApproval
    | AutoApproved
    | SupervisorApproved
    | SupervisorDeclined
    | OverriddenApproved

  /** One swap request as recorded: who asked, with whom, the date given away, the payback
      date (both as display labels), the status and the reasons the rules gave. */
  datatype Request = Request(id: nat, requester: Cell, partner: string, dateFrom: string, dateTo: string,
                             status: Status, reasons: seq<Reason>)

  /** An audit entry. The source stores the request record itself, so the entry shows the
      request's current status; here it points at the request by id. */
  datatype AuditEntry = RequestCreated(requestId: nat)

  datatype Notice = AutoApprovedNotice | SupervisorApprovedNotice

  /** A notification to the requester and the partner of a swap. */
  datatype Notification = Notification(requester: Cell, partner: string, notice: Notice)

  /** Why a submission, approval or override is refused; nothing changes when it is. */
  datatype Refusal =
    | UnknownDate
    | RequesterNotFound
    | PartnerNotFound
    | SelfSwap
    | NoSuchRequest
    | NotPending
    | NotDeclined

  /** A code the desk may swap without a supervisor. */
  predicate AutoCode(code: string): (b: bool)
    ensures b ==> 1 <= |code| <= 3
  {
    Upper(code) in AllowedAutoCodes
  }

  /** A missing cell reads as the empty code, which is never automatic. */
  lemma AutoCodeIsPresent(c: Cell)
    requires AutoCode(CodeOf(c))
    ensures c.Present? && CodeOf(c) == Strip(CellText(c))
  {
    assert !AutoCode("") by {
      assert Upper("") == "";
    }
  }

  /** The status of a new request: any reason declines it; otherwise a code outside the
      automatic set sends it to a supervisor; otherwise it is approved at once. */
  function Decide(reasons: seq<Reason>, codeA: string, codeB: string): (st: Status)
    ensures st == AutoDeclined <==> reasons != []
    ensures st == PendingApproval <==> reasons == [] && !(AutoCode(codeA) && AutoCode(codeB))
    ensures st == AutoApproved <==> reasons == [] && AutoCode(codeA) && AutoCode(codeB)
  {
    if reasons != [] then AutoDeclined
    else if !(AutoCode(codeA) && AutoCode(codeB)) then PendingApproval
    else AutoApproved
  }

  /** A request's status and reasons agree: a decline has reasons, reasons are only kept by
      a declined or overridden request, and no request is ever supervisor-declined. */
  predicate StatusFits(r: Request) {
    && (r.status == AutoDeclined ==> r.reasons != [])
    && (r.reasons != [] ==> r.status == AutoDeclined || r.status == OverriddenApproved)
    && r.status != SupervisorDeclined
  }

  /** The first row whose name, stripped, is the user's name, stripped. */
  function FindUser(names: seq<Cell>, user: Cell): (r: Option<nat>)
    ensures r.Some? ==> r.value < |names| && Strip(CellText(names[r.value])) == Strip(CellText(user))
    ensures r.Some? ==> forall i :: 0 <= i < r.value ==> Strip(CellText(names[i])) != Strip(CellText(user))
    ensures r.None? ==> forall i :: 0 <= i < |names| ==> Strip(CellText(names[i])) != Strip(CellText(user))
  {
    if names == [] then None
    else if Strip(CellText(names[0])) == Strip(CellText(user)) then Some(0)
    else match FindUser(names[1..], user)
      case None => None
      case Some(i) => Some(i + 1)
  }

  /** The first row whose name cell equals the name. A missing name (NaN) equals nothing. */
  function FindName(names: seq<Cell>, name: Cell): (r: Option<nat>)
    ensures r.Some? ==> r.value < |names| && name.Present? && names[r.value] == name
    ensures r.Some? ==> forall i :: 0 <= i < r.value ==> names[i] != name
    ensures r.None? ==> name.Absent? || forall i :: 0 <= i < |names| ==> names[i] != name
  {
    if names == [] || name.Absent? then None
    else if names[0] == name then Some(0)
    else match FindName(names[1..], name)
      case None => None
      case Some(i) => Some(i + 1)
  }

  /** The position of the first occurrence of c. */
  function IndexOf(order: seq<nat>, c: nat): (i: nat)
    requires c in order
    ensures i < |order| && order[i] == c
    ensures forall j :: 0 <= j < i ==> order[j] != c
  {
    if order[0] == c then 0 else 1 + IndexOf(order[1..], c)
  }

  /** The checks before a submission is judged: both dates are display labels, the user
      and the partner have rows, and they are not the same person. */
  function Admit(names: seq<Cell>, dm: map<string, nat>, requester: Cell, pickLabel: string,
                 partner: string, payLabel: string): (r: Result<(nat, nat), Refusal>)
    ensures r == Failure(UnknownDate) <==> pickLabel !in dm || payLabel !in dm
    ensures r.Success? <==> && pickLabel in dm && payLabel in dm
                            && FindUser(names, requester).Some? && FindName(names, Present(partner)).Some?
                            && requester != Present(partner)
    ensures r.Success? ==> r.value == (FindUser(names, requester).value, FindName(names, Present(partner)).value)
  {
    if pickLabel !in dm || payLabel !in dm then Failure(UnknownDate)
    else match FindUser(names, requester)
      case None => Failure(RequesterNotFound)
      case Some(ra) =>
        match FindName(names, Present(partner))
        case None => Failure(PartnerNotFound)
        case Some(rb) => if requester == Present(partner) then Failure(SelfSwap) else Success((ra, rb))
  }

  /** The tuple assignment a[r1], a[r2] = a[r2], a[r1] on one column: both right-hand
      values are read first, then r1 is written and then r2. */
  function Exchanged(t: Table, r1: nat, r2: nat, c: nat): (t2: Table)
    requires r1 < |t| && r2 < |t| && c < |t[r1]| && c < |t[r2]|
    ensures |t2| == |t| && forall r :: 0 <= r < |t| ==> |t2[r]| == |t[r]|
  {
    var x, y := t[r2][c], t[r1][c];
    var t1 := t[r1 := t[r1][c := x]];
    t1[r2 := t1[r2][c := y]]
  }

  /** The two cells trade contents and nothing else changes; exchanging a cell with itself
      leaves it as it was. */
  lemma ExchangedCells(t: Table, r1: nat, r2: nat, c: nat, r: nat, k: nat)
    requires r1 < |t| && r2 < |t| && c < |t[r1]| && c < |t[r2]| && r < |t| && k < |t[r]|
    ensures Exchanged(t, r1, r2, c)[r][k] ==
      if r == r1 && k == c then t[r2][c]
      else if r == r2 && k == c then t[r1][c]
      else t[r][k]
  {
  }

  /** Exchanging twice restores the roster. */
  lemma ExchangeInvolution(t: Table, r1: nat, r2: nat, c: nat)
    requires r1 < |t| && r2 < |t| && c < |t[r1]| && c < |t[r2]|
    ensures Exchanged(Exchanged(t, r1, r2, c), r1, r2, c) == t
  {
    var t2 := Exchanged(Exchanged(t, r1, r2, c), r1, r2, c);
    forall r | 0 <= r < |t| ensures t2[r] == t[r] {
      assert |t2[r]| == |t[r]|;
      forall k | 0 <= k < |t[r]| ensures t2[r][k] == t[r][k] {
        ExchangedCells(t, r1, r2, c, r, k);
        ExchangedCells(Exchanged(t, r1, r2, c), r1, r2, c, r, k);
      }
    }
  }

  /** Auto-approval writes the stripped codes; when both cells already hold stripped codes
      that is the same as exchanging them. */
  lemma AutoApprovalIsExchange(t: Table, width: nat, cols: seq<nat>, ra: nat, rb: nat, i: nat)
    requires SwapFits(t, width, cols, Swap(ra, i, rb, i))
    requires t[ra][cols[i]] == Present(Strip(CellText(t[ra][cols[i]])))
    requires t[rb][cols[i]] == Present(Strip(CellText(t[rb][cols[i]])))
    ensures SwapCopy(t, width, cols, Swap(ra, i, rb, i)) == Exchanged(t, ra, rb, cols[i])
  {
  }

  /** The name column of a roster, read row by row. */
  function NamesOf(a: array2<Cell>, col: nat): (names: seq<Cell>)
    reads a
    requires col < a.Length1
    ensures |names| == a.Length0
  {
    seq(a.Length0, i requires 0 <= i < a.Length0 reads a => a[i, col])
  }

  /** A roster array holds exactly the cells of the table. */
  lemma GridIs(a: array2<Cell>, t: Table)
    requires |t| == a.Length0 && Rectangular(t, a.Length1)
    requires forall i, j :: 0 <= i < a.Length0 && 0 <= j < a.Length1 ==> a[i, j] == t[i][j]
    ensures Grid(a) == t
  {
    forall i | 0 <= i < a.Length0 ensures Grid(a)[i] == t[i] {
      assert |Grid(a)[i]| == |t[i]|;
    }
  }

  /** The date columns of a loaded sheet in chronological order, and their display map. */
  method PlanDates(hs: seq<string>, rows: Table, p: HeaderParser) returns (order: seq<nat>, dm: map<string, nat>)
    requires Rectangular(rows, |hs|)
    ensures ColumnsIn(order, |hs|) && Chronological(hs, p, order) && Detected(hs, rows, p, order)
    ensures |dm| == |order|
    ensures forall q :: 0 <= q < |order| ==> LabelFor(hs[order[q]], p) in dm
    ensures forall c :: c in dm.Values ==> c in order
    ensures Distinct(order)
    ensures FirstCome(dm, Parenthesised, Labels(hs, order, p), order)
    ensures |order| > 0 ==> dm[LabelFor(hs[order[0]], p)] == order[0]
  {
    var cols := DetectDateColumns(hs, rows, p);
    order := ByDate(hs, p, cols);
    ByDateSorts(hs, p, cols);
    ByDateMembers(hs, p, cols);
    IncreasingDistinct(cols);
    PermutationDistinct(cols, order);
    dm := BuildDisplayMap(hs, order, p);
  }

  /** The rows of a request's requester and partner, found by exact equality with the name
      cells as recorded; a name with no row refuses the action. */
  function Locate(names: seq<Cell>, r: Request): (res: Result<(nat, nat), Refusal>)
    ensures res.Success? <==> FindName(names, r.requester).Some? && FindName(names, Present(r.partner)).Some?
    ensures res.Success? ==> res.value.0 < |names| && names[res.value.0] == r.requester
    ensures res.Success? ==> res.value.1 < |names| && names[res.value.1] == Present(r.partner)
    ensures res.Success? ==> forall i :: 0 <= i < res.value.0 ==> names[i] != r.requester
    ensures res.Success? ==> forall i :: 0 <= i < res.value.1 ==> names[i] != Present(r.partner)
    ensures res.Success? ==>
      res.value == (FindName(names, r.requester).value, FindName(names, Present(r.partner)).value)
    ensures res == Failure(RequesterNotFound) <==> FindName(names, r.requester).None?
    ensures res == Failure(PartnerNotFound) <==>
      FindName(names, r.requester).Some? && FindName(names, Present(r.partner)).None?
  {
    match FindName(names, r.requester)
    case None => Failure(RequesterNotFound)
    case Some(rr) =>
      match FindName(names, Present(r.partner))
      case None => Failure(PartnerNotFound)
      case Some(pr) => Success((rr, pr))
  }

  /** The statuses a supervisor may approve, and those an override applies to. */
  predicate Approvable(st: Status) {
    st == PendingApproval
  }

  predicate Overridable(st: Status) {
    st == AutoDeclined || st == SupervisorDeclined
  }

  /** The name texts the inexperienced picker offers. */
  function NameTexts(names: seq<Cell>): (ns: set<string>)
    ensures forall i :: 0 <= i < |names| ==> CellText(names[i]) in ns
    ensures forall n :: n in ns ==> exists i :: 0 <= i < |names| && CellText(names[i]) == n
  {
    set i | 0 <= i < |names| :: CellText(names[i])
  }

  /** The request list and the audit trail agree: request k has id k + 1 and the k-th
      audit entry records its creation; every request's status fits its reasons and both
      its dates are display labels. */
  ghost predicate Ledger(requests: seq<Request>, audit: seq<AuditEntry>, dm: map<string, nat>) {
    && |audit| == |requests|
    && (forall k :: 0 <= k < |requests| ==> requests[k].id == k + 1 && audit[k] == RequestCreated(k + 1))
    && (forall k :: 0 <= k < |requests| ==> StatusFits(requests[k]))
    && (forall k :: 0 <= k < |requests| ==> requests[k].dateFrom in dm && requests[k].dateTo in dm)
  }

  /** Recording a new request with the next id keeps the ledger. */
  lemma LedgerGrows(requests: seq<Request>, audit: seq<AuditEntry>, dm: map<string, nat>, r: Request)
    requires Ledger(requests, audit, dm)
    requires r.id == |requests| + 1 && StatusFits(r) && r.dateFrom in dm && r.dateTo in dm
    ensures Ledger(requests + [r], audit + [RequestCreated(r.id)], dm)
  {
  }

  /** Giving a request a new status that fits its reasons keeps the ledger. */
  lemma LedgerRestatus(requests: seq<Request>, audit: seq<AuditEntry>, dm: map<string, nat>, k: nat, st: Status)
    requires Ledger(requests, audit, dm) && k < |requests|
    requires StatusFits(requests[k].(status := st))
    ensures Ledger(requests[k := requests[k].(status := st)], audit, dm)
  {
  }

  class SwapDesk {
    /** The live roster: one row per person, one column per header. */
    const roster: array2<Cell>
    const headers: seq<string>
    const parse: HeaderParser
    const nameCol: nat
    /** The date columns in chronological order. */
    const order: seq<nat>
    /** Display label to date column. */
    const displayMap: map<string, nat>
    var inexperienced: set<string>
    var requests: seq<Request>
    var audit: seq<AuditEntry>
    var notifications: seq<Notification>

    ghost predicate Valid()
      reads this
    {
      && roster.Length1 == |headers| && |headers| > 0
      && nameCol < |headers|
      && ColumnsIn(order, |headers|) && Distinct(order)
      && (forall c :: c in displayMap.Values ==> c in order)
      && Ledger(requests, audit, displayMap)
    }

    /** What the k-th audit entry shows: the request it was made for, as it is now. */
    function Audited(k: nat): (r: Request)
      reads this
      requires Valid() && k < |audit|
      ensures r == requests[k] && r.id == audit[k].requestId
    {
      requests[audit[k].requestId - 1]
    }

    /** Loading a sheet: detect the date columns, sort them chronologically, label them and
      find the name column; no requests yet. */
    constructor Load(sheet: array2<Cell>, hs: seq<string>, p: HeaderParser)
      requires sheet.Length1 == |hs| && |hs| > 0
      ensures Valid()
      ensures roster == sheet && headers == hs && parse == p && nameCol == NameColumn(hs)
      ensures Chronological(hs, p, order)
      ensures Detected(hs, Grid(sheet), p, order)
      ensures |displayMap| == |order|
      ensures forall q :: 0 <= q < |order| ==> LabelFor(hs[order[q]], p) in displayMap
      ensures Distinct(order)
      ensures FirstCome(displayMap, Parenthesised, Labels(hs, order, p), order)
      ensures |order| > 0 ==> displayMap[LabelFor(hs[order[0]], p)] == order[0]
      ensures inexperienced == {} && requests == [] && audit == [] && notifications == []
    {
      var rows := CopyTable(sheet);
      var sorted, dm := PlanDates(hs, rows, p);
      roster := sheet;
      headers := hs;
      parse := p;
      nameCol := NameColumn(hs);
      order := sorted;
      displayMap := dm;
      inexperienced := {};
      requests := [];
      audit := [];
      notifications := [];
      new;
      assert Grid(sheet) == rows;
    }

    /** df.at[r1, c], df.at[r2, c] = df.at[r2, c], df.at[r1, c] on the live roster. */
    method Exchange(r1: nat, r2: nat, c: nat)
      requires r1 < roster.Length0 && r2 < roster.Length0 && c < roster.Length1
      modifies roster
      ensures Grid(roster) == Exchanged(old(Grid(roster)), r1, r2, c)
    {
      ghost var t := Grid(roster);
      var x, y := roster[r2, c], roster[r1, c];
      roster[r1, c] := x;
      roster[r2, c] := y;
      forall i, j | 0 <= i < roster.Length0 && 0 <= j < roster.Length1
        ensures roster[i, j] == Exchanged(t, r1, r2, c)[i][j]
      {
        ExchangedCells(t, r1, r2, c, i, j);
      }
      GridIs(roster, Exchanged(t, r1, r2, c));
    }

    /** The auto-approval write: the requester's cell gets the partner's code and then the
      partner's cell gets the requester's, as the rules judged it. */
    method WriteSwap(s: Swap, codeA: string, codeB: string)
      requires Valid() && SwapFits(Grid(roster), |headers|, order, s)
      requires codeA == Strip(CellText(roster[s.ra, order[s.ia]]))
      requires codeB == Strip(CellText(roster[s.rb, order[s.ib]]))
      modifies roster
      ensures Grid(roster) == SwapCopy(old(Grid(roster)), |headers|, order, s)
    {
      ghost var t := Grid(roster);
      roster[s.ra, order[s.ia]] := Present(codeB);
      roster[s.rb, order[s.ib]] := Present(codeA);
      forall i, j | 0 <= i < roster.Length0 && 0 <= j < roster.Length1
        ensures roster[i, j] == SwapCopy(t, |headers|, order, s)[i][j]
      {
        SwapCopyCells(t, |headers|, order, s, i, j);
      }
      GridIs(roster, SwapCopy(t, |headers|, order, s));
    }

    /** How a submission of swap s is judged: the reasons the rules give on the swapped
      copy, then the status those reasons and the two codes decide. The roster is only read. */
    method Judgement(s: Swap) returns (st: Status, reasons: seq<Reason>)
      requires Valid() && SwapFits(Grid(roster), |headers|, order, s)
      ensures reasons == Reasons(Grid(roster), headers, order, s, inexperienced, parse)
      ensures st == Decide(reasons, CodeOf(roster[s.ra, order[s.ia]]), CodeOf(roster[s.rb, order[s.ib]]))
    {
      reasons := ValidateSwap(roster, headers, order, s, inexperienced, parse);
      var codeA := CodeOf(roster[s.ra, order[s.ia]]);
      var codeB := CodeOf(roster[s.rb, order[s.ib]]);
      st := Decide(reasons, codeA, codeB);
    }

    /** The automatic approval: both codes as the form reads them are automatic, so both
      cells are present and their stripped codes are written crosswise. */
    method ApproveAutomatically(s: Swap)
      requires Valid() && SwapFits(Grid(roster), |headers|, order, s)
      requires AutoCode(CodeOf(roster[s.ra, order[s.ia]])) && AutoCode(CodeOf(roster[s.rb, order[s.ib]]))
      modifies roster
      ensures Grid(roster) == SwapCopy(old(Grid(roster)), |headers|, order, s)
    {
      AutoCodeIsPresent(roster[s.ra, order[s.ia]]);
      AutoCodeIsPresent(roster[s.rb, order[s.ib]]);
      WriteSwap(s, CodeOf(roster[s.ra, order[s.ia]]), CodeOf(roster[s.rb, order[s.ib]]));
    }

    /** Filing an admitted submission: the requester's row ra, the partner's row rb, both
      on the column of pickLabel. The rules judge the swap on a copy; any reason declines it,
      a code outside the automatic set leaves it to a supervisor, and otherwise the two
      cells are exchanged at once. Exactly one request and one audit entry are added,
      numbered after the last; only an automatic approval notifies and changes the roster. */
    method File(requester: Cell, pickLabel: string, partner: string, payLabel: string, ra: nat, rb: nat)
      returns (st: Status)
      requires Valid() && pickLabel in displayMap && payLabel in displayMap && displayMap[pickLabel] in order
      requires ra < roster.Length0 && rb < roster.Length0
      modifies this, roster
      ensures Valid()
      ensures inexperienced == old(inexperienced)
      ensures
        var col := displayMap[pickLabel];
        var s := Swap(ra, IndexOf(order, col), rb, IndexOf(order, col));
           && SwapFits(old(Grid(roster)), |headers|, order, s)
           && var reasons := Reasons(old(Grid(roster)), headers, order, s, old(inexperienced), parse);
              && st == Decide(reasons, CodeOf(old(Grid(roster))[ra][col]), CodeOf(old(Grid(roster))[rb][col]))
              && requests == old(requests) + [Request(|old(requests)| + 1, requester, partner, pickLabel, payLabel, st, reasons)]
              && audit == old(audit) + [RequestCreated(|old(requests)| + 1)]
              && notifications == old(notifications) +
                   (if st == AutoApproved then [Notification(requester, partner, AutoApprovedNotice)] else [])
              && Grid(roster) == (if st == AutoApproved then SwapCopy(old(Grid(roster)), |headers|, order, s)
                                  else old(Grid(roster)))
    {
      ghost var t0 := Grid(roster);
      var col := displayMap[pickLabel];
      var i := IndexOf(order, col);
      var s := Swap(ra, i, rb, i);
      assert SwapFits(t0, |headers|, order, s);
      var reasons;
      st, reasons := Judgement(s);
      assert order[i] == col;
      assert reasons == Reasons(t0, headers, order, s, inexperienced, parse);
      assert st == Decide(reasons, CodeOf(t0[ra][col]), CodeOf(t0[rb][col]));
      if st == AutoApproved {
        ApproveAutomatically(s);
      }
      Record(Request(|requests| + 1, requester, partner, pickLabel, payLabel, st, reasons));
    }

    /** Entering a judged request under the next id: the request and its audit entry are
      appended, and an automatic approval notifies the requester and the partner. */
    method Record(r: Request)
      requires Valid() && r.id == |requests| + 1 && StatusFits(r)
      requires r.dateFrom in displayMap && r.dateTo in displayMap
      modifies this
      ensures Valid() && inexperienced == old(inexperienced)
      ensures requests == old(requests) + [r] && audit == old(audit) + [RequestCreated(r.id)]
      ensures notifications == old(notifications) +
        (if r.status == AutoApproved then [Notification(r.requester, r.partner, AutoApprovedNotice)] else [])
    {
      LedgerGrows(requests, audit, displayMap, r);
      requests := requests + [r];
      audit := audit + [RequestCreated(r.id)];
      if r.status == AutoApproved {
        notifications := notifications + [Notification(r.requester, r.partner, AutoApprovedNotice)];
      }
    }

    /** Submitting a swap of the requester's shift on pickLabel with the partner's shift on
      the same date, paid back on payLabel: an unknown date, a requester or partner without
      a row, or a swap with oneself is refused and changes nothing; otherwise the swap is
      filed on the requester's and the partner's rows. */
    method Submit(requester: Cell, pickLabel: string, partner: string, payLabel: string)
      returns (outcome: Result<Status, Refusal>)
      requires Valid()
      modifies this, roster
      ensures Valid()
      ensures inexperienced == old(inexperienced)
      ensures outcome.Failure? <==>
        Admit(old(NamesOf(roster, nameCol)), displayMap, requester, pickLabel, partner, payLabel).Failure?
      ensures outcome.Failure? ==>
        && Admit(old(NamesOf(roster, nameCol)), displayMap, requester, pickLabel, partner, payLabel) == Failure(outcome.error)
        && requests == old(requests) && audit == old(audit) && notifications == old(notifications)
        && Grid(roster) == old(Grid(roster))
      ensures outcome.Success? ==>
        && |requests| == |old(requests)| + 1 && requests[..|old(requests)|] == old(requests)
        && audit == old(audit) + [RequestCreated(|requests|)]
        && var r := requests[|old(requests)|];
           && r.id == |requests| && r.requester == requester && r.partner == partner
           && r.dateFrom == pickLabel && r.dateTo == payLabel && r.status == outcome.value
           && (r.status == AutoDeclined <==> r.reasons != [])
           && (Grid(roster) != old(Grid(roster)) ==> r.status == AutoApproved)
           && notifications == old(notifications) +
                (if r.status == AutoApproved then [Notification(requester, partner, AutoApprovedNotice)] else [])
      ensures outcome.Success? ==>
        var rows := Admit(old(NamesOf(roster, nameCol)), displayMap, requester, pickLabel, partner, payLabel).value;
        var col := displayMap[pickLabel];
        && col in order
        && var s := Swap(rows.0, IndexOf(order, col), rows.1, IndexOf(order, col));
           && SwapFits(old(Grid(roster)), |headers|, order, s)
           && requests[|old(requests)|].reasons == Reasons(old(Grid(roster)), headers, order, s, old(inexperienced), parse)
           && outcome.value == Decide(requests[|old(requests)|].reasons, CodeOf(old(Grid(roster))[rows.0][col]),
                                      CodeOf(old(Grid(roster))[rows.1][col]))
           && Grid(roster) == (if outcome.value == AutoApproved then SwapCopy(old(Grid(roster)), |headers|, order, s)
                               else old(Grid(roster)))
    {
      var names := NamesOf(roster, nameCol);
      var admitted := Admit(names, displayMap, requester, pickLabel, partner, payLabel);
      if admitted.Failure? {
        return Failure(admitted.error);
      }
      assert displayMap[pickLabel] in displayMap.Values;
      var st := File(requester, pickLabel, partner, payLabel, admitted.value.0, admitted.value.1);
      outcome := Success(st);
    }

    /** A supervisor approves a pending request: the requester's and the partner's cells on
      the request's date are exchanged, the request becomes supervisor-approved and both are
      notified. The audit trail is not extended. */
    method Approve(id: nat) returns (outcome: Result<(), Refusal>)
      requires Valid()
      modifies this, roster
      ensures Valid()
      ensures audit == old(audit) && inexperienced == old(inexperienced)
      ensures !(1 <= id <= |old(requests)|) ==> outcome == Failure(NoSuchRequest)
      ensures 1 <= id <= |old(requests)| && !Approvable(old(requests)[id - 1].status) ==> outcome == Failure(NotPending)
      ensures outcome.Failure? ==>
        requests == old(requests) && notifications == old(notifications) && Grid(roster) == old(Grid(roster))
      ensures outcome.Success? <==>
        && 1 <= id <= |old(requests)| && Approvable(old(requests)[id - 1].status)
        && Locate(old(NamesOf(roster, nameCol)), old(requests)[id - 1]).Success?
      ensures outcome.Success? ==>
        var r := old(requests)[id - 1];
        var rows := Locate(old(NamesOf(roster, nameCol)), r).value;
        && r.dateFrom in displayMap && displayMap[r.dateFrom] < |headers|
        && requests == old(requests)[id - 1 := r.(status := SupervisorApproved)]
        && notifications == old(notifications) + [Notification(r.requester, r.partner, SupervisorApprovedNotice)]
        && Grid(roster) == Exchanged(old(Grid(roster)), rows.0, rows.1, displayMap[r.dateFrom])
    {
      if !(1 <= id <= |requests|) {
        return Failure(NoSuchRequest);
      }
      var r := requests[id - 1];
      if !Approvable(r.status) {
        return Failure(NotPending);
      }
      var located := Locate(NamesOf(roster, nameCol), r);
      if located.Failure? {
        return Failure(located.error);
      }
      var col := displayMap[r.dateFrom];
      assert col in displayMap.Values;
      Exchange(located.value.0, located.value.1, col);
      LedgerRestatus(requests, audit, displayMap, id - 1, SupervisorApproved);
      requests := requests[id - 1 := r.(status := SupervisorApproved)];
      notifications := notifications + [Notification(r.requester, r.partner, SupervisorApprovedNotice)];
      outcome := Success(());
    }

    /** An administrator overrides a declined request: the cells are exchanged as for an
      approval and the request becomes overridden-approved. Nobody is notified and the
      audit trail is not extended. */
    method Override(id: nat) returns (outcome: Result<(), Refusal>)
      requires Valid()
      modifies this, roster
      ensures Valid()
      ensures audit == old(audit) && notifications == old(notifications) && inexperienced == old(inexperienced)
      ensures !(1 <= id <= |old(requests)|) ==> outcome == Failure(NoSuchRequest)
      ensures 1 <= id <= |old(requests)| && !Overridable(old(requests)[id - 1].status) ==> outcome == Failure(NotDeclined)
      ensures outcome.Failure? ==> requests == old(requests) && Grid(roster) == old(Grid(roster))
      ensures outcome.Success? <==>
        && 1 <= id <= |old(requests)| && Overridable(old(requests)[id - 1].status)
        && Locate(old(NamesOf(roster, nameCol)), old(requests)[id - 1]).Success?
      ensures outcome.Success? ==>
        var r := old(requests)[id - 1];
        var rows := Locate(old(NamesOf(roster, nameCol)), r).value;
        && r.dateFrom in displayMap && displayMap[r.dateFrom] < |headers|
        && requests == old(requests)[id - 1 := r.(status := OverriddenApproved)]
        && Grid(roster) == Exchanged(old(Grid(roster)), rows.0, rows.1, displayMap[r.dateFrom])
    {
      if !(1 <= id <= |requests|) {
        return Failure(NoSuchRequest);
      }
      var r := requests[id - 1];
      if !Overridable(r.status) {
        return Failure(NotDeclined);
      }
      var located := Locate(NamesOf(roster, nameCol), r);
      if located.Failure? {
        return Failure(located.error);
      }
      var col := displayMap[r.dateFrom];
      assert col in displayMap.Values;
      Exchange(located.value.0, located.value.1, col);
      LedgerRestatus(requests, audit, displayMap, id - 1, OverriddenApproved);
      requests := requests[id - 1 := r.(status := OverriddenApproved)];
      outcome := Success(());
    }

    /** The administrator marks the inexperienced controllers, chosen among the name texts. */
    method MarkInexperienced(sel: set<string>)
      requires Valid() && sel <= NameTexts(NamesOf(roster, nameCol))
      modifies this
      ensures Valid() && inexperienced == sel
      ensures requests == old(requests) && audit == old(audit) && notifications == old(notifications)
    {
      inexperienced := sel;
    }
  }
}
