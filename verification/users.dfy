/** The login list: a username derived from every name in the roster, made unique by a
    numeric suffix. */
module Users {
  import opened Text
  import opened Shifts
  import opened Naming

  /** The exact header of the name column. */
  const NameHeader: string := "Names"

  /** Whether s begins with p. */
  predicate StartsWith(s: string, p: string) {
    |p| <= |s| && s[..|p|] == p
  }

  /** The column holding the names: "Names" when present, else the first header that,
      stripped and lower-cased, starts with "name", else the first column. */
  function NameColumn(headers: seq<string>): (k: nat)
    requires |headers| > 0
    ensures k < |headers|
    ensures NameHeader in headers <==> headers[k] == NameHeader
    ensures forall i :: 0 <= i < k ==> headers[i] != NameHeader
    ensures NameHeader !in headers ==>
      && (k == 0 || StartsWith(Lower(Strip(headers[k])), "name"))
      && (forall j :: 0 <= j < k ==> !StartsWith(Lower(Strip(headers[j])), "name"))
      && (k == 0 && !StartsWith(Lower(Strip(headers[0])), "name") ==>
            forall j :: 0 <= j < |headers| ==> !StartsWith(Lower(Strip(headers[j])), "name"))
    ensures NameHeader !in headers ==> k == FirstNamePrefix(headers, 0)
  {
    if NameHeader in headers then FirstEqual(headers, NameHeader)
    else FirstNamePrefix(headers, 0)
  }

  /** The position of the first occurrence of h. */
  function FirstEqual(headers: seq<string>, h: string): (k: nat)
    requires h in headers
    ensures k < |headers| && headers[k] == h
    ensures forall i :: 0 <= i < k ==> headers[i] != h
  {
    if headers[0] == h then 0 else 1 + FirstEqual(headers[1..], h)
  }

  /** From position i on, the first header that reads as "name..."; the first column when
      there is none. */
  function FirstNamePrefix(headers: seq<string>, i: nat): (k: nat)
    requires i <= |headers| && |headers| > 0
    ensures k < |headers|
    ensures k == 0 || (i <= k && StartsWith(Lower(Strip(headers[k])), "name"))
    ensures forall j :: i <= j < |headers| && j < k ==> !StartsWith(Lower(Strip(headers[j])), "name")
    ensures k == 0 && !StartsWith(Lower(Strip(headers[0])), "name") ==>
      forall j :: i <= j < |headers| ==> !StartsWith(Lower(Strip(headers[j])), "name")
    decreases |headers| - i
  {
    if i == |headers| then 0
    else if StartsWith(Lower(Strip(headers[i])), "name") then i
    else FirstNamePrefix(headers, i + 1)
  }

  /** make_username: blank names give "", a one-word name its lower-case form, and a longer
      name its first word followed by the initial of its last word, lower-cased. */
  function MakeUsername(name: Cell): (u: string)
    ensures u == [] <==> Strip(CellText(name)) == []
    ensures forall i :: 0 <= i < |u| ==> !IsSpace(u[i]) && !('A' <= u[i] <= 'Z')
  {
    var s := Strip(CellText(name));
    if s == [] then []
    else
      StripShape(CellText(name));
      var parts := Words(s);
      assert parts != [] by {
        assert !IsSpace(s[0]);
      }
      if |parts| == 1 then Lower(parts[0])
      else Lower(parts[0] + [parts[|parts| - 1][0]])
  }

  /** A string without whitespace strips to itself and splits into itself. */
  lemma {:induction false} UnspacedIsOneWord(u: string)
    requires u != [] && forall i :: 0 <= i < |u| ==> !IsSpace(u[i])
    ensures Strip(u) == u && Words(u) == [u]
  {
    assert TrimLeft(u) == u;
    assert TrimRight(u) == u;
    WordLengthOfUnspaced(u);
    assert u[..|u|] == u && u[|u|..] == [];
    assert Words(u) == [u[..|u|]] + Words(u[|u|..]);
  }

  lemma {:induction false} WordLengthOfUnspaced(u: string)
    requires forall i :: 0 <= i < |u| ==> !IsSpace(u[i])
    ensures WordLength(u) == |u|
    decreases |u|
  {
    if u != [] {
      WordLengthOfUnspaced(u[1..]);
    }
  }

  /** A username read back as a name gives the same username. */
  lemma UsernameIsStable(name: Cell)
    requires MakeUsername(name) != []
    ensures MakeUsername(Present(MakeUsername(name))) == MakeUsername(name)
  {
    var u := MakeUsername(name);
    UnspacedIsOneWord(u);
    assert Lower(u) == u;
  }

  /** Surrounding whitespace does not change the username. */
  lemma UsernameIgnoresPadding(s: string)
    ensures MakeUsername(Present(Strip(s))) == MakeUsername(Present(s))
  {
    StripIdempotent(s);
  }

  /** The name column as the user loop reads it, row by row. */
  function Column(t: Table, k: nat): (names: seq<Cell>)
    requires forall r :: 0 <= r < |t| ==> k < |t[r]|
    ensures |names| == |t|
  {
    seq(|t|, r requires 0 <= r < |t| => t[r][k])
  }

  function Usernames(names: seq<Cell>): (us: seq<string>)
    ensures |us| == |names|
  {
    seq(|names|, i requires 0 <= i < |names| => MakeUsername(names[i]))
  }

  /** The user loop: every row's name is entered under its username, or under the first of
      username1, username2, ... still free, in row order. No row overwrites another, every
      username is a key, and the first row keeps its bare username; which row gets which
      suffix is fixed by the row order (Naming.FirstComeUnique). */
  method BuildUsers(t: Table, headers: seq<string>) returns (users: map<string, Cell>)
    requires |headers| > 0 && Rectangular(t, |headers|)
    ensures var names := Column(t, NameColumn(headers));
      && |users| == |t|
      && (forall r :: 0 <= r < |t| ==> MakeUsername(names[r]) in users)
      && FirstCome(users, Appended, Usernames(names), names)
      && (|t| > 0 ==> users[MakeUsername(names[0])] == names[0])
  {
    var names := Column(t, NameColumn(headers));
    var bases := Usernames(names);
    users := Register(Appended, bases, names);
    forall r | 0 <= r < |t| ensures MakeUsername(names[r]) in users {
      assert bases[r] in users;
    }
    if |t| > 0 {
      assert bases[0] == MakeUsername(names[0]);
    }
  }
}
