/** Growing a dictionary under fresh keys: both the display-label map and the user map
    try a base key and then numbered variants of it until one is not taken. */
module Naming {
  import opened Text

  /** How a numbered variant is spelled: display labels as "label (1)", user names as "name1". */
  datatype Style = Parenthesised | Appended

  /** The j-th key tried for a base: the base itself, then its numbered variants. */
  function Variant(style: Style, base: string, j: nat): (key: string)
    ensures j == 0 ==> key == base
    ensures j > 0 ==> |key| > |base| && key[..|base|] == base
  {
    if j == 0 then base
    else match style
      case Parenthesised => base + " (" + NatToString(j) + ")"
      case Appended => base + NatToString(j)
  }

  /** Different counters give different keys. */
  ghost predicate Injective(f: nat -> string) {
    forall i, j :: f(i) == f(j) ==> i == j
  }

  lemma VariantInjective(style: Style, base: string, i: nat, j: nat)
    requires Variant(style, base, i) == Variant(style, base, j)
    ensures i == j
  {
    if i != 0 && j != 0 {
      var a, b := Variant(style, base, i), Variant(style, base, j);
      match style {
        case Parenthesised =>
          assert NatToString(i) == a[|base| + 2..|a| - 1];
          assert NatToString(j) == b[|base| + 2..|b| - 1];
        case Appended =>
          assert NatToString(i) == a[|base|..];
          assert NatToString(j) == b[|base|..];
      }
      NatToStringInjective(i, j);
    }
  }

  lemma VariantsInjective(style: Style, base: string)
    ensures Injective((j: nat) => Variant(style, base, j))
  {
    forall i, j | Variant(style, base, i) == Variant(style, base, j) ensures i == j {
      VariantInjective(style, base, i, j);
    }
  }

  /** The `while key in m` loop: try f(0), f(1), ... and stop at the first key not in m.
      Every key tried before the one returned is already taken. */
  method FreshKey<V>(m: map<string, V>, f: nat -> string) returns (key: string, j: nat)
    requires Injective(f)
    ensures key == f(j) && key !in m
    ensures forall i :: 0 <= i < j ==> f(i) in m
  {
    key := f(0);
    j := 0;
    ghost var tried: set<string> := {};
    while key in m
      invariant key == f(j)
      invariant forall i :: 0 <= i < j ==> f(i) in m
      invariant tried == set i | 0 <= i < j :: f(i)
      invariant tried <= m.Keys
      decreases m.Keys - tried
    {
      assert key !in tried;
      var next := set i | 0 <= i < j + 1 :: f(i);
      assert next == tried + {key};
      tried := next;
      j := j + 1;
      key := f(j);
    }
  }

  /** The variants of base numbered below j are all taken. */
  ghost predicate TakenBelow<V>(m: map<string, V>, style: Style, base: string, j: nat) {
    forall i :: 0 <= i < j ==> Variant(style, base, i) in m
  }

  /** The first variant of base that m does not hold yet, and its number. */
  method FreeVariant<V>(m: map<string, V>, style: Style, base: string) returns (key: string, j: nat)
    ensures key == Variant(style, base, j) && key !in m
    ensures TakenBelow(m, style, base, j)
  {
    VariantsInjective(style, base);
    key, j := FreshKey(m, (j: nat) => Variant(style, base, j));
    forall i | 0 <= i < j ensures Variant(style, base, i) in m {
      assert ((j: nat) => Variant(style, base, j))(i) in m;
    }
  }

  lemma TakenBelowGrows<V>(m: map<string, V>, style: Style, base: string, j: nat, k: string, v: V)
    requires TakenBelow(m, style, base, j)
    ensures TakenBelow(m[k := v], style, base, j)
  {
  }

  /** key is the first variant of base that is not among the keys taken: the base itself
      when it is free, else the lowest-numbered free variant. */
  ghost predicate FirstFree(style: Style, base: string, taken: seq<string>, key: string) {
    && key !in taken
    && exists j: nat :: key == Variant(style, base, j) && forall i :: 0 <= i < j ==> Variant(style, base, i) in taken
  }

  /** First-come numbering of the first p entries: keys[q] is the key entry q received, the
      first variant of bases[q] free among the keys handed out before it; m holds exactly
      those keys, each with its entry's value. */
  ghost predicate Numbered<V>(m: map<string, V>, style: Style, bases: seq<string>, values: seq<V>,
                              keys: seq<string>, p: nat)
  {
    && p <= |bases| && p <= |values| && |keys| == p
    && (forall k :: k in m <==> k in keys)
    && (forall q :: 0 <= q < p ==> keys[q] in m && m[keys[q]] == values[q])
    && (forall q :: 0 <= q < p ==> Chose(style, bases, keys, q))
  }

  /** Entry q received the first variant of its base free among the keys before it. */
  ghost predicate Chose(style: Style, bases: seq<string>, keys: seq<string>, q: nat) {
    q < |keys| && q < |bases| && FirstFree(style, bases[q], keys[..q], keys[q])
  }

  /** The registration loop's outcome: the map numbers all entries first come, first served. */
  ghost predicate FirstCome<V>(m: map<string, V>, style: Style, bases: seq<string>, values: seq<V>) {
    exists keys :: Numbered(m, style, bases, values, keys, |bases|)
  }

  /** Only one key is the first free variant. */
  lemma FirstFreeUnique(style: Style, base: string, taken: seq<string>, k1: string, k2: string)
    requires FirstFree(style, base, taken, k1) && FirstFree(style, base, taken, k2)
    ensures k1 == k2
  {
    var j1: nat :| k1 == Variant(style, base, j1) && forall i :: 0 <= i < j1 ==> Variant(style, base, i) in taken;
    var j2: nat :| k2 == Variant(style, base, j2) && forall i :: 0 <= i < j2 ==> Variant(style, base, i) in taken;
    assert j1 == j2;
  }

  lemma {:induction false} PrefixesAgree(style: Style, bases: seq<string>, keys1: seq<string>, keys2: seq<string>, q: nat)
    requires forall r :: 0 <= r < q ==> Chose(style, bases, keys1, r)
    requires forall r :: 0 <= r < q ==> Chose(style, bases, keys2, r)
    requires q <= |keys1| && q <= |keys2|
    ensures keys1[..q] == keys2[..q]
    decreases q
  {
    if q > 0 {
      PrefixesAgree(style, bases, keys1, keys2, q - 1);
      assert Chose(style, bases, keys1, q - 1) && Chose(style, bases, keys2, q - 1);
      FirstFreeUnique(style, bases[q - 1], keys1[..q - 1], keys1[q - 1], keys2[q - 1]);
      assert keys1[..q] == keys1[..q - 1] + [keys1[q - 1]];
      assert keys2[..q] == keys2[..q - 1] + [keys2[q - 1]];
    }
  }

  /** First-come numbering leaves no choice: two maps that both number the same entries
      first come are the same map. */
  lemma FirstComeUnique<V>(m1: map<string, V>, m2: map<string, V>, style: Style, bases: seq<string>, values: seq<V>)
    requires FirstCome(m1, style, bases, values) && FirstCome(m2, style, bases, values)
    ensures m1 == m2
  {
    var keys1 :| Numbered(m1, style, bases, values, keys1, |bases|);
    var keys2 :| Numbered(m2, style, bases, values, keys2, |bases|);
    NumberedUnique(m1, m2, style, bases, values, keys1, keys2);
  }

  lemma NumberedUnique<V>(m1: map<string, V>, m2: map<string, V>, style: Style, bases: seq<string>, values: seq<V>,
                          keys1: seq<string>, keys2: seq<string>)
    requires Numbered(m1, style, bases, values, keys1, |bases|)
    requires Numbered(m2, style, bases, values, keys2, |bases|)
    ensures m1 == m2
  {
    PrefixesAgree(style, bases, keys1, keys2, |bases|);
    assert keys1 == keys1[..|bases|] && keys2 == keys2[..|bases|];
    SameEntriesSameMap(m1, m2, values, keys1);
  }

  /** Two maps holding exactly the same keys, each with the same entry's value, are equal. */
  lemma SameEntriesSameMap<V>(m1: map<string, V>, m2: map<string, V>, values: seq<V>, keys: seq<string>)
    requires |keys| <= |values|
    requires forall k :: k in m1 <==> k in keys
    requires forall k :: k in m2 <==> k in keys
    requires forall q :: 0 <= q < |keys| ==> keys[q] in m1 && m1[keys[q]] == values[q]
    requires forall q :: 0 <= q < |keys| ==> keys[q] in m2 && m2[keys[q]] == values[q]
    ensures m1 == m2
  {
    forall k | k in m1 ensures k in m2 && m1[k] == m2[k] {
      var q :| 0 <= q < |keys| && keys[q] == k;
    }
    assert m1.Keys == m2.Keys;
  }

  /** Entering entry p under the first variant of its base that m does not hold keeps the
      numbering first come. */
  lemma NumberedStep<V>(m: map<string, V>, style: Style, bases: seq<string>, values: seq<V>,
                        keys: seq<string>, p: nat, key: string, j: nat)
    requires Numbered(m, style, bases, values, keys, p) && p < |bases| && p < |values|
    requires key == Variant(style, bases[p], j) && key !in m && TakenBelow(m, style, bases[p], j)
    ensures Numbered(m[key := values[p]], style, bases, values, keys + [key], p + 1)
  {
    var m', keys' := m[key := values[p]], keys + [key];
    StepKeepsFirstFree(m, style, bases, keys, p, key, j);
    forall q | 0 <= q < p + 1 ensures keys'[q] in m' && m'[keys'[q]] == values[q] {
      if q < p {
        assert keys'[q] == keys[q] && keys[q] in m;
      }
    }
    forall k ensures k in m' <==> k in keys' {
      assert k in keys' <==> k in keys || k == key;
    }
  }

  lemma StepKeepsFirstFree<V>(m: map<string, V>, style: Style, bases: seq<string>, keys: seq<string>,
                              p: nat, key: string, j: nat)
    requires |keys| == p && p < |bases|
    requires forall k :: k in m <==> k in keys
    requires forall q :: 0 <= q < p ==> Chose(style, bases, keys, q)
    requires key == Variant(style, bases[p], j) && key !in m && TakenBelow(m, style, bases[p], j)
    ensures forall q :: 0 <= q < p + 1 ==> Chose(style, bases, keys + [key], q)
  {
    var keys' := keys + [key];
    forall q | 0 <= q < p + 1 ensures Chose(style, bases, keys', q) {
      if q < p {
        assert Chose(style, bases, keys, q);
        assert keys'[..q] == keys[..q] && keys'[q] == keys[q];
      } else {
        assert keys'[..q] == keys;
        forall i | 0 <= i < j ensures Variant(style, bases[p], i) in keys {
          assert Variant(style, bases[p], i) in m;
        }
      }
    }
  }

  /** Under first-come numbering every base is a key: its bare form, or else the bare form
      was already handed out. */
  lemma NumberedBases<V>(m: map<string, V>, style: Style, bases: seq<string>, values: seq<V>, keys: seq<string>)
    requires Numbered(m, style, bases, values, keys, |bases|)
    ensures forall q :: 0 <= q < |bases| ==> bases[q] in m
    ensures |bases| > 0 ==> bases[0] in m && m[bases[0]] == values[0]
  {
    forall q | 0 <= q < |bases| ensures bases[q] in m {
      assert Chose(style, bases, keys, q);
      var j: nat :| keys[q] == Variant(style, bases[q], j)
        && forall i :: 0 <= i < j ==> Variant(style, bases[q], i) in keys[..q];
      if j > 0 {
        assert Variant(style, bases[q], 0) in keys[..q];
        var r :| 0 <= r < q && keys[r] == bases[q];
        assert keys[r] in m;
      } else {
        assert keys[q] in m;
      }
    }
    if |bases| > 0 {
      assert Chose(style, bases, keys, 0);
      var j: nat :| keys[0] == Variant(style, bases[0], j)
        && forall i :: 0 <= i < j ==> Variant(style, bases[0], i) in keys[..0];
      assert j == 0 by {
        assert Variant(style, bases[0], 0) !in keys[..0];
      }
    }
  }

  /** Under first-come numbering there is one key per entry and every value is an entry's. */
  lemma NumberedValues<V>(m: map<string, V>, style: Style, bases: seq<string>, values: seq<V>, keys: seq<string>)
    requires Numbered(m, style, bases, values, keys, |bases|)
    ensures forall v :: v in m.Values ==> v in values
  {
    forall v | v in m.Values ensures v in values {
      var k :| k in m && m[k] == v;
      var q :| 0 <= q < |keys| && keys[q] == k;
    }
  }

  /** Enter values[q] under the first free variant of bases[q], for q in order. No entry
      overwrites another, every base ends up as a key, the first entry keeps its bare base,
      and the numbering is first come, first served, which fixes the map (FirstComeUnique). */
  method Register<V(==)>(style: Style, bases: seq<string>, values: seq<V>) returns (m: map<string, V>)
    requires |bases| == |values|
    ensures |m| == |bases|
    ensures |bases| > 0 ==> bases[0] in m && m[bases[0]] == values[0]
    ensures forall q :: 0 <= q < |bases| ==> bases[q] in m
    ensures forall v :: v in m.Values ==> v in values
    ensures FirstCome(m, style, bases, values)
  {
    m := map[];
    ghost var keys: seq<string> := [];
    for p := 0 to |bases|
      invariant |m| == p
      invariant Numbered(m, style, bases, values, keys, p)
    {
      var key, j := FreeVariant(m, style, bases[p]);
      NumberedStep(m, style, bases, values, keys, p, key, j);
      m := m[key := values[p]];
      keys := keys + [key];
    }
    NumberedBases(m, style, bases, values, keys);
    NumberedValues(m, style, bases, values, keys);
  }
}
