/**
 * What the operations of module Model guarantee, and the quirks they keep.
 */
module Properties {
  import opened Geometry
  import opened Model

  // ---------------------------------------------------------------------------
  // RemoveOption
  // ---------------------------------------------------------------------------

  /**
   * Row.RemoveOption succeeds exactly when v is a key still flagged in the row; it
   * then clears that one flag and strikes v from every field of the row and from no
   * other field, so a second call fails. Values, counts, the group flags and the
   * flags of every other row stay as they were. On failure nothing changes.
   */
  lemma RowRemoveOptionSpec(s: State, axis: Axis, r: int, v: int)
    requires s.Inv() && 0 <= r < 9
    ensures var (s1, o) := RowRemoveOption(s, axis, r, v);
            && (o == Pass <==> IsKey(v) && v in s.Flags(Row(axis, r)))
            && (o == Fail ==> s1 == s)
            && (o == Pass ==> s1.value == s.value && s1.count == s.count && s1.group == s.group)
            && (o == Pass && axis == Horizontal ==> s1.hrow == s.hrow[r := s.hrow[r] - {v}] && s1.vrow == s.vrow)
            && (o == Pass && axis == Vertical ==> s1.vrow == s.vrow[r := s.vrow[r] - {v}] && s1.hrow == s.hrow)
            && (o == Pass ==> forall k :: 0 <= k < 81 && Contains(Row(axis, r), k) ==> s1.cand[k] == s.cand[k] - {v})
            && (o == Pass ==> forall k :: 0 <= k < 81 && !Contains(Row(axis, r), k) ==> s1.cand[k] == s.cand[k])
            && (o == Pass ==> RowRemoveOption(s1, axis, r, v) == (s1, Fail))
  {
  }

  /**
   * Group.RemoveOption strikes v from the group's fields and from no other field,
   * but leaves the group's flag set, so calling it again succeeds again and changes
   * nothing more. Values, counts and every unit flag stay as they were.
   */
  lemma GroupRemoveOptionRepeats(s: State, g: int, v: int)
    requires s.Inv() && 0 <= g < 9
    ensures var (s1, o) := GroupRemoveOption(s, g, v);
            && (o == Pass <==> IsKey(v) && v in s.group[g])
            && (o == Fail ==> s1 == s)
            && (o == Pass ==> s1.value == s.value && s1.count == s.count)
            && (o == Pass ==> s1.hrow == s.hrow && s1.vrow == s.vrow && s1.group == s.group)
            && (o == Pass ==> forall k :: 0 <= k < 81 && Contains(Group(g), k) ==> s1.cand[k] == s.cand[k] - {v})
            && (o == Pass ==> forall k :: 0 <= k < 81 && !Contains(Group(g), k) ==> s1.cand[k] == s.cand[k])
            && (o == Pass ==> GroupRemoveOption(s1, g, v) == (s1, Pass))
  {
    var (s1, o) := GroupRemoveOption(s, g, v);
    if o == Pass {
      var c2 := Strike(s1.cand, Group(g), v);
      assert forall k :: 0 <= k < 81 ==> c2[k] == s1.cand[k];
      assert c2 == s1.cand;
    }
  }

  // ---------------------------------------------------------------------------
  // SetValue
  // ---------------------------------------------------------------------------

  /**
   * SetValue succeeds exactly when v is a key with uses left and the group, row and
   * column of f all still flag v. Whether v is still a candidate of f itself plays
   * no part: a struck candidate is not rejected.
   */
  lemma SetValuePassIff(s: State, f: int, v: int)
    requires s.Inv() && 0 <= f < 81
    ensures SetValue(s, f, v).1 == Pass <==>
              IsKey(v) && s.count[v] > 0
              && v in s.group[GroupOf(f)] && v in s.hrow[f / 9] && v in s.vrow[f % 9]
  {
  }

  /**
   * A successful SetValue places v in f, leaves v as f's only candidate, strikes v
   * from every other field that shares a row, column or group with f, clears the
   * row and column flags of v, keeps the group flags and spends one use of v.
   */
  lemma SetValueEffects(s: State, f: int, v: int)
    requires s.Inv() && 0 <= f < 81
    requires SetValue(s, f, v).1 == Pass
    ensures var r := SetValue(s, f, v).0;
            && r.value == s.value[f := v]
            && r.cand[f] == {v}
            && (forall k :: 0 <= k < 81 && k != f && Peer(k, f) ==> r.cand[k] == s.cand[k] - {v})
            && (forall k :: 0 <= k < 81 && !Peer(k, f) ==> r.cand[k] == s.cand[k])
            && r.hrow == s.hrow[f / 9 := s.hrow[f / 9] - {v}]
            && r.vrow == s.vrow[f % 9 := s.vrow[f % 9] - {v}]
            && r.group == s.group
            && r.count == s.count[v := s.count[v] - 1]
  {
  }

  /**
   * SetValue is not atomic: once the key and count checks pass, f holds v even when
   * a later removal fails, while the counts stay as they were.
   */
  lemma SetValueNotAtomic(s: State, f: int, v: int)
    requires s.Inv() && 0 <= f < 81
    ensures var (r, o) := SetValue(s, f, v);
            && (!IsKey(v) || s.count[v] == 0 ==> r == s && o == Fail)
            && (IsKey(v) && s.count[v] > 0 ==> r.value == s.value[f := v])
            && (o == Fail ==> r.count == s.count)
  {
  }

  /** A value placed in a field cannot be placed again in the same row or column. */
  lemma NoDuplicateInLine(s: State, f: int, k: int, v: int)
    requires s.Inv() && 0 <= f < 81 && 0 <= k < 81
    requires f / 9 == k / 9 || f % 9 == k % 9
    requires SetValue(s, f, v).1 == Pass
    ensures SetValue(SetValue(s, f, v).0, k, v).1 == Fail
  {
    SetValueEffects(s, f, v);
    SetValuePassIff(SetValue(s, f, v).0, k, v);
  }

  /**
   * The group flag does not guard a group: after v is placed in f, a second v in
   * another field of the same group is accepted whenever that field's row and
   * column still flag v and a use of v is left.
   */
  lemma DuplicateInGroupAccepted(s: State, f: int, k: int, v: int)
    requires s.Inv() && 0 <= f < 81 && 0 <= k < 81
    requires GroupOf(f) == GroupOf(k) && f / 9 != k / 9 && f % 9 != k % 9
    requires SetValue(s, f, v).1 == Pass
    ensures var s1 := SetValue(s, f, v).0;
            SetValue(s1, k, v).1 == Pass <==> s1.count[v] > 0 && v in s.hrow[k / 9] && v in s.vrow[k % 9]
  {
    SetValueEffects(s, f, v);
    SetValuePassIff(s, f, v);
    SetValuePassIff(SetValue(s, f, v).0, k, v);
  }

  // ---------------------------------------------------------------------------
  // getPossibleFields and getPossibleValues
  // ---------------------------------------------------------------------------

  /** Field k is still open for v: empty, with v among its candidates. */
  predicate Open(s: State, k: int, v: int)
    requires s.Inv() && 0 <= k < 81
  {
    s.value[k] == 0 && v in s.cand[k]
  }

  /** The slots of unit u whose field is open for v. */
  function OpenSlots(s: State, u: Unit, v: int): set<int>
    requires s.Inv() && u.Valid()
  {
    set t | 0 <= t < 9 && Open(s, Member(u, t), v)
  }

  /** The elements of p in 0..n-1. */
  function Below(p: set<int>, n: int): set<int> {
    set t | t in p && 0 <= t < n
  }

  /** The elements of p in 0..n-1, in ascending order. */
  function Ascending(p: set<int>, n: int): seq<int>
    requires 0 <= n
  {
    if n == 0 then [] else Ascending(p, n - 1) + if n - 1 in p then [n - 1] else []
  }

  /** Ascending(p, n) holds elements of p in 0..n-1, in strictly ascending order. */
  lemma {:induction false} AscendingSorted(p: set<int>, n: int)
    requires 0 <= n
    ensures forall i :: 0 <= i < |Ascending(p, n)| ==> 0 <= Ascending(p, n)[i] < n && Ascending(p, n)[i] in p
    ensures forall i, j :: 0 <= i < j < |Ascending(p, n)| ==> Ascending(p, n)[i] < Ascending(p, n)[j]
  {
    if n > 0 {
      AscendingSorted(p, n - 1);
    }
  }

  /** Ascending(p, n) misses no element of p in 0..n-1. */
  lemma {:induction false} AscendingComplete(p: set<int>, n: int)
    requires 0 <= n
    ensures forall t :: 0 <= t < n && t in p ==> t in Ascending(p, n)
  {
    if n > 0 {
      AscendingComplete(p, n - 1);
      var ts := Ascending(p, n);
      if n - 1 in p {
        assert ts[|ts| - 1] == n - 1;
      }
    }
  }

  /** Ascending(p, n) has one entry per element of p in 0..n-1. */
  lemma {:induction false} AscendingCount(p: set<int>, n: int)
    requires 0 <= n
    ensures |Ascending(p, n)| == |Below(p, n)|
  {
    if n > 0 {
      AscendingCount(p, n - 1);
      if n - 1 in p {
        assert Below(p, n) == Below(p, n - 1) + {n - 1};
      } else {
        assert Below(p, n) == Below(p, n - 1);
      }
    } else {
      assert Below(p, 0) == {};
    }
  }

  /** getPossibleFields lists the fields of the open slots, slot by slot. */
  lemma {:induction false} PossibleFieldsSlots(s: State, u: Unit, v: int, n: int)
    requires s.Inv() && u.Valid() && 0 <= n <= 9
    ensures var fs, ts := PossibleFields(s, u, v, n), Ascending(OpenSlots(s, u, v), n);
            && |fs| == |ts|
            && forall i :: 0 <= i < |ts| ==> 0 <= ts[i] < 9 && fs[i] == Member(u, ts[i])
  {
    if n > 0 {
      PossibleFieldsSlots(s, u, v, n - 1);
      AscendingSorted(OpenSlots(s, u, v), n - 1);
      assert n - 1 in OpenSlots(s, u, v) <==> Open(s, Member(u, n - 1), v);
    }
  }

  /**
   * getPossibleFields over the first n slots yields fields of the unit that are open
   * for v, in slot order, and every open field among those slots.
   */
  lemma PossibleFieldsPrefix(s: State, u: Unit, v: int, n: int)
    requires s.Inv() && u.Valid() && 0 <= n <= 9
    ensures var fs := PossibleFields(s, u, v, n);
            && (forall i :: 0 <= i < |fs| ==> Contains(u, fs[i]) && SlotOf(u, fs[i]) < n && Open(s, fs[i], v))
            && (forall t :: 0 <= t < n && Open(s, Member(u, t), v) ==> Member(u, t) in fs)
            && (forall i, j :: 0 <= i < j < |fs| ==> SlotOf(u, fs[i]) < SlotOf(u, fs[j]))
  {
    var fs, ts := PossibleFields(s, u, v, n), Ascending(OpenSlots(s, u, v), n);
    AscendingSorted(OpenSlots(s, u, v), n);
    AscendingComplete(OpenSlots(s, u, v), n);
    PossibleFieldsSlots(s, u, v, n);
    forall i | 0 <= i < |fs|
      ensures Contains(u, fs[i]) && SlotOf(u, fs[i]) == ts[i]
    {
      MemberInverse(u, ts[i]);
    }
    forall t | 0 <= t < n && Open(s, Member(u, t), v)
      ensures Member(u, t) in fs
    {
      assert t in OpenSlots(s, u, v);
      var i :| 0 <= i < |ts| && ts[i] == t;
      assert fs[i] == Member(u, t);
    }
  }

  /**
   * getPossibleFields yields exactly the open fields of the unit for v, each once,
   * in the unit's slot order.
   */
  lemma PossibleFieldsExact(s: State, u: Unit, v: int)
    requires s.Inv() && u.Valid()
    ensures var fs := PossibleFields(s, u, v, 9);
            && (forall k :: k in fs <==> 0 <= k < 81 && Contains(u, k) && Open(s, k, v))
            && (forall i, j :: 0 <= i < j < |fs| ==> SlotOf(u, fs[i]) < SlotOf(u, fs[j]))
            && (forall i, j :: 0 <= i < j < |fs| ==> fs[i] != fs[j])
  {
    var fs := PossibleFields(s, u, v, 9);
    PossibleFieldsPrefix(s, u, v, 9);
    forall k | 0 <= k < 81 && Contains(u, k) && Open(s, k, v)
      ensures k in fs
    {
      SlotInverse(u, k);
    }
  }

  lemma {:induction false} PossibleValuesPrefix(c: set<int>, n: int)
    requires 0 <= n <= 9
    ensures var vs := PossibleValues(c, n);
            && (forall i :: 0 <= i < |vs| ==> 1 <= vs[i] <= n && vs[i] in c)
            && (forall x :: 1 <= x <= n && x in c ==> x in vs)
            && (forall i, j :: 0 <= i < j < |vs| ==> vs[i] < vs[j])
  {
    if n > 0 {
      PossibleValuesPrefix(c, n - 1);
    }
  }

  lemma {:induction false} PossibleValuesCount(c: set<int>, n: int)
    requires 0 <= n <= 9
    ensures |PossibleValues(c, n)| == |set x | x in c && 1 <= x <= n|
  {
    if n > 0 {
      PossibleValuesCount(c, n - 1);
      var below := set x | x in c && 1 <= x <= n - 1;
      var upto := set x | x in c && 1 <= x <= n;
      if n in c {
        assert upto == below + {n};
      } else {
        assert upto == below;
      }
    }
  }

  /**
   * getPossibleValues yields each candidate of the field once, in ascending order;
   * so it has one element exactly when the field has one candidate.
   */
  lemma PossibleValuesExact(c: set<int>)
    requires c <= DIGITS
    ensures var vs := PossibleValues(c, 9);
            && (forall x :: x in vs <==> x in c)
            && (forall i, j :: 0 <= i < j < |vs| ==> vs[i] < vs[j])
            && |vs| == |c|
  {
    PossibleValuesPrefix(c, 9);
    PossibleValuesCount(c, 9);
    assert (set x | x in c && 1 <= x <= 9) == c;
  }

  /** A field whose option map has a single true key, that key being v, allows nothing but v. */
  lemma SingleCandidate(c: set<int>, v: int)
    requires c <= DIGITS && v in c && |PossibleValues(c, 9)| == 1
    ensures c == {v}
  {
    PossibleValuesExact(c);
    assert |c - {v}| == 0;
  }

  // ---------------------------------------------------------------------------
  // TryValue
  // ---------------------------------------------------------------------------

  /**
   * TryValue on a unit leaves the state alone when it places nothing: an error for
   * a non-key, (false, nil) when the unit no longer flags v or finds no field.
   */
  lemma TryValueNoChange(s: State, u: Unit, v: int)
    requires s.Inv() && u.Valid()
    ensures var res := TryValue(s, u, v);
            && (!IsKey(v) ==> res == (s, Err))
            && (IsKey(v) && v !in s.Flags(u) ==> res == (s, Ok(false)))
            && (res.1 == Ok(false) ==> res.0 == s)
  {
  }

  /**
   * Otherwise TryValue makes exactly one SetValue of v into an open field f of the
   * unit that is either the only open field for v there (a hidden single) or has
   * v as its only candidate (a naked single).
   */
  lemma TryValuePlaces(s: State, u: Unit, v: int)
    requires s.Inv() && u.Valid() && IsKey(v)
    ensures var res := TryValue(s, u, v);
            res.1 != Ok(false) ==>
              exists f :: 0 <= f < 81 && Contains(u, f) && Open(s, f, v) && res == Place(s, f, v)
                          && (s.cand[f] == {v} || forall k :: 0 <= k < 81 && Contains(u, k) && Open(s, k, v) ==> k == f)
  {
    if v in s.Flags(u) {
      var fs := PossibleFields(s, u, v, 9);
      if |fs| == 1 {
        PlacesOnlyField(s, u, v);
        var f := fs[0];
        assert TryValue(s, u, v) == Place(s, f, v);
      } else if FirstSingleton(s, fs, 0).Some? {
        PlacesSingleCandidate(s, u, v);
        var f := FirstSingleton(s, fs, 0).value;
        assert TryValue(s, u, v) == Place(s, f, v);
      }
    }
  }

  /** The hidden-single branch of TryValue: the only possible field is the only open field of the unit. */
  lemma PlacesOnlyField(s: State, u: Unit, v: int)
    requires s.Inv() && u.Valid() && |PossibleFields(s, u, v, 9)| == 1
    ensures var f := PossibleFields(s, u, v, 9)[0];
            && Contains(u, f) && Open(s, f, v)
            && forall k :: 0 <= k < 81 && Contains(u, k) && Open(s, k, v) ==> k == f
  {
    var fs := PossibleFields(s, u, v, 9);
    PossibleFieldsExact(s, u, v);
    var f := fs[0];
    assert f in fs;
    forall k | 0 <= k < 81 && Contains(u, k) && Open(s, k, v)
      ensures k == f
    {
      assert k in fs;
    }
  }

  /** The naked-single branch of TryValue: the field it picks is open in the unit and has v as its only candidate. */
  lemma PlacesSingleCandidate(s: State, u: Unit, v: int)
    requires s.Inv() && u.Valid()
    requires FirstSingleton(s, PossibleFields(s, u, v, 9), 0).Some?
    ensures var f := FirstSingleton(s, PossibleFields(s, u, v, 9), 0).value;
            && 0 <= f < 81 && Contains(u, f) && Open(s, f, v) && s.cand[f] == {v}
  {
    var fs := PossibleFields(s, u, v, 9);
    PossibleFieldsExact(s, u, v);
    var f := FirstSingleton(s, fs, 0).value;
    assert f in fs;
    SingleCandidate(s.cand[f], v);
  }

  /** A unit with a single open field for v places v there (a hidden single). */
  lemma TryValueHiddenSingle(s: State, u: Unit, v: int, f: int)
    requires s.Inv() && u.Valid() && IsKey(v) && v in s.Flags(u)
    requires 0 <= f < 81 && Contains(u, f) && Open(s, f, v)
    requires forall k :: 0 <= k < 81 && Contains(u, k) && Open(s, k, v) ==> k == f
    ensures TryValue(s, u, v) == Place(s, f, v)
  {
    var fs := PossibleFields(s, u, v, 9);
    PossibleFieldsExact(s, u, v);
    PossibleFieldsSlots(s, u, v, 9);
    AscendingCount(OpenSlots(s, u, v), 9);
    SlotInverse(u, f);
    forall t | 0 <= t < 9 && Open(s, Member(u, t), v)
      ensures t == SlotOf(u, f)
    {
      MemberInverse(u, t);
    }
    assert Below(OpenSlots(s, u, v), 9) == {SlotOf(u, f)};
    assert fs[0] in fs;
  }

  /** Field k has a single true key in its option map: getPossibleValues returns one value. */
  predicate Single(s: State, k: int)
    requires s.Inv() && 0 <= k < 81
  {
    |PossibleValues(s.cand[k], 9)| == 1
  }

  /**
   * The loop of TryValue over the listed fields stops at the first of fs[i..] with a
   * single candidate, and finds nothing only when none of them has one.
   */
  lemma {:induction false} FirstSingletonFirst(s: State, fs: seq<int>, i: int)
    requires s.Inv() && 0 <= i <= |fs| && forall j :: 0 <= j < |fs| ==> 0 <= fs[j] < 81
    ensures FirstSingleton(s, fs, i).None? ==> forall j :: i <= j < |fs| ==> !Single(s, fs[j])
    ensures FirstSingleton(s, fs, i).Some? ==>
              exists j :: i <= j < |fs| && fs[j] == FirstSingleton(s, fs, i).value
                          && forall l :: i <= l < j ==> !Single(s, fs[l])
    decreases |fs| - i
  {
    if i < |fs| && !Single(s, fs[i]) {
      FirstSingletonFirst(s, fs, i + 1);
      if FirstSingleton(s, fs, i).Some? {
        var j :| i + 1 <= j < |fs| && fs[j] == FirstSingleton(s, fs, i + 1).value
                 && forall l :: i + 1 <= l < j ==> !Single(s, fs[l]);
        assert forall l :: i <= l < j ==> !Single(s, fs[l]);
      }
    }
  }

  /**
   * When no listed field before index j has a single candidate, no open field of the
   * unit in an earlier slot than the listed field j has one: the list is in slot order.
   */
  lemma EarlierSlotsNotSingle(s: State, u: Unit, v: int, j: int)
    requires s.Inv() && u.Valid()
    requires 0 <= j < |PossibleFields(s, u, v, 9)|
    requires forall l :: 0 <= l < j ==> !Single(s, PossibleFields(s, u, v, 9)[l])
    ensures forall k :: 0 <= k < 81 && Contains(u, k) && Open(s, k, v) && SlotOf(u, k) < SlotOf(u, PossibleFields(s, u, v, 9)[j])
                        ==> !Single(s, k)
  {
    var fs := PossibleFields(s, u, v, 9);
    PossibleFieldsExact(s, u, v);
    forall k | 0 <= k < 81 && Contains(u, k) && Open(s, k, v) && SlotOf(u, k) < SlotOf(u, fs[j])
      ensures !Single(s, k)
    {
      assert k in fs;
      var l :| 0 <= l < |fs| && fs[l] == k;
      assert l < j;
    }
  }

  /**
   * When an open field of the unit has v as its only candidate, the loop of TryValue
   * finds a field: an open field of the unit whose only candidate is v, with no open
   * field in an earlier slot that has a single candidate.
   */
  lemma FirstSingletonFinds(s: State, u: Unit, v: int, f: int)
    requires s.Inv() && u.Valid()
    requires 0 <= f < 81 && Contains(u, f) && Open(s, f, v) && s.cand[f] == {v}
    ensures var r := FirstSingleton(s, PossibleFields(s, u, v, 9), 0);
            && r.Some? && Contains(u, r.value) && Open(s, r.value, v) && s.cand[r.value] == {v}
            && forall k :: 0 <= k < 81 && Contains(u, k) && Open(s, k, v) && SlotOf(u, k) < SlotOf(u, r.value) ==> !Single(s, k)
  {
    var fs := PossibleFields(s, u, v, 9);
    PossibleFieldsExact(s, u, v);
    PossibleValuesExact(s.cand[f]);
    assert f in fs && Single(s, f);
    FirstSingletonFirst(s, fs, 0);
    var g := FirstSingleton(s, fs, 0).value;
    var j :| 0 <= j < |fs| && fs[j] == g && forall l :: 0 <= l < j ==> !Single(s, fs[l]);
    SingleCandidate(s.cand[g], v);
    EarlierSlotsNotSingle(s, u, v, j);
  }

  /**
   * The naked-single rule in the other direction: when the unit still flags v and one
   * of its open fields has v as its only candidate, TryValue places v. It places it in
   * an open field whose only candidate is v, and no open field of the unit in an
   * earlier slot has a single candidate.
   */
  lemma TryValueNakedSingle(s: State, u: Unit, v: int, f: int)
    requires s.Inv() && u.Valid() && IsKey(v) && v in s.Flags(u)
    requires 0 <= f < 81 && Contains(u, f) && Open(s, f, v) && s.cand[f] == {v}
    ensures TryValue(s, u, v).1 != Ok(false)
    ensures exists g :: 0 <= g < 81 && Contains(u, g) && Open(s, g, v) && s.cand[g] == {v}
                        && TryValue(s, u, v) == Place(s, g, v)
                        && forall k :: 0 <= k < 81 && Contains(u, k) && Open(s, k, v) && SlotOf(u, k) < SlotOf(u, g) ==> !Single(s, k)
  {
    var fs := PossibleFields(s, u, v, 9);
    if |fs| == 1 {
      PlacesOnlyField(s, u, v);
      assert fs[0] == f;
      assert TryValue(s, u, v) == Place(s, f, v);
    } else {
      FirstSingletonFinds(s, u, v, f);
      var g := FirstSingleton(s, fs, 0).value;
      assert TryValue(s, u, v) == Place(s, g, v);
    }
  }

  // ---------------------------------------------------------------------------
  // The driver
  // ---------------------------------------------------------------------------

  /** Grid.Options holds 81 pending placements after Initialize and never more than 81. */
  lemma TotalBounds(s: State)
    requires s.Inv()
    ensures 0 <= Total(s.count) <= 81
    ensures Total(Initial().count) == 81
  {
    TotalFromBounds(s.count, 1);
  }

  lemma {:induction false} TotalFromZero(c: seq<int>, v: int)
    requires |c| == 10 && 1 <= v <= 10
    requires forall w :: 1 <= w <= 9 ==> 0 <= c[w] <= 9
    ensures TotalFrom(c, v) == 0 <==> forall w :: v <= w <= 9 ==> c[w] == 0
    decreases 10 - v
  {
    if v < 10 {
      TotalFromZero(c, v + 1);
      TotalFromBounds(c, v + 1);
    }
  }

  /** IsSolved holds exactly when no placement is pending. */
  lemma SolvedIff(s: State)
    requires s.Inv()
    ensures IsSolved(s) <==> Total(s.count) == 0
  {
    TotalFromZero(s.count, 1);
  }

  lemma {:induction false} RowsFromSolved(s: State, v: int)
    requires s.Inv() && IsSolved(s) && 1 <= v <= 10
    ensures RowsFrom(s, v) == (s, false)
    decreases 10 - v
  {
    if v < 10 {
      RowsFromSolved(s, v + 1);
    }
  }

  lemma {:induction false} GroupsFromSolved(s: State, v: int)
    requires s.Inv() && IsSolved(s) && 1 <= v <= 10
    ensures GroupsFrom(s, v) == (s, false)
    decreases 10 - v
  {
    if v < 10 {
      GroupsFromSolved(s, v + 1);
    }
  }

  /** On a solved grid a pass changes nothing and reports no change, and the loop stops after it. */
  lemma SolvedIsFixed(s: State, tries: int)
    requires s.Inv() && IsSolved(s) && tries >= 0
    ensures CycleRows(s) == (s, false)
    ensures Solve(s, tries) == s
    ensures SolvePasses(s, tries) == if tries == 0 then 0 else 1
  {
    RowsFromSolved(s, 1);
    GroupsFromSolved(s, 1);
  }

  /**
   * The retry loop stops: every pass either places a value or spends one of the
   * tries, so it makes at most Total + tries passes, at most 81 + 10000 for main.
   */
  lemma {:induction false} SolvePassesBound(s: State, tries: int)
    requires s.Inv() && tries >= 0
    ensures SolvePasses(s, tries) <= Total(s.count) + tries <= 81 + tries
    decreases Total(s.count) + tries
  {
    TotalFromBounds(s.count, 1);
    if tries > 0 {
      var (s1, changed) := CycleRows(s);
      if !IsSolved(s1) {
        TotalMonotone(s1.count, s.count, 1);
        TotalFromBounds(s1.count, 1);
        SolvePassesBound(s1, if changed then tries else tries - 1);
      }
    }
  }

  /** The solver never raises a count and never touches a group flag. */
  lemma {:induction false} SolveMonotone(s: State, tries: int)
    requires s.Inv() && tries >= 0
    ensures CountsBelow(Solve(s, tries).count, s.count)
    ensures Solve(s, tries).group == s.group
    decreases Total(s.count) + tries
  {
    if tries > 0 {
      var (s1, changed) := CycleRows(s);
      if !IsSolved(s1) {
        TotalMonotone(s1.count, s.count, 1);
        TotalFromBounds(s1.count, 1);
        SolveMonotone(s1, if changed then tries else tries - 1);
      }
    }
  }

  /** Group flags start full and stay full, so Group.RemoveOption always succeeds for a key. */
  lemma GroupFlagsStayFull(s: State, g: int, v: int, tries: int)
    requires s.Inv() && 0 <= g < 9 && IsKey(v) && tries >= 0
    requires forall i :: 0 <= i < 9 ==> s.group[i] == DIGITS
    ensures Solve(s, tries).group[g] == DIGITS
    ensures GroupRemoveOption(Solve(s, tries), g, v).1 == Pass
  {
    assert v in DIGITS;
    SolveMonotone(s, tries);
  }

  // ---------------------------------------------------------------------------
  // SetValues
  // ---------------------------------------------------------------------------

  /** The value a byte of the input stands for: '1'..'9' is a digit, anything else an empty field. */
  function Digit(c: Byte): (d: int)
    ensures 0 <= d <= 9
    ensures d != 0 <==> 48 < c < 58
  {
    if 48 < c < 58 then c - 48 else 0
  }

  function Min(a: int, b: int): int {
    if a < b then a else b
  }

  /** A digit SetValue refuses at pos stops SetValues there, with or without the bytes past 81. */
  lemma ReadsAtMost81Refused(s: State, stream: seq<Byte>, pos: int)
    requires s.Inv() && 0 <= pos < 81 && pos < |stream| && 48 < stream[pos] < 58
    requires SetValue(s, pos, stream[pos] - 48).1 == Fail
    ensures SetValues(s, stream, pos) == SetValues(s, stream[..Min(|stream|, 81)], pos)
  {
    var cut := stream[..Min(|stream|, 81)];
    var s1 := SetValue(s, pos, stream[pos] - 48).0;
    assert pos < |cut| && cut[pos] == stream[pos];
    assert SetValues(s, stream, pos) == (s1, BadField(pos));
    assert SetValues(s, cut, pos) == (s1, BadField(pos));
  }

  /** A digit SetValue accepts at pos leaves the question to the next field. */
  lemma ReadsAtMost81Placed(s: State, stream: seq<Byte>, pos: int)
    requires s.Inv() && 0 <= pos < 81 && pos < |stream| && 48 < stream[pos] < 58
    requires SetValue(s, pos, stream[pos] - 48).1 == Pass
    requires var s1 := SetValue(s, pos, stream[pos] - 48).0;
             SetValues(s1, stream, pos + 1) == SetValues(s1, stream[..Min(|stream|, 81)], pos + 1)
    ensures SetValues(s, stream, pos) == SetValues(s, stream[..Min(|stream|, 81)], pos)
  {
    var cut := stream[..Min(|stream|, 81)];
    var s1 := SetValue(s, pos, stream[pos] - 48).0;
    assert cut[pos] == stream[pos];
    assert SetValues(s, stream, pos) == SetValues(s1, stream, pos + 1);
    assert SetValues(s, cut, pos) == SetValues(s1, cut, pos + 1);
  }

  /** Any other byte at pos leaves the question to the next field. */
  lemma ReadsAtMost81Skipped(s: State, stream: seq<Byte>, pos: int)
    requires s.Inv() && 0 <= pos < 81 && pos < |stream| && !(48 < stream[pos] < 58)
    requires var s1 := s.(value := s.value[pos := 0]);
             SetValues(s1, stream, pos + 1) == SetValues(s1, stream[..Min(|stream|, 81)], pos + 1)
    ensures SetValues(s, stream, pos) == SetValues(s, stream[..Min(|stream|, 81)], pos)
  {
    var cut := stream[..Min(|stream|, 81)];
    var s1 := s.(value := s.value[pos := 0]);
    assert cut[pos] == stream[pos];
    assert SetValues(s, stream, pos) == SetValues(s1, stream, pos + 1);
    assert SetValues(s, cut, pos) == SetValues(s1, cut, pos + 1);
  }

  /** SetValues reads at most 81 bytes: whatever follows them is ignored. */
  lemma {:induction false} SetValuesReadsAtMost81(s: State, stream: seq<Byte>, pos: int)
    requires s.Inv() && 0 <= pos <= 81
    ensures SetValues(s, stream, pos) == SetValues(s, stream[..Min(|stream|, 81)], pos)
    decreases 81 - pos
  {
    if pos < |stream| && pos < 81 {
      if 48 < stream[pos] < 58 {
        var (s1, o) := SetValue(s, pos, stream[pos] - 48);
        if o == Fail {
          ReadsAtMost81Refused(s, stream, pos);
        } else {
          SetValuesReadsAtMost81(s1, stream, pos + 1);
          ReadsAtMost81Placed(s, stream, pos);
        }
      } else {
        SetValuesReadsAtMost81(s.(value := s.value[pos := 0]), stream, pos + 1);
        ReadsAtMost81Skipped(s, stream, pos);
      }
    } else {
      assert |stream[..Min(|stream|, 81)]| <= pos;
    }
  }

  /** SetValues never changes a field before the position it starts from. */
  lemma {:induction false} SetValuesKeepsRead(s: State, stream: seq<Byte>, pos: int)
    requires s.Inv() && 0 <= pos <= 81
    ensures forall p :: 0 <= p < pos ==> SetValues(s, stream, pos).0.value[p] == s.value[p]
    decreases 81 - pos
  {
    if pos < |stream| && pos < 81 {
      var c := stream[pos];
      if 48 < c < 58 {
        var (s1, o) := SetValue(s, pos, c - 48);
        SetValueNotAtomic(s, pos, c - 48);
        if o == Pass {
          assert SetValues(s, stream, pos) == SetValues(s1, stream, pos + 1);
          SetValuesKeepsRead(s1, stream, pos + 1);
        }
      } else {
        var s1 := s.(value := s.value[pos := 0]);
        assert SetValues(s, stream, pos) == SetValues(s1, stream, pos + 1);
        SetValuesKeepsRead(s1, stream, pos + 1);
      }
    }
  }

  /**
   * SetValues leaves alone every field it does not reach: past the end of the
   * stream when it succeeds, past the failing field when it stops.
   */
  lemma {:induction false} SetValuesKeepsUnread(s: State, stream: seq<Byte>, pos: int)
    requires s.Inv() && 0 <= pos <= 81
    ensures var (r, o) := SetValues(s, stream, pos);
            && (o == Parsed ==> forall p :: |stream| <= p < 81 ==> r.value[p] == s.value[p])
            && (o.BadField? ==> forall p :: 0 <= p < 81 && o.pos < p ==> r.value[p] == s.value[p])
    decreases 81 - pos
  {
    if pos < |stream| && pos < 81 {
      var c := stream[pos];
      if 48 < c < 58 {
        var (s1, o) := SetValue(s, pos, c - 48);
        SetValueNotAtomic(s, pos, c - 48);
        if o == Pass {
          assert SetValues(s, stream, pos) == SetValues(s1, stream, pos + 1);
          SetValuesKeepsUnread(s1, stream, pos + 1);
          SetValuesStops(s1, stream, pos + 1);
        }
      } else {
        var s1 := s.(value := s.value[pos := 0]);
        assert SetValues(s, stream, pos) == SetValues(s1, stream, pos + 1);
        SetValuesKeepsUnread(s1, stream, pos + 1);
        SetValuesStops(s1, stream, pos + 1);
      }
    }
  }

  /** SetValues stops only at a field of the first 81 that holds a digit byte. */
  lemma {:induction false} SetValuesStops(s: State, stream: seq<Byte>, pos: int)
    requires s.Inv() && 0 <= pos <= 81
    ensures var o := SetValues(s, stream, pos).1;
            o.BadField? ==> pos <= o.pos < |stream| && o.pos < 81 && 48 < stream[o.pos] < 58
    decreases 81 - pos
  {
    if pos < |stream| && pos < 81 {
      var c := stream[pos];
      if 48 < c < 58 {
        var (s1, o) := SetValue(s, pos, c - 48);
        if o == Pass {
          assert SetValues(s, stream, pos) == SetValues(s1, stream, pos + 1);
          SetValuesStops(s1, stream, pos + 1);
        }
      } else {
        var s1 := s.(value := s.value[pos := 0]);
        assert SetValues(s, stream, pos) == SetValues(s1, stream, pos + 1);
        SetValuesStops(s1, stream, pos + 1);
      }
    }
  }

  /**
   * The grid SetValues has built when it reaches the field it stops at: the state it
   * hands to SetValue for the field that fails, or its final state when none fails.
   */
  ghost function Reached(s: State, stream: seq<Byte>, pos: int): (t: State)
    requires s.Inv() && 0 <= pos <= 81
    ensures t.Inv()
    decreases 81 - pos, s
  {
    if pos >= |stream| || pos == 81 then s
    else
      var c := stream[pos];
      if 48 < c < 58 then
        var (s1, o) := SetValue(s, pos, c - 48);
        if o == Fail then s else Reached(s1, stream, pos + 1)
      else
        Reached(s.(value := s.value[pos := 0]), stream, pos + 1)
  }

  /**
   * If SetValues, started at pos, stops with BadField(e), then field e holds a digit byte
   * and the state SetValues returns is the one SetValue returned when it refused that
   * digit on the valid grid SetValues had built up to field e.
   */
  ghost predicate StopsRefused(s: State, stream: seq<Byte>, pos: int)
    requires s.Inv() && 0 <= pos <= 81
  {
    var (r, o) := SetValues(s, stream, pos);
    o.BadField? ==> && 0 <= o.pos < |stream| && o.pos < 81 && 48 < stream[o.pos] < 58
                    && SetValue(Reached(s, stream, pos), o.pos, stream[o.pos] - 48) == (r, Fail)
  }

  /** A digit SetValue refuses at pos stops SetValues there, on the grid it was given. */
  lemma StopsRefusedHere(s: State, stream: seq<Byte>, pos: int)
    requires s.Inv() && 0 <= pos < 81 && pos < |stream| && 48 < stream[pos] < 58
    requires SetValue(s, pos, stream[pos] - 48).1 == Fail
    ensures StopsRefused(s, stream, pos)
  {
    assert SetValues(s, stream, pos) == (SetValue(s, pos, stream[pos] - 48).0, BadField(pos));
    assert Reached(s, stream, pos) == s;
  }

  /** A digit SetValue accepts at pos hands the question on to the next field. */
  lemma StopsRefusedPlaced(s: State, stream: seq<Byte>, pos: int)
    requires s.Inv() && 0 <= pos < 81 && pos < |stream| && 48 < stream[pos] < 58
    requires SetValue(s, pos, stream[pos] - 48).1 == Pass
    requires StopsRefused(SetValue(s, pos, stream[pos] - 48).0, stream, pos + 1)
    ensures StopsRefused(s, stream, pos)
  {
    var s1 := SetValue(s, pos, stream[pos] - 48).0;
    assert SetValues(s, stream, pos) == SetValues(s1, stream, pos + 1);
    assert Reached(s, stream, pos) == Reached(s1, stream, pos + 1);
  }

  /** Any other byte at pos hands the question on to the next field. */
  lemma StopsRefusedSkipped(s: State, stream: seq<Byte>, pos: int)
    requires s.Inv() && 0 <= pos < 81 && pos < |stream| && !(48 < stream[pos] < 58)
    requires StopsRefused(s.(value := s.value[pos := 0]), stream, pos + 1)
    ensures StopsRefused(s, stream, pos)
  {
    var s1 := s.(value := s.value[pos := 0]);
    assert SetValues(s, stream, pos) == SetValues(s1, stream, pos + 1);
    assert Reached(s, stream, pos) == Reached(s1, stream, pos + 1);
  }

  /** SetValues stops with BadField only where SetValue refused the digit it read there. */
  lemma {:induction false} SetValuesRefused(s: State, stream: seq<Byte>, pos: int)
    requires s.Inv() && 0 <= pos <= 81
    ensures StopsRefused(s, stream, pos)
    decreases 81 - pos
  {
    if pos < |stream| && pos < 81 {
      if 48 < stream[pos] < 58 {
        var (s1, o) := SetValue(s, pos, stream[pos] - 48);
        if o == Fail {
          StopsRefusedHere(s, stream, pos);
        } else {
          SetValuesRefused(s1, stream, pos + 1);
          StopsRefusedPlaced(s, stream, pos);
        }
      } else {
        SetValuesRefused(s.(value := s.value[pos := 0]), stream, pos + 1);
        StopsRefusedSkipped(s, stream, pos);
      }
    } else {
      assert SetValues(s, stream, pos).1 == Parsed;
    }
  }

  /** When SetValues succeeds, every field it read from pos on holds its digit (0 for any other byte). */
  lemma {:induction false} SetValuesDecodes(s: State, stream: seq<Byte>, pos: int)
    requires s.Inv() && 0 <= pos <= 81
    ensures var (r, o) := SetValues(s, stream, pos);
            o == Parsed ==> forall p :: pos <= p < |stream| && p < 81 ==> r.value[p] == Digit(stream[p])
    decreases 81 - pos
  {
    if pos < |stream| && pos < 81 {
      var c := stream[pos];
      if 48 < c < 58 {
        var (s1, o) := SetValue(s, pos, c - 48);
        if o == Pass {
          SetValueNotAtomic(s, pos, c - 48);
          assert SetValues(s, stream, pos) == SetValues(s1, stream, pos + 1);
          SetValuesDecodes(s1, stream, pos + 1);
          SetValuesKeepsRead(s1, stream, pos + 1);
        }
      } else {
        var s1 := s.(value := s.value[pos := 0]);
        assert SetValues(s, stream, pos) == SetValues(s1, stream, pos + 1);
        SetValuesDecodes(s1, stream, pos + 1);
        SetValuesKeepsRead(s1, stream, pos + 1);
      }
    }
  }

  /** When SetValues stops with BadField(e), every field before e from pos on holds its digit. */
  lemma {:induction false} SetValuesDecodesPrefix(s: State, stream: seq<Byte>, pos: int)
    requires s.Inv() && 0 <= pos <= 81
    ensures var (r, o) := SetValues(s, stream, pos);
            o.BadField? ==> forall p :: pos <= p < o.pos && p < |stream| && p < 81 ==> r.value[p] == Digit(stream[p])
    decreases 81 - pos
  {
    if pos < |stream| && pos < 81 {
      var c := stream[pos];
      if 48 < c < 58 {
        var (s1, o) := SetValue(s, pos, c - 48);
        if o == Pass {
          SetValueNotAtomic(s, pos, c - 48);
          assert SetValues(s, stream, pos) == SetValues(s1, stream, pos + 1);
          SetValuesDecodesPrefix(s1, stream, pos + 1);
          SetValuesKeepsRead(s1, stream, pos + 1);
        }
      } else {
        var s1 := s.(value := s.value[pos := 0]);
        assert SetValues(s, stream, pos) == SetValues(s1, stream, pos + 1);
        SetValuesDecodesPrefix(s1, stream, pos + 1);
        SetValuesKeepsRead(s1, stream, pos + 1);
      }
    }
  }
}
