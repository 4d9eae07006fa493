/**
 * The solver's mutable state as a value, and one function per operation of the
 * Go program that says what the operation does to that state. The class Grid in
 * grid.dfy keeps the same state in arrays and proves that each of its methods ends
 * in the state one of these functions computes (a loop, the function of its
 * remaining iterations), or in a new state its postcondition spells out.
 *
 * A Go option map of this program always has exactly the keys 1..9 once the grid
 * is initialised, so it is kept here as the set of keys it maps to true: a lookup
 * of a key that is missing (v outside 1..9) and a lookup that yields false both
 * read as "v is not in the set".
 */
module Model {
  import opened Geometry

  /** nil versus a non-nil error. The text of the messages is not modelled. */
  datatype Outcome = Pass | Fail

  /** The (bool, error) pair of TryValue: Ok(b) for (b, nil), Err for a non-nil error. */
  datatype Result<T> = Ok(value: T) | Err

  datatype Option<T> = None | Some(value: T)

  /** The outcome of SetValues: nil, or an error tagged with the offending position. */
  datatype ParseOutcome = Parsed | BadField(pos: int)

  type Byte = b: int | 0 <= b < 256

  /** The budget of passes without progress that main allows the solver. */
  const TRIES := 10000

  /**
   * value[k]  is Fields[k].Value (0 for an empty field),
   * cand[k]   the keys that Fields[k].Options maps to true,
   * hrow[i], vrow[i], group[i] the same for HRows[i], VRows[i] and Groups[i],
   * count[v]  is Grid.Options[v] for v in 1..9; count[0] stands for no key.
   */
  datatype State = State(
    value: seq<int>,
    cand: seq<set<int>>,
    hrow: seq<set<int>>,
    vrow: seq<set<int>>,
    group: seq<set<int>>,
    count: seq<int>)
  {
    /** What every operation keeps: the shapes, candidates among the keys 1..9, counts of 1..9 in 0..9. */
    ghost predicate Inv() {
      && |value| == 81 && |cand| == 81
      && |hrow| == 9 && |vrow| == 9 && |group| == 9
      && |count| == 10
      && (forall k :: 0 <= k < 81 ==> cand[k] <= DIGITS)
      && (forall v :: 1 <= v <= 9 ==> 0 <= count[v] <= 9)
    }

    /** The option flags of unit u. */
    function Flags(u: Unit): set<int>
      requires |hrow| == 9 && |vrow| == 9 && |group| == 9 && u.Valid()
    {
      match u
      case Row(Horizontal, i) => hrow[i]
      case Row(Vertical, i) => vrow[i]
      case Group(g) => group[g]
    }
  }

  /** The state right after Initialize: every field empty, every option map full, every count 9. */
  function Initial(): (s: State)
    ensures s.Inv()
  {
    State(
      seq(81, _ => 0),
      seq(81, _ => DIGITS),
      seq(9, _ => DIGITS),
      seq(9, _ => DIGITS),
      seq(9, _ => DIGITS),
      seq(10, v => if v == 0 then 0 else 9))
  }

  /** v struck from the candidates of every field of unit u. */
  function Strike(cand: seq<set<int>>, u: Unit, v: int): (r: seq<set<int>>)
    requires |cand| == 81
    ensures |r| == 81
    ensures forall k :: 0 <= k < 81 ==> r[k] <= cand[k] && (Contains(u, k) ==> v !in r[k])
  {
    seq(81, k requires 0 <= k < 81 => if Contains(u, k) then cand[k] - {v} else cand[k])
  }

  /** Row.RemoveOption on HRows[r] or VRows[r] (sudoku.go:261-270). */
  function RowRemoveOption(s: State, axis: Axis, r: int, v: int): (res: (State, Outcome))
    requires s.Inv() && 0 <= r < 9
    ensures res.0.Inv()
  {
    var u := Row(axis, r);
    if !IsKey(v) || v !in s.Flags(u) then (s, Fail)
    else
      var cand := Strike(s.cand, u, v);
      match axis
      case Horizontal => (s.(hrow := s.hrow[r := s.hrow[r] - {v}], cand := cand), Pass)
      case Vertical => (s.(vrow := s.vrow[r := s.vrow[r] - {v}], cand := cand), Pass)
  }

  /** Group.RemoveOption on Groups[g] (sudoku.go:272-280): it never clears the group's own flag. */
  function GroupRemoveOption(s: State, g: int, v: int): (res: (State, Outcome))
    requires s.Inv() && 0 <= g < 9
    ensures res.0.Inv()
  {
    if !IsKey(v) || v !in s.group[g] then (s, Fail)
    else (s.(cand := Strike(s.cand, Group(g), v)), Pass)
  }

  /**
   * Field.SetValue on Fields[f] (sudoku.go:193-216). The value is written before
   * the three removals, any of which may fail and end the call.
   */
  function SetValue(s: State, f: int, v: int): (res: (State, Outcome))
    requires s.Inv() && 0 <= f < 81
    ensures res.0.Inv()
    ensures res.0.group == s.group
    ensures res.1 == Pass ==> IsKey(v) && res.0.count == s.count[v := s.count[v] - 1]
    ensures res.1 == Fail ==> res.0.count == s.count
  {
    if !IsKey(v) || s.count[v] == 0 then (s, Fail)
    else Propagate(s.(value := s.value[f := v]), f, v)
  }

  /** The rest of SetValue once Fields[f].Value is v (sudoku.go:201-215). */
  function Propagate(s: State, f: int, v: int): (res: (State, Outcome))
    requires s.Inv() && 0 <= f < 81 && IsKey(v) && s.count[v] > 0
    ensures res.0.Inv()
    ensures res.0.group == s.group
    ensures res.1 == Pass ==> res.0.count == s.count[v := s.count[v] - 1]
    ensures res.1 == Fail ==> res.0.count == s.count
  {
    var (s1, o1) := GroupRemoveOption(s, GroupOf(f), v);
    if o1 == Fail then (s1, Fail)
    else
      var (s2, o2) := RowRemoveOption(s1, Horizontal, f / 9, v);
      if o2 == Fail then (s2, Fail)
      else
        var (s3, o3) := RowRemoveOption(s2, Vertical, f % 9, v);
        if o3 == Fail then (s3, Fail)
        else (s3.(cand := s3.cand[f := {v}], count := s3.count[v := s3.count[v] - 1]), Pass)
  }

  /** getPossibleFields of unit u, restricted to slots 0..n-1 (sudoku.go:309-317, 349-357). */
  function PossibleFields(s: State, u: Unit, v: int, n: int): (fs: seq<int>)
    requires s.Inv() && u.Valid() && 0 <= n <= 9
    ensures forall f :: f in fs ==> 0 <= f < 81
    ensures forall i :: 0 <= i < |fs| ==> 0 <= fs[i] < 81
  {
    if n == 0 then []
    else
      var f := Member(u, n - 1);
      PossibleFields(s, u, v, n - 1) + (if s.value[f] == 0 && v in s.cand[f] then [f] else [])
  }

  /** getPossibleValues of an option map, keys visited in ascending order up to n (sudoku.go:359-367). */
  function PossibleValues(c: set<int>, n: int): (r: seq<int>)
    requires 0 <= n <= 9
    ensures |r| <= n
    ensures forall i :: 0 <= i < |r| ==> 1 <= r[i] <= n && r[i] in c
  {
    if n == 0 then [] else PossibleValues(c, n - 1) + (if n in c then [n] else [])
  }

  /** The first of fs[i..] whose option map has exactly one true key. */
  function FirstSingleton(s: State, fs: seq<int>, i: int): (r: Option<int>)
    requires s.Inv() && 0 <= i <= |fs| && forall f :: f in fs ==> 0 <= f < 81
    decreases |fs| - i
    ensures r.Some? ==> r.value in fs[i..] && 0 <= r.value < 81 && |PossibleValues(s.cand[r.value], 9)| == 1
  {
    if i == |fs| then None
    else
      var f := fs[i];
      assert f in fs;
      if |PossibleValues(s.cand[f], 9)| == 1 then Some(f) else FirstSingleton(s, fs, i + 1)
  }

  /** SetValue(v) on Fields[f], as TryValue reports it. */
  function Place(s: State, f: int, v: int): (res: (State, Result<bool>))
    requires s.Inv() && 0 <= f < 81
    ensures res.0.Inv()
    ensures res.1 != Ok(false)
  {
    var (s1, o) := SetValue(s, f, v);
    (s1, if o == Pass then Ok(true) else Err)
  }

  /** Row.TryValue and Group.TryValue on unit u (sudoku.go:282-307, 322-347). */
  function TryValue(s: State, u: Unit, v: int): (res: (State, Result<bool>))
    requires s.Inv() && u.Valid()
    ensures res.0.Inv()
    ensures res.0.group == s.group
    ensures res.1 == Ok(true) ==> IsKey(v) && res.0.count == s.count[v := s.count[v] - 1]
    ensures res.1 != Ok(true) ==> res.0.count == s.count
  {
    if !IsKey(v) then (s, Err)
    else if v !in s.Flags(u) then (s, Ok(false))
    else
      var fs := PossibleFields(s, u, v, 9);
      if |fs| == 1 then assert fs[0] in fs; Place(s, fs[0], v)
      else
        match FirstSingleton(s, fs, 0)
        case None => (s, Ok(false))
        case Some(f) => Place(s, f, v)
  }

  /** The sum of the nine counts from v on. */
  function TotalFrom(c: seq<int>, v: int): int
    requires |c| == 10 && 1 <= v <= 10
    decreases 10 - v
  {
    if v == 10 then 0 else c[v] + TotalFrom(c, v + 1)
  }

  /** How many placements the grid still needs: the sum of Grid.Options. */
  function Total(c: seq<int>): int
    requires |c| == 10
  {
    TotalFrom(c, 1)
  }

  /** No count of a is above the matching count of b. */
  predicate CountsBelow(a: seq<int>, b: seq<int>)
    requires |a| == 10 && |b| == 10
  {
    forall v :: 1 <= v <= 9 ==> a[v] <= b[v]
  }

  lemma {:induction false} TotalFromMonotone(a: seq<int>, b: seq<int>, v: int, w: int)
    requires |a| == 10 && |b| == 10 && CountsBelow(a, b) && 1 <= v <= 10
    ensures TotalFrom(a, v) <= TotalFrom(b, v)
    ensures v <= w <= 9 && a[w] < b[w] ==> TotalFrom(a, v) < TotalFrom(b, v)
    ensures v <= w <= 9 ==> TotalFrom(a, v) - a[w] <= TotalFrom(b, v) - b[w]
    decreases 10 - v
  {
    if v < 10 {
      TotalFromMonotone(a, b, v + 1, w);
    }
  }

  /** Lowering counts lowers the total; lowering one of them strictly lowers it strictly. */
  lemma TotalMonotone(a: seq<int>, b: seq<int>, w: int)
    requires |a| == 10 && |b| == 10 && CountsBelow(a, b)
    ensures Total(a) <= Total(b)
    ensures IsKey(w) && a[w] < b[w] ==> Total(a) < Total(b)
    ensures IsKey(w) ==> Total(a) - a[w] <= Total(b) - b[w]
  {
    TotalFromMonotone(a, b, 1, w);
  }

  /**
   * The inner loop of CycleGroups over Groups[i..] for value v (sudoku.go:242-246),
   * followed by the outer loop for the values after v.
   */
  function GroupSweep(s: State, v: int, i: int): (res: (State, bool))
    requires s.Inv() && IsKey(v) && 0 <= i <= 9
    decreases 10 - v, 9 - i, s
    ensures res.0.Inv()
  {
    if i == 9 then GroupsFrom(s, v + 1)
    else
      var (s1, r) := TryValue(s, Group(i), v);
      var (s2, c) := GroupSweep(s1, v, i + 1);
      (s2, r == Ok(true) || c)
  }

  /** The outer loop of CycleGroups for the values v..9, in ascending order (sudoku.go:240-248). */
  function GroupsFrom(s: State, v: int): (res: (State, bool))
    requires s.Inv() && 1 <= v <= 10
    decreases 10 - v, 10, s
    ensures res.0.Inv()
  {
    if v == 10 then (s, false)
    else if s.count[v] > 0 then GroupSweep(s, v, 0)
    else GroupsFrom(s, v + 1)
  }

  /** Grid.CycleGroups (sudoku.go:238-250). */
  function CycleGroups(s: State): (res: (State, bool))
    requires s.Inv()
    ensures res.0.Inv()
  {
    GroupsFrom(s, 1)
  }

  /**
   * The inner loop of CycleRows over HRows[i..] and VRows[i..] for value v, where cnt
   * is the count of v when the round for v began (sudoku.go:222-228), followed by the
   * outer loop for the values after v; the flag says whether the count of v differed
   * from cnt after one of these rounds, or a later value made a change.
   */
  function RowSweep(s: State, v: int, i: int, cnt: int): (res: (State, bool))
    requires s.Inv() && IsKey(v) && 0 <= i <= 9
    decreases 10 - v, 9 - i, s
    ensures res.0.Inv()
  {
    if i == 9 then RowsFrom(s, v + 1)
    else
      var s1 := TryValue(s, Row(Horizontal, i), v).0;
      var s2 := TryValue(s1, Row(Vertical, i), v).0;
      var (s3, c) := RowSweep(s2, v, i + 1, cnt);
      (s3, s2.count[v] != cnt || c)
  }

  /** The outer loop of CycleRows for the values v..9, in ascending order (sudoku.go:220-230). */
  function RowsFrom(s: State, v: int): (res: (State, bool))
    requires s.Inv() && 1 <= v <= 10
    decreases 10 - v, 10, s
    ensures res.0.Inv()
  {
    if v == 10 then (s, false)
    else if s.count[v] > 0 then RowSweep(s, v, 0, s.count[v])
    else RowsFrom(s, v + 1)
  }

  /** The rest of CycleGroups from group i of value v keeps the group flags, lowers no count, and reports a change only if it lowered the total. */
  lemma {:induction false} GroupSweepShrinks(s: State, v: int, i: int)
    requires s.Inv() && IsKey(v) && 0 <= i <= 9
    ensures GroupSweep(s, v, i).0.group == s.group
    ensures CountsBelow(GroupSweep(s, v, i).0.count, s.count)
    ensures GroupSweep(s, v, i).1 ==> Total(GroupSweep(s, v, i).0.count) < Total(s.count)
    decreases 10 - v, 9 - i
  {
    if i == 9 {
      GroupsFromShrinks(s, v + 1);
    } else {
      var s1 := TryValue(s, Group(i), v).0;
      GroupSweepShrinks(s1, v, i + 1);
      TotalMonotone(s1.count, s.count, v);
      TotalMonotone(GroupSweep(s1, v, i + 1).0.count, s1.count, v);
    }
  }

  /** The values v..9 of CycleGroups report a change only if they lowered the total. */
  lemma {:induction false} GroupsFromShrinks(s: State, v: int)
    requires s.Inv() && 1 <= v <= 10
    ensures GroupsFrom(s, v).0.group == s.group
    ensures CountsBelow(GroupsFrom(s, v).0.count, s.count)
    ensures GroupsFrom(s, v).1 ==> Total(GroupsFrom(s, v).0.count) < Total(s.count)
    decreases 10 - v, 10
  {
    if v < 10 {
      if s.count[v] > 0 {
        GroupSweepShrinks(s, v, 0);
      } else {
        GroupsFromShrinks(s, v + 1);
      }
    }
  }

  /**
   * The rest of the row pass from row i of value v keeps the group flags and lowers no
   * count; when it reports a change, the total falls below its start plus the slack
   * cnt - count[v] that earlier rounds for v already used.
   */
  lemma {:induction false} RowSweepShrinks(s: State, v: int, i: int, cnt: int)
    requires s.Inv() && IsKey(v) && 0 <= i <= 9 && s.count[v] <= cnt
    ensures RowSweep(s, v, i, cnt).0.group == s.group
    ensures CountsBelow(RowSweep(s, v, i, cnt).0.count, s.count)
    ensures RowSweep(s, v, i, cnt).1 ==> Total(RowSweep(s, v, i, cnt).0.count) < Total(s.count) + cnt - s.count[v]
    decreases 10 - v, 9 - i
  {
    if i == 9 {
      RowsFromShrinks(s, v + 1);
    } else {
      var s1 := TryValue(s, Row(Horizontal, i), v).0;
      var s2 := TryValue(s1, Row(Vertical, i), v).0;
      var rest := RowSweep(s2, v, i + 1, cnt);
      assert RowSweep(s, v, i, cnt) == (rest.0, s2.count[v] != cnt || rest.1);
      RowSweepShrinks(s2, v, i + 1, cnt);
      TotalMonotone(s2.count, s.count, v);
      TotalMonotone(rest.0.count, s2.count, v);
    }
  }

  /** The values v..9 of the row pass keep the group flags, lower no count, and report a change only if they lowered the total. */
  lemma {:induction false} RowsFromShrinks(s: State, v: int)
    requires s.Inv() && 1 <= v <= 10
    ensures RowsFrom(s, v).0.group == s.group
    ensures CountsBelow(RowsFrom(s, v).0.count, s.count)
    ensures RowsFrom(s, v).1 ==> Total(RowsFrom(s, v).0.count) < Total(s.count)
    decreases 10 - v, 10
  {
    if v < 10 {
      if s.count[v] > 0 {
        RowSweepShrinks(s, v, 0, s.count[v]);
      } else {
        RowsFromShrinks(s, v + 1);
      }
    }
  }

  /** Grid.CycleRows (sudoku.go:218-236): the row and column pass, then CycleGroups. */
  function CycleRows(s: State): (res: (State, bool))
    requires s.Inv()
    ensures res.0.Inv() && res.0.group == s.group
    ensures CountsBelow(res.0.count, s.count)
    ensures res.1 ==> Total(res.0.count) < Total(s.count)
  {
    var (s1, c1) := RowsFrom(s, 1);
    var (s2, c2) := CycleGroups(s1);
    RowsFromShrinks(s, 1);
    GroupsFromShrinks(s1, 1);
    TotalMonotone(s2.count, s1.count, 1);
    (s2, c1 || c2)
  }

  /** The rest of CycleGroups from group i of value v reports a change whenever it lowered the total. */
  lemma {:induction false} GroupSweepReports(s: State, v: int, i: int)
    requires s.Inv() && IsKey(v) && 0 <= i <= 9
    ensures Total(GroupSweep(s, v, i).0.count) < Total(s.count) ==> GroupSweep(s, v, i).1
    decreases 10 - v, 9 - i
  {
    if i == 9 {
      GroupsFromReports(s, v + 1);
    } else {
      var (s1, r) := TryValue(s, Group(i), v);
      if r != Ok(true) {
        assert s1.count == s.count;
        GroupSweepReports(s1, v, i + 1);
      }
    }
  }

  /** The values v..9 of CycleGroups report a change whenever they lowered the total. */
  lemma {:induction false} GroupsFromReports(s: State, v: int)
    requires s.Inv() && 1 <= v <= 10
    ensures Total(GroupsFrom(s, v).0.count) < Total(s.count) ==> GroupsFrom(s, v).1
    decreases 10 - v, 10
  {
    if v < 10 {
      if s.count[v] > 0 {
        GroupSweepReports(s, v, 0);
      } else {
        GroupsFromReports(s, v + 1);
      }
    }
  }

  /**
   * The rest of the row pass from row i of value v reports a change whenever it lowered
   * the total: a round that spends a use of v leaves the count of v below cnt.
   */
  lemma {:induction false} RowSweepReports(s: State, v: int, i: int, cnt: int)
    requires s.Inv() && IsKey(v) && 0 <= i <= 9 && s.count[v] <= cnt
    ensures Total(RowSweep(s, v, i, cnt).0.count) < Total(s.count) ==> RowSweep(s, v, i, cnt).1
    decreases 10 - v, 9 - i
  {
    if i == 9 {
      RowsFromReports(s, v + 1);
    } else {
      var s1 := TryValue(s, Row(Horizontal, i), v).0;
      var s2 := TryValue(s1, Row(Vertical, i), v).0;
      var rest := RowSweep(s2, v, i + 1, cnt);
      assert RowSweep(s, v, i, cnt) == (rest.0, s2.count[v] != cnt || rest.1);
      if s2.count[v] == cnt {
        assert s2.count == s.count;
        RowSweepReports(s2, v, i + 1, cnt);
      }
    }
  }

  /** The values v..9 of the row pass report a change whenever they lowered the total. */
  lemma {:induction false} RowsFromReports(s: State, v: int)
    requires s.Inv() && 1 <= v <= 10
    ensures Total(RowsFrom(s, v).0.count) < Total(s.count) ==> RowsFrom(s, v).1
    decreases 10 - v, 10
  {
    if v < 10 {
      if s.count[v] > 0 {
        RowSweepReports(s, v, 0, s.count[v]);
      } else {
        RowsFromReports(s, v + 1);
      }
    }
  }

  /** CycleGroups reports a change exactly when it lowered the number of pending placements. */
  lemma CycleGroupsReportsIff(s: State)
    requires s.Inv()
    ensures CycleGroups(s).1 <==> Total(CycleGroups(s).0.count) < Total(s.count)
  {
    GroupsFromShrinks(s, 1);
    GroupsFromReports(s, 1);
  }

  /**
   * A pass reports a change exactly when it lowered the number of pending placements:
   * a pass that placed a value never spends a try of the retry loop.
   */
  lemma CycleRowsReportsIff(s: State)
    requires s.Inv()
    ensures CycleRows(s).1 <==> Total(CycleRows(s).0.count) < Total(s.count)
  {
    var (s1, c1) := RowsFrom(s, 1);
    RowsFromShrinks(s, 1);
    RowsFromReports(s, 1);
    TotalMonotone(s1.count, s.count, 1);
    CycleGroupsReportsIff(s1);
  }

  /** Grid.IsSolved (sudoku.go:252-259): no count is above zero. */
  predicate IsSolved(s: State)
    requires |s.count| == 10
  {
    forall v :: 1 <= v <= 9 ==> !(s.count[v] > 0)
  }

  lemma {:induction false} TotalFromBounds(c: seq<int>, v: int)
    requires |c| == 10 && 1 <= v <= 10
    requires forall w :: 1 <= w <= 9 ==> 0 <= c[w] <= 9
    ensures 0 <= TotalFrom(c, v) <= 9 * (10 - v)
    decreases 10 - v
  {
    if v < 10 {
      TotalFromBounds(c, v + 1);
    }
  }

  /** The retry loop of main (sudoku.go:398-406) with tries passes without progress left. */
  function Solve(s: State, tries: int): (r: State)
    requires s.Inv() && tries >= 0
    decreases Total(s.count) + tries
    ensures r.Inv()
  {
    if tries == 0 then s
    else
      var (s1, changed) := CycleRows(s);
      if IsSolved(s1) then s1
      else
        TotalMonotone(s1.count, s.count, 1);
        TotalFromBounds(s1.count, 1);
        Solve(s1, if changed then tries else tries - 1)
  }

  /** How many passes of CycleRows the retry loop of main makes before it stops. */
  function SolvePasses(s: State, tries: int): nat
    requires s.Inv() && tries >= 0
    decreases Total(s.count) + tries
  {
    if tries == 0 then 0
    else
      var (s1, changed) := CycleRows(s);
      if IsSolved(s1) then 1
      else
        TotalMonotone(s1.count, s.count, 1);
        TotalFromBounds(s1.count, 1);
        1 + SolvePasses(s1, if changed then tries else tries - 1)
  }

  /** Grid.SetValues from position pos on (sudoku.go:174-191). */
  function SetValues(s: State, stream: seq<Byte>, pos: int): (res: (State, ParseOutcome))
    requires s.Inv() && 0 <= pos <= 81
    decreases 81 - pos, s
    ensures res.0.Inv()
  {
    if pos >= |stream| || pos == 81 then (s, Parsed)
    else
      var c := stream[pos];
      if 48 < c < 58 then
        var (s1, o) := SetValue(s, pos, c - 48);
        if o == Fail then (s1, BadField(pos)) else SetValues(s1, stream, pos + 1)
      else
        SetValues(s.(value := s.value[pos := 0]), stream, pos + 1)
  }
}
