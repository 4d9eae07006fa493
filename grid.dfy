/**
 * The links between the fields and the units that Grid.Initialize builds: the
 * HRow, VRow and Group pointers of every field, and the Fields slots of every unit.
 */
module Wiring {
  import opened Geometry

  /** Field k links to HRow k / 9, VRow k % 9 and its group, and slot j of each unit holds Member(u, j). */
  ghost predicate Linked(fieldHRow: array<int>, fieldVRow: array<int>, fieldGroup: array<int>,
                         hrowFields: array2<int>, vrowFields: array2<int>, groupFields: array2<int>)
    requires fieldHRow.Length == 81 && fieldVRow.Length == 81 && fieldGroup.Length == 81
    requires hrowFields.Length0 == 9 && hrowFields.Length1 == 9
    requires vrowFields.Length0 == 9 && vrowFields.Length1 == 9
    requires groupFields.Length0 == 9 && groupFields.Length1 == 9
    reads fieldHRow, fieldVRow, fieldGroup, hrowFields, vrowFields, groupFields
  {
    && (forall k :: 0 <= k < 81 ==> fieldHRow[k] == k / 9)
    && (forall k :: 0 <= k < 81 ==> fieldVRow[k] == k % 9)
    && (forall k :: 0 <= k < 81 ==> fieldGroup[k] == GroupOf(k))
    && (forall i, j :: 0 <= i < 9 && 0 <= j < 9 ==> hrowFields[i, j] == Member(Row(Horizontal, i), j))
    && (forall i, j :: 0 <= i < 9 && 0 <= j < 9 ==> vrowFields[i, j] == Member(Row(Vertical, i), j))
    && (forall i, j :: 0 <= i < 9 && 0 <= j < 9 ==> groupFields[i, j] == Member(Group(i), j))
  }
}

/**
 * The Grid of the Go program with its 81 fields, 9 HRows, 9 VRows and 9 Groups,
 * kept in arrays and wired by indices instead of pointers. Field k's record is
 * spread over value[k], fieldOpts[k], fieldHRow[k], fieldVRow[k] and
 * fieldGroup[k]; a unit's record is its row of hrowFields, vrowFields or
 * groupFields together with its entry in hrowOpts, vrowOpts or groupOpts.
 *
 * Every method that changes the grid is proved to leave it in the state that a
 * function of module Model computes from the state before the call, or in a new
 * state its postcondition spells out.
 */
module Sudoku {
  import Wiring
  import opened Geometry
  import opened Model

  /** A new array of n copies of x. */
  method Filled(n: nat, x: int) returns (a: array<int>)
    ensures fresh(a) && a.Length == n && forall k :: 0 <= k < n ==> a[k] == x
  {
    a := new int[n](_ => x);
  }

  /** A new array of n empty sets. */
  method NoSets(n: nat) returns (a: array<set<int>>)
    ensures fresh(a) && a.Length == n && forall k :: 0 <= k < n ==> a[k] == {}
  {
    a := new set<int>[n](_ => {});
  }

  /** A new 9x9 table of nil slots. */
  method NilSlots() returns (a: array2<int>)
    ensures fresh(a) && a.Length0 == 9 && a.Length1 == 9
    ensures forall i, j :: 0 <= i < 9 && 0 <= j < 9 ==> a[i, j] == NIL
  {
    a := new int[9, 9]((_, _) => NIL);
  }

  class Grid {
    /** Fields[k].Value */
    const value: array<int>
    /** The keys that Fields[k].Options maps to true. */
    const fieldOpts: array<set<int>>
    /** Fields[k].HRow, Fields[k].VRow and Fields[k].Group as unit indices (NIL for nil). */
    const fieldHRow: array<int>
    const fieldVRow: array<int>
    const fieldGroup: array<int>
    /** HRows[i].Fields[j], VRows[i].Fields[j] and Groups[i].Fields[j] as field indices (NIL for nil). */
    const hrowFields: array2<int>
    const vrowFields: array2<int>
    const groupFields: array2<int>
    /** The keys that HRows[i].Options, VRows[i].Options and Groups[i].Options map to true. */
    const hrowOpts: array<set<int>>
    const vrowOpts: array<set<int>>
    const groupOpts: array<set<int>>
    /** Grid.Options[v] for v in 1..9; index 0 stands for no key. */
    const counts: array<int>

    ghost predicate Sized() {
      && value.Length == 81 && fieldOpts.Length == 81
      && fieldHRow.Length == 81 && fieldVRow.Length == 81 && fieldGroup.Length == 81
      && hrowFields.Length0 == 9 && hrowFields.Length1 == 9
      && vrowFields.Length0 == 9 && vrowFields.Length1 == 9
      && groupFields.Length0 == 9 && groupFields.Length1 == 9
      && hrowOpts.Length == 9 && vrowOpts.Length == 9 && groupOpts.Length == 9
      && counts.Length == 10
    }

    /** The arrays that share a type are distinct objects. */
    ghost predicate Separate() {
      && value != fieldHRow && value != fieldVRow && value != fieldGroup && value != counts
      && fieldHRow != fieldVRow && fieldHRow != fieldGroup && fieldHRow != counts
      && fieldVRow != fieldGroup && fieldVRow != counts && fieldGroup != counts
      && hrowFields != vrowFields && hrowFields != groupFields && vrowFields != groupFields
      && fieldOpts != hrowOpts && fieldOpts != vrowOpts && fieldOpts != groupOpts
      && hrowOpts != vrowOpts && hrowOpts != groupOpts && vrowOpts != groupOpts
    }

    /** The zero value of a Grid, before Initialize: empty fields, nil links, nil maps. */
    ghost predicate Blank()
      requires Sized()
      reads value, fieldOpts, fieldHRow, fieldVRow, fieldGroup, hrowFields, vrowFields, groupFields
      reads hrowOpts, vrowOpts, groupOpts, counts
    {
      && (forall k :: 0 <= k < 81 ==> value[k] == 0 && fieldOpts[k] == {})
      && (forall k :: 0 <= k < 81 ==> fieldHRow[k] == NIL && fieldVRow[k] == NIL && fieldGroup[k] == NIL)
      && (forall i, j :: 0 <= i < 9 && 0 <= j < 9 ==> hrowFields[i, j] == NIL)
      && (forall i, j :: 0 <= i < 9 && 0 <= j < 9 ==> vrowFields[i, j] == NIL)
      && (forall i, j :: 0 <= i < 9 && 0 <= j < 9 ==> groupFields[i, j] == NIL)
      && (forall i :: 0 <= i < 9 ==> hrowOpts[i] == {} && vrowOpts[i] == {} && groupOpts[i] == {})
      && (forall v :: 0 <= v < 10 ==> counts[v] == 0)
    }

    /** Each field links to its row, column and group, and each unit lists its fields in slot order. */
    ghost predicate Wired()
      requires Sized()
      reads fieldHRow, fieldVRow, fieldGroup, hrowFields, vrowFields, groupFields
    {
      Wiring.Linked(fieldHRow, fieldVRow, fieldGroup, hrowFields, vrowFields, groupFields)
    }

    /** The state the solver changes, as a value. */
    ghost function Abs(): State
      reads value, fieldOpts, hrowOpts, vrowOpts, groupOpts, counts
    {
      State(value[..], fieldOpts[..], hrowOpts[..], vrowOpts[..], groupOpts[..], counts[..])
    }

    ghost predicate Valid()
      reads value, fieldOpts, fieldHRow, fieldVRow, fieldGroup, hrowFields, vrowFields, groupFields
      reads hrowOpts, vrowOpts, groupOpts, counts
    {
      Sized() && Separate() && Wired() && Abs().Inv()
    }

    /** The option array of unit u's kind. */
    function UnitOpts(u: Unit): array<set<int>> {
      match u
      case Row(Horizontal, _) => hrowOpts
      case Row(Vertical, _) => vrowOpts
      case Group(_) => groupOpts
    }

    /** The slot array of unit u's kind. */
    function UnitFields(u: Unit): array2<int> {
      match u
      case Row(Horizontal, _) => hrowFields
      case Row(Vertical, _) => vrowFields
      case Group(_) => groupFields
    }

    /** A zero Grid, as `&Grid{}` in main allocates it. */
    constructor ()
      ensures Sized() && Separate() && Blank()
    {
      var value0 := Filled(81, 0);
      var fieldOpts0 := NoSets(81);
      var fieldHRow0 := Filled(81, NIL);
      var fieldVRow0 := Filled(81, NIL);
      var fieldGroup0 := Filled(81, NIL);
      var hrowFields0 := NilSlots();
      var vrowFields0 := NilSlots();
      var groupFields0 := NilSlots();
      var hrowOpts0 := NoSets(9);
      var vrowOpts0 := NoSets(9);
      var groupOpts0 := NoSets(9);
      var counts0 := Filled(10, 0);
      value := value0;
      fieldOpts := fieldOpts0;
      fieldHRow := fieldHRow0;
      fieldVRow := fieldVRow0;
      fieldGroup := fieldGroup0;
      hrowFields := hrowFields0;
      vrowFields := vrowFields0;
      groupFields := groupFields0;
      hrowOpts := hrowOpts0;
      vrowOpts := vrowOpts0;
      groupOpts := groupOpts0;
      counts := counts0;
    }

    /** Grid.GetField (sudoku.go:71-77): the field at column x, row y, unless the offset passes 80. */
    function GetField(x: int, y: int): (r: Result<int>)
      requires 0 <= x && 0 <= y
      ensures r.Ok? <==> x + 9 * y <= 80
      ensures r.Ok? && x < 9 ==> r.value / 9 == y && r.value % 9 == x
    {
      var offset := x + 9 * y;
      assert x < 9 ==> offset / 9 == y && offset % 9 == x by {
        if x < 9 { DivMod9(y, x); }
      }
      if offset > 80 then Err else Ok(offset)
    }

    /** Grid.GetGroup (sudoku.go:79-85): group 3x + y, unless that passes 8. */
    function GetGroup(x: int, y: int): (r: Result<int>)
      requires 0 <= x && 0 <= y
      ensures r.Ok? <==> 3 * x + y <= 8
      ensures r.Ok? && y < 3 ==> r.value / 3 == x && r.value % 3 == y
    {
      var offset := 3 * x + y;
      assert y < 3 ==> offset / 3 == x && offset % 3 == y by {
        if y < 3 { DivMod3(x, y); }
      }
      if offset > 8 then Err else Ok(offset)
    }

    /** The first slot from s on that is nil or already holds f, or 9 when there is none. */
    ghost function FirstOpen(g: int, f: int, s: int): (r: int)
      requires Sized() && 0 <= g < 9 && 0 <= s <= 9
      reads groupFields
      decreases 9 - s
      ensures s <= r <= 9
      ensures forall t :: s <= t < r ==> groupFields[g, t] != NIL && groupFields[g, t] != f
      ensures r < 9 ==> groupFields[g, r] == NIL || groupFields[g, r] == f
    {
      if s == 9 || groupFields[g, s] == NIL || groupFields[g, s] == f then s
      else FirstOpen(g, f, s + 1)
    }

    /**
     * Group.AppendField on Groups[g] (sudoku.go:59-69): f goes into the first nil
     * slot; if f shows up before any nil slot, or there is no nil slot, nothing changes.
     */
    method AppendField(g: int, f: int) returns (o: Outcome)
      requires Sized() && 0 <= g < 9
      modifies groupFields
      ensures var s := old(FirstOpen(g, f, 0));
              o == Pass <==> s < 9 && old(groupFields[g, s]) == NIL
      ensures o == Pass ==> groupFields[g, old(FirstOpen(g, f, 0))] == f
      ensures o == Pass ==>
                forall i, j :: 0 <= i < 9 && 0 <= j < 9 && (i != g || j != old(FirstOpen(g, f, 0))) ==>
                  groupFields[i, j] == old(groupFields[i, j])
      ensures o == Fail ==> unchanged(groupFields)
    {
      var i := 0;
      while i < 9
        invariant 0 <= i <= 9
        invariant forall t :: 0 <= t < i ==> groupFields[g, t] != NIL && groupFields[g, t] != f
        invariant FirstOpen(g, f, 0) == FirstOpen(g, f, i)
      {
        var sf := groupFields[g, i];
        if sf == NIL {
          groupFields[g, i] := f;
          return Pass;
        } else if sf == f {
          return Fail;
        }
        i := i + 1;
      }
      return Fail;
    }

    /**
     * Grid.Initialize (sudoku.go:87-127) on a zero Grid. Its four panics are proved
     * unreachable: both GetField offsets and every GetGroup offset are in range, and
     * every AppendField finds a free slot.
     */
    method Initialize()
      requires Sized() && Separate() && Blank()
      modifies fieldOpts, fieldHRow, fieldVRow, fieldGroup, hrowFields, vrowFields, groupFields
      modifies hrowOpts, vrowOpts, groupOpts, counts
      ensures Valid() && Abs() == Initial()
    {
      WireRows();
      for i := 0 to 9
        invariant forall r :: 0 <= r < i ==> groupOpts[r] == DIGITS
        modifies groupOpts
      {
        groupOpts[i] := DIGITS;
      }
      WireGroups();
      for k := 1 to 10
        invariant forall v :: 1 <= v < k ==> counts[v] == 9
        invariant counts[0] == 0
        modifies counts
      {
        counts[k] := 9;
      }
      assert Abs().value == Initial().value;
      assert Abs().cand == Initial().cand;
      assert Abs().hrow == Initial().hrow && Abs().vrow == Initial().vrow && Abs().group == Initial().group;
      assert Abs().count == Initial().count;
      assert Abs() == Initial();
    }

    /** The first loop of Initialize (sudoku.go:88-105): links fields and rows both ways and fills the row maps. */
    method WireRows()
      requires Sized() && Separate()
      modifies fieldHRow, fieldVRow, hrowFields, vrowFields, hrowOpts, vrowOpts
      ensures forall k :: 0 <= k < 81 ==> fieldHRow[k] == k / 9 && fieldVRow[k] == k % 9
      ensures forall r, j :: 0 <= r < 9 && 0 <= j < 9 ==> hrowFields[r, j] == Member(Row(Horizontal, r), j)
      ensures forall r, j :: 0 <= r < 9 && 0 <= j < 9 ==> vrowFields[r, j] == Member(Row(Vertical, r), j)
      ensures forall r :: 0 <= r < 9 ==> hrowOpts[r] == DIGITS && vrowOpts[r] == DIGITS
    {
      for i := 0 to 9
        invariant forall k :: 0 <= k < 9 * i ==> fieldHRow[k] == k / 9
        invariant forall k :: 0 <= k < 81 && k % 9 < i ==> fieldVRow[k] == k % 9
        invariant forall r, j :: 0 <= r < i && 0 <= j < 9 ==> hrowFields[r, j] == Member(Row(Horizontal, r), j)
        invariant forall r, j :: 0 <= r < i && 0 <= j < 9 ==> vrowFields[r, j] == Member(Row(Vertical, r), j)
        invariant forall r :: 0 <= r < i ==> hrowOpts[r] == DIGITS && vrowOpts[r] == DIGITS
      {
        for j := 0 to 9
          invariant forall k :: 0 <= k < 9 * i + j ==> fieldHRow[k] == k / 9
          invariant forall k :: 0 <= k < 81 && (k % 9 < i || (k % 9 == i && k / 9 < j)) ==> fieldVRow[k] == k % 9
          invariant forall r, c :: 0 <= r < i && 0 <= c < 9 ==> hrowFields[r, c] == Member(Row(Horizontal, r), c)
          invariant forall r, c :: 0 <= r < i && 0 <= c < 9 ==> vrowFields[r, c] == Member(Row(Vertical, r), c)
          invariant forall c :: 0 <= c < j ==> hrowFields[i, c] == Member(Row(Horizontal, i), c)
          invariant forall c :: 0 <= c < j ==> vrowFields[i, c] == Member(Row(Vertical, i), c)
          invariant forall r :: 0 <= r < i ==> hrowOpts[r] == DIGITS && vrowOpts[r] == DIGITS
          modifies fieldHRow, fieldVRow, hrowFields, vrowFields
        {
          var rf := GetField(j, i);
          assert rf.Ok?;
          var f := rf.value;
          fieldHRow[f] := i;
          hrowFields[i, j] := f;
          rf := GetField(i, j);
          assert rf.Ok?;
          f := rf.value;
          fieldVRow[f] := i;
          vrowFields[i, j] := f;
        }
        hrowOpts[i] := DIGITS;
        vrowOpts[i] := DIGITS;
      }
    }

    /** The loop of Initialize over the fields (sudoku.go:109-122): links every field to its group and fills the field maps. */
    method WireGroups()
      requires Sized() && Separate()
      requires forall g, s :: 0 <= g < 9 && 0 <= s < 9 ==> groupFields[g, s] == NIL
      modifies fieldGroup, fieldOpts, groupFields
      ensures forall k :: 0 <= k < 81 ==> fieldGroup[k] == GroupOf(k) && fieldOpts[k] == DIGITS
      ensures forall g, s :: 0 <= g < 9 && 0 <= s < 9 ==> groupFields[g, s] == Member(Group(g), s)
    {
      for i := 0 to 81
        invariant GroupsWiredBelow(i)
      {
        WireGroupField(i);
      }
      GroupTableFull();
    }

    /** Fields below i are linked to their groups, and the group slots hold what appending the fields below i in order puts there. */
    ghost predicate GroupsWiredBelow(i: int)
      requires Sized() && 0 <= i <= 81
      reads fieldGroup, fieldOpts, groupFields
    {
      && (forall k :: 0 <= k < 81 && k < i ==> fieldGroup[k] == GroupOf(k) && fieldOpts[k] == DIGITS)
      && (forall g, s :: 0 <= g < 9 && 0 <= s < 9 ==>
            groupFields[g, s] == if (g, s) in GroupTable(i) then GroupTable(i)[(g, s)] else NIL)
    }

    /** One pass of the loop of Initialize over the fields, for field i (sudoku.go:110-121). */
    method WireGroupField(i: int)
      requires Sized() && Separate() && 0 <= i < 81 && GroupsWiredBelow(i)
      modifies fieldGroup, fieldOpts, groupFields
      ensures GroupsWiredBelow(i + 1)
    {
      var yOffset := (i / 27) % 27;
      var xOffset := (i % 9) / 3;
      DivMod27(0, i / 27);
      var rg := GetGroup(xOffset, yOffset);
      assert rg.Ok?;
      var gr := rg.value;
      assert gr == GroupOf(i);
      fieldGroup[i] := gr;
      ghost var slot := GroupSlot(i);
      GroupTableBefore(i);
      assert groupFields[gr, slot] == NIL;
      assert forall t :: 0 <= t < slot ==> groupFields[gr, t] != NIL && groupFields[gr, t] != i;
      var e := AppendField(gr, i);
      assert e == Pass;
      fieldOpts[i] := DIGITS;
      forall g, s | 0 <= g < 9 && 0 <= s < 9
        ensures groupFields[g, s] == if (g, s) in GroupTable(i + 1) then GroupTable(i + 1)[(g, s)] else NIL
      {
        if g != gr || s != slot {
          assert groupFields[g, s] == old(groupFields[g, s]);
        }
      }
    }

    /** The loop over a unit's fields shared by both RemoveOption methods (sudoku.go:266-268, 276-278). */
    method StrikeUnit(u: Unit, v: int)
      requires Sized() && u.Valid()
      requires forall j :: 0 <= j < 9 ==> UnitFields(u)[u.index, j] == Member(u, j)
      modifies fieldOpts
      ensures forall k :: 0 <= k < 81 ==> fieldOpts[k] == if Contains(u, k) then old(fieldOpts[k]) - {v} else old(fieldOpts[k])
    {
      var fields := UnitFields(u);
      for j := 0 to 9
        invariant forall k :: 0 <= k < 81 ==>
                    fieldOpts[k] == if k in UnitPrefix(u, j) then old(fieldOpts[k]) - {v} else old(fieldOpts[k])
      {
        var f := fields[u.index, j];
        fieldOpts[f] := fieldOpts[f] - {v};
      }
      UnitPrefixFull(u);
    }

    /** Row.RemoveOption on HRows[r] or VRows[r] (sudoku.go:261-270). */
    method RowRemoveOption(axis: Axis, r: int, v: int) returns (o: Outcome)
      requires Valid() && 0 <= r < 9
      modifies fieldOpts, hrowOpts, vrowOpts
      ensures Valid()
      ensures (Abs(), o) == Model.RowRemoveOption(old(Abs()), axis, r, v)
    {
      var opts := UnitOpts(Row(axis, r));
      if !IsKey(v) || v !in opts[r] {
        return Fail;
      }
      opts[r] := opts[r] - {v};
      ghost var cand := fieldOpts[..];
      StrikeUnit(Row(axis, r), v);
      assert fieldOpts[..] == Strike(cand, Row(axis, r), v);
      return Pass;
    }

    /** Group.RemoveOption on Groups[g] (sudoku.go:272-280): the group's own flag stays set. */
    method GroupRemoveOption(g: int, v: int) returns (o: Outcome)
      requires Valid() && 0 <= g < 9
      modifies fieldOpts
      ensures Valid()
      ensures (Abs(), o) == Model.GroupRemoveOption(old(Abs()), g, v)
    {
      if !IsKey(v) || v !in groupOpts[g] {
        return Fail;
      }
      ghost var cand := fieldOpts[..];
      StrikeUnit(Group(g), v);
      assert fieldOpts[..] == Strike(cand, Group(g), v);
      return Pass;
    }

    /**
     * Field.SetValue on Fields[f] (sudoku.go:193-216). The check of line 197 is
     * implied by that of line 194, since both maps have the keys 1..9.
     */
    method SetValue(f: int, v: int) returns (o: Outcome)
      requires Valid() && 0 <= f < 81
      modifies value, fieldOpts, hrowOpts, vrowOpts, counts
      ensures Valid()
      ensures (Abs(), o) == Model.SetValue(old(Abs()), f, v)
    {
      if !IsKey(v) || counts[v] == 0 {
        return Fail;
      }
      value[f] := v;
      o := Propagate(f, v);
    }

    /** The rest of SetValue once Fields[f].Value is v (sudoku.go:201-215): any failed removal ends it. */
    method Propagate(f: int, v: int) returns (o: Outcome)
      requires Valid() && 0 <= f < 81 && IsKey(v) && counts[v] > 0
      modifies fieldOpts, hrowOpts, vrowOpts, counts
      ensures Valid()
      ensures (Abs(), o) == Model.Propagate(old(Abs()), f, v)
    {
      o := GroupRemoveOption(fieldGroup[f], v);
      if o == Fail {
        return;
      }
      o := RowRemoveOption(Horizontal, fieldHRow[f], v);
      if o == Fail {
        return;
      }
      o := RowRemoveOption(Vertical, fieldVRow[f], v);
      if o == Fail {
        return;
      }
      Commit(f, v);
    }

    /** The last lines of SetValue (sudoku.go:210-214): Fields[f] keeps only v, and one use of v is spent. */
    method Commit(f: int, v: int)
      requires Valid() && 0 <= f < 81 && IsKey(v) && counts[v] > 0
      modifies fieldOpts, counts
      ensures Valid()
      ensures Abs() == old(Abs()).(cand := old(Abs()).cand[f := {v}], count := old(Abs()).count[v := counts[v]])
      ensures counts[v] == old(counts[v]) - 1
    {
      ghost var s3 := Abs();
      ClearOptions(f);
      fieldOpts[f] := fieldOpts[f] + {v};
      counts[v] := counts[v] - 1;
      assert forall j :: 0 <= j < 81 ==> fieldOpts[..][j] == s3.cand[f := {v}][j];
      assert fieldOpts[..] == s3.cand[f := {v}];
      assert counts[..] == s3.count[v := s3.count[v] - 1];
    }

    /** The loop of SetValue that sets every key of Fields[f].Options to false (sudoku.go:210-212). */
    method ClearOptions(f: int)
      requires Valid() && 0 <= f < 81
      modifies fieldOpts
      ensures fieldOpts[f] == {}
      ensures forall j :: 0 <= j < 81 && j != f ==> fieldOpts[j] == old(fieldOpts[j])
    {
      for k := 1 to 10
        invariant fieldOpts[f] == set x | x in old(fieldOpts[f]) && k <= x
        invariant forall j :: 0 <= j < 81 && j != f ==> fieldOpts[j] == old(fieldOpts[j])
      {
        fieldOpts[f] := fieldOpts[f] - {k};
      }
      assert old(fieldOpts[f]) <= DIGITS;
    }

    /** getPossibleFields of unit u (sudoku.go:309-317, 349-357): its empty fields that still allow v, in slot order. */
    method PossibleFields(u: Unit, v: int) returns (fs: seq<int>)
      requires Valid() && u.Valid()
      ensures fs == Model.PossibleFields(Abs(), u, v, 9)
    {
      var fields := UnitFields(u);
      fs := [];
      for j := 0 to 9
        invariant fs == Model.PossibleFields(Abs(), u, v, j)
      {
        var f := fields[u.index, j];
        assert f == Member(u, j);
        if value[f] == 0 && v in fieldOpts[f] {
          fs := fs + [f];
        }
      }
    }

    /** Field.getPossibleValues (sudoku.go:359-367): the keys still allowed in Fields[f], ascending. */
    method PossibleValues(f: int) returns (vs: seq<int>)
      requires Valid() && 0 <= f < 81
      ensures vs == Model.PossibleValues(fieldOpts[f], 9)
    {
      vs := [];
      for k := 1 to 10
        invariant vs == Model.PossibleValues(fieldOpts[f], k - 1)
      {
        if k in fieldOpts[f] {
          vs := vs + [k];
        }
      }
    }

    /** Row.TryValue and Group.TryValue on unit u (sudoku.go:282-307, 322-347). */
    method TryValue(u: Unit, v: int) returns (r: Result<bool>)
      requires Valid() && u.Valid()
      modifies value, fieldOpts, hrowOpts, vrowOpts, counts
      ensures Valid()
      ensures (Abs(), r) == Model.TryValue(old(Abs()), u, v)
    {
      if !IsKey(v) {
        return Err;
      }
      var opts := UnitOpts(u);
      if v !in opts[u.index] {
        return Ok(false);
      }
      var fields := PossibleFields(u, v);
      if |fields| == 1 {
        assert fields[0] in fields;
        var o := SetValue(fields[0], v);
        return if o == Pass then Ok(true) else Err;
      }
      r := PlaceSingleton(fields, v);
    }

    /**
     * The loop of TryValue over the possible fields (sudoku.go:297-306, 337-346): v goes
     * into the first field that allows only one value; without one nothing changes.
     */
    method PlaceSingleton(fields: seq<int>, v: int) returns (r: Result<bool>)
      requires Valid() && forall f :: f in fields ==> 0 <= f < 81
      modifies value, fieldOpts, hrowOpts, vrowOpts, counts
      ensures Valid()
      ensures (Abs(), r) == match FirstSingleton(old(Abs()), fields, 0)
                           case None => (old(Abs()), Ok(false))
                           case Some(f) => Place(old(Abs()), f, v)
    {
      var i := 0;
      while i < |fields|
        invariant 0 <= i <= |fields|
        invariant FirstSingleton(Abs(), fields, i) == FirstSingleton(Abs(), fields, 0)
        modifies {}
      {
        assert fields[i] in fields;
        var avail := PossibleValues(fields[i]);
        if |avail| == 1 {
          break;
        }
        i := i + 1;
      }
      if i == |fields| {
        return Ok(false);
      }
      assert fields[i] in fields;
      var o := SetValue(fields[i], v);
      return if o == Pass then Ok(true) else Err;
    }

    /** Grid.CycleGroups (sudoku.go:238-250), visiting the values in ascending order. */
    method CycleGroups() returns (changes: bool)
      requires Valid()
      modifies value, fieldOpts, hrowOpts, vrowOpts, counts
      ensures Valid()
      ensures (Abs(), changes) == Model.CycleGroups(old(Abs()))
    {
      ghost var target := Model.CycleGroups(Abs());
      changes := false;
      for v := 1 to 10
        invariant Valid()
        invariant GroupsFrom(Abs(), v).0 == target.0
        invariant target.1 == (changes || GroupsFrom(Abs(), v).1)
      {
        var c := GroupsForValue(v);
        changes := changes || c;
      }
    }

    /** One round of the outer loop of CycleGroups (sudoku.go:241-247): the groups for v, if v is still open. */
    method GroupsForValue(v: int) returns (changes: bool)
      requires Valid() && IsKey(v)
      modifies value, fieldOpts, hrowOpts, vrowOpts, counts
      ensures Valid()
      ensures GroupsFrom(old(Abs()), v).0 == GroupsFrom(Abs(), v + 1).0
      ensures GroupsFrom(old(Abs()), v).1 == (changes || GroupsFrom(Abs(), v + 1).1)
    {
      var cnt := counts[v];
      if cnt > 0 {
        changes := SweepGroups(v);
      } else {
        changes := false;
      }
    }

    /** The inner loop of CycleGroups for value v (sudoku.go:242-246): TryValue on every group, errors dropped. */
    method SweepGroups(v: int) returns (changes: bool)
      requires Valid() && IsKey(v)
      modifies value, fieldOpts, hrowOpts, vrowOpts, counts
      ensures Valid()
      ensures GroupSweep(old(Abs()), v, 0).0 == GroupsFrom(Abs(), v + 1).0
      ensures GroupSweep(old(Abs()), v, 0).1 == (changes || GroupsFrom(Abs(), v + 1).1)
    {
      ghost var target := GroupSweep(Abs(), v, 0);
      changes := false;
      for i := 0 to 9
        invariant Valid()
        invariant GroupSweep(Abs(), v, i).0 == target.0
        invariant target.1 == (changes || GroupSweep(Abs(), v, i).1)
      {
        var placed := TryValue(Group(i), v);
        if placed == Ok(true) {
          changes := true;
        }
      }
    }

    /** Grid.CycleRows (sudoku.go:218-236): the row and column pass, then CycleGroups. */
    method CycleRows() returns (changes: bool)
      requires Valid()
      modifies value, fieldOpts, hrowOpts, vrowOpts, counts
      ensures Valid()
      ensures (Abs(), changes) == Model.CycleRows(old(Abs()))
    {
      var c1 := RowPass();
      var c2 := CycleGroups();
      if c1 || c2 {
        return true;
      }
      return false;
    }

    /** The loop of CycleRows over the values 1..9 in ascending order (sudoku.go:220-230). */
    method RowPass() returns (changes: bool)
      requires Valid()
      modifies value, fieldOpts, hrowOpts, vrowOpts, counts
      ensures Valid()
      ensures (Abs(), changes) == RowsFrom(old(Abs()), 1)
    {
      ghost var target := RowsFrom(Abs(), 1);
      changes := false;
      for v := 1 to 10
        invariant Valid()
        invariant RowsFrom(Abs(), v).0 == target.0
        invariant target.1 == (changes || RowsFrom(Abs(), v).1)
      {
        var c := RowsForValue(v);
        changes := changes || c;
      }
    }

    /** One round of the outer loop of CycleRows (sudoku.go:221-229): the rows and columns for v, if v is still open. */
    method RowsForValue(v: int) returns (changes: bool)
      requires Valid() && IsKey(v)
      modifies value, fieldOpts, hrowOpts, vrowOpts, counts
      ensures Valid()
      ensures RowsFrom(old(Abs()), v).0 == RowsFrom(Abs(), v + 1).0
      ensures RowsFrom(old(Abs()), v).1 == (changes || RowsFrom(Abs(), v + 1).1)
    {
      var cnt := counts[v];
      if cnt > 0 {
        changes := SweepRows(v, cnt);
      } else {
        changes := false;
      }
    }

    /**
     * The inner loop of CycleRows for value v (sudoku.go:222-228): TryValue on HRows[i]
     * and VRows[i], errors dropped; a change is a count of v that differs from cnt.
     */
    method SweepRows(v: int, cnt: int) returns (changes: bool)
      requires Valid() && IsKey(v)
      modifies value, fieldOpts, hrowOpts, vrowOpts, counts
      ensures Valid()
      ensures RowSweep(old(Abs()), v, 0, cnt).0 == RowsFrom(Abs(), v + 1).0
      ensures RowSweep(old(Abs()), v, 0, cnt).1 == (changes || RowsFrom(Abs(), v + 1).1)
    {
      ghost var target := RowSweep(Abs(), v, 0, cnt);
      changes := false;
      for i := 0 to 9
        invariant Valid()
        invariant RowSweep(Abs(), v, i, cnt).0 == target.0
        invariant target.1 == (changes || RowSweep(Abs(), v, i, cnt).1)
      {
        var _ := TryValue(Row(Horizontal, i), v);
        var _ := TryValue(Row(Vertical, i), v);
        if counts[v] != cnt {
          changes := true;
        }
      }
    }

    /** Grid.IsSolved (sudoku.go:252-259). */
    method IsSolved() returns (solved: bool)
      requires Valid()
      ensures solved == Model.IsSolved(Abs())
      ensures solved <==> forall v :: 1 <= v <= 9 ==> counts[v] == 0
    {
      for v := 1 to 10
        invariant forall w :: 1 <= w < v ==> counts[w] == 0
      {
        if counts[v] > 0 {
          return false;
        }
      }
      return true;
    }

    /** Grid.SetValues (sudoku.go:174-191): reads at most 81 bytes of the stream. */
    method SetValues(stream: seq<Byte>) returns (o: ParseOutcome)
      requires Valid()
      modifies value, fieldOpts, hrowOpts, vrowOpts, counts
      ensures Valid()
      ensures (Abs(), o) == Model.SetValues(old(Abs()), stream, 0)
    {
      ghost var target := Model.SetValues(Abs(), stream, 0);
      var pos := 0;
      while pos < |stream|
        invariant 0 <= pos <= 81 && Valid()
        invariant Model.SetValues(Abs(), stream, pos) == target
        decreases |stream| - pos
      {
        var err := ReadField(stream, pos);
        if err == Fail {
          return BadField(pos);
        }
        pos := pos + 1;
        if pos > 80 {
          break;
        }
      }
      return Parsed;
    }

    /** One round of the loop of SetValues (sudoku.go:178-188): byte pos sets field pos, or empties it. */
    method ReadField(stream: seq<Byte>, pos: int) returns (o: Outcome)
      requires Valid() && 0 <= pos < |stream| && pos < 81
      modifies value, fieldOpts, hrowOpts, vrowOpts, counts
      ensures Valid()
      ensures o == Pass ==> Model.SetValues(old(Abs()), stream, pos) == Model.SetValues(Abs(), stream, pos + 1)
      ensures o == Fail ==> Model.SetValues(old(Abs()), stream, pos) == (Abs(), BadField(pos))
    {
      var i := stream[pos];
      if i > 48 && i < 58 {
        o := SetValue(pos, i - 48);
      } else {
        value[pos] := 0;
        o := Pass;
      }
    }

    /**
     * The retry loop of main (sudoku.go:398-406): passes of CycleRows until the grid
     * is solved or TRIES passes have made no progress. The ghost result counts the passes.
     */
    method Solve() returns (ghost passes: nat)
      requires Valid()
      modifies value, fieldOpts, hrowOpts, vrowOpts, counts
      ensures Valid()
      ensures Abs() == Model.Solve(old(Abs()), TRIES)
      ensures passes == SolvePasses(old(Abs()), TRIES)
    {
      TotalFromBounds(counts[..], 1);
      var tries := TRIES;
      passes := 0;
      while tries > 0
        invariant Valid() && 0 <= tries && 0 <= Total(Abs().count)
        invariant Model.Solve(Abs(), tries) == Model.Solve(old(Abs()), TRIES)
        invariant passes + SolvePasses(Abs(), tries) == SolvePasses(old(Abs()), TRIES)
        decreases Total(Abs().count) + tries
      {
        var solved;
        tries, solved := SolveRound(tries);
        passes := passes + 1;
        if solved {
          break;
        }
      }
      assert Model.Solve(Abs(), 0) == Abs() && SolvePasses(Abs(), 0) == 0;
    }

    /** One pass of the retry loop: CycleRows, one try spent if it made no progress, then IsSolved. */
    method SolveRound(tries: int) returns (left: int, solved: bool)
      requires Valid() && tries > 0
      modifies value, fieldOpts, hrowOpts, vrowOpts, counts
      ensures Valid() && 0 <= left <= tries && 0 <= Total(Abs().count)
      ensures Total(Abs().count) + left < Total(old(Abs()).count) + tries
      ensures solved ==> Abs() == Model.Solve(old(Abs()), tries) && SolvePasses(old(Abs()), tries) == 1
      ensures !solved ==> Model.Solve(Abs(), left) == Model.Solve(old(Abs()), tries)
      ensures !solved ==> 1 + SolvePasses(Abs(), left) == SolvePasses(old(Abs()), tries)
    {
      ghost var before := Abs();
      var changed := CycleRows();
      TotalMonotone(Abs().count, before.count, 1);
      TotalFromBounds(Abs().count, 1);
      left := if changed then tries else tries - 1;
      solved := IsSolved();
    }
  }
}
