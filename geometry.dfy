/**
 * The fixed index geometry of the 9x9 grid.
 *
 * Fields are numbered 0..80 row by row (field k sits in row k / 9, column k % 9).
 * A unit is one of the 9 horizontal rows, 9 vertical rows (columns) or 9 groups
 * (3x3 boxes). Each unit lists its 9 fields in slots 0..8, in the order in which
 * Grid.Initialize stores them.
 */
module Geometry {

  /** The nil pointer of the Go program, for a link that has not been wired yet. */
  const NIL := -1

  /** The keys of every option map: the digits 1..9. */
  const DIGITS: set<int> := {1, 2, 3, 4, 5, 6, 7, 8, 9}

  /** A lookup in an option map finds its key exactly when the key is a digit. */
  predicate IsKey(v: int) {
    1 <= v <= 9
  }

  /** HRows are the horizontal rows, VRows the vertical ones (columns). */
  datatype Axis = Horizontal | Vertical

  datatype Unit = Row(axis: Axis, index: int) | Group(index: int)
  {
    predicate Valid() {
      0 <= index < 9
    }
  }

  /** The group of field k, as Initialize computes it: GetGroup((k % 9) / 3, k / 27). */
  function GroupOf(k: int): (g: int)
    requires 0 <= k < 81
    ensures 0 <= g < 9
  {
    3 * ((k % 9) / 3) + k / 27
  }

  /** The field stored in slot j of unit u. */
  function Member(u: Unit, j: int): (k: int)
    requires u.Valid() && 0 <= j < 9
    ensures 0 <= k < 81
  {
    match u
    case Row(Horizontal, i) => j + 9 * i
    case Row(Vertical, i) => i + 9 * j
    case Group(g) => 27 * (g % 3) + 9 * (j / 3) + 3 * (g / 3) + j % 3
  }

  /** Whether field k belongs to unit u. */
  predicate Contains(u: Unit, k: int)
    requires 0 <= k < 81
  {
    match u
    case Row(Horizontal, i) => k / 9 == i
    case Row(Vertical, i) => k % 9 == i
    case Group(g) => GroupOf(k) == g
  }

  /** The slot that field k occupies in any unit of u's kind. */
  function SlotOf(u: Unit, k: int): int
    requires 0 <= k < 81
  {
    match u
    case Row(Horizontal, _) => k % 9
    case Row(Vertical, _) => k / 9
    case Group(_) => 3 * ((k / 9) % 3) + k % 3
  }

  /** Fields k and f share a row, a column or a group. */
  predicate Peer(k: int, f: int)
    requires 0 <= k < 81 && 0 <= f < 81
  {
    k / 9 == f / 9 || k % 9 == f % 9 || GroupOf(k) == GroupOf(f)
  }

  /** Slot j of unit u holds a field of u, and that field's slot is j. */
  lemma MemberInverse(u: Unit, j: int)
    requires u.Valid() && 0 <= j < 9
    ensures Contains(u, Member(u, j)) && SlotOf(u, Member(u, j)) == j
  {
    match u
    case Row(Horizontal, i) =>
      DivMod9(i, j);
    case Row(Vertical, i) =>
      DivMod9(j, i);
    case Group(g) =>
      GroupMemberInverse(g, j);
  }

  /** MemberInverse for a group, with g = a + 3b and j = d + 3c written out in base 3. */
  lemma GroupMemberInverse(g: int, j: int)
    requires 0 <= g < 9 && 0 <= j < 9
    ensures GroupOf(Member(Group(g), j)) == g && SlotOf(Group(g), Member(Group(g), j)) == j
  {
    var a, b, c, d := g % 3, g / 3, j / 3, j % 3;
    assert g == 3 * b + a && j == 3 * c + d;
    DigitsField(a, b, c, d);
    var k := Member(Group(g), j);
    assert k == 27 * a + 9 * c + 3 * b + d;
    assert GroupOf(k) == 3 * b + a;
    assert SlotOf(Group(g), k) == 3 * c + d;
  }

  /** The field with band digits a, c and offset digits b, d: its row, column and group digits. */
  lemma DigitsField(a: int, b: int, c: int, d: int)
    requires 0 <= a < 3 && 0 <= b < 3 && 0 <= c < 3 && 0 <= d < 3
    ensures (27 * a + 9 * c + 3 * b + d) / 9 == 3 * a + c && (27 * a + 9 * c + 3 * b + d) % 9 == 3 * b + d
    ensures (27 * a + 9 * c + 3 * b + d) / 27 == a && (27 * a + 9 * c + 3 * b + d) % 3 == d
    ensures (3 * a + c) % 3 == c && (3 * b + d) / 3 == b
  {
    DivMod9(3 * a + c, 3 * b + d);
    DivMod27(a, 9 * c + 3 * b + d);
    DivMod3(9 * a + 3 * c + b, d);
    DivMod3(a, c);
    DivMod3(b, d);
  }

  /** Quotient and remainder of r + 3q, r + 9q and r + 27q, for a remainder below the divisor. */
  lemma DivMod3(q: int, r: int)
    requires 0 <= q && 0 <= r < 3
    ensures (r + 3 * q) / 3 == q && (r + 3 * q) % 3 == r
  {
  }

  lemma DivMod9(q: int, r: int)
    requires 0 <= q && 0 <= r < 9
    ensures (r + 9 * q) / 9 == q && (r + 9 * q) % 9 == r
  {
  }

  lemma DivMod27(q: int, r: int)
    requires 0 <= q && 0 <= r < 27
    ensures (r + 27 * q) / 27 == q && (r + 27 * q) % 27 == r
  {
  }

  /** Every field of unit u sits in exactly one slot of u. */
  lemma SlotInverse(u: Unit, k: int)
    requires u.Valid() && 0 <= k < 81 && Contains(u, k)
    ensures 0 <= SlotOf(u, k) < 9 && Member(u, SlotOf(u, k)) == k
  {
    match u
    case Row(Horizontal, i) =>
      DivMod9(k / 9, k % 9);
    case Row(Vertical, i) =>
      DivMod9(k / 9, k % 9);
    case Group(g) =>
      GroupSlotInverse(g, k);
  }

  /** SlotInverse for a group, with field k's row and column written out in base 3. */
  lemma GroupSlotInverse(g: int, k: int)
    requires 0 <= k < 81 && GroupOf(k) == g
    ensures 0 <= SlotOf(Group(g), k) < 9 && Member(Group(g), SlotOf(Group(g), k)) == k
  {
    FieldDigits(k);
    var a, b, c, d := (k / 9) / 3, (k % 9) / 3, (k / 9) % 3, (k % 9) % 3;
    assert g == 3 * b + a;
    assert SlotOf(Group(g), k) == 3 * c + d;
    DivMod3(b, a);
    DivMod3(c, d);
    assert Member(Group(g), 3 * c + d) == 27 * a + 9 * c + 3 * b + d;
  }

  /** Field k as base-3 digits: row k / 9 and column k % 9, each split into a band and an offset. */
  lemma FieldDigits(k: int)
    requires 0 <= k < 81
    ensures k == 27 * ((k / 9) / 3) + 9 * ((k / 9) % 3) + 3 * ((k % 9) / 3) + (k % 9) % 3
    ensures k / 27 == (k / 9) / 3
    ensures 0 <= (k / 9) / 3 < 3 && 0 <= (k % 9) / 3 < 3
  {
    var row, col := k / 9, k % 9;
    assert k == 9 * row + col;
    DivMod27(row / 3, 9 * (row % 3) + col);
  }

  /** The fields in slots 0..n-1 of unit u. */
  function UnitPrefix(u: Unit, n: int): set<int>
    requires u.Valid() && 0 <= n <= 9
  {
    if n == 0 then {} else UnitPrefix(u, n - 1) + {Member(u, n - 1)}
  }

  /** The field in slot j is among the first n of unit u when j is below n. */
  lemma {:induction false} UnitPrefixMember(u: Unit, n: int, j: int)
    requires u.Valid() && 0 <= j < n <= 9
    ensures Member(u, j) in UnitPrefix(u, n)
  {
    if j < n - 1 {
      UnitPrefixMember(u, n - 1, j);
    }
  }

  /** Only fields of unit u are among its first n. */
  lemma {:induction false} UnitPrefixContained(u: Unit, n: int, k: int)
    requires u.Valid() && 0 <= n <= 9 && k in UnitPrefix(u, n)
    ensures 0 <= k < 81 && Contains(u, k)
  {
    if k == Member(u, n - 1) {
      MemberInverse(u, n - 1);
    } else {
      UnitPrefixContained(u, n - 1, k);
    }
  }

  /** All nine slots of unit u hold exactly the fields of u. */
  lemma UnitPrefixFull(u: Unit)
    requires u.Valid()
    ensures forall k :: 0 <= k < 81 ==> (k in UnitPrefix(u, 9) <==> Contains(u, k))
  {
    forall k | 0 <= k < 81
      ensures k in UnitPrefix(u, 9) <==> Contains(u, k)
    {
      if Contains(u, k) {
        SlotInverse(u, k);
        UnitPrefixMember(u, 9, SlotOf(u, k));
      } else if k in UnitPrefix(u, 9) {
        UnitPrefixContained(u, 9, k);
      }
    }
  }

  /** A group lists its fields in increasing field order (Initialize appends them in that order). */
  lemma GroupSlotsAscend(g: int, s: int, t: int)
    requires 0 <= g < 9 && 0 <= s < t < 9
    ensures Member(Group(g), s) < Member(Group(g), t)
  {
    SlotRank(s, t);
  }

  /** The offset of slot s from the first field of its group grows with s. */
  lemma SlotRank(s: int, t: int)
    requires 0 <= s < t < 9
    ensures 9 * (s / 3) + s % 3 < 9 * (t / 3) + t % 3
  {
    var a, b, c, d := s / 3, s % 3, t / 3, t % 3;
    assert s == 3 * a + b && t == 3 * c + d;
    assert a < c || (a == c && b < d);
  }

  /** The slot of field k in its group. */
  function GroupSlot(k: int): int
    requires 0 <= k < 81
  {
    SlotOf(Group(GroupOf(k)), k)
  }

  /** The group slots filled by appending the fields 0..n-1 to their groups in order, and what each holds. */
  function GroupTable(n: int): map<(int, int), int>
    requires 0 <= n <= 81
  {
    if n == 0 then map[] else GroupTable(n - 1)[(GroupOf(n - 1), GroupSlot(n - 1)) := n - 1]
  }

  /** After the fields 0..n-1, slot s of group g is filled exactly when its member is below n, and it holds that member. */
  lemma {:induction false} GroupTableHas(n: int, g: int, s: int)
    requires 0 <= n <= 81 && 0 <= g < 9 && 0 <= s < 9
    ensures (g, s) in GroupTable(n) <==> Member(Group(g), s) < n
    ensures (g, s) in GroupTable(n) ==> GroupTable(n)[(g, s)] == Member(Group(g), s)
  {
    if n > 0 {
      var k := n - 1;
      GroupTableHas(k, g, s);
      if g == GroupOf(k) && s == GroupSlot(k) {
        SlotInverse(Group(g), k);
      } else {
        GroupMemberUnique(g, s, k);
      }
    }
  }

  /** The only slot of any group that holds field k is slot GroupSlot(k) of group GroupOf(k). */
  lemma GroupMemberUnique(g: int, s: int, k: int)
    requires 0 <= g < 9 && 0 <= s < 9 && 0 <= k < 81
    ensures Member(Group(g), s) == k ==> g == GroupOf(k) && s == GroupSlot(k)
  {
    GroupMemberInverse(g, s);
  }

  /** Every field appended so far is below n. */
  lemma {:induction false} GroupTableValues(n: int)
    requires 0 <= n <= 81
    ensures forall p :: p in GroupTable(n) ==> 0 <= GroupTable(n)[p] < n
  {
    if n > 0 {
      GroupTableValues(n - 1);
    }
  }

  /** Once all 81 fields are appended, every slot of every group holds its member. */
  lemma GroupTableFull()
    ensures forall g, s :: 0 <= g < 9 && 0 <= s < 9 ==> (g, s) in GroupTable(81) && GroupTable(81)[(g, s)] == Member(Group(g), s)
  {
    forall g, s | 0 <= g < 9 && 0 <= s < 9
      ensures (g, s) in GroupTable(81) && GroupTable(81)[(g, s)] == Member(Group(g), s)
    {
      GroupTableHas(81, g, s);
    }
  }

  /** Before field k is appended, the slots of its group below its own are filled with smaller fields and the rest are free. */
  lemma GroupTableBefore(k: int)
    requires 0 <= k < 81
    ensures 0 <= GroupSlot(k) < 9
    ensures forall t :: 0 <= t < 9 ==> ((GroupOf(k), t) in GroupTable(k) <==> t < GroupSlot(k))
    ensures forall p :: p in GroupTable(k) ==> 0 <= GroupTable(k)[p] < k
  {
    var g, slot := GroupOf(k), GroupSlot(k);
    GroupTableValues(k);
    SlotInverse(Group(g), k);
    forall t | 0 <= t < 9
      ensures (g, t) in GroupTable(k) <==> t < slot
    {
      GroupTableHas(k, g, t);
      if t < slot {
        GroupSlotsAscend(g, t, slot);
      } else if slot < t {
        GroupSlotsAscend(g, slot, t);
      }
    }
  }
}
