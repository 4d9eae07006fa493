# A verified model of a constraint-propagation Sudoku solver

The program solves a 9x9 Sudoku by deduction alone. A `Grid` holds 81 `Field`s,
9 horizontal `Row`s (HRows), 9 vertical `Row`s (VRows, the columns) and 9
`Group`s (the 3x3 boxes). Each field and each unit keeps an option map from the
keys 1..9 to a flag. The grid also keeps a count per key of the placements
still pending.

- `Initialize` wires the fields to their units in both directions and fills
  every option map.
- `SetValues` reads a puzzle of digit bytes and places each digit with
  `SetValue`.
- `SetValue` places a value in a field, strikes it from the neighbouring fields
  through `RemoveOption` on the field's group, row and column, and spends one
  use of the value.
- `TryValue` looks for a placement of one value in one unit. It first tries a
  field that is the only one left for the value; failing that, it tries a
  candidate field that has a single candidate.
- `CycleRows` and `CycleGroups` run `TryValue` for every open value over every
  unit.
- `main` repeats `CycleRows` until `IsSolved`, or until 10000 passes have made
  no progress.

The project has four modules:

- `Geometry` (geometry.dfy) fixes the numbering of fields, slots and units. It
  proves the slot/field bijection that the wiring loops build. It also proves
  that `GetField`, `GetGroup` and `AppendField` never fail during `Initialize`,
  so the four panics there (sudoku.go:92, 98, 114, 118) are unreachable.
- `Model` (model.dfy) states the solver's mutable state as a value (`State`),
  with one function per operation.
- `Sudoku` (grid.dfy) is the class `Grid`, which keeps that state in arrays and
  wires units and fields by index instead of by pointer. Every method that
  changes the state is proved to leave the `Grid` in exactly the state that a
  function of `Model` computes from the state before the call, or in a new
  state its postcondition spells out field by field. Every loop of the
  modelled Go functions is a loop here, with the invariant that ties it to
  its function.
- `Properties` (properties.dfy) proves what those functions guarantee, and the
  quirks of the code.

A Go option map always has exactly the keys 1..9 once the grid is initialised.
The model therefore keeps it as the set of keys the map sends to true, and
`Grid.Options` as an array of 10 counts whose index 0 is unused.

### Quirks the model keeps

- `Field.SetValue` is not all-or-nothing. It writes `Value` before the three
  `RemoveOption` calls (sudoku.go:200-209), so a failed removal leaves the value
  in place (`Properties.SetValueNotAtomic`).
- `Field.SetValue` checks only that the key exists in the field's own map
  (sudoku.go:197), not that it is still true, so a struck candidate is accepted
  (`Properties.SetValuePassIff`).
- `Group.RemoveOption` never sets the group's own flag to false
  (sudoku.go:272-280), unlike `Row.RemoveOption` (sudoku.go:261-270). Group flags
  therefore stay true for the life of the grid (`Properties.GroupFlagsStayFull`).
  A second copy of a value in the same box is accepted whenever its row and
  column still flag it (`Properties.DuplicateInGroupAccepted`).
- `CycleRows` and `CycleGroups` drop the errors that `TryValue` returns
  (sudoku.go:223-224, 243).

## Model

| member | source | states |
|---|---|---|
| Geometry.GroupOf | sudoku.go:110-112 | the group that Initialize computes for field k through GetGroup((k % 9) / 3, (k / 27) % 27) is one of 0..8, so that GetGroup never fails |
| Geometry.Member | sudoku.go:88-101 | the field stored in any slot of any unit is one of 0..80, so no GetField of the wiring loops fails |
| Geometry.MemberInverse | sudoku.go:88-101 | slot j of a unit holds a field of that unit, and that field's slot is j |
| Geometry.SlotInverse | sudoku.go:88-101 | every field of a unit sits in the slot SlotOf gives it, so each field appears in its unit exactly once |
| Geometry.UnitPrefixMember | sudoku.go:266-268 | the field in slot j is among the fields visited in the first n slots when j < n |
| Geometry.UnitPrefixContained | sudoku.go:266-268 | the first n slots of a unit visit only fields of that unit |
| Geometry.UnitPrefixFull | sudoku.go:266-268 | the nine slots of a unit visit exactly the fields of the unit, so a loop over them strikes every field of the unit and no other |
| Geometry.GroupSlotsAscend | sudoku.go:109-119 | a group lists its fields in increasing field order, the order in which the loop appends them |
| Geometry.GroupTableHas | sudoku.go:109-119 | after fields 0..n-1 are appended, slot s of group g is filled exactly when its member is below n, and then it holds that member |
| Geometry.GroupMemberUnique | sudoku.go:109-119 | the only slot of any group that holds field k is slot GroupSlot(k) of group GroupOf(k) |
| Geometry.GroupTableValues | sudoku.go:109-119 | every field appended before field n is below n |
| Geometry.GroupTableBefore | sudoku.go:117-119 | when field k is appended, the slots of its group before its own hold other fields and its own slot is free, so AppendField puts it there and never fails |
| Geometry.GroupTableFull | sudoku.go:109-122 | after all 81 fields are appended, every slot of every group holds its member |
| Model.Initial | sudoku.go:44-56 | the state right after Initialize, with every option map holding the keys 1..9, satisfies the invariant every operation keeps |
| Model.Strike | sudoku.go:266-268 | the candidates after the field loop of Row.RemoveOption and Group.RemoveOption (also lines 276-278): v is gone from every field of the unit and no candidate is added |
| Model.RowRemoveOption | sudoku.go:261-270 | Row.RemoveOption keeps the invariant (candidates among 1..9, counts in 0..9) |
| Model.GroupRemoveOption | sudoku.go:272-280 | Group.RemoveOption keeps the invariant |
| Model.SetValue | sudoku.go:193-216 | SetValue keeps the invariant and every group flag; on success exactly the count of v falls by one, on failure no count changes |
| Model.Propagate | sudoku.go:201-215 | the removals and commit of SetValue keep the invariant and the group flags, spend one use of v on success and none on failure |
| Model.PossibleFields | sudoku.go:309-357 | every field that Group.getPossibleFields (lines 309-317) or Row.getPossibleFields (lines 349-357) lists is a field of the grid |
| Model.PossibleValues | sudoku.go:359-367 | getPossibleValues lists at most n keys, each a true key of the map in 1..n |
| Model.FirstSingleton | sudoku.go:297-305 | the field the loop of TryValue stops at is one of the listed fields and has exactly one candidate |
| Model.Place | sudoku.go:292-295 | SetValue as TryValue reports it (also lines 300-303): (true, nil) or an error, never (false, nil), and the invariant kept |
| Model.TryValue | sudoku.go:282-347 | Group.TryValue (lines 282-307) and Row.TryValue (lines 322-347) keep the invariant and the group flags; they report (true, nil) exactly when one use of v was spent, and otherwise leave every count alone |
| Model.TotalFromMonotone | sudoku.go:214 | lowering counts lowers their sum from v on, lowering one of them lowers it strictly, and the rest of the sum also falls |
| Model.TotalMonotone | sudoku.go:214 | the number of pending placements does not rise when no count rises, and falls when one count falls |
| Model.TotalFromBounds | sudoku.go:123-126 | counts in 0..9 sum, from v on, to between 0 and 9 per key |
| Model.GroupSweep | sudoku.go:242-246 | the inner loop of CycleGroups keeps the invariant |
| Model.GroupsFrom | sudoku.go:240-248 | the outer loop of CycleGroups keeps the invariant |
| Model.CycleGroups | sudoku.go:238-250 | CycleGroups keeps the invariant |
| Model.RowSweep | sudoku.go:222-228 | the inner loop of CycleRows keeps the invariant |
| Model.RowsFrom | sudoku.go:220-230 | the outer loop of CycleRows keeps the invariant |
| Model.GroupSweepShrinks | sudoku.go:242-246 | the rest of the group loop keeps the group flags, raises no count, and reports a change only if it lowered the number of pending placements |
| Model.GroupsFromShrinks | sudoku.go:240-248 | the same for the values v..9 of CycleGroups |
| Model.RowSweepShrinks | sudoku.go:222-228 | the rest of the row loop keeps the group flags and raises no count; when it reports a change, the pending placements fell below their start plus the uses of v already spent in this round |
| Model.RowsFromShrinks | sudoku.go:220-230 | the values v..9 of the row pass keep the group flags, raise no count, and report a change only if they lowered the number of pending placements |
| Model.CycleRows | sudoku.go:218-236 | a pass keeps the invariant and the group flags, raises no count, and reports a change only when the number of pending placements fell |
| Model.GroupSweepReports | sudoku.go:242-246 | the rest of the group loop reports a change whenever it lowered the number of pending placements |
| Model.GroupsFromReports | sudoku.go:240-248 | the same for the values v..9 of CycleGroups |
| Model.RowSweepReports | sudoku.go:222-228 | the rest of the row loop reports a change whenever it lowered the pending placements, since a round that spends a use of v leaves the count of v below cnt |
| Model.RowsFromReports | sudoku.go:220-230 | the values v..9 of the row pass report a change whenever they lowered the pending placements |
| Model.CycleGroupsReportsIff | sudoku.go:238-250 | CycleGroups reports a change exactly when it lowered the number of pending placements |
| Model.CycleRowsReportsIff | sudoku.go:218-236 | a pass reports a change exactly when it lowered the number of pending placements, so a pass that placed a value never spends a try |
| Model.IsSolved | sudoku.go:252-259 | no count of 1..9 is above zero; Properties.SolvedIff proves this is the same as no pending placement |
| Model.Solve | sudoku.go:398-406 | the retry loop keeps the invariant; it terminates because every pass lowers the pending placements or spends a try |
| Model.SetValues | sudoku.go:174-191 | parsing keeps the invariant |
| Sudoku.Grid.constructor | sudoku.go:17-42 | a zero Grid: every array has its size, the arrays are distinct objects, values are 0, links nil and maps empty |
| Sudoku.Grid.GetField | sudoku.go:71-77 | succeeds exactly when x + 9y is at most 80; for x < 9 the field returned lies in row y, column x |
| Sudoku.Grid.GetGroup | sudoku.go:79-85 | succeeds exactly when 3x + y is at most 8; for y < 3 the group returned has band x and offset y |
| Sudoku.Grid.AppendField | sudoku.go:59-69 | f goes into the first slot that is nil or already holds f; it succeeds exactly when that slot is nil, then nothing else changes; on failure nothing changes |
| Sudoku.Grid.Initialize | sudoku.go:87-127 | from a zero Grid, every field is linked to its row, column and group, and each unit lists its fields in slot order; the state is the initial one: empty fields, full maps, counts 9 |
| Sudoku.Grid.WireRows | sudoku.go:88-105 | field k links to HRow k / 9 and VRow k % 9, each row lists its fields in slot order, and the row maps are full |
| Sudoku.Grid.WireGroups | sudoku.go:109-122 | on nil group slots, every field links to its group, every group lists its fields in slot order, and every field map is full |
| Sudoku.Grid.WireGroupField | sudoku.go:110-121 | one field's pass extends the links and group slots built so far by that field, as appending in field order prescribes |
| Sudoku.Grid.StrikeUnit | sudoku.go:266-268 | v is struck from the candidates of exactly the fields of the unit |
| Sudoku.Grid.RowRemoveOption | sudoku.go:261-270 | keeps the grid valid and changes it as Model.RowRemoveOption says, with the same outcome |
| Sudoku.Grid.GroupRemoveOption | sudoku.go:272-280 | keeps the grid valid and changes it as Model.GroupRemoveOption says; no unit flag is written |
| Sudoku.Grid.SetValue | sudoku.go:193-216 | keeps the grid valid and changes it as Model.SetValue says, with the same outcome |
| Sudoku.Grid.Propagate | sudoku.go:201-215 | keeps the grid valid and changes it as Model.Propagate says |
| Sudoku.Grid.Commit | sudoku.go:210-214 | field f keeps v as its only candidate and the count of v falls by one; nothing else changes |
| Sudoku.Grid.ClearOptions | sudoku.go:210-212 | every key of field f is cleared and no other field changes |
| Sudoku.Grid.PossibleFields | sudoku.go:309-357 | returns, for a group (lines 309-317) or a row (lines 349-357), the list Model.PossibleFields describes, so the properties proved about it hold |
| Sudoku.Grid.PossibleValues | sudoku.go:359-367 | returns the candidates of the field in ascending order, as Model.PossibleValues lists them |
| Sudoku.Grid.TryValue | sudoku.go:282-347 | for a group (lines 282-307) or a row (lines 322-347), keeps the grid valid and changes it as Model.TryValue says, with the same result |
| Sudoku.Grid.PlaceSingleton | sudoku.go:297-306 | places v in the first listed field with a single candidate, as Model.FirstSingleton picks it, or changes nothing |
| Sudoku.Grid.CycleGroups | sudoku.go:238-250 | keeps the grid valid and changes it as Model.CycleGroups says, with the same flag |
| Sudoku.Grid.GroupsForValue | sudoku.go:241-247 | one round of the outer loop carries the state and the flag from value v to value v + 1 of Model.GroupsFrom |
| Sudoku.Grid.SweepGroups | sudoku.go:242-246 | the inner loop for v does what Model.GroupSweep says, and the flag records a (true, nil) from some group |
| Sudoku.Grid.CycleRows | sudoku.go:218-236 | keeps the grid valid and changes it as Model.CycleRows says, with the same flag |
| Sudoku.Grid.RowPass | sudoku.go:220-230 | the loop over the values does what Model.RowsFrom says from value 1 |
| Sudoku.Grid.RowsForValue | sudoku.go:221-229 | one round of the outer loop carries the state and the flag from value v to value v + 1 of Model.RowsFrom |
| Sudoku.Grid.SweepRows | sudoku.go:222-228 | the inner loop for v does what Model.RowSweep says, and the flag records a count of v that left cnt |
| Sudoku.Grid.IsSolved | sudoku.go:252-259 | true exactly when every count of 1..9 is zero |
| Sudoku.Grid.SetValues | sudoku.go:174-191 | keeps the grid valid and changes it as Model.SetValues says from position 0, with the same outcome |
| Sudoku.Grid.ReadField | sudoku.go:178-188 | one byte either moves parsing on to the next position or stops it with an error naming this position |
| Sudoku.Grid.Solve | sudoku.go:398-406 | keeps the grid valid and leaves it as Model.Solve says after 10000 tries |
| Sudoku.Grid.SolveRound | sudoku.go:399-405 | one pass: the pending placements plus the tries left strictly fall, and the rest of the loop still reaches Model.Solve |
| Properties.RowRemoveOptionSpec | sudoku.go:261-270 | Row.RemoveOption succeeds exactly when v is a key still flagged in the row; it then clears that flag and no other unit flag, strikes v from the row's fields and from no others, leaves values and counts alone, so a second call fails; on failure nothing changes |
| Properties.GroupRemoveOptionRepeats | sudoku.go:272-280 | Group.RemoveOption succeeds exactly when v is a key flagged in the group; it then strikes v from the group's fields and from no others, leaves values, counts and every unit flag alone (it keeps its own), so a second call succeeds again and changes nothing; on failure nothing changes |
| Properties.SetValuePassIff | sudoku.go:193-209 | SetValue succeeds exactly when v is a key with uses left and the group, row and column of f all still flag v; f's own candidates play no part |
| Properties.SetValueEffects | sudoku.go:193-216 | a successful SetValue writes v into f, leaves v as f's only candidate, strikes v from exactly the other fields sharing a unit with f, clears the row and column flags, keeps the group flags and spends one use of v |
| Properties.SetValueNotAtomic | sudoku.go:194-209 | when the key or count check fails nothing changes; once it passes f holds v even if a removal then fails, and a failure spends no use |
| Properties.NoDuplicateInLine | sudoku.go:204-209 | once v is placed in f, placing v in any field of f's row or column fails |
| Properties.DuplicateInGroupAccepted | sudoku.go:272-280 | once v is placed in f, a second v in the same box but another row and column succeeds exactly when a use is left and that row and column still flag v |
| Properties.PossibleFieldsSlots | sudoku.go:309-317 | the list holds one field per open slot, in slot order |
| Properties.PossibleFieldsPrefix | sudoku.go:349-357 | the first n slots yield only open fields of the unit, all of them, in slot order |
| Properties.PossibleFieldsExact | sudoku.go:309-317 | getPossibleFields lists exactly the empty fields of the unit that still allow v, each once, in slot order |
| Properties.PossibleValuesPrefix | sudoku.go:359-367 | the keys up to n are listed when true and only then, in ascending order |
| Properties.PossibleValuesCount | sudoku.go:359-367 | the list has one entry per true key up to n |
| Properties.PossibleValuesExact | sudoku.go:359-367 | getPossibleValues lists each candidate once, so its length is the number of candidates |
| Properties.SingleCandidate | sudoku.go:297-299 | a field whose map has a single true key that is v allows v and nothing else |
| Properties.TryValueNoChange | sudoku.go:282-289 | TryValue returns an error for a non-key, (false, nil) when the unit no longer flags v, and changes nothing whenever it returns (false, nil) |
| Properties.TryValuePlaces | sudoku.go:290-306 | otherwise TryValue is one SetValue of v into an open field of the unit that is either the only open field for v (hidden single) or has v as its only candidate (naked single) |
| Properties.PlacesOnlyField | sudoku.go:290-296 | when getPossibleFields lists one field, that field is the only empty field of the unit allowing v |
| Properties.PlacesSingleCandidate | sudoku.go:297-304 | the field the loop picks is open in the unit and has v as its only candidate |
| Properties.TryValueHiddenSingle | sudoku.go:330-336 | a unit that flags v and has a single open field for it places v there |
| Properties.FirstSingletonFirst | sudoku.go:297-305 | the loop finds nothing exactly when no listed field from i on has a single candidate; otherwise it stops at a listed field with none before it |
| Properties.EarlierSlotsNotSingle | sudoku.go:297-305 | since getPossibleFields lists fields in slot order, a loop that passed listed fields 0..j-1 passed every open field of an earlier slot than field j |
| Properties.FirstSingletonFinds | sudoku.go:297-305 | when some open field of the unit has v as its only candidate, the loop stops at such a field, with no open field of an earlier slot having a single candidate |
| Properties.TryValueNakedSingle | sudoku.go:290-306 | a unit that flags v and has an open field whose only candidate is v never returns (false, nil): TryValue is the SetValue of v into the first such field in slot order |
| Properties.TotalBounds | sudoku.go:123-126 | the pending placements number 81 after Initialize and never more than 81 |
| Properties.TotalFromZero | sudoku.go:252-259 | the counts from v on sum to zero exactly when each of them is zero |
| Properties.SolvedIff | sudoku.go:252-259 | IsSolved holds exactly when no placement is pending |
| Properties.RowsFromSolved | sudoku.go:220-230 | on a solved grid the row pass skips every value and reports no change |
| Properties.GroupsFromSolved | sudoku.go:240-248 | on a solved grid CycleGroups skips every value and reports no change |
| Properties.SolvedIsFixed | sudoku.go:398-406 | on a solved grid a pass changes nothing, and the retry loop makes one pass and stops |
| Properties.SolvePassesBound | sudoku.go:398-406 | the retry loop makes at most pending placements + tries passes, at most 81 + 10000 |
| Properties.SolveMonotone | sudoku.go:398-406 | the solver never raises a count and never changes a group flag |
| Properties.GroupFlagsStayFull | sudoku.go:272-280 | group flags that start full stay full through the solver, so Group.RemoveOption always succeeds for a key |
| Properties.Digit | sudoku.go:177-184 | a byte stands for a digit 1..9 exactly when it is '1'..'9', and for an empty field otherwise |
| Properties.SetValuesReadsAtMost81 | sudoku.go:185-188 | only the first 81 bytes of the stream matter |
| Properties.SetValuesKeepsRead | sudoku.go:176-189 | parsing never changes a field before the position it starts from |
| Properties.SetValuesKeepsUnread | sudoku.go:176-189 | parsing leaves alone the fields past the end of the stream, and those past the failing position when it stops |
| Properties.SetValuesStops | sudoku.go:178-181 | parsing fails only at a position among the first 81 holding a digit byte |
| Properties.Reached | sudoku.go:176-189 | the grid parsing has built when it reaches the field it stops at (or the end) satisfies the invariant |
| Properties.SetValuesRefused | sudoku.go:176-189 | when parsing fails at a position, the state it returns is exactly what SetValue returned when it refused that position's digit on the valid grid parsing had built so far |
| Properties.SetValuesDecodes | sudoku.go:176-189 | after a successful parse every field read holds the digit of its byte, 0 for any other byte |
| Properties.SetValuesDecodesPrefix | sudoku.go:179-183 | after a failed parse every field before the failing position holds the digit of its byte |

## Left out

- The I/O of `main` is not modelled: the flags, reading the file and printing the grid. The puzzle enters as a byte sequence parameter of `SetValues`.
- `Grid.String`, `Field.GetPrintValue`, `Grid.GetValues` and `TestValues` are not modelled. They only format the grid or fill it for a manual test, and they take no part in solving.
- Sudoku.Grid.CycleRows: visits the values in ascending order. Go's range over a map visits them in an unspecified order, so the proofs cover that one order. The same holds for Sudoku.Grid.CycleGroups, Sudoku.Grid.IsSolved and Sudoku.Grid.PossibleValues. The order does not change the result of IsSolved. It does change the list PossibleValues returns, but not its length, and the length is all TryValue uses (sudoku.go:298, 338).
- Errors are kept as their kind only: `Fail`, `Err` or `BadField(pos)`. Their message texts are not modelled.
- The `Field.Grid` back-pointer is not kept. There is one grid, and its counts are the `counts` array.
- Pointers are modelled as indices into the grid's arrays, with `NIL` for nil. The model does not capture pointer aliasing beyond this fixed wiring.
- The four panics of `Initialize` are not modelled as behaviour. They are proved unreachable instead.
- Sudoku.Grid.SetValue: the check at sudoku.go:197 is not a separate branch, because it can never fail once the check at sudoku.go:194 has passed (every map has the keys 1..9).
- No invariant is proved that ties a unit's flags to the values placed in it, or a field's candidates to the flags of its units. The code does not keep such an invariant for groups, whose flags never clear (`Properties.DuplicateInGroupAccepted`).
- Sudoku.Grid.Solve: the count of passes it returns is ghost. It exists only to tie the loop to `Model.SolvePasses`.
