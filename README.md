# Byte range-check chip (Range256Chip), modelled in Dafny

The prover proves that every limb of a fixed list of main-trace columns lies in
0..=255. It has three lists: 31 word columns of WORD_SIZE (4) byte limbs, 9
single-byte columns, and 2 byte columns checked only on rows whose virtual
IsTypeU column is 1. The chip works in three phases:

- While the main trace is filled, it counts every checked limb into a
  256-entry multiplicity table held in the prover's side note. It waits until
  the call for the last row, then sweeps all rows at once.
- While the interaction trace is filled, it writes one logup column per
  checked limb. Each column has one fraction per packed row, with numerator
  1, or IsTypeU for the type-U bytes.
- While the constraints are assembled, it adds one entry to the Range256
  relation per checked limb, with the same numerators in the same order.

The files:

- `trace.dfy` (module `TraceModel`): read access to the trace. A `Trace` has a
  row count of 2^logSize, the limb values (base-field elements below 2^31 - 1)
  and the 0/1 IsTypeU column.
- `logup.dfy` (module `Logup`): the chip's collaborators as objects that record
  what they are asked to do.
  - The logup trace generator logs `new_col`, `write_frac` and `finalize_col`.
  - The constraint evaluator logs its relation entries.
  - The lookup-element registry maps relations to drawn values.
  - `ParseColumns` reads a generator log back as a list of complete columns.
- `range256.dfy` (module `Range256`): the column lists, `fill_main_cols` and
  `fill_main_trace`.
  - `SideNote` is a class whose `multiplicity` array the methods update in place.
  - Each method is specified by two functions of the trace. `CellVerdict`
    gives the outcome: completion, or the panic of the first non-byte cell.
    `CountAll` gives the new table: the old table with the counted values
    added.
- `range256_interaction.dfy` (module `Range256Interaction`):
  `draw_lookup_elements`, `fill_interaction_trace` with `check_bytes`, and
  `add_constraints`. Each method's new log is the old log followed by a
  function of the 135 relation entries `CheckedEntries`.
- `column_order.dfy` (module `ColumnOrder`): the position of each column in
  the column enum. It shows that the three column lists name 42 different
  columns.
- `range256_properties.dfy` (module `Range256Properties`): the properties listed
  below, and the chip's two tests stated as lemmas.

Two points where this model follows the code rather than a prose reading of it:

- `fill_main_trace` returns early only while `row_idx + 1 < num_rows`. Any call
  with `row_idx + 1 >= num_rows` sweeps, not only the call where the two are
  equal.
- The range assertion in `fill_main_cols` is compiled in outside test builds.
  In test builds it is absent, and a value of 256 or more fails the table's
  bounds check ("index out of bounds", as the out-of-range test expects).

## Model

| member | source | states |
|---|---|---|
| Range256.LimbRefsMembership | prover/src/chips/range_check/range256.rs:39-85 | a (column, limb) pair is among a list's checked limbs exactly when its column is in the list and the limb index is below the width |
| Range256.FirstOutOfRange | prover/src/chips/range_check/range256.rs:223-227 | the index of the first limb that is not a byte: every earlier limb is below 256, and the limb there is 256 or more |
| Range256.Verdict | prover/src/chips/range_check/range256.rs:222-229 | counting limbs completes exactly when all are below 256; otherwise it panics at the first limb that is not a byte: at the range assertion, reporting that limb's index, when the assertion is compiled in, and at the table's bounds check, reporting that limb's value (256 or more), when it is not |
| Range256.CountAllTally | prover/src/chips/range_check/range256.rs:227 | after counting a list of values, each table entry v has grown by the number of values equal to v |
| Range256.FillMainCols | prover/src/chips/range_check/range256.rs:222-229 | the outcome is the verdict on the column's limbs; the new table is the old one with the limbs before the first non-byte counted |
| Range256.FillColumns | prover/src/chips/range_check/range256.rs:109-116 | visiting a column list on one row counts that row's cells of those columns in list and limb order, stopping at the first panic |
| Range256.FillRowBytes | prover/src/chips/range_check/range256.rs:113-123 | the checked bytes of a row are counted, then its type-U bytes, which only on rows whose IsTypeU is not zero |
| Range256.FillRow | prover/src/chips/range_check/range256.rs:109-123 | one row of the sweep counts exactly the row's checked cells (words, bytes, type-U bytes) in the source's order |
| Range256.SweepRows | prover/src/chips/range_check/range256.rs:108-124 | the sweep's outcome is the verdict on all checked cells of all rows in row order, and the table gains exactly the cells counted before any panic |
| Range256.FillMainTrace | prover/src/chips/range_check/range256.rs:97-125 | a call with row_idx + 1 < num_rows completes and leaves the table unchanged; any other call performs the full sweep |
| Range256.FillEveryRow | prover/src/chips/range_check/range256.rs:272-285 | calling fill_main_trace once per row in ascending order leaves the table exactly as one sweep does |
| Range256Properties.RowLimbsMembership | prover/src/chips/range_check/range256.rs:108-124 | the limbs counted on a row are the word limbs of the 31 word columns, the limb of the 9 byte columns, and on a type-U row the limb of the 2 type-U columns |
| Range256Properties.SweepCellsMembership | prover/src/chips/range_check/range256.rs:108-124 | the sweep over rows 0 .. n visits a cell exactly when its row is below n and its limb is one the row counts |
| Range256Properties.CheckedCells | prover/src/chips/range_check/range256.rs:39-85 | the fill_main_trace sweep visits exactly the checked (row, column, limb) cells of the trace |
| Range256Properties.SweepSize | prover/src/chips/range_check/range256.rs:39-85 | a sweep over n rows counts n × (31 × WORD_SIZE + 9) + 2 × (number of type-U rows) cells |
| Range256Properties.CountAllSum | prover/src/chips/range_check/range256.rs:227 | counting values that all index the table raises the table's total by the number of values |
| Range256Properties.FillMainColsEffect | prover/src/chips/range_check/range256.rs:222-229 | on bytes, fill_main_cols raises entry v by the number of limbs equal to v, leaves every entry no limb names unchanged, and raises the total by N |
| ColumnOrder.ColumnListsDistinct | prover/src/chips/range_check/range256.rs:39-85 | no column occurs twice in a list, and no column is in two of the three lists |
| Range256Properties.RowLimbsDistinct | prover/src/chips/range_check/range256.rs:108-124 | the limbs counted on one row are all different |
| Range256Properties.SweepCellsDistinct | prover/src/chips/range_check/range256.rs:108-124 | the sweep visits no (row, column, limb) cell twice |
| Range256Properties.CheckedHolding | prover/src/chips/range_check/range256.rs:108-124 | the set of cells holding v is exactly the checked cells of the trace's rows whose value is v |
| Range256Properties.DistinctValueCount | prover/src/chips/range_check/range256.rs:227 | over cells visited once each, how often v occurs among the counted values is the number of cells holding v |
| Range256Properties.SweepTally | prover/src/chips/range_check/range256.rs:108-124 | when every checked cell holds a byte, the sweep completes, visits each checked cell exactly once, entry v grows by the number of checked cells holding v, and the total grows by num_rows × (31 × WORD_SIZE + 9) + 2 × (number of type-U rows) |
| Range256Properties.SweepPanicsOnNonByte | prover/src/chips/range_check/range256.rs:225-227 | any checked cell holding 256 or more makes the sweep panic, at the assertion exactly when it is compiled in, otherwise with an out-of-bounds index of 256 or more |
| Range256Interaction.DrawLookupElements | prover/src/chips/range_check/range256.rs:89-94 | the registry gains the drawn Range256 lookup elements and nothing else changes |
| Range256Interaction.WriteColumn | prover/src/chips/range_check/range256.rs:239-246 | one interaction column: new_col, one write_frac per packed row in ascending order, finalize_col |
| Range256Interaction.CheckBytes | prover/src/chips/range_check/range256.rs:231-248 | one complete interaction column per limb of the column, in limb order, over 2^(log_size − LOG_N_LANES) packed rows |
| Range256Interaction.CheckColumns | prover/src/chips/range_check/range256.rs:139-177 | one complete interaction column per checked limb of a column list, in list and limb order |
| Range256Interaction.FillInteractionTrace | prover/src/chips/range_check/range256.rs:129-178 | with the chip's lookup elements drawn, the generator log gains exactly the columns of the 135 relation entries in order: words and bytes with numerator 1, then type-U bytes with numerator IsTypeU; without them, nothing is written |
| Range256Interaction.AddColumn | prover/src/chips/range_check/range256.rs:188-198 | one relation entry per limb of a column, in limb order |
| Range256Interaction.AddColumns | prover/src/chips/range_check/range256.rs:188-218 | one relation entry per checked limb of a column list, in list and limb order |
| Range256Interaction.AddConstraints | prover/src/chips/range_check/range256.rs:180-219 | with the chip's lookup elements drawn, the evaluator gains exactly the 135 relation entries in order; without them, nothing is added |
| Logup.ParseEmitColumns | prover/src/chips/range_check/range256.rs:231-248 | reading back the log written for a list of entries gives one complete, finalized column per entry, each with one write per packed row in ascending order; this is the shape check_bytes writes, and the type-U block at lines 163-174 writes the same |
| Range256Properties.CheckedEntriesShape | prover/src/chips/range_check/range256.rs:180-219 | there are 31 × WORD_SIZE + 9 + 2 entries, the first 31 × WORD_SIZE + 9 with numerator 1 and the last two with IsTypeU, all with the chip's lookup elements |
| Range256Properties.InteractionMirrorsConstraints | prover/src/chips/range_check/range256.rs:139-177 | the interaction columns, read back, are 135 columns, one per relation entry of the constraints in the same order, each with that entry's numerator, limb and lookup elements at every packed row |
| Range256Properties.DemandedGroups | prover/src/chips/range_check/range256.rs:200-218 | the entries with a nonzero numerator on a row are the words and bytes, and the type-U bytes only on a type-U row |
| Range256Properties.ConstraintsMatchRow | prover/src/chips/range_check/range256.rs:180-219 | on every row, the limbs the relation entries weigh nonzero are exactly the limbs the sweep counts there, in the same order |
| Range256Properties.DemandMatchesSweep | prover/src/chips/range_check/range256.rs:108-124 | over all rows, the weighted lookups of the constraint entries are exactly the cells of the sweep, in order |
| Range256Properties.TableMatchesLookups | prover/src/chips/range_check/range256.rs:180-219 | when every checked cell holds a byte, entry v of the table grows by exactly the number of weighted lookups of v that the relation entries make over all rows (the logup balance, without field arithmetic) |
| Range256Properties.SuccessTestFills | prover/src/chips/range_check/range256.rs:265-287 | on the success test's trace (bytes (row + i) mod 256 in ValueA, ValueB, ValueC), the sweep from a fresh table completes, and entry v ends as the number of checked cells holding v, which equals the number of weighted lookups of v the constraints make: the two sides of the relation balance |
| Range256Properties.ReleaseTestPanics | prover/src/chips/range_check/range256.rs:289-316 | on the out-of-range test's trace, with at least 256 rows, the sweep panics: out of bounds without the assertion, at the assertion with it |

## Left out

- The CLI driver that compiles a guest program, proves and verifies is
  entirely I/O and calls into the SDK. It is not part of this model.
- DrawLookupElements: Fiat-Shamir sampling from the channel is not modelled.
  The drawn value is a parameter.
- Field arithmetic is not modelled: `combine`, the fraction sums inside the
  logup generator, and the claimed-sum check. A fraction is recorded as
  (packed row, numerator, limb, lookup elements). The logup balance is
  stated as a count equality, TableMatchesLookups.
- SIMD packing is not modelled: a packed row (`vec_row`) is an abstract index.
  Neither its sixteen lanes nor the lane-wise IsTypeU numerator are modelled.
- The formula of IsTypeU lives outside this file and is not modelled. IsTypeU
  is one uninterpreted 0/1 function of the row. The model assumes its
  trace-builder, finalized-trace and constraint readings agree.
- The trace builders and TraceEval are reduced to read access to limb values.
  - FillEveryRow reads one fixed trace: the trace as it stands at the last
    call. Other chips writing into earlier or later rows between calls are
    not modelled.
  - The unused `_step` argument of fill_main_trace is dropped.
- Integer widths. Counters, `row_idx + 1` and limb values are unbounded
  naturals (limb values stay below 2^31 - 1), so these are not modelled:
  - wrap-around of the u32 multiplicity counters;
  - overflow of `row_idx + 1` in usize;
  - conversion of `checked as usize`.
- FillInteractionTrace: requires log_size >= LOG_N_LANES (4), as do
  CheckBytes, CheckColumns and NumVecRows. A smaller log_size would underflow
  the u32 subtraction in `1 << (log_size - LOG_N_LANES)`. That panic is not
  modelled.
- FillInteractionTrace and AddConstraints: how `AllLookupElements::as_ref`
  behaves when the Range256 elements were never drawn is not part of this
  model. Both report MissingLookupElements and change nothing.
- WORD_SIZE comes from the VM crate, which is not part of this model. It is
  taken as 4.
- ReleaseTestPanics: the test's trace size (`MIN_LOG_SIZE`) is not part of
  this model. The lemma assumes at least 256 rows, which the test's value of
  256 at row 255 needs.
- The preprocessed multiplicity column built from the table afterwards
  belongs to the range-table side of the argument. It is outside this file.
