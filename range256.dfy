/** The byte range-check chip (Range256Chip).

    Every limb of a fixed list of trace columns must lie in 0..=255. The chip
    counts each checked limb into a 256-entry multiplicity table while the main
    trace is filled, adds one logup interaction column per checked limb, and
    registers one relation entry per checked limb in the constraint system. */
module Range256 {
  import opened TraceModel
  import opened Logup

  /** Size of the multiplicity table: one counter per byte value. */
  const TableSize: nat := 256

  /** `CHECKED_WORDS`: columns each of whose WordSize limbs is checked. */
  const CheckedWords: seq<Column> := [
    Pc, PcNextAux, InstrVal, PrevCtr, ValueA, ValueB, ValueC,
    Reg1TsPrev, Reg2TsPrev, Reg3TsPrev, Helper1, ProgCtrCur, ProgCtrPrev,
    FinalPrgMemoryCtr, CReg1TsPrev, CReg2TsPrev, CReg3TsPrev, RamBaseAddr,
    Ram1TsPrev, Ram2TsPrev, Ram3TsPrev, Ram4TsPrev,
    Ram1TsPrevAux, Ram2TsPrevAux, Ram3TsPrevAux, Ram4TsPrevAux,
    Rem, Qt, RemDiff, RamInitFinalAddr, RamFinalCounter
  ]

  /** `CHECKED_BYTES`: single-limb columns, always checked. */
  const CheckedBytes: seq<Column> := [
    Ram1ValCur, Ram2ValCur, Ram3ValCur, Ram4ValCur,
    Ram1ValPrev, Ram2ValPrev, Ram3ValPrev, Ram4ValPrev, RamFinalValue
  ]

  /** `TYPE_U_CHECKED_BYTES`: single-limb columns checked only on type-U rows. */
  const TypeUCheckedBytes: seq<Column> := [OpC16_23, OpC24_31]

  // ---------------------------------------------------------------------------
  // Which limbs are checked

  /** The limbs 0 .. width of one column. */
  function ColumnLimbs(col: Column, width: nat): seq<LimbRef> {
    seq(width, i requires 0 <= i < width => LimbRef(col, i))
  }

  /** The limbs of the listed columns: column by column in list order, limb by limb. */
  function LimbRefs(cols: seq<Column>, width: nat): (refs: seq<LimbRef>)
    ensures |refs| == |cols| * width
  {
    if |cols| == 0 then [] else LimbRefs(cols[..|cols| - 1], width) + ColumnLimbs(cols[|cols| - 1], width)
  }

  /** A limb is listed exactly when its column is listed and it lies below the width. */
  lemma {:induction false} LimbRefsMembership(cols: seq<Column>, width: nat, r: LimbRef)
    ensures r in LimbRefs(cols, width) <==> r.col in cols && r.limb < width
    decreases |cols|
  {
    if |cols| > 0 {
      var init, last := cols[..|cols| - 1], cols[|cols| - 1];
      assert cols == init + [last];
      LimbRefsMembership(init, width, r);
      assert r in ColumnLimbs(last, width) <==> r.col == last && r.limb < width by {
        if r.col == last && r.limb < width {
          assert ColumnLimbs(last, width)[r.limb] == r;
        }
      }
    }
  }

  lemma LimbRefsAppend(a: seq<Column>, b: seq<Column>, width: nat)
    ensures LimbRefs(a + b, width) == LimbRefs(a, width) + LimbRefs(b, width)
    decreases |b|
  {
    if |b| == 0 {
      assert a + b == a;
    } else {
      assert (a + b)[..|a + b| - 1] == a + b[..|b| - 1];
      LimbRefsAppend(a, b[..|b| - 1], width);
    }
  }

  /** The limbs of `cols` split around column i: those before, column i's, those after. */
  lemma LimbRefsAround(cols: seq<Column>, i: nat, width: nat)
    requires i < |cols|
    ensures LimbRefs(cols[..i + 1], width) == LimbRefs(cols[..i], width) + ColumnLimbs(cols[i], width)
    ensures LimbRefs(cols, width) == LimbRefs(cols[..i + 1], width) + LimbRefs(cols[i + 1..], width)
  {
    assert cols[..i + 1][..i] == cols[..i];
    assert cols == cols[..i + 1] + cols[i + 1..];
    LimbRefsAppend(cols[..i + 1], cols[i + 1..], width);
  }

  /** The limbs that the main-trace sweep counts on one row, in the order it counts them. */
  function RowLimbs(t: Trace, row: nat): seq<LimbRef> {
    LimbRefs(CheckedWords, WordSize) + RowByteLimbs(t, row)
  }

  /** The single-limb part of a row: the checked bytes, then the type-U bytes on type-U rows. */
  function RowByteLimbs(t: Trace, row: nat): seq<LimbRef> {
    LimbRefs(CheckedBytes, 1) + (if t.isTypeU(row) != 0 then LimbRefs(TypeUCheckedBytes, 1) else [])
  }

  /** A checked (row, column, limb) triple. */
  datatype Cell = Cell(row: nat, at: LimbRef)

  function CellsAt(row: nat, refs: seq<LimbRef>): seq<Cell>
  {
    seq(|refs|, i requires 0 <= i < |refs| => Cell(row, refs[i]))
  }

  /** The cells the sweep over rows 0 .. n visits, in the order it visits them. */
  function SweepCells(t: Trace, n: nat): seq<Cell> {
    if n == 0 then [] else SweepCells(t, n - 1) + CellsAt(n - 1, RowLimbs(t, n - 1))
  }

  function CellValues(t: Trace, cells: seq<Cell>): seq<BaseValue>
  {
    seq<BaseValue>(|cells|, i requires 0 <= i < |cells| => t.Value(cells[i].row, cells[i].at))
  }

  /** Each cell's index within its column, as fill_main_cols enumerates it. */
  function CellLimbs(cells: seq<Cell>): seq<nat>
  {
    seq<nat>(|cells|, i requires 0 <= i < |cells| => cells[i].at.limb)
  }

  function Indices(n: nat): seq<nat>
  {
    seq<nat>(n, i requires 0 <= i < n => i)
  }

  lemma CellsAtAppend(row: nat, a: seq<LimbRef>, b: seq<LimbRef>)
    ensures CellsAt(row, a + b) == CellsAt(row, a) + CellsAt(row, b)
  {
  }

  lemma CellValuesAppend(t: Trace, a: seq<Cell>, b: seq<Cell>)
    ensures CellValues(t, a + b) == CellValues(t, a) + CellValues(t, b)
    ensures CellLimbs(a + b) == CellLimbs(a) + CellLimbs(b)
  {
  }

  /** What fill_main_cols receives for one column is the values of that column's cells. */
  lemma ColumnCells(t: Trace, row: nat, col: Column, width: nat)
    ensures CellValues(t, CellsAt(row, ColumnLimbs(col, width))) == t.ReadColumn(row, col, width)
    ensures CellLimbs(CellsAt(row, ColumnLimbs(col, width))) == Indices(width)
  {
  }

  // ---------------------------------------------------------------------------
  // Outcome of counting: completion or the panic that stops it

  /** The two ways fill_main_cols panics on a value of 256 or more: the range
      assertion (builds without cfg(test)), or else the table's bounds check. */
  datatype Panic = LimbOutOfRange(limbIndex: nat) | IndexOutOfBounds(index: nat)

  datatype FillOutcome = Filled | Panicked(panic: Panic)

  predicate InRange(vs: seq<BaseValue>) {
    forall i :: 0 <= i < |vs| ==> vs[i] < TableSize
  }

  /** Index of the first value that is not a byte, or |vs| if there is none. */
  function FirstOutOfRange(vs: seq<BaseValue>): (k: nat)
    ensures k <= |vs|
    ensures forall i :: 0 <= i < k ==> vs[i] < TableSize
    ensures k < |vs| ==> vs[k] >= TableSize
  {
    if |vs| == 0 then 0
    else if vs[0] >= TableSize then 0
    else 1 + FirstOutOfRange(vs[1..])
  }

  /** The values counted before the first panic. */
  function Processed(vs: seq<BaseValue>): seq<BaseValue> {
    vs[..FirstOutOfRange(vs)]
  }

  /** The outcome of counting `vs`, whose limb indices are `limbs`, one by one:
      the first non-byte value panics, in the way the build selects. */
  function Verdict(vs: seq<BaseValue>, limbs: seq<nat>, assertRange: bool): (r: FillOutcome)
    requires |limbs| == |vs|
    ensures r == Filled <==> InRange(vs)
    ensures r.Panicked? ==> (r.panic.LimbOutOfRange? <==> assertRange)
    ensures r.Panicked? ==> FirstOutOfRange(vs) < |vs|
    ensures r.Panicked? && r.panic.LimbOutOfRange? ==> r.panic.limbIndex == limbs[FirstOutOfRange(vs)]
    ensures r.Panicked? && r.panic.IndexOutOfBounds? ==> r.panic.index == vs[FirstOutOfRange(vs)] >= TableSize
  {
    var k := FirstOutOfRange(vs);
    if k == |vs| then Filled
    else if assertRange then Panicked(LimbOutOfRange(limbs[k]))
    else Panicked(IndexOutOfBounds(vs[k]))
  }

  function CellVerdict(t: Trace, cells: seq<Cell>, assertRange: bool): FillOutcome {
    Verdict(CellValues(t, cells), CellLimbs(cells), assertRange)
  }

  function CellProcessed(t: Trace, cells: seq<Cell>): seq<BaseValue> {
    Processed(CellValues(t, cells))
  }

  /** The contract of FirstOutOfRange determines it. */
  lemma FirstOutOfRangeUnique(vs: seq<BaseValue>, k: nat)
    requires k <= |vs|
    requires forall i :: 0 <= i < k ==> vs[i] < TableSize
    requires k < |vs| ==> vs[k] >= TableSize
    ensures FirstOutOfRange(vs) == k
  {
  }

  lemma FirstOutOfRangeAppend(a: seq<BaseValue>, b: seq<BaseValue>)
    ensures FirstOutOfRange(a + b) ==
      if FirstOutOfRange(a) < |a| then FirstOutOfRange(a) else |a| + FirstOutOfRange(b)
  {
    var ka, kb := FirstOutOfRange(a), FirstOutOfRange(b);
    var k := if ka < |a| then ka else |a| + kb;
    forall i | 0 <= i < k ensures (a + b)[i] < TableSize {
      if i >= |a| { assert (a + b)[i] == b[i - |a|]; }
    }
    if k < |a + b| && k >= |a| {
      assert (a + b)[k] == b[k - |a|];
    }
    FirstOutOfRangeUnique(a + b, k);
  }

  lemma VerdictAppend(va: seq<BaseValue>, la: seq<nat>, vb: seq<BaseValue>, lb: seq<nat>, assertRange: bool)
    requires |la| == |va| && |lb| == |vb|
    ensures Verdict(va + vb, la + lb, assertRange) ==
      if Verdict(va, la, assertRange).Panicked? then Verdict(va, la, assertRange) else Verdict(vb, lb, assertRange)
    ensures Processed(va + vb) ==
      if Verdict(va, la, assertRange).Panicked? then Processed(va) else va + Processed(vb)
  {
    FirstOutOfRangeAppend(va, vb);
    var k := FirstOutOfRange(va + vb);
    if FirstOutOfRange(va) < |va| {
      assert (va + vb)[..k] == va[..k];
      assert (la + lb)[k] == la[k];
      assert (va + vb)[k] == va[k];
    } else {
      assert (va + vb)[..k] == va + vb[..k - |va|];
      if k < |va + vb| {
        assert (la + lb)[k] == lb[k - |va|];
        assert (va + vb)[k] == vb[k - |va|];
      }
    }
  }

  /** Counting a + b: it stops inside a if a holds a non-byte, otherwise it goes on into b. */
  lemma CellVerdictAppend(t: Trace, a: seq<Cell>, b: seq<Cell>, assertRange: bool)
    ensures CellVerdict(t, a + b, assertRange) ==
      if CellVerdict(t, a, assertRange).Panicked? then CellVerdict(t, a, assertRange) else CellVerdict(t, b, assertRange)
    ensures CellProcessed(t, a + b) ==
      if CellVerdict(t, a, assertRange).Panicked? then CellProcessed(t, a) else CellValues(t, a) + CellProcessed(t, b)
  {
    CellValuesAppend(t, a, b);
    VerdictAppend(CellValues(t, a), CellLimbs(a), CellValues(t, b), CellLimbs(b), assertRange);
  }

  // ---------------------------------------------------------------------------
  // The multiplicity table

  /** The table after one `multiplicity[v] += 1`; a value outside the table
      changes nothing (the counting loop never gets that far with one). */
  function Count(table: seq<nat>, v: nat): (r: seq<nat>)
    ensures |r| == |table|
  {
    if v < |table| then table[v := table[v] + 1] else table
  }

  /** The table after counting every value of `vs`, in order. */
  function CountAll(table: seq<nat>, vs: seq<BaseValue>): (r: seq<nat>)
    ensures |r| == |table|
  {
    if |vs| == 0 then table else Count(CountAll(table, vs[..|vs| - 1]), vs[|vs| - 1])
  }

  lemma {:induction false} CountAllAppend(table: seq<nat>, a: seq<BaseValue>, b: seq<BaseValue>)
    ensures CountAll(table, a + b) == CountAll(CountAll(table, a), b)
    decreases |b|
  {
    if |b| == 0 {
      assert a + b == a;
    } else {
      assert (a + b)[..|a + b| - 1] == a + b[..|b| - 1];
      CountAllAppend(table, a, b[..|b| - 1]);
    }
  }

  /** What the table holds: each entry grows by the number of counted values equal to its index. */
  lemma {:induction false} CountAllTally(table: seq<nat>, vs: seq<BaseValue>)
    ensures forall v :: 0 <= v < |table| ==> CountAll(table, vs)[v] == table[v] + multiset(vs)[v]
    decreases |vs|
  {
    if |vs| > 0 {
      var init := vs[..|vs| - 1];
      CountAllTally(table, init);
      assert vs == init + [vs[|vs| - 1]];
      assert multiset(vs) == multiset(init) + multiset{vs[|vs| - 1]};
    }
  }

  /** Counting cells that are all bytes leaves them all in the table. */
  lemma FilledAll(t: Trace, cells: seq<Cell>, assertRange: bool)
    requires InRange(CellValues(t, cells))
    ensures CellVerdict(t, cells, assertRange) == Filled
    ensures CellProcessed(t, cells) == CellValues(t, cells)
  {
  }

  /** One step of a counting loop: the cells `done` were all bytes and are in the
      table; counting `seg` either panics, which decides the outcome for
      `done + seg + rest`, or completes and extends `done` by `seg`. */
  lemma SegmentStep(t: Trace, done: seq<Cell>, seg: seq<Cell>, rest: seq<Cell>, assertRange: bool, initial: seq<nat>)
    requires InRange(CellValues(t, done))
    ensures var after := CountAll(CountAll(initial, CellValues(t, done)), CellProcessed(t, seg));
      CellVerdict(t, seg, assertRange).Panicked? ==>
        && CellVerdict(t, done + seg + rest, assertRange) == CellVerdict(t, seg, assertRange)
        && after == CountAll(initial, CellProcessed(t, done + seg + rest))
    ensures var after := CountAll(CountAll(initial, CellValues(t, done)), CellProcessed(t, seg));
      CellVerdict(t, seg, assertRange) == Filled ==>
        && InRange(CellValues(t, done + seg))
        && after == CountAll(initial, CellValues(t, done + seg))
  {
    CountAllAppend(initial, CellValues(t, done), CellProcessed(t, seg));
    CellValuesAppend(t, done, seg);
    if CellVerdict(t, seg, assertRange).Panicked? {
      assert done + seg + rest == done + (seg + rest);
      FilledAll(t, done, assertRange);
      CellVerdictAppend(t, done, seg + rest, assertRange);
      CellVerdictAppend(t, seg, rest, assertRange);
    } else {
      assert CellProcessed(t, seg) == CellValues(t, seg);
    }
  }

  /** The range-check part of the prover's side note: `side_note.range256.multiplicity`. */
  class SideNote {
    const multiplicity: array<nat>

    ghost predicate Valid()
      reads this
    {
      multiplicity.Length == TableSize
    }

    /** A fresh session: 256 counters at zero. */
    constructor ()
      ensures Valid() && fresh(multiplicity)
      ensures forall v :: 0 <= v < TableSize ==> multiplicity[v] == 0
    {
      multiplicity := new nat[TableSize](_ => 0);
    }
  }

  /** `fill_main_cols`: counts each limb of one column into the table, in limb
      order. `assertRange` says whether the range assertion is compiled in
      (builds without cfg(test)); without it a value of 256 or more reaches
      the table index and fails its bounds check. */
  method FillMainCols(valueCol: seq<BaseValue>, sideNote: SideNote, assertRange: bool) returns (outcome: FillOutcome)
    requires sideNote.Valid()
    modifies sideNote.multiplicity
    ensures outcome == Verdict(valueCol, Indices(|valueCol|), assertRange)
    ensures sideNote.multiplicity[..] == CountAll(old(sideNote.multiplicity[..]), Processed(valueCol))
  {
    var table := sideNote.multiplicity;
    var i := 0;
    while i < |valueCol|
      invariant 0 <= i <= |valueCol|
      invariant forall j :: 0 <= j < i ==> valueCol[j] < TableSize
      invariant table[..] == CountAll(old(table[..]), valueCol[..i])
    {
      var checked := valueCol[i];
      if assertRange && checked >= TableSize {
        assert FirstOutOfRange(valueCol) == i;
        return Panicked(LimbOutOfRange(i));
      }
      if checked >= table.Length {
        assert FirstOutOfRange(valueCol) == i;
        return Panicked(IndexOutOfBounds(checked));
      }
      assert valueCol[..i + 1][..i] == valueCol[..i];
      table[checked] := table[checked] + 1;
      i := i + 1;
    }
    assert valueCol[..i] == valueCol;
    outcome := Filled;
  }

  /** One of the sweep's inner loops: `for col in cols { fill_main_cols(traces.column(row, col)) }`. */
  method FillColumns(traces: Trace, row: nat, cols: seq<Column>, width: nat, sideNote: SideNote, assertRange: bool)
    returns (outcome: FillOutcome)
    requires sideNote.Valid()
    modifies sideNote.multiplicity
    ensures var cells := CellsAt(row, LimbRefs(cols, width));
      && outcome == CellVerdict(traces, cells, assertRange)
      && sideNote.multiplicity[..] == CountAll(old(sideNote.multiplicity[..]), CellProcessed(traces, cells))
  {
    ghost var initial := sideNote.multiplicity[..];
    var i := 0;
    while i < |cols|
      invariant 0 <= i <= |cols|
      invariant InRange(CellValues(traces, CellsAt(row, LimbRefs(cols[..i], width))))
      invariant sideNote.multiplicity[..] == CountAll(initial, CellValues(traces, CellsAt(row, LimbRefs(cols[..i], width))))
    {
      ghost var done := CellsAt(row, LimbRefs(cols[..i], width));
      ghost var seg := CellsAt(row, ColumnLimbs(cols[i], width));
      ghost var rest := CellsAt(row, LimbRefs(cols[i + 1..], width));
      LimbRefsAround(cols, i, width);
      CellsAtAppend(row, LimbRefs(cols[..i], width), ColumnLimbs(cols[i], width));
      CellsAtAppend(row, LimbRefs(cols[..i + 1], width), LimbRefs(cols[i + 1..], width));
      ColumnCells(traces, row, cols[i], width);
      outcome := FillMainCols(traces.ReadColumn(row, cols[i], width), sideNote, assertRange);
      SegmentStep(traces, done, seg, rest, assertRange, initial);
      if outcome.Panicked? {
        return;
      }
      i := i + 1;
    }
    assert cols[..i] == cols;
    FilledAll(traces, CellsAt(row, LimbRefs(cols, width)), assertRange);
    outcome := Filled;
  }

  lemma {:induction false} SweepCellsPrefix(t: Trace, m: nat, n: nat)
    requires m <= n
    ensures SweepCells(t, m) <= SweepCells(t, n)
    decreases n - m
  {
    if m < n {
      SweepCellsPrefix(t, m, n - 1);
    }
  }

  /** The single-limb columns of one row: the checked bytes, then the type-U bytes on type-U rows. */
  method FillRowBytes(traces: Trace, row: nat, sideNote: SideNote, assertRange: bool) returns (outcome: FillOutcome)
    requires sideNote.Valid()
    modifies sideNote.multiplicity
    ensures var cells := CellsAt(row, RowByteLimbs(traces, row));
      && outcome == CellVerdict(traces, cells, assertRange)
      && sideNote.multiplicity[..] == CountAll(old(sideNote.multiplicity[..]), CellProcessed(traces, cells))
  {
    ghost var initial := sideNote.multiplicity[..];
    ghost var bytes := CellsAt(row, LimbRefs(CheckedBytes, 1));
    ghost var typeULimbs := if traces.isTypeU(row) != 0 then LimbRefs(TypeUCheckedBytes, 1) else [];
    ghost var typeU := CellsAt(row, typeULimbs);
    CellsAtAppend(row, LimbRefs(CheckedBytes, 1), typeULimbs);
    assert CellsAt(row, RowByteLimbs(traces, row)) == [] + bytes + typeU;
    assert CountAll(initial, CellValues(traces, [])) == initial;
    outcome := FillColumns(traces, row, CheckedBytes, 1, sideNote, assertRange);
    SegmentStep(traces, [], bytes, typeU, assertRange, initial);
    if outcome.Panicked? {
      return;
    }
    assert [] + bytes == bytes;
    if traces.isTypeU(row) != 0 {
      outcome := FillColumns(traces, row, TypeUCheckedBytes, 1, sideNote, assertRange);
      SegmentStep(traces, bytes, typeU, [], assertRange, initial);
      assert bytes + typeU + [] == bytes + typeU;
      if outcome.Panicked? {
        return;
      }
    } else {
      assert bytes + typeU == bytes;
    }
    FilledAll(traces, CellsAt(row, RowByteLimbs(traces, row)), assertRange);
  }

  /** The body of the sweep for one row: the checked words, the checked bytes
      and, when the row's IsTypeU is not zero, the type-U bytes. */
  method FillRow(traces: Trace, row: nat, sideNote: SideNote, assertRange: bool) returns (outcome: FillOutcome)
    requires sideNote.Valid()
    modifies sideNote.multiplicity
    ensures var cells := CellsAt(row, RowLimbs(traces, row));
      && outcome == CellVerdict(traces, cells, assertRange)
      && sideNote.multiplicity[..] == CountAll(old(sideNote.multiplicity[..]), CellProcessed(traces, cells))
  {
    ghost var initial := sideNote.multiplicity[..];
    ghost var words := CellsAt(row, LimbRefs(CheckedWords, WordSize));
    ghost var rest := CellsAt(row, RowByteLimbs(traces, row));
    CellsAtAppend(row, LimbRefs(CheckedWords, WordSize), RowByteLimbs(traces, row));
    assert CellsAt(row, RowLimbs(traces, row)) == [] + words + rest;
    assert CountAll(initial, CellValues(traces, [])) == initial;
    outcome := FillColumns(traces, row, CheckedWords, WordSize, sideNote, assertRange);
    SegmentStep(traces, [], words, rest, assertRange, initial);
    if outcome.Panicked? {
      return;
    }
    assert [] + words == words;
    outcome := FillRowBytes(traces, row, sideNote, assertRange);
    SegmentStep(traces, words, rest, [], assertRange, initial);
    assert words + rest + [] == words + rest == CellsAt(row, RowLimbs(traces, row));
    if outcome == Filled {
      FilledAll(traces, words + rest, assertRange);
    }
  }

  /** One row of the sweep: rows 0 .. row were all bytes and are in the table;
      counting the row either panics, which decides the whole sweep, or
      extends the counted rows by one. */
  lemma SweepStep(t: Trace, row: nat, numRows: nat, assertRange: bool, initial: seq<nat>)
    requires row < numRows
    requires InRange(CellValues(t, SweepCells(t, row)))
    ensures var seg := CellsAt(row, RowLimbs(t, row));
      var after := CountAll(CountAll(initial, CellValues(t, SweepCells(t, row))), CellProcessed(t, seg));
      CellVerdict(t, seg, assertRange).Panicked? ==>
        && CellVerdict(t, SweepCells(t, numRows), assertRange) == CellVerdict(t, seg, assertRange)
        && after == CountAll(initial, CellProcessed(t, SweepCells(t, numRows)))
    ensures var seg := CellsAt(row, RowLimbs(t, row));
      var after := CountAll(CountAll(initial, CellValues(t, SweepCells(t, row))), CellProcessed(t, seg));
      CellVerdict(t, seg, assertRange) == Filled ==>
        && InRange(CellValues(t, SweepCells(t, row + 1)))
        && after == CountAll(initial, CellValues(t, SweepCells(t, row + 1)))
  {
    var done, seg, all := SweepCells(t, row), CellsAt(row, RowLimbs(t, row)), SweepCells(t, numRows);
    SweepCellsPrefix(t, row + 1, numRows);
    var later := all[|done + seg|..];
    assert all == done + seg + later;
    SegmentStep(t, done, seg, later, assertRange, initial);
  }

  /** The sweep of `fill_main_trace`: every row in order, stopping at the first panic. */
  method SweepRows(traces: Trace, numRows: nat, sideNote: SideNote, assertRange: bool) returns (outcome: FillOutcome)
    requires sideNote.Valid()
    modifies sideNote.multiplicity
    ensures outcome == CellVerdict(traces, SweepCells(traces, numRows), assertRange)
    ensures sideNote.multiplicity[..] == CountAll(old(sideNote.multiplicity[..]), CellProcessed(traces, SweepCells(traces, numRows)))
  {
    ghost var initial := sideNote.multiplicity[..];
    var row := 0;
    while row < numRows
      invariant row <= numRows
      invariant InRange(CellValues(traces, SweepCells(traces, row)))
      invariant sideNote.multiplicity[..] == CountAll(initial, CellValues(traces, SweepCells(traces, row)))
    {
      outcome := FillRow(traces, row, sideNote, assertRange);
      SweepStep(traces, row, numRows, assertRange, initial);
      if outcome.Panicked? {
        return;
      }
      row := row + 1;
    }
    FilledAll(traces, SweepCells(traces, numRows), assertRange);
    outcome := Filled;
  }

  /** `fill_main_trace`: a no-op until the last row index; on that call, one pass
      over every row counts the checked word limbs, the checked bytes and, on
      type-U rows, the type-U bytes. A panic stops the pass where it occurs. */
  method FillMainTrace(traces: Trace, rowIdx: nat, sideNote: SideNote, assertRange: bool) returns (outcome: FillOutcome)
    requires sideNote.Valid()
    modifies sideNote.multiplicity
    ensures rowIdx + 1 < traces.NumRows() ==>
      outcome == Filled && sideNote.multiplicity[..] == old(sideNote.multiplicity[..])
    ensures rowIdx + 1 >= traces.NumRows() ==>
      var cells := SweepCells(traces, traces.NumRows());
      && outcome == CellVerdict(traces, cells, assertRange)
      && sideNote.multiplicity[..] == CountAll(old(sideNote.multiplicity[..]), CellProcessed(traces, cells))
  {
    var numRows := traces.NumRows();
    if rowIdx + 1 < numRows {
      return Filled;
    }
    outcome := SweepRows(traces, numRows, sideNote, assertRange);
  }

  /** The prover's main loop as the chip sees it: `fill_main_trace` once per row
      index in ascending order. Only the call for the last row sweeps, so the
      table ends as one sweep leaves it. */
  method FillEveryRow(traces: Trace, sideNote: SideNote, assertRange: bool) returns (outcome: FillOutcome)
    requires sideNote.Valid()
    modifies sideNote.multiplicity
    ensures var cells := SweepCells(traces, traces.NumRows());
      && outcome == CellVerdict(traces, cells, assertRange)
      && sideNote.multiplicity[..] == CountAll(old(sideNote.multiplicity[..]), CellProcessed(traces, cells))
  {
    var numRows := traces.NumRows();
    var rowIdx := 0;
    outcome := Filled;
    while rowIdx < numRows
      invariant rowIdx <= numRows
      invariant rowIdx < numRows ==> sideNote.multiplicity[..] == old(sideNote.multiplicity[..])
      invariant rowIdx == numRows ==>
        && outcome == CellVerdict(traces, SweepCells(traces, numRows), assertRange)
        && sideNote.multiplicity[..] == CountAll(old(sideNote.multiplicity[..]), CellProcessed(traces, SweepCells(traces, numRows)))
    {
      outcome := FillMainTrace(traces, rowIdx, sideNote, assertRange);
      if outcome.Panicked? {
        return;
      }
      rowIdx := rowIdx + 1;
    }
  }
}
