/** What the byte range-check chip guarantees, stated over the model: which
    cells the sweep counts, what the multiplicity table holds afterwards, how
    the sweep fails on a non-byte, and how the interaction columns and the
    constraint entries line up with each other and with the counted cells. */
module Range256Properties {
  import opened TraceModel
  import opened Logup
  import opened Range256
  import opened Range256Interaction
  import opened ColumnOrder

  // ---------------------------------------------------------------------------
  // Which cells are checked

  /** A limb the sweep checks on `row`: a word limb of a checked word column, the
      single limb of a checked byte column, or on a type-U row the single limb of
      a type-U byte column. */
  predicate IsCheckedLimb(t: Trace, row: nat, r: LimbRef) {
    || (r.col in CheckedWords && r.limb < WordSize)
    || (r.col in CheckedBytes && r.limb == 0)
    || (t.isTypeU(row) != 0 && r.col in TypeUCheckedBytes && r.limb == 0)
  }

  lemma RowLimbsMembership(t: Trace, row: nat, r: LimbRef)
    ensures r in RowLimbs(t, row) <==> IsCheckedLimb(t, row, r)
  {
    LimbRefsMembership(CheckedWords, WordSize, r);
    LimbRefsMembership(CheckedBytes, 1, r);
    LimbRefsMembership(TypeUCheckedBytes, 1, r);
  }

  lemma CellsAtMembership(row: nat, refs: seq<LimbRef>, c: Cell)
    ensures c in CellsAt(row, refs) <==> c.row == row && c.at in refs
  {
    if c.row == row && c.at in refs {
      var i :| 0 <= i < |refs| && refs[i] == c.at;
      assert CellsAt(row, refs)[i] == c;
    }
  }

  /** The sweep over rows 0 .. n visits exactly the cells of those rows whose limb the row lists. */
  lemma {:induction false} SweepCellsMembership(t: Trace, n: nat, c: Cell)
    ensures c in SweepCells(t, n) <==> c.row < n && c.at in RowLimbs(t, c.row)
    decreases n
  {
    if n > 0 {
      var m := n - 1;
      var rowCells := CellsAt(m, RowLimbs(t, m));
      assert SweepCells(t, n) == SweepCells(t, m) + rowCells;
      SweepCellsMembership(t, m, c);
      CellsAtMembership(m, RowLimbs(t, m), c);
      if c.row == m {
        assert c !in SweepCells(t, m);
      } else {
        assert c !in rowCells;
      }
    }
  }

  /** The sweep of `fill_main_trace` visits exactly the checked cells of the trace. */
  lemma CheckedCells(t: Trace, c: Cell)
    ensures c in SweepCells(t, t.NumRows()) <==> c.row < t.NumRows() && IsCheckedLimb(t, c.row, c.at)
  {
    SweepCellsMembership(t, t.NumRows(), c);
    RowLimbsMembership(t, c.row, c.at);
  }

  /** Number of rows among 0 .. n whose IsTypeU is not zero. */
  function TypeURows(t: Trace, n: nat): (k: nat)
    ensures k <= n
  {
    if n == 0 then 0 else TypeURows(t, n - 1) + (if t.isTypeU(n - 1) != 0 then 1 else 0)
  }

  /** Each row contributes the 31 word columns' limbs and the 9 checked bytes, and two more on a type-U row. */
  lemma {:induction false} SweepSize(t: Trace, n: nat)
    ensures |SweepCells(t, n)| == n * (31 * WordSize + 9) + 2 * TypeURows(t, n)
    decreases n
  {
    if n > 0 {
      SweepSize(t, n - 1);
      assert |RowLimbs(t, n - 1)| == 31 * WordSize + 9 + (if t.isTypeU(n - 1) != 0 then 2 else 0);
    }
  }

  // ---------------------------------------------------------------------------
  // Each checked cell is visited once

  lemma DistinctAppend<T>(a: seq<T>, b: seq<T>)
    requires Distinct(a) && Distinct(b)
    requires forall x :: x in a ==> x !in b
    ensures Distinct(a + b)
  {
    forall i, j | 0 <= i < j < |a + b| ensures (a + b)[i] != (a + b)[j] {
      if j < |a| {
        assert (a + b)[i] == a[i] && (a + b)[j] == a[j];
      } else if i >= |a| {
        assert (a + b)[i] == b[i - |a|] && (a + b)[j] == b[j - |a|];
      } else {
        assert a[i] in a && b[j - |a|] in b;
        assert (a + b)[i] == a[i] && (a + b)[j] == b[j - |a|];
      }
    }
  }

  /** The limbs of a list of distinct columns are distinct. */
  lemma {:induction false} LimbRefsDistinct(cols: seq<Column>, width: nat)
    requires Distinct(cols)
    ensures Distinct(LimbRefs(cols, width))
    decreases |cols|
  {
    if |cols| > 0 {
      var init, last := cols[..|cols| - 1], cols[|cols| - 1];
      LimbRefsDistinct(init, width);
      forall r | r in LimbRefs(init, width) ensures r !in ColumnLimbs(last, width) {
        LimbRefsMembership(init, width, r);
        assert r.col != last;
      }
      DistinctAppend(LimbRefs(init, width), ColumnLimbs(last, width));
    }
  }

  /** A row's counted limbs are distinct. */
  lemma RowLimbsDistinct(t: Trace, row: nat)
    ensures Distinct(RowLimbs(t, row))
  {
    ColumnListsDistinct();
    var words := LimbRefs(CheckedWords, WordSize);
    var bytes := LimbRefs(CheckedBytes, 1);
    var typeU := LimbRefs(TypeUCheckedBytes, 1);
    LimbRefsDistinct(CheckedWords, WordSize);
    LimbRefsDistinct(CheckedBytes, 1);
    LimbRefsDistinct(TypeUCheckedBytes, 1);
    var tail := if t.isTypeU(row) != 0 then typeU else [];
    forall r | r in bytes ensures r !in tail {
      LimbRefsMembership(CheckedBytes, 1, r);
      LimbRefsMembership(TypeUCheckedBytes, 1, r);
    }
    DistinctAppend(bytes, tail);
    forall r | r in words ensures r !in RowByteLimbs(t, row) {
      LimbRefsMembership(CheckedWords, WordSize, r);
      LimbRefsMembership(CheckedBytes, 1, r);
      LimbRefsMembership(TypeUCheckedBytes, 1, r);
    }
    DistinctAppend(words, RowByteLimbs(t, row));
  }

  /** The sweep over rows 0 .. n visits no cell twice. */
  lemma {:induction false} SweepCellsDistinct(t: Trace, n: nat)
    ensures Distinct(SweepCells(t, n))
    decreases n
  {
    if n > 0 {
      var m := n - 1;
      var rowCells := CellsAt(m, RowLimbs(t, m));
      SweepCellsDistinct(t, m);
      RowLimbsDistinct(t, m);
      forall c | c in SweepCells(t, m) ensures c !in rowCells {
        SweepCellsMembership(t, m, c);
        CellsAtMembership(m, RowLimbs(t, m), c);
      }
      DistinctAppend(SweepCells(t, m), rowCells);
    }
  }

  /** The cells of `cells` that hold v. */
  function Holding(t: Trace, cells: seq<Cell>, v: nat): set<Cell> {
    set c | c in cells && t.Value(c.row, c.at) == v
  }

  /** Over distinct cells, how often v occurs among their values is the number of cells holding v. */
  lemma {:induction false} DistinctValueCount(t: Trace, cells: seq<Cell>, v: nat)
    requires Distinct(cells)
    ensures multiset(CellValues(t, cells))[v] == |Holding(t, cells, v)|
    decreases |cells|
  {
    if |cells| > 0 {
      var init, last := cells[..|cells| - 1], cells[|cells| - 1];
      assert cells == init + [last];
      assert Distinct(init);
      DistinctValueCount(t, init, v);
      CellValuesAppend(t, init, [last]);
      assert multiset(CellValues(t, cells)) == multiset(CellValues(t, init)) + multiset{t.Value(last.row, last.at)};
      assert last !in init;
      if t.Value(last.row, last.at) == v {
        assert Holding(t, cells, v) == Holding(t, init, v) + {last};
      } else {
        assert Holding(t, cells, v) == Holding(t, init, v);
      }
    }
  }

  /** The checked cells of the trace that hold v. */
  function CheckedHolding(t: Trace, v: nat): (s: set<Cell>)
    ensures forall c :: c in s <==>
      c.row < t.NumRows() && IsCheckedLimb(t, c.row, c.at) && t.Value(c.row, c.at) == v
  {
    CheckedCellsAll(t);
    Holding(t, SweepCells(t, t.NumRows()), v)
  }

  lemma CheckedCellsAll(t: Trace)
    ensures forall c :: c in SweepCells(t, t.NumRows()) <==> c.row < t.NumRows() && IsCheckedLimb(t, c.row, c.at)
  {
    forall c ensures c in SweepCells(t, t.NumRows()) <==> c.row < t.NumRows() && IsCheckedLimb(t, c.row, c.at) {
      CheckedCells(t, c);
    }
  }

  // ---------------------------------------------------------------------------
  // The multiplicity table

  function Sum(s: seq<nat>): nat {
    if |s| == 0 then 0 else Sum(s[..|s| - 1]) + s[|s| - 1]
  }

  lemma {:induction false} SumIncrement(s: seq<nat>, i: nat)
    requires i < |s|
    ensures Sum(s[i := s[i] + 1]) == Sum(s) + 1
    decreases |s|
  {
    var s' := s[i := s[i] + 1];
    if i == |s| - 1 {
      assert s'[..|s| - 1] == s[..|s| - 1];
    } else {
      assert s'[..|s| - 1] == s[..|s| - 1][i := s[i] + 1];
      SumIncrement(s[..|s| - 1], i);
    }
  }

  /** Counting values that all index the table adds one per value to the total. */
  lemma {:induction false} CountAllSum(table: seq<nat>, vs: seq<BaseValue>)
    requires forall k :: 0 <= k < |vs| ==> vs[k] < |table|
    ensures Sum(CountAll(table, vs)) == Sum(table) + |vs|
    decreases |vs|
  {
    if |vs| > 0 {
      CountAllSum(table, vs[..|vs| - 1]);
      SumIncrement(CountAll(table, vs[..|vs| - 1]), vs[|vs| - 1]);
    }
  }

  /** `fill_main_cols` on bytes: entry v grows by the number of limbs equal to v,
      an entry no limb names keeps its value, and the total grows by N. */
  lemma FillMainColsEffect(table: seq<nat>, valueCol: seq<BaseValue>)
    requires |table| == TableSize && InRange(valueCol)
    ensures var after := CountAll(table, Processed(valueCol));
      && (forall v :: 0 <= v < TableSize ==> after[v] == table[v] + multiset(valueCol)[v])
      && (forall v :: 0 <= v < TableSize && v !in valueCol ==> after[v] == table[v])
      && Sum(after) == Sum(table) + |valueCol|
  {
    assert Processed(valueCol) == valueCol;
    CountAllTally(table, valueCol);
    CountAllSum(table, valueCol);
  }

  /** The sweep of `fill_main_trace`, when every checked cell holds a byte: it
      visits each checked cell once, entry v grows by the number of checked cells
      holding v, and the total grows by
      num_rows * (31 * WORD_SIZE + 9) + 2 * (number of type-U rows). */
  lemma SweepTally(t: Trace, before: seq<nat>, assertRange: bool)
    requires |before| == TableSize
    requires InRange(CellValues(t, SweepCells(t, t.NumRows())))
    ensures var cells := SweepCells(t, t.NumRows());
      var after := CountAll(before, CellProcessed(t, cells));
      && CellVerdict(t, cells, assertRange) == Filled
      && (forall c :: c in cells ==> multiset(cells)[c] == 1)
      && (forall v :: 0 <= v < TableSize ==> after[v] == before[v] + multiset(CellValues(t, cells))[v])
      && (forall v :: 0 <= v < TableSize ==> after[v] == before[v] + |CheckedHolding(t, v)|)
      && Sum(after) == Sum(before) + t.NumRows() * (31 * WordSize + 9) + 2 * TypeURows(t, t.NumRows())
  {
    var cells := SweepCells(t, t.NumRows());
    FilledAll(t, cells, assertRange);
    CountAllTally(before, CellValues(t, cells));
    CountAllSum(before, CellValues(t, cells));
    SweepSize(t, t.NumRows());
    SweepCellsDistinct(t, t.NumRows());
    forall c | c in cells ensures multiset(cells)[c] == 1 {
      DistinctOnce(cells, c);
    }
    forall v | 0 <= v < TableSize ensures multiset(CellValues(t, cells))[v] == |CheckedHolding(t, v)| {
      DistinctValueCount(t, cells, v);
    }
  }

  /** An element of a sequence without repetitions occurs in it once. */
  lemma {:induction false} DistinctOnce<T>(s: seq<T>, x: T)
    requires Distinct(s) && x in s
    ensures multiset(s)[x] == 1
    decreases |s|
  {
    var init, last := s[..|s| - 1], s[|s| - 1];
    assert s == init + [last];
    assert Distinct(init);
    if x == last {
      assert x !in init;
    } else {
      DistinctOnce(init, x);
    }
  }

  /** A checked cell that is not a byte makes the sweep panic: at the range
      assertion when it is compiled in, otherwise at the table's bounds check. */
  lemma SweepPanicsOnNonByte(t: Trace, c: Cell, assertRange: bool)
    requires c.row < t.NumRows() && IsCheckedLimb(t, c.row, c.at)
    requires t.Value(c.row, c.at) >= TableSize
    ensures var r := CellVerdict(t, SweepCells(t, t.NumRows()), assertRange);
      && r.Panicked?
      && (r.panic.LimbOutOfRange? <==> assertRange)
      && (r.panic.IndexOutOfBounds? ==> r.panic.index >= TableSize)
  {
    var cells := SweepCells(t, t.NumRows());
    CheckedCells(t, c);
    var i :| 0 <= i < |cells| && cells[i] == c;
    assert CellValues(t, cells)[i] >= TableSize;
  }

  // ---------------------------------------------------------------------------
  // Interaction columns and constraint entries

  /** The 135 relation entries: numerator 1 for the 124 word limbs and the 9 bytes,
      IsTypeU for the 2 type-U bytes, all with the chip's lookup elements. */
  lemma CheckedEntriesShape(z: Challenge)
    ensures |CheckedEntries(z)| == 31 * WordSize + 9 + 2
    ensures forall j :: 0 <= j < 31 * WordSize + 9 ==> CheckedEntries(z)[j].numerator == One
    ensures forall j :: 31 * WordSize + 9 <= j < |CheckedEntries(z)| ==> CheckedEntries(z)[j].numerator == IsTypeU
    ensures forall j :: 0 <= j < |CheckedEntries(z)| ==> CheckedEntries(z)[j].challenge == z
  {
    var words := Entries(z, One, LimbRefs(CheckedWords, WordSize));
    var bytes := Entries(z, One, LimbRefs(CheckedBytes, 1));
    var typeU := Entries(z, IsTypeU, LimbRefs(TypeUCheckedBytes, 1));
    assert CheckedEntries(z) == words + bytes + typeU;
    forall j | 0 <= j < |CheckedEntries(z)|
      ensures CheckedEntries(z)[j].challenge == z
      ensures j < 31 * WordSize + 9 ==> CheckedEntries(z)[j].numerator == One
      ensures j >= 31 * WordSize + 9 ==> CheckedEntries(z)[j].numerator == IsTypeU
    {
      if j < |words| {
        assert CheckedEntries(z)[j] == words[j];
      } else if j < |words| + |bytes| {
        assert CheckedEntries(z)[j] == bytes[j - |words|];
      } else {
        assert CheckedEntries(z)[j] == typeU[j - |words| - |bytes|];
      }
    }
  }

  /** Reading back what `fill_interaction_trace` writes gives one complete column
      per relation entry of `add_constraints`, in the same order, each finalized
      once and holding one write per packed row 0 .. nVec in ascending order,
      with that entry's numerator, limb and lookup elements. */
  lemma InteractionMirrorsConstraints(z: Challenge, nVec: nat)
    ensures var es := CheckedEntries(z);
      var parsed := ParseColumns(EmitColumns(es, nVec));
      && parsed.Some?
      && |parsed.value| == |es| == 135
      && forall j :: 0 <= j < |es| ==>
           && |parsed.value[j]| == nVec
           && forall k :: 0 <= k < nVec ==>
                parsed.value[j][k] == Frac(k, es[j].numerator, es[j].value, es[j].challenge)
  {
    ParseEmitColumns(CheckedEntries(z), nVec);
    CheckedEntriesShape(z);
  }

  /** The weight a relation entry has on `row`: 1, or the row's IsTypeU. */
  function Weight(t: Trace, row: nat, numerator: Numerator): Bit {
    if numerator.One? then 1 else t.isTypeU(row)
  }

  /** The limbs of `es` whose entry has a nonzero weight on `row`, in entry order. */
  function Demanded(t: Trace, row: nat, es: seq<RelationEntry>): (refs: seq<LimbRef>)
    ensures |refs| <= |es|
  {
    if |es| == 0 then []
    else
      var last := es[|es| - 1];
      Demanded(t, row, es[..|es| - 1]) + (if Weight(t, row, last.numerator) != 0 then [last.value] else [])
  }

  lemma {:induction false} DemandedAppend(t: Trace, row: nat, a: seq<RelationEntry>, b: seq<RelationEntry>)
    ensures Demanded(t, row, a + b) == Demanded(t, row, a) + Demanded(t, row, b)
    decreases |b|
  {
    if |b| == 0 {
      assert a + b == a;
    } else {
      assert (a + b)[..|a + b| - 1] == a + b[..|b| - 1];
      DemandedAppend(t, row, a, b[..|b| - 1]);
    }
  }

  lemma {:induction false} DemandedEntries(t: Trace, row: nat, z: Challenge, numerator: Numerator, refs: seq<LimbRef>)
    ensures Demanded(t, row, Entries(z, numerator, refs)) == if Weight(t, row, numerator) != 0 then refs else []
    decreases |refs|
  {
    if |refs| > 0 {
      var init := refs[..|refs| - 1];
      assert Entries(z, numerator, refs)[..|refs| - 1] == Entries(z, numerator, init);
      DemandedEntries(t, row, z, numerator, init);
      assert refs == init + [refs[|refs| - 1]];
    }
  }

  /** Two groups of entries with numerator 1 weigh nonzero all their limbs. */
  lemma DemandedOnes(t: Trace, row: nat, z: Challenge, a: seq<LimbRef>, b: seq<LimbRef>)
    ensures Demanded(t, row, Entries(z, One, a) + Entries(z, One, b)) == a + b
  {
    DemandedAppend(t, row, Entries(z, One, a), Entries(z, One, b));
    DemandedEntries(t, row, z, One, a);
    DemandedEntries(t, row, z, One, b);
  }

  /** Three groups of entries, two with numerator 1 and one with IsTypeU, weigh
      nonzero on `row` the first two groups' limbs and, on a type-U row, the third's. */
  lemma DemandedGroups(t: Trace, row: nat, z: Challenge, a: seq<LimbRef>, b: seq<LimbRef>, c: seq<LimbRef>)
    ensures Demanded(t, row, Entries(z, One, a) + Entries(z, One, b) + Entries(z, IsTypeU, c))
      == a + (b + if t.isTypeU(row) != 0 then c else [])
  {
    var ones := Entries(z, One, a) + Entries(z, One, b);
    DemandedOnes(t, row, z, a, b);
    DemandedAppend(t, row, ones, Entries(z, IsTypeU, c));
    DemandedEntries(t, row, z, IsTypeU, c);
    if t.isTypeU(row) != 0 {
      assert (a + b) + c == a + (b + c);
    } else {
      assert (a + b) + [] == a + (b + []);
    }
  }

  /** On every row, the limbs the constraints weigh nonzero are exactly the limbs
      the sweep counts, in the same order. */
  lemma ConstraintsMatchRow(t: Trace, z: Challenge, row: nat)
    ensures Demanded(t, row, CheckedEntries(z)) == RowLimbs(t, row)
  {
    DemandedGroups(t, row, z, LimbRefs(CheckedWords, WordSize), LimbRefs(CheckedBytes, 1), LimbRefs(TypeUCheckedBytes, 1));
  }

  /** The (row, limb) lookups that the constraints make over rows 0 .. n, row by row. */
  function DemandCells(t: Trace, es: seq<RelationEntry>, n: nat): seq<Cell> {
    if n == 0 then [] else DemandCells(t, es, n - 1) + CellsAt(n - 1, Demanded(t, n - 1, es))
  }

  /** Logup balance without field arithmetic: when every checked cell holds a byte,
      the sweep leaves in entry v exactly the number of weighted lookups of v that
      the constraint entries make over all rows. */
  lemma {:induction false} TableMatchesLookups(t: Trace, z: Challenge, before: seq<nat>, assertRange: bool)
    requires |before| == TableSize
    requires InRange(CellValues(t, SweepCells(t, t.NumRows())))
    ensures var after := CountAll(before, CellProcessed(t, SweepCells(t, t.NumRows())));
      var lookups := CellValues(t, DemandCells(t, CheckedEntries(z), t.NumRows()));
      forall v :: 0 <= v < TableSize ==> after[v] == before[v] + multiset(lookups)[v]
  {
    forall row: nat ensures Demanded(t, row, CheckedEntries(z)) == RowLimbs(t, row) {
      ConstraintsMatchRow(t, z, row);
    }
    DemandMatchesSweep(t, CheckedEntries(z), t.NumRows());
    SweepTally(t, before, assertRange);
  }

  /** Entries that weigh nonzero, on every row, exactly the limbs the sweep
      counts there make exactly the lookups of the sweep's cells. */
  lemma {:induction false} DemandMatchesSweep(t: Trace, es: seq<RelationEntry>, n: nat)
    requires forall row {:trigger Demanded(t, row, es)} :: Demanded(t, row, es) == RowLimbs(t, row)
    ensures DemandCells(t, es, n) == SweepCells(t, n)
    decreases n
  {
    if n > 0 {
      DemandMatchesSweep(t, es, n - 1);
      assert Demanded(t, n - 1, es) == RowLimbs(t, n - 1);
    }
  }

  // ---------------------------------------------------------------------------
  // The chip's own tests, as statements

  /** The trace of the success test: ValueA, ValueB and ValueC hold the bytes
      (row + i) mod 256, every other limb is 0. */
  function SuccessTrace(logSize: nat, isTypeU: nat -> Bit): Trace {
    Trace(logSize, SuccessLimb, isTypeU)
  }

  function SuccessLimb(row: nat, col: Column, i: nat): (v: BaseValue)
    ensures v < TableSize
  {
    if col == ValueA || col == ValueB || col == ValueC then ByteOf(row + i) else 0
  }

  /** `n as u8` */
  function ByteOf(n: nat): (b: nat)
    ensures b < 256
  {
    n % 256
  }

  /** The table of a fresh session: 256 counters at zero. */
  function EmptyTable(): (table: seq<nat>)
    ensures |table| == TableSize && forall v :: 0 <= v < TableSize ==> table[v] == 0
  {
    seq(TableSize, _ => 0)
  }

  /** Every cell of the success test's trace holds a byte. */
  lemma SuccessTraceBytes(logSize: nat, isTypeU: nat -> Bit)
    ensures var t := SuccessTrace(logSize, isTypeU);
      InRange(CellValues(t, SweepCells(t, t.NumRows())))
  {
    var t := SuccessTrace(logSize, isTypeU);
    var vs := CellValues(t, SweepCells(t, t.NumRows()));
    forall k | 0 <= k < |vs| ensures vs[k] < TableSize {
      var c := SweepCells(t, t.NumRows())[k];
      assert vs[k] == SuccessLimb(c.row, c.at.col, c.at.limb);
    }
  }

  /** The success test: with only bytes in the trace, the sweep completes from a
      fresh table, and entry v ends as the number of checked cells holding v,
      which is also the number of weighted lookups of v the constraints make, so
      the lookup side and the table side of the relation balance. */
  lemma SuccessTestFills(logSize: nat, isTypeU: nat -> Bit, z: Challenge, assertRange: bool)
    ensures var t := SuccessTrace(logSize, isTypeU);
      var cells := SweepCells(t, t.NumRows());
      var after := CountAll(EmptyTable(), CellProcessed(t, cells));
      var lookups := CellValues(t, DemandCells(t, CheckedEntries(z), t.NumRows()));
      && CellVerdict(t, cells, assertRange) == Filled
      && forall v :: 0 <= v < TableSize ==> after[v] == |CheckedHolding(t, v)| == multiset(lookups)[v]
  {
    var t := SuccessTrace(logSize, isTypeU);
    SuccessTraceBytes(logSize, isTypeU);
    SweepTally(t, EmptyTable(), assertRange);
    TableMatchesLookups(t, z, EmptyTable(), assertRange);
  }

  /** The trace of the out-of-range test: limb i of ValueB holds ((row + i) mod 256) + 1,
      which is 256 for limb 0 of row 255; every other limb is 0. */
  function ReleaseTrace(logSize: nat, isTypeU: nat -> Bit): Trace {
    Trace(logSize, ReleaseLimb, isTypeU)
  }

  function ReleaseLimb(row: nat, col: Column, i: nat): BaseValue {
    if col == ValueB then ByteOf(row + i) + 1 else 0
  }

  lemma {:induction false} Pow2AtLeast256(k: nat)
    requires k >= 8
    ensures Pow2(k) >= 256
    decreases k
  {
    if k > 8 {
      Pow2AtLeast256(k - 1);
    }
  }

  /** On a trace of at least 256 rows the out-of-range test panics: with the range
      assertion compiled out, at the index into the 256-entry table. */
  lemma ReleaseTestPanics(logSize: nat, isTypeU: nat -> Bit, assertRange: bool)
    requires logSize >= 8
    ensures var t := ReleaseTrace(logSize, isTypeU);
      var r := CellVerdict(t, SweepCells(t, t.NumRows()), assertRange);
      && r.Panicked?
      && (!assertRange ==> r.panic.IndexOutOfBounds?)
      && (assertRange ==> r.panic.LimbOutOfRange?)
  {
    var t := ReleaseTrace(logSize, isTypeU);
    Pow2AtLeast256(logSize);
    var c := Cell(255, LimbRef(ValueB, 0));
    assert ValueB in CheckedWords;
    assert t.Value(c.row, c.at) == ReleaseLimb(255, ValueB, 0) == ByteOf(255) + 1 == 256;
    SweepPanicsOnNonByte(t, c, assertRange);
  }
}
