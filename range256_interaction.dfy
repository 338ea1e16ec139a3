/** The logup side of the byte range-check chip: the lookup elements it draws,
    the interaction columns it writes and the relation entries its constraints
    add. Both sides walk the same three column lists in the same order, so each
    interaction column stands for exactly one relation entry. */
module Range256Interaction {
  import opened TraceModel
  import opened Logup
  import opened Range256

  /** How a stage that needs the chip's lookup elements ends. */
  datatype StageOutcome = Done | MissingLookupElements

  /** Number of packed rows of a trace of 2^logSize rows: `1 << (log_size - LOG_N_LANES)`. */
  function NumVecRows(logSize: nat): (n: nat)
    requires logSize >= LogNLanes
    ensures n >= 1
  {
    Pow2(logSize - LogNLanes)
  }

  /** One relation entry per listed limb, all with the same numerator. */
  function Entries(z: Challenge, numerator: Numerator, refs: seq<LimbRef>): seq<RelationEntry>
  {
    seq(|refs|, i requires 0 <= i < |refs| => RelationEntry(z, numerator, refs[i]))
  }

  lemma EntriesAppend(z: Challenge, numerator: Numerator, a: seq<LimbRef>, b: seq<LimbRef>)
    ensures Entries(z, numerator, a + b) == Entries(z, numerator, a) + Entries(z, numerator, b)
  {
  }

  /** The contributions of one row to the Range256 relation, in the order both
      sides produce them: every word limb and every checked byte with numerator
      1, then the two type-U bytes with numerator IsTypeU. */
  function CheckedEntries(z: Challenge): seq<RelationEntry> {
    Entries(z, One, LimbRefs(CheckedWords, WordSize))
      + Entries(z, One, LimbRefs(CheckedBytes, 1))
      + Entries(z, IsTypeU, LimbRefs(TypeUCheckedBytes, 1))
  }

  /** `all_elements.insert(Range256LookupElements::draw(channel))`: the value the
      channel yields is a parameter. */
  method DrawLookupElements(registry: LookupRegistry, drawn: Challenge)
    modifies registry
    ensures registry.elements == old(registry.elements)[Range256LookupElements := drawn]
  {
    registry.Insert(Range256LookupElements, drawn);
  }

  // ---------------------------------------------------------------------------
  // Interaction trace

  /** One interaction column: `new_col`, one `write_frac` per packed row in
      ascending order, `finalize_col`. */
  method WriteColumn(gen: LogupTraceGenerator, e: RelationEntry, nVec: nat)
    modifies gen
    ensures gen.events == old(gen.events) + ColumnEvents(e, nVec)
  {
    ghost var fracs := ColumnFracs(e, nVec);
    gen.NewCol();
    var vecRow := 0;
    while vecRow < nVec
      invariant vecRow <= nVec
      invariant gen.events == old(gen.events) + [LogupEvent.NewCol] + Writes(fracs[..vecRow])
    {
      gen.WriteFrac(Frac(vecRow, e.numerator, e.value, e.challenge));
      assert Writes(fracs[..vecRow + 1]) == Writes(fracs[..vecRow]) + [LogupEvent.WriteFrac(fracs[vecRow])];
      vecRow := vecRow + 1;
    }
    assert fracs[..vecRow] == fracs;
    gen.FinalizeCol();
  }

  /** `check_bytes`: one interaction column per limb of `col`. The type-U block of
      `fill_interaction_trace` is the same loop with the IsTypeU numerator. */
  method CheckBytes(gen: LogupTraceGenerator, col: Column, width: nat, numerator: Numerator, logSize: nat, z: Challenge)
    requires logSize >= LogNLanes
    modifies gen
    ensures gen.events == old(gen.events) + EmitColumns(Entries(z, numerator, ColumnLimbs(col, width)), NumVecRows(logSize))
  {
    ghost var es := Entries(z, numerator, ColumnLimbs(col, width));
    var nVec := Pow2(logSize - LogNLanes);
    var limb := 0;
    while limb < width
      invariant limb <= width
      invariant gen.events == old(gen.events) + EmitColumns(es[..limb], nVec)
    {
      WriteColumn(gen, RelationEntry(z, numerator, LimbRef(col, limb)), nVec);
      assert es[..limb + 1][..limb] == es[..limb];
      limb := limb + 1;
    }
    assert es[..limb] == es;
  }

  /** `for col in cols { check_bytes(get_base_column(col), ..) }` */
  method CheckColumns(gen: LogupTraceGenerator, cols: seq<Column>, width: nat, numerator: Numerator, logSize: nat, z: Challenge)
    requires logSize >= LogNLanes
    modifies gen
    ensures gen.events == old(gen.events) + EmitColumns(Entries(z, numerator, LimbRefs(cols, width)), NumVecRows(logSize))
  {
    var nVec := NumVecRows(logSize);
    var i := 0;
    while i < |cols|
      invariant i <= |cols|
      invariant gen.events == old(gen.events) + EmitColumns(Entries(z, numerator, LimbRefs(cols[..i], width)), nVec)
    {
      LimbRefsAround(cols, i, width);
      EntriesAppend(z, numerator, LimbRefs(cols[..i], width), ColumnLimbs(cols[i], width));
      EmitColumnsAppend(Entries(z, numerator, LimbRefs(cols[..i], width)), Entries(z, numerator, ColumnLimbs(cols[i], width)), nVec);
      CheckBytes(gen, cols[i], width, numerator, logSize, z);
      i := i + 1;
    }
    assert cols[..i] == cols;
  }

  /** `fill_interaction_trace`: the word columns, the byte columns, then the type-U
      columns, one interaction column per limb. */
  method FillInteractionTrace(gen: LogupTraceGenerator, logSize: nat, registry: LookupRegistry) returns (outcome: StageOutcome)
    requires logSize >= LogNLanes
    modifies gen
    ensures Range256LookupElements !in registry.elements ==>
      outcome == MissingLookupElements && gen.events == old(gen.events)
    ensures Range256LookupElements in registry.elements ==>
      && outcome == Done
      && gen.events == old(gen.events) + EmitColumns(CheckedEntries(registry.elements[Range256LookupElements]), NumVecRows(logSize))
  {
    if Range256LookupElements !in registry.elements {
      return MissingLookupElements;
    }
    var z := registry.elements[Range256LookupElements];
    var nVec := NumVecRows(logSize);
    var words := Entries(z, One, LimbRefs(CheckedWords, WordSize));
    var bytes := Entries(z, One, LimbRefs(CheckedBytes, 1));
    var typeU := Entries(z, IsTypeU, LimbRefs(TypeUCheckedBytes, 1));
    CheckColumns(gen, CheckedWords, WordSize, One, logSize, z);
    CheckColumns(gen, CheckedBytes, 1, One, logSize, z);
    CheckColumns(gen, TypeUCheckedBytes, 1, IsTypeU, logSize, z);
    EmitColumnsAppend(words, bytes, nVec);
    EmitColumnsAppend(words + bytes, typeU, nVec);
    outcome := Done;
  }

  // ---------------------------------------------------------------------------
  // Constraints

  /** The relation entries of one column: one per limb, in limb order. */
  method AddColumn(eval: RelationEvaluator, col: Column, width: nat, numerator: Numerator, z: Challenge)
    modifies eval
    ensures eval.entries == old(eval.entries) + Entries(z, numerator, ColumnLimbs(col, width))
  {
    ghost var es := Entries(z, numerator, ColumnLimbs(col, width));
    var limb := 0;
    while limb < width
      invariant limb <= width
      invariant eval.entries == old(eval.entries) + es[..limb]
    {
      eval.AddToRelation(RelationEntry(z, numerator, LimbRef(col, limb)));
      assert es[..limb + 1] == es[..limb] + [es[limb]];
      limb := limb + 1;
    }
    assert es[..limb] == es;
  }

  /** `for col in cols { .. eval.add_to_relation(..) .. }` */
  method AddColumns(eval: RelationEvaluator, cols: seq<Column>, width: nat, numerator: Numerator, z: Challenge)
    modifies eval
    ensures eval.entries == old(eval.entries) + Entries(z, numerator, LimbRefs(cols, width))
  {
    var i := 0;
    while i < |cols|
      invariant i <= |cols|
      invariant eval.entries == old(eval.entries) + Entries(z, numerator, LimbRefs(cols[..i], width))
    {
      LimbRefsAround(cols, i, width);
      EntriesAppend(z, numerator, LimbRefs(cols[..i], width), ColumnLimbs(cols[i], width));
      AddColumn(eval, cols[i], width, numerator, z);
      i := i + 1;
    }
    assert cols[..i] == cols;
  }

  /** `add_constraints`: the word limbs and the checked bytes with numerator 1,
      then the type-U bytes with numerator IsTypeU. */
  method AddConstraints(eval: RelationEvaluator, registry: LookupRegistry) returns (outcome: StageOutcome)
    modifies eval
    ensures Range256LookupElements !in registry.elements ==>
      outcome == MissingLookupElements && eval.entries == old(eval.entries)
    ensures Range256LookupElements in registry.elements ==>
      && outcome == Done
      && eval.entries == old(eval.entries) + CheckedEntries(registry.elements[Range256LookupElements])
  {
    if Range256LookupElements !in registry.elements {
      return MissingLookupElements;
    }
    var z := registry.elements[Range256LookupElements];
    AddColumns(eval, CheckedWords, WordSize, One, z);
    AddColumns(eval, CheckedBytes, 1, One, z);
    AddColumns(eval, TypeUCheckedBytes, 1, IsTypeU, z);
    outcome := Done;
  }
}
