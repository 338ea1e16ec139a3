/** The logup machinery the range-check chip drives: the interaction-column
    generator, the constraint evaluator's relation, and the registry of drawn
    lookup elements. Field arithmetic is not modelled: each generator and the
    evaluator keep the log of what they were asked to do, and a fraction is
    recorded by its numerator, the limb it reads and the challenge it uses. */
module Logup {
  import opened TraceModel

  /** The drawn lookup element of one relation, as an opaque value. */
  type Challenge = nat

  /** A logup numerator: the constant 1, or the IsTypeU virtual column of the row. */
  datatype Numerator = One | IsTypeU

  /** One contribution to the Range256 relation: numerator / (challenge - value). */
  datatype RelationEntry = RelationEntry(challenge: Challenge, numerator: Numerator, value: LimbRef)

  /** One `write_frac(vec_row, numerator, denom)`: vecRow indexes the packed rows. */
  datatype Frac = Frac(vecRow: nat, numerator: Numerator, value: LimbRef, challenge: Challenge)

  /** What a LogupTraceGenerator is asked to do, in order. */
  datatype LogupEvent = NewCol | WriteFrac(frac: Frac) | FinalizeCol

  datatype Option<T> = None | Some(value: T)

  /** The logup trace generator, reduced to the log of its calls. */
  class LogupTraceGenerator {
    var events: seq<LogupEvent>

    constructor ()
      ensures events == []
    {
      events := [];
    }

    /** `logup_trace_gen.new_col()` */
    method NewCol()
      modifies this
      ensures events == old(events) + [LogupEvent.NewCol]
    {
      events := events + [LogupEvent.NewCol];
    }

    /** `logup_col_gen.write_frac(vec_row, numerator, denom)` */
    method WriteFrac(frac: Frac)
      modifies this
      ensures events == old(events) + [LogupEvent.WriteFrac(frac)]
    {
      events := events + [LogupEvent.WriteFrac(frac)];
    }

    /** `logup_col_gen.finalize_col()` */
    method FinalizeCol()
      modifies this
      ensures events == old(events) + [LogupEvent.FinalizeCol]
    {
      events := events + [LogupEvent.FinalizeCol];
    }
  }

  /** The constraint evaluator, reduced to the relation entries added to it. */
  class RelationEvaluator {
    var entries: seq<RelationEntry>

    constructor ()
      ensures entries == []
    {
      entries := [];
    }

    /** `eval.add_to_relation(RelationEntry::new(elements, numerator, &[value]))` */
    method AddToRelation(e: RelationEntry)
      modifies this
      ensures entries == old(entries) + [e]
    {
      entries := entries + [e];
    }
  }

  /** Keys of the session-wide registry of lookup elements. */
  datatype RelationId = Range256LookupElements | OtherLookupElements(id: nat)

  /** `AllLookupElements`: the lookup elements drawn so far, by relation. */
  class LookupRegistry {
    var elements: map<RelationId, Challenge>

    constructor ()
      ensures elements == map[]
    {
      elements := map[];
    }

    /** `all_elements.insert(elements)` */
    method Insert(id: RelationId, z: Challenge)
      modifies this
      ensures elements == old(elements)[id := z]
    {
      elements := elements[id := z];
    }
  }

  /** The writes of one interaction column for `e`: one per packed row 0 .. nVec, ascending. */
  function ColumnFracs(e: RelationEntry, nVec: nat): seq<Frac> {
    seq(nVec, k requires 0 <= k < nVec => Frac(k, e.numerator, e.value, e.challenge))
  }

  function Writes(fracs: seq<Frac>): seq<LogupEvent>
  {
    seq(|fracs|, k requires 0 <= k < |fracs| => LogupEvent.WriteFrac(fracs[k]))
  }

  /** The calls that produce one interaction column: new_col, the writes, finalize_col. */
  function ColumnEvents(e: RelationEntry, nVec: nat): seq<LogupEvent> {
    [NewCol] + Writes(ColumnFracs(e, nVec)) + [FinalizeCol]
  }

  /** The calls that produce one interaction column per entry, in entry order. */
  function EmitColumns(es: seq<RelationEntry>, nVec: nat): seq<LogupEvent> {
    if |es| == 0 then [] else EmitColumns(es[..|es| - 1], nVec) + ColumnEvents(es[|es| - 1], nVec)
  }

  /** The leading writes of `events` and what follows them. */
  function SplitWrites(events: seq<LogupEvent>): (r: (seq<Frac>, seq<LogupEvent>))
    ensures |r.1| <= |events|
    ensures |r.1| > 0 ==> !r.1[0].WriteFrac?
  {
    if |events| > 0 && events[0].WriteFrac? then
      var (fs, rest) := SplitWrites(events[1..]);
      ([events[0].frac] + fs, rest)
    else
      ([], events)
  }

  /** Reads a generator log back as its interaction columns: the writes between
      each new_col and its finalize_col. None if the log is not a sequence of
      complete columns (a write outside a column, a column never finalized, a
      finalize without a new column). */
  function ParseColumns(events: seq<LogupEvent>): Option<seq<seq<Frac>>>
    decreases |events|
  {
    if |events| == 0 then Some([])
    else if !events[0].NewCol? then None
    else
      var (fs, rest) := SplitWrites(events[1..]);
      if |rest| == 0 || !rest[0].FinalizeCol? then None
      else match ParseColumns(rest[1..])
        case None => None
        case Some(cols) => Some([fs] + cols)
  }

  lemma EmitColumnsAppend(a: seq<RelationEntry>, b: seq<RelationEntry>, nVec: nat)
    ensures EmitColumns(a + b, nVec) == EmitColumns(a, nVec) + EmitColumns(b, nVec)
    decreases |b|
  {
    if |b| > 0 {
      var b' := b[..|b| - 1];
      assert (a + b)[..|a + b| - 1] == a + b';
      EmitColumnsAppend(a, b', nVec);
    } else {
      assert a + b == a;
    }
  }

  lemma {:induction false} SplitWritesOf(fracs: seq<Frac>, tail: seq<LogupEvent>)
    requires |tail| > 0 ==> !tail[0].WriteFrac?
    ensures SplitWrites(Writes(fracs) + tail) == (fracs, tail)
    decreases |fracs|
  {
    if |fracs| == 0 {
      assert Writes(fracs) + tail == tail;
    } else {
      var events := Writes(fracs) + tail;
      assert events[1..] == Writes(fracs[1..]) + tail;
      SplitWritesOf(fracs[1..], tail);
      assert [fracs[0]] + fracs[1..] == fracs;
    }
  }

  /** The log of a non-empty list of entries: the first entry's column, then the rest's. */
  lemma EmitColumnsCons(es: seq<RelationEntry>, nVec: nat)
    requires |es| > 0
    ensures EmitColumns(es, nVec) == [NewCol] + Writes(ColumnFracs(es[0], nVec)) + ([FinalizeCol] + EmitColumns(es[1..], nVec))
  {
    assert es == [es[0]] + es[1..];
    EmitColumnsAppend([es[0]], es[1..], nVec);
    assert [es[0]][..0] == [];
  }

  /** Parsing the log of EmitColumns recovers, for each entry in order, one
      complete column with exactly one write per packed row, in ascending order. */
  lemma {:induction false} ParseEmitColumns(es: seq<RelationEntry>, nVec: nat)
    ensures ParseColumns(EmitColumns(es, nVec)) == Some(seq(|es|, j requires 0 <= j < |es| => ColumnFracs(es[j], nVec)))
    decreases |es|
  {
    if |es| == 0 {
      assert seq(|es|, j requires 0 <= j < |es| => ColumnFracs(es[j], nVec)) == [];
    } else {
      var rest := EmitColumns(es[1..], nVec);
      var fs := ColumnFracs(es[0], nVec);
      EmitColumnsCons(es, nVec);
      var events := EmitColumns(es, nVec);
      assert events[1..] == Writes(fs) + ([FinalizeCol] + rest);
      SplitWritesOf(fs, [FinalizeCol] + rest);
      assert ([FinalizeCol] + rest)[1..] == rest;
      ParseEmitColumns(es[1..], nVec);
      var want := seq(|es|, j requires 0 <= j < |es| => ColumnFracs(es[j], nVec));
      var tailWant := seq(|es[1..]|, j requires 0 <= j < |es[1..]| => ColumnFracs(es[1..][j], nVec));
      assert want == [fs] + tailWant;
    }
  }
}
