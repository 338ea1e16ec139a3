/** Read access to the execution trace, as the byte range-check chip sees it.

    The prover's trace builder and finalized trace are external; the chip only
    reads limb values by (row, column, limb) and the virtual IsTypeU column. */
module TraceModel {

  /** The columns of the prover's column enum that the byte range check reads. */
  datatype Column =
    | Pc | PcNextAux | InstrVal | PrevCtr | ValueA | ValueB | ValueC
    | Reg1TsPrev | Reg2TsPrev | Reg3TsPrev | Helper1 | ProgCtrCur | ProgCtrPrev
    | FinalPrgMemoryCtr | CReg1TsPrev | CReg2TsPrev | CReg3TsPrev | RamBaseAddr
    | Ram1TsPrev | Ram2TsPrev | Ram3TsPrev | Ram4TsPrev
    | Ram1TsPrevAux | Ram2TsPrevAux | Ram3TsPrevAux | Ram4TsPrevAux
    | Rem | Qt | RemDiff | RamInitFinalAddr | RamFinalCounter
    | Ram1ValCur | Ram2ValCur | Ram3ValCur | Ram4ValCur
    | Ram1ValPrev | Ram2ValPrev | Ram3ValPrev | Ram4ValPrev | RamFinalValue
    | OpC16_23 | OpC24_31

  /** Number of byte limbs in a machine word (the VM's WORD_SIZE). */
  const WordSize: nat := 4

  /** log2 of the number of rows packed into one SIMD vector (16 lanes). */
  const LogNLanes: nat := 4

  /** The Mersenne prime 2^31 - 1; base-field elements are the naturals below it. */
  const Modulus: nat := 0x7fff_ffff

  /** A base-field element in canonical form, as `limb.0` exposes it. */
  type BaseValue = x: nat | x < Modulus

  /** A base-field element that is 0 or 1, as the IsTypeU virtual column yields. */
  type Bit = x: nat | x <= 1

  function Pow2(k: nat): (r: nat)
    ensures r >= 1
  {
    if k == 0 then 1 else 2 * Pow2(k - 1)
  }

  /** One limb of one column: the value the source reads as `column::<N>(row, col)[limb]`. */
  datatype LimbRef = LimbRef(col: Column, limb: nat)

  /** The main trace of 2^logSize rows. `limb(row, col, i)` is limb i of column `col`
      at `row`; `isTypeU(row)` is the virtual IsTypeU column at `row`, whose algebraic
      formula lies outside this model. */
  datatype Trace = Trace(logSize: nat, limb: (nat, Column, nat) -> BaseValue, isTypeU: nat -> Bit)
  {
    /** `traces.num_rows()`: the row count is a power of two. */
    function NumRows(): (n: nat)
      ensures n >= 1
    {
      Pow2(logSize)
    }

    function Value(row: nat, at: LimbRef): BaseValue {
      limb(row, at.col, at.limb)
    }

    /** `traces.column::<N>(row, col)`: the N consecutive limbs of `col` at `row`. */
    function ReadColumn(row: nat, col: Column, n: nat): seq<BaseValue>
    {
      seq<BaseValue>(n, i requires 0 <= i < n => limb(row, col, i))
    }
  }
}
