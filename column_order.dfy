/** The order of the column enum, used to show that the chip's three column
    lists name 42 different columns. */
module ColumnOrder {
  import opened TraceModel
  import opened Range256

  /** No element of `s` occurs twice. */
  predicate Distinct<T(==)>(s: seq<T>) {
    forall i, j :: 0 <= i < j < |s| ==> s[i] != s[j]
  }

  /** Position of a column in the declaration order of the column enum. */
  function Ord(c: Column): nat {
    match c
    case Pc => 0 case PcNextAux => 1 case InstrVal => 2 case PrevCtr => 3
    case ValueA => 4 case ValueB => 5 case ValueC => 6 case Reg1TsPrev => 7
    case Reg2TsPrev => 8 case Reg3TsPrev => 9 case Helper1 => 10 case ProgCtrCur => 11
    case ProgCtrPrev => 12 case FinalPrgMemoryCtr => 13 case CReg1TsPrev => 14
    case CReg2TsPrev => 15 case CReg3TsPrev => 16 case RamBaseAddr => 17
    case Ram1TsPrev => 18 case Ram2TsPrev => 19 case Ram3TsPrev => 20 case Ram4TsPrev => 21
    case Ram1TsPrevAux => 22 case Ram2TsPrevAux => 23 case Ram3TsPrevAux => 24
    case Ram4TsPrevAux => 25 case Rem => 26 case Qt => 27 case RemDiff => 28
    case RamInitFinalAddr => 29 case RamFinalCounter => 30
    case Ram1ValCur => 31 case Ram2ValCur => 32 case Ram3ValCur => 33 case Ram4ValCur => 34
    case Ram1ValPrev => 35 case Ram2ValPrev => 36 case Ram3ValPrev => 37 case Ram4ValPrev => 38
    case RamFinalValue => 39 case OpC16_23 => 40 case OpC24_31 => 41
  }

  /** The word columns are listed in enum order: the first sixteen, then the rest. */
  lemma OrdOfWordsLow()
    ensures forall i :: 0 <= i < 16 ==> Ord(CheckedWords[i]) == i
  {
  }

  lemma OrdOfWordsHigh()
    ensures forall i :: 16 <= i < 31 ==> Ord(CheckedWords[i]) == i
  {
  }

  lemma OrdOfWords()
    ensures forall i :: 0 <= i < |CheckedWords| ==> Ord(CheckedWords[i]) == i
  {
    OrdOfWordsLow();
    OrdOfWordsHigh();
  }

  /** The byte columns follow the word columns in enum order, the type-U bytes last. */
  lemma OrdOfBytes()
    ensures forall i :: 0 <= i < 9 ==> Ord(CheckedBytes[i]) == 31 + i
  {
  }

  lemma OrdOfTypeUBytes()
    ensures forall i :: 0 <= i < 2 ==> Ord(TypeUCheckedBytes[i]) == 40 + i
  {
  }

  /** The three column lists have no repeated column and share none. */
  lemma ColumnListsDistinct()
    ensures Distinct(CheckedWords) && Distinct(CheckedBytes) && Distinct(TypeUCheckedBytes)
    ensures forall c :: c in CheckedWords ==> c !in CheckedBytes && c !in TypeUCheckedBytes
    ensures forall c :: c in CheckedBytes ==> c !in TypeUCheckedBytes
  {
    OrdOfWords();
    OrdOfBytes();
    OrdOfTypeUBytes();
  }
}
