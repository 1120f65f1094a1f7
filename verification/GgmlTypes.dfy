/** Tensor element types and their block layouts (crates/gguf/src/types.rs). */
module GgmlTypes {
  import V = GgufValue

  datatype GgmlType =
    | F32 | F16 | Q4_0 | Q4_1 | Q5_0 | Q5_1 | Q8_0 | Q8_1 | Q2K | Q3K | Q4K | Q5K | Q6K | Q8K
    | Iq2Xxs | Iq2Xs | Iq3Xxs | Iq1S | Iq4Nl | Iq3S | Iq2S | Iq4Xs | I8 | I16 | I32 | I64 | F64 | Iq1M | BF16
  {
    /** The on-disk discriminant. */
    function Tag(): (t: nat)
      ensures t <= 30
    {
      match this
      case F32 => 0 case F16 => 1 case Q4_0 => 2 case Q4_1 => 3 case Q5_0 => 6 case Q5_1 => 7 case Q8_0 => 8
      case Q8_1 => 9 case Q2K => 10 case Q3K => 11 case Q4K => 12 case Q5K => 13 case Q6K => 14 case Q8K => 15
      case Iq2Xxs => 16 case Iq2Xs => 17 case Iq3Xxs => 18 case Iq1S => 19 case Iq4Nl => 20 case Iq3S => 21
      case Iq2S => 22 case Iq4Xs => 23 case I8 => 24 case I16 => 25 case I32 => 26 case I64 => 27 case F64 => 28
      case Iq1M => 29 case BF16 => 30
    }

    /** Elements packed into one block. */
    function BlockSize(): (n: nat)
      ensures n > 0
    {
      match this
      case F32 | F16 | BF16 | I8 | I16 | I32 | I64 | F64 => 1
      case Q4_0 | Q4_1 | Q5_0 | Q5_1 | Q8_0 | Q8_1 | Iq4Nl => 32
      case Q2K | Q3K | Q4K | Q5K | Q6K | Q8K | Iq2Xxs | Iq2Xs | Iq3Xxs | Iq1S | Iq3S | Iq2S | Iq4Xs | Iq1M => 256
    }

    /** Bytes of one block. */
    function TypeSize(): (n: nat)
      ensures n > 0
    {
      match this
      case F32 | I32 => 4
      case F16 | BF16 | I16 => 2
      case I8 => 1
      case I64 | F64 => 8
      case Q4_0 => 18 case Q4_1 => 20 case Q5_0 => 22 case Q5_1 => 24 case Q8_0 => 34 case Q8_1 => 36
      case Q2K => 84 case Q3K => 110 case Q4K => 144 case Q5K => 176 case Q6K => 210 case Q8K => 292
      case Iq2Xxs => 66 case Iq2Xs => 74 case Iq3Xxs => 98 case Iq1S => 50 case Iq1M => 56 case Iq4Nl => 18
      case Iq3S => 110 case Iq2S => 82 case Iq4Xs => 136
    }

    /** Bytes needed for `n` elements; whole blocks only. A product past the machine word aborts. */
    function SizeFor(n: nat): V.Parsed<nat> {
      if n % BlockSize() != 0 then V.Bad(V.PartialBlock(n))
      else if n / BlockSize() * TypeSize() > V.USIZE_MAX then V.Bad(V.Abort)
      else V.Got(n / BlockSize() * TypeSize(), 0)
    }
  }

  function TypeOfDiscriminant(t: nat): V.Parsed<GgmlType> {
    match t
    case 0 => V.Got(F32, 0) case 1 => V.Got(F16, 0) case 2 => V.Got(Q4_0, 0) case 3 => V.Got(Q4_1, 0)
    case 6 => V.Got(Q5_0, 0)
    case 7 => V.Got(Q5_1, 0) case 8 => V.Got(Q8_0, 0) case 9 => V.Got(Q8_1, 0) case 10 => V.Got(Q2K, 0)
    case 11 => V.Got(Q3K, 0)
    case 12 => V.Got(Q4K, 0) case 13 => V.Got(Q5K, 0) case 14 => V.Got(Q6K, 0) case 15 => V.Got(Q8K, 0)
    case 16 => V.Got(Iq2Xxs, 0)
    case 17 => V.Got(Iq2Xs, 0) case 18 => V.Got(Iq3Xxs, 0) case 19 => V.Got(Iq1S, 0) case 20 => V.Got(Iq4Nl, 0)
    case 21 => V.Got(Iq3S, 0) case 22 => V.Got(Iq2S, 0) case 23 => V.Got(Iq4Xs, 0) case 24 => V.Got(I8, 0)
    case 25 => V.Got(I16, 0)
    case 26 => V.Got(I32, 0) case 27 => V.Got(I64, 0) case 28 => V.Got(F64, 0) case 29 => V.Got(Iq1M, 0)
    case 30 => V.Got(BF16, 0)
    case _ => V.Bad(V.UnknownTensorType(t))
  }

  /** The discriminants and the reader's table are inverse to each other. */
  lemma DiscriminantsAgree(ty: GgmlType, t: nat)
    ensures TypeOfDiscriminant(ty.Tag()) == V.Got(ty, 0)
    ensures TypeOfDiscriminant(t).Got? ==> TypeOfDiscriminant(t).value.Tag() == t
  {
  }

  /** The blocks of 32 elements: half-precision scales and minima, then the elements' bits. */
  lemma SmallBlocksAreTheirFields()
    ensures forall ty | ty in {Q4_0, Q4_1, Q5_0, Q5_1, Q8_0, Q8_1, Iq4Nl} :: ty.BlockSize() == 32
    ensures Q4_0.TypeSize() == Iq4Nl.TypeSize() == 2 + 32 * 4 / 8 && Q4_1.TypeSize() == 2 + 2 + 32 * 4 / 8
    ensures Q5_0.TypeSize() == 2 + 32 * 5 / 8 && Q5_1.TypeSize() == 2 + 2 + 32 * 5 / 8
    ensures Q8_0.TypeSize() == 2 + 32 * 8 / 8 && Q8_1.TypeSize() == 2 + 2 + 32 * 8 / 8
  {
  }

  /** The blocks of 256 elements: the elements' bits, the scales of their sub-blocks, and the scales of the
      whole block. */
  lemma SuperBlocksAreTheirFields()
    ensures forall ty | ty in {Q2K, Q3K, Q4K, Q5K, Q6K, Q8K, Iq2Xxs, Iq2Xs, Iq3Xxs, Iq1S, Iq3S, Iq2S, Iq4Xs, Iq1M} ::
              ty.BlockSize() == 256
    ensures Q2K.TypeSize() == 256 * 2 / 8 + 16 + 2 + 2 && Q3K.TypeSize() == 256 * 3 / 8 + 12 + 2
    ensures Q4K.TypeSize() == 256 * 4 / 8 + 12 + 2 + 2 && Q5K.TypeSize() == 256 * 5 / 8 + 12 + 2 + 2
    ensures Q6K.TypeSize() == 256 * 6 / 8 + 16 + 2 && Q8K.TypeSize() == 256 * 8 / 8 + 16 * 2 + 4
    ensures Iq2Xxs.TypeSize() == 256 / 8 * 2 + 2 && Iq2Xs.TypeSize() == 256 / 8 * 2 + 8 + 2
    ensures Iq2S.TypeSize() == 256 / 8 * 2 + 8 + 8 + 2 && Iq3Xxs.TypeSize() == 256 * 3 / 8 + 2
    ensures Iq3S.TypeSize() == 256 / 4 + 8 + 256 / 8 + 4 + 2 && Iq4Xs.TypeSize() == 256 * 4 / 8 + 4 + 2 + 2
    ensures Iq1S.TypeSize() == 256 / 8 + 8 * 2 + 2 && Iq1M.TypeSize() == 256 / 8 + 256 / 16 + 8
  {
  }

  /** Every other type is one number of its own width. */
  lemma PlainTypesAreNumbers(ty: GgmlType)
    ensures ty.BlockSize() == 1 <==> ty in {F32, F16, BF16, I8, I16, I32, I64, F64}
    ensures 8 * F32.TypeSize() == 32 && 8 * F64.TypeSize() == 64 && 8 * F16.TypeSize() == 8 * BF16.TypeSize() == 16
    ensures 8 * I8.TypeSize() == 8 && 8 * I16.TypeSize() == 16 && 8 * I32.TypeSize() == 32 && 8 * I64.TypeSize() == 64
  {
  }

  /** The numbers the format gives its types; 4 and 5 belonged to types that were withdrawn. */
  lemma TypesAreNumberedInOrder(i: nat)
    ensures var order := [F32, F16, Q4_0, Q4_1, Q5_0, Q5_1, Q8_0, Q8_1, Q2K, Q3K, Q4K, Q5K, Q6K, Q8K, Iq2Xxs, Iq2Xs,
                          Iq3Xxs, Iq1S, Iq4Nl, Iq3S, Iq2S, Iq4Xs, I8, I16, I32, I64, F64, Iq1M, BF16];
            i < |order| ==> order[i].Tag() == if i < 4 then i else i + 2
  {
  }
}
