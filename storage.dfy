/** The page-type byte of a B-tree page (`PageType` and its `From<u8>`). */
module Storage {
  import opened Bytes

  datatype PageType =
    | InteriorIndex
    | InteriorTable
    | LeafIndex
    | LeafTable
    | Overflow
    | FreelistTrunk
    | FreelistLeaf
    | Unknown

  /** The discriminant each variant is declared with. */
  function Discriminant(t: PageType): Byte
  {
    match t
    case InteriorIndex => 0x02
    case InteriorTable => 0x05
    case LeafIndex => 0x0A
    case LeafTable => 0x0D
    case Overflow => 0xFF
    case FreelistTrunk => 0xFE
    case FreelistLeaf => 0xFD
    case Unknown => 0x00
  }

  /** `PageType::from(u8)`: total, with every unlisted byte `Unknown`. */
  function FromByte(b: Byte): (r: PageType)
    ensures r != Unknown <==> b in {0x02, 0x05, 0x0A, 0x0D, 0xFD, 0xFE, 0xFF}
    ensures r != Unknown ==> Discriminant(r) == b
  {
    match b
    case 0x02 => InteriorIndex
    case 0x05 => InteriorTable
    case 0x0A => LeafIndex
    case 0x0D => LeafTable
    case 0xFF => Overflow
    case 0xFE => FreelistTrunk
    case 0xFD => FreelistLeaf
    case _ => Unknown
  }

  /** Converting a variant's discriminant gives the variant back. */
  lemma FromDiscriminant(t: PageType)
    ensures FromByte(Discriminant(t)) == t
  {
  }
}
