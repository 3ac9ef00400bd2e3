/** Option, Result and the reader's error values (core/src/error.rs). */
module Wrappers {

  datatype Option<+T> = None | Some(value: T)

  /** What a `Truncated` error says was missing or malformed. */
  datatype Structure =
    | BtrfsHeader
    | BtrfsSuperblock
    | ChunkRootLogical
    | ChunkRootNode
    | LogicalAddress
    | NodeBlock
    | FsTreeRootItem
    | InodeItem
    | ExtentType
    | ExtentLogical
    | ExtentData
    | ExtentSource
    | CodecByte
    | ZlibStream
    | ZstdFrame
    | LzoSegment

  /** The length fields guarded against an allocation bomb. */
  datatype LengthField = InodeSize | HoleBytes | ExtentBytes | RamBytes

  datatype BtrfsError =
    | Truncated(structure: Structure, need: nat, have: nat)
    | BadMagic(found: seq<int>)
    | AllocationBomb(field: LengthField, claimed: nat, bound: nat)

  datatype Result<+T> = Ok(value: T) | Err(error: BtrfsError)
}
