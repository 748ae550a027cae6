/** The parts of an inode that the readers use. */
module Inodes {
  import opened Integers
  import opened Extents

  /** A data or attributes fork: bytes in the inode, or extents from a list or a B+ tree. */
  datatype Fork = Unsupported | InlineData(data: seq<byte>) | Extents(extents: seq<Extent>)
}
