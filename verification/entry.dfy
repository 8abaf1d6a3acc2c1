/** The catalog the scanner returns. */
module Entries {
  import opened Bytes

  /** One catalog entry. A file's payload is `length` bytes at absolute `offset` in the archive;
      a symbolic link is its own `name` and its target `path`; `ZeroBlock` marks one all-zero
      record and is used to recognise the end of the archive. */
  datatype Entry =
    | File(path: seq<Byte>, offset: nat, length: nat)
    | Directory(path: seq<Byte>)
    | SymbolicLink(name: seq<Byte>, path: seq<Byte>)
    | ZeroBlock

  /** The key of a zero block ("_"). */
  const ZERO_BLOCK_KEY: seq<Byte> := [95]

  /** `Entry.key`: the name an entry is known by. A link is known by its own name, not its
      target; a file by its path, whatever its position. */
  function Key(e: Entry): (k: seq<Byte>)
    ensures e.ZeroBlock? ==> k == ZERO_BLOCK_KEY
    ensures e.File? || e.Directory? ==> k == e.path
    ensures e.SymbolicLink? ==> k == e.name
  {
    match e
    case File(path, _, _) => path
    case Directory(path) => path
    case SymbolicLink(name, _) => name
    case ZeroBlock => ZERO_BLOCK_KEY
  }

  /** The key ignores a file's position and a link's target: entries that differ only there
      share a key. */
  lemma KeyIgnoresPayload(path: seq<Byte>, o1: nat, l1: nat, o2: nat, l2: nat, t1: seq<Byte>, t2: seq<Byte>)
    ensures Key(File(path, o1, l1)) == Key(File(path, o2, l2)) == Key(Directory(path))
    ensures Key(SymbolicLink(path, t1)) == Key(SymbolicLink(path, t2)) == Key(Directory(path))
  {
  }
}
