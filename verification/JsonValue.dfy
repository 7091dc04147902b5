/** JSON values as the loader builds them and the dumper reads them. */
module JsonValue {
  import opened Bytes
  import opened OrderedMap

  /**
    * A real stands for its own text: conversion between doubles and text is outside the model.
    * An object keeps its members in insertion order.
    */
  datatype Json =
    | Null
    | True
    | False
    | Integer(value: int)
    | Real(text: seq<byte>)
    | String(text: seq<byte>)
    | Array(items: seq<Json>)
    | Object(members: seq<Entry<Json>>)

  /** The load flags, and which real lexemes are outside the range of a double. */
  datatype Options = Options(
    rejectDuplicates: bool,
    disableEofCheck: bool,
    decodeAny: bool,
    intAsReal: bool,
    allowNul: bool,
    overflows: seq<byte> -> bool)

  const MAX_DEPTH: nat := 2048
  const INT_MIN: int := -0x8000_0000_0000_0000
  const INT_MAX: int := 0x7FFF_FFFF_FFFF_FFFF
}
