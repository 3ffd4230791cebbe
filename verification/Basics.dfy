/**
  What the other modules share: machine words, optional values, and properties of sequences.
 */
module Basics {

  const BYTE_SIZE: nat := 0x100
  const WORD_SIZE: nat := 0x1_0000
  const DWORD_SIZE: nat := 0x1_0000_0000
  const QWORD_SIZE: nat := 0x1_0000_0000_0000_0000

  type Byte = x: int | 0 <= x < BYTE_SIZE

  type Word = x: int | 0 <= x < WORD_SIZE

  type Dword = x: int | 0 <= x < DWORD_SIZE

  datatype Option<T> = None | Some(value: T)

  function Min(a: nat, b: nat): nat { if a <= b then a else b }

  predicate Distinct<T(==)>(s: seq<T>) { forall i, j :: 0 <= i < j < |s| ==> s[i] != s[j] }
}
