/** The word of llamafile/pool.cpp that holds a pointer and a 12-bit tag. */
module TaggedWord {

  /** `ROL(x, 8)` and `ROR(x, 8)`. */
  function Rol8(x: bv64): bv64 { (x << 8) | (x >> 56) }

  function Ror8(x: bv64): bv64 { (x >> 8) | (x << 56) }

  /** The mask keeps the pointer; the four low and eight high bits hold the tag. */
  function PTR(x: bv64): bv64 { x & 0x00fffffffffffff0 }

  function TAG(x: bv64): bv64 { Rol8(x & !0x00fffffffffffff0) }

  function ABA(p: bv64, t: bv64): bv64 { p | (Ror8(t) & !0x00fffffffffffff0) }

  /** A pointer and a tag packed into a word can be read back; tags wrap at 4096. */
  lemma Unpack(p: bv64, t: bv64)
    requires PTR(p) == p
    ensures PTR(ABA(p, t)) == p
    ensures TAG(ABA(p, t)) == t & 0xfff
  {
  }

  /** The word is exactly its pointer and its tag, so comparing words compares both. */
  lemma Pack(x: bv64)
    ensures ABA(PTR(x), TAG(x)) == x
    ensures TAG(x) & 0xfff == TAG(x)
  {
  }
}
