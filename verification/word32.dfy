/** One 32-bit word of a frame and the two single-bit updates the assembler
performs on it, `frame_set` and `frame_clear` (tools/fasm2frame.py).
 */
module Word32 {

  /** The word with only bit `i` set: `1 << i`. */
  function Mask(i: bv5): bv32 {
    1 << i
  }

  predicate BitOf(w: bv32, i: bv5) {
    w & Mask(i) != 0
  }

  /** `w` and `v` agree on every bit except, perhaps, bit `i`. */
  predicate AgreeOutside(w: bv32, v: bv32, i: bv5) {
    w & !Mask(i) == v & !Mask(i)
  }

  /** `frame_set` on one word, `word |= 1 << i`: bit `i` is set and every
      other bit is kept. */
  function SetBit(w: bv32, i: bv5): (r: bv32)
    ensures BitOf(r, i)
    ensures AgreeOutside(r, w, i)
  {
    MaskNonZero(i);
    OrMask(w, Mask(i));
    w | Mask(i)
  }

  /** `frame_clear` on one word, `word &= 0xFFFFFFFF ^ (1 << i)`: bit `i` is
      cleared and every other bit is kept. */
  function ClearBit(w: bv32, i: bv5): (r: bv32)
    ensures !BitOf(r, i)
    ensures AgreeOutside(r, w, i)
  {
    AndNotMask(w, Mask(i));
    w & (0xFFFF_FFFF ^ Mask(i))
  }

  /** The choice `update_segbit` makes between the two. */
  function WordWrite(w: bv32, i: bv5, v: bool): (r: bv32)
    ensures BitOf(r, i) == v
    ensures AgreeOutside(r, w, i)
  {
    if v then SetBit(w, i) else ClearBit(w, i)
  }

  lemma MaskNonZero(i: bv5)
    ensures Mask(i) != 0
  {
  }

  lemma OrMask(w: bv32, m: bv32)
    ensures (w | m) & m == m
    ensures (w | m) & !m == w & !m
  {
  }

  lemma AndNotMask(w: bv32, m: bv32)
    ensures (w & (0xFFFF_FFFF ^ m)) & m == 0
    ensures (w & (0xFFFF_FFFF ^ m)) & !m == w & !m
  {
  }

  /** Two words that agree outside bit `i` agree on every other bit. */
  lemma SameOutside(w: bv32, v: bv32, i: bv5, j: bv5)
    requires AgreeOutside(w, v, i)
    requires i != j
    ensures BitOf(w, j) == BitOf(v, j)
  {
  }

  /** A zero word has no bit set. */
  lemma ZeroHasNoBits(i: bv5)
    ensures !BitOf(0, i)
  {
  }
}
