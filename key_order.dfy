/**
 * The comparator of the pending-request tree (id_position_tree_compare).
 * A key is the 32-bit pattern of the packed (position, id) pointer; the
 * comparator looks only at its id byte (bits 16..23) and its position half
 * (bits 0..15). Masking makes the signedness of `gint` irrelevant, so keys
 * are modelled as unsigned patterns.
 */
module KeyOrder {
  import opened ByteOrder

  /** key & 0xFF0000 */
  function MaskedId(k: Word): int
  {
    k / 0x1_0000 % 0x100 * 0x1_0000
  }

  /** key & 0xFFFF */
  function MaskedPos(k: Word): int
  {
    k % 0x1_0000
  }

  /** id_position_tree_compare(a, b): negative, zero or positive. */
  function Compare(a: Word, b: Word): int
  {
    var idA, idB := MaskedId(a), MaskedId(b);
    if idA > idB then 1
    else if idA == idB then MaskedPos(a) - MaskedPos(b)
    else -1
  }

  /** The identity a key has in the tree: its low 24 bits, the ones the comparator reads. */
  function TreeKey(k: Word): (t: nat)
    ensures t < 0x100_0000
  {
    k % 0x100_0000
  }

  lemma TreeKeySplits(k: Word)
    ensures TreeKey(k) == MaskedId(k) + MaskedPos(k)
    ensures 0 <= MaskedId(k) <= 0xFF_0000 && MaskedId(k) % 0x1_0000 == 0
  {
    var q := k / 0x1_0000;
    assert k == q * 0x1_0000 + k % 0x1_0000;
    assert q == q / 0x100 * 0x100 + q % 0x100;
    assert k == (q / 0x100) * 0x100_0000 + (q % 0x100) * 0x1_0000 + k % 0x1_0000;
  }

  /**
   * The comparator orders keys exactly as their tree identities are ordered:
   * by the masked id first, then by the masked position.
   */
  lemma {:induction false} CompareOrdersTreeKeys(a: Word, b: Word)
    ensures Compare(a, b) < 0 <==> TreeKey(a) < TreeKey(b)
    ensures Compare(a, b) == 0 <==> TreeKey(a) == TreeKey(b)
    ensures Compare(a, b) > 0 <==> TreeKey(a) > TreeKey(b)
  {
    TreeKeySplits(a);
    TreeKeySplits(b);
    var ia, ib := MaskedId(a) / 0x1_0000, MaskedId(b) / 0x1_0000;
    assert MaskedId(a) == ia * 0x1_0000 && MaskedId(b) == ib * 0x1_0000;
    if ia < ib {
      assert ia * 0x1_0000 + 0x1_0000 <= ib * 0x1_0000;
    } else if ia > ib {
      assert ib * 0x1_0000 + 0x1_0000 <= ia * 0x1_0000;
    }
  }

  /** Zero exactly when the masked ids and the masked positions are both equal. */
  lemma CompareZeroIffFieldsEqual(a: Word, b: Word)
    ensures Compare(a, b) == 0 <==> MaskedId(a) == MaskedId(b) && MaskedPos(a) == MaskedPos(b)
  {
  }

  /** Keys that differ only in their top byte are the same key to the tree. */
  lemma CompareIgnoresTopByte(a: Word, b: Word)
    ensures Compare(a, b) == 0 <==> a % 0x100_0000 == b % 0x100_0000
  {
    CompareOrdersTreeKeys(a, b);
  }

  /** The comparator is antisymmetric: swapping the keys negates the result. */
  lemma CompareAntisymmetric(a: Word, b: Word)
    ensures Compare(b, a) == -Compare(a, b)
  {
  }

  /** Reflexive, transitive and total: a total preorder, as a balanced tree needs. */
  lemma CompareTotalPreorder(a: Word, b: Word, c: Word)
    ensures Compare(a, a) == 0
    ensures Compare(a, b) <= 0 || Compare(b, a) <= 0
    ensures Compare(a, b) <= 0 && Compare(b, c) <= 0 ==> Compare(a, c) <= 0
    ensures Compare(a, b) == 0 && Compare(b, c) == 0 ==> Compare(a, c) == 0
  {
    CompareOrdersTreeKeys(a, b);
    CompareOrdersTreeKeys(b, c);
    CompareOrdersTreeKeys(a, c);
  }
}
