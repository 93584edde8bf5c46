/** Two small tables as linkers lay them out, for the names "a", "b" and "c" (xhook/xh_elf.c). */
module HashExamples {
  import opened Bits
  import opened CString
  import opened CharSums
  import opened ElfHash

  lemma OneCharacter(c: CChar)
    requires c < 128
    ensures GabiHash([c]) == c && GnuHash([c]) == 177573 + c
  {
    hide GabiHash, GnuHash, Power, Weigh;
    Digit(c);
    GabiHashIs([c]);
    GnuHashIs([c]);
  }

  lemma Digit(c: CChar)
    ensures Weigh([c], 16) == c && Weigh([c], 33) == c && Power(33, 1) == 33
  {
    assert Sum([c], 16, 1) == Sum([c], 16, 0) + c * Power(16, 0);
    assert Sum([c], 33, 1) == Sum([c], 33, 0) + c * Power(33, 0);
    assert Power(33, 1) == 33 * Power(33, 0);
  }

  /** Two buckets: 98 is even, 97 and 99 are odd. */
  lemma SysVTable()
    ensures HashTable([2, 1], [0, 3, 0, 0], [[], [97], [98], [99]]).WellFormed([[2], [1, 3]])
  {
    hide GabiHash;
    OneCharacter(97);
    OneCharacter(98);
    OneCharacter(99);
    var t := HashTable([2, 1], [0, 3, 0, 0], [[], [97], [98], [99]]);
    assert t.Visits(0, []);
    assert [2][1..] == [] && [3][1..] == [] && [1, 3][1..] == [3];
    assert t.Visits(3, [3]);
  }

  /** Two buckets, three words of 32 bits in the filter, a shift of 4: "a" and "c" share bucket 0, where "c" is
      the last, and "b" is alone in bucket 1. The hashes are 177670, 177672 and 177671. */
  predicate IsThree(t: GnuTable) {
    t == GnuTable(32, [1, 3], [177670, 177673, 177671], [0, 0, 449], 4, 1, [[], [97], [99], [98]])
  }

  lemma ThreeHashes(t: GnuTable)
    requires IsThree(t)
    ensures GnuHash(t.names[1]) == 177670 && GnuHash(t.names[2]) == 177672 && GnuHash(t.names[3]) == 177671
    ensures t.BucketOf(t.names[1]) == t.BucketOf(t.names[2]) == 0 && t.BucketOf(t.names[3]) == 1
    ensures |t.names| == 4 && t.symoffset == 1 && t.chain == [177670, 177673, 177671] && t.bucket == [1, 3]
  {
    hide GnuHash;
    OneCharacter(97);
    OneCharacter(98);
    OneCharacter(99);
  }

  lemma ThreeInPlace(t: GnuTable)
    requires IsThree(t)
    ensures t.Grouped() && t.Starts()
  {
    hide GnuHash, GnuTable.BucketOf;
    ThreeHashes(t);
  }

  lemma ThreeChained(t: GnuTable)
    requires IsThree(t)
    ensures t.Chains()
  {
    hide GnuHash, GnuTable.BucketOf;
    ThreeHashes(t);
  }

  lemma FilterBits()
    ensures Bit(449, 0) && Bit(449, 6) && Bit(449, 7) && Bit(449, 8)
    ensures ShiftRight(177670, 4) == ShiftRight(177671, 4) == ShiftRight(177672, 4) == 11104
  {
  }

  lemma ThreeAdmitted(t: GnuTable)
    requires IsThree(t)
    ensures t.Admits()
  {
    hide GnuHash, GnuTable.BucketOf, Bit, ShiftRight;
    ThreeHashes(t);
    FilterBits();
    forall i | 1 <= i < 4
      ensures var h := GnuHash(t.names[i]); Bit(t.BloomWord(h), h % 32) && Bit(t.BloomWord(h), ShiftRight(h, 4) % 32)
    {
      AdmitsHash(t, 177670, 6);
      AdmitsHash(t, 177672, 8);
      AdmitsHash(t, 177671, 7);
    }
  }

  lemma AdmitsHash(t: GnuTable, h: nat, k: nat)
    requires IsThree(t) && 177664 <= h < 177696 && k == h - 177664 && Bit(449, k)
    requires Bit(449, 0) && ShiftRight(h, 4) == 11104
    ensures Bit(t.BloomWord(h), h % 32) && Bit(t.BloomWord(h), ShiftRight(h, 4) % 32)
  {
    hide Bit, ShiftRight;
    assert h / 32 == 5552;
  }

  lemma GnuTableOfThree(t: GnuTable)
    requires IsThree(t)
    ensures t.WellFormed()
  {
    hide GnuHash, GnuTable.BucketOf, GnuTable.Grouped, GnuTable.Starts, GnuTable.Chains, GnuTable.Admits;
    ThreeInPlace(t);
    ThreeChained(t);
    ThreeAdmitted(t);
  }
}
