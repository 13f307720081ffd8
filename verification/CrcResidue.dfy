/**
 The stored checksum (libebml/src/EbmlMaster.cpp, EbmlCrc32.cpp) as a whole: start value, final
 complement and byte order.
 */
module CrcResidue {
  import opened Bytes
  import opened Crc32
  import EbmlTree

  // ---------- the byte order ----------

  function Four(c: bv32): seq<bv8> {
    [Low(c), Low(c >> 8), Low(c >> 16), Low(c >> 24)]
  }

  lemma StoredBits(c: bv32)
    ensures EbmlTree.ToBits(EbmlTree.WordBytes(c)) == Four(c)
  {
    hide Low;
  }

  lemma WordOfFour(c: bv32)
    ensures Word(Four(c)) == c
  {
    var f := Four(c);
    assert f[1..] == [f[1], f[2], f[3]] && f[1..][1..] == [f[2], f[3]] && f[1..][1..][1..] == [f[3]];
    assert [f[3]][1..] == [];
    assert Word([f[3]]) == Xor(Wide(f[3]), Up(0));
    assert Word([f[2], f[3]]) == Xor(Wide(f[2]), Up(Word([f[3]])));
    assert Word([f[1], f[2], f[3]]) == Xor(Wide(f[1]), Up(Word([f[2], f[3]])));
    Shifts(c);
  }

  lemma Shifts(c: bv32)
    ensures Xor(Wide(Low(c)), Up(Xor(Wide(Low(c >> 8)), Up(Xor(Wide(Low(c >> 16)), Up(Xor(Wide(Low(c >> 24)), Up(0)))))))) == c
  {
  }

  // Four steps from a register of ones.
  lemma FirstStep()
    ensures ZeroStep(0xffffffff) == 0x2dfd1072
  {
  }

  lemma SecondStep()
    ensures ZeroStep(0x2dfd1072) == 0xbe26ed00
  {
  }

  lemma ThirdStep()
    ensures ZeroStep(0xbe26ed00) == 0x00be26ed
  {
  }

  lemma FourthStep()
    ensures ZeroStep(0x00be26ed) == 0xdebb20e3
  {
  }

  /** A body followed by its stored checksum always leaves the same value in the register. */
  lemma Residue(body: seq<bv8>)
    ensures Fold(CRC32_NEGL, body + EbmlTree.ToBits(EbmlTree.WordBytes(CrcOf(body)))) == 0xdebb20e3
  {
    hide ZeroStep, Step, Xor, Fold, Word;
    var r, c := Fold(CRC32_NEGL, body), CrcOf(body);
    StoredBits(c);
    FoldSplit(CRC32_NEGL, body, Four(c));
    WordIsBytes(r, Four(c));
    WordOfFour(c);
    XorAssoc(r, r, CRC32_NEGL);
    XorTwice(r);
    FourSteps(CRC32_NEGL);
    FirstStep();
    SecondStep();
    ThirdStep();
    FourthStep();
  }

  lemma XorTwice(r: bv32)
    ensures Xor(r, Xor(r, CRC32_NEGL)) == 0xffffffff
  {
  }

  // ---------- the start value ----------

  /** No byte at all, and a single zero byte. */
  lemma ShortestValues()
    ensures CrcOf([]) == 0 && CrcOf([0]) == 0xd202ef8d
  {
    hide Table;
    FirstStep();
    assert [0 as bv8][..0] == [];
    assert Mix(Low(0xffffffff), 0) == Low(0xffffffff);
    assert Fold(CRC32_NEGL, []) == 0xffffffff;
  }
}
