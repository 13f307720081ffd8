/**
 libebml/src/EbmlCrc32.cpp, little-endian build: the table-driven CRC-32 that takes four bytes at
 a time is the bytewise one, and both are division by the polynomial.
 */
module Crc32 {

  const POLYNOMIAL: bv32 := 0xedb88320
  const CRC32_NEGL: bv32 := 0xffffffff

  /** m_tab, in sixteen parts. */
  function Table(i: bv8): bv32 {
    Row(i >> 4, i & 15)
  }

  function Row(k: bv8, j: bv8): bv32 {
    match k
    case 0 => Part0(j) case 1 => Part1(j) case 2 => Part2(j) case 3 => Part3(j)
    case 4 => Part4(j) case 5 => Part5(j) case 6 => Part6(j) case 7 => Part7(j)
    case 8 => Part8(j) case 9 => Part9(j) case 10 => Part10(j) case 11 => Part11(j)
    case 12 => Part12(j) case 13 => Part13(j) case 14 => Part14(j) case _ => Part15(j)
  }

  function Part0(j: bv8): bv32 {
    match j
    case 0 => 0x00000000 case 1 => 0x77073096 case 2 => 0xee0e612c case 3 => 0x990951ba
    case 4 => 0x076dc419 case 5 => 0x706af48f case 6 => 0xe963a535 case 7 => 0x9e6495a3
    case 8 => 0x0edb8832 case 9 => 0x79dcb8a4 case 10 => 0xe0d5e91e case 11 => 0x97d2d988
    case 12 => 0x09b64c2b case 13 => 0x7eb17cbd case 14 => 0xe7b82d07 case _ => 0x90bf1d91
  }

  function Part1(j: bv8): bv32 {
    match j
    case 0 => 0x1db71064 case 1 => 0x6ab020f2 case 2 => 0xf3b97148 case 3 => 0x84be41de
    case 4 => 0x1adad47d case 5 => 0x6ddde4eb case 6 => 0xf4d4b551 case 7 => 0x83d385c7
    case 8 => 0x136c9856 case 9 => 0x646ba8c0 case 10 => 0xfd62f97a case 11 => 0x8a65c9ec
    case 12 => 0x14015c4f case 13 => 0x63066cd9 case 14 => 0xfa0f3d63 case _ => 0x8d080df5
  }

  function Part2(j: bv8): bv32 {
    match j
    case 0 => 0x3b6e20c8 case 1 => 0x4c69105e case 2 => 0xd56041e4 case 3 => 0xa2677172
    case 4 => 0x3c03e4d1 case 5 => 0x4b04d447 case 6 => 0xd20d85fd case 7 => 0xa50ab56b
    case 8 => 0x35b5a8fa case 9 => 0x42b2986c case 10 => 0xdbbbc9d6 case 11 => 0xacbcf940
    case 12 => 0x32d86ce3 case 13 => 0x45df5c75 case 14 => 0xdcd60dcf case _ => 0xabd13d59
  }

  function Part3(j: bv8): bv32 {
    match j
    case 0 => 0x26d930ac case 1 => 0x51de003a case 2 => 0xc8d75180 case 3 => 0xbfd06116
    case 4 => 0x21b4f4b5 case 5 => 0x56b3c423 case 6 => 0xcfba9599 case 7 => 0xb8bda50f
    case 8 => 0x2802b89e case 9 => 0x5f058808 case 10 => 0xc60cd9b2 case 11 => 0xb10be924
    case 12 => 0x2f6f7c87 case 13 => 0x58684c11 case 14 => 0xc1611dab case _ => 0xb6662d3d
  }

  function Part4(j: bv8): bv32 {
    match j
    case 0 => 0x76dc4190 case 1 => 0x01db7106 case 2 => 0x98d220bc case 3 => 0xefd5102a
    case 4 => 0x71b18589 case 5 => 0x06b6b51f case 6 => 0x9fbfe4a5 case 7 => 0xe8b8d433
    case 8 => 0x7807c9a2 case 9 => 0x0f00f934 case 10 => 0x9609a88e case 11 => 0xe10e9818
    case 12 => 0x7f6a0dbb case 13 => 0x086d3d2d case 14 => 0x91646c97 case _ => 0xe6635c01
  }

  function Part5(j: bv8): bv32 {
    match j
    case 0 => 0x6b6b51f4 case 1 => 0x1c6c6162 case 2 => 0x856530d8 case 3 => 0xf262004e
    case 4 => 0x6c0695ed case 5 => 0x1b01a57b case 6 => 0x8208f4c1 case 7 => 0xf50fc457
    case 8 => 0x65b0d9c6 case 9 => 0x12b7e950 case 10 => 0x8bbeb8ea case 11 => 0xfcb9887c
    case 12 => 0x62dd1ddf case 13 => 0x15da2d49 case 14 => 0x8cd37cf3 case _ => 0xfbd44c65
  }

  function Part6(j: bv8): bv32 {
    match j
    case 0 => 0x4db26158 case 1 => 0x3ab551ce case 2 => 0xa3bc0074 case 3 => 0xd4bb30e2
    case 4 => 0x4adfa541 case 5 => 0x3dd895d7 case 6 => 0xa4d1c46d case 7 => 0xd3d6f4fb
    case 8 => 0x4369e96a case 9 => 0x346ed9fc case 10 => 0xad678846 case 11 => 0xda60b8d0
    case 12 => 0x44042d73 case 13 => 0x33031de5 case 14 => 0xaa0a4c5f case _ => 0xdd0d7cc9
  }

  function Part7(j: bv8): bv32 {
    match j
    case 0 => 0x5005713c case 1 => 0x270241aa case 2 => 0xbe0b1010 case 3 => 0xc90c2086
    case 4 => 0x5768b525 case 5 => 0x206f85b3 case 6 => 0xb966d409 case 7 => 0xce61e49f
    case 8 => 0x5edef90e case 9 => 0x29d9c998 case 10 => 0xb0d09822 case 11 => 0xc7d7a8b4
    case 12 => 0x59b33d17 case 13 => 0x2eb40d81 case 14 => 0xb7bd5c3b case _ => 0xc0ba6cad
  }

  function Part8(j: bv8): bv32 {
    match j
    case 0 => 0xedb88320 case 1 => 0x9abfb3b6 case 2 => 0x03b6e20c case 3 => 0x74b1d29a
    case 4 => 0xead54739 case 5 => 0x9dd277af case 6 => 0x04db2615 case 7 => 0x73dc1683
    case 8 => 0xe3630b12 case 9 => 0x94643b84 case 10 => 0x0d6d6a3e case 11 => 0x7a6a5aa8
    case 12 => 0xe40ecf0b case 13 => 0x9309ff9d case 14 => 0x0a00ae27 case _ => 0x7d079eb1
  }

  function Part9(j: bv8): bv32 {
    match j
    case 0 => 0xf00f9344 case 1 => 0x8708a3d2 case 2 => 0x1e01f268 case 3 => 0x6906c2fe
    case 4 => 0xf762575d case 5 => 0x806567cb case 6 => 0x196c3671 case 7 => 0x6e6b06e7
    case 8 => 0xfed41b76 case 9 => 0x89d32be0 case 10 => 0x10da7a5a case 11 => 0x67dd4acc
    case 12 => 0xf9b9df6f case 13 => 0x8ebeeff9 case 14 => 0x17b7be43 case _ => 0x60b08ed5
  }

  function Part10(j: bv8): bv32 {
    match j
    case 0 => 0xd6d6a3e8 case 1 => 0xa1d1937e case 2 => 0x38d8c2c4 case 3 => 0x4fdff252
    case 4 => 0xd1bb67f1 case 5 => 0xa6bc5767 case 6 => 0x3fb506dd case 7 => 0x48b2364b
    case 8 => 0xd80d2bda case 9 => 0xaf0a1b4c case 10 => 0x36034af6 case 11 => 0x41047a60
    case 12 => 0xdf60efc3 case 13 => 0xa867df55 case 14 => 0x316e8eef case _ => 0x4669be79
  }

  function Part11(j: bv8): bv32 {
    match j
    case 0 => 0xcb61b38c case 1 => 0xbc66831a case 2 => 0x256fd2a0 case 3 => 0x5268e236
    case 4 => 0xcc0c7795 case 5 => 0xbb0b4703 case 6 => 0x220216b9 case 7 => 0x5505262f
    case 8 => 0xc5ba3bbe case 9 => 0xb2bd0b28 case 10 => 0x2bb45a92 case 11 => 0x5cb36a04
    case 12 => 0xc2d7ffa7 case 13 => 0xb5d0cf31 case 14 => 0x2cd99e8b case _ => 0x5bdeae1d
  }

  function Part12(j: bv8): bv32 {
    match j
    case 0 => 0x9b64c2b0 case 1 => 0xec63f226 case 2 => 0x756aa39c case 3 => 0x026d930a
    case 4 => 0x9c0906a9 case 5 => 0xeb0e363f case 6 => 0x72076785 case 7 => 0x05005713
    case 8 => 0x95bf4a82 case 9 => 0xe2b87a14 case 10 => 0x7bb12bae case 11 => 0x0cb61b38
    case 12 => 0x92d28e9b case 13 => 0xe5d5be0d case 14 => 0x7cdcefb7 case _ => 0x0bdbdf21
  }

  function Part13(j: bv8): bv32 {
    match j
    case 0 => 0x86d3d2d4 case 1 => 0xf1d4e242 case 2 => 0x68ddb3f8 case 3 => 0x1fda836e
    case 4 => 0x81be16cd case 5 => 0xf6b9265b case 6 => 0x6fb077e1 case 7 => 0x18b74777
    case 8 => 0x88085ae6 case 9 => 0xff0f6a70 case 10 => 0x66063bca case 11 => 0x11010b5c
    case 12 => 0x8f659eff case 13 => 0xf862ae69 case 14 => 0x616bffd3 case _ => 0x166ccf45
  }

  function Part14(j: bv8): bv32 {
    match j
    case 0 => 0xa00ae278 case 1 => 0xd70dd2ee case 2 => 0x4e048354 case 3 => 0x3903b3c2
    case 4 => 0xa7672661 case 5 => 0xd06016f7 case 6 => 0x4969474d case 7 => 0x3e6e77db
    case 8 => 0xaed16a4a case 9 => 0xd9d65adc case 10 => 0x40df0b66 case 11 => 0x37d83bf0
    case 12 => 0xa9bcae53 case 13 => 0xdebb9ec5 case 14 => 0x47b2cf7f case _ => 0x30b5ffe9
  }

  function Part15(j: bv8): bv32 {
    match j
    case 0 => 0xbdbdf21c case 1 => 0xcabac28a case 2 => 0x53b39330 case 3 => 0x24b4a3a6
    case 4 => 0xbad03605 case 5 => 0xcdd70693 case 6 => 0x54de5729 case 7 => 0x23d967bf
    case 8 => 0xb3667a2e case 9 => 0xc4614ab8 case 10 => 0x5d681b02 case 11 => 0x2a6f2b94
    case 12 => 0xb40bbe37 case 13 => 0xc30c8ea1 case 14 => 0x5a05df1b case _ => 0x2d02ef8d
  }

  // ---------- the table is division by the polynomial ----------

  function Xor(x: bv32, y: bv32): bv32 {
    x ^ y
  }

  function Low(x: bv32): bv8 {
    (x & 0xff) as bv8
  }

  function Wide(b: bv8): bv32 {
    b as bv32
  }

  function High(x: bv32): bv32 {
    x & 0xffffff00
  }

  /** The top byte is zero. */
  predicate Short(w: bv32) {
    w & 0xff000000 == 0
  }

  function Up(w: bv32): bv32 {
    w << 8
  }

  function Mix(a: bv8, b: bv8): bv8 {
    a ^ b
  }

  function Shift(x: bv32): bv32 {
    x >> 8
  }

  function Half(x: bv32): bv32 {
    x >> 1
  }

  predicate Odd(x: bv32) {
    x & 1 == 1
  }

  /** One bit of the division. */
  function Bit(x: bv32): bv32 {
    if Odd(x) then Xor(Half(x), POLYNOMIAL) else Half(x)
  }

  /** Eight bits of it. */
  function ByteOf(x: bv32): bv32 {
    Bit(Bit(Bit(Bit(Bit(Bit(Bit(Bit(x))))))))
  }

  // The division of the powers of two below 256, one entry at a time.
  lemma Basis0()
    ensures ByteOf(1) == 0x77073096
  {
  }

  lemma Basis1()
    ensures ByteOf(2) == 0xee0e612c
  {
  }

  lemma Basis2()
    ensures ByteOf(4) == 0x076dc419
  {
  }

  lemma Basis3()
    ensures ByteOf(8) == 0x0edb8832
  {
  }

  lemma Basis4()
    ensures ByteOf(16) == 0x1db71064
  {
  }

  lemma Basis5()
    ensures ByteOf(32) == 0x3b6e20c8
  {
  }

  lemma Basis6()
    ensures ByteOf(64) == 0x76dc4190
  {
  }

  lemma Basis7()
    ensures ByteOf(128) == 0xedb88320
  {
  }

  /** The given remainder if the bit of i is set. */
  function Pick(i: bv8, bit: bv8, t: bv32): bv32 {
    if i & bit == 0 then 0 else t
  }

  function SumLow(i: bv8): bv32 {
    Xor(Xor(Pick(i, 1, 0x77073096), Pick(i, 2, 0xee0e612c)), Xor(Pick(i, 4, 0x076dc419), Pick(i, 8, 0x0edb8832)))
  }

  function SumHigh(i: bv8): bv32 {
    Xor(Xor(Pick(i, 16, 0x1db71064), Pick(i, 32, 0x3b6e20c8)), Xor(Pick(i, 64, 0x76dc4190), Pick(i, 128, 0xedb88320)))
  }

  lemma Part0Is(j: bv8)
    requires j <= 15
    ensures Part0(j) == SumLow(j)
  {
  }

  lemma Part1Is(j: bv8)
    requires j <= 15
    ensures Part1(j) == Xor(Part0(j), 0x1db71064)
  {
  }

  lemma Part2Is(j: bv8)
    requires j <= 15
    ensures Part2(j) == Xor(Part0(j), 0x3b6e20c8)
  {
  }

  lemma Part3Is(j: bv8)
    requires j <= 15
    ensures Part3(j) == Xor(Part0(j), 0x26d930ac)
  {
  }

  lemma Part4Is(j: bv8)
    requires j <= 15
    ensures Part4(j) == Xor(Part0(j), 0x76dc4190)
  {
  }

  lemma Part5Is(j: bv8)
    requires j <= 15
    ensures Part5(j) == Xor(Part0(j), 0x6b6b51f4)
  {
  }

  lemma Part6Is(j: bv8)
    requires j <= 15
    ensures Part6(j) == Xor(Part0(j), 0x4db26158)
  {
  }

  lemma Part7Is(j: bv8)
    requires j <= 15
    ensures Part7(j) == Xor(Part0(j), 0x5005713c)
  {
  }

  lemma Part8Is(j: bv8)
    requires j <= 15
    ensures Part8(j) == Xor(Part0(j), 0xedb88320)
  {
  }

  lemma Part9Is(j: bv8)
    requires j <= 15
    ensures Part9(j) == Xor(Part0(j), 0xf00f9344)
  {
  }

  lemma Part10Is(j: bv8)
    requires j <= 15
    ensures Part10(j) == Xor(Part0(j), 0xd6d6a3e8)
  {
  }

  lemma Part11Is(j: bv8)
    requires j <= 15
    ensures Part11(j) == Xor(Part0(j), 0xcb61b38c)
  {
  }

  lemma Part12Is(j: bv8)
    requires j <= 15
    ensures Part12(j) == Xor(Part0(j), 0x9b64c2b0)
  {
  }

  lemma Part13Is(j: bv8)
    requires j <= 15
    ensures Part13(j) == Xor(Part0(j), 0x86d3d2d4)
  {
  }

  lemma Part14Is(j: bv8)
    requires j <= 15
    ensures Part14(j) == Xor(Part0(j), 0xa00ae278)
  {
  }

  lemma Part15Is(j: bv8)
    requires j <= 15
    ensures Part15(j) == Xor(Part0(j), 0xbdbdf21c)
  {
  }

  // The first entries of the parts.
  lemma HighIs(k: bv8)
    requires k <= 15
    ensures SumHigh(k << 4) == (match k
      case 0 => 0x00000000 case 1 => 0x1db71064 case 2 => 0x3b6e20c8 case 3 => 0x26d930ac
      case 4 => 0x76dc4190 case 5 => 0x6b6b51f4 case 6 => 0x4db26158 case 7 => 0x5005713c
      case 8 => 0xedb88320 case 9 => 0xf00f9344 case 10 => 0xd6d6a3e8 case 11 => 0xcb61b38c
      case 12 => 0x9b64c2b0 case 13 => 0x86d3d2d4 case 14 => 0xa00ae278 case _ => 0xbdbdf21c)
  {
  }

  /** Every entry is the sum of the remainders of its bits. */
  lemma RowIs(k: bv8, j: bv8)
    requires k <= 15 && j <= 15
    ensures Row(k, j) == Xor(SumLow(j), SumHigh(k << 4))
  {
    hide SumLow, SumHigh, Xor, Part0, Part1, Part2, Part3, Part4, Part5, Part6, Part7, Part8, Part9, Part10, Part11, Part12, Part13, Part14, Part15;
    HighIs(k);
    Part0Is(j);
    match k
    case 0 => XorSelf(Part0(j), 0);
    case 1 => Part1Is(j);
    case 2 => Part2Is(j);
    case 3 => Part3Is(j);
    case 4 => Part4Is(j);
    case 5 => Part5Is(j);
    case 6 => Part6Is(j);
    case 7 => Part7Is(j);
    case 8 => Part8Is(j);
    case 9 => Part9Is(j);
    case 10 => Part10Is(j);
    case 11 => Part11Is(j);
    case 12 => Part12Is(j);
    case 13 => Part13Is(j);
    case 14 => Part14Is(j);
    case _ => Part15Is(j);
  }

  /** Every entry of the table is its index divided by the polynomial. */
  lemma TableIsDivision(i: bv8)
    ensures Table(i) == ByteOf(Wide(i))
  {
    hide ByteOf, Row, Wide, Xor, SumLow, SumHigh;
    Nibbles(i);
    RowIs(i >> 4, i & 15);
    SumsIs(i);
    ByteOfSum(i);
  }

  lemma Nibbles(i: bv8)
    ensures i >> 4 <= 15 && i & 15 <= 15
  {
  }

  lemma SumsIs(i: bv8)
    ensures SumLow(i & 15) == SumLow(i) && SumHigh((i >> 4) << 4) == SumHigh(i)
  {
  }

  // ---------- the remainder of a sum of bits ----------

  lemma WideBits(i: bv8)
    ensures Wide(i) == Xor(
      Xor(Xor(Wide(i & 1), Wide(i & 2)), Xor(Wide(i & 4), Wide(i & 8))),
      Xor(Xor(Wide(i & 16), Wide(i & 32)), Xor(Wide(i & 64), Wide(i & 128))))
  {
  }

  lemma PickIs(i: bv8, bit: bv8, t: bv32)
    requires i & bit == 0 || i & bit == bit
    requires ByteOf(Wide(bit)) == t && ByteOf(0) == 0
    ensures ByteOf(Wide(i & bit)) == Pick(i, bit, t)
  {
    hide ByteOf;
    assert Wide(0) == 0;
  }

  lemma NoRemainder()
    ensures ByteOf(0) == 0
  {
  }

  lemma OneBit(i: bv8)
    ensures (i & 1 == 0 || i & 1 == 1) && (i & 2 == 0 || i & 2 == 2) && (i & 4 == 0 || i & 4 == 4)
    ensures (i & 8 == 0 || i & 8 == 8) && (i & 16 == 0 || i & 16 == 16) && (i & 32 == 0 || i & 32 == 32)
    ensures (i & 64 == 0 || i & 64 == 64) && (i & 128 == 0 || i & 128 == 128)
  {
  }

  lemma WidePowers()
    ensures Wide(1) == 1 && Wide(2) == 2 && Wide(4) == 4 && Wide(8) == 8
    ensures Wide(16) == 16 && Wide(32) == 32 && Wide(64) == 64 && Wide(128) == 128
  {
  }

  lemma ByteOfFour(a: bv32, b: bv32, c: bv32, d: bv32)
    ensures ByteOf(Xor(Xor(a, b), Xor(c, d))) == Xor(Xor(ByteOf(a), ByteOf(b)), Xor(ByteOf(c), ByteOf(d)))
  {
    hide ByteOf, Xor;
    ByteLinear(a, b);
    ByteLinear(c, d);
    ByteLinear(Xor(a, b), Xor(c, d));
  }

  lemma LowBits(i: bv8)
    ensures ByteOf(Xor(Xor(Wide(i & 1), Wide(i & 2)), Xor(Wide(i & 4), Wide(i & 8)))) == SumLow(i)
  {
    hide ByteOf, Xor, Wide, Pick;
    OneBit(i);
    WidePowers();
    NoRemainder();
    Basis0();
    Basis1();
    Basis2();
    Basis3();
    PickIs(i, 1, 0x77073096);
    PickIs(i, 2, 0xee0e612c);
    PickIs(i, 4, 0x076dc419);
    PickIs(i, 8, 0x0edb8832);
    ByteOfFour(Wide(i & 1), Wide(i & 2), Wide(i & 4), Wide(i & 8));
  }

  lemma HighBits(i: bv8)
    ensures ByteOf(Xor(Xor(Wide(i & 16), Wide(i & 32)), Xor(Wide(i & 64), Wide(i & 128)))) == SumHigh(i)
  {
    hide ByteOf, Xor, Wide, Pick;
    OneBit(i);
    WidePowers();
    NoRemainder();
    Basis4();
    Basis5();
    Basis6();
    Basis7();
    PickIs(i, 16, 0x1db71064);
    PickIs(i, 32, 0x3b6e20c8);
    PickIs(i, 64, 0x76dc4190);
    PickIs(i, 128, 0xedb88320);
    ByteOfFour(Wide(i & 16), Wide(i & 32), Wide(i & 64), Wide(i & 128));
  }

  lemma ByteOfSum(i: bv8)
    ensures ByteOf(Wide(i)) == Xor(SumLow(i), SumHigh(i))
  {
    hide ByteOf, Xor, Wide, SumLow, SumHigh;
    WideBits(i);
    LowBits(i);
    HighBits(i);
    ByteLinear(Xor(Xor(Wide(i & 1), Wide(i & 2)), Xor(Wide(i & 4), Wide(i & 8))),
               Xor(Xor(Wide(i & 16), Wide(i & 32)), Xor(Wide(i & 64), Wide(i & 128))));
  }

  // ---------- laws of the division ----------

  lemma XorComm(x: bv32, y: bv32)
    ensures Xor(x, y) == Xor(y, x)
  {
  }

  lemma XorAssoc(x: bv32, y: bv32, z: bv32)
    ensures Xor(Xor(x, y), z) == Xor(x, Xor(y, z))
  {
  }

  lemma XorSelf(x: bv32, y: bv32)
    ensures Xor(Xor(x, y), y) == x && Xor(x, 0) == x
  {
  }

  lemma XorParts(x: bv32, y: bv32)
    ensures Half(Xor(x, y)) == Xor(Half(x), Half(y))
    ensures Odd(Xor(x, y)) <==> Odd(x) != Odd(y)
  {
    assert x & 1 == 0 || x & 1 == 1;
    assert y & 1 == 0 || y & 1 == 1;
  }

  lemma BitLinear(x: bv32, y: bv32)
    ensures Bit(Xor(x, y)) == Xor(Bit(x), Bit(y))
  {
    hide Xor, Half, Odd;
    XorParts(x, y);
    var a, b, p := Half(x), Half(y), POLYNOMIAL;
    XorAssoc(a, b, p);
    XorComm(p, b);
    XorAssoc(a, p, b);
    XorComm(Xor(a, p), Xor(b, p));
    XorAssoc(Xor(a, p), p, b);
    XorComm(p, Xor(b, p));
    XorSelf(b, p);
    XorSelf(a, p);
    XorAssoc(Xor(a, p), b, p);
  }

  lemma ByteLinear(x: bv32, y: bv32)
    ensures ByteOf(Xor(x, y)) == Xor(ByteOf(x), ByteOf(y))
  {
    hide Bit, Xor;
    BitLinear(x, y);
    var x1, y1 := Bit(x), Bit(y);
    BitLinear(x1, y1);
    var x2, y2 := Bit(x1), Bit(y1);
    BitLinear(x2, y2);
    var x3, y3 := Bit(x2), Bit(y2);
    BitLinear(x3, y3);
    var x4, y4 := Bit(x3), Bit(y3);
    BitLinear(x4, y4);
    var x5, y5 := Bit(x4), Bit(y4);
    BitLinear(x5, y5);
    var x6, y6 := Bit(x5), Bit(y5);
    BitLinear(x6, y6);
    BitLinear(Bit(x6), Bit(y6));
  }

  /** The low n bits are zero. */
  predicate LowZeros(x: bv32, n: nat)
    decreases n
  {
    n == 0 || (!Odd(x) && LowZeros(Half(x), n - 1))
  }

  function Halves(x: bv32, n: nat): bv32
    decreases n
  {
    if n == 0 then x else Halves(Half(x), n - 1)
  }

  lemma HighOnly(x: bv32)
    ensures LowZeros(High(x), 8)
  {
    var y := High(x);
    assert y & 1 == 0 && (y >> 1) & 1 == 0 && ((y >> 1) >> 1) & 1 == 0 && (((y >> 1) >> 1) >> 1) & 1 == 0;
  }

  lemma ByteOfHalves(x: bv32)
    requires LowZeros(x, 8)
    ensures ByteOf(x) == Halves(x, 8)
  {
    hide Half, Xor, Odd;
  }

  // A multiple of 256 is shifted by eight bits of division.
  lemma ByteOfHigh(x: bv32)
    ensures ByteOf(High(x)) == Shift(x)
  {
    hide ByteOf, LowZeros;
    HighOnly(x);
    ByteOfHalves(High(x));
    HalvesOfHigh(x);
  }

  lemma HalvesOfHigh(x: bv32)
    ensures Halves(High(x), 8) == Shift(x)
  {
  }

  lemma BitInjective(x: bv32, y: bv32)
    requires Bit(x) == Bit(y)
    ensures x == y
  {
  }

  lemma ByteInjective(x: bv32, y: bv32)
    requires ByteOf(x) == ByteOf(y)
    ensures x == y
  {
    hide Bit;
    var x1, y1 := Bit(x), Bit(y);
    var x2, y2 := Bit(x1), Bit(y1);
    var x3, y3 := Bit(x2), Bit(y2);
    var x4, y4 := Bit(x3), Bit(y3);
    var x5, y5 := Bit(x4), Bit(y4);
    var x6, y6 := Bit(x5), Bit(y5);
    BitInjective(Bit(x6), Bit(y6));
    BitInjective(x6, y6);
    BitInjective(x5, y5);
    BitInjective(x4, y4);
    BitInjective(x3, y3);
    BitInjective(x2, y2);
    BitInjective(x1, y1);
    BitInjective(x, y);
  }

  // ---------- the CRC, a byte at a time ----------

  /** UpdateByte */
  function Step(c: bv32, b: bv8): bv32 {
    Xor(Table(Mix(Low(c), b)), Shift(c))
  }

  /** The bytes folded one after the other. */
  function Fold(c: bv32, bs: seq<bv8>): bv32
    decreases |bs|
  {
    if |bs| == 0 then c else Step(Fold(c, bs[..|bs| - 1]), bs[|bs| - 1])
  }

  /** What FillCRC32 must compute. */
  function CrcOf(bs: seq<bv8>): bv32 {
    Xor(Fold(CRC32_NEGL, bs), CRC32_NEGL)
  }

  lemma Parts(x: bv32)
    ensures x == Xor(Wide(Low(x)), High(x))
  {
  }

  lemma XorLow(c: bv32, b: bv8)
    ensures Low(Xor(c, Wide(b))) == Mix(Low(c), b)
  {
  }

  lemma XorShift(c: bv32, b: bv8)
    ensures Shift(Xor(c, Wide(b))) == Shift(c)
  {
  }

  lemma XorByte(c: bv32, b: bv8)
    ensures var z := Xor(c, Wide(b)); z == Xor(Wide(Mix(Low(c), b)), High(z)) && Shift(z) == Shift(c)
  {
    hide *;
    Parts(Xor(c, Wide(b)));
    XorLow(c, b);
    XorShift(c, b);
  }

  /** The table step divides the byte, added to the register, by the polynomial. */
  lemma StepIsDivision(c: bv32, b: bv8)
    ensures Step(c, b) == ByteOf(Xor(c, Wide(b)))
  {
    hide ByteOf, Table, Xor, Shift, Low, Mix, High, Wide;
    var z := Xor(c, Wide(b));
    XorByte(c, b);
    ByteLinear(Wide(Mix(Low(c), b)), High(z));
    TableIsDivision(Mix(Low(c), b));
    ByteOfHigh(z);
  }

  /** Any split of the data gives the same value. */
  lemma {:induction false} FoldSplit(c: bv32, a: seq<bv8>, b: seq<bv8>)
    ensures Fold(c, a + b) == Fold(Fold(c, a), b)
    decreases |b|
  {
    hide Step;
    if |b| == 0 {
      assert a + b == a;
    } else {
      assert (a + b)[..|a + b| - 1] == a + b[..|b| - 1];
      FoldSplit(c, a, b[..|b| - 1]);
    }
  }

  // ---------- four bytes at a time ----------

  /** A little-endian word of up to four bytes. */
  function Word(bs: seq<bv8>): bv32
    decreases |bs|
  {
    if |bs| == 0 then 0 else Xor(Wide(bs[0]), Up(Word(bs[1..])))
  }

  /** A step that adds no byte. */
  function ZeroStep(c: bv32): bv32 {
    Xor(Table(Low(c)), Shift(c))
  }

  function ZeroSteps(c: bv32, n: nat): bv32
    decreases n
  {
    if n == 0 then c else ZeroSteps(ZeroStep(c), n - 1)
  }

  lemma ZeroStepIsDivision(c: bv32)
    ensures ZeroStep(c) == ByteOf(c)
  {
    hide ByteOf, Table, Xor, Shift;
    StepIsDivision(c, 0);
    XorSelf(c, 0);
    assert Mix(Low(c), 0) == Low(c) && Wide(0) == 0;
  }

  lemma ShortWord(bs: seq<bv8>)
    requires |bs| <= 3
    ensures Short(Word(bs))
  {
    if |bs| == 1 {
      assert bs[1..] == [];
    } else if |bs| == 2 {
      assert bs[1..][1..] == [];
    } else if |bs| == 3 {
      assert bs[1..][1..][1..] == [];
    }
  }

  lemma ShiftedBack(w: bv32)
    requires Short(w)
    ensures High(Up(w)) == Up(w) && Shift(Up(w)) == w
  {
  }

  // One step consumes the lowest byte of the word and leaves the rest of it added.
  lemma OneOfWord(c: bv32, b: bv8, w: bv32)
    requires Short(w)
    ensures ZeroStep(Xor(c, Xor(Wide(b), Up(w)))) == Xor(Step(c, b), w)
  {
    hide ByteOf, Xor, ZeroStep, Step, Wide, Up, Short, High, Shift;
    XorAssoc(c, Wide(b), Up(w));
    ZeroStepIsDivision(Xor(Xor(c, Wide(b)), Up(w)));
    ByteLinear(Xor(c, Wide(b)), Up(w));
    ShiftedBack(w);
    ByteOfHigh(Up(w));
    StepIsDivision(c, b);
  }

  lemma FoldFront(c: bv32, bs: seq<bv8>)
    requires |bs| > 0
    ensures Fold(c, bs) == Fold(Step(c, bs[0]), bs[1..])
  {
    hide Step;
    assert bs == bs[..1] + bs[1..];
    FoldSplit(c, bs[..1], bs[1..]);
    assert bs[..1][..0] == [];
  }

  /** Adding a whole word and stepping once a byte is the same as folding its bytes. */
  lemma {:induction false} WordIsBytes(c: bv32, bs: seq<bv8>)
    requires |bs| <= 4
    ensures ZeroSteps(Xor(c, Word(bs)), |bs|) == Fold(c, bs)
    decreases |bs|
  {
    hide Xor, ZeroStep, Step;
    if |bs| == 0 {
      XorSelf(c, 0);
    } else {
      ShortWord(bs[1..]);
      OneOfWord(c, bs[0], Word(bs[1..]));
      WordIsBytes(Step(c, bs[0]), bs[1..]);
      FoldFront(c, bs);
    }
  }

  // ---------- the class ----------

  class EbmlCrc32 {
    var crc: bv32
    var crcFinal: bv32

    constructor ()
      ensures crc == CRC32_NEGL && crcFinal == 0
    {
      crc := CRC32_NEGL;
      crcFinal := 0;
    }

    method ResetCRC()
      modifies this`crc
      ensures crc == CRC32_NEGL
    {
      crc := CRC32_NEGL;
    }

    method UpdateByte(b: bv8)
      modifies this`crc
      ensures crc == Fold(old(crc), [b])
    {
      crc := Step(crc, b);
      assert [b][..0] == [];
    }

    /** The bytes may start at any address; whole words are taken from aligned addresses only. */
    method Update(input: seq<bv8>, address: nat)
      modifies this`crc
      ensures crc == Fold(old(crc), input)
    {
      crc := Run(crc, input, address);
    }

    method Finalize()
      modifies this
      ensures crcFinal == Xor(old(crc), CRC32_NEGL) && crc == CRC32_NEGL
    {
      crc := Xor(crc, CRC32_NEGL);
      crcFinal := crc;
      ResetCRC();
    }

    method FillCRC32(s: seq<bv8>, address: nat)
      modifies this
      ensures crcFinal == CrcOf(s) && crc == CRC32_NEGL
    {
      ResetCRC();
      Update(s, address);
      Finalize();
    }
  }

  /** The three loops shared by Update and CheckCRC. */
  method Run(start: bv32, input: seq<bv8>, address: nat) returns (crc: bv32)
    ensures crc == Fold(start, input)
  {
    hide Step, Word, Xor, Fold;
    crc := start;
    var pos := 0;
    FoldNone(start, input);
    while (address + pos) % 4 != 0 && pos < |input|
      invariant pos <= |input| && crc == Fold(start, input[..pos])
      decreases |input| - pos
    {
      FoldNext(start, input, pos);
      crc := Step(crc, input[pos]);
      pos := pos + 1;
    }
    while |input| - pos >= 4
      invariant pos <= |input| && crc == Fold(start, input[..pos])
      decreases |input| - pos
    {
      FoldWord(start, input, pos);
      crc := Xor(crc, Word(input[pos..pos + 4]));
      crc := ZeroStep(crc);
      crc := ZeroStep(crc);
      crc := ZeroStep(crc);
      crc := ZeroStep(crc);
      pos := pos + 4;
    }
    while pos < |input|
      invariant pos <= |input| && crc == Fold(start, input[..pos])
      decreases |input| - pos
    {
      FoldNext(start, input, pos);
      crc := Step(crc, input[pos]);
      pos := pos + 1;
    }
    assert input[..pos] == input;
  }

  lemma FoldNone(c: bv32, bs: seq<bv8>)
    ensures Fold(c, bs[..0]) == c
  {
  }

  lemma FoldNext(c: bv32, bs: seq<bv8>, i: nat)
    requires i < |bs|
    ensures Fold(c, bs[..i + 1]) == Step(Fold(c, bs[..i]), bs[i])
  {
    hide Step;
    assert bs[..i + 1][..i] == bs[..i];
  }

  lemma FoldWord(c: bv32, bs: seq<bv8>, i: nat)
    requires i + 4 <= |bs|
    ensures Fold(c, bs[..i + 4]) ==
      ZeroStep(ZeroStep(ZeroStep(ZeroStep(Xor(Fold(c, bs[..i]), Word(bs[i..i + 4]))))))
  {
    hide Xor, ZeroStep, Step, Word, Fold;
    assert bs[..i + 4] == bs[..i] + bs[i..i + 4];
    FoldSplit(c, bs[..i], bs[i..i + 4]);
    WordIsBytes(Fold(c, bs[..i]), bs[i..i + 4]);
    FourSteps(Xor(Fold(c, bs[..i]), Word(bs[i..i + 4])));
  }

  lemma FourSteps(c: bv32)
    ensures ZeroSteps(c, 4) == ZeroStep(ZeroStep(ZeroStep(ZeroStep(c))))
  {
    hide ZeroStep;
    var d := ZeroStep(ZeroStep(c));
    assert ZeroSteps(c, 4) == ZeroSteps(d, 2);
  }

  /** Accepts exactly the value that FillCRC32 stores for the same bytes, wherever they lie. */
  method CheckCRC(inputCRC: bv32, input: seq<bv8>, address: nat) returns (ok: bool)
    ensures ok <==> inputCRC == CrcOf(input)
  {
    var crc := Run(CRC32_NEGL, input, address);
    crc := Xor(crc, CRC32_NEGL);
    ok := crc == inputCRC;
  }

  // ---------- what the checksum detects ----------

  lemma {:induction false} FoldInjective(c: bv32, d: bv32, bs: seq<bv8>)
    requires Fold(c, bs) == Fold(d, bs)
    ensures c == d
    decreases |bs|
  {
    hide Step, ByteOf, Xor;
    if |bs| > 0 {
      var i, b := bs[..|bs| - 1], bs[|bs| - 1];
      var x, y := Fold(c, i), Fold(d, i);
      StepIsDivision(x, b);
      StepIsDivision(y, b);
      ByteInjective(Xor(x, Wide(b)), Xor(y, Wide(b)));
      XorCancel(x, y, Wide(b));
      FoldInjective(c, d, i);
    }
  }

  lemma XorCancel(x: bv32, y: bv32, z: bv32)
    requires Xor(x, z) == Xor(y, z) || Xor(z, x) == Xor(z, y)
    ensures x == y
  {
  }

  lemma {:induction false} ZeroStepsInjective(c: bv32, d: bv32, n: nat)
    requires ZeroSteps(c, n) == ZeroSteps(d, n)
    ensures c == d
    decreases n
  {
    hide ZeroStep, ByteOf;
    if n > 0 {
      ZeroStepsInjective(ZeroStep(c), ZeroStep(d), n - 1);
      ZeroStepIsDivision(c);
      ZeroStepIsDivision(d);
      ByteInjective(c, d);
    }
  }

  lemma LowestByte(b: bv8, w: bv32)
    requires Short(w)
    ensures Low(Xor(Wide(b), Up(w))) == b && Shift(Xor(Wide(b), Up(w))) == w
  {
  }

  lemma {:induction false} WordInjective(a: seq<bv8>, b: seq<bv8>)
    requires |a| == |b| <= 4 && Word(a) == Word(b)
    ensures a == b
    decreases |a|
  {
    hide Xor, Low, Wide, Up, Short, Shift;
    if |a| > 0 {
      ShortWord(a[1..]);
      ShortWord(b[1..]);
      LowestByte(a[0], Word(a[1..]));
      LowestByte(b[0], Word(b[1..]));
      WordInjective(a[1..], b[1..]);
      assert a == [a[0]] + a[1..] && b == [b[0]] + b[1..];
    }
  }

  /** Damage confined to four consecutive bytes always changes the checksum, so CheckCRC refuses it. */
  lemma BurstDetected(before: seq<bv8>, a: seq<bv8>, b: seq<bv8>, after: seq<bv8>)
    requires |a| == |b| <= 4 && a != b
    ensures CrcOf(before + a + after) != CrcOf(before + b + after)
  {
    hide Step, Xor, Word, ZeroSteps, Fold;
    if CrcOf(before + a + after) == CrcOf(before + b + after) {
      var c, x, y := Fold(CRC32_NEGL, before), Fold(CRC32_NEGL, before + a), Fold(CRC32_NEGL, before + b);
      XorCancel(Fold(CRC32_NEGL, before + a + after), Fold(CRC32_NEGL, before + b + after), CRC32_NEGL);
      FoldSplit(CRC32_NEGL, before + a, after);
      FoldSplit(CRC32_NEGL, before + b, after);
      FoldInjective(x, y, after);
      FoldSplit(CRC32_NEGL, before, a);
      FoldSplit(CRC32_NEGL, before, b);
      WordIsBytes(c, a);
      WordIsBytes(c, b);
      ZeroStepsInjective(Xor(c, Word(a)), Xor(c, Word(b)), |a|);
      XorCancel(Word(a), Word(b), c);
      WordInjective(a, b);
    }
  }
}
